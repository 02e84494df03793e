/** The bytes of a page: header, slot directory, and tuples that grow towards it (slotted_page.cpp, the node classes, free_page.cpp). */
module PageImage {
  import opened Tuples
  import opened Encoding
  import opened IoManager
  import opened Options

  const PAGE_BYTES: nat := 4096
  /** What a page holds in one slot: the fields of a row, its B+ tree key, and the child of an internal entry. */
  datatype Cell = Cell(tuple: Tuple, key: Option<seq<KeyElement>>, child: Option<int>)

  datatype Piece = FieldPiece(f: Field) | KeyPiece(key: seq<KeyElement>) | ChildPiece(child: int)

  /** The tuples that a page can write: no nulls, and every value of the type of its column. */
  ghost predicate Conforms(cell: Cell, columns: seq<Column>) {
    && Sorted(cell.tuple)
    && (forall i | 0 <= i < |cell.tuple| ::
          && |cell.tuple[i].name| < TWO_32 && ValidValue(cell.tuple[i].value)
          && HasColumn(columns, cell.tuple[i].name, TypeTag(cell.tuple[i].value)))
    && (cell.key.Some? ==> ValidKey(cell.key.value))
    && (cell.child.Some? ==> -TWO_63 <= cell.child.value < TWO_63)
  }

  /** The tuples for whose slots the page has room, whatever the types of their values. */
  ghost predicate Storable(cell: Cell, columns: seq<Column>) {
    && Sorted(cell.tuple)
    && (forall i | 0 <= i < |cell.tuple| ::
          && |cell.tuple[i].name| < TWO_32 && ValidValue(cell.tuple[i].value)
          && AmongColumns(columns, cell.tuple[i].name))
    && (cell.key.Some? ==> ValidKey(cell.key.value))
    && (cell.child.Some? ==> -TWO_63 <= cell.child.value < TWO_63)
  }

  /** What a page can write of them are those whose fields have the types of their columns. */
  lemma ConformsIff(cell: Cell, columns: seq<Column>)
    requires ColumnsFit(columns)
    ensures Conforms(cell, columns) <==> Storable(cell, columns) && TypedFields(cell.tuple, columns)
  {
    hide ValidValue, ValidKey, TypeTag;
    var t := cell.tuple;
    if Conforms(cell, columns) {
      forall i | 0 <= i < |t| ensures AmongColumns(columns, t[i].name) {
        assert HasColumn(columns, t[i].name, TypeTag(t[i].value));
        var c :| 0 <= c < |columns| && columns[c] == Column(t[i].name, TypeTag(t[i].value));
      }
      forall c | 0 <= c < |columns| && Has(t, columns[c].name)
        ensures TypeTag(Get(t, columns[c].name)) == columns[c].tag
      {
        HasIndex(t, columns[c].name);
        var i :| 0 <= i < |t| && t[i].name == columns[c].name;
        GetOfField(t, i);
        assert HasColumn(columns, t[i].name, TypeTag(t[i].value));
        var d :| 0 <= d < |columns| && columns[d] == Column(t[i].name, TypeTag(t[i].value));
        assert c == d;
      }
    }
    if Storable(cell, columns) && TypedFields(t, columns) {
      forall i | 0 <= i < |t| ensures HasColumn(columns, t[i].name, TypeTag(t[i].value)) {
        var c :| 0 <= c < |columns| && columns[c].name == t[i].name;
        HasIndex(t, t[i].name);
        GetOfField(t, i);
        assert columns[c] == Column(t[i].name, TypeTag(t[i].value));
      }
    }
  }

  /** sizeOfTuple of the whole slot. */
  function CellSize(cell: Cell): nat {
    SizeOfTuple(cell.tuple)
    + (if cell.key.Some? then 4 + 13 + KeySize(cell.key.value) else 0)
    + (if cell.child.Some? then 4 + 16 + 8 else 0)
  }

  ghost predicate ValidPiece(p: Piece, columns: seq<Column>) {
    match p
    case FieldPiece(f) => |f.name| < TWO_32 && ValidValue(f.value) && HasColumn(columns, f.name, TypeTag(f.value))
    case KeyPiece(key) => ValidKey(key)
    case ChildPiece(child) => -TWO_63 <= child < TWO_63
  }

  ghost function EncodePiece(p: Piece, columns: seq<Column>): Bytes
    requires ValidPiece(p, columns)
  {
    match p
    case FieldPiece(f) => EncodeString(f.name) + EncodeValue(f.value)
    case KeyPiece(key) => EncodeString(BTREE_KEY) + EncodeKey(key)
    case ChildPiece(child) => EncodeString(CHILD_BTREE_KEY) + I64(child)
  }

  function PieceSize(p: Piece): nat {
    match p
    case FieldPiece(f) => 4 + |f.name| + SizeOfValue(f.value)
    case KeyPiece(key) => 4 + 13 + KeySize(key)
    case ChildPiece(child) => 4 + 16 + 8
  }

  lemma EncodedPieceSize(p: Piece, columns: seq<Column>)
    requires ValidPiece(p, columns)
    ensures |EncodePiece(p, columns)| == PieceSize(p) > 0
  {
    match p
    case FieldPiece(f) => EncodedValueSize(f.value);
    case KeyPiece(key) => EncodedKeySize(key);
    case ChildPiece(_) =>
  }

  // ------------------------------------------------------------- a cell in pieces

  /** The fields in the order of the columns. */
  ghost function FieldPieces(columns: seq<Column>, t: Tuple): seq<Piece> {
    if columns == [] then []
    else
      var c := columns[|columns|-1];
      FieldPieces(columns[..|columns|-1], t) + if Has(t, c.name) then [FieldPiece(Field(c.name, Get(t, c.name)))] else []
  }

  ghost function Pieces(cell: Cell, columns: seq<Column>): seq<Piece> {
    FieldPieces(columns, cell.tuple)
    + (if cell.key.Some? then [KeyPiece(cell.key.value)] else [])
    + (if cell.child.Some? then [ChildPiece(cell.child.value)] else [])
  }

  /** std::map::insert of what was read. */
  function AddPiece(cell: Cell, p: Piece): Cell {
    match p
    case FieldPiece(f) => cell.(tuple := Insert(cell.tuple, f))
    case KeyPiece(key) => if cell.key.Some? then cell else cell.(key := Some(key))
    case ChildPiece(child) => if cell.child.Some? then cell else cell.(child := Some(child))
  }

  ghost function Assemble(pieces: seq<Piece>): Cell {
    if pieces == [] then Cell([], None, None) else AddPiece(Assemble(pieces[..|pieces|-1]), pieces[|pieces|-1])
  }

  lemma AssembleAppend(pieces: seq<Piece>, p: Piece)
    ensures Assemble(pieces + [p]) == AddPiece(Assemble(pieces), p)
  {
    assert (pieces + [p])[..|pieces|] == pieces;
  }

  /** Reading the fields in column order rebuilds those of the columns read so far. */
  lemma {:induction false} AssembleFields(columns: seq<Column>, t: Tuple)
    requires forall i, j | 0 <= i < j < |columns| :: columns[i].name != columns[j].name
    ensures var cell := Assemble(FieldPieces(columns, t));
      && cell.key.None? && cell.child.None? && Sorted(cell.tuple)
      && forall n ::
        && (Has(cell.tuple, n) <==> Has(t, n) && AmongColumns(columns, n))
        && Get(cell.tuple, n) == if AmongColumns(columns, n) then Get(t, n) else Null
    decreases |columns|
  {
    if columns != [] {
      var init, c := columns[..|columns|-1], columns[|columns|-1];
      AssembleFields(init, t);
      var before := Assemble(FieldPieces(init, t));
      forall n ensures AmongColumns(columns, n) <==> AmongColumns(init, n) || n == c.name {
        AmongNext(columns, n);
      }
      assert !AmongColumns(init, c.name);
      if Has(t, c.name) {
        AssembleAppend(FieldPieces(init, t), FieldPiece(Field(c.name, Get(t, c.name))));
        PutSorted(before.tuple, c.name, Get(t, c.name));
        forall n
          ensures Get(Put(before.tuple, c.name, Get(t, c.name)), n) == if n == c.name then Get(t, c.name) else Get(before.tuple, n)
          ensures Has(Put(before.tuple, c.name, Get(t, c.name)), n) <==> n == c.name || Has(before.tuple, n)
        {
          PutGet(before.tuple, c.name, Get(t, c.name), n);
        }
      } else {
        assert FieldPieces(init, t) + [] == FieldPieces(init, t);
        AbsentIsNull(t, c.name);
      }
    }
  }

  lemma AmongNext(columns: seq<Column>, n: Bytes)
    requires columns != []
    ensures AmongColumns(columns, n) <==> AmongColumns(columns[..|columns|-1], n) || n == columns[|columns|-1].name
  {
    if AmongColumns(columns[..|columns|-1], n) {
      var i :| 0 <= i < |columns| - 1 && columns[..|columns|-1][i].name == n;
      assert columns[i].name == n;
    }
    if AmongColumns(columns, n) {
      var i :| 0 <= i < |columns| && columns[i].name == n;
      assert i < |columns| - 1 ==> columns[..|columns|-1][i].name == n;
    }
  }

  /** Reading the pieces of a cell one after the other rebuilds it. */
  lemma AssemblePieces(cell: Cell, columns: seq<Column>)
    requires ColumnsFit(columns) && Conforms(cell, columns)
    ensures Assemble(Pieces(cell, columns)) == cell
  {
    var fields := FieldPieces(columns, cell.tuple);
    AssembleFields(columns, cell.tuple);
    var read := Assemble(fields).tuple;
    forall n ensures (Has(read, n) <==> Has(cell.tuple, n)) && Get(read, n) == Get(cell.tuple, n) {
      HasIndex(cell.tuple, n);
      if Has(cell.tuple, n) {
        var i :| 0 <= i < |cell.tuple| && cell.tuple[i].name == n;
        assert HasColumn(columns, n, TypeTag(cell.tuple[i].value));
      } else {
        AbsentIsNull(cell.tuple, n);
      }
    }
    SortedUnique(read, cell.tuple);
    var withKey := fields + if cell.key.Some? then [KeyPiece(cell.key.value)] else [];
    if cell.key.Some? {
      AssembleAppend(fields, KeyPiece(cell.key.value));
    } else {
      assert withKey == fields;
    }
    if cell.child.Some? {
      AssembleAppend(withKey, ChildPiece(cell.child.value));
    } else {
      assert Pieces(cell, columns) == withKey;
    }
  }

  ghost predicate ColumnNamed(columns: seq<Column>, i: int, n: Bytes) {
    0 <= i < |columns| && columns[i].name == n
  }

  ghost predicate InColumnOrder(columns: seq<Column>, fields: seq<Piece>) {
    && (forall p | 0 <= p < |fields| :: fields[p].FieldPiece? && AmongColumns(columns, fields[p].f.name))
    && forall p, q, i, j | 0 <= p < q < |fields|
         && ColumnNamed(columns, i, fields[p].f.name) && ColumnNamed(columns, j, fields[q].f.name) :: i < j
  }

  /** The fields stand in the order of their columns, whatever the order of their names. */
  lemma {:induction false} FieldOrder(columns: seq<Column>, t: Tuple)
    requires forall i, j | 0 <= i < j < |columns| :: columns[i].name != columns[j].name
    ensures InColumnOrder(columns, FieldPieces(columns, t))
    decreases |columns|
  {
    hide InColumnOrder;
    if columns == [] {
      NoFields();
    } else {
      var n := |columns| - 1;
      FieldOrder(columns[..n], t);
      OneFieldMore(columns, FieldPieces(columns[..n], t), Get(t, columns[n].name));
      assert FieldPieces(columns[..n], t) + [] == FieldPieces(columns[..n], t);
    }
  }

  lemma NoFields()
    ensures InColumnOrder([], [])
  {
  }

  lemma OneFieldMore(columns: seq<Column>, fields: seq<Piece>, v: Value)
    requires columns != [] && forall i, j | 0 <= i < j < |columns| :: columns[i].name != columns[j].name
    requires InColumnOrder(columns[..|columns|-1], fields)
    ensures InColumnOrder(columns, fields)
    ensures InColumnOrder(columns, fields + [FieldPiece(Field(columns[|columns|-1].name, v))])
  {
    var n := |columns| - 1;
    forall p | 0 <= p < |fields| ensures AmongColumns(columns, fields[p].f.name) {
      AmongNext(columns, fields[p].f.name);
    }
    forall p, i | 0 <= p < |fields| && ColumnNamed(columns, i, fields[p].f.name)
      ensures i < n && ColumnNamed(columns[..n], i, fields[p].f.name)
    {
      var c :| 0 <= c < n && columns[..n][c].name == fields[p].f.name;
      assert columns[c].name == columns[i].name;
    }
    assert AmongColumns(columns, columns[n].name);
  }

  /** Behind them stands the key, and last the child. */
  lemma PieceOrder(cell: Cell, columns: seq<Column>)
    ensures var pieces, n := Pieces(cell, columns), |FieldPieces(columns, cell.tuple)|;
      && pieces[..n] == FieldPieces(columns, cell.tuple)
      && (cell.key.Some? ==> |pieces| > n && pieces[n] == KeyPiece(cell.key.value))
      && (cell.child.Some? ==> pieces != [] && pieces[|pieces|-1] == ChildPiece(cell.child.value))
  {
    var fields := FieldPieces(columns, cell.tuple);
    var pieces := Pieces(cell, columns);
    assert pieces[..|fields|] == fields;
  }

  // ------------------------------------------------------------- the size of a cell

  function PiecesSize(pieces: seq<Piece>): nat {
    if pieces == [] then 0 else PiecesSize(pieces[..|pieces|-1]) + PieceSize(pieces[|pieces|-1])
  }

  ghost predicate ValidPieces(pieces: seq<Piece>, columns: seq<Column>) {
    forall i | 0 <= i < |pieces| :: ValidPiece(pieces[i], columns)
  }

  ghost function PieceParts(pieces: seq<Piece>, columns: seq<Column>): (r: seq<Bytes>)
    requires ValidPieces(pieces, columns)
    ensures |r| == |pieces| && forall i | 0 <= i < |pieces| :: r[i] == EncodePiece(pieces[i], columns)
  {
    seq(|pieces|, i requires 0 <= i < |pieces| => EncodePiece(pieces[i], columns))
  }

  lemma {:induction false} PartsSize(pieces: seq<Piece>, columns: seq<Column>)
    requires ValidPieces(pieces, columns)
    ensures |Concat(PieceParts(pieces, columns))| == PiecesSize(pieces)
    decreases |pieces|
  {
    hide EncodePiece;
    if pieces != [] {
      var init := pieces[..|pieces|-1];
      PartsSize(init, columns);
      EncodedPieceSize(pieces[|pieces|-1], columns);
      assert PieceParts(pieces, columns)[..|pieces|-1] == PieceParts(init, columns);
    }
  }

  /** A tuple without one of its fields. */
  function Drop(t: Tuple, n: Bytes): Tuple {
    if t == [] then [] else if t[0].name == n then t[1..] else [t[0]] + Drop(t[1..], n)
  }

  lemma {:induction false} DropFacts(t: Tuple, n: Bytes, m: Bytes)
    requires Sorted(t)
    ensures SizeOfTuple(t) == SizeOfTuple(Drop(t, n)) + if Has(t, n) then 4 + |n| + SizeOfValue(Get(t, n)) else 0
    ensures Has(Drop(t, n), m) <==> Has(t, m) && m != n
    ensures m != n ==> Get(Drop(t, n), m) == Get(t, m)
    ensures Sorted(Drop(t, n)) && forall f :: f in Drop(t, n) ==> f in t
    decreases |t|
  {
    if t != [] {
      if t[0].name == n {
        Behind(t, m);
      } else {
        DropFacts(t[1..], n, m);
        var rest := Drop(t[1..], n);
        assert Drop(t, n)[1..] == rest;
        forall i | 0 <= i < |rest| ensures NameLess(t[0].name, rest[i].name) {
          assert rest[i] in rest && rest[i] in t[1..];
          var j :| 0 <= j < |t[1..]| && t[1..][j] == rest[i];
          assert t[j+1] == rest[i];
        }
      }
    }
  }

  lemma {:induction false} SamePieces(columns: seq<Column>, t: Tuple, u: Tuple)
    requires forall i | 0 <= i < |columns| ::
      (Has(t, columns[i].name) <==> Has(u, columns[i].name)) && Get(t, columns[i].name) == Get(u, columns[i].name)
    ensures FieldPieces(columns, t) == FieldPieces(columns, u)
    decreases |columns|
  {
    if columns != [] {
      SamePieces(columns[..|columns|-1], t, u);
    }
  }

  lemma PiecesSizeAppend(pieces: seq<Piece>, p: Piece)
    ensures PiecesSize(pieces + [p]) == PiecesSize(pieces) + PieceSize(p)
  {
    assert (pieces + [p])[..|pieces|] == pieces;
  }

  /** The fields written are all fields, whatever the order of the columns. */
  lemma {:induction false} FieldsSize(columns: seq<Column>, t: Tuple)
    requires Sorted(t)
    requires forall i, j | 0 <= i < j < |columns| :: columns[i].name != columns[j].name
    requires forall n | Has(t, n) :: AmongColumns(columns, n)
    ensures PiecesSize(FieldPieces(columns, t)) == SizeOfTuple(t)
    decreases |columns|
  {
    if columns == [] {
      assert t != [] ==> Has(t, t[0].name);
    } else {
      var init, c := columns[..|columns|-1], columns[|columns|-1];
      var u := Drop(t, c.name);
      DropFacts(t, c.name, c.name);
      forall n
        ensures Has(u, n) <==> Has(t, n) && n != c.name
        ensures n != c.name ==> Get(u, n) == Get(t, n)
        ensures Has(u, n) ==> AmongColumns(init, n)
      {
        DropFacts(t, c.name, n);
        AmongNext(columns, n);
      }
      FieldsSize(init, u);
      SamePieces(init, t, u);
      if Has(t, c.name) {
        PiecesSizeAppend(FieldPieces(init, t), FieldPiece(Field(c.name, Get(t, c.name))));
      } else {
        assert FieldPieces(columns, t) == FieldPieces(init, t);
      }
    }
  }

  lemma {:induction false} FieldPiecesValid(columns: seq<Column>, all: seq<Column>, cell: Cell)
    requires Conforms(cell, all)
    ensures ValidPieces(FieldPieces(columns, cell.tuple), all)
    decreases |columns|
  {
    if columns != [] {
      FieldPiecesValid(columns[..|columns|-1], all, cell);
      var n := columns[|columns|-1].name;
      HasIndex(cell.tuple, n);
      if Has(cell.tuple, n) {
        var i :| 0 <= i < |cell.tuple| && cell.tuple[i].name == n;
        GetOfField(cell.tuple, i);
      }
    }
  }

  /** The bytes written for a slot are as many as sizeOfTuple says. */
  lemma CellBytes(cell: Cell, columns: seq<Column>)
    requires ColumnsFit(columns) && Conforms(cell, columns)
    ensures ValidPieces(Pieces(cell, columns), columns)
    ensures |Concat(PieceParts(Pieces(cell, columns), columns))| == CellSize(cell)
  {
    FieldPiecesValid(columns, columns, cell);
    forall n | Has(cell.tuple, n) ensures AmongColumns(columns, n) {
      HasIndex(cell.tuple, n);
      var i :| 0 <= i < |cell.tuple| && cell.tuple[i].name == n;
      assert HasColumn(columns, n, TypeTag(cell.tuple[i].value));
    }
    FieldsSize(columns, cell.tuple);
    PartsSize(Pieces(cell, columns), columns);
    TrailingSize(cell, columns);
  }

  lemma TrailingSize(cell: Cell, columns: seq<Column>)
    requires PiecesSize(FieldPieces(columns, cell.tuple)) == SizeOfTuple(cell.tuple)
    ensures PiecesSize(Pieces(cell, columns)) == CellSize(cell)
  {
    var fields := FieldPieces(columns, cell.tuple);
    var withKey := fields + if cell.key.Some? then [KeyPiece(cell.key.value)] else [];
    if cell.key.Some? {
      PiecesSizeAppend(fields, KeyPiece(cell.key.value));
    } else {
      assert withKey == fields;
    }
    if cell.child.Some? {
      PiecesSizeAppend(withKey, ChildPiece(cell.child.value));
    } else {
      assert Pieces(cell, columns) == withKey;
    }
  }

  /** The image of one slot. */
  ghost function EncodeCell(cell: Cell, columns: seq<Column>): (r: Bytes)
    requires ColumnsFit(columns) && Conforms(cell, columns)
    ensures |r| == CellSize(cell)
  {
    CellBytes(cell, columns);
    Concat(PieceParts(Pieces(cell, columns), columns))
  }

  // ------------------------------------------------------------- a page

  const FREE: byte := 70
  const INTERNAL: byte := 73
  const LEAF: byte := 76

  datatype PageData = PageData(pageType: byte, prevLeaf: nat, nextLeaf: nat, parentIndex: nat,
    beginFreeSpace: nat, endFreeSpace: nat, slots: seq<nat>, cells: seq<Cell>)

  /** The numbers behind the type byte: links, the header of a slotted page, the directory. */
  function HeaderNumbers(d: PageData, leaf: bool): seq<nat> {
    (if leaf then [d.prevLeaf, d.nextLeaf] else []) + [d.parentIndex, d.beginFreeSpace, d.endFreeSpace, |d.slots|] + d.slots
  }

  function U32Parts(numbers: seq<nat>): (r: seq<Bytes>)
    ensures |r| == |numbers| && forall i | 0 <= i < |numbers| :: r[i] == U32(numbers[i])
  {
    seq(|numbers|, i requires 0 <= i < |numbers| => U32(numbers[i]))
  }

  lemma {:induction false} NumbersSize(numbers: seq<nat>, k: nat)
    requires k <= |numbers|
    ensures U32Parts(numbers)[..k] == U32Parts(numbers[..k])
    ensures |Concat(U32Parts(numbers)[..k])| == 4 * k
    decreases k
  {
    hide LittleEndian;
    assert U32Parts(numbers)[..k] == U32Parts(numbers[..k]);
    if k > 0 {
      NumbersSize(numbers, k - 1);
      assert U32Parts(numbers)[..k][..k-1] == U32Parts(numbers)[..k-1];
    }
  }

  /** Slot i begins where the one before begins, less the size of its tuple. */
  ghost predicate SlotsMatch(slots: seq<nat>, cells: seq<Cell>) {
    && |slots| == |cells|
    && forall i {:trigger cells[i]} | 0 <= i < |slots| :: slots[i] + CellSize(cells[i]) == SlotBefore(slots, i)
  }

  function SlotBefore(slots: seq<nat>, i: nat): nat
    requires i <= |slots|
  {
    if i == 0 then PAGE_BYTES else slots[i-1]
  }

  function LastSlot(slots: seq<nat>): nat {
    if slots == [] then PAGE_BYTES else slots[|slots|-1]
  }

  /** The page can be written: the directory does not meet the data. */
  ghost predicate Fits(d: PageData, leaf: bool, columns: seq<Column>) {
    && SlotsMatch(d.slots, d.cells)
    && 1 + 4 * |HeaderNumbers(d, leaf)| <= LastSlot(d.slots)
    && (forall i | 0 <= i < |HeaderNumbers(d, leaf)| :: HeaderNumbers(d, leaf)[i] < TWO_32)
    && ColumnsFit(columns) && forall i | 0 <= i < |d.cells| :: Conforms(d.cells[i], columns)
  }

  ghost predicate CellAt(raw: Bytes, d: PageData, columns: seq<Column>, i: nat)
    requires ColumnsFit(columns) && i < |d.cells| == |d.slots| && Conforms(d.cells[i], columns)
  {
    d.slots[i] + CellSize(d.cells[i]) <= |raw| && raw[d.slots[i]..d.slots[i]+CellSize(d.cells[i])] == EncodeCell(d.cells[i], columns)
  }

  ghost predicate HeaderAt(raw: Bytes, d: PageData, leaf: bool) {
    && 1 + 4 * |HeaderNumbers(d, leaf)| <= |raw| && raw[0] == d.pageType
    && raw[1..1+4*|HeaderNumbers(d, leaf)|] == Concat(U32Parts(HeaderNumbers(d, leaf)))
  }

  /** Where the numbers of a page stand: behind the type byte those of a leaf's links, then parent, free space, number of slots, and
      the slots. */
  lemma HeaderLayout(raw: Bytes, d: PageData, leaf: bool)
    requires HeaderAt(raw, d, leaf)
    ensures raw[0] == d.pageType && |raw| >= (if leaf then 25 else 17) + 4 * |d.slots|
    ensures leaf ==> raw[1..5] == U32(d.prevLeaf) && raw[5..9] == U32(d.nextLeaf)
    ensures var h := if leaf then 9 else 1;
      && raw[h..h+4] == U32(d.parentIndex) && raw[h+4..h+8] == U32(d.beginFreeSpace)
      && raw[h+8..h+12] == U32(d.endFreeSpace) && raw[h+12..h+16] == U32(|d.slots|)
      && forall i | 0 <= i < |d.slots| :: raw[h+16+4*i..h+20+4*i] == U32(d.slots[i])
  {
    hide LittleEndian, Concat;
    var numbers := HeaderNumbers(d, leaf);
    forall k | 0 <= k < |numbers| ensures raw[1+4*k..5+4*k] == U32(numbers[k]) {
      NumbersSize(numbers, k);
      NumbersSize(numbers, |numbers|);
      assert U32Parts(numbers)[..|numbers|] == U32Parts(numbers);
      ConcatIn(raw, 1, U32Parts(numbers), k);
    }
    var first := if leaf then 2 else 0;
    assert numbers[first] == d.parentIndex && numbers[first+1] == d.beginFreeSpace && numbers[first+2] == d.endFreeSpace;
    assert numbers[first+3] == |d.slots| && forall i | 0 <= i < |d.slots| :: numbers[first+4+i] == d.slots[i];
    if leaf {
      assert numbers[0] == d.prevLeaf && numbers[1] == d.nextLeaf;
    }
  }

  /** These bytes are an image of the page; the bytes between directory and data may be anything. */
  ghost predicate HasImage(raw: Bytes, d: PageData, leaf: bool, columns: seq<Column>)
    requires Fits(d, leaf, columns)
  {
    && |raw| == PAGE_BYTES && HeaderAt(raw, d, leaf)
    && forall i | 0 <= i < |d.cells| :: CellAt(raw, d, columns, i)
  }

  lemma {:induction false} SlotsDescend(slots: seq<nat>, cells: seq<Cell>, i: nat, j: nat)
    requires SlotsMatch(slots, cells) && i <= j <= |slots|
    ensures SlotBefore(slots, j) <= SlotBefore(slots, i)
    decreases j
  {
    hide CellSize;
    if i < j {
      SlotsDescend(slots, cells, i, j - 1);
      assert slots[j-1] + CellSize(cells[j-1]) == SlotBefore(slots, j - 1);
    }
  }

  lemma SlotInPage(slots: seq<nat>, cells: seq<Cell>, i: nat)
    requires SlotsMatch(slots, cells) && i < |slots|
    ensures LastSlot(slots) <= slots[i] && slots[i] + CellSize(cells[i]) == SlotBefore(slots, i) <= PAGE_BYTES
  {
    hide CellSize;
    SlotsDescend(slots, cells, 0, i);
    SlotsDescend(slots, cells, i + 1, |slots|);
  }

  lemma OverwriteElsewhere(buf: Bytes, off: nat, bs: Bytes, a: nat, b: nat)
    requires off + |bs| <= |buf| && a <= b <= |buf| && (b <= off || off + |bs| <= a)
    ensures |Overwrite(buf, off, bs)| == |buf| && Overwrite(buf, off, bs)[a..b] == buf[a..b]
  {
  }

  lemma OverwriteHere(buf: Bytes, off: nat, bs: Bytes)
    requires off + |bs| <= |buf|
    ensures Overwrite(buf, off, bs)[off..off+|bs|] == bs
  {
  }

  /** Writing a slot keeps the header and the slots before. */
  lemma WriteKeeps(raw: Bytes, d: PageData, leaf: bool, columns: seq<Column>, i: nat)
    requires Fits(d, leaf, columns) && |raw| == PAGE_BYTES && HeaderAt(raw, d, leaf) && i < |d.cells|
    requires forall j | 0 <= j < i :: CellAt(raw, d, columns, j)
    ensures d.slots[i] + CellSize(d.cells[i]) <= |raw|
    ensures var r := Overwrite(raw, d.slots[i], EncodeCell(d.cells[i], columns));
      && |r| == PAGE_BYTES && HeaderAt(r, d, leaf) && forall j | 0 <= j <= i :: CellAt(r, d, columns, j)
  {
    hide EncodeCell, Conforms, ColumnsFit, HeaderNumbers, Overwrite, CellSize;
    var bs := EncodeCell(d.cells[i], columns);
    SlotInPage(d.slots, d.cells, i);
    var r := Overwrite(raw, d.slots[i], bs);
    OverwriteHere(raw, d.slots[i], bs);
    var n := 1 + 4 * |HeaderNumbers(d, leaf)|;
    OverwriteElsewhere(raw, d.slots[i], bs, 1, n);
    OverwriteElsewhere(raw, d.slots[i], bs, 0, 1);
    assert r[0..1][0] == raw[0..1][0];
    forall j | 0 <= j < i ensures CellAt(r, d, columns, j) {
      assert CellAt(raw, d, columns, j);
      SlotsDescend(d.slots, d.cells, j + 1, i);
      SlotInPage(d.slots, d.cells, j);
      OverwriteElsewhere(raw, d.slots[i], bs, d.slots[j], d.slots[j] + CellSize(d.cells[j]));
    }
  }

  /** What loadType makes of the type byte: an unknown byte changes nothing. */
  function Loaded(pageType: byte, b: byte): byte {
    if b == FREE || b == INTERNAL || b == LEAF then b else pageType
  }

  lemma FieldPiecesPrefix(columns: seq<Column>, t: Tuple, i: nat)
    requires i < |columns|
    ensures FieldPieces(columns[..i+1], t) == FieldPieces(columns[..i], t)
      + if Has(t, columns[i].name) then [FieldPiece(Field(columns[i].name, Get(t, columns[i].name)))] else []
  {
    assert columns[..i+1][..i] == columns[..i];
  }

  /** The fields of the first columns are the first pieces of the cell. */
  lemma {:induction false} FieldPiecesFirst(columns: seq<Column>, cell: Cell, i: nat)
    requires i <= |columns|
    ensures |FieldPieces(columns[..i], cell.tuple)| <= |FieldPieces(columns, cell.tuple)| <= |Pieces(cell, columns)|
    ensures FieldPieces(columns[..i], cell.tuple) == Pieces(cell, columns)[..|FieldPieces(columns[..i], cell.tuple)|]
    decreases |columns| - i
  {
    if i == |columns| {
      assert columns[..i] == columns;
    } else {
      FieldPiecesFirst(columns, cell, i + 1);
      FieldPiecesPrefix(columns, cell.tuple, i);
    }
  }

  lemma {:induction false} PrefixSize(columns: seq<Column>, t: Tuple, i: nat)
    requires i <= |columns|
    ensures PiecesSize(FieldPieces(columns[..i], t)) <= PiecesSize(FieldPieces(columns, t))
    decreases |columns| - i
  {
    if i == |columns| {
      assert columns[..i] == columns;
    } else {
      PrefixSize(columns, t, i + 1);
      FieldPiecesPrefix(columns, t, i);
      if Has(t, columns[i].name) {
        PiecesSizeAppend(FieldPieces(columns[..i], t), FieldPiece(Field(columns[i].name, Get(t, columns[i].name))));
      } else {
        assert FieldPieces(columns[..i+1], t) == FieldPieces(columns[..i], t);
      }
    }
  }

  class SlottedPage {
    const io: IOManager
    const columns: seq<Column>
    /** A LeafBPlusNode; otherwise an InternalBPlusNode. */
    const leaf: bool
    var pageType: byte
    var prevLeaf: nat
    var nextLeaf: nat
    var parentIndex: nat
    var beginFreeSpace: nat
    var endFreeSpace: nat
    var slots: seq<nat>
    var tuples: seq<Cell>

    function Data(): PageData
      reads this
    {
      PageData(pageType, prevLeaf, nextLeaf, parentIndex, beginFreeSpace, endFreeSpace, slots, tuples)
    }

    /** A page object of its own, with a buffer of any contents. */
    constructor (leaf: bool, columns: seq<Column>)
      ensures fresh(io) && fresh(io.rawData) && io.rawData.Length == PAGE_BYTES
      ensures this.leaf == leaf && this.columns == columns && pageType == (if leaf then LEAF else INTERNAL)
      ensures tuples == [] && slots == []
    {
      this.leaf, this.columns := leaf, columns;
      pageType := if leaf then LEAF else INTERNAL;
      prevLeaf, nextLeaf, parentIndex, beginFreeSpace, endFreeSpace, slots, tuples := 0, 0, 0, 0, PAGE_BYTES, [], [];
      io := new IOManager(PAGE_BYTES);
    }

    /** reassignData: the slots, one behind the other from the end of the page. The leaf header is counted as 21 bytes. */
    method ReassignData()
      requires CellsSize(tuples) <= PAGE_BYTES
      modifies this`beginFreeSpace, this`endFreeSpace, this`slots
      ensures SlotsMatch(slots, tuples) && endFreeSpace == LastSlot(slots)
      ensures beginFreeSpace == 17 + (if pageType == INTERNAL then 0 else 4) + 4 * |tuples|
    {
      hide CellSize;
      beginFreeSpace := 17 + if pageType == INTERNAL then 0 else 4;
      endFreeSpace := PAGE_BYTES;
      slots := [];
      for i := 0 to |tuples|
        invariant beginFreeSpace == 17 + (if pageType == INTERNAL then 0 else 4) + 4 * i
        invariant |slots| == i && endFreeSpace == LastSlot(slots)
        invariant endFreeSpace + CellsSize(tuples[..i]) == PAGE_BYTES
        invariant forall j {:trigger tuples[j]} | 0 <= j < i :: slots[j] + CellSize(tuples[j]) == SlotBefore(slots, j)
      {
        assert tuples[..i+1][..i] == tuples[..i];
        CellsSizePrefix(tuples, i + 1);
        beginFreeSpace := beginFreeSpace + 4;
        endFreeSpace := endFreeSpace - CellSize(tuples[i]);
        ghost var before := slots;
        slots := slots + [endFreeSpace];
        assert forall j | 0 <= j <= i :: SlotBefore(slots, j) == SlotBefore(before, j);
      }
    }

    // ---------------------------------------------------------------- save

    method SaveType()
      requires io.rawData.Length == PAGE_BYTES
      modifies io`bufferOffset, io.rawData
      ensures io.bufferOffset == 1
      ensures io.rawData[..] == Overwrite(old(io.rawData[..]), 0, [pageType])
    {
      io.bufferOffset := 0;
      io.WriteBytes([pageType]);
    }

    method LoadType()
      requires io.rawData.Length == PAGE_BYTES
      modifies this`pageType, io`bufferOffset
      ensures io.bufferOffset == 1
      ensures pageType == Loaded(old(pageType), io.rawData[0])
    {
      io.bufferOffset := 0;
      var bs := io.ReadBytes(1);
      if bs[0] == FREE || bs[0] == INTERNAL || bs[0] == LEAF {
        pageType := bs[0];
      }
    }

    /** The first k numbers of the header have been written behind the type byte. */
    ghost predicate NumbersWritten(buf: Bytes, numbers: seq<nat>, k: nat)
      reads io, io.rawData
      requires k <= |numbers|
    {
      NumbersSize(numbers, k);
      && 1 + 4 * |numbers| <= |buf|
      && io.bufferOffset == 1 + 4 * k
      && io.rawData[..] == Overwrite(buf, 1, Concat(U32Parts(numbers)[..k]))
    }

    method WriteNumber(x: nat, ghost buf: Bytes, ghost numbers: seq<nat>, ghost k: nat)
      requires k < |numbers| && |buf| == io.rawData.Length && numbers[k] == x
      requires NumbersWritten(buf, numbers, k)
      modifies io`bufferOffset, io.rawData
      ensures NumbersWritten(buf, numbers, k + 1)
    {
      hide LittleEndian, Overwrite;
      NumbersSize(numbers, k);
      NumbersSize(numbers, k + 1);
      ConcatAt(U32Parts(numbers), k);
      OverwriteTwice(buf, 1, Concat(U32Parts(numbers)[..k]), U32(x));
      io.WriteU32(x);
    }

    /** The slots of the directory, then every tuple at its slot. */
    method SaveSlotted(ghost buf: Bytes, ghost first: nat, ghost d: PageData)
      requires io.rawData.Length == |buf| == PAGE_BYTES && Fits(d, leaf, columns)
      requires first == (if leaf then 2 else 0) && NumbersWritten(buf, HeaderNumbers(d, leaf), first)
      requires d == Data().(pageType := buf[0])
      modifies io`bufferOffset, io.rawData
      ensures HasImage(io.rawData[..], d, leaf, columns)
    {
      hide NumbersWritten, HasImage, Conforms, ColumnsFit, CellAt, HeaderAt, CellSize, EncodeCell;
      ghost var numbers := HeaderNumbers(d, leaf);
      WriteNumber(parentIndex, buf, numbers, first);
      WriteNumber(beginFreeSpace, buf, numbers, first + 1);
      WriteNumber(endFreeSpace, buf, numbers, first + 2);
      WriteNumber(|slots|, buf, numbers, first + 3);
      for i := 0 to |slots|
        invariant NumbersWritten(buf, numbers, first + 4 + i)
      {
        WriteNumber(slots[i], buf, numbers, first + 4 + i);
      }
      HeaderWritten(buf, d);
      for i := 0 to |tuples|
        invariant |io.rawData[..]| == PAGE_BYTES && HeaderAt(io.rawData[..], d, leaf)
        invariant forall j | 0 <= j < i :: CellAt(io.rawData[..], d, columns, j)
      {
        WriteKeeps(io.rawData[..], d, leaf, columns, i);
        ConformsIff(tuples[i], columns);
        var ok := WriteTuple(i);
      }
      ImageDone(io.rawData[..], d);
    }

    lemma ImageDone(raw: Bytes, d: PageData)
      requires Fits(d, leaf, columns) && |raw| == PAGE_BYTES && HeaderAt(raw, d, leaf)
      requires forall j | 0 <= j < |d.cells| :: CellAt(raw, d, columns, j)
      ensures HasImage(raw, d, leaf, columns)
    {
    }

    lemma HeaderWritten(buf: Bytes, d: PageData)
      requires |buf| == PAGE_BYTES && Fits(d, leaf, columns) && buf[0] == d.pageType
      requires NumbersWritten(buf, HeaderNumbers(d, leaf), |HeaderNumbers(d, leaf)|)
      ensures HeaderAt(io.rawData[..], d, leaf) && |io.rawData[..]| == PAGE_BYTES
    {
      hide LittleEndian, HeaderNumbers, Overwrite, Conforms, ColumnsFit;
      var numbers := HeaderNumbers(d, leaf);
      NumbersSize(numbers, |numbers|);
      var parts := U32Parts(numbers);
      assert parts[..|numbers|] == parts;
      OverwriteHere(buf, 1, Concat(parts));
      OverwriteElsewhere(buf, 1, Concat(parts), 0, 1);
      assert io.rawData[..][0..1][0] == buf[0..1][0];
    }

    /** save. The leaf writes its type byte; the internal node, which calls loadType instead, leaves in the buffer
        whatever byte is there, and takes its own type from it. */
    method Save()
      requires io.rawData.Length == PAGE_BYTES && Fits(Data(), leaf, columns)
      modifies this`pageType, io`bufferOffset, io.rawData
      ensures Fits(Data().(pageType := io.rawData[0]), leaf, columns)
      ensures HasImage(io.rawData[..], Data().(pageType := io.rawData[0]), leaf, columns)
      ensures Data() == old(Data()).(pageType := pageType)
      ensures leaf ==> pageType == old(pageType) == io.rawData[0]
      ensures !leaf ==> io.rawData[0] == old(io.rawData[0]) && pageType == Loaded(old(pageType), old(io.rawData[0]))
    {
      hide NumbersWritten, HasImage, Conforms, ColumnsFit, CellSize, EncodeCell;
      ghost var numbers := HeaderNumbers(Data(), leaf);
      ghost var buf;
      SameFit(Data(), Data());
      if leaf {
        SaveType();
        buf := io.rawData[..];
        NothingWritten(buf, numbers);
        WriteNumber(prevLeaf, buf, numbers, 0);
        WriteNumber(nextLeaf, buf, numbers, 1);
      } else {
        LoadType();
        buf := io.rawData[..];
        NothingWritten(buf, numbers);
      }
      ghost var d := Data().(pageType := buf[0]);
      SameFit(Data(), d);
      SaveSlotted(buf, if leaf then 2 else 0, d);
      FirstByte(io.rawData[..], d);
    }

    lemma NothingWritten(buf: Bytes, numbers: seq<nat>)
      requires io.bufferOffset == 1 && io.rawData[..] == buf && 1 + 4 * |numbers| <= |buf|
      ensures NumbersWritten(buf, numbers, 0)
    {
      assert Overwrite(buf, 1, []) == buf;
    }

    lemma SameFit(d: PageData, e: PageData)
      requires Fits(d, leaf, columns) && e == d.(pageType := e.pageType)
      ensures Fits(e, leaf, columns) && HeaderNumbers(e, leaf) == HeaderNumbers(d, leaf)
      ensures 1 + 4 * |HeaderNumbers(d, leaf)| <= PAGE_BYTES
    {
      hide CellSize;
      SlotsDescend(d.slots, d.cells, 0, |d.slots|);
    }

    lemma FirstByte(raw: Bytes, d: PageData)
      requires Fits(d, leaf, columns) && HasImage(raw, d, leaf, columns)
      ensures |raw| == PAGE_BYTES && raw[0] == d.pageType
    {
    }

    /** One name and value of writeTuple, for the key and the child. */
    method WritePiece(p: Piece, ghost buf: Bytes, ghost off: nat, ghost all: seq<Piece>, ghost k: nat)
      requires !p.FieldPiece? && ValidPieces(all, columns) && k < |all| && all[k] == p
      requires off + |Concat(PieceParts(all, columns))| <= |buf| == io.rawData.Length
      requires PiecesWritten(buf, off, all, k)
      modifies io`bufferOffset, io.rawData
      ensures PiecesWritten(buf, off, all, k + 1)
    {
      hide LittleEndian, EncodeKey, Concat, Overwrite;
      ghost var parts, before, at := PieceParts(all, columns), io.rawData[..], io.bufferOffset;
      ConcatAt(parts, k);
      OverwriteTwice(buf, off, Concat(parts[..k]), EncodePiece(p, columns));
      match p
      case KeyPiece(key) =>
        OverwriteTwice(before, at, EncodeString(BTREE_KEY), EncodeKey(key));
        io.WriteString(BTREE_KEY);
        io.WriteKey(key);
      case ChildPiece(child) =>
        OverwriteTwice(before, at, EncodeString(CHILD_BTREE_KEY), I64(child));
        io.WriteString(CHILD_BTREE_KEY);
        io.WriteBytes(I64(child));
    }

    /** One name and value of writeTuple, for a field: its value is written as the type of its column. */
    method WriteField(f: Field, tag: nat, ghost all: seq<Piece>, ghost buf: Bytes, ghost off: nat, ghost k: nat) returns (ok: bool)
      requires |f.name| < TWO_32 && ValidValue(f.value) && IsColumnTag(tag)
      requires io.bufferOffset + PieceSize(FieldPiece(f)) <= io.rawData.Length
      modifies io`bufferOffset, io.rawData
      ensures ok <==> TypeTag(f.value) == tag
      ensures ok ==> io.bufferOffset == old(io.bufferOffset) + PieceSize(FieldPiece(f))
      ensures ValidPieces(all, columns) && k < |all| && all[k] == FieldPiece(f) && old(PiecesWritten(buf, off, all, k)) && ok
        && off + |Concat(PieceParts(all, columns))| <= |buf| == io.rawData.Length
        ==> PiecesWritten(buf, off, all, k + 1)
    {
      hide LittleEndian, Overwrite, EncodeValue, HasColumn, Concat, TypeTag;
      ghost var before, at := io.rawData[..], io.bufferOffset;
      EncodedValueSize(f.value);
      OverwriteTwice(before, at, EncodeString(f.name), EncodeValue(f.value));
      io.WriteString(f.name);
      ok := io.WriteValue(f.value, tag);
      if ok && ValidPieces(all, columns) && k < |all| && all[k] == FieldPiece(f) && old(PiecesWritten(buf, off, all, k))
        && off + |Concat(PieceParts(all, columns))| <= |buf| == io.rawData.Length {
        PieceAdded(before, at, buf, off, all, k);
      }
    }

    /** The bytes of piece k behind those of the pieces before it. */
    lemma PieceAdded(before: Bytes, at: nat, buf: Bytes, off: nat, all: seq<Piece>, k: nat)
      requires ValidPieces(all, columns) && k < |all|
      requires off + |Concat(PieceParts(all, columns))| <= |buf| == io.rawData.Length
      requires at == off + |Concat(PieceParts(all, columns)[..k])| && at <= |buf|
      requires before == Overwrite(buf, off, Concat(PieceParts(all, columns)[..k]))
      requires at + |EncodePiece(all[k], columns)| <= |buf| && |before| == |buf|
      requires io.bufferOffset == at + |EncodePiece(all[k], columns)|
      requires io.rawData[..] == Overwrite(before, at, EncodePiece(all[k], columns))
      ensures PiecesWritten(buf, off, all, k + 1)
    {
      hide EncodePiece, Overwrite, Concat;
      var parts := PieceParts(all, columns);
      ConcatAt(parts, k);
      OverwriteTwice(buf, off, Concat(parts[..k]), EncodePiece(all[k], columns));
    }

    ghost predicate PiecesWritten(buf: Bytes, off: nat, all: seq<Piece>, k: nat)
      reads io, io.rawData
      requires ValidPieces(all, columns) && k <= |all|
    {
      && off + |Concat(PieceParts(all, columns)[..k])| <= |buf|
      && io.bufferOffset == off + |Concat(PieceParts(all, columns)[..k])|
      && io.rawData[..] == Overwrite(buf, off, Concat(PieceParts(all, columns)[..k]))
    }

    /** writeTuple: the fields in the order of the attributes, then the key, then the child. It throws exactly if some
        field does not have the type of its column, as a null value never has. */
    method WriteTuple(i: nat) returns (ok: bool)
      requires i < |slots| == |tuples| && ColumnsFit(columns) && Storable(tuples[i], columns)
      requires slots[i] + CellSize(tuples[i]) <= io.rawData.Length
      modifies io`bufferOffset, io.rawData
      ensures ok <==> TypedFields(tuples[i].tuple, columns)
      ensures ok <==> Conforms(tuples[i], columns)
      ensures ok ==> io.rawData[..] == Overwrite(old(io.rawData[..]), slots[i], EncodeCell(tuples[i], columns))
      ensures ok ==> io.bufferOffset == slots[i] + CellSize(tuples[i])
    {
      hide PiecesWritten, Conforms, Storable, Pieces, FieldPieces, CellSize, ValidPieces, TypeTag, EncodeCell, Concat;
      ghost var buf, off, all := io.rawData[..], slots[i], Pieces(tuples[i], columns);
      var cell := tuples[i];
      ConformsIff(cell, columns);
      io.bufferOffset := slots[i];
      FirstField(cell, buf, off);
      ghost var k := 0;
      for c := 0 to |columns|
        invariant forall d | 0 <= d < c && Has(cell.tuple, columns[d].name) :: TypeTag(Get(cell.tuple, columns[d].name)) == columns[d].tag
        invariant io.bufferOffset == off + PiecesSize(FieldPieces(columns[..c], cell.tuple))
        invariant Conforms(cell, columns) ==>
          && k == |FieldPieces(columns[..c], cell.tuple)| <= |all|
          && ValidPieces(all, columns) && PiecesWritten(buf, off, all, k)
          && off + |Concat(PieceParts(all, columns))| <= |buf|
      {
        NextField(cell, c);
        if Has(cell.tuple, columns[c].name) {
          FieldFits(cell, c);
          ok := WriteField(Field(columns[c].name, Get(cell.tuple, columns[c].name)), columns[c].tag, all, buf, off, k);
          if !ok {
            return;
          }
          k := k + 1;
        }
      }
      ok := true;
      LastPieces(cell);
      WriteKeyAndChild(cell, buf, off, k);
      AllPiecesWritten(buf, off, cell);
    }

    lemma FirstField(cell: Cell, buf: Bytes, off: nat)
      requires ColumnsFit(columns) && io.bufferOffset == off && io.rawData[..] == buf && off + CellSize(cell) <= |buf|
      ensures FieldPieces(columns[..0], cell.tuple) == [] && PiecesSize([]) == 0
      ensures Conforms(cell, columns) ==>
        && ValidPieces(Pieces(cell, columns), columns) && PiecesWritten(buf, off, Pieces(cell, columns), 0)
        && off + |Concat(PieceParts(Pieces(cell, columns), columns))| <= |buf|
    {
      hide Conforms, Pieces, ValidPieces, CellSize, PiecesWritten;
      if Conforms(cell, columns) {
        CellBytes(cell, columns);
        NoPieceWritten(buf, off, Pieces(cell, columns));
      }
    }

    /** A field that is written has a value of its own, and there is room for it. */
    lemma FieldFits(cell: Cell, c: nat)
      requires ColumnsFit(columns) && Storable(cell, columns) && c < |columns| && Has(cell.tuple, columns[c].name)
      ensures var f := Field(columns[c].name, Get(cell.tuple, columns[c].name));
        && |f.name| < TWO_32 && ValidValue(f.value)
        && PiecesSize(FieldPieces(columns[..c], cell.tuple)) + PieceSize(FieldPiece(f)) <= CellSize(cell)
    {
      hide PieceSize, ValidValue;
      var t, n := cell.tuple, columns[c].name;
      HasIndex(t, n);
      var i :| 0 <= i < |t| && t[i].name == n;
      GetOfField(t, i);
      FieldPiecesPrefix(columns, t, c);
      PiecesSizeAppend(FieldPieces(columns[..c], t), FieldPiece(Field(n, Get(t, n))));
      PrefixSize(columns, t, c + 1);
      forall m | Has(t, m) ensures AmongColumns(columns, m) {
        HasIndex(t, m);
      }
      FieldsSize(columns, t);
    }

    /** The last part of writeTuple. */
    method WriteKeyAndChild(cell: Cell, ghost buf: Bytes, ghost off: nat, ghost k: nat)
      requires ColumnsFit(columns) && Conforms(cell, columns)
      requires var all := Pieces(cell, columns);
        && ValidPieces(all, columns) && k == |FieldPieces(columns, cell.tuple)| <= |all|
        && off + |Concat(PieceParts(all, columns))| <= |buf| == io.rawData.Length
        && PiecesWritten(buf, off, all, k)
      modifies io`bufferOffset, io.rawData
      ensures PiecesWritten(buf, off, Pieces(cell, columns), |Pieces(cell, columns)|)
    {
      hide PiecesWritten, ColumnsFit, Conforms, Pieces, FieldPieces, ValidPieces;
      LastPieces(cell);
      ghost var all := Pieces(cell, columns);
      if cell.key.Some? {
        WritePiece(KeyPiece(cell.key.value), buf, off, all, k);
      }
      if cell.child.Some? {
        WritePiece(ChildPiece(cell.child.value), buf, off, all, |all| - 1);
      }
    }

    lemma NoPieceWritten(buf: Bytes, off: nat, all: seq<Piece>)
      requires ValidPieces(all, columns) && io.bufferOffset == off <= |buf| && io.rawData[..] == buf
      ensures PiecesWritten(buf, off, all, 0)
    {
      assert Overwrite(buf, off, []) == buf;
    }

    lemma NextField(cell: Cell, c: nat)
      requires c < |columns|
      ensures var k := |FieldPieces(columns[..c], cell.tuple)|;
        var f := FieldPiece(Field(columns[c].name, Get(cell.tuple, columns[c].name)));
        && |FieldPieces(columns[..c+1], cell.tuple)| == k + (if Has(cell.tuple, columns[c].name) then 1 else 0)
        && |FieldPieces(columns[..c+1], cell.tuple)| <= |Pieces(cell, columns)|
        && (Has(cell.tuple, columns[c].name) ==> Pieces(cell, columns)[k] == f)
        && PiecesSize(FieldPieces(columns[..c+1], cell.tuple))
             == PiecesSize(FieldPieces(columns[..c], cell.tuple)) + (if Has(cell.tuple, columns[c].name) then PieceSize(f) else 0)
    {
      PiecesSizeAppend(FieldPieces(columns[..c], cell.tuple), FieldPiece(Field(columns[c].name, Get(cell.tuple, columns[c].name))));
      assert FieldPieces(columns[..c], cell.tuple) + [] == FieldPieces(columns[..c], cell.tuple);
      FieldPiecesPrefix(columns, cell.tuple, c);
      FieldPiecesFirst(columns, cell, c + 1);
    }

    lemma LastPieces(cell: Cell)
      ensures columns[..|columns|] == columns
      ensures var k := |FieldPieces(columns, cell.tuple)|;
        && |Pieces(cell, columns)| == k + (if cell.key.Some? then 1 else 0) + (if cell.child.Some? then 1 else 0)
        && (cell.key.Some? ==> Pieces(cell, columns)[k] == KeyPiece(cell.key.value))
        && (cell.child.Some? ==> Pieces(cell, columns)[|Pieces(cell, columns)|-1] == ChildPiece(cell.child.value))
    {
    }

    lemma AllPiecesWritten(buf: Bytes, off: nat, cell: Cell)
      requires ColumnsFit(columns) && Conforms(cell, columns) && ValidPieces(Pieces(cell, columns), columns)
      requires PiecesWritten(buf, off, Pieces(cell, columns), |Pieces(cell, columns)|)
      ensures off + CellSize(cell) <= |buf| && io.bufferOffset == off + CellSize(cell)
      ensures io.rawData[..] == Overwrite(buf, off, EncodeCell(cell, columns))
    {
      hide ColumnsFit, Conforms, CellSize, Overwrite;
      var parts := PieceParts(Pieces(cell, columns), columns);
      assert parts[..|parts|] == parts;
      CellBytes(cell, columns);
    }

    // ---------------------------------------------------------------- refresh

    method ReadNumber(ghost d: PageData, ghost k: nat) returns (x: nat)
      requires HeaderAt(io.rawData[..], d, leaf) && k < |HeaderNumbers(d, leaf)| && HeaderNumbers(d, leaf)[k] < TWO_32
      requires io.bufferOffset == 1 + 4 * k
      modifies io`bufferOffset
      ensures io.bufferOffset == 1 + 4 * (k + 1)
      ensures x == HeaderNumbers(d, leaf)[k]
    {
      hide LittleEndian, HeaderNumbers, Concat;
      ghost var numbers := HeaderNumbers(d, leaf);
      NumbersSize(numbers, |numbers|);
      NumbersSize(numbers, k);
      assert U32Parts(numbers)[..|numbers|] == U32Parts(numbers);
      ConcatIn(io.rawData[..], 1, U32Parts(numbers), k);
      x := io.ReadU32(numbers[k]);
    }

    /** The type of a column, as theEntity->getAttribute finds it. */
    method TypeOf(name: Bytes, ghost tag: nat) returns (r: nat)
      requires ColumnsFit(columns) && HasColumn(columns, name, tag)
      ensures r == tag
    {
      r := 0;
      ghost var at :| 0 <= at < |columns| && columns[at] == Column(name, tag);
      for i := 0 to |columns|
        invariant i <= at
      {
        if columns[i].name == name {
          assert i == at;
          return columns[i].tag;
        }
      }
      assert false;
    }

    /** One turn of readTuple: the name decides how the value is read. */
    method ReadPiece(ghost p: Piece) returns (r: Piece)
      requires ColumnsFit(columns) && ValidPiece(p, columns)
      requires io.bufferOffset + |EncodePiece(p, columns)| <= io.rawData.Length
      requires io.rawData[io.bufferOffset..io.bufferOffset+|EncodePiece(p, columns)|] == EncodePiece(p, columns)
      modifies io`bufferOffset
      ensures io.bufferOffset == old(io.bufferOffset) + |EncodePiece(p, columns)|
      ensures r == p
    {
      hide LittleEndian, EncodeValue, EncodeKey, EncodeString, HasColumn;
      PieceHalves(io.rawData[..], io.bufferOffset, p);
      NoSpecialColumn(p);
      var name := io.ReadString(NameOf(p));
      if name == BTREE_KEY {
        var key := io.ReadKey(p.key);
        r := KeyPiece(key);
      } else if name == CHILD_BTREE_KEY {
        var v := io.ReadValue('I' as nat, Int(p.child));
        r := ChildPiece(v.i);
      } else {
        var type_ := TypeOf(name, TypeTag(p.f.value));
        var v := io.ReadValue(type_, p.f.value);
        r := FieldPiece(Field(name, v));
      }
    }

    ghost function NameOf(p: Piece): Bytes {
      match p
      case FieldPiece(f) => f.name
      case KeyPiece(_) => BTREE_KEY
      case ChildPiece(_) => CHILD_BTREE_KEY
    }

    ghost function PayloadOf(p: Piece): Bytes
      requires ValidPiece(p, columns)
    {
      match p
      case FieldPiece(f) => EncodeValue(f.value)
      case KeyPiece(key) => EncodeKey(key)
      case ChildPiece(child) => EncodeValue(Int(child))
    }

    lemma NoSpecialColumn(p: Piece)
      requires ColumnsFit(columns) && ValidPiece(p, columns)
      ensures p.FieldPiece? ==> NameOf(p) != BTREE_KEY && NameOf(p) != CHILD_BTREE_KEY
      ensures BTREE_KEY != CHILD_BTREE_KEY
    {
      assert |BTREE_KEY| == 13 && |CHILD_BTREE_KEY| == 16;
    }

    lemma PieceHalves(buf: Bytes, off: nat, p: Piece)
      requires ValidPiece(p, columns) && off + |EncodePiece(p, columns)| <= |buf|
      requires buf[off..off+|EncodePiece(p, columns)|] == EncodePiece(p, columns)
      ensures |EncodeString(NameOf(p))| == 4 + |NameOf(p)| && |NameOf(p)| < TWO_32
      ensures |EncodePiece(p, columns)| == 4 + |NameOf(p)| + |PayloadOf(p)|
      ensures buf[off..off+4+|NameOf(p)|] == EncodeString(NameOf(p))
      ensures buf[off+4+|NameOf(p)|..off+4+|NameOf(p)|+|PayloadOf(p)|] == PayloadOf(p)
      ensures p.FieldPiece? ==> |PayloadOf(p)| == SizeOfValue(p.f.value)
      ensures p.ChildPiece? ==> |PayloadOf(p)| == 8
    {
      hide LittleEndian, EncodeKey, HasColumn;
      assert |BTREE_KEY| == 13 && |CHILD_BTREE_KEY| == 16;
      if p.FieldPiece? {
        EncodedValueSize(p.f.value);
      }
      assert EncodePiece(p, columns) == EncodeString(NameOf(p)) + PayloadOf(p);
      SliceOfSlice(buf, off, EncodeString(NameOf(p)), PayloadOf(p));
    }

    /** readTuple reads pieces up to the slot before. */
    method ReadTuple(i: nat, ghost cell: Cell) returns (theTuple: Cell)
      requires i < |slots| && ColumnsFit(columns) && Conforms(cell, columns)
      requires slots[i] + CellSize(cell) == SlotBefore(slots, i) <= io.rawData.Length
      requires io.rawData[slots[i]..SlotBefore(slots, i)] == EncodeCell(cell, columns)
      modifies io`bufferOffset
      ensures theTuple == cell
    {
      hide EncodePiece, ColumnsFit, Conforms, CellSize, Pieces, AddPiece, Concat, Assemble;
      CellBytes(cell, columns);
      ghost var all := Pieces(cell, columns);
      ghost var parts := PieceParts(all, columns);
      io.bufferOffset := slots[i];
      var endOffset := if i == 0 then PAGE_BYTES else slots[i-1];
      theTuple := Cell([], None, None);
      assert parts[..|all|] == parts && all[..|all|] == all;
      NothingRead(all, parts);
      ghost var k := 0;
      while io.bufferOffset < endOffset
        invariant k <= |all| && io.bufferOffset == slots[i] + |Concat(parts[..k])|
        invariant theTuple == Assemble(all[..k])
        decreases endOffset - io.bufferOffset
      {
        ConcatIn(io.rawData[..], slots[i], parts, k);
        EncodedPieceSize(all[k], columns);
        var p := ReadPiece(all[k]);
        assert all[..k] + [all[k]] == all[..k+1];
        AssembleAppend(all[..k], p);
        theTuple := AddPiece(theTuple, p);
        k := k + 1;
      }
      AllRead(all, parts, k);
      AssemblePieces(cell, columns);
    }

    lemma NothingRead(all: seq<Piece>, parts: seq<Bytes>)
      ensures Concat(parts[..0]) == [] && Assemble(all[..0]) == Cell([], None, None)
    {
    }

    /** Every piece has bytes. */
    lemma AllRead(all: seq<Piece>, parts: seq<Bytes>, k: nat)
      requires ValidPieces(all, columns) && parts == PieceParts(all, columns) && k <= |all|
      requires |Concat(parts[..k])| >= |Concat(parts)|
      ensures k == |all|
    {
      if k < |all| {
        ConcatAt(parts, k);
        EncodedPieceSize(all[k], columns);
        assert false;
      }
    }

    /** refresh reads back the links, the directory and the tuples of the image, and computes the free space anew. */
    method Refresh(ghost d: PageData)
      requires io.rawData.Length == PAGE_BYTES && Fits(d, leaf, columns) && HasImage(io.rawData[..], d, leaf, columns)
      modifies this, io`bufferOffset
      ensures pageType == Loaded(old(pageType), d.pageType)
      ensures leaf ==> prevLeaf == d.prevLeaf && nextLeaf == d.nextLeaf
      ensures parentIndex == d.parentIndex && slots == d.slots && tuples == d.cells
      ensures endFreeSpace == LastSlot(slots)
      ensures beginFreeSpace == (if leaf then 25 else 17) + 4 * |slots|
    {
      hide HasImage, HeaderAt, CellAt, Conforms, ColumnsFit, CellSize, SlotsMatch;
      ImageHeader(d);
      LoadType();
      if leaf {
        prevLeaf := ReadNumber(d, 0);
        nextLeaf := ReadNumber(d, 1);
      }
      RefreshDirectory(d);
      RefreshTuples(d);
    }

    /** SlottedPage::refresh: its part of the header, and the directory. */
    method RefreshDirectory(ghost d: PageData)
      requires io.rawData.Length == PAGE_BYTES && Fits(d, leaf, columns) && HasImage(io.rawData[..], d, leaf, columns)
      requires io.bufferOffset == if leaf then 9 else 1
      modifies this`parentIndex, this`beginFreeSpace, this`endFreeSpace, this`slots, io`bufferOffset
      ensures parentIndex == d.parentIndex && slots == d.slots && endFreeSpace == LastSlot(slots)
      ensures beginFreeSpace == (if leaf then 25 else 17) + 4 * |slots|
    {
      hide HasImage, HeaderAt, CellAt, Conforms, ColumnsFit, CellSize, SlotsMatch;
      ImageHeader(d);
      ghost var first := if leaf then 2 else 0;
      parentIndex := ReadNumber(d, first);
      beginFreeSpace := ReadNumber(d, first + 1);
      endFreeSpace := ReadNumber(d, first + 2);
      var numSlots := ReadNumber(d, first + 3);
      slots := [];
      endFreeSpace := PAGE_BYTES;
      for i := 0 to numSlots
        modifies this`slots, this`endFreeSpace, io`bufferOffset
        invariant io.bufferOffset == 1 + 4 * (first + 4 + i)
        invariant slots == d.slots[..i] && endFreeSpace == LastSlot(slots)
      {
        var slot := ReadNumber(d, first + 4 + i);
        slots := slots + [slot];
        endFreeSpace := slot;
      }
      assert d.slots[..|d.slots|] == d.slots;
      beginFreeSpace := io.bufferOffset;
    }

    /** The rest of SlottedPage::refresh. */
    method RefreshTuples(ghost d: PageData)
      requires io.rawData.Length == PAGE_BYTES && Fits(d, leaf, columns) && HasImage(io.rawData[..], d, leaf, columns)
      requires slots == d.slots
      modifies this`tuples, io`bufferOffset
      ensures tuples == d.cells
    {
      hide Fits, HasImage, HeaderAt, CellAt, Conforms, ColumnsFit, CellSize, SlotsMatch;
      ImageHeader(d);
      tuples := [];
      for i := 0 to |slots|
        modifies this`tuples, io`bufferOffset
        invariant tuples == d.cells[..i]
      {
        ImageCell(d, i);
        var t := ReadTuple(i, d.cells[i]);
        tuples := tuples + [t];
      }
      assert d.cells[..|d.cells|] == d.cells;
    }

    lemma ImageHeader(d: PageData)
      requires Fits(d, leaf, columns) && HasImage(io.rawData[..], d, leaf, columns)
      ensures HeaderAt(io.rawData[..], d, leaf) && io.rawData[..][0] == d.pageType && |d.slots| == |d.cells|
      ensures |io.rawData[..]| == PAGE_BYTES
    {
    }

    lemma ImageCell(d: PageData, i: nat)
      requires Fits(d, leaf, columns) && HasImage(io.rawData[..], d, leaf, columns) && i < |d.cells|
      ensures ColumnsFit(columns) && Conforms(d.cells[i], columns)
      ensures |d.slots| == |d.cells| && d.slots[i] + CellSize(d.cells[i]) == SlotBefore(d.slots, i) <= io.rawData.Length
      ensures io.rawData[d.slots[i]..SlotBefore(d.slots, i)] == EncodeCell(d.cells[i], columns)
    {
      hide HeaderAt, Conforms, ColumnsFit, CellSize, EncodeCell;
      SlotInPage(d.slots, d.cells, i);
      assert CellAt(io.rawData[..], d, columns, i);
      assert io.rawData[..][d.slots[i]..SlotBefore(d.slots, i)] == io.rawData[d.slots[i]..SlotBefore(d.slots, i)];
    }
  }

  /** A page that is saved and read into another page object comes back: the same links, slots and tuples. The type
      of a leaf comes back too; the type of an internal node does only if the buffer held the right byte before. */
  method SaveAndRead(page: SlottedPage) returns (copy: SlottedPage)
    requires page.io.rawData.Length == PAGE_BYTES && Fits(page.Data(), page.leaf, page.columns)
    requires page.pageType == if page.leaf then LEAF else INTERNAL
    modifies page`pageType, page.io`bufferOffset, page.io.rawData
    ensures fresh(copy) && copy.io.rawData.Length == PAGE_BYTES
    ensures copy.leaf == page.leaf && copy.parentIndex == page.parentIndex
    ensures copy.slots == page.slots && copy.tuples == page.tuples
    ensures page.leaf ==> copy.prevLeaf == page.prevLeaf && copy.nextLeaf == page.nextLeaf
    ensures page.Data() == old(page.Data()).(pageType := page.pageType)
    ensures page.leaf ==> copy.io.rawData[0] == LEAF
    ensures !page.leaf ==> (copy.io.rawData[0] == INTERNAL <==> old(page.io.rawData[0]) == INTERNAL)
  {
    hide HasImage, Fits;
    page.Save();
    ghost var raw := page.io.rawData[..];
    copy := new SlottedPage(page.leaf, page.columns);
    copy.io.bufferOffset := 0;
    WholeBuffer(copy.io.rawData[..], raw);
    copy.io.WriteBytes(page.io.rawData[..]);
    copy.Refresh(page.Data().(pageType := raw[0]));
  }

  lemma WholeBuffer(buf: Bytes, bs: Bytes)
    ensures |buf| == |bs| ==> Overwrite(buf, 0, bs) == bs
  {
  }

  // ------------------------------------------------------------- a free page

  class FreePage {
    const io: IOManager
    var nextPage: nat

    constructor (nextPage: nat)
      ensures fresh(io) && fresh(io.rawData) && io.rawData.Length == PAGE_BYTES && this.nextPage == nextPage
    {
      this.nextPage := nextPage;
      io := new IOManager(PAGE_BYTES);
    }

    method Save()
      requires io.rawData.Length == PAGE_BYTES
      modifies io`bufferOffset, io.rawData
      ensures io.rawData[..] == Overwrite(old(io.rawData[..]), 0, [FREE] + U32(nextPage))
    {
      hide LittleEndian, Overwrite;
      OverwriteTwice(io.rawData[..], 0, [FREE], U32(nextPage));
      io.bufferOffset := 0;
      io.WriteBytes([FREE]);
      io.WriteU32(nextPage);
    }

    /** refresh reads back the link that save wrote. */
    method Refresh(ghost next: nat) returns (pageType: byte)
      requires io.rawData.Length == PAGE_BYTES && next < TWO_32
      requires io.rawData[..5] == [FREE] + U32(next)
      modifies this`nextPage, io`bufferOffset
      ensures pageType == FREE && nextPage == next
    {
      hide LittleEndian;
      SliceOfSlice(io.rawData[..], 0, [FREE], U32(next));
      io.bufferOffset := 0;
      var bs := io.ReadBytes(1);
      pageType := bs[0];
      nextPage := io.ReadU32(next);
    }
  }

  lemma {:induction false} CellsSizePrefix(cells: seq<Cell>, i: nat)
    requires i <= |cells|
    ensures CellsSize(cells[..i]) <= CellsSize(cells)
    decreases |cells|
  {
    hide CellSize;
    if i == |cells| {
      assert cells[..i] == cells;
    } else {
      CellsSizePrefix(cells[..|cells|-1], i);
      assert cells[..|cells|-1][..i] == cells[..i];
    }
  }

  function CellsSize(cells: seq<Cell>): nat {
    if cells == [] then 0 else CellsSize(cells[..|cells|-1]) + CellSize(cells[|cells|-1])
  }
}
