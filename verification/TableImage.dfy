/** The pages of the tables can be written as long as their rows have the types of their columns, and not otherwise. */
module TableImage {
  import opened Tuples
  import opened Encoding
  import opened Pages
  import opened TreeInvariant
  import opened UndoReplay
  import opened UndoLog
  import opened TreeImage
  import T = TableFiles

  /** A leaf as its page object holds it after reassignData. */
  function LeafData(leaf: Page): P.PageData
    requires leaf.Leaf? && P.CellsSize(CellsOfRows(leaf.rows)) <= P.PAGE_BYTES
  {
    var cells := CellsOfRows(leaf.rows);
    P.PageData(P.LEAF, leaf.prev, leaf.next, leaf.parent, COUNTED_LEAF_HEADER + 4 * |cells|,
      P.LastSlot(SlotsOf(cells)), SlotsOf(cells), cells)
  }

  lemma RowIsStorable(row: Row, s: Schema)
    requires RowFits(row, s) && SchemaFits(s)
    ensures P.Storable(CellOfRow(row), s.columns)
    ensures P.Conforms(CellOfRow(row), s.columns) <==> TypedFields(row.tuple, s.columns)
  {
    hide TypedFields, FullSize, Sorted;
    var t := row.tuple;
    forall i | 0 <= i < |t| ensures AmongColumns(s.columns, t[i].name) {
      assert t[i].name in s.cols;
    }
    KeyIsInt64(row, s);
    P.ConformsIff(CellOfRow(row), s.columns);
  }

  lemma KeyIsInt64(row: Row, s: Schema)
    requires RowFits(row, s)
    ensures -TWO_63 <= row.key < TWO_63
  {
    if !Has(row.tuple, s.pk) {
      AbsentIsNull(row.tuple, s.pk);
      assert false;
    }
    HasIndex(row.tuple, s.pk);
    var i :| 0 <= i < |row.tuple| && row.tuple[i].name == s.pk;
    GetOfField(row.tuple, i);
    assert ValidField(row.tuple[i]);
  }

  /** The links of a leaf are page indices. */
  lemma LinksInFile(pages: map<nat, Page>, root: nat, nPage: nat, firstFree: nat, sh: Shape, chain: seq<nat>, free: seq<nat>,
      contents: map<Key, Row>, l: nat)
    requires Sound(pages, root, nPage, firstFree, sh, chain, free, contents) && IsLeaf(pages, l)
    ensures pages[l].prev < nPage && pages[l].next < nPage && pages[l].parent < nPage
  {
    hide ContentInv, FilledExcept, PageOk, LeavesBelow;
    var m :| 0 <= m < |chain| && chain[m] == l;
    assert ChainLinks(pages, chain, m);
    if m > 0 { assert chain[m-1] in chain; }
    if m + 1 < |chain| { assert chain[m+1] in chain; }
    assert IsTreePage(pages, l) && TreeOk(pages, sh, root);
    assert Attached(pages, sh, root, l);
  }

  /** writePage can write a leaf of a sound tree if and only if all its rows have the types of their columns: so not if an abort
      has put a null into one. */
  lemma LeafImageIff(pages: map<nat, Page>, root: nat, nPage: nat, firstFree: nat, sh: Shape, chain: seq<nat>, free: seq<nat>,
      contents: map<Key, Row>, l: nat, s: Schema)
    requires Sound(pages, root, nPage, firstFree, sh, chain, free, contents) && IsLeaf(pages, l) && nPage <= TWO_32
    requires SchemaFits(s) && forall i | 0 <= i < |pages[l].rows| :: RowFits(pages[l].rows[i], s)
    ensures P.CellsSize(CellsOfRows(pages[l].rows)) <= P.PAGE_BYTES
    ensures P.Fits(LeafData(pages[l]), true, s.columns)
      <==> forall i | 0 <= i < |pages[l].rows| :: TypedFields(pages[l].rows[i].tuple, s.columns)
  {
    hide Sound, RowFits, TypedFields, P.Conforms, P.CellsSize, SlotsOf, P.SlotsMatch, P.HeaderNumbers;
    var rows := pages[l].rows;
    forall i | 0 <= i < |rows|
      ensures P.Conforms(CellOfRow(rows[i]), s.columns) <==> TypedFields(rows[i].tuple, s.columns)
    {
      RowIsStorable(rows[i], s);
    }
    LinksInFile(pages, root, nPage, firstFree, sh, chain, free, contents, l);
    LeafRoom(pages, root, nPage, firstFree, sh, chain, free, contents, l);
    if forall i | 0 <= i < |rows| :: TypedFields(rows[i].tuple, s.columns) {
      LeafHasImage(pages, root, nPage, firstFree, sh, chain, free, contents, l, s.columns);
    } else {
      var i :| 0 <= i < |rows| && !TypedFields(rows[i].tuple, s.columns);
      assert LeafData(pages[l]).cells[i] == CellOfRow(rows[i]);
    }
  }

  lemma LeafRoom(pages: map<nat, Page>, root: nat, nPage: nat, firstFree: nat, sh: Shape, chain: seq<nat>, free: seq<nat>,
      contents: map<Key, Row>, l: nat)
    requires Sound(pages, root, nPage, firstFree, sh, chain, free, contents) && IsLeaf(pages, l)
    ensures P.CellsSize(CellsOfRows(pages[l].rows)) <= P.PAGE_BYTES
  {
    hide Sound, TreeFacts.TupleBytes, P.CellsSize;
    TreeFacts.LeafFitsPage(pages, root, nPage, firstFree, sh, chain, free, contents, l);
    RowsSize(pages[l].rows);
  }

  /** setBTree of a row into a table of typed rows: the leaf that gets the row can be written if and only if the row has the types
      of its columns, and all other leaves can be written. */
  lemma RowSetIff(pages: map<nat, Page>, root: nat, nPage: nat, firstFree: nat, sh: Shape, chain: seq<nat>, free: seq<nat>,
      contents: map<Key, Row>, row: Row, l: nat, s: Schema)
    requires Sound(pages, root, nPage, firstFree, sh, chain, free, contents[row.key := row]) && nPage <= TWO_32
    requires SchemaFits(s) && RowFits(row, s)
    requires forall k | k in contents :: RowFits(contents[k], s) && TypedFields(contents[k].tuple, s.columns)
    requires IsLeaf(pages, l)
    ensures P.CellsSize(CellsOfRows(pages[l].rows)) <= P.PAGE_BYTES
    ensures row in pages[l].rows ==> (P.Fits(LeafData(pages[l]), true, s.columns) <==> TypedFields(row.tuple, s.columns))
    ensures row !in pages[l].rows ==> P.Fits(LeafData(pages[l]), true, s.columns)
  {
    hide P.Fits, RowFits, TypedFields, P.CellsSize, Sound, LeafData, SchemaFits;
    var rows, contents' := pages[l].rows, contents[row.key := row];
    LeafRows(pages, root, nPage, firstFree, sh, chain, free, contents', l);
    forall i | 0 <= i < |rows|
      ensures RowFits(rows[i], s) && (rows[i] != row ==> TypedFields(rows[i].tuple, s.columns))
    {
      assert contents'[rows[i].key] == rows[i];
    }
    LeafImageIff(pages, root, nPage, firstFree, sh, chain, free, contents', l, s);
  }

  /** So between any two statements every leaf of every table can be written. */
  lemma LeavesAreWritable(files: T.TableFiles, table: Bytes, l: nat)
    requires files.Wired() && table in files.storages && IsLeaf(files.storages[table].pages, l)
    requires files.storages[table].nPage <= TWO_32
    ensures table in files.schemas && P.CellsSize(CellsOfRows(files.storages[table].pages[l].rows)) <= P.PAGE_BYTES
    ensures P.Fits(LeafData(files.storages[table].pages[l]), true, files.schemas[table].columns)
  {
    hide P.Fits, RowFits, TypedFields, P.CellsSize, Sound;
    var st, s := files.storages[table], files.schemas[table];
    var rows := st.pages[l].rows;
    assert st.Valid();
    LeafRows(st.pages, st.root, st.nPage, st.firstFreePage, st.sh, st.chain, st.free, st.contents, l);
    forall i | 0 <= i < |rows|
      ensures RowFits(rows[i], s) && TypedFields(rows[i].tuple, s.columns)
    {
      assert files.Tables()[table][rows[i].key] == rows[i];
    }
    LeafImageIff(st.pages, st.root, st.nPage, st.firstFreePage, st.sh, st.chain, st.free, st.contents, l, s);
  }

  lemma LeafRows(pages: map<nat, Page>, root: nat, nPage: nat, firstFree: nat, sh: Shape, chain: seq<nat>, free: seq<nat>,
      contents: map<Key, Row>, l: nat)
    requires Sound(pages, root, nPage, firstFree, sh, chain, free, contents) && IsLeaf(pages, l)
    ensures RowsIn(pages[l].rows, contents)
  {
  }
}
