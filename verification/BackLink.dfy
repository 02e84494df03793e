/** The back link that storage.cpp:178 writes when a leaf is merged into the one before it. */
module BackLink {
  import opened Pages
  import opened TreeInvariant
  import opened TreeSearch
  import opened TreeDelete
  import opened Tuples
  import E = Encoding
  import U = UndoReplay

  /** mergeLeafNode of leaf l into the one before it, with the line as written: the leaf behind gets the freed leaf l as its
      prevLeaf. */
  ghost function MergeAsWritten(pages: map<nat, Page>, l: nat, rows: seq<Row>, firstFree: nat): map<nat, Page>
    requires IsLeaf(pages, l) && IsLeaf(pages, pages[l].prev) && (pages[l].next != 0 ==> IsLeaf(pages, pages[l].next))
  {
    var node := pages[l].(rows := rows);
    var left := pages[node.prev];
    var m := if node.next != 0 then pages[node.next := pages[node.next].(prev := l)] else pages;
    m[l := Free(firstFree)][node.prev := left.(rows := left.rows + node.rows, next := node.next)]
  }

  /** The branch of removeBtree that does so: leaf l, left with rows, is underfull; the next leaf is no sibling; and the previous
      one is a sibling that has nothing to lend. */
  ghost predicate MergesIntoPrev(pages: map<nat, Page>, l: nat, rows: seq<Row>) {
    && IsLeaf(pages, l) && UsedLeafEdited(rows) < MINIMUM_USED_BYTES
    && !(pages[l].next in pages && !pages[pages[l].next].Free? && pages[pages[l].next].parent == pages[l].parent)
    && IsLeaf(pages, pages[l].prev) && pages[pages[l].prev].parent == pages[l].parent
    && UsedLeafRead(pages[pages[l].prev].rows) <= MINIMUM_USED_BYTES
  }

  /** In any sound tree, removing a row so that this branch is taken keeps the sibling links if and only if there is no
      leaf behind. */
  lemma BackLinkIff(pages: map<nat, Page>, root: nat, nPage: nat, firstFree: nat, sh: Shape, chain: seq<nat>, free: seq<nat>,
      contents: map<Key, Row>, l: nat, rows: seq<Row>)
    requires Sound(pages, root, nPage, firstFree, sh, chain, free, contents) && MergesIntoPrev(pages, l, rows)
    ensures pages[l].next != 0 ==> IsLeaf(pages, pages[l].next)
    ensures MergeLinks(pages, MergeAsWritten(pages, l, rows, firstFree), pages[l].prev, l) <==> pages[l].next == 0
  {
    hide FreeInv, ContentInv, FilledExcept, PageOk, Attached, UsedLeafEdited, UsedLeafRead, LeavesBelow;
    var n := ChainPosition(pages, sh, chain, l);
    var s, next := pages[l].prev, pages[l].next;
    var m := ChainPosition(pages, sh, chain, s);
    if n + 1 < |chain| {
      assert ChainLinks(pages, chain, n + 1);
      assert s != l && s != next;
      assert MergeAsWritten(pages, l, rows, firstFree)[next].prev == l;
    }
  }

  // ------------------------------------------------------------- a tree in which it happens

  /** A table with one integer column "id". */
  function ExampleSchema(): U.Schema {
    U.Schema([105, 100], [[105, 100]], [[105, 100]], [E.Column([105, 100], 'I' as nat)])
  }

  /** Leaves 1 to 28 with eight rows each, 14 of them below page 29, 14 below page 30, and the root 31. */
  function ExampleRow(k: Key): Row {
    Row(k, [Field([105, 100], Int(k))])
  }

  lemma ExampleRowFits(k: Key)
    requires 0 <= k < 300
    ensures U.RowFits(ExampleRow(k), ExampleSchema()) && E.TypedFields(ExampleRow(k).tuple, ExampleSchema().columns)
  {
    var t: Tuple, id: Bytes := ExampleRow(k).tuple, [105, 100];
    assert Has(t, id) && Get(t, id) == Int(k);
    assert [id][1..] == [];
    assert U.FullSize(t, [id]) == 14;
    assert t[0].name in [id];
  }

  function ExampleRows(p: nat): (r: seq<Row>)
    ensures |r| == 8 && forall j | 0 <= j < 8 :: r[j] == ExampleRow(10 * p + j)
  {
    seq(8, (j: nat) => ExampleRow(10 * p + j))
  }

  function ExampleEntries(first: nat): (r: seq<Entry>)
    ensures |r| == 14 && forall i | 0 <= i < 14 :: r[i] == Entry(if i == 0 then NoKey else IntKey(10 * (first + i)), first + i)
  {
    seq(14, (i: nat) => Entry(if i == 0 then NoKey else IntKey(10 * (first + i)), first + i))
  }

  function ExamplePage(p: nat): Page {
    if p == 31 then Internal(0, [Entry(NoKey, 29), Entry(IntKey(150), 30)])
    else if p == 30 then Internal(31, ExampleEntries(15))
    else if p == 29 then Internal(31, ExampleEntries(1))
    else Leaf(if p <= 14 then 29 else 30, if p == 0 then 0 else p - 1, if p == 28 then 0 else p + 1, ExampleRows(p))
  }

  ghost function ExamplePages(): map<nat, Page> {
    map p: nat | 1 <= p <= 31 :: ExamplePage(p)
  }

  /** The keys of leaves a to b. */
  ghost predicate UsedKey(k: Key) {
    k % 10 < 8
  }

  ghost function KeysBetween(a: nat, b: nat): set<Key> {
    set k | 10 * a <= k < 10 * b + 8 && UsedKey(k)
  }

  /** A key between lies in one of the leaves between. */
  lemma KeyInLeaf(k: Key, a: nat, b: nat) returns (p: nat)
    requires k in KeysBetween(a, b)
    ensures a <= p <= b && k in KeysBetween(p, p)
  {
    p := k / 10;
  }

  lemma LeafBetween(p: nat, a: nat, b: nat)
    requires a <= p <= b
    ensures KeysBetween(p, p) <= KeysBetween(a, b) && 10 * p in KeysBetween(p, p)
    ensures forall k | k in KeysBetween(p, p) :: 10 * p <= k < 10 * p + 8
  {
  }

  function ExampleLevel(p: nat): nat {
    if p == 31 then 2 else if p >= 29 then 1 else 0
  }

  ghost function ExampleShape(): Shape {
    Shape(map p: nat | 1 <= p <= 31 :: ExampleLevel(p),
      map p: nat | 1 <= p <= 31 ::
        if p == 31 then KeysBetween(1, 28) else if p == 30 then KeysBetween(15, 28) else if p == 29 then KeysBetween(1, 14)
        else KeysBetween(p, p))
  }

  ghost function ExampleChain(): (r: seq<nat>)
    ensures |r| == 28 && forall i | 0 <= i < 28 :: r[i] == i + 1
  {
    seq(28, (i: nat) => i + 1)
  }

  ghost function ExampleContents(): map<Key, Row> {
    map k | k in KeysBetween(1, 28) :: ExampleRow(k)
  }

  lemma ExampleLeaf(p: nat)
    requires 1 <= p <= 28
    ensures KeySet(ExampleRows(p)) == KeysBetween(p, p) && SortedRows(ExampleRows(p))
  {
    forall k | k in KeysBetween(p, p) ensures k in KeySet(ExampleRows(p)) {
      assert ExampleRows(p)[k - 10 * p].key == k;
    }
  }

  lemma ExampleDom()
    ensures Dom(ExamplePages(), ExampleShape())
  {
  }

  lemma ExampleSlot(first: nat, p: nat, i: nat)
    requires ((p == 29 && first == 1) || (p == 30 && first == 15)) && i < 14
    ensures Dom(ExamplePages(), ExampleShape()) && SlotOk(ExamplePages(), ExampleShape(), p, i)
  {
    hide KeysBetween;
    ExampleDom();
    LeafBetween(first + i, first, first + 13);
  }

  lemma ExampleInner(first: nat, p: nat)
    requires (p == 29 && first == 1) || (p == 30 && first == 15)
    ensures Dom(ExamplePages(), ExampleShape()) && InternalOk(ExamplePages(), ExampleShape(), p)
  {
    hide KeysBetween, SlotOk, Dom;
    ExampleDom();
    var pages, sh, es := ExamplePages(), ExampleShape(), ExampleEntries(first);
    forall i | 0 <= i < 14 ensures SlotOk(pages, sh, p, i) {
      ExampleSlot(first, p, i);
    }
    forall k | k in sh.keys[p] ensures Covers(sh, es, k) {
      var l := KeyInLeaf(k, first, first + 13);
      assert es[l - first].child == l;
    }
  }

  lemma ExampleRootSlots()
    ensures Dom(ExamplePages(), ExampleShape())
    ensures SlotOk(ExamplePages(), ExampleShape(), 31, 0) && SlotOk(ExamplePages(), ExampleShape(), 31, 1)
  {
    ExampleDom();
    assert forall k | k in KeysBetween(1, 14) :: k in KeysBetween(1, 28) && k < 150;
    assert forall k | k in KeysBetween(15, 28) :: k in KeysBetween(1, 28) && 150 <= k;
    hide KeysBetween;
  }

  lemma ExampleRoot()
    ensures Dom(ExamplePages(), ExampleShape()) && InternalOk(ExamplePages(), ExampleShape(), 31)
  {
    hide SlotOk, Dom;
    ExampleRootSlots();
    var pages, sh, es := ExamplePages(), ExampleShape(), ExamplePage(31).entries;
    forall i | 0 <= i < 2 ensures SlotOk(pages, sh, 31, i) {
      assert i == 0 || i == 1;
    }
    forall k | k in sh.keys[31] ensures Covers(sh, es, k) {
      assert k in KeysBetween(1, 14) || k in KeysBetween(15, 28) by {
        var l := KeyInLeaf(k, 1, 28);
      }
      assert es[0].child == 29 && es[1].child == 30;
    }
  }

  lemma ExampleAttached(p: nat)
    requires 1 <= p <= 31
    ensures Dom(ExamplePages(), ExampleShape()) && Attached(ExamplePages(), ExampleShape(), 31, p)
  {
    hide KeysBetween;
    ExampleDom();
    if p < 29 {
      var first := if p <= 14 then 1 else 15;
      assert ExampleEntries(first)[p - first].child == p;
      LeafBetween(p, p, p);
      assert 10 * p in ExampleShape().keys[p];
    } else if p < 31 {
      assert ExamplePage(31).entries[p - 29].child == p;
      LeafBetween(1, 1, 14);
      LeafBetween(15, 15, 28);
      assert (if p == 29 then 10 else 150) in ExampleShape().keys[p];
    }
  }

  lemma ExampleTree()
    ensures TreeOk(ExamplePages(), ExampleShape(), 31)
  {
    hide InternalOk, Attached, KeySet, SortedRows;
    forall p | IsTreePage(ExamplePages(), p)
      ensures PageOk(ExamplePages(), ExampleShape(), p) && Attached(ExamplePages(), ExampleShape(), 31, p)
    {
      ExampleAttached(p);
      if p <= 28 {
        ExampleLeaf(p);
      } else if p == 31 {
        ExampleRoot();
      } else {
        ExampleInner(if p == 29 then 1 else 15, p);
      }
    }
  }

  lemma ExampleRowBytes(k: Key)
    ensures RowSize(ExampleRow(k)) == 51
  {
    assert ExampleRow(k).tuple[1..] == [];
    assert SizeOfTuple(ExampleRow(k).tuple) == 14;
  }

  lemma {:induction false} ExampleBytes(rows: seq<Row>)
    requires forall i | 0 <= i < |rows| :: rows[i] == ExampleRow(rows[i].key)
    ensures RowsBytes(rows) == 55 * |rows| && SmallRows(rows)
    decreases |rows|
  {
    forall i | 0 <= i < |rows| ensures RowSize(rows[i]) == 51 {
      ExampleRowBytes(rows[i].key);
    }
    if rows != [] {
      ExampleBytes(rows[..|rows|-1]);
    }
  }

  lemma ExampleFilled()
    ensures FilledExcept(ExamplePages(), 31, 0)
  {
    forall p | IsTreePage(ExamplePages(), p) ensures Filled(ExamplePages()[p], p == 31) {
      if p <= 28 { ExampleBytes(ExampleRows(p)); }
    }
  }

  lemma ExampleFree()
    ensures FreeInv(ExamplePages(), 32, 0, [])
  {
  }

  /** Removing the first row of leaf 14 from this sound tree takes that branch, with leaf 15 behind. */
  lemma BackLinkBreaks()
    ensures Sound(ExamplePages(), 31, 32, 0, ExampleShape(), ExampleChain(), [], ExampleContents())
    ensures forall k | k in ExampleContents() ::
      && U.RowFits(ExampleContents()[k], ExampleSchema())
      && E.TypedFields(ExampleContents()[k].tuple, ExampleSchema().columns)
    ensures MergesIntoPrev(ExamplePages(), 14, ExampleRows(14)[1..]) && ExamplePages()[14].next == 15
  {
    hide Sound, ExampleShape, ExampleChain, ExampleContents, U.RowFits, E.TypedFields, ExampleSchema;
    ExampleBytes(ExampleRows(14)[1..]);
    ExampleBytes(ExampleRows(13));
    ExampleIsSound();
    ExampleContentsFit();
  }

  lemma ExampleContentsFit()
    ensures forall k | k in ExampleContents() ::
      && U.RowFits(ExampleContents()[k], ExampleSchema())
      && E.TypedFields(ExampleContents()[k].tuple, ExampleSchema().columns)
  {
    hide U.RowFits, E.TypedFields, ExampleSchema;
    forall k | k in ExampleContents()
      ensures U.RowFits(ExampleContents()[k], ExampleSchema()) && E.TypedFields(ExampleContents()[k].tuple, ExampleSchema().columns)
    {
      ExampleRowFits(k);
    }
  }

  lemma ExampleIsSound()
    ensures Sound(ExamplePages(), 31, 32, 0, ExampleShape(), ExampleChain(), [], ExampleContents())
  {
    hide TreeOk, ChainInv, FreeInv, ContentInv, FilledExcept, ExamplePages, ExampleShape, ExampleChain, ExampleContents;
    ExampleTree();
    ExampleInChain();
    ExampleFree();
    ExampleContent();
    ExampleFilled();
  }

  lemma ExampleInChain()
    ensures Dom(ExamplePages(), ExampleShape()) && ChainInv(ExamplePages(), ExampleShape(), ExampleChain())
  {
    var pages, sh, chain := ExamplePages(), ExampleShape(), ExampleChain();
    forall p: nat ensures p in chain <==> IsLeaf(pages, p) {
      if IsLeaf(pages, p) { assert chain[p - 1] == p; }
    }
    forall i | 0 <= i < 28 ensures ChainLinks(pages, chain, i) {
    }
    forall i, j | 0 <= i < j < 28 ensures LeavesBelow(sh, chain[i], chain[j]) {
    }
  }

  lemma ExampleContent()
    ensures Dom(ExamplePages(), ExampleShape()) && ContentInv(ExamplePages(), ExampleShape(), 31, ExampleContents())
  {
    forall p | IsLeaf(ExamplePages(), p) ensures RowsIn(ExamplePages()[p].rows, ExampleContents()) {
      ExampleLeaf(p);
      LeafBetween(p, 1, 28);
      var rows := ExampleRows(p);
      assert forall i | 0 <= i < |rows| :: rows[i].key in KeySet(rows);
    }
  }
}
