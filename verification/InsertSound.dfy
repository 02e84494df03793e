/** The steps of an insertion keep the invariant of the whole table file. */
module InsertSound {
  import opened Pages
  import opened TreeInvariant
  import opened TreeSearch
  import opened TreeInsert

  /** Writing tree pages, the taken page x among them, keeps the free list. */
  lemma FrameFree(pages: map<nat, Page>, pages': map<nat, Page>, nPage: nat, firstFree: nat, free: seq<nat>, x: nat)
    requires FreeInvExcept(pages, nPage, firstFree, free, x)
    requires x != 0 ==> IsTreePage(pages', x)
    requires forall p | p != x || x == 0 :: p in pages' <==> p in pages
    requires forall p | (p != x || x == 0) && p in pages :: pages'[p] == pages[p] || (IsTreePage(pages, p) && IsTreePage(pages', p))
    ensures FreeInv(pages', nPage, firstFree, free)
  {
    forall i | 0 <= i < |free|
      ensures FreeLink(pages', free, i)
    {
      assert FreeLink(pages, free, i);
      assert free[i] in free;
    }
  }

  // ---------------------------------------------------------------- adding a row

  /** Where AddTuple puts a row: behind the last row with a smaller key. */
  ghost predicate InsertedAt(rows: seq<Row>, rows': seq<Row>, row: Row, i: nat) {
    && i <= |rows|
    && rows' == rows[..i] + [row] + rows[i..]
    && (forall j | 0 <= j < i :: rows[j].key < row.key)
    && (forall j | i <= j < |rows| :: row.key < rows[j].key)
  }

  lemma InsertedRows(rows: seq<Row>, rows': seq<Row>, row: Row, i: nat)
    requires SortedRows(rows) && InsertedAt(rows, rows', row, i)
    ensures SortedRows(rows')
    ensures KeySet(rows') == KeySet(rows) + {row.key}
  {
    forall k | k in KeySet(rows) + {row.key}
      ensures k in KeySet(rows')
    {
      if k == row.key {
        assert rows'[i].key == k;
      } else {
        var j :| 0 <= j < |rows| && rows[j].key == k;
        assert rows'[if j < i then j else j + 1] == rows[j];
      }
    }
  }

  lemma InsertedExactly(rows: seq<Row>, rows': seq<Row>, row: Row, i: nat)
    requires SortedRows(rows) && InsertedAt(rows, rows', row, i)
    ensures SortedRows(rows') && multiset(rows') == multiset(rows) + multiset{row}
  {
    InsertedRows(rows, rows', row, i);
    hide SortedRows;
    assert rows == rows[..i] + rows[i..];
  }

  lemma InsertedBytes(rows: seq<Row>, rows': seq<Row>, row: Row, i: nat)
    requires InsertedAt(rows, rows', row, i)
    ensures RowsBytes(rows') == RowsBytes(rows) + 4 + RowSize(row)
  {
    assert rows == rows[..i] + rows[i..];
    RowsBytesConcat(rows[..i], rows[i..]);
    RowsBytesConcat(rows[..i] + [row], rows[i..]);
    RowsBytesConcat(rows[..i], [row]);
    assert [row][..0] == [];
  }

  lemma InsertedRowsIn(rows: seq<Row>, rows': seq<Row>, row: Row, i: nat, contents: map<Key, Row>)
    requires InsertedAt(rows, rows', row, i) && RowsIn(rows, contents)
    ensures RowsIn(rows', contents[row.key := row])
  {
    forall j | 0 <= j < |rows'|
      ensures rows'[j].key in contents[row.key := row] && contents[row.key := row][rows'[j].key] == rows'[j]
    {
      if j < i { assert rows'[j] == rows[j]; } else if j > i { assert rows'[j] == rows[j-1]; }
    }
  }

  /** Adding a row to the leaf its search leads to; the leaf may become overfull. */
  lemma AddRowSound(pages: map<nat, Page>, root: nat, nPage: nat, firstFree: nat,
      sh: Shape, chain: seq<nat>, free: seq<nat>, contents: map<Key, Row>,
      S: set<nat>, l: nat, row: Row, rows: seq<Row>, i: nat)
    requires SoundExcept(pages, root, nPage, firstFree, sh, chain, free, contents, 0)
    requires SearchPath(pages, S, root, row.key, l) && Isolates(sh, root, l, row.key)
    requires row.key !in contents && InsertedAt(pages[l].rows, rows, row, i)
    ensures SoundExcept(pages[l := pages[l].(rows := rows)], root, nPage, firstFree,
              ShapeWithKey(sh, S, row.key), chain, free, contents[row.key := row], l)
  {
    var pages' := pages[l := pages[l].(rows := rows)];
    assert PageOk(pages, sh, l);
    InsertedRows(pages[l].rows, rows, row, i);
    AddKeyTree(pages, sh, root, S, row.key, l, rows);
    AddKeyChain(pages, sh, root, S, row.key, l, rows, chain);
    FrameFree(pages, pages', nPage, firstFree, free, 0);
    AddRowContent(pages, root, sh, contents, S, l, row, rows, i);
  }

  lemma AddRowContent(pages: map<nat, Page>, root: nat, sh: Shape, contents: map<Key, Row>,
      S: set<nat>, l: nat, row: Row, rows: seq<Row>, i: nat)
    requires TreeOk(pages, sh, root) && ContentInv(pages, sh, root, contents) && IsLeaf(pages, l)
    requires root in S && InsertedAt(pages[l].rows, rows, row, i) && row.key !in contents
    ensures Dom(pages[l := pages[l].(rows := rows)], ShapeWithKey(sh, S, row.key))
    ensures ContentInv(pages[l := pages[l].(rows := rows)], ShapeWithKey(sh, S, row.key), root, contents[row.key := row])
  {
    var pages', sh', contents' := pages[l := pages[l].(rows := rows)], ShapeWithKey(sh, S, row.key), contents[row.key := row];
    assert RowsIn(pages[l].rows, contents);
    InsertedRowsIn(pages[l].rows, rows, row, i, contents);
    forall p | IsLeaf(pages', p)
      ensures RowsIn(pages'[p].rows, contents')
    {
      if p != l { assert RowsIn(pages[p].rows, contents); }
    }
    assert contents'.Keys == sh'.keys[root];
  }

  /** How full the leaf is after the row was added. */
  lemma AddRowFilled(pages: map<nat, Page>, root: nat, l: nat, row: Row, rows: seq<Row>, i: nat)
    requires FilledExcept(pages, root, 0) && IsLeaf(pages, l) && l != 0
    requires SortedRows(pages[l].rows) && InsertedAt(pages[l].rows, rows, row, i)
    requires RowSize(row) <= MAX_TUPLE_BYTES
    ensures SmallRows(rows) && |rows| == |pages[l].rows| + 1 && (l != root ==> |rows| >= 8)
    ensures UsedLeafEdited(rows) <= MAXIMUM_USED_BYTES + 252
  {
    assert Filled(pages[l], l == root);
    InsertedBytes(pages[l].rows, rows, row, i);
    forall j | 0 <= j < |rows|
      ensures RowSize(rows[j]) <= MAX_TUPLE_BYTES
    {
      if j < i { assert rows[j] == pages[l].rows[j]; } else if j > i { assert rows[j] == pages[l].rows[j-1]; }
    }
  }

  // ---------------------------------------------------------------- a page in two halves

  ghost predicate FilledSplit(pages: map<nat, Page>, root: nat, p: nat) {
    && (forall q | IsTreePage(pages, q) && q != p :: Filled(pages[q], q == root))
    && (IsTreePage(pages, p) ==> Filled(pages[p], false))
  }

  ghost predicate ContentSplit(pages: map<nat, Page>, sh: Shape, root: nat, left: nat, p: nat, contents: map<Key, Row>)
    requires root in sh.keys && left in sh.keys
  {
    && contents.Keys == (if p == root then sh.keys[left] + sh.keys[root] else sh.keys[root])
    && (forall q | IsLeaf(pages, q) :: RowsIn(pages[q].rows, contents))
  }

  /** The invariant of the file while page p is split and its parent does not yet know the left half. */
  ghost predicate SoundSplit(pages: map<nat, Page>, root: nat, nPage: nat, firstFree: nat,
      sh: Shape, chain: seq<nat>, free: seq<nat>, contents: map<Key, Row>, key: Key, left: nat, p: nat) {
    && HalfSplit(pages, sh, root, key, left, p)
    && ChainInv(pages, sh, chain)
    && FreeInv(pages, nPage, firstFree, free)
    && ContentSplit(pages, sh, root, left, p, contents)
    && FilledSplit(pages, root, p)
  }

  lemma LeafSplitSound(pages: map<nat, Page>, root: nat, sh: Shape, chain: seq<nat>, contents: map<Key, Row>,
      l: nat, left: nat, m: map<nat, Page>, at: nat)
    requires TreeOk(pages, sh, root) && ChainInv(pages, sh, chain) && ContentInv(pages, sh, root, contents)
    requires FilledExcept(pages, root, l) && IsLeaf(pages, l) && SmallRows(pages[l].rows)
    requires MAXIMUM_USED_BYTES < UsedLeafEdited(pages[l].rows) <= MAXIMUM_USED_BYTES + 252
    requires |pages[l].rows| >= 16
    requires LeafSplitPages(pages, m, l, left, |pages[l].rows| / 2) && LeafSplitLinks(pages, m, l, left)
    requires at < |chain| && chain[at] == l
    ensures var key := pages[l].rows[|pages[l].rows| / 2].key;
      var sh' := SplitShape(sh, left, l, key);
      && HalfSplit(m, sh', root, key, left, l)
      && ChainInv(m, sh', Inserted(chain, at, left))
      && ContentSplit(m, sh', root, left, l, contents)
      && FilledSplit(m, root, l)
  {
    var rows := pages[l].rows;
    var mid := |rows| / 2;
    var sh' := SplitShape(sh, left, l, rows[mid].key);
    LeafHalfSplit(pages, sh, root, l, left, mid, m);
    LeafSplitChain(pages, sh, root, l, left, mid, m, chain, at);
    LeafSplitContent(pages, root, sh, contents, l, left, mid, m);
    SplitLeafFits(rows);
    forall q | IsTreePage(m, q) && q != l
      ensures Filled(m[q], q == root)
    {
      if q != left { assert LinksOnly(pages[q], m[q]); assert Filled(pages[q], q == root); }
    }
  }

  lemma LeafSplitContent(pages: map<nat, Page>, root: nat, sh: Shape, contents: map<Key, Row>,
      l: nat, left: nat, mid: nat, m: map<nat, Page>)
    requires TreeOk(pages, sh, root) && ContentInv(pages, sh, root, contents)
    requires IsLeaf(pages, l) && LeafSplitPages(pages, m, l, left, mid)
    ensures var sh' := SplitShape(sh, left, l, pages[l].rows[mid].key);
      root in sh'.keys && left in sh'.keys && ContentSplit(m, sh', root, left, l, contents)
  {
    var rows := pages[l].rows;
    var key := rows[mid].key;
    assert RowsIn(rows, contents);
    assert KeysBelow(sh.keys[l], key) + KeysFrom(sh.keys[l], key) == sh.keys[l];
    forall q | IsLeaf(m, q)
      ensures RowsIn(m[q].rows, contents)
    {
      if q != l && q != left { assert LinksOnly(pages[q], m[q]); assert RowsIn(pages[q].rows, contents); }
    }
  }

  lemma InternalSplitContent(pages: map<nat, Page>, root: nat, sh: Shape, contents: map<Key, Row>,
      p: nat, left: nat, mid: nat, m: map<nat, Page>)
    requires TreeOk(pages, sh, root) && ContentInv(pages, sh, root, contents)
    requires IsInternal(pages, p) && InternalSplitPages(pages, m, p, left, mid)
    ensures RealKeys(pages[p].entries)
    ensures var sh' := SplitShape(sh, left, p, pages[p].entries[mid+1].key.k);
      root in sh'.keys && left in sh'.keys && ContentSplit(m, sh', root, left, p, contents)
  {
    InternalSplitDom(pages, sh, root, p, left, mid, m);
    var key := pages[p].entries[mid+1].key.k;
    assert KeysBelow(sh.keys[p], key) + KeysFrom(sh.keys[p], key) == sh.keys[p];
    forall q | IsLeaf(m, q)
      ensures RowsIn(m[q].rows, contents)
    {
      assert RowsIn(pages[q].rows, contents);
    }
  }

  lemma InternalSplitChain(pages: map<nat, Page>, root: nat, sh: Shape, chain: seq<nat>,
      p: nat, left: nat, mid: nat, m: map<nat, Page>)
    requires TreeOk(pages, sh, root) && ChainInv(pages, sh, chain)
    requires IsInternal(pages, p) && InternalSplitPages(pages, m, p, left, mid)
    ensures RealKeys(pages[p].entries)
    ensures Dom(m, SplitShape(sh, left, p, pages[p].entries[mid+1].key.k))
    ensures ChainInv(m, SplitShape(sh, left, p, pages[p].entries[mid+1].key.k), chain)
  {
    InternalSplitDom(pages, sh, root, p, left, mid, m);
    FrameChain(pages, sh, m, SplitShape(sh, left, p, pages[p].entries[mid+1].key.k), chain);
  }

  lemma InternalSplitSound(pages: map<nat, Page>, root: nat, sh: Shape, chain: seq<nat>, contents: map<Key, Row>,
      p: nat, left: nat, m: map<nat, Page>)
    requires TreeOk(pages, sh, root) && ChainInv(pages, sh, chain) && ContentInv(pages, sh, root, contents)
    requires FilledExcept(pages, root, p) && IsInternal(pages, p)
    requires 28 <= |pages[p].entries| <= 55
    requires InternalSplitPages(pages, m, p, left, (|pages[p].entries| - 1) / 2)
    ensures RealKeys(pages[p].entries)
    ensures var key := pages[p].entries[(|pages[p].entries| - 1) / 2 + 1].key.k;
      var sh' := SplitShape(sh, left, p, key);
      && HalfSplit(m, sh', root, key, left, p)
      && ChainInv(m, sh', chain)
      && ContentSplit(m, sh', root, left, p, contents)
      && FilledSplit(m, root, p)
  {
    var mid := (|pages[p].entries| - 1) / 2;
    InternalHalfSplit(pages, sh, root, p, left, mid, m);
    InternalSplitChain(pages, root, sh, chain, p, left, mid, m);
    InternalSplitContent(pages, root, sh, contents, p, left, mid, m);
    forall q | IsTreePage(m, q) && q != p
      ensures Filled(m[q], q == root)
    {
      if q != left { assert Filled(pages[q], q == root); }
    }
  }

  /** After setChild on the parent the file is sound but for how full the parent is. */
  lemma GrowParentSound(pages: map<nat, Page>, root: nat, nPage: nat, firstFree: nat,
      sh: Shape, chain: seq<nat>, free: seq<nat>, contents: map<Key, Row>, key: Key, left: nat, p: nat, s: nat)
    requires SoundSplit(pages, root, nPage, firstFree, sh, chain, free, contents, key, left, p) && p != root
    requires IsInternal(pages, pages[p].parent)
    requires s < |pages[pages[p].parent].entries| && pages[pages[p].parent].entries[s].child == p
    ensures var P := pages[p].parent;
      var pages' := pages[P := pages[P].(entries := SetChild(pages[P].entries, s, key, left, p))];
      && SoundExcept(pages', root, nPage, firstFree, sh, chain, free, contents, P)
      && (if P == root then 3 else 15) <= |pages'[P].entries| <= 55
      && RealKeys(pages'[P].entries)
  {
    var P := pages[p].parent;
    var pages' := pages[P := pages[P].(entries := SetChild(pages[P].entries, s, key, left, p))];
    GrowParent(pages, sh, root, key, left, p, s);
    EntriesIncrease(pages', sh, root, P);
    FrameChain(pages, sh, pages', sh, chain);
    FrameFree(pages, pages', nPage, firstFree, free, 0);
    assert Attached(pages, sh, root, p);
    assert SlotOk(pages, Joined(sh, left, p), P, s);
    assert Filled(pages[P], P == root);
    forall q | IsLeaf(pages', q)
      ensures RowsIn(pages'[q].rows, contents)
    {
      assert RowsIn(pages[q].rows, contents);
    }
    forall q | IsTreePage(pages', q) && q != P
      ensures Filled(pages'[q], q == root)
    {
      if q == p { assert Filled(pages[p], false); } else { assert Filled(pages[q], q == root); }
    }
  }

  lemma GrowRootSound(pages: map<nat, Page>, root: nat, nPage: nat, firstFree: nat,
      sh: Shape, chain: seq<nat>, free: seq<nat>, contents: map<Key, Row>, key: Key, left: nat, top: nat)
    requires HalfSplit(pages, sh, root, key, left, root) && ChainInv(pages, sh, chain)
    requires ContentSplit(pages, sh, root, left, root, contents) && FilledSplit(pages, root, root)
    requires FreeInvExcept(pages, nPage, firstFree, free, top)
    requires top != 0 && !IsTreePage(pages, top)
    ensures SoundExcept(RootPages(pages, key, left, root, top), top, nPage, firstFree,
              RootShape(sh, top, left, root), chain, free, contents, 0)
  {
    hide HalfSplit, ContentSplit, FilledSplit, TreeOk, ChainInv, FreeInvExcept, ContentInv, FilledExcept, RootPages, RootShape;
    GrowRoot(pages, sh, root, key, left, top);
    GrowRootRest(pages, root, nPage, firstFree, sh, chain, free, contents, key, left, top);
  }

  lemma GrowRootRest(pages: map<nat, Page>, root: nat, nPage: nat, firstFree: nat,
      sh: Shape, chain: seq<nat>, free: seq<nat>, contents: map<Key, Row>, key: Key, left: nat, top: nat)
    requires HalfSplit(pages, sh, root, key, left, root) && ChainInv(pages, sh, chain)
    requires ContentSplit(pages, sh, root, left, root, contents) && FilledSplit(pages, root, root)
    requires FreeInvExcept(pages, nPage, firstFree, free, top)
    requires top != 0 && !IsTreePage(pages, top)
    requires TreeOk(RootPages(pages, key, left, root, top), RootShape(sh, top, left, root), top)
    ensures var pages', sh' := RootPages(pages, key, left, root, top), RootShape(sh, top, left, root);
      ChainInv(pages', sh', chain) && FreeInv(pages', nPage, firstFree, free)
      && ContentInv(pages', sh', top, contents) && FilledExcept(pages', top, 0)
  {
    hide FilledExcept, FilledSplit, FreeInvExcept, FreeInv, PageOk, Attached, ChainLinks, LeavesBelow;
    var pages', sh' := RootPages(pages, key, left, root, top), RootShape(sh, top, left, root);
    FrameChain(pages, sh, pages', sh', chain);
    FrameFree(pages, pages', nPage, firstFree, free, top);
    GrowRootFilled(pages, sh, root, key, left, top);
    forall q | IsLeaf(pages', q)
      ensures RowsIn(pages'[q].rows, contents)
    {
      assert RowsIn(pages[q].rows, contents);
    }
  }

  lemma GrowRootFilled(pages: map<nat, Page>, sh: Shape, root: nat, key: Key, left: nat, top: nat)
    requires HalfSplit(pages, sh, root, key, left, root) && FilledSplit(pages, root, root)
    requires top != 0 && !IsTreePage(pages, top)
    ensures FilledExcept(RootPages(pages, key, left, root, top), top, 0)
  {
    var pages' := RootPages(pages, key, left, root, top);
    forall q | IsTreePage(pages', q) && q != 0
      ensures Filled(pages'[q], q == top)
    {
      if q == root { assert Filled(pages[root], false); } else if q != top { assert Filled(pages[q], q == root); }
    }
  }

  // ---------------------------------------------------------------- what the split methods write

  /** splitLeaf's page writes, for leaf l as edited in memory. */
  ghost function LeafSplitWrites(pages: map<nat, Page>, node: Page, l: nat, left: nat): map<nat, Page>
    requires node.Leaf?
    requires node.prev != 0 ==> IsLeaf(pages, node.prev) && node.prev != l && node.prev != left
  {
    var mid := |node.rows| / 2;
    var m := pages[left := Leaf(node.parent, node.prev, l, node.rows[..mid])]
                  [l := node.(prev := left, rows := node.rows[mid..])];
    if node.prev != 0 then m[node.prev := m[node.prev].(next := left)] else m
  }

  lemma LeafSplitWritten(pages: map<nat, Page>, node: Page, sh: Shape, chain: seq<nat>, l: nat, left: nat) returns (at: nat)
    requires node.Leaf? && Dom(pages[l := node], sh) && ChainInv(pages[l := node], sh, chain)
    requires left != 0 && !IsTreePage(pages[l := node], left) && |node.rows| >= 2
    ensures at < |chain| && chain[at] == l
    ensures node.prev != 0 ==> IsLeaf(pages, node.prev) && node.prev != l && node.prev != left
    ensures LeafSplitPages(pages[l := node], LeafSplitWrites(pages, node, l, left), l, left, |node.rows| / 2)
    ensures LeafSplitLinks(pages[l := node], LeafSplitWrites(pages, node, l, left), l, left)
    ensures forall p | p in pages && pages[p].Free? && p != left && p != l ::
              p in LeafSplitWrites(pages, node, l, left) && LeafSplitWrites(pages, node, l, left)[p] == pages[p]
  {
    at := ChainPosition(pages[l := node], sh, chain, l);
    if at > 0 {
      assert ChainLinks(pages[l := node], chain, at - 1);
      assert chain[at-1] != l;
    }
  }

  /** splitLeaf as a whole: from leaf l that is overfull in memory to a page in two halves. */
  lemma SplitLeafDone(pages: map<nat, Page>, node: Page, root: nat, nPage: nat, firstFree: nat, nPage': nat, firstFree': nat,
      sh: Shape, chain: seq<nat>, free: seq<nat>, free': seq<nat>, contents: map<Key, Row>, l: nat, left: nat) returns (at: nat)
    requires node.Leaf? && IsLeaf(pages, l)
    requires SoundExcept(pages[l := node], root, nPage, firstFree, sh, chain, free, contents, l)
    requires SmallRows(node.rows)
    requires MAXIMUM_USED_BYTES < UsedLeafEdited(node.rows) <= MAXIMUM_USED_BYTES + 252
    requires left != 0 && !IsTreePage(pages, left)
    requires FreeInvExcept(pages, nPage', firstFree', free', left)
    ensures |node.rows| >= 16
    ensures node.prev != 0 ==> IsLeaf(pages, node.prev) && node.prev != l && node.prev != left
    ensures at <= |chain|
    ensures l in sh.keys && l in sh.lvl
    ensures var key := node.rows[|node.rows| / 2].key;
      SoundSplit(LeafSplitWrites(pages, node, l, left), root, nPage', firstFree', SplitShape(sh, left, l, key),
        Inserted(chain, at, left), free', contents, key, left, l)
  {
    hide ContentInv, FilledExcept, FreeInvExcept;
    var before := pages[l := node];
    SplitLeafFits(node.rows);
    at := LeafSplitWritten(pages, node, sh, chain, l, left);
    var m := LeafSplitWrites(pages, node, l, left);
    LeafSplitSound(before, root, sh, chain, contents, l, left, m, at);
    FrameFree(pages, m, nPage', firstFree', free', left);
  }

  /** m is pages after every page named in done got the parent owner. */
  ghost predicate Reparented(pages: map<nat, Page>, m: map<nat, Page>, done: seq<Entry>, owner: nat) {
    && (forall q :: q in m <==> q in pages)
    && (forall q | q in pages ::
          m[q] == if HasChild(done, q) && !pages[q].Free? then pages[q].(parent := owner) else pages[q])
  }

  lemma ReparentStart(pages: map<nat, Page>, owner: nat)
    ensures Reparented(pages, pages, [], owner)
  {
  }

  lemma ReparentStep(pages: map<nat, Page>, m: map<nat, Page>, done: seq<Entry>, e: Entry, done': seq<Entry>, owner: nat)
    requires Reparented(pages, m, done, owner)
    requires done' == done + [e] || done' == [e] + done
    requires IsTreePage(pages, e.child)
    ensures IsTreePage(m, e.child)
    ensures Reparented(pages, m[e.child := m[e.child].(parent := owner)], done', owner)
  {
    forall q
      ensures HasChild(done', q) <==> HasChild(done, q) || q == e.child
    {
      var off := if done' == done + [e] then 0 else 1;
      assert done'[if off == 0 then |done| else 0] == e;
      if HasChild(done, q) {
        var i :| 0 <= i < |done| && done[i].child == q;
        assert done'[i + off].child == q;
      }
      if HasChild(done', q) && q != e.child {
        var i :| 0 <= i < |done'| && done'[i].child == q;
        assert done[i - off].child == q;
      }
    }
  }

  lemma ReparentedOne(pages: map<nat, Page>, m: map<nat, Page>, done: seq<Entry>, e: Entry, owner: nat)
    requires done == [e] && IsTreePage(pages, e.child) && Reparented(pages, m, done, owner)
    ensures m == pages[e.child := pages[e.child].(parent := owner)]
  {
    assert done[0].child == e.child;
  }

  /** The first or the last n entries of es. */
  function EntryRange(es: seq<Entry>, n: nat, fromBegin: bool): seq<Entry>
    requires n <= |es|
  {
    if fromBegin then es[..n] else es[|es|-n..]
  }

  lemma ReparentRangeStep(pages: map<nat, Page>, m: map<nat, Page>, es: seq<Entry>, n: nat, fromBegin: bool, owner: nat)
    requires n < |es| && Reparented(pages, m, EntryRange(es, n, fromBegin), owner)
    requires IsTreePage(pages, es[if fromBegin then n else |es| - n - 1].child)
    ensures var e := es[if fromBegin then n else |es| - n - 1];
      && IsTreePage(m, e.child)
      && Reparented(pages, m[e.child := m[e.child].(parent := owner)], EntryRange(es, n + 1, fromBegin), owner)
  {
    var e := es[if fromBegin then n else |es| - n - 1];
    var done, done' := EntryRange(es, n, fromBegin), EntryRange(es, n + 1, fromBegin);
    assert if fromBegin then done' == done + [e] else done' == [e] + done;
    ReparentStep(pages, m, done, e, done', owner);
  }

  /** splitInternal as a whole: from internal page p that is overfull in memory to a page in two halves. */
  lemma SplitInternalDone(pages: map<nat, Page>, node: Page, root: nat, nPage: nat, firstFree: nat, nPage': nat, firstFree': nat,
      sh: Shape, chain: seq<nat>, free: seq<nat>, free': seq<nat>, contents: map<Key, Row>, p: nat, left: nat, m: map<nat, Page>)
    requires node.Internal? && IsInternal(pages, p)
    requires SoundExcept(pages[p := node], root, nPage, firstFree, sh, chain, free, contents, p)
    requires 28 <= |node.entries| <= 55
    requires left != 0 && !IsTreePage(pages, left)
    requires FreeInvExcept(pages, nPage', firstFree', free', left)
    requires Reparented(pages, m, node.entries[..(|node.entries| - 1) / 2 + 1], left)
    ensures RealKeys(node.entries) && p in sh.keys && p in sh.lvl
    ensures var mid := (|node.entries| - 1) / 2;
      var key := node.entries[mid+1].key.k;
      SoundSplit(m[left := Internal(node.parent, node.entries[..mid+1])][p := Internal(node.parent, node.entries[mid+1..])],
        root, nPage', firstFree', SplitShape(sh, left, p, key), chain, free', contents, key, left, p)
  {
    hide InternalSplitPages, Reparented, ChainInv, ContentInv, FilledExcept, FreeInvExcept, FilledSplit, ContentSplit, HalfSplit;
    var mid := (|node.entries| - 1) / 2;
    var m' := m[left := Internal(node.parent, node.entries[..mid+1])][p := Internal(node.parent, node.entries[mid+1..])];
    var before := pages[p := node];
    InternalSplitWritten(pages, node, p, left, m);
    InternalSplitSound(before, root, sh, chain, contents, p, left, m');
    InternalSplitFree(pages, node, p, left, m, nPage', firstFree', free');
  }

  lemma InternalSplitWritten(pages: map<nat, Page>, node: Page, p: nat, left: nat, m: map<nat, Page>)
    requires node.Internal? && IsInternal(pages, p) && |node.entries| >= 3
    requires left != 0 && !IsTreePage(pages, left)
    requires Reparented(pages, m, node.entries[..(|node.entries| - 1) / 2 + 1], left)
    ensures var mid := (|node.entries| - 1) / 2;
      var m' := m[left := Internal(node.parent, node.entries[..mid+1])][p := Internal(node.parent, node.entries[mid+1..])];
      InternalSplitPages(pages[p := node], m', p, left, mid)
  {
    var mid := (|node.entries| - 1) / 2;
  }

  lemma InternalSplitFree(pages: map<nat, Page>, node: Page, p: nat, left: nat, m: map<nat, Page>, nPage: nat, firstFree: nat, free: seq<nat>)
    requires node.Internal? && IsInternal(pages, p) && |node.entries| >= 3
    requires left != 0 && !IsTreePage(pages, left)
    requires Reparented(pages, m, node.entries[..(|node.entries| - 1) / 2 + 1], left)
    requires FreeInvExcept(pages, nPage, firstFree, free, left)
    ensures var mid := (|node.entries| - 1) / 2;
      var m' := m[left := Internal(node.parent, node.entries[..mid+1])][p := Internal(node.parent, node.entries[mid+1..])];
      FreeInv(m', nPage, firstFree, free)
  {
    hide FreeInvExcept, FreeInv;
    var mid := (|node.entries| - 1) / 2;
    var m' := m[left := Internal(node.parent, node.entries[..mid+1])][p := Internal(node.parent, node.entries[mid+1..])];
    FrameFree(pages, m', nPage, firstFree, free, left);
  }

  /** The exempted page is as full as it must be, so the whole invariant holds. */
  lemma AllFilled(pages: map<nat, Page>, root: nat, nPage: nat, firstFree: nat,
      sh: Shape, chain: seq<nat>, free: seq<nat>, contents: map<Key, Row>, x: nat)
    requires SoundExcept(pages, root, nPage, firstFree, sh, chain, free, contents, x)
    requires IsTreePage(pages, x) ==> Filled(pages[x], x == root)
    ensures Sound(pages, root, nPage, firstFree, sh, chain, free, contents)
    ensures root != 0
  {
    hide ChainInv, FreeInv, ContentInv, PageOk, Attached;
    assert 0 !in pages;
  }

  /** The split page's parent index is 0 exactly if it was the root. */
  lemma SplitAtRoot(pages: map<nat, Page>, sh: Shape, root: nat, key: Key, left: nat, p: nat)
    requires HalfSplit(pages, sh, root, key, left, p)
    ensures pages[left].parent == 0 <==> p == root
    ensures p != root ==> IsInternal(pages, pages[p].parent) && pages[p].parent in sh.lvl
    ensures p != root ==> sh.lvl[pages[p].parent] == sh.lvl[p] + 1 <= sh.lvl[root]
  {
    assert Attached(pages, sh, root, p);
    if p != root {
      var P := pages[p].parent;
      var s := SplitSlot(pages, sh, root, key, left, p);
      assert SlotOk(pages, Joined(sh, left, p), P, s);
      assert Attached(pages, sh, root, P);
    }
  }

  /** What insertBtree may rely on: where the two halves and their parent are. */
  lemma HalfSplitFacts(pages: map<nat, Page>, root: nat, nPage: nat, firstFree: nat,
      sh: Shape, chain: seq<nat>, free: seq<nat>, contents: map<Key, Row>, key: Key, left: nat, p: nat) returns (s: nat)
    requires SoundSplit(pages, root, nPage, firstFree, sh, chain, free, contents, key, left, p)
    ensures IsTreePage(pages, left) && IsTreePage(pages, p) && left != p
    ensures FreeInv(pages, nPage, firstFree, free)
    ensures root in sh.lvl && p in sh.lvl && p in sh.keys && left in sh.keys
    ensures pages[left].parent == 0 <==> p == root
    ensures p != root ==>
      var P := pages[left].parent;
      && P == pages[p].parent
      && IsInternal(pages, P) && P in sh.lvl && sh.lvl[P] == sh.lvl[p] + 1 <= sh.lvl[root]
      && RealKeys(pages[P].entries) && Increasing(pages[P].entries)
      && s < |pages[P].entries| && pages[P].entries[s].child == p && Routes(pages[P].entries, key, s)
  {
    SplitAtRoot(pages, sh, root, key, left, p);
    if p != root {
      s := SplitSlot(pages, sh, root, key, left, p);
    } else {
      s := 0;
    }
  }

  /** Writing the parent after setChild finishes the insertion unless the parent is now overfull. */
  lemma SetChildDone(pages: map<nat, Page>, root: nat, nPage: nat, firstFree: nat,
      sh: Shape, chain: seq<nat>, free: seq<nat>, contents: map<Key, Row>, key: Key, left: nat, p: nat, s: nat, node: Page)
    requires SoundSplit(pages, root, nPage, firstFree, sh, chain, free, contents, key, left, p) && p != root
    requires IsInternal(pages, pages[p].parent)
    requires s < |pages[pages[p].parent].entries| && pages[pages[p].parent].entries[s].child == p
    requires node == pages[pages[p].parent].(entries := SetChild(pages[pages[p].parent].entries, s, key, left, p))
    ensures var P := pages[p].parent;
      && SoundExcept(pages[P := node], root, nPage, firstFree, sh, chain, free, contents, P)
      && (UsedInternal(node.entries) > MINIMUM_USED_BYTES ==> 28 <= |node.entries| <= 55)
      && (UsedInternal(node.entries) <= MINIMUM_USED_BYTES ==>
            root != 0 && Sound(pages[P := node], root, nPage, firstFree, sh, chain, free, contents))
  {
    var P := pages[p].parent;
    hide SoundSplit, SoundExcept;
    GrowParentSound(pages, root, nPage, firstFree, sh, chain, free, contents, key, left, p, s);
    InternalThreshold(node.entries);
    if UsedInternal(node.entries) <= MINIMUM_USED_BYTES {
      AllFilled(pages[P := node], root, nPage, firstFree, sh, chain, free, contents, P);
    }
  }

  /** Putting a new root above the two halves of the old one finishes the insertion. */
  lemma NewRootDone(pages: map<nat, Page>, root: nat, nPage: nat, firstFree: nat, nPage': nat, firstFree': nat,
      sh: Shape, chain: seq<nat>, free: seq<nat>, free': seq<nat>, contents: map<Key, Row>, key: Key, left: nat, top: nat)
    requires SoundSplit(pages, root, nPage, firstFree, sh, chain, free, contents, key, left, root)
    requires FreeInvExcept(pages, nPage', firstFree', free', top)
    requires top != 0 && !IsTreePage(pages, top)
    ensures IsTreePage(pages, left) && IsTreePage(pages, root) && left in sh.keys && root in sh.keys && root in sh.lvl
    ensures Sound(RootPages(pages, key, left, root, top), top, nPage', firstFree', RootShape(sh, top, left, root), chain, free', contents)
  {
    GrowRootSound(pages, root, nPage', firstFree', sh, chain, free', contents, key, left, top);
    hide SoundExcept;
    AllFilled(RootPages(pages, key, left, root, top), top, nPage', firstFree', RootShape(sh, top, left, root), chain, free', contents, 0);
  }

  // ---------------------------------------------------------------- the whole insertion

  /** The first insertion starts from an empty root leaf on a page just taken. */
  lemma {:induction false} FirstLeafSound(pages: map<nat, Page>, nPage: nat, firstFree: nat, nPage': nat, firstFree': nat,
      sh: Shape, chain: seq<nat>, free: seq<nat>, free': seq<nat>, contents: map<Key, Row>, l: nat, k: Key)
    requires Sound(pages, 0, nPage, firstFree, sh, chain, free, contents)
    requires FreeInvExcept(pages, nPage', firstFree', free', l) && l != 0
    ensures var sh' := Shape(map[l := 0], map[l := {}]);
      && SoundExcept(pages[l := Leaf(0, 0, 0, [])], l, nPage', firstFree', sh', [l], free', contents, 0)
      && SearchPath(pages[l := Leaf(0, 0, 0, [])], {l}, l, k, l) && Isolates(sh', l, l, k)
  {
    var pages' := pages[l := Leaf(0, 0, 0, [])];
    var sh' := Shape(map[l := 0], map[l := {}]);
    forall p
      ensures IsTreePage(pages', p) <==> p == l
    {
      assert p != l ==> !IsTreePage(pages, p);
    }
    assert KeySet([]) == {};
    assert RowsBytes([]) == 0;
    assert PageOk(pages', sh', l);
    assert Attached(pages', sh', l, l);
    FrameFree(pages, pages', nPage', firstFree', free', l);
    assert ChainLinks(pages', [l], 0);
  }

  lemma SoundHere(pages: map<nat, Page>, root: nat, nPage: nat, firstFree: nat,
      sh: Shape, chain: seq<nat>, free: seq<nat>, contents: map<Key, Row>, l: nat)
    requires Sound(pages, root, nPage, firstFree, sh, chain, free, contents) && root != 0
    ensures SoundExcept(pages, root, nPage, firstFree, sh, chain, free, contents, 0)
  {
  }

  lemma AddRowFacts(pages: map<nat, Page>, root: nat, nPage: nat, firstFree: nat,
      sh: Shape, chain: seq<nat>, free: seq<nat>, contents: map<Key, Row>, l: nat, row: Row)
    requires SoundExcept(pages, root, nPage, firstFree, sh, chain, free, contents, 0)
    requires IsLeaf(pages, l) && row.key !in contents
    ensures SortedRows(pages[l].rows) && row.key !in KeySet(pages[l].rows)
    ensures l != 0
  {
    assert PageOk(pages, sh, l);
    BelowRoot(pages, sh, root, l);
  }

  /** Adding the row to its leaf in memory: either the file is sound once the leaf is written, or the leaf must split. */
  lemma AddRowDone(pages: map<nat, Page>, leaf: Page, root: nat, nPage: nat, firstFree: nat,
      sh: Shape, chain: seq<nat>, free: seq<nat>, contents: map<Key, Row>,
      S: set<nat>, l: nat, row: Row, rows: seq<Row>, at: nat)
    requires leaf.Leaf? && SoundExcept(pages[l := leaf], root, nPage, firstFree, sh, chain, free, contents, 0)
    requires SearchPath(pages[l := leaf], S, root, row.key, l) && Isolates(sh, root, l, row.key)
    requires row.key !in contents && InsertedAt(leaf.rows, rows, row, at)
    requires RowSize(row) <= MAX_TUPLE_BYTES
    requires pages[l := leaf] == pages || leaf.rows == []
    ensures var sh', contents' := ShapeWithKey(sh, S, row.key), contents[row.key := row];
      && SoundExcept(pages[l := leaf.(rows := rows)], root, nPage, firstFree, sh', chain, free, contents', l)
      && SmallRows(rows)
      && (UsedLeafEdited(rows) <= MAXIMUM_USED_BYTES ==>
            Sound(pages[l := leaf.(rows := rows)], root, nPage, firstFree, sh', chain, free, contents'))
      && (UsedLeafEdited(rows) > MAXIMUM_USED_BYTES ==>
            UsedLeafEdited(rows) <= MAXIMUM_USED_BYTES + 252 && pages[l := leaf] == pages)
  {
    var pages0 := pages[l := leaf];
    AddRowFacts(pages0, root, nPage, firstFree, sh, chain, free, contents, l, row);
    AddRowSound(pages0, root, nPage, firstFree, sh, chain, free, contents, S, l, row, rows, at);
    AddRowFilled(pages0, root, l, row, rows, at);
    RowsBytesBounds(rows);
    hide SoundExcept, Sound, SearchPath, Isolates;
    assert pages0[l := leaf.(rows := rows)] == pages[l := leaf.(rows := rows)];
    var sh', contents' := ShapeWithKey(sh, S, row.key), contents[row.key := row];
    if UsedLeafEdited(rows) <= MAXIMUM_USED_BYTES {
      AllFilled(pages[l := leaf.(rows := rows)], root, nPage, firstFree, sh', chain, free, contents', l);
    }
  }
}
