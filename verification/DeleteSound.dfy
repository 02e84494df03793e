/** The steps of a deletion keep the invariant of the whole table file. */
module DeleteSound {
  import opened Pages
  import opened TreeInvariant
  import opened TreeSearch
  import opened TreeInsert
  import opened TreeDelete
  import opened InsertSound

  // ---------------------------------------------------------------- removing a row

  function WithoutRow(rows: seq<Row>, i: nat): seq<Row>
    requires i < |rows|
  {
    rows[..i] + rows[i+1..]
  }

  lemma WithoutRowKeys(rows: seq<Row>, i: nat)
    requires SortedRows(rows) && i < |rows|
    ensures SortedRows(WithoutRow(rows, i))
    ensures KeySet(WithoutRow(rows, i)) == KeySet(rows) - {rows[i].key}
  {
    var rows' := WithoutRow(rows, i);
    forall k | k in KeySet(rows) - {rows[i].key}
      ensures k in KeySet(rows')
    {
      var j :| 0 <= j < |rows| && rows[j].key == k;
      assert rows'[if j < i then j else j - 1].key == k;
    }
  }

  lemma WithoutRowBytes(rows: seq<Row>, i: nat)
    requires i < |rows|
    ensures RowsBytes(WithoutRow(rows, i)) + 4 + RowSize(rows[i]) == RowsBytes(rows)
  {
    var front, back := rows[..i+1], rows[i+1..];
    assert rows == front + back && front[..i] == rows[..i];
    RowsBytesConcat(front, back);
    RowsBytesConcat(rows[..i], back);
  }

  lemma WithoutRowSmall(rows: seq<Row>, i: nat)
    requires i < |rows| && SmallRows(rows)
    ensures SmallRows(WithoutRow(rows, i))
  {
    forall j | 0 <= j < |rows| - 1
      ensures RowSize(WithoutRow(rows, i)[j]) <= MAX_TUPLE_BYTES
    {
      assert WithoutRow(rows, i)[j] == rows[if j < i then j else j + 1];
    }
  }

  lemma RemoveRowContent(pages: map<nat, Page>, sh: Shape, root: nat, chain: seq<nat>, contents: map<Key, Row>, l: nat, i: nat)
    requires TreeOk(pages, sh, root) && ChainInv(pages, sh, chain) && ContentInv(pages, sh, root, contents)
    requires IsLeaf(pages, l) && i < |pages[l].rows|
    ensures var k := pages[l].rows[i].key;
      Dom(pages[l := pages[l].(rows := WithoutRow(pages[l].rows, i))], ShapeWithout(sh, k)) &&
      ContentInv(pages[l := pages[l].(rows := WithoutRow(pages[l].rows, i))], ShapeWithout(sh, k), root, contents - {k})
  {
    var k := pages[l].rows[i].key;
    var rows := WithoutRow(pages[l].rows, i);
    var pages' := pages[l := pages[l].(rows := rows)];
    assert PageOk(pages, sh, l);
    WithoutRowKeys(pages[l].rows, i);
    assert RowsIn(pages[l].rows, contents);
    forall p | IsLeaf(pages', p)
      ensures RowsIn(pages'[p].rows, contents - {k})
    {
      assert RowsIn(pages[p].rows, contents);
      if p == l {
        forall j | 0 <= j < |rows|
          ensures rows[j].key in contents - {k} && (contents - {k})[rows[j].key] == rows[j]
        {
          assert rows[j] == pages[l].rows[if j < i then j else j + 1];
          assert rows[j].key in KeySet(rows);
        }
      } else {
        assert PageOk(pages, sh, p);
        assert k in KeySet(pages[l].rows);
        KeyInOneLeaf(pages, sh, chain, l, p, k);
        forall j | 0 <= j < |pages[p].rows|
          ensures pages[p].rows[j].key != k
        {
          assert pages[p].rows[j].key in KeySet(pages[p].rows);
        }
      }
    }
  }

  /** After row i left leaf l the file is sound but for how full that leaf is. */
  lemma RemoveRowSound(pages: map<nat, Page>, root: nat, nPage: nat, firstFree: nat,
      sh: Shape, chain: seq<nat>, free: seq<nat>, contents: map<Key, Row>, l: nat, i: nat)
    requires SoundExcept(pages, root, nPage, firstFree, sh, chain, free, contents, 0)
    requires IsLeaf(pages, l) && i < |pages[l].rows|
    ensures var k, rows := pages[l].rows[i].key, WithoutRow(pages[l].rows, i);
      && SoundExcept(pages[l := pages[l].(rows := rows)], root, nPage, firstFree, ShapeWithout(sh, k), chain, free, contents - {k}, l)
      && (l != root ==> |rows| >= 6) && SmallRows(rows) && UsedLeafEdited(rows) <= MAXIMUM_USED_BYTES
  {
    var k, rows := pages[l].rows[i].key, WithoutRow(pages[l].rows, i);
    var pages' := pages[l := pages[l].(rows := rows)];
    assert PageOk(pages, sh, l);
    assert l != 0;
    assert Filled(pages[l], l == root);
    assert k in KeySet(pages[l].rows);
    WithoutRowKeys(pages[l].rows, i);
    WithoutRowBytes(pages[l].rows, i);
    WithoutRowSmall(pages[l].rows, i);
    forall p | IsInternal(pages, p) && p != root
      ensures |pages[p].entries| >= 2
    {
      assert Filled(pages[p], false);
    }
    RemoveKeyTree(pages, sh, root, chain, k, l, rows);
    RemoveKeyChain(pages, sh, root, chain, k, l, rows);
    RemoveRowContent(pages, sh, root, chain, contents, l, i);
    FrameFree(pages, pages', nPage, firstFree, free, 0);
  }

  // ---------------------------------------------------------------- refreshing a separator

  lemma RefreshSound(pages: map<nat, Page>, root: nat, nPage: nat, firstFree: nat,
      sh: Shape, chain: seq<nat>, free: seq<nat>, contents: map<Key, Row>, x: nat, p: nat, i: nat, k: Key)
    requires SoundExcept(pages, root, nPage, firstFree, sh, chain, free, contents, x)
    requires IsInternal(pages, p) && 1 <= i < |pages[p].entries|
    requires pages[p].entries[i].child in sh.keys && pages[p].entries[i-1].child in sh.keys
    requires Parts(sh.keys[pages[p].entries[i-1].child], k, sh.keys[pages[p].entries[i].child])
    ensures SoundExcept(pages[p := pages[p].(entries := WithKey(pages[p].entries, i, k))], root, nPage, firstFree,
              sh, chain, free, contents, x)
  {
    var pages' := pages[p := pages[p].(entries := WithKey(pages[p].entries, i, k))];
    RefreshSeparator(pages, sh, root, p, i, k);
    FrameChain(pages, sh, pages', sh, chain);
    FrameFree(pages, pages', nPage, firstFree, free, 0);
    forall q | IsTreePage(pages', q) && q != x
      ensures Filled(pages'[q], q == root)
    {
      assert Filled(pages[q], q == root);
    }
    FrameContent(pages, sh, pages', sh, root, root, contents);
  }

  /** Changes that leave every leaf's rows alone keep the contents. */
  lemma FrameContent(pages: map<nat, Page>, sh: Shape, pages': map<nat, Page>, sh': Shape, root: nat, root': nat, contents: map<Key, Row>)
    requires Dom(pages, sh) && Dom(pages', sh') && ContentInv(pages, sh, root, contents)
    requires root in sh.keys && root' in sh'.keys && sh.keys[root] == sh'.keys[root']
    requires forall q | IsLeaf(pages', q) :: IsLeaf(pages, q) && pages'[q].rows == pages[q].rows
    ensures ContentInv(pages', sh', root', contents)
  {
    forall q | IsLeaf(pages', q)
      ensures RowsIn(pages'[q].rows, contents)
    {
      assert RowsIn(pages[q].rows, contents);
    }
  }

  // ---------------------------------------------------------------- moving rows between leaves

  lemma ShiftLeafContent(pages: map<nat, Page>, sh: Shape, root: nat, contents: map<Key, Row>, P: nat, i: nat, j: nat)
    requires TreeOk(pages, sh, root) && ContentInv(pages, sh, root, contents)
    requires IsInternal(pages, P) && i + 1 < |pages[P].entries|
    requires IsLeaf(pages, pages[P].entries[i].child) && IsLeaf(pages, pages[P].entries[i+1].child)
    requires 0 < j < |pages[pages[P].entries[i].child].rows + pages[pages[P].entries[i+1].child].rows|
    ensures var a, b := pages[P].entries[i].child, pages[P].entries[i+1].child;
      var sh' := ShiftShape(sh, a, b, (pages[a].rows + pages[b].rows)[j].key);
      Dom(ShiftLeafPages(pages, P, i, j), sh') && ContentInv(ShiftLeafPages(pages, P, i, j), sh', root, contents)
  {
    var a, b := pages[P].entries[i].child, pages[P].entries[i+1].child;
    var rows := pages[a].rows + pages[b].rows;
    var pages' := ShiftLeafPages(pages, P, i, j);
    SiblingsFacts(pages, sh, root, P, i);
    var v := ChildKey(pages, sh, root, P, i);
    var w := ChildKey(pages, sh, root, P, i + 1);
    assert RowsIn(pages[a].rows, contents) && RowsIn(pages[b].rows, contents);
    assert RowsIn(rows, contents);
    forall q | IsLeaf(pages', q)
      ensures RowsIn(pages'[q].rows, contents)
    {
      if q != a && q != b { assert RowsIn(pages[q].rows, contents); }
    }
  }

  /** Moving rows between neighbouring leaves keeps the file sound if the two leaves end up filled. */
  lemma ShiftLeafSound(pages: map<nat, Page>, root: nat, nPage: nat, firstFree: nat,
      sh: Shape, chain: seq<nat>, free: seq<nat>, contents: map<Key, Row>, x: nat, P: nat, i: nat, j: nat)
    requires SoundExcept(pages, root, nPage, firstFree, sh, chain, free, contents, x)
    requires IsInternal(pages, P) && i + 1 < |pages[P].entries|
    requires IsLeaf(pages, pages[P].entries[i].child) && IsLeaf(pages, pages[P].entries[i+1].child)
    requires x == pages[P].entries[i].child || x == pages[P].entries[i+1].child
    requires 0 < j < |pages[pages[P].entries[i].child].rows + pages[pages[P].entries[i+1].child].rows|
    requires var rows := pages[pages[P].entries[i].child].rows + pages[pages[P].entries[i+1].child].rows;
      && SmallRows(rows) && j >= 7 && |rows| - j >= 7
      && UsedLeafEdited(rows[..j]) <= MAXIMUM_USED_BYTES && UsedLeafEdited(rows[j..]) <= MAXIMUM_USED_BYTES
    ensures pages[P].entries[i].child in sh.keys && pages[P].entries[i+1].child in sh.keys
    ensures var a, b := pages[P].entries[i].child, pages[P].entries[i+1].child;
      Sound(ShiftLeafPages(pages, P, i, j), root, nPage, firstFree, ShiftShape(sh, a, b, (pages[a].rows + pages[b].rows)[j].key),
        chain, free, contents)
  {
    var a, b := pages[P].entries[i].child, pages[P].entries[i+1].child;
    var rows := pages[a].rows + pages[b].rows;
    var pages', sh' := ShiftLeafPages(pages, P, i, j), ShiftShape(sh, a, b, rows[j].key);
    ShiftLeafTree(pages, sh, root, P, i, j);
    ShiftLeafChain(pages, sh, root, chain, P, i, j);
    ShiftLeafContent(pages, sh, root, contents, P, i, j);
    FrameFree(pages, pages', nPage, firstFree, free, 0);
    ShiftLeafFilled(pages, sh, root, x, P, i, j);
    hide ShiftLeafPages, ShiftShape, FilledExcept, ContentInv, ChainInv, FreeInv;
    AllFilled(pages', root, nPage, firstFree, sh', chain, free, contents, 0);
  }

  lemma ShiftLeafFilled(pages: map<nat, Page>, sh: Shape, root: nat, x: nat, P: nat, i: nat, j: nat)
    requires TreeOk(pages, sh, root) && FilledExcept(pages, root, x)
    requires IsInternal(pages, P) && i + 1 < |pages[P].entries|
    requires IsLeaf(pages, pages[P].entries[i].child) && IsLeaf(pages, pages[P].entries[i+1].child)
    requires x == pages[P].entries[i].child || x == pages[P].entries[i+1].child
    requires 0 < j < |pages[pages[P].entries[i].child].rows + pages[pages[P].entries[i+1].child].rows|
    requires var rows := pages[pages[P].entries[i].child].rows + pages[pages[P].entries[i+1].child].rows;
      && SmallRows(rows) && j >= 7 && |rows| - j >= 7
      && UsedLeafEdited(rows[..j]) <= MAXIMUM_USED_BYTES && UsedLeafEdited(rows[j..]) <= MAXIMUM_USED_BYTES
    ensures FilledExcept(ShiftLeafPages(pages, P, i, j), root, 0)
  {
    var a, b := pages[P].entries[i].child, pages[P].entries[i+1].child;
    var pages' := ShiftLeafPages(pages, P, i, j);
    SiblingsFacts(pages, sh, root, P, i);
    forall q | IsTreePage(pages', q) && q != 0
      ensures Filled(pages'[q], q == root)
    {
      if q != a && q != b { assert Filled(pages[q], q == root); }
    }
  }

  // ---------------------------------------------------------------- freeing a page

  /** addPageIntoFreeZone: a tree page becomes the first page of the free list. */
  lemma FreePush(pages: map<nat, Page>, nPage: nat, firstFree: nat, free: seq<nat>, p: nat)
    requires FreeInv(pages, nPage, firstFree, free) && IsTreePage(pages, p)
    ensures FreeInv(pages[p := Free(firstFree)], nPage, p, [p] + free)
  {
    var pages', free' := pages[p := Free(firstFree)], [p] + free;
    assert p !in free;
    forall i | 0 <= i < |free'|
      ensures FreeLink(pages', free', i)
    {
      if i > 0 {
        assert FreeLink(pages, free, i - 1);
        assert free[i-1] in free;
      }
    }
  }

  // ---------------------------------------------------------------- merging leaves

  lemma MergeLeafContent(pages: map<nat, Page>, sh: Shape, root: nat, contents: map<Key, Row>, P: nat, i: nat, m: map<nat, Page>)
    requires TreeOk(pages, sh, root) && ContentInv(pages, sh, root, contents)
    requires IsInternal(pages, P) && i + 1 < |pages[P].entries|
    requires var s, d := pages[P].entries[i].child, pages[P].entries[i+1].child;
      IsLeaf(pages, s) && IsLeaf(pages, d) && Siblings(pages, P, i, s, d) && MergePages(pages, m, P, i, s, d)
    ensures var s, d := pages[P].entries[i].child, pages[P].entries[i+1].child;
      Dom(m, MergeShape(sh, s, d)) && ContentInv(m, MergeShape(sh, s, d), root, contents)
  {
    var s, d := pages[P].entries[i].child, pages[P].entries[i+1].child;
    MergeDom(pages, sh, root, P, i, s, d, m);
    assert RowsIn(pages[s].rows, contents) && RowsIn(pages[d].rows, contents);
    assert RowsIn(pages[s].rows + pages[d].rows, contents);
    forall q | IsLeaf(m, q)
      ensures RowsIn(m[q].rows, contents)
    {
      if q != s { assert LinksOnly(pages[q], m[q]); assert RowsIn(pages[q].rows, contents); }
    }
  }

  lemma MergeLeafFilled(pages: map<nat, Page>, sh: Shape, root: nat, x: nat, P: nat, i: nat, m: map<nat, Page>)
    requires TreeOk(pages, sh, root) && FilledExcept(pages, root, x)
    requires IsInternal(pages, P) && i + 1 < |pages[P].entries|
    requires var s, d := pages[P].entries[i].child, pages[P].entries[i+1].child;
      && IsLeaf(pages, s) && IsLeaf(pages, d) && Siblings(pages, P, i, s, d) && MergePages(pages, m, P, i, s, d)
      && (x == s || x == d)
      && |pages[s].rows| + |pages[d].rows| >= 7 && SmallRows(pages[s].rows + pages[d].rows)
      && UsedLeafEdited(pages[s].rows + pages[d].rows) <= MAXIMUM_USED_BYTES
    ensures FilledExcept(m, root, P)
  {
    var s, d := pages[P].entries[i].child, pages[P].entries[i+1].child;
    MergeDom(pages, sh, root, P, i, s, d, m);
    forall q | IsTreePage(m, q) && q != P
      ensures Filled(m[q], q == root)
    {
      if q != s { assert LinksOnly(pages[q], m[q]); assert Filled(pages[q], q == root); }
    }
  }

  /** Merging the leaf in slot i + 1 into the one in slot i; the parent may end up with one child too few. */
  lemma MergeLeafSound(pages: map<nat, Page>, root: nat, nPage: nat, firstFree: nat, firstFree': nat,
      sh: Shape, chain: seq<nat>, free: seq<nat>, free': seq<nat>, contents: map<Key, Row>, x: nat, P: nat, i: nat, m: map<nat, Page>)
    returns (n: nat)
    requires SoundExcept(pages, root, nPage, firstFree, sh, chain, free, contents, x)
    requires IsInternal(pages, P) && i + 1 < |pages[P].entries|
    requires var s, d := pages[P].entries[i].child, pages[P].entries[i+1].child;
      && IsLeaf(pages, s) && IsLeaf(pages, d) && Siblings(pages, P, i, s, d) && MergePages(pages, m, P, i, s, d) && MergeLinks(pages, m, s, d)
      && (x == s || x == d)
      && |pages[s].rows| + |pages[d].rows| >= 7 && SmallRows(pages[s].rows + pages[d].rows)
      && UsedLeafEdited(pages[s].rows + pages[d].rows) <= MAXIMUM_USED_BYTES
    requires FreeInv(m, nPage, firstFree', free')
    ensures n < |chain|
    ensures var s, d := pages[P].entries[i].child, pages[P].entries[i+1].child;
      && s in sh.keys && d in sh.keys
      && SoundExcept(m, root, nPage, firstFree', MergeShape(sh, s, d), Removed(chain, n), free', contents, P)
  {
    var s, d := pages[P].entries[i].child, pages[P].entries[i+1].child;
    MergeTree(pages, sh, root, P, i, s, d, m);
    n := MergeLeafChain(pages, sh, root, P, i, m, chain);
    n := n + 1;
    MergeLeafContent(pages, sh, root, contents, P, i, m);
    MergeLeafFilled(pages, sh, root, x, P, i, m);
  }

  // ---------------------------------------------------------------- internal siblings

  /** m has the leaves of pages, with the same rows and sibling links. */
  ghost predicate SameLeaves(pages: map<nat, Page>, m: map<nat, Page>) {
    && (forall q :: IsLeaf(pages, q) <==> IsLeaf(m, q))
    && (forall q | IsLeaf(pages, q) ::
          IsLeaf(m, q) && m[q].rows == pages[q].rows && m[q].prev == pages[q].prev && m[q].next == pages[q].next)
  }

  lemma FrameLeaves(pages: map<nat, Page>, sh: Shape, root: nat, m: map<nat, Page>, sh': Shape, chain: seq<nat>, contents: map<Key, Row>)
    requires Dom(pages, sh) && Dom(m, sh') && SameLeaves(pages, m)
    requires ChainInv(pages, sh, chain) && ContentInv(pages, sh, root, contents)
    requires root in sh.keys && root in sh'.keys && sh'.keys[root] == sh.keys[root]
    requires forall q | IsLeaf(pages, q) :: sh'.keys[q] == sh.keys[q]
    ensures ChainInv(m, sh', chain) && ContentInv(m, sh', root, contents)
  {
    FrameChain(pages, sh, m, sh', chain);
    FrameContent(pages, sh, m, sh', root, root, contents);
  }

  lemma ShiftInternalLeaves(pages: map<nat, Page>, m: map<nat, Page>, P: nat, i: nat, j: nat)
    requires InternalSiblings(pages, P, i, j) && ShiftInternalPages(pages, m, P, i, j)
    ensures SameLeaves(pages, m)
  {
  }

  lemma ShiftInternalFree(pages: map<nat, Page>, m: map<nat, Page>, P: nat, i: nat, j: nat, nPage: nat, firstFree: nat, free: seq<nat>)
    requires InternalSiblings(pages, P, i, j) && ShiftInternalPages(pages, m, P, i, j)
    requires FreeInv(pages, nPage, firstFree, free)
    ensures FreeInv(m, nPage, firstFree, free)
  {
    FrameFree(pages, m, nPage, firstFree, free, 0);
  }

  lemma ShiftInternalFilled(pages: map<nat, Page>, m: map<nat, Page>, root: nat, x: nat, P: nat, i: nat, j: nat)
    requires InternalSiblings(pages, P, i, j) && ShiftInternalPages(pages, m, P, i, j)
    requires x == pages[P].entries[i].child || x == pages[P].entries[i+1].child
    requires root != pages[P].entries[i].child && root != pages[P].entries[i+1].child
    requires 14 <= j <= 54 && 14 <= |Joined2(pages, P, i)| - j <= 54
    requires FilledExcept(pages, root, x)
    ensures FilledExcept(m, root, 0)
  {
    var a, b := pages[P].entries[i].child, pages[P].entries[i+1].child;
    forall q | IsTreePage(m, q) && q != 0
      ensures Filled(m[q], q == root)
    {
      if q != a && q != b { assert Filled(pages[q], q == root); }
    }
  }

  /** Moving children between neighbouring internal pages keeps the file sound if the two pages end up filled. */
  lemma ShiftInternalSound(pages: map<nat, Page>, root: nat, nPage: nat, firstFree: nat,
      sh: Shape, chain: seq<nat>, free: seq<nat>, contents: map<Key, Row>, x: nat, P: nat, i: nat, j: nat, m: map<nat, Page>)
    requires SoundExcept(pages, root, nPage, firstFree, sh, chain, free, contents, x)
    requires InternalSiblings(pages, P, i, j) && ShiftInternalPages(pages, m, P, i, j)
    requires x == pages[P].entries[i].child || x == pages[P].entries[i+1].child
    requires 14 <= j <= 54 && 14 <= |Joined2(pages, P, i)| - j <= 54
    ensures var a, b := pages[P].entries[i].child, pages[P].entries[i+1].child;
      && a in sh.keys && b in sh.keys
      && SoundExcept(m, root, nPage, firstFree, ShiftShape(sh, a, b, Joined2(pages, P, i)[j].key.k), chain, free, contents, 0)
  {
    var a, b := pages[P].entries[i].child, pages[P].entries[i+1].child;
    var v := ChildKey(pages, sh, root, P, i);
    var w := ChildKey(pages, sh, root, P, i + 1);
    ShiftInternalTree(pages, sh, root, P, i, j, m);
    ShiftInternalLeaves(pages, m, P, i, j);
    ShiftInternalFree(pages, m, P, i, j, nPage, firstFree, free);
    ShiftInternalFilled(pages, m, root, x, P, i, j);
    hide ShiftInternalPages, SameLeaves, FilledExcept, FreeInv, ChainInv, ContentInv;
    FrameLeaves(pages, sh, root, m, ShiftShape(sh, a, b, Joined2(pages, P, i)[j].key.k), chain, contents);
  }

  lemma MergeInternalLeaves(pages: map<nat, Page>, m: map<nat, Page>, P: nat, i: nat, s: nat, d: nat)
    requires Siblings(pages, P, i, s, d) && MergePages(pages, m, P, i, s, d) && IsInternal(pages, s)
    ensures SameLeaves(pages, m)
  {
  }

  lemma MergeInternalFilled(pages: map<nat, Page>, m: map<nat, Page>, root: nat, x: nat, P: nat, i: nat, s: nat, d: nat)
    requires Siblings(pages, P, i, s, d) && MergePages(pages, m, P, i, s, d) && IsInternal(pages, s)
    requires (x == s || x == d) && root != s && root != d
    requires 14 <= |pages[s].entries| + |pages[d].entries| <= 54
    requires FilledExcept(pages, root, x)
    ensures FilledExcept(m, root, P)
  {
    forall q | IsTreePage(m, q) && q != P
      ensures Filled(m[q], q == root)
    {
      if q != s { assert Filled(pages[q], q == root); }
    }
  }

  /** Merging the internal page in slot i + 1 into the one in slot i; the parent may end up with one child too few. */
  lemma MergeInternalSound(pages: map<nat, Page>, root: nat, nPage: nat, firstFree: nat, firstFree': nat,
      sh: Shape, chain: seq<nat>, free: seq<nat>, free': seq<nat>, contents: map<Key, Row>, x: nat, P: nat, i: nat, m: map<nat, Page>)
    requires SoundExcept(pages, root, nPage, firstFree, sh, chain, free, contents, x)
    requires IsInternal(pages, P) && i + 1 < |pages[P].entries|
    requires var s, d := pages[P].entries[i].child, pages[P].entries[i+1].child;
      && IsInternal(pages, s) && IsInternal(pages, d) && Siblings(pages, P, i, s, d) && MergePages(pages, m, P, i, s, d)
      && (x == s || x == d)
      && 14 <= |pages[s].entries| + |pages[d].entries| <= 54
    requires FreeInv(m, nPage, firstFree', free')
    ensures var s, d := pages[P].entries[i].child, pages[P].entries[i+1].child;
      && s in sh.keys && d in sh.keys
      && SoundExcept(m, root, nPage, firstFree', MergeShape(sh, s, d), chain, free', contents, P)
  {
    var s, d := pages[P].entries[i].child, pages[P].entries[i+1].child;
    MergeTree(pages, sh, root, P, i, s, d, m);
    MergeDom(pages, sh, root, P, i, s, d, m);
    MergeInternalLeaves(pages, m, P, i, s, d);
    MergeInternalFilled(pages, m, root, x, P, i, s, d);
    hide MergePages, SameLeaves, FilledExcept, FreeInv, ChainInv, ContentInv;
    FrameLeaves(pages, sh, root, m, MergeShape(sh, s, d), chain, contents);
  }

  // ---------------------------------------------------------------- dropping the root

  lemma CollapseSound(pages: map<nat, Page>, root: nat, nPage: nat, firstFree: nat, firstFree': nat,
      sh: Shape, chain: seq<nat>, free: seq<nat>, free': seq<nat>, contents: map<Key, Row>, m: map<nat, Page>)
    requires SoundExcept(pages, root, nPage, firstFree, sh, chain, free, contents, root)
    requires IsInternal(pages, root) && |pages[root].entries| == 1
    requires IsTreePage(pages, pages[root].entries[0].child) && CollapsePages(pages, m, root, pages[root].entries[0].child)
    requires FreeInv(m, nPage, firstFree', free')
    ensures Sound(m, pages[root].entries[0].child, nPage, firstFree', ShapeMinus(sh, root), chain, free', contents)
  {
    var c, sh' := pages[root].entries[0].child, ShapeMinus(sh, root);
    CollapseTree(pages, sh, root, m);
    FrameChain(pages, sh, m, sh', chain);
    FrameContent(pages, sh, m, sh', root, c, contents);
    forall q | IsTreePage(m, q)
      ensures Filled(m[q], q == c)
    {
      assert Filled(pages[q], q == root);
    }
  }

  // ---------------------------------------------------------------- what removeBtree does to an underfull leaf

  /** Leaf l, edited in memory to node, is the only page that may hold too few rows. */
  ghost predicate LeafEdited(pages: map<nat, Page>, node: Page, root: nat, nPage: nat, firstFree: nat,
      sh: Shape, chain: seq<nat>, free: seq<nat>, contents: map<Key, Row>, l: nat) {
    && IsLeaf(pages, l) && node.Leaf?
    && node.parent == pages[l].parent && node.prev == pages[l].prev && node.next == pages[l].next
    && SoundExcept(pages[l := node], root, nPage, firstFree, sh, chain, free, contents, l)
    && (l != root ==> |node.rows| >= 6)
    && SmallRows(node.rows) && UsedLeafEdited(node.rows) <= MAXIMUM_USED_BYTES
  }

  /** Internal page p, edited in memory to node, is the only page that may have too few children. */
  ghost predicate InternalEdited(pages: map<nat, Page>, node: Page, root: nat, nPage: nat, firstFree: nat,
      sh: Shape, chain: seq<nat>, free: seq<nat>, contents: map<Key, Row>, p: nat) {
    && IsInternal(pages, p) && node.Internal?
    && node.parent == pages[p].parent
    && SoundExcept(pages[p := node], root, nPage, firstFree, sh, chain, free, contents, p)
    && (if p == root then 1 else 13) <= |node.entries| <= 54
  }

  /** Where the chain neighbours of a leaf hang: those with the same parent are in the neighbouring slots. */
  lemma LeafNeighbours(pages: map<nat, Page>, sh: Shape, root: nat, chain: seq<nat>, l: nat) returns (i: nat)
    requires TreeOk(pages, sh, root) && ChainInv(pages, sh, chain) && IsLeaf(pages, l) && l != root
    ensures IsInternal(pages, pages[l].parent) && i < |pages[pages[l].parent].entries| && pages[pages[l].parent].entries[i].child == l
    ensures var P, next, prev := pages[l].parent, pages[l].next, pages[l].prev;
      var es := pages[P].entries;
      && (next != 0 ==> IsLeaf(pages, next) && next != l)
      && (prev != 0 ==> IsLeaf(pages, prev) && prev != l)
      && (next != 0 && pages[next].parent == P ==> i + 1 < |es| && es[i+1].child == next)
      && (prev != 0 && pages[prev].parent == P ==> i > 0 && es[i-1].child == prev)
      && (i + 1 < |es| ==> next != 0 && pages[next].parent == P)
      && (i > 0 ==> prev != 0 && pages[prev].parent == P)
  {
    var P;
    P, i := ParentSlot(pages, sh, root, l);
    var es := pages[P].entries;
    var n := ChainPosition(pages, sh, chain, l);
    assert PageOk(pages, sh, P) && PageOk(pages, sh, l);
    assert Attached(pages, sh, root, root);
    if n + 1 < |chain| {
      assert ChainLinks(pages, chain, n + 1);
      if pages[chain[n+1]].parent == P { AdjacentSiblings(pages, sh, root, chain, P, i, n); }
    }
    if n > 0 {
      assert ChainLinks(pages, chain, n - 1);
      if pages[chain[n-1]].parent == P {
        var q, j := ParentSlot(pages, sh, root, chain[n-1]);
        AdjacentSiblings(pages, sh, root, chain, P, j, n - 1);
        SlotUnique(pages, sh, root, P, j + 1, i);
      }
    }
    if i + 1 < |es| {
      LevelZero(pages, sh, root, P, i + 1);
      SiblingsAdjacent(pages, sh, root, chain, P, i, n);
    }
    if i > 0 {
      LevelZero(pages, sh, root, P, i - 1);
      var k := ChainPosition(pages, sh, chain, es[i-1].child);
      SiblingsAdjacent(pages, sh, root, chain, P, i - 1, k);
    }
  }

  /** A sibling of a leaf is a leaf with a link back to the parent. */
  lemma LevelZero(pages: map<nat, Page>, sh: Shape, root: nat, P: nat, j: nat)
    requires TreeOk(pages, sh, root) && IsInternal(pages, P) && j < |pages[P].entries| && sh.lvl[P] == 1
    ensures IsLeaf(pages, pages[P].entries[j].child) && pages[pages[P].entries[j].child].parent == P
  {
    var w := ChildKey(pages, sh, root, P, j);
    assert PageOk(pages, sh, pages[P].entries[j].child);
  }

  /** Slot t is the one slot of es that names page c. */
  ghost predicate OnlySlot(es: seq<Entry>, c: nat, t: nat) {
    && t < |es| && es[t].child == c
    && forall u | 0 <= u < |es| && es[u].child == c :: u == t
  }

  lemma ChildOnlySlot(pages: map<nat, Page>, sh: Shape, root: nat, P: nat, t: nat)
    requires TreeOk(pages, sh, root) && IsInternal(pages, P) && t < |pages[P].entries|
    ensures OnlySlot(pages[P].entries, pages[P].entries[t].child, t)
  {
    forall u | 0 <= u < |pages[P].entries| && pages[P].entries[u].child == pages[P].entries[t].child
      ensures u == t
    {
      SlotUnique(pages, sh, root, P, u, t);
    }
  }

  /** A parent whose children are all filled, back in memory. */
  lemma ParentEdited(pages: map<nat, Page>, parent: Page, root: nat, nPage: nat, firstFree: nat,
      sh: Shape, chain: seq<nat>, free: seq<nat>, contents: map<Key, Row>, P: nat)
    requires IsInternal(pages, P) && parent.Internal? && parent.parent == pages[P].parent
    requires SoundExcept(pages[P := parent], root, nPage, firstFree, sh, chain, free, contents, 0)
    ensures InternalEdited(pages, parent, root, nPage, firstFree, sh, chain, free, contents, P)
  {
    var V := pages[P := parent];
    assert P != 0;
    assert Filled(V[P], P == root);
    forall q | IsTreePage(V, q) && q != P
      ensures Filled(V[q], q == root)
    {
      assert q != 0;
    }
  }

  lemma SmallConcat(a: seq<Row>, b: seq<Row>)
    requires SmallRows(a) && SmallRows(b)
    ensures SmallRows(a + b)
  {
  }

  /** borrowKeyFromRightLeaf. */
  lemma BorrowRightLeafDone(pages: map<nat, Page>, node: Page, root: nat, nPage: nat, firstFree: nat,
      sh: Shape, chain: seq<nat>, free: seq<nat>, contents: map<Key, Row>, l: nat) returns (t: nat, sh': Shape)
    requires LeafEdited(pages, node, root, nPage, firstFree, sh, chain, free, contents, l) && l != root
    requires UsedLeafEdited(node.rows) < MINIMUM_USED_BYTES
    requires node.next != 0 && IsLeaf(pages, node.next) && pages[node.next].parent == node.parent
    requires UsedLeafRead(pages[node.next].rows) > MINIMUM_USED_BYTES
    ensures node.Leaf?
    ensures IsInternal(pages, node.parent) && OnlySlot(pages[node.parent].entries, node.next, t)
    ensures |pages[node.next].rows| >= 2 && node.next != l && node.parent != l && node.parent != node.next
    ensures var P, next := node.parent, pages[node.next];
      var parent := pages[P].(entries := WithKey(pages[P].entries, t, next.rows[1].key));
      InternalEdited(pages[node.next := next.(rows := next.rows[1..])][l := node.(rows := node.rows + [next.rows[0]])],
        parent, root, nPage, firstFree, sh', chain, free, contents, P)
  {
    hide TreeOk, ChainInv, FreeInv, ContentInv, FilledExcept, RowsBytes, SmallRows;
    var P, n := node.parent, node.next;
    var V := pages[l := node];
    var i := LeafNeighbours(V, sh, root, chain, l);
    t := i + 1;
    var next := pages[n];
    LeafPairFacts(V, sh, root, l, P, i, l);
    RowsBytesBounds(next.rows);
    var rows, j := node.rows + next.rows, |node.rows| + 1;
    CutBehindFirst(node.rows, next.rows);
    SmallConcat(node.rows, next.rows);
    BorrowBytes(node.rows, next.rows);
    var pages' := pages[n := next.(rows := next.rows[1..])][l := node.(rows := node.rows + [next.rows[0]])];
    sh' := ShiftedLeaves(pages, node, pages', root, nPage, firstFree, sh, chain, free, contents, l, P, i, j);
  }

  /** Facts about two neighbouring leaves a and b of which only x may hold too few rows. */
  lemma LeafPairFacts(pages: map<nat, Page>, sh: Shape, root: nat, x: nat, P: nat, i: nat, l: nat)
    requires TreeOk(pages, sh, root) && FilledExcept(pages, root, x)
    requires IsInternal(pages, P) && i + 1 < |pages[P].entries|
    requires IsLeaf(pages, pages[P].entries[i].child) && IsLeaf(pages, pages[P].entries[i+1].child)
    ensures var a, b := pages[P].entries[i].child, pages[P].entries[i+1].child;
      && a != b && P != a && P != b && a != root && b != root
      && OnlySlot(pages[P].entries, a, i) && OnlySlot(pages[P].entries, b, i + 1)
      && (a != x ==> SmallRows(pages[a].rows) && |pages[a].rows| >= 7 && UsedLeafEdited(pages[a].rows) <= MAXIMUM_USED_BYTES)
      && (b != x ==> SmallRows(pages[b].rows) && |pages[b].rows| >= 7 && UsedLeafEdited(pages[b].rows) <= MAXIMUM_USED_BYTES)
  {
    var a, b := pages[P].entries[i].child, pages[P].entries[i+1].child;
    SiblingsFacts(pages, sh, root, P, i);
    var v := ChildKey(pages, sh, root, P, i);
    var w := ChildKey(pages, sh, root, P, i + 1);
    ChildOnlySlot(pages, sh, root, P, i);
    ChildOnlySlot(pages, sh, root, P, i + 1);
    if a != x { assert Filled(pages[a], false); }
    if b != x { assert Filled(pages[b], false); }
  }

  lemma Overwritten(m: map<nat, Page>, x: nat, page: Page, a: nat, pageA: Page, b: nat, pageB: Page)
    requires x == a || x == b
    ensures m[x := page][a := pageA][b := pageB] == m[a := pageA][b := pageB]
  {
  }

  /** The rows of two neighbouring leaves, divided anew in pages', with the parent's separator changed in memory. */
  lemma ShiftedLeaves(pages: map<nat, Page>, node: Page, pages': map<nat, Page>, root: nat, nPage: nat, firstFree: nat,
      sh: Shape, chain: seq<nat>, free: seq<nat>, contents: map<Key, Row>, x: nat, P: nat, i: nat, j: nat) returns (sh': Shape)
    requires LeafEdited(pages, node, root, nPage, firstFree, sh, chain, free, contents, x) && x != root && P == node.parent
    requires var V := pages[x := node];
      && IsInternal(V, P) && i + 1 < |V[P].entries| && P != x
      && IsLeaf(V, V[P].entries[i].child) && IsLeaf(V, V[P].entries[i+1].child)
      && (x == V[P].entries[i].child || x == V[P].entries[i+1].child)
      && V[P].entries[i].child != V[P].entries[i+1].child && P != V[P].entries[i].child && P != V[P].entries[i+1].child
      && 0 < j < |V[V[P].entries[i].child].rows + V[V[P].entries[i+1].child].rows|
    requires var V := pages[x := node];
      var a, b := V[P].entries[i].child, V[P].entries[i+1].child;
      var rows := V[a].rows + V[b].rows;
      && SmallRows(rows) && j >= 7 && |rows| - j >= 7
      && UsedLeafEdited(rows[..j]) <= MAXIMUM_USED_BYTES && UsedLeafEdited(rows[j..]) <= MAXIMUM_USED_BYTES
      && pages' == pages[a := V[a].(rows := rows[..j])][b := V[b].(rows := rows[j..])]
    ensures IsInternal(pages, P)
    ensures var V := pages[x := node];
      var key := (V[V[P].entries[i].child].rows + V[V[P].entries[i+1].child].rows)[j].key;
      InternalEdited(pages', pages[P].(entries := WithKey(pages[P].entries, i + 1, key)), root, nPage, firstFree, sh', chain, free, contents, P)
  {
    var V := pages[x := node];
    var a, b := V[P].entries[i].child, V[P].entries[i+1].child;
    var key := (V[a].rows + V[b].rows)[j].key;
    var parent := pages[P].(entries := WithKey(pages[P].entries, i + 1, key));
    assert root != 0;
    hide TreeOk, ChainInv, FreeInv, ContentInv, FilledExcept, ShiftShape, Sound, InternalEdited;
    ShiftLeafSound(V, root, nPage, firstFree, sh, chain, free, contents, x, P, i, j);
    sh' := ShiftShape(sh, a, b, key);
    var rows := V[a].rows + V[b].rows;
    Overwritten(pages, x, node, a, V[a].(rows := rows[..j]), b, V[b].(rows := rows[j..]));
    assert pages'[P := parent] == ShiftLeafPages(V, P, i, j);
    hide ShiftLeafPages, SoundExcept;
    SoundToExcept(pages'[P := parent], root, nPage, firstFree, sh', chain, free, contents);
    ParentEdited(pages', parent, root, nPage, firstFree, sh', chain, free, contents, P);
  }

  lemma SoundToExcept(pages: map<nat, Page>, root: nat, nPage: nat, firstFree: nat,
      sh: Shape, chain: seq<nat>, free: seq<nat>, contents: map<Key, Row>)
    requires Sound(pages, root, nPage, firstFree, sh, chain, free, contents) && root != 0
    ensures SoundExcept(pages, root, nPage, firstFree, sh, chain, free, contents, 0)
  {
  }

  /** Bytes after the first row of b moved behind a. */
  lemma BorrowBytes(a: seq<Row>, b: seq<Row>)
    requires |b| > 0 && SmallRows(b)
    ensures RowsBytes(a + [b[0]]) == RowsBytes(a) + 4 + RowSize(b[0]) <= RowsBytes(a) + 252
    ensures RowsBytes(b[1..]) <= RowsBytes(b)
  {
    assert (a + [b[0]])[..|a|] == a;
    assert b == [b[0]] + b[1..];
    RowsBytesConcat([b[0]], b[1..]);
  }

  lemma CutBehindFirst(a: seq<Row>, b: seq<Row>)
    requires |b| > 0
    ensures (a + b)[..|a|+1] == a + [b[0]] && (a + b)[|a|+1..] == b[1..]
  {
  }

  lemma CutBeforeLast(a: seq<Row>, b: seq<Row>)
    requires |a| > 0
    ensures (a + b)[..|a|-1] == a[..|a|-1] && (a + b)[|a|-1..] == [a[|a|-1]] + b
  {
  }

  /** Bytes after the last row of a moved in front of b. */
  lemma BorrowLastBytes(a: seq<Row>, b: seq<Row>)
    requires |a| > 0 && SmallRows(a)
    ensures RowsBytes([a[|a|-1]] + b) <= RowsBytes(b) + 252
    ensures RowsBytes(a[..|a|-1]) <= RowsBytes(a)
  {
    assert [a[|a|-1]][..0] == [];
    RowsBytesConcat([a[|a|-1]], b);
  }

  /** borrowKeyFromLeftLeaf. */
  lemma BorrowLeftLeafDone(pages: map<nat, Page>, node: Page, root: nat, nPage: nat, firstFree: nat,
      sh: Shape, chain: seq<nat>, free: seq<nat>, contents: map<Key, Row>, l: nat) returns (t: nat, sh': Shape)
    requires LeafEdited(pages, node, root, nPage, firstFree, sh, chain, free, contents, l) && l != root
    requires UsedLeafEdited(node.rows) < MINIMUM_USED_BYTES
    requires node.prev != 0 && IsLeaf(pages, node.prev) && pages[node.prev].parent == node.parent
    requires UsedLeafRead(pages[node.prev].rows) > MINIMUM_USED_BYTES
    ensures node.Leaf?
    ensures IsInternal(pages, node.parent) && OnlySlot(pages[node.parent].entries, l, t)
    ensures |pages[node.prev].rows| >= 2 && node.prev != l && node.parent != l && node.parent != node.prev
    ensures var P, prev := node.parent, pages[node.prev];
      var last := prev.rows[|prev.rows|-1];
      var parent := pages[P].(entries := WithKey(pages[P].entries, t, last.key));
      InternalEdited(pages[node.prev := prev.(rows := prev.rows[..|prev.rows|-1])][l := node.(rows := [last] + node.rows)],
        parent, root, nPage, firstFree, sh', chain, free, contents, P)
  {
    hide TreeOk, ChainInv, FreeInv, ContentInv, FilledExcept, RowsBytes, SmallRows;
    var P, n := node.parent, node.prev;
    var V := pages[l := node];
    t := LeafNeighbours(V, sh, root, chain, l);
    var i := t - 1;
    var prev := pages[n];
    LeafPairFacts(V, sh, root, l, P, i, l);
    RowsBytesBounds(prev.rows);
    var rows, j := prev.rows + node.rows, |prev.rows| - 1;
    CutBeforeLast(prev.rows, node.rows);
    SmallConcat(prev.rows, node.rows);
    BorrowLastBytes(prev.rows, node.rows);
    var pages' := pages[n := prev.(rows := prev.rows[..j])][l := node.(rows := [prev.rows[j]] + node.rows)];
    sh' := ShiftedLeaves(pages, node, pages', root, nPage, firstFree, sh, chain, free, contents, l, P, i, j);
  }

  /** The pages after the leaf in slot i + 1 of P was merged into the one in slot i and freed. */
  ghost function MergeLeafWrites(pages: map<nat, Page>, P: nat, i: nat, firstFree: nat): map<nat, Page>
    requires IsInternal(pages, P) && i + 1 < |pages[P].entries|
    requires IsLeaf(pages, pages[P].entries[i].child) && IsLeaf(pages, pages[P].entries[i+1].child)
    requires pages[pages[P].entries[i+1].child].next != 0 ==> IsLeaf(pages, pages[pages[P].entries[i+1].child].next)
  {
    var es := pages[P].entries;
    var s, d := es[i].child, es[i+1].child;
    var next := pages[d].next;
    var m := if next != 0 then pages[next := pages[next].(prev := s)] else pages;
    m[d := Free(firstFree)]
     [s := pages[s].(rows := pages[s].rows + pages[d].rows, next := next)]
     [P := pages[P].(entries := MergeSlot(es, i, s))]
  }

  /** A leaf, the next one, and the one behind that. */
  lemma ThreeLeaves(pages: map<nat, Page>, sh: Shape, root: nat, chain: seq<nat>, P: nat, i: nat)
    requires TreeOk(pages, sh, root) && ChainInv(pages, sh, chain)
    requires IsInternal(pages, P) && i + 1 < |pages[P].entries|
    requires IsLeaf(pages, pages[P].entries[i].child) && IsLeaf(pages, pages[P].entries[i+1].child)
    ensures var s, d := pages[P].entries[i].child, pages[P].entries[i+1].child;
      && Siblings(pages, P, i, s, d) && 0 !in pages && pages[s].next == d && pages[d].prev == s && pages[s].parent == pages[d].parent == P
      && (pages[d].next != 0 ==>
            IsLeaf(pages, pages[d].next) && pages[d].next != s && pages[d].next != d && pages[pages[d].next].prev == d)
      && forall q | IsLeaf(pages, q) && pages[d].next == 0 :: q != pages[d].next
  {
    hide Attached, Covers, Within, LeavesBelow;
    var s, d := pages[P].entries[i].child, pages[P].entries[i+1].child;
    SiblingsFacts(pages, sh, root, P, i);
    var n := ChainPosition(pages, sh, chain, s);
    SiblingsAdjacent(pages, sh, root, chain, P, i, n);
    assert ChainLinks(pages, chain, n + 1);
    if n + 2 < |chain| { assert ChainLinks(pages, chain, n + 2); }
  }

  lemma MergeLeafWritten(pages: map<nat, Page>, sh: Shape, root: nat, chain: seq<nat>, P: nat, i: nat, firstFree: nat)
    requires TreeOk(pages, sh, root) && ChainInv(pages, sh, chain)
    requires IsInternal(pages, P) && i + 1 < |pages[P].entries|
    requires IsLeaf(pages, pages[P].entries[i].child) && IsLeaf(pages, pages[P].entries[i+1].child)
    ensures var s, d := pages[P].entries[i].child, pages[P].entries[i+1].child;
      && Siblings(pages, P, i, s, d)
      && (pages[d].next != 0 ==> IsLeaf(pages, pages[d].next) && pages[d].next != s && pages[d].next != d)
      && MergePages(pages, MergeLeafWrites(pages, P, i, firstFree), P, i, s, d)
      && MergeLinks(pages, MergeLeafWrites(pages, P, i, firstFree), s, d)
  {
    hide TreeOk, ChainInv, MergeSlot;
    ThreeLeaves(pages, sh, root, chain, P, i);
  }

  lemma MergeLeafFree(pages: map<nat, Page>, P: nat, i: nat, nPage: nat, firstFree: nat, free: seq<nat>)
    requires IsInternal(pages, P) && i + 1 < |pages[P].entries|
    requires IsLeaf(pages, pages[P].entries[i].child) && IsLeaf(pages, pages[P].entries[i+1].child)
    requires pages[P].entries[i].child != pages[P].entries[i+1].child
    requires pages[pages[P].entries[i+1].child].next != 0 ==>
               IsLeaf(pages, pages[pages[P].entries[i+1].child].next) && pages[pages[P].entries[i+1].child].next != pages[P].entries[i+1].child
    requires FreeInv(pages, nPage, firstFree, free)
    ensures var d := pages[P].entries[i+1].child;
      FreeInv(MergeLeafWrites(pages, P, i, firstFree), nPage, d, [d] + free)
  {
    var d := pages[P].entries[i+1].child;
    FreePush(pages, nPage, firstFree, free, d);
    FrameFree(pages[d := Free(firstFree)], MergeLeafWrites(pages, P, i, firstFree), nPage, d, [d] + free, 0);
  }

  lemma MergedParent(pages: map<nat, Page>, m: map<nat, Page>, P: nat, i: nat, s: nat, d: nat)
    requires Siblings(pages, P, i, s, d) && MergePages(pages, m, P, i, s, d)
    ensures m[P] == Internal(pages[P].parent, MergeSlot(pages[P].entries, i, s))
  {
  }

  lemma ParentFilled(pages: map<nat, Page>, sh: Shape, root: nat, P: nat, x: nat)
    requires TreeOk(pages, sh, root) && FilledExcept(pages, root, x) && IsInternal(pages, P) && P != x
    ensures P != 0 && Filled(pages[P], P == root)
  {
  }

  /** Leaf x, edited in memory, is merged with a neighbour: the pages written, and the parent in memory. */
  lemma MergedLeaves(pages: map<nat, Page>, node: Page, pages': map<nat, Page>, parent: Page, root: nat, nPage: nat, firstFree: nat,
      sh: Shape, chain: seq<nat>, free: seq<nat>, contents: map<Key, Row>, x: nat, P: nat, i: nat) returns (n: nat, sh': Shape)
    requires LeafEdited(pages, node, root, nPage, firstFree, sh, chain, free, contents, x) && x != root && P == node.parent
    requires var V := pages[x := node];
      && IsInternal(V, P) && i + 1 < |V[P].entries|
      && IsLeaf(V, V[P].entries[i].child) && IsLeaf(V, V[P].entries[i+1].child)
      && (x == V[P].entries[i].child || x == V[P].entries[i+1].child)
      && UsedLeafEdited(V[V[P].entries[i].child].rows + V[V[P].entries[i+1].child].rows) <= MAXIMUM_USED_BYTES
      && (V[V[P].entries[i+1].child].next != 0 ==> IsLeaf(V, V[V[P].entries[i+1].child].next))
      && IsInternal(pages', P) && parent.Internal? && parent.parent == pages'[P].parent
      && pages'[P := parent] == MergeLeafWrites(V, P, i, firstFree)
    ensures n < |chain|
    ensures var d := pages[x := node][P].entries[i+1].child;
      InternalEdited(pages', parent, root, nPage, d, sh', Removed(chain, n), [d] + free, contents, P)
  {
    hide MergePages, MergeLinks, MergeLeafWrites, TreeOk, ChainInv, FreeInv, ContentInv, FilledExcept;
    var V := pages[x := node];
    var s, d := V[P].entries[i].child, V[P].entries[i+1].child;
    var m := MergeLeafWrites(V, P, i, firstFree);
    MergeLeafWritten(V, sh, root, chain, P, i, firstFree);
    MergeLeafFree(V, P, i, nPage, firstFree, free);
    LeafPairFacts(V, sh, root, x, P, i, x);
    ParentFilled(V, sh, root, P, x);
    SmallConcat(V[s].rows, V[d].rows);
    MergeSlotAt(V[P].entries, i, s);
    MergedParent(V, m, P, i, s, d);
    n := MergeLeafSound(V, root, nPage, firstFree, d, sh, chain, free, [d] + free, contents, x, P, i, m);
    sh' := MergeShape(sh, s, d);
  }

  function WithoutSlot(es: seq<Entry>, t: nat): seq<Entry>
    requires t < |es|
  {
    es[..t] + es[t+1..]
  }

  lemma WithoutSlotMerges(es: seq<Entry>, i: nat)
    requires i + 1 < |es|
    ensures WithoutSlot(es, i + 1) == MergeSlot(es, i, es[i].child)
  {
    assert es[..i+1] == es[..i] + [Entry(es[i].key, es[i].child)];
  }

  /** The pages that a leaf merge writes, but for the parent: the leaf behind d, the freed d, and s. */
  ghost function LeafMergePages(pages: map<nat, Page>, s: nat, left: Page, d: nat, right: Page, firstFree: nat): map<nat, Page>
    requires left.Leaf? && right.Leaf?
    requires right.next != 0 ==> IsLeaf(pages, right.next)
  {
    var m := if right.next != 0 then pages[right.next := pages[right.next].(prev := s)] else pages;
    m[d := Free(firstFree)][s := left.(rows := left.rows + right.rows, next := right.next)]
  }

  lemma LeafMergeWrites(pages: map<nat, Page>, x: nat, node: Page, P: nat, i: nat, firstFree: nat)
    requires node.Leaf?
    requires var V := pages[x := node];
      && IsInternal(V, P) && i + 1 < |V[P].entries| && P != x
      && IsLeaf(V, V[P].entries[i].child) && IsLeaf(V, V[P].entries[i+1].child)
      && (x == V[P].entries[i].child || x == V[P].entries[i+1].child)
      && (V[V[P].entries[i+1].child].next != 0 ==>
            && IsLeaf(V, V[V[P].entries[i+1].child].next)
            && V[V[P].entries[i+1].child].next != V[P].entries[i].child && V[V[P].entries[i+1].child].next != V[P].entries[i+1].child)
      && P != V[P].entries[i].child && P != V[P].entries[i+1].child
    ensures var V := pages[x := node];
      var s, d := V[P].entries[i].child, V[P].entries[i+1].child;
      var m := LeafMergePages(pages, s, V[s], d, V[d], firstFree);
      && IsInternal(m, P) && m[P] == pages[P]
      && m[P := pages[P].(entries := WithoutSlot(pages[P].entries, i + 1))] == MergeLeafWrites(V, P, i, firstFree)
  {
    WithoutSlotMerges(pages[P].entries, i);
  }

  /** mergeLeafNode of the next leaf into the edited one. */
  lemma MergeRightLeafDone(pages: map<nat, Page>, node: Page, root: nat, nPage: nat, firstFree: nat,
      sh: Shape, chain: seq<nat>, free: seq<nat>, contents: map<Key, Row>, l: nat) returns (t: nat, n: nat, sh': Shape)
    requires LeafEdited(pages, node, root, nPage, firstFree, sh, chain, free, contents, l) && l != root
    requires UsedLeafEdited(node.rows) < MINIMUM_USED_BYTES
    requires node.next != 0 && IsLeaf(pages, node.next) && pages[node.next].parent == node.parent
    requires UsedLeafRead(pages[node.next].rows) <= MINIMUM_USED_BYTES
    ensures node.Leaf?
    ensures IsInternal(pages, node.parent) && OnlySlot(pages[node.parent].entries, node.next, t)
    ensures node.next != l && node.parent != l && node.parent != node.next && n < |chain|
    ensures pages[node.next].next != 0 ==> IsLeaf(pages, pages[node.next].next)
    ensures InternalEdited(LeafMergePages(pages, l, node, node.next, pages[node.next], firstFree),
              pages[node.parent].(entries := WithoutSlot(pages[node.parent].entries, t)),
              root, nPage, node.next, sh', Removed(chain, n), [node.next] + free, contents, node.parent)
  {
    hide TreeOk, ChainInv, FreeInv, ContentInv, FilledExcept, MergePages, MergeLinks, Siblings, MergeLeafWrites;
    var P, d := node.parent, node.next;
    var V := pages[l := node];
    var i := LeafNeighbours(V, sh, root, chain, l);
    t := i + 1;
    MergeLeafWritten(V, sh, root, chain, P, i, firstFree);
    LeafPairFacts(V, sh, root, l, P, i, l);
    RowsBytesConcat(node.rows, pages[d].rows);
    LeafMergeWrites(pages, l, node, P, i, firstFree);
    var pages' := LeafMergePages(pages, l, node, d, pages[d], firstFree);
    n, sh' := MergedLeaves(pages, node, pages', pages[P].(entries := WithoutSlot(pages[P].entries, t)), root, nPage, firstFree,
      sh, chain, free, contents, l, P, i);
  }

  /** mergeLeafNode of the edited leaf into the one before it. */
  lemma MergeLeftLeafDone(pages: map<nat, Page>, node: Page, root: nat, nPage: nat, firstFree: nat,
      sh: Shape, chain: seq<nat>, free: seq<nat>, contents: map<Key, Row>, l: nat) returns (t: nat, n: nat, sh': Shape)
    requires LeafEdited(pages, node, root, nPage, firstFree, sh, chain, free, contents, l) && l != root
    requires UsedLeafEdited(node.rows) < MINIMUM_USED_BYTES
    requires node.prev != 0 && IsLeaf(pages, node.prev) && pages[node.prev].parent == node.parent
    requires UsedLeafRead(pages[node.prev].rows) <= MINIMUM_USED_BYTES
    ensures node.Leaf?
    ensures IsInternal(pages, node.parent) && OnlySlot(pages[node.parent].entries, l, t)
    ensures node.prev != l && node.parent != l && node.parent != node.prev && n < |chain|
    ensures node.next != 0 ==> IsLeaf(pages, node.next)
    ensures InternalEdited(LeafMergePages(pages, node.prev, pages[node.prev], l, node, firstFree),
              pages[node.parent].(entries := WithoutSlot(pages[node.parent].entries, t)),
              root, nPage, l, sh', Removed(chain, n), [l] + free, contents, node.parent)
  {
    var P, s := node.parent, node.prev;
    var V := pages[l := node];
    t := LeafNeighbours(V, sh, root, chain, l);
    var i := t - 1;
    MergeLeafWritten(V, sh, root, chain, P, i, firstFree);
    LeafPairFacts(V, sh, root, l, P, i, l);
    hide TreeOk, ChainInv, FreeInv, ContentInv, FilledExcept, MergePages, MergeLinks;
    RowsBytesConcat(pages[s].rows, node.rows);
    LeafMergeWrites(pages, l, node, P, i, firstFree);
    var pages' := LeafMergePages(pages, s, pages[s], l, node, firstFree);
    n, sh' := MergedLeaves(pages, node, pages', pages[P].(entries := WithoutSlot(pages[P].entries, t)), root, nPage, firstFree,
      sh, chain, free, contents, l, P, i);
  }

  /** A leaf that is not underfull, or is the root, needs no repair: writing it makes the file sound. */
  lemma LeafKept(pages: map<nat, Page>, node: Page, root: nat, nPage: nat, firstFree: nat,
      sh: Shape, chain: seq<nat>, free: seq<nat>, contents: map<Key, Row>, l: nat)
    requires LeafEdited(pages, node, root, nPage, firstFree, sh, chain, free, contents, l)
    requires UsedLeafEdited(node.rows) >= MINIMUM_USED_BYTES || l == root
    ensures Sound(pages[l := node], root, nPage, firstFree, sh, chain, free, contents)
    ensures node.parent == 0 <==> l == root
    ensures l != root ==>
              && IsInternal(pages, node.parent) && node.parent != l
              && InternalEdited(pages[l := node], pages[node.parent], root, nPage, firstFree, sh, chain, free, contents, node.parent)
  {
    var V := pages[l := node];
    RowsBytesBounds(node.rows);
    assert Attached(V, sh, root, l);
    AllFilled(V, root, nPage, firstFree, sh, chain, free, contents, l);
    hide FreeInv, ContentInv, ChainInv;
    if l != root {
      var P := node.parent;
      assert V[P := pages[P]] == V;
      ParentEdited(V, pages[P], root, nPage, firstFree, sh, chain, free, contents, P);
    }
  }

  /** An underfull leaf other than the root has a sibling next to it below its own parent. */
  lemma LeafHasSibling(pages: map<nat, Page>, node: Page, root: nat, nPage: nat, firstFree: nat,
      sh: Shape, chain: seq<nat>, free: seq<nat>, contents: map<Key, Row>, l: nat)
    requires LeafEdited(pages, node, root, nPage, firstFree, sh, chain, free, contents, l) && l != root
    ensures node.parent != 0 && node.parent != l && IsInternal(pages, node.parent)
    ensures node.next != 0 ==> IsLeaf(pages, node.next) && node.next != l
    ensures node.prev != 0 ==> IsLeaf(pages, node.prev) && node.prev != l
    ensures (node.next != 0 && pages[node.next].parent == node.parent) || (node.prev != 0 && pages[node.prev].parent == node.parent)
  {
    var V := pages[l := node];
    var i := LeafNeighbours(V, sh, root, chain, l);
    assert Filled(V[node.parent], node.parent == root);
    assert IsTreePage(V, l) && node.parent in V;
  }

  // ---------------------------------------------------------------- removeFromLeaf

  /** removeFromLeaf without a separator to refresh. */
  lemma RemoveRowDone(pages: map<nat, Page>, root: nat, nPage: nat, firstFree: nat,
      sh: Shape, chain: seq<nat>, free: seq<nat>, contents: map<Key, Row>, l: nat, i: nat)
    requires Sound(pages, root, nPage, firstFree, sh, chain, free, contents) && root != 0
    requires IsLeaf(pages, l) && i < |pages[l].rows|
    ensures var k := pages[l].rows[i].key;
      && k in contents && contents[k] == pages[l].rows[i]
      && LeafEdited(pages, pages[l].(rows := WithoutRow(pages[l].rows, i)), root, nPage, firstFree, ShapeWithout(sh, k), chain, free, contents - {k}, l)
  {
    SoundToExcept(pages, root, nPage, firstFree, sh, chain, free, contents);
    assert RowsIn(pages[l].rows, contents);
    RemoveRowSound(pages, root, nPage, firstFree, sh, chain, free, contents, l, i);
  }

  /** The slot of a leaf in its parent, found through one of its keys. */
  lemma LeafSlot(pages: map<nat, Page>, sh: Shape, root: nat, l: nat, k: Key) returns (i: nat)
    requires TreeOk(pages, sh, root) && IsLeaf(pages, l) && k in sh.keys[l]
    ensures pages[l].parent == 0 <==> l == root
    ensures l != root ==>
      var P := pages[l].parent;
      && IsInternal(pages, P) && P != l && |pages[P].entries| > 0 && RealKeys(pages[P].entries) && Increasing(pages[P].entries)
      && Routes(pages[P].entries, k, i) && pages[P].entries[i].child == l
  {
    assert Attached(pages, sh, root, l);
    if l != root {
      var P;
      P, i := ParentSlot(pages, sh, root, l);
      EntriesIncrease(pages, sh, root, P);
    } else {
      i := 0;
    }
  }

  /** The separator in front of a leaf becomes the leaf's first key. */
  lemma RefreshLeafDone(pages: map<nat, Page>, node: Page, root: nat, nPage: nat, firstFree: nat,
      sh: Shape, chain: seq<nat>, free: seq<nat>, contents: map<Key, Row>, l: nat, i: nat)
    requires LeafEdited(pages, node, root, nPage, firstFree, sh, chain, free, contents, l) && l != root
    requires IsInternal(pages, node.parent) && 1 <= i < |pages[node.parent].entries| && pages[node.parent].entries[i].child == l
    ensures node.rows != []
    ensures LeafEdited(pages[node.parent := pages[node.parent].(entries := WithKey(pages[node.parent].entries, i, node.rows[0].key))],
              node, root, nPage, firstFree, sh, chain, free, contents, l)
  {
    var V, P := pages[l := node], node.parent;
    var k := node.rows[0].key;
    assert PageOk(V, sh, l);
    assert k in KeySet(node.rows);
    ChildrenOrdered(V, sh, root, P, i - 1, i);
    RefreshSound(V, root, nPage, firstFree, sh, chain, free, contents, l, P, i, k);
    var parent := pages[P].(entries := WithKey(pages[P].entries, i, k));
    assert V[P := parent] == pages[P := parent][l := node];
  }

  lemma ContentsNeedRoot(pages: map<nat, Page>, root: nat, nPage: nat, firstFree: nat,
      sh: Shape, chain: seq<nat>, free: seq<nat>, contents: map<Key, Row>, key: Key)
    requires Sound(pages, root, nPage, firstFree, sh, chain, free, contents) && key in contents
    ensures root != 0
  {
  }

  /** The search for a key of the table ends in the leaf that holds it. */
  lemma KeyInFoundLeaf(pages: map<nat, Page>, root: nat, nPage: nat, firstFree: nat,
      sh: Shape, chain: seq<nat>, free: seq<nat>, contents: map<Key, Row>, key: Key, l: nat, S: set<nat>)
    requires Sound(pages, root, nPage, firstFree, sh, chain, free, contents) && key in contents && root != 0
    requires SearchPath(pages, S, root, key, l) && Isolates(sh, root, l, key)
    ensures IsLeaf(pages, l) && l in sh.keys && key in sh.keys[l]
  {
    assert key in sh.keys[root];
  }

  lemma LeafEditedFacts(pages: map<nat, Page>, node: Page, root: nat, nPage: nat, firstFree: nat,
      sh: Shape, chain: seq<nat>, free: seq<nat>, contents: map<Key, Row>, l: nat)
    requires LeafEdited(pages, node, root, nPage, firstFree, sh, chain, free, contents, l)
    ensures node.Leaf?
  {
  }
}
