/** What the file invariant says about whole files: every page is used exactly once, the tree is shallow,
    no page overflows, and every link agrees with the link it mirrors. */
module TreeFacts {
  import opened Pages
  import opened TreeInvariant
  import opened TreeSearch
  import opened TreeDelete
  import opened DeleteSound

  // ---------------------------------------------------------------- page conservation

  /** Following the slots in path from page p leads to page q. */
  ghost predicate Leads(pages: map<nat, Page>, p: nat, path: seq<nat>, q: nat)
    decreases |path|
  {
    if path == [] then
      p == q && IsTreePage(pages, p)
    else
      IsInternal(pages, p) && path[0] < |pages[p].entries| && Leads(pages, pages[p].entries[path[0]].child, path[1..], q)
  }

  lemma {:induction false} LeadsAppend(pages: map<nat, Page>, p: nat, path: seq<nat>, q: nat, i: nat)
    requires Leads(pages, p, path, q) && IsInternal(pages, q) && i < |pages[q].entries|
    requires IsTreePage(pages, pages[q].entries[i].child)
    ensures Leads(pages, p, path + [i], pages[q].entries[i].child)
    decreases |path|
  {
    if path == [] {
      assert (path + [i])[1..] == [];
    } else {
      LeadsAppend(pages, pages[p].entries[path[0]].child, path[1..], q, i);
      assert (path + [i])[1..] == path[1..] + [i];
    }
  }

  /** The last step of a path comes from the parent of the page it reaches. */
  lemma {:induction false} LeadsLast(pages: map<nat, Page>, sh: Shape, root: nat, p: nat, path: seq<nat>, q: nat)
    requires TreeOk(pages, sh, root) && IsTreePage(pages, p) && Leads(pages, p, path, q) && path != []
    ensures IsTreePage(pages, q) && q != root
    ensures var P, i := pages[q].parent, path[|path|-1];
      && Leads(pages, p, path[..|path|-1], P) && IsInternal(pages, P)
      && i < |pages[P].entries| && pages[P].entries[i].child == q
    decreases |path|
  {
    var c := pages[p].entries[path[0]].child;
    var w := ChildKey(pages, sh, root, p, path[0]);
    if |path| > 1 {
      LeadsLast(pages, sh, root, c, path[1..], q);
      assert path[1..][..|path[1..]|-1] == path[..|path|-1][1..];
    } else {
      assert path[1..] == [] && path[..0] == [];
    }
  }

  lemma {:induction false} PathExists(pages: map<nat, Page>, sh: Shape, root: nat, p: nat) returns (path: seq<nat>)
    requires TreeOk(pages, sh, root) && IsTreePage(pages, p)
    ensures Leads(pages, root, path, p)
    decreases Above(sh, root, p)
  {
    if p == root {
      path := [];
    } else {
      var P, i := ParentSlot(pages, sh, root, p);
      path := PathExists(pages, sh, root, P);
      LeadsAppend(pages, root, path, P, i);
      path := path + [i];
    }
  }

  lemma {:induction false} PathUnique(pages: map<nat, Page>, sh: Shape, root: nat, p: nat, a: seq<nat>, b: seq<nat>)
    requires TreeOk(pages, sh, root) && Leads(pages, root, a, p) && Leads(pages, root, b, p)
    ensures a == b
    decreases |a|
  {
    if a == [] {
      if b != [] { LeadsLast(pages, sh, root, root, b, p); }
    } else {
      LeadsLast(pages, sh, root, root, a, p);
      if b == [] {
        assert false;
      }
      LeadsLast(pages, sh, root, root, b, p);
      var P := pages[p].parent;
      SlotUnique(pages, sh, root, P, a[|a|-1], b[|b|-1]);
      PathUnique(pages, sh, root, P, a[..|a|-1], b[..|b|-1]);
      assert a == a[..|a|-1] + [a[|a|-1]] && b == b[..|b|-1] + [b[|b|-1]];
    }
  }

  /** The page at which n steps along the free list arrive, starting from page p; 0 is the end. */
  ghost function FreeWalk(pages: map<nat, Page>, p: nat, n: nat): nat
    decreases n
  {
    if n == 0 then p
    else if p in pages && pages[p].Free? then FreeWalk(pages, pages[p].nextFree, n - 1)
    else 0
  }

  lemma {:induction false} FreeWalkLists(pages: map<nat, Page>, nPage: nat, firstFree: nat, free: seq<nat>, i: nat, n: nat)
    requires FreeInv(pages, nPage, firstFree, free) && i + n <= |free|
    ensures FreeWalk(pages, At(free, i), n) == At(free, i + n)
    decreases n
  {
    if n > 0 {
      assert FreeLink(pages, free, i);
      FreeWalkLists(pages, nPage, firstFree, free, i + 1, n - 1);
    }
  }

  /** p is reached from the root along exactly one path. */
  ghost predicate ReachedOnce(pages: map<nat, Page>, root: nat, p: nat) {
    && (exists path :: Leads(pages, root, path, p))
    && (forall a, b :: Leads(pages, root, a, p) && Leads(pages, root, b, p) ==> a == b)
  }

  /** p is met exactly once on the free list, which ends after n pages. */
  ghost predicate FreeOnce(pages: map<nat, Page>, firstFree: nat, n: nat, p: nat) {
    && (exists i :: 0 <= i < n && FreeWalk(pages, firstFree, i) == p)
    && (forall i, j | 0 <= i < n && 0 <= j < n && FreeWalk(pages, firstFree, i) == p && FreeWalk(pages, firstFree, j) == p :: i == j)
  }

  /** Every index in 1..nPage-1 is either reachable from the root exactly once or on the acyclic free list exactly once, never both. */
  lemma PageConservation(pages: map<nat, Page>, root: nat, nPage: nat, firstFree: nat,
      sh: Shape, chain: seq<nat>, free: seq<nat>, contents: map<Key, Row>, p: nat)
    requires Sound(pages, root, nPage, firstFree, sh, chain, free, contents)
    ensures FreeWalk(pages, firstFree, |free|) == 0
    ensures 1 <= p < nPage ==>
              (ReachedOnce(pages, root, p) && !exists i :: 0 <= i < |free| && FreeWalk(pages, firstFree, i) == p)
              || (FreeOnce(pages, firstFree, |free|, p) && !exists path :: Leads(pages, root, path, p))
    ensures !(1 <= p < nPage) ==>
              (!exists i :: 0 <= i < |free| && FreeWalk(pages, firstFree, i) == p) && !exists path :: Leads(pages, root, path, p)
  {
    forall i | 0 <= i <= |free|
      ensures FreeWalk(pages, firstFree, i) == At(free, i)
    {
      FreeWalkLists(pages, nPage, firstFree, free, 0, i);
    }
    forall i | 0 <= i < |free|
      ensures FreeWalk(pages, firstFree, i) == free[i] && free[i] in pages && pages[free[i]].Free?
    {
      assert FreeLink(pages, free, i);
    }
    forall path | Leads(pages, root, path, p)
      ensures IsTreePage(pages, p)
    {
      LeadsToTree(pages, root, path, p);
    }
    if 1 <= p < nPage {
      if pages[p].Free? {
        assert p in free;
        var i :| 0 <= i < |free| && free[i] == p;
        assert FreeWalk(pages, firstFree, i) == p;
      } else {
        assert IsTreePage(pages, p) && root != 0;
        var path := PathExists(pages, sh, root, p);
        forall a, b | Leads(pages, root, a, p) && Leads(pages, root, b, p)
          ensures a == b
        {
          PathUnique(pages, sh, root, p, a, b);
        }
      }
    }
  }

  lemma {:induction false} LeadsToTree(pages: map<nat, Page>, p: nat, path: seq<nat>, q: nat)
    requires Leads(pages, p, path, q)
    ensures IsTreePage(pages, q)
    decreases |path|
  {
    if path != [] {
      LeadsToTree(pages, pages[p].entries[path[0]].child, path[1..], q);
    }
  }

  // ---------------------------------------------------------------- height

  function Pow14(n: nat): nat {
    if n == 0 then 1 else 14 * Pow14(n - 1)
  }

  ghost function KeysOfFirst(sh: Shape, es: seq<Entry>, n: nat): set<Key>
    requires n <= |es|
  {
    if n == 0 then {} else
      KeysOfFirst(sh, es, n - 1) + (if es[n-1].child in sh.keys then sh.keys[es[n-1].child] else {})
  }

  /** The keys below the first n children are disjoint from those below the next one. */
  lemma {:induction false} FirstChildrenKeys(pages: map<nat, Page>, root: nat, sh: Shape, p: nat, n: nat)
    requires TreeOk(pages, sh, root) && IsInternal(pages, p) && n <= |pages[p].entries|
    ensures KeysOfFirst(sh, pages[p].entries, n) <= sh.keys[p]
    ensures n < |pages[p].entries| ==>
              pages[p].entries[n].child in sh.keys && KeysOfFirst(sh, pages[p].entries, n) !! sh.keys[pages[p].entries[n].child]
    decreases n
  {
    var es := pages[p].entries;
    if n > 0 {
      FirstChildrenKeys(pages, root, sh, p, n - 1);
      var w := ChildKey(pages, sh, root, p, n - 1);
    }
    if n < |es| {
      var w := ChildKey(pages, sh, root, p, n);
      forall k | k in KeysOfFirst(sh, es, n)
        ensures k !in sh.keys[es[n].child]
      {
        var j := KeyOfFirst(sh, es, n, k);
        ChildrenOrdered(pages, sh, root, p, j, n);
      }
    }
  }

  lemma {:induction false} KeyOfFirst(sh: Shape, es: seq<Entry>, n: nat, k: Key) returns (j: nat)
    requires n <= |es| && k in KeysOfFirst(sh, es, n)
    ensures j < n && es[j].child in sh.keys && k in sh.keys[es[j].child]
    decreases n
  {
    if k in KeysOfFirst(sh, es, n - 1) {
      j := KeyOfFirst(sh, es, n - 1, k);
    } else {
      j := n - 1;
    }
  }

  /** The least number of keys below a page at level v, other than the root. */
  function MinKeys(v: nat): nat {
    7 * Pow14(v)
  }

  function Times(n: nat, m: nat): nat {
    n * m
  }

  /** The first n children have at least n times the least number of keys of one child. */
  lemma {:induction false} FirstChildrenCount(pages: map<nat, Page>, root: nat, sh: Shape, p: nat, n: nat)
    requires TreeOk(pages, sh, root) && FilledExcept(pages, root, 0)
    requires IsInternal(pages, p) && n <= |pages[p].entries|
    ensures sh.lvl[p] > 0 && |KeysOfFirst(sh, pages[p].entries, n)| >= Times(n, MinKeys(sh.lvl[p] - 1))
    decreases sh.lvl[p], 0, n
  {
    hide MinKeys, PageOk, Attached, FilledExcept, Times;
    LevelPositive(pages, root, sh, p);
    var es := pages[p].entries;
    if n == 0 {
      NoTimes(MinKeys(sh.lvl[p] - 1));
    } else {
      FirstChildrenCount(pages, root, sh, p, n - 1);
      FirstChildrenKeys(pages, root, sh, p, n - 1);
      var w := ChildKey(pages, sh, root, p, n - 1);
      var c := es[n-1].child;
      KeyCount(pages, root, sh, c);
      var before := KeysOfFirst(sh, es, n - 1);
      assert |before + sh.keys[c]| == |before| + |sh.keys[c]|;
      CountStep(n, MinKeys(sh.lvl[c]), |before|, |sh.keys[c]|);
    }
  }

  lemma LevelPositive(pages: map<nat, Page>, root: nat, sh: Shape, p: nat)
    requires TreeOk(pages, sh, root) && IsInternal(pages, p)
    ensures sh.lvl[p] > 0
  {
    assert PageOk(pages, sh, p);
  }

  lemma CountStep(n: nat, m: nat, a: nat, b: nat)
    requires n > 0 && a >= Times(n - 1, m) && b >= m
    ensures a + b >= Times(n, m)
  {
  }

  lemma NoTimes(m: nat)
    ensures Times(0, m) == 0
  {
  }

  /** Below a page other than the root, at level v, there are at least 7 * 14^v keys. */
  lemma {:induction false} KeyCount(pages: map<nat, Page>, root: nat, sh: Shape, p: nat)
    requires TreeOk(pages, sh, root) && FilledExcept(pages, root, 0)
    requires IsTreePage(pages, p) && p != root
    ensures |sh.keys[p]| >= MinKeys(sh.lvl[p])
    decreases sh.lvl[p], 1, 0
  {
    assert PageOk(pages, sh, p);
    assert p != 0;
    assert Filled(pages[p], false);
    if pages[p].Leaf? {
      DistinctKeyCount(pages[p].rows);
    } else {
      var es := pages[p].entries;
      FirstChildrenCount(pages, root, sh, p, |es|);
      FirstChildrenKeys(pages, root, sh, p, |es|);
      SubsetCount(KeysOfFirst(sh, es, |es|), sh.keys[p]);
      CountAtLeast(|es|, 14, MinKeys(sh.lvl[p] - 1));
    }
  }

  lemma CountAtLeast(n: nat, m: nat, k: nat)
    requires n >= m
    ensures Times(n, k) >= m * k
  {
  }

  lemma SubsetCount(a: set<Key>, b: set<Key>)
    requires a <= b
    ensures |a| <= |b|
  {
    assert b == a + (b - a);
  }

  lemma {:induction false} DistinctKeyCount(rows: seq<Row>)
    requires SortedRows(rows)
    ensures |KeySet(rows)| == |rows|
    decreases |rows|
  {
    if rows != [] {
      var init, last := rows[..|rows|-1], rows[|rows|-1];
      DistinctKeyCount(init);
      assert rows == init + [last];
      AppendSorted(init, [last]);
      assert KeySet([last]) == {last.key} by { assert [last][0].key == last.key; }
    }
  }

  /** The height of the tree is logarithmic in the size of the table: a tree of height h >= 1 holds at least 14^h rows. */
  lemma HeightIsLogarithmic(pages: map<nat, Page>, root: nat, nPage: nat, firstFree: nat,
      sh: Shape, chain: seq<nat>, free: seq<nat>, contents: map<Key, Row>)
    requires Sound(pages, root, nPage, firstFree, sh, chain, free, contents) && root != 0
    ensures root in sh.lvl
    ensures sh.lvl[root] > 0 ==> |contents| >= Pow14(sh.lvl[root])
  {
    if sh.lvl[root] > 0 {
      assert PageOk(pages, sh, root);
      var es := pages[root].entries;
      assert Filled(pages[root], true);
      FirstChildrenCount(pages, root, sh, root, |es|);
      FirstChildrenKeys(pages, root, sh, root, |es|);
      SubsetCount(KeysOfFirst(sh, es, |es|), sh.keys[root]);
      CountAtLeast(|es|, 2, MinKeys(sh.lvl[root] - 1));
      assert |contents| == |contents.Keys|;
    }
  }

  // ---------------------------------------------------------------- fill, links

  /** Bytes of the rows themselves, without their slots. */
  function TupleBytes(rows: seq<Row>): nat {
    if rows == [] then 0 else TupleBytes(rows[..|rows|-1]) + RowSize(rows[|rows|-1])
  }

  lemma {:induction false} RowsBytesParts(rows: seq<Row>)
    ensures RowsBytes(rows) == 4 * |rows| + TupleBytes(rows)
    decreases |rows|
  {
    if rows != [] { RowsBytesParts(rows[..|rows|-1]); }
  }

  /** The 25-byte header and slot directory of a leaf end before its rows begin, and only the root leaf can be empty. */
  lemma LeafFitsPage(pages: map<nat, Page>, root: nat, nPage: nat, firstFree: nat,
      sh: Shape, chain: seq<nat>, free: seq<nat>, contents: map<Key, Row>, l: nat)
    requires Sound(pages, root, nPage, firstFree, sh, chain, free, contents) && IsLeaf(pages, l)
    ensures REAL_LEAF_HEADER + 4 * |pages[l].rows| <= STORAGE_UNIT_SIZE - TupleBytes(pages[l].rows)
    ensures l != root ==> |pages[l].rows| >= 7
  {
    assert l != 0;
    assert Filled(pages[l], l == root);
    RowsBytesParts(pages[l].rows);
  }

  /** An internal page has 14 to 54 children, the root 2 to 54, and its image fits the page. */
  lemma InternalFitsPage(pages: map<nat, Page>, root: nat, nPage: nat, firstFree: nat,
      sh: Shape, chain: seq<nat>, free: seq<nat>, contents: map<Key, Row>, p: nat)
    requires Sound(pages, root, nPage, firstFree, sh, chain, free, contents) && IsInternal(pages, p)
    ensures (if p == root then 2 else 14) <= |pages[p].entries| <= 54
    ensures UsedInternal(pages[p].entries) <= STORAGE_UNIT_SIZE
  {
    assert p != 0;
    assert Filled(pages[p], p == root);
    assert PageOk(pages, sh, p);
    EntriesBytesBounds(pages[p].entries);
  }

  /** Parent links and slots mirror each other: the root has parent 0, and any other page p names the one page
      that has a slot for p, in exactly one slot. */
  lemma ParentLinksMirrorSlots(pages: map<nat, Page>, root: nat, nPage: nat, firstFree: nat,
      sh: Shape, chain: seq<nat>, free: seq<nat>, contents: map<Key, Row>, p: nat)
    requires Sound(pages, root, nPage, firstFree, sh, chain, free, contents) && IsTreePage(pages, p)
    ensures pages[p].parent == 0 <==> p == root
    ensures p != root ==> IsInternal(pages, pages[p].parent) && exists i :: OnlySlot(pages[pages[p].parent].entries, p, i)
    ensures forall q | IsInternal(pages, q) && HasChild(pages[q].entries, p) :: q == pages[p].parent
  {
    assert Attached(pages, sh, root, p);
    if p != root {
      var P, i := ParentSlot(pages, sh, root, p);
      ChildOnlySlot(pages, sh, root, P, i);
    }
    forall q | IsInternal(pages, q) && HasChild(pages[q].entries, p)
      ensures q == pages[p].parent
    {
      ChildrenNameParent(pages, sh, root, q);
    }
  }

  /** Sibling links mirror each other, and the leaves in link order hold the table in increasing key order. */
  lemma ChainIsInOrder(pages: map<nat, Page>, root: nat, nPage: nat, firstFree: nat,
      sh: Shape, chain: seq<nat>, free: seq<nat>, contents: map<Key, Row>, l: nat)
    requires Sound(pages, root, nPage, firstFree, sh, chain, free, contents) && IsLeaf(pages, l)
    ensures pages[l].next != 0 ==> IsLeaf(pages, pages[l].next) && pages[pages[l].next].prev == l
    ensures pages[l].prev != 0 ==> IsLeaf(pages, pages[l].prev) && pages[pages[l].prev].next == l
    ensures pages[l].next != 0 ==> Below(KeySet(pages[l].rows), KeySet(pages[pages[l].next].rows))
  {
    var n := ChainPosition(pages, sh, chain, l);
    assert PageOk(pages, sh, l);
    if n + 1 < |chain| {
      assert ChainLinks(pages, chain, n + 1);
      assert LeavesBelow(sh, chain[n], chain[n+1]);
      assert PageOk(pages, sh, chain[n+1]);
    }
    if n > 0 { assert ChainLinks(pages, chain, n - 1); }
  }
}
