/** Consequences of the tree invariant for searches and for neighbouring leaves. */
module TreeSearch {
  import opened Pages
  import opened TreeInvariant

  /** The slot of its parent in which a page other than the root hangs. */
  lemma ParentSlot(pages: map<nat, Page>, sh: Shape, root: nat, p: nat) returns (q: nat, i: nat)
    requires TreeOk(pages, sh, root) && IsTreePage(pages, p) && p != root
    ensures q == pages[p].parent && IsInternal(pages, q) && i < |pages[q].entries|
    ensures pages[q].entries[i].child == p
    ensures RealKeys(pages[q].entries) && SlotOk(pages, sh, q, i)
    ensures sh.lvl[q] == sh.lvl[p] + 1 <= sh.lvl[root]
  {
    assert Attached(pages, sh, root, p);
    q := pages[p].parent;
    i :| 0 <= i < |pages[q].entries| && pages[q].entries[i].child == p;
    assert PageOk(pages, sh, q);
    assert SlotOk(pages, sh, q, i);
    assert Attached(pages, sh, root, q);
  }

  /** A page has only one slot in its parent. */
  lemma SlotUnique(pages: map<nat, Page>, sh: Shape, root: nat, p: nat, i: nat, j: nat)
    requires TreeOk(pages, sh, root) && IsInternal(pages, p)
    requires i < |pages[p].entries| && j < |pages[p].entries|
    requires pages[p].entries[i].child == pages[p].entries[j].child
    ensures i == j
  {
    if i < j {
      ChildrenOrdered(pages, sh, root, p, i, j);
    } else if j < i {
      ChildrenOrdered(pages, sh, root, p, j, i);
    }
  }

  /** How many levels p lies below the root. */
  ghost function Above(sh: Shape, root: nat, p: nat): nat
    requires root in sh.lvl && p in sh.lvl
  {
    if sh.lvl[p] <= sh.lvl[root] then sh.lvl[root] - sh.lvl[p] else 0
  }

  lemma {:induction false} BelowRoot(pages: map<nat, Page>, sh: Shape, root: nat, p: nat)
    requires TreeOk(pages, sh, root) && IsTreePage(pages, p)
    ensures sh.keys[p] <= sh.keys[root]
    decreases Above(sh, root, p)
  {
    if p != root {
      var q, i := ParentSlot(pages, sh, root, p);
      BelowRoot(pages, sh, root, q);
    }
  }

  /** The keys below a page are a run of consecutive table keys. */
  lemma {:induction false} Convex(pages: map<nat, Page>, sh: Shape, root: nat, p: nat, a: Key, k: Key, b: Key)
    requires TreeOk(pages, sh, root) && IsTreePage(pages, p)
    requires a in sh.keys[p] && b in sh.keys[p] && k in sh.keys[root] && a <= k <= b
    ensures k in sh.keys[p]
    decreases Above(sh, root, p)
  {
    if p != root {
      var q, i := ParentSlot(pages, sh, root, p);
      Convex(pages, sh, root, q, a, k, b);
      RouteFinds(pages, sh, root, q, k, i);
    }
  }

  /** A leaf that is the root is the only page of the tree. */
  lemma RootLeafAlone(pages: map<nat, Page>, sh: Shape, root: nat, p: nat)
    requires TreeOk(pages, sh, root) && IsTreePage(pages, p)
    requires IsLeaf(pages, root)
    ensures p == root
  {
    assert PageOk(pages, sh, root);
    if p != root {
      var q, i := ParentSlot(pages, sh, root, p);
    }
  }

  lemma NonRootKey(pages: map<nat, Page>, sh: Shape, root: nat, p: nat) returns (w: Key)
    requires TreeOk(pages, sh, root) && IsTreePage(pages, p) && p != root
    ensures w in sh.keys[p]
  {
    assert Attached(pages, sh, root, p);
    w :| w in sh.keys[p];
  }

  lemma ChainPosition(pages: map<nat, Page>, sh: Shape, chain: seq<nat>, p: nat) returns (m: nat)
    requires Dom(pages, sh) && ChainInv(pages, sh, chain) && IsLeaf(pages, p)
    ensures m < |chain| && chain[m] == p && ChainLinks(pages, chain, m)
  {
    assert p in chain;
    m :| 0 <= m < |chain| && chain[m] == p;
    assert ChainLinks(pages, chain, m);
  }

  /** Leaves in neighbouring slots of one parent are neighbours in the chain. */
  lemma SiblingsAdjacent(pages: map<nat, Page>, sh: Shape, root: nat, chain: seq<nat>, p: nat, i: nat, m: nat)
    requires TreeOk(pages, sh, root) && ChainInv(pages, sh, chain)
    requires IsInternal(pages, p) && i + 1 < |pages[p].entries|
    requires m < |chain| && chain[m] == pages[p].entries[i].child
    requires IsLeaf(pages, pages[p].entries[i+1].child)
    ensures m + 1 < |chain| && chain[m+1] == pages[p].entries[i+1].child
  {
    var es := pages[p].entries;
    var c, d := es[i].child, es[i+1].child;
    ChildrenOrdered(pages, sh, root, p, i, i + 1);
    var a := ChildKey(pages, sh, root, p, i);
    var b := ChildKey(pages, sh, root, p, i + 1);
    var n := ChainPosition(pages, sh, chain, d);
    assert n < m ==> LeavesBelow(sh, chain[n], chain[m]);
    if m + 1 < n {
      var q := chain[m+1];
      assert LeavesBelow(sh, chain[m], q) && LeavesBelow(sh, q, chain[n]);
      assert ChainLinks(pages, chain, m + 1);
      if q == root { RootLeafAlone(pages, sh, root, p); assert false; }
      var x := NonRootKey(pages, sh, root, q);
      BelowRoot(pages, sh, root, q);
      Convex(pages, sh, root, p, a, x, b);
      assert PageOk(pages, sh, p);
      assert Covers(sh, es, x);
      var j :| 0 <= j < |es| && es[j].child in sh.keys && x in sh.keys[es[j].child];
      if j < i {
        ChildrenOrdered(pages, sh, root, p, j, i);
      } else if j > i + 1 {
        ChildrenOrdered(pages, sh, root, p, i + 1, j);
      }
      assert false;
    }
  }

  /** The chain neighbour of a leaf that has the same parent hangs in the neighbouring slot. */
  lemma AdjacentSiblings(pages: map<nat, Page>, sh: Shape, root: nat, chain: seq<nat>, p: nat, i: nat, m: nat)
    requires TreeOk(pages, sh, root) && ChainInv(pages, sh, chain)
    requires IsInternal(pages, p) && i < |pages[p].entries|
    requires m + 1 < |chain| && chain[m] == pages[p].entries[i].child
    requires IsLeaf(pages, chain[m]) && IsLeaf(pages, chain[m+1])
    requires pages[chain[m+1]].parent == p && chain[m+1] != root
    ensures i + 1 < |pages[p].entries| && pages[p].entries[i+1].child == chain[m+1]
  {
    var es := pages[p].entries;
    var q, j := ParentSlot(pages, sh, root, chain[m+1]);
    assert LeavesBelow(sh, chain[m], chain[m+1]);
    var a := ChildKey(pages, sh, root, p, i);
    var b := ChildKey(pages, sh, root, p, j);
    if j <= i {
      if j < i { ChildrenOrdered(pages, sh, root, p, j, i); }
      assert false;
    }
    assert PageOk(pages, sh, p);
    assert SlotOk(pages, sh, p, i + 1) && SlotOk(pages, sh, p, j);
    assert PageOk(pages, sh, chain[m+1]);
    assert PageOk(pages, sh, es[i+1].child);
    SiblingsAdjacent(pages, sh, root, chain, p, i, m);
  }

  // ---------------------------------------------------------------- search paths

  /** Every table key that is not below p lies on the same side of k as of all keys below p. */
  ghost predicate Isolates(sh: Shape, root: nat, p: nat, k: Key)
    requires root in sh.keys && p in sh.keys
  {
    forall x | x in sh.keys[root] && x !in sh.keys[p] ::
      (x < k && Below({x}, sh.keys[p])) || (k < x && Below(sh.keys[p], {x}))
  }

  /** S holds the pages that the search for k visits: root, and below an internal page of S its routed child only. */
  ghost predicate OnPath(pages: map<nat, Page>, S: set<nat>, root: nat, k: Key, p: nat)
    requires IsTreePage(pages, p)
  {
    && (p == root || pages[p].parent in S)
    && (pages[p].Internal? ==> RealKeys(pages[p].entries) && RoutedIn(pages[p].entries, S, k))
  }

  ghost predicate RoutedIn(es: seq<Entry>, S: set<nat>, k: Key)
    requires RealKeys(es)
  {
    && (forall i | 0 <= i < |es| :: es[i].child in S <==> Routes(es, k, i))
    && (exists i :: 0 <= i < |es| && es[i].child in S)
  }

  /** S is the complete path of the search for k, which ends in leaf l. */
  ghost predicate SearchPath(pages: map<nat, Page>, S: set<nat>, root: nat, k: Key, l: nat) {
    && PathTo(pages, S, root, k, l)
    && IsLeaf(pages, l)
  }

  /** The path down to page cur, which is itself still to be searched. */
  ghost predicate PathTo(pages: map<nat, Page>, S: set<nat>, root: nat, k: Key, cur: nat) {
    && root in S && cur in S
    && (forall p | p in S :: IsTreePage(pages, p))
    && (forall p | p in S && p != cur :: IsInternal(pages, p))
    && (forall p {:trigger OnPath(pages, S, root, k, p)} | p in S && p != cur :: OnPath(pages, S, root, k, p))
    && (cur == root || pages[cur].parent in S)
  }

  /** One step of findLeaf. */
  lemma SearchStep(pages: map<nat, Page>, sh: Shape, root: nat, S: set<nat>, k: Key, p: nat, i: nat)
    requires TreeOk(pages, sh, root) && PathTo(pages, S, root, k, p) && IsInternal(pages, p)
    requires Isolates(sh, root, p, k)
    requires forall q | q in S :: sh.lvl[q] >= sh.lvl[p]
    requires RealKeys(pages[p].entries) && Routes(pages[p].entries, k, i)
    ensures var c := pages[p].entries[i].child;
      && IsTreePage(pages, c) && sh.lvl[c] + 1 == sh.lvl[p]
      && PathTo(pages, S + {c}, root, k, c)
      && Isolates(sh, root, c, k)
      && (forall q | q in S + {c} :: sh.lvl[q] >= sh.lvl[c])
  {
    var es := pages[p].entries;
    var c := es[i].child;
    assert PageOk(pages, sh, p);
    assert SlotOk(pages, sh, p, i);
    var S' := S + {c};
    forall q | q in S' && q != c
      ensures OnPath(pages, S', root, k, q)
    {
      if q == p {
        SearchStepHere(pages, sh, root, S, k, p, i);
      } else {
        assert OnPath(pages, S, root, k, q);
        if pages[q].Internal? {
          assert PageOk(pages, sh, q);
          forall j | 0 <= j < |pages[q].entries|
            ensures pages[q].entries[j].child in S' <==> Routes(pages[q].entries, k, j)
          {
            assert SlotOk(pages, sh, q, j);
          }
        }
      }
    }
    SearchStepIsolates(pages, sh, root, k, p, i);
  }

  lemma SearchStepHere(pages: map<nat, Page>, sh: Shape, root: nat, S: set<nat>, k: Key, p: nat, i: nat)
    requires TreeOk(pages, sh, root) && PathTo(pages, S, root, k, p) && IsInternal(pages, p)
    requires forall q | q in S :: sh.lvl[q] >= sh.lvl[p]
    requires RealKeys(pages[p].entries) && Routes(pages[p].entries, k, i)
    ensures OnPath(pages, S + {pages[p].entries[i].child}, root, k, p)
  {
    var es := pages[p].entries;
    var S' := S + {es[i].child};
    assert PageOk(pages, sh, p);
    forall j | 0 <= j < |es|
      ensures es[j].child in S' <==> Routes(es, k, j)
    {
      assert SlotOk(pages, sh, p, j);
      if es[j].child in S' { SlotUnique(pages, sh, root, p, i, j); }
      if Routes(es, k, j) { RouteUnique(pages, sh, root, p, k, i, j); }
    }
    assert es[i].child in S';
  }

  lemma SearchStepIsolates(pages: map<nat, Page>, sh: Shape, root: nat, k: Key, p: nat, i: nat)
    requires TreeOk(pages, sh, root) && IsInternal(pages, p)
    requires Isolates(sh, root, p, k)
    requires RealKeys(pages[p].entries) && Routes(pages[p].entries, k, i)
    ensures pages[p].entries[i].child in sh.keys
    ensures Isolates(sh, root, pages[p].entries[i].child, k)
  {
    var es := pages[p].entries;
    var c := es[i].child;
    assert PageOk(pages, sh, p);
    assert SlotOk(pages, sh, p, i);
    forall x | x in sh.keys[root] && x !in sh.keys[c]
      ensures (x < k && Below({x}, sh.keys[c])) || (k < x && Below(sh.keys[c], {x}))
    {
      if x in sh.keys[p] {
        assert Covers(sh, es, x);
        var j :| 0 <= j < |es| && es[j].child in sh.keys && x in sh.keys[es[j].child];
        assert SlotOk(pages, sh, p, j);
        if j < i {
          ChildrenOrdered(pages, sh, root, p, j, i);
          if j + 1 < i { SeparatorsIncrease(pages, sh, root, p, j + 1, i); }
        } else {
          ChildrenOrdered(pages, sh, root, p, i, j);
          if i + 1 < j { SeparatorsIncrease(pages, sh, root, p, i + 1, j); }
        }
      }
    }
  }

  // ---------------------------------------------------------------- scans

  /** The rows of the first m leaves of the chain, in order. */
  ghost function RowsUpTo(pages: map<nat, Page>, chain: seq<nat>, m: nat): seq<Row>
    requires m <= |chain| && forall i | 0 <= i < |chain| :: IsLeaf(pages, chain[i])
  {
    if m == 0 then [] else RowsUpTo(pages, chain, m - 1) + pages[chain[m-1]].rows
  }

  /** All rows of the table, in the order in which the leaf chain lists them. */
  ghost function ScanRows(pages: map<nat, Page>, chain: seq<nat>): seq<Row>
    requires forall i | 0 <= i < |chain| :: IsLeaf(pages, chain[i])
  {
    RowsUpTo(pages, chain, |chain|)
  }

  /** Every key below a page is the key of a row in some leaf. */
  lemma {:induction false} LeafWithKey(pages: map<nat, Page>, sh: Shape, root: nat, p: nat, k: Key) returns (l: nat)
    requires TreeOk(pages, sh, root) && IsTreePage(pages, p) && k in sh.keys[p]
    ensures IsLeaf(pages, l) && k in sh.keys[l]
    decreases sh.lvl[p]
  {
    assert PageOk(pages, sh, p);
    if pages[p].Leaf? {
      l := p;
    } else {
      var es := pages[p].entries;
      assert Covers(sh, es, k);
      var i :| 0 <= i < |es| && es[i].child in sh.keys && k in sh.keys[es[i].child];
      assert SlotOk(pages, sh, p, i);
      l := LeafWithKey(pages, sh, root, es[i].child, k);
    }
  }

  lemma {:induction false} RowsUpToSorted(pages: map<nat, Page>, sh: Shape, root: nat, chain: seq<nat>, m: nat)
    requires TreeOk(pages, sh, root) && ChainInv(pages, sh, chain) && m <= |chain|
    ensures SortedRows(RowsUpTo(pages, chain, m))
    ensures forall k :: k in KeySet(RowsUpTo(pages, chain, m)) <==> exists i :: 0 <= i < m && k in sh.keys[chain[i]]
  {
    if m > 0 {
      var init, last := RowsUpTo(pages, chain, m - 1), pages[chain[m-1]].rows;
      RowsUpToSorted(pages, sh, root, chain, m - 1);
      assert PageOk(pages, sh, chain[m-1]);
      AppendSorted(init, last);
      forall x, y | x in KeySet(init) && y in KeySet(last)
        ensures x < y
      {
        var i :| 0 <= i < m - 1 && x in sh.keys[chain[i]];
        assert LeavesBelow(sh, chain[i], chain[m-1]);
      }
    }
  }

  lemma AppendSorted(a: seq<Row>, b: seq<Row>)
    ensures KeySet(a + b) == KeySet(a) + KeySet(b)
    ensures SortedRows(a) && SortedRows(b) && Below(KeySet(a), KeySet(b)) ==> SortedRows(a + b)
  {
    forall k | k in KeySet(a) + KeySet(b)
      ensures k in KeySet(a + b)
    {
      if k in KeySet(a) {
        var i :| 0 <= i < |a| && a[i].key == k;
        assert (a + b)[i].key == k;
      } else {
        var i :| 0 <= i < |b| && b[i].key == k;
        assert (a + b)[|a| + i].key == k;
      }
    }
    if SortedRows(a) && SortedRows(b) && Below(KeySet(a), KeySet(b)) {
      forall i, j | 0 <= i < j < |a + b|
        ensures (a + b)[i].key < (a + b)[j].key
      {
        if i < |a| <= j {
          assert a[i].key in KeySet(a) && b[j - |a|].key in KeySet(b);
        }
      }
    }
  }

  lemma {:induction false} RowsUpToIn(pages: map<nat, Page>, sh: Shape, root: nat, chain: seq<nat>, contents: map<Key, Row>, m: nat)
    requires TreeOk(pages, sh, root) && ChainInv(pages, sh, chain) && ContentInv(pages, sh, root, contents) && m <= |chain|
    ensures RowsIn(RowsUpTo(pages, chain, m), contents)
  {
    if m > 0 {
      RowsUpToIn(pages, sh, root, chain, contents, m - 1);
      assert IsLeaf(pages, chain[m-1]);
      assert RowsIn(pages[chain[m-1]].rows, contents);
    }
  }

  /** The leaf chain lists exactly the rows of the table, in strictly increasing key order. */
  lemma ScanIsTable(pages: map<nat, Page>, sh: Shape, root: nat, chain: seq<nat>, contents: map<Key, Row>)
    requires TreeOk(pages, sh, root) && ChainInv(pages, sh, chain) && ContentInv(pages, sh, root, contents)
    ensures SortedRows(ScanRows(pages, chain))
    ensures KeySet(ScanRows(pages, chain)) == contents.Keys
    ensures RowsIn(ScanRows(pages, chain), contents)
  {
    RowsUpToSorted(pages, sh, root, chain, |chain|);
    RowsUpToIn(pages, sh, root, chain, contents, |chain|);
    forall k | k in contents.Keys
      ensures k in KeySet(ScanRows(pages, chain))
    {
      var l := LeafWithKey(pages, sh, root, root, k);
      var i := ChainPosition(pages, sh, chain, l);
      assert 0 <= i < |chain| && k in sh.keys[chain[i]];
    }
  }

  /** The first leaf below the first child is the first leaf below the page. */
  ghost predicate FirstLeaf(sh: Shape, p: nat, l: nat) {
    p in sh.keys && l in sh.keys && sh.keys[l] <= sh.keys[p] && forall x | x in sh.keys[p] :: x in sh.keys[l] || Below(sh.keys[l], {x})
  }

  lemma FirstLeafStep(pages: map<nat, Page>, sh: Shape, root: nat, top: nat, p: nat)
    requires TreeOk(pages, sh, root) && IsInternal(pages, p) && FirstLeaf(sh, top, p)
    ensures |pages[p].entries| > 0 && FirstLeaf(sh, top, pages[p].entries[0].child)
  {
    assert PageOk(pages, sh, p);
    var es := pages[p].entries;
    var c := es[0].child;
    assert SlotOk(pages, sh, p, 0);
    forall x | x in sh.keys[top]
      ensures x in sh.keys[c] || Below(sh.keys[c], {x})
    {
      if x in sh.keys[p] {
        assert Covers(sh, es, x);
        var j :| 0 <= j < |es| && es[j].child in sh.keys && x in sh.keys[es[j].child];
        if 0 < j { ChildrenOrdered(pages, sh, root, p, 0, j); }
      }
    }
  }

  /** The leaf that beginLeaf finds below the root starts the chain. */
  lemma FirstLeafStartsChain(pages: map<nat, Page>, sh: Shape, root: nat, chain: seq<nat>, l: nat)
    requires TreeOk(pages, sh, root) && ChainInv(pages, sh, chain)
    requires IsLeaf(pages, l) && FirstLeaf(sh, root, l)
    ensures |chain| > 0 && chain[0] == l
  {
    var m := ChainPosition(pages, sh, chain, l);
    if m > 0 {
      var f := chain[0];
      assert LeavesBelow(sh, f, l) && IsLeaf(pages, f);
      if f == root { RootLeafAlone(pages, sh, root, l); }
      if l == root { RootLeafAlone(pages, sh, root, f); }
      var x := NonRootKey(pages, sh, root, f);
      var y := NonRootKey(pages, sh, root, l);
      BelowRoot(pages, sh, root, f);
      assert false;
    }
  }
}
