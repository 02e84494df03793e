/** The paged B+ tree of storage.cpp for one clustered table. */
module BTreeStorage {
  import opened Pages
  import opened TreeInvariant
  import opened TreeSearch
  import opened TreeInsert
  import opened TreeDelete
  import opened InsertSound
  import opened DeleteSound
  import opened DeleteInternal

  /** The separators of an internal page, or the keys of a leaf, as lower_bound reads them. */
  function RowKeys(rows: seq<Row>): seq<EntryKey> {
    seq(|rows|, i requires 0 <= i < |rows| => IntKey(rows[i].key))
  }

  function EntryKeys(es: seq<Entry>): seq<EntryKey> {
    seq(|es|, i requires 0 <= i < |es| => es[i].key)
  }

  /** SlottedPage::lower_bound: the last index at or behind begin whose key is at most key, or -1. */
  method LowerBound(keys: seq<EntryKey>, key: Key, begin: nat) returns (l: int)
    requires forall i | begin <= i < |keys| :: keys[i].IntKey?
    requires forall i, j | begin <= i < j < |keys| :: keys[i].k < keys[j].k
    ensures l == -1 || begin <= l < |keys|
    ensures forall i | begin <= i < |keys| :: keys[i].k <= key <==> i <= l
  {
    l := begin;
    var r := |keys| - 1;
    if l >= |keys| || key < keys[l].k {
      return -1;
    }
    while l < r
      invariant begin <= l <= r < |keys|
      invariant keys[l].k <= key
      invariant forall i | r < i < |keys| :: key < keys[i].k
    {
      var mid := (l + r + 1) / 2;
      if keys[mid].k <= key {
        l := mid;
      } else {
        r := mid - 1;
      }
    }
  }

  /** InternalBPlusNode::indexOfChild. */
  method IndexOfChild(es: seq<Entry>, key: Key) returns (i: nat)
    requires |es| > 0 && RealKeys(es) && Increasing(es)
    ensures Routes(es, key, i)
  {
    var index := LowerBound(EntryKeys(es), key, 1);
    i := if index == -1 then 0 else index;
    assert i > 0 ==> EntryKeys(es)[i].k <= key;
    assert i + 1 < |es| ==> key < EntryKeys(es)[i+1].k;
  }

  /** A position in the leaf chain; the end iterator has no page. */
  datatype LeafIterator = EndLeaf | LeafAt(index: nat, page: nat)

  /** What a scan has listed when it stands at iter, in the leaf at position m of the chain. */
  ghost predicate Scanned(pages: map<nat, Page>, chain: seq<nat>, rows: seq<Row>, iter: LeafIterator, m: nat) {
    && (forall i | 0 <= i < |chain| :: IsLeaf(pages, chain[i]))
    && match iter
       case LeafAt(index, page) =>
         && m < |chain| && chain[m] == page && index < |pages[page].rows|
         && rows == RowsUpTo(pages, chain, m) + pages[page].rows[..index]
       case EndLeaf => rows == ScanRows(pages, chain)
  }

  /** r is where beginLeaf stops below page start: in leaf l. */
  ghost predicate BeginsAt(pages: map<nat, Page>, sh: Shape, start: nat, l: nat, r: LeafIterator) {
    && IsLeaf(pages, l) && FirstLeaf(sh, start, l)
    && r == if pages[l].rows == [] then EndLeaf else LeafAt(0, l)
  }

  lemma LeafScanned(pages: map<nat, Page>, chain: seq<nat>, rows: seq<Row>, m: nat, next: LeafIterator)
    requires m < |chain| && forall i | 0 <= i < |chain| :: IsLeaf(pages, chain[i])
    requires IsLeaf(pages, chain[m]) && |pages[chain[m]].rows| > 0
    requires Scanned(pages, chain, rows, LeafAt(|pages[chain[m]].rows| - 1, chain[m]), m)
    requires next == if m + 1 < |chain| then LeafAt(0, chain[m+1]) else EndLeaf
    requires m + 1 < |chain| ==> |pages[chain[m+1]].rows| > 0
    ensures Scanned(pages, chain, rows + [pages[chain[m]].rows[|pages[chain[m]].rows| - 1]], next, m + 1)
  {
    var leaf := pages[chain[m]].rows;
    assert leaf == leaf[..|leaf|-1] + [leaf[|leaf|-1]];
    assert rows + [leaf[|leaf|-1]] == RowsUpTo(pages, chain, m + 1);
    if m + 1 < |chain| {
      assert pages[chain[m+1]].rows[..0] == [];
    }
  }

  /** What splitInternal writes: both halves, and the parent links of the children in the left one. */
  ghost predicate InternalSplitWrote(pages: map<nat, Page>, m: map<nat, Page>, node: Page, p: nat, left: nat, mid: nat)
    requires node.Internal? && mid < |node.entries|
  {
    && m.Keys == pages.Keys + {left, p}
    && m[p] == Internal(node.parent, node.entries[mid+1..])
    && (left != p ==> m[left] == Internal(node.parent, node.entries[..mid+1]))
    && forall q | q in pages && q != left && q != p ::
      m[q] == if HasChild(node.entries[..mid+1], q) && !pages[q].Free? then pages[q].(parent := left) else pages[q]
  }

  /** An edit of a tree page does not touch the free list. */
  lemma FreeBeforeSplit(pages: map<nat, Page>, node: Page, root: nat, nPage: nat, firstFree: nat,
      sh: Shape, chain: seq<nat>, free: seq<nat>, contents: map<Key, Row>, p: nat)
    requires IsTreePage(pages, p) && !node.Free?
    requires SoundExcept(pages[p := node], root, nPage, firstFree, sh, chain, free, contents, p)
    ensures FreeInv(pages, nPage, firstFree, free)
  {
    hide TreeOk, ChainInv, ContentInv, FilledExcept;
    FrameFree(pages[p := node], pages, nPage, firstFree, free, 0);
  }

  lemma SplitWrote(pages: map<nat, Page>, m: map<nat, Page>, node: Page, p: nat, left: nat, mid: nat)
    requires node.Internal? && mid < |node.entries| && Reparented(pages, m, node.entries[..mid+1], left)
    ensures InternalSplitWrote(pages, m[left := Internal(node.parent, node.entries[..mid+1])][p := Internal(node.parent, node.entries[mid+1..])],
              node, p, left, mid)
  {
    hide HasChild;
  }

  lemma FirstIsMember(s: seq<nat>)
    requires s != []
    ensures s[0] in s
  {
  }

  lemma NoLeafNoChain(pages: map<nat, Page>, sh: Shape, chain: seq<nat>)
    requires Dom(pages, sh) && ChainInv(pages, sh, chain) && forall p :: !IsTreePage(pages, p)
    ensures chain == []
  {
    if chain != [] {
      FirstIsMember(chain);
      assert IsTreePage(pages, chain[0]);
      assert false;
    }
  }

  class Storage {
    var pages: map<nat, Page>
    var root: nat
    var nPage: nat
    var firstFreePage: nat

    ghost var sh: Shape
    ghost var chain: seq<nat>
    ghost var free: seq<nat>
    /** The table this file stores. */
    ghost var contents: map<Key, Row>

    ghost predicate Valid()
      reads this
    {
      Sound(pages, root, nPage, firstFreePage, sh, chain, free, contents)
    }

    constructor ()
      ensures Valid() && contents == map[]
    {
      pages, root, nPage, firstFreePage := map[], 0, 1, 0;
      sh, chain, free, contents := Shape(map[], map[]), [], [], map[];
    }

    // -------------------------------------------------------------- searching

    /** findLeaf: descend from the root to the leaf in which key belongs. */
    method FindLeaf(key: Key) returns (l: nat, ghost S: set<nat>)
      requires Valid() && root != 0
      ensures SearchPath(pages, S, root, key, l)
      ensures Isolates(sh, root, l, key)
    {
      l := root;
      S := {root};
      while !pages[l].Leaf?
        invariant IsTreePage(pages, l)
        invariant PathTo(pages, S, root, key, l)
        invariant Isolates(sh, root, l, key)
        invariant forall q | q in S :: sh.lvl[q] >= sh.lvl[l]
        decreases sh.lvl[l]
      {
        var es := pages[l].entries;
        assert PageOk(pages, sh, l);
        EntriesIncrease(pages, sh, root, l);
        var i := IndexOfChild(es, key);
        SearchStep(pages, sh, root, S, key, l, i);
        l := es[i].child;
        S := S + {l};
      }
    }

    /** searchBtree finds a key exactly if the table holds it, and then its row. */
    method SearchBtree(key: Key) returns (r: LeafIterator)
      requires Valid()
      ensures r.LeafAt? <==> key in contents
      ensures r.LeafAt? ==> IsLeaf(pages, r.page) && r.index < |pages[r.page].rows| && pages[r.page].rows[r.index] == contents[key]
    {
      hide FreeInv, FilledExcept, Attached, ChainInv;
      if root == 0 {
        return EndLeaf;
      }
      var l, S := FindLeaf(key);
      var rows := pages[l].rows;
      assert PageOk(pages, sh, l);
      BelowRoot(pages, sh, root, l);
      var index := LowerBound(RowKeys(rows), key, 0);
      if index == -1 || rows[index].key != key {
        forall i | 0 <= i < |rows|
          ensures rows[i].key != key
        {
          assert RowKeys(rows)[i].k <= key <==> i <= index;
          assert index >= 0 ==> RowKeys(rows)[index].k <= key;
        }
        return EndLeaf;
      }
      assert RowsIn(rows, contents);
      return LeafAt(index, l);
    }

    /** beginLeaf below a page: the first row of its leftmost leaf, or the end if that leaf is empty.
        The page itself may be edited in memory (as in V); the pages below it are read as they are stored. */
    method BeginLeaf(start: nat, ghost V: map<nat, Page>) returns (r: LeafIterator)
      requires start != 0 ==> TreeOk(V, sh, root) && IsTreePage(V, start)
      requires start != 0 ==> forall q | IsTreePage(V, q) && sh.lvl[q] <= sh.lvl[start] :: q in pages && pages[q] == V[q]
      ensures start == 0 ==> r.EndLeaf?
      ensures start != 0 ==> exists l :: BeginsAt(V, sh, start, l, r)
    {
      if start == 0 {
        return EndLeaf;
      }
      var l := start;
      while !pages[l].Leaf?
        invariant IsTreePage(V, l) && sh.lvl[l] <= sh.lvl[start]
        invariant FirstLeaf(sh, start, l)
        decreases sh.lvl[l]
      {
        assert PageOk(V, sh, l);
        assert SlotOk(V, sh, l, 0);
        FirstLeafStep(V, sh, root, start, l);
        l := pages[l].entries[0].child;
      }
      r := if pages[l].rows == [] then EndLeaf else LeafAt(0, l);
      assert BeginsAt(V, sh, start, l, r);
    }

    /** r stands on the row with the least key above k, or at the end if there is none. */
    ghost predicate Successor(k: Key, r: LeafIterator)
      reads this
    {
      if r.EndLeaf? then
        forall j | j in contents :: j <= k
      else
        && IsLeaf(pages, r.page) && r.index < |pages[r.page].rows|
        && var row := pages[r.page].rows[r.index];
           && row.key in contents && contents[row.key] == row && k < row.key
           && forall j | j in contents :: j <= k || row.key <= j
    }

    lemma LinkedTo(m: nat)
      requires Valid() && m < |chain|
      ensures IsLeaf(pages, chain[m]) && pages[chain[m]].next == At(chain, m + 1)
    {
      assert ChainLinks(pages, chain, m);
    }

    lemma NextIsSuccessor(iter: LeafIterator)
      requires Valid()
      requires iter.LeafAt? && IsLeaf(pages, iter.page) && iter.index < |pages[iter.page].rows|
      ensures Successor(pages[iter.page].rows[iter.index].key,
        if iter.index + 1 < |pages[iter.page].rows| then LeafAt(iter.index + 1, iter.page)
        else if pages[iter.page].next == 0 then EndLeaf
        else LeafAt(0, pages[iter.page].next))
    {
      hide FreeInv, FilledExcept, Attached, ChainLinks;
      var rows, k := pages[iter.page].rows, pages[iter.page].rows[iter.index].key;
      assert PageOk(pages, sh, iter.page) && RowsIn(rows, contents);
      var m := ChainPosition(pages, sh, chain, iter.page);
      LinkedTo(m);
      assert k in sh.keys[chain[m]];
      var last := iter.index + 1 >= |rows|;
      if !last { assert rows[iter.index+1].key in sh.keys[chain[m]]; }
      if last && m + 1 < |chain| {
        NextLeafNonEmpty(m + 1);
        assert PageOk(pages, sh, chain[m+1]) && RowsIn(pages[chain[m+1]].rows, contents);
        assert pages[chain[m+1]].rows[0].key in sh.keys[chain[m+1]];
        assert LeavesBelow(sh, chain[m], chain[m+1]);
      }
      forall j | j in contents
        ensures j <= k || (!last && rows[iter.index+1].key <= j)
          || (last && m + 1 < |chain| && pages[chain[m+1]].rows[0].key <= j)
      {
        var l := LeafWithKey(pages, sh, root, root, j);
        var i := ChainPosition(pages, sh, chain, l);
        assert PageOk(pages, sh, l);
        var n :| 0 <= n < |pages[l].rows| && pages[l].rows[n].key == j;
        if i < m {
          assert LeavesBelow(sh, chain[i], chain[m]);
        } else if i > m {
          assert LeavesBelow(sh, chain[m], chain[i]);
          assert last ==> m + 1 < |chain|;
          if i > m + 1 { assert LeavesBelow(sh, chain[m+1], chain[i]); }
        }
      }
    }

    /** nextLeaf: the next row of the leaf, or the first row of the next leaf, which is the next row of the table. */
    method NextLeaf(iter: LeafIterator) returns (r: LeafIterator)
      requires Valid()
      requires iter.LeafAt? && IsLeaf(pages, iter.page) && iter.index < |pages[iter.page].rows|
      ensures r == if iter.index + 1 < |pages[iter.page].rows| then LeafAt(iter.index + 1, iter.page)
                   else if pages[iter.page].next == 0 then EndLeaf
                   else LeafAt(0, pages[iter.page].next)
      ensures Successor(pages[iter.page].rows[iter.index].key, r)
    {
      NextIsSuccessor(iter);
      var index := iter.index + 1;
      if index >= |pages[iter.page].rows| {
        index := 0;
        var next := pages[iter.page].next;
        if next == 0 {
          return EndLeaf;
        }
        return LeafAt(index, next);
      }
      return LeafAt(index, iter.page);
    }

    /** A beginLeaf/nextLeaf loop, as select, update and delete run it: it ends, and visits exactly
        the rows of the table in strictly increasing key order. */
    method Scan() returns (rows: seq<Row>)
      requires Valid()
      ensures SortedRows(rows)
      ensures KeySet(rows) == contents.Keys
      ensures RowsIn(rows, contents)
    {
      rows := [];
      var iter := BeginLeaf(root, pages);
      ScanStart(iter);
      ghost var m := 0;
      while iter.LeafAt?
        invariant Scanned(pages, chain, rows, iter, m)
        decreases |chain| - m, if iter.LeafAt? then |pages[iter.page].rows| - iter.index else 0
      {
        var row := pages[iter.page].rows[iter.index];
        var next := NextLeaf(iter);
        m := ScanStep(rows, iter, m, next);
        rows := rows + [row];
        iter := next;
      }
      ScanEnd();
    }

    lemma ScanStart(iter: LeafIterator)
      requires Valid()
      requires root == 0 ==> iter.EndLeaf?
      requires root != 0 ==> exists l :: BeginsAt(pages, sh, root, l, iter)
      ensures Scanned(pages, chain, [], iter, 0)
    {
      if root == 0 {
        NoLeafNoChain(pages, sh, chain);
      } else {
        var l :| BeginsAt(pages, sh, root, l, iter);
        FirstLeafStartsChain(pages, sh, root, chain, l);
        assert forall i | 0 <= i < |chain| :: chain[i] in chain;
        if iter.EndLeaf? { ScanOfEmptyLeaf(); }
      }
    }

    /** One step of the scan; m' is the position of the leaf it reaches. */
    lemma ScanStep(rows: seq<Row>, iter: LeafIterator, m: nat, next: LeafIterator) returns (m': nat)
      requires Valid() && iter.LeafAt? && Scanned(pages, chain, rows, iter, m)
      requires next == if iter.index + 1 < |pages[iter.page].rows| then LeafAt(iter.index + 1, iter.page)
                       else if pages[iter.page].next == 0 then EndLeaf
                       else LeafAt(0, pages[iter.page].next)
      ensures Scanned(pages, chain, rows + [pages[iter.page].rows[iter.index]], next, m')
      ensures m' == if iter.index + 1 < |pages[iter.page].rows| then m else m + 1
    {
      hide FreeInv, ContentInv, FilledExcept, PageOk, Attached, LeavesBelow;
      assert IsTreePage(pages, iter.page);
      var leaf := pages[iter.page].rows;
      if iter.index + 1 < |leaf| {
        m' := m;
        assert leaf[..iter.index] + [leaf[iter.index]] == leaf[..iter.index+1];
      } else {
        m' := m + 1;
        assert ChainLinks(pages, chain, m);
        if m + 1 < |chain| {
          NextLeafNonEmpty(m + 1);
        }
        LeafScanned(pages, chain, rows, m, next);
      }
    }

    lemma ScanEnd()
      requires Valid() && forall i | 0 <= i < |chain| :: IsLeaf(pages, chain[i])
      ensures SortedRows(ScanRows(pages, chain))
      ensures KeySet(ScanRows(pages, chain)) == contents.Keys
      ensures RowsIn(ScanRows(pages, chain), contents)
    {
      if root != 0 {
        ScanIsTable(pages, sh, root, chain, contents);
      } else {
        NoLeafNoChain(pages, sh, chain);
      }
    }

    lemma ScanOfEmptyLeaf()
      requires Valid() && root != 0
      requires exists l :: IsLeaf(pages, l) && FirstLeaf(sh, root, l) && pages[l].rows == []
      requires forall i | 0 <= i < |chain| :: IsLeaf(pages, chain[i])
      ensures ScanRows(pages, chain) == []
    {
      var l :| IsLeaf(pages, l) && FirstLeaf(sh, root, l) && pages[l].rows == [];
      assert Filled(pages[l], l == root);
      FirstLeafStartsChain(pages, sh, root, chain, l);
      if |chain| > 1 {
        assert ChainLinks(pages, chain, 1);
        RootLeafAlone(pages, sh, root, chain[1]);
        assert false;
      }
      assert RowsUpTo(pages, chain, 1) == RowsUpTo(pages, chain, 0) + pages[l].rows;
    }

    lemma NextLeafNonEmpty(m: nat)
      requires Valid() && root != 0 && 0 < m < |chain|
      ensures IsLeaf(pages, chain[m]) && chain[m] != 0 && |pages[chain[m]].rows| > 0
    {
      assert ChainLinks(pages, chain, m) && ChainLinks(pages, chain, 0);
      if chain[m] == root {
        RootLeafAlone(pages, sh, root, chain[0]);
        assert false;
      }
      assert Filled(pages[chain[m]], false);
    }

    // -------------------------------------------------------------- free pages

    /** popFreePage: the first page of the free list, or a new page at the end of the file. */
    method PopFreePage() returns (p: nat)
      requires FreeInv(pages, nPage, firstFreePage, free)
      modifies this`nPage, this`firstFreePage, this`free
      ensures old(firstFreePage) == 0 ==> nPage == old(nPage) + 1 && firstFreePage == 0 && free == old(free)
      ensures old(firstFreePage) != 0 ==>
        && nPage == old(nPage) && old(free) == [p] + free
        && p in pages && pages[p].Free? && firstFreePage == pages[p].nextFree
      ensures FreeInvExcept(pages, nPage, firstFreePage, free, p)
      ensures p != 0 && !IsTreePage(pages, p)
      ensures p == if old(firstFreePage) == 0 then old(nPage) else old(firstFreePage)
    {
      if firstFreePage == 0 {
        p := nPage;
        nPage := nPage + 1;
      } else {
        p := firstFreePage;
        assert FreeLink(pages, free, 0);
        firstFreePage := pages[p].nextFree;
        PopKeepsList(pages, nPage, p, free);
        free := free[1..];
      }
    }

    /** popFreePage on a sound file. */
    method PopFreeOfSound() returns (p: nat)
      requires Valid()
      modifies this`nPage, this`firstFreePage, this`free
      ensures FreeInvExcept(pages, nPage, firstFreePage, free, p)
      ensures p != 0 && !IsTreePage(pages, p)
    {
      p := PopFreePage();
    }

    // -------------------------------------------------------------- inserting

    /** splitLeaf: leaf l, overfull in memory, gives its first half of the rows to a new page before it. */
    method SplitLeaf(l: nat, node: Page) returns (key: Key, left: nat)
      requires IsLeaf(pages, l) && node.Leaf?
      requires node.prev == pages[l].prev && node.next == pages[l].next && node.parent == pages[l].parent
      requires SoundExcept(pages[l := node], root, nPage, firstFreePage, sh, chain, free, contents, l)
      requires SmallRows(node.rows)
      requires MAXIMUM_USED_BYTES < UsedLeafEdited(node.rows) <= MAXIMUM_USED_BYTES + 252
      modifies this
      ensures left == if old(firstFreePage) == 0 then old(nPage) else old(firstFreePage)
      ensures |node.rows| >= 2 && key == node.rows[|node.rows| / 2].key
      ensures node.prev != 0 ==> IsLeaf(old(pages), node.prev) && node.prev != l && node.prev != left
      ensures pages == LeafSplitWrites(old(pages), node, l, left)
      ensures SoundSplit(pages, root, nPage, firstFreePage, sh, chain, free, contents, key, left, l)
      ensures root == old(root) && contents == old(contents)
      ensures sh.lvl == old(sh.lvl)[left := old(sh.lvl)[l]]
    {
      hide SoundSplit, SoundExcept, FreeInvExcept, Inserted;
      FreeBeforeSplit(pages, node, root, nPage, firstFreePage, sh, chain, free, contents, l);
      left := PopFreePage();
      ghost var at := SplitLeafDone(pages, node, root, old(nPage), old(firstFreePage), nPage, firstFreePage,
        sh, chain, old(free), free, contents, l, left);
      var mid := |node.rows| / 2;
      var leftNode := Leaf(node.parent, node.prev, l, node.rows[..mid]);
      var right := node.(prev := left, rows := node.rows[mid..]);
      pages := pages[left := leftNode];
      pages := pages[l := right];
      if leftNode.prev != 0 {
        var prev := pages[leftNode.prev];
        prev := prev.(next := left);
        pages := pages[leftNode.prev := prev];
      }
      key := right.rows[0].key;
      sh := SplitShape(sh, left, l, key);
      chain := Inserted(chain, at, left);
    }

    /** splitInternal: page p, overfull in memory, gives its first half of the children to a new page before it. */
    method SplitInternal(p: nat, node: Page) returns (key: Key, left: nat)
      requires IsInternal(pages, p) && node.Internal? && node.parent == pages[p].parent
      requires SoundExcept(pages[p := node], root, nPage, firstFreePage, sh, chain, free, contents, p)
      requires 28 <= |node.entries| <= 55
      modifies this
      ensures left == if old(firstFreePage) == 0 then old(nPage) else old(firstFreePage)
      ensures var mid := (|node.entries| - 1) / 2;
        && node.entries[mid+1].key == IntKey(key)
        && InternalSplitWrote(old(pages), pages, node, p, left, mid)
      ensures SoundSplit(pages, root, nPage, firstFreePage, sh, chain, free, contents, key, left, p)
      ensures root == old(root) && contents == old(contents)
      ensures p in old(sh.lvl) && sh.lvl == old(sh.lvl)[left := old(sh.lvl)[p]]
    {
      hide SoundSplit, SoundExcept, Reparented, InternalSplitWrote, FreeInv, FreeInvExcept;
      FreeBeforeSplit(pages, node, root, nPage, firstFreePage, sh, chain, free, contents, p);
      SplitChildren(pages, node, root, nPage, firstFreePage, sh, chain, free, contents, p);
      left := PopFreePage();
      var mid := (|node.entries| - 1) / 2;
      var leftEntries := node.entries[..mid+1];
      ghost var pages0 := pages;
      ReparentStart(pages, left);
      for i := 0 to |leftEntries|
        modifies this`pages
        invariant Reparented(pages0, pages, leftEntries[..i], left)
      {
        ReparentStep(pages0, pages, leftEntries[..i], leftEntries[i], leftEntries[..i+1], left);
        var childPage := pages[leftEntries[i].child];
        childPage := childPage.(parent := left);
        pages := pages[leftEntries[i].child := childPage];
      }
      assert leftEntries[..|leftEntries|] == leftEntries;
      SplitInternalDone(pages0, node, root, old(nPage), old(firstFreePage), nPage, firstFreePage,
        sh, chain, old(free), free, contents, p, left, pages);
      SplitWrote(pages0, pages, node, p, left, mid);
      pages := pages[left := Internal(node.parent, leftEntries)];
      pages := pages[p := Internal(node.parent, node.entries[mid+1..])];
      key := node.entries[mid+1].key.k;
      sh := SplitShape(sh, left, p, key);
    }

    /** insertBtree on a split root: a new root above the two halves. */
    method NewRoot(key: Key, left: nat, right: nat)
      requires SoundSplit(pages, root, nPage, firstFreePage, sh, chain, free, contents, key, left, right)
      requires IsTreePage(pages, left) && IsTreePage(pages, right) && pages[left].parent == 0
      modifies this
      ensures Valid()
      ensures contents == old(contents) && root != old(root)
    {
      hide SoundSplit, Sound, SoundExcept, FreeInvExcept;
      ghost var s := HalfSplitFacts(pages, root, nPage, firstFreePage, sh, chain, free, contents, key, left, right);
      ghost var nPage0, firstFree0, free0 := nPage, firstFreePage, free;
      var top := PopFreePage();
      NewRootDone(pages, root, nPage0, firstFree0, nPage, firstFreePage, sh, chain, free0, free, contents, key, left, top);
      var rootNode := Internal(0, [Entry(IntKey(key), left)]);
      rootNode := rootNode.(entries := rootNode.entries + [Entry(IntKey(key), right)]);
      assert rootNode.entries == [Entry(IntKey(key), left), Entry(IntKey(key), right)];
      pages := pages[left := pages[left].(parent := top)];
      pages := pages[right := pages[right].(parent := top)];
      pages := pages[top := rootNode];
      sh := RootShape(sh, top, left, right);
      root := top;
    }

    /** insertBtree: tell the parent of a split page about its two halves, splitting upwards as long as
        a parent becomes overfull. */
    method InsertBtree(key: Key, left: nat, right: nat)
      requires SoundSplit(pages, root, nPage, firstFreePage, sh, chain, free, contents, key, left, right)
      modifies this
      ensures Valid()
      ensures contents == old(contents)
      decreases Above(sh, root, right)
    {
      hide SoundSplit, Sound, SoundExcept, FreeInvExcept, InternalSplitWrote;
      ghost var s := HalfSplitFacts(pages, root, nPage, firstFreePage, sh, chain, free, contents, key, left, right);
      if pages[left].parent == 0 {
        NewRoot(key, left, right);
        return;
      }
      var P := pages[left].parent;
      var parent := pages[P];
      var i := IndexOfChild(parent.entries, key);
      RouteOnce(parent.entries, key, i, s);
      var entries := parent.entries[..i+1] + [Entry(IntKey(key), right)] + parent.entries[i+1..];
      entries := entries[i := entries[i].(child := left)];
      assert entries == SetChild(parent.entries, i, key, left, right);
      parent := parent.(entries := entries);
      SetChildDone(pages, root, nPage, firstFreePage, sh, chain, free, contents, key, left, right, i, parent);
      if UsedInternal(entries) > MINIMUM_USED_BYTES {
        var upKey, upLeft := SplitInternal(P, parent);
        InsertBtree(upKey, upLeft, P);
      } else {
        pages := pages[P := parent];
      }
    }

    /** LeafBPlusNode::addTuple. */
    method AddTuple(rows: seq<Row>, row: Row) returns (rows': seq<Row>, ghost at: nat)
      requires SortedRows(rows) && row.key !in KeySet(rows)
      ensures InsertedAt(rows, rows', row, at)
      ensures SortedRows(rows') && multiset(rows') == multiset(rows) + multiset{row}
    {
      hide SortedRows, KeySet;
      SortedKeys(rows);
      var index := LowerBound(RowKeys(rows), row.key, 0);
      PlaceOf(rows, row.key, index);
      at := index + 1;
      rows' := rows[..index+1] + [row] + rows[index+1..];
      InsertedExactly(rows, rows', row, at);
    }

    /** setBTree: inserting an absent key adds exactly that key to the table. */
    method SetBTree(row: Row)
      requires Valid()
      requires row.key !in contents
      requires RowSize(row) <= MAX_TUPLE_BYTES
      modifies this
      ensures Valid()
      ensures contents == old(contents)[row.key := row]
    {
      hide Sound, SoundExcept, SoundSplit, FreeInvExcept;
      var l, leaf;
      ghost var S;
      if root == 0 {
        ghost var nPage0, firstFree0, free0 := nPage, firstFreePage, free;
        l := PopFreeOfSound();
        leaf := Leaf(0, 0, 0, []);
        S := {l};
        FirstLeafSound(pages, nPage0, firstFree0, nPage, firstFreePage, sh, chain, free0, free, contents, l, row.key);
        root := l;
        sh, chain := Shape(map[l := 0], map[l := {}]), [l];
      } else {
        l, S := FindLeaf(row.key);
        leaf := pages[l];
        SoundHere(pages, root, nPage, firstFreePage, sh, chain, free, contents, l);
        assert pages[l := leaf] == pages;
      }
      AddRowFacts(pages[l := leaf], root, nPage, firstFreePage, sh, chain, free, contents, l, row);
      ghost var at;
      var rows;
      rows, at := AddTuple(leaf.rows, row);
      AddRowDone(pages, leaf, root, nPage, firstFreePage, sh, chain, free, contents, S, l, row, rows, at);
      leaf := leaf.(rows := rows);
      sh := ShapeWithKey(sh, S, row.key);
      contents := contents[row.key := row];
      if UsedLeafEdited(rows) > MAXIMUM_USED_BYTES {
        var key, left := SplitLeaf(l, leaf);
        InsertBtree(key, left, l);
      } else {
        pages := pages[l := leaf];
      }
    }

    // -------------------------------------------------------------- deleting

    /** The slot of es that names page c; |es| if there is none. */
    method SlotOf(es: seq<Entry>, c: nat) returns (t: nat)
      ensures forall u :: OnlySlot(es, c, u) ==> t == u
    {
      t := 0;
      while t < |es| && es[t].child != c
        invariant t <= |es|
        invariant forall u | 0 <= u < t :: es[u].child != c
      {
        t := t + 1;
      }
    }

    /** addPageIntoFreeZone: page p becomes the head of the free list. */
    method AddPageIntoFreeZone(p: nat)
      modifies this`pages, this`firstFreePage, this`free
      ensures pages == old(pages)[p := Free(old(firstFreePage))]
      ensures firstFreePage == p && free == [p] + old(free)
      ensures IsTreePage(old(pages), p) && FreeInv(old(pages), nPage, old(firstFreePage), old(free))
        ==> FreeInv(pages, nPage, firstFreePage, free)
    {
      if IsTreePage(pages, p) && FreeInv(pages, nPage, firstFreePage, free) {
        PushKeepsList(pages, nPage, firstFreePage, free, p);
      }
      pages := pages[p := Free(firstFreePage)];
      firstFreePage := p;
      free := [p] + free;
    }

    /** removeFromLeaf: take the row out of its leaf in memory, and refresh the separator in front of the leaf. */
    method RemoveFromLeaf(key: Key, l: nat) returns (result: Row, node: Page)
      requires Valid() && root != 0 && IsLeaf(pages, l) && key in sh.keys[l]
      modifies this`pages, this`sh, this`contents
      ensures var rows := old(pages)[l].rows;
        exists t ::
          && 0 <= t < |rows| && rows[t].key == key
          && node == old(pages)[l].(rows := rows[..t] + rows[t+1..])
      ensures node.parent != 0 ==> IsInternal(old(pages), node.parent)
      ensures node.parent == 0 ==> pages == old(pages)
      ensures node.parent != 0 ==>
        var es := old(pages)[node.parent].entries;
        && RealKeys(es)
        && exists i: nat ::
          && Routes(es, key, i) && (i > 0 ==> node.rows != [])
          && pages == if i == 0 then old(pages)
             else old(pages)[node.parent := old(pages)[node.parent].(entries := es[i := es[i].(key := IntKey(node.rows[0].key))])]
      ensures LeafEdited(pages, node, root, nPage, firstFreePage, sh, chain, free, contents, l)
      ensures key in old(contents) && result == old(contents)[key] && contents == old(contents) - {key}
    {
      hide LeafEdited, ChainInv, FreeInv, ContentInv, FilledExcept, PageOk, Attached;
      LeafKeys(pages, sh, root, l);
      ghost var s := LeafSlot(pages, sh, root, l, key);
      var rows := pages[l].rows;
      var index := LowerBound(RowKeys(rows), key, 0);
      LowerBoundHits(rows, key, index);
      result := rows[index];
      RemoveRowDone(pages, root, nPage, firstFreePage, sh, chain, free, contents, l, index);
      node := pages[l].(rows := rows[..index] + rows[index+1..]);
      sh := ShapeWithout(sh, key);
      contents := contents - {key};
      if node.parent != 0 {
        var parent := pages[node.parent];
        var i := IndexOfChild(parent.entries, key);
        RouteOnce(parent.entries, key, i, s);
        if i != 0 {
          RefreshLeafDone(pages, node, root, nPage, firstFreePage, sh, chain, free, contents, l, i);
          parent := parent.(entries := parent.entries[i := parent.entries[i].(key := IntKey(node.rows[0].key))]);
          pages := pages[node.parent := parent];
        }
      }
    }

    /** borrowKeyFromRightLeaf. Like the three methods below it returns the parent, edited in memory. */
    method BorrowKeyFromRightLeaf(l: nat, node: Page) returns (parent: Page)
      requires LeafEdited(pages, node, root, nPage, firstFreePage, sh, chain, free, contents, l) && l != root
      requires UsedLeafEdited(node.rows) < MINIMUM_USED_BYTES
      requires node.next != 0 && IsLeaf(pages, node.next) && pages[node.next].parent == node.parent
      requires UsedLeafRead(pages[node.next].rows) > MINIMUM_USED_BYTES
      modifies this
      ensures node.Leaf? && IsInternal(old(pages), node.parent) && |old(pages)[node.next].rows| >= 2
      ensures pages == old(pages)[node.next := old(pages)[node.next].(rows := old(pages)[node.next].rows[1..])]
                                 [l := node.(rows := node.rows + [old(pages)[node.next].rows[0]])]
      ensures exists t ::
        && OnlySlot(old(pages)[node.parent].entries, node.next, t)
        && parent == old(pages)[node.parent].(entries := WithKey(old(pages)[node.parent].entries, t, old(pages)[node.next].rows[1].key))
      ensures InternalEdited(pages, parent, root, nPage, firstFreePage, sh, chain, free, contents, node.parent)
      ensures root == old(root) && contents == old(contents)
    {
      hide LeafEdited, InternalEdited;
      ghost var t, sh' := BorrowRightLeafDone(pages, node, root, nPage, firstFreePage, sh, chain, free, contents, l);
      parent := pages[node.parent];
      var next := pages[node.next];
      var edited := node.(rows := node.rows + [next.rows[0]]);
      next := next.(rows := next.rows[1..]);
      var slot := SlotOf(parent.entries, node.next);
      parent := parent.(entries := parent.entries[slot := parent.entries[slot].(key := IntKey(next.rows[0].key))]);
      assert parent.entries == WithKey(old(pages)[node.parent].entries, t, next.rows[0].key);
      pages := pages[node.next := next];
      pages := pages[l := edited];
      sh := sh';
    }

    /** borrowKeyFromLeftLeaf. */
    method BorrowKeyFromLeftLeaf(l: nat, node: Page) returns (parent: Page)
      requires LeafEdited(pages, node, root, nPage, firstFreePage, sh, chain, free, contents, l) && l != root
      requires UsedLeafEdited(node.rows) < MINIMUM_USED_BYTES
      requires node.prev != 0 && IsLeaf(pages, node.prev) && pages[node.prev].parent == node.parent
      requires UsedLeafRead(pages[node.prev].rows) > MINIMUM_USED_BYTES
      modifies this
      ensures node.Leaf? && IsInternal(old(pages), node.parent) && |old(pages)[node.prev].rows| >= 2
      ensures var rows := old(pages)[node.prev].rows;
        pages == old(pages)[node.prev := old(pages)[node.prev].(rows := rows[..|rows|-1])]
                           [l := node.(rows := [rows[|rows|-1]] + node.rows)]
      ensures exists t ::
        && OnlySlot(old(pages)[node.parent].entries, l, t)
        && parent == old(pages)[node.parent].(entries := WithKey(old(pages)[node.parent].entries, t,
             old(pages)[node.prev].rows[|old(pages)[node.prev].rows|-1].key))
      ensures InternalEdited(pages, parent, root, nPage, firstFreePage, sh, chain, free, contents, node.parent)
      ensures root == old(root) && contents == old(contents)
    {
      hide LeafEdited, InternalEdited;
      ghost var t, sh' := BorrowLeftLeafDone(pages, node, root, nPage, firstFreePage, sh, chain, free, contents, l);
      parent := pages[node.parent];
      var prev := pages[node.prev];
      var last := |prev.rows| - 1;
      var edited := node.(rows := [prev.rows[last]] + node.rows);
      prev := prev.(rows := prev.rows[..last]);
      var slot := SlotOf(parent.entries, l);
      parent := parent.(entries := parent.entries[slot := parent.entries[slot].(key := IntKey(edited.rows[0].key))]);
      assert parent.entries == WithKey(old(pages)[node.parent].entries, t, edited.rows[0].key);
      pages := pages[node.prev := prev];
      pages := pages[l := edited];
      sh := sh';
    }

    /** mergeLeafNode of the next leaf into this one. */
    method MergeNextLeaf(l: nat, node: Page) returns (parent: Page)
      requires LeafEdited(pages, node, root, nPage, firstFreePage, sh, chain, free, contents, l) && l != root
      requires UsedLeafEdited(node.rows) < MINIMUM_USED_BYTES
      requires node.next != 0 && IsLeaf(pages, node.next) && pages[node.next].parent == node.parent
      requires UsedLeafRead(pages[node.next].rows) <= MINIMUM_USED_BYTES
      modifies this
      ensures node.Leaf? && IsInternal(old(pages), node.parent)
      ensures old(pages)[node.next].next != 0 ==> IsLeaf(old(pages), old(pages)[node.next].next)
      ensures pages == LeafMergePages(old(pages), l, node, node.next, old(pages)[node.next], old(firstFreePage))
      ensures firstFreePage == node.next
      ensures exists t ::
        && OnlySlot(old(pages)[node.parent].entries, node.next, t)
        && parent == old(pages)[node.parent].(entries := WithoutSlot(old(pages)[node.parent].entries, t))
      ensures InternalEdited(pages, parent, root, nPage, firstFreePage, sh, chain, free, contents, node.parent)
      ensures root == old(root) && contents == old(contents)
    {
      hide LeafEdited, InternalEdited;
      ghost var t, n, sh' := MergeRightLeafDone(pages, node, root, nPage, firstFreePage, sh, chain, free, contents, l);
      parent := pages[node.parent];
      var next := pages[node.next];
      var edited := node.(rows := node.rows + next.rows, next := next.next);
      var slot := SlotOf(parent.entries, node.next);
      parent := parent.(entries := parent.entries[..slot] + parent.entries[slot+1..]);
      UpdatePrevLeaf(edited.next, l);
      AddPageIntoFreeZone(node.next);
      pages := pages[l := edited];
      sh, chain := sh', Removed(chain, n);
    }

    /** mergeLeafNode of this leaf into the previous one. */
    method MergeIntoPrevLeaf(l: nat, node: Page) returns (parent: Page)
      requires LeafEdited(pages, node, root, nPage, firstFreePage, sh, chain, free, contents, l) && l != root
      requires UsedLeafEdited(node.rows) < MINIMUM_USED_BYTES
      requires node.prev != 0 && IsLeaf(pages, node.prev) && pages[node.prev].parent == node.parent
      requires UsedLeafRead(pages[node.prev].rows) <= MINIMUM_USED_BYTES
      modifies this
      ensures node.Leaf? && IsInternal(old(pages), node.parent)
      ensures node.next != 0 ==> IsLeaf(old(pages), node.next)
      ensures pages == LeafMergePages(old(pages), node.prev, old(pages)[node.prev], l, node, old(firstFreePage))
      ensures firstFreePage == l
      ensures exists t ::
        && OnlySlot(old(pages)[node.parent].entries, l, t)
        && parent == old(pages)[node.parent].(entries := WithoutSlot(old(pages)[node.parent].entries, t))
      ensures InternalEdited(pages, parent, root, nPage, firstFreePage, sh, chain, free, contents, node.parent)
      ensures root == old(root) && contents == old(contents)
    {
      hide LeafEdited, InternalEdited;
      ghost var t, n, sh' := MergeLeftLeafDone(pages, node, root, nPage, firstFreePage, sh, chain, free, contents, l);
      parent := pages[node.parent];
      var prev := pages[node.prev];
      prev := prev.(rows := prev.rows + node.rows, next := node.next);
      var slot := SlotOf(parent.entries, l);
      parent := parent.(entries := parent.entries[..slot] + parent.entries[slot+1..]);
      UpdatePrevLeaf(prev.next, node.prev);
      AddPageIntoFreeZone(l);
      pages := pages[node.prev := prev];
      sh, chain := sh', Removed(chain, n);
    }

    /** removeBtree on an underfull leaf: borrow a row from a sibling leaf, or merge with one. */
    method RepairLeaf(l: nat, node: Page) returns (parent: Page)
      requires LeafEdited(pages, node, root, nPage, firstFreePage, sh, chain, free, contents, l) && l != root
      requires UsedLeafEdited(node.rows) < MINIMUM_USED_BYTES
      modifies this
      ensures node.parent != 0
      ensures InternalEdited(pages, parent, root, nPage, firstFreePage, sh, chain, free, contents, node.parent)
      ensures root == old(root) && contents == old(contents)
    {
      LeafHasSibling(pages, node, root, nPage, firstFreePage, sh, chain, free, contents, l);
      hide LeafEdited, InternalEdited;
      var nextIsSibling := node.next != 0 && node.parent == pages[node.next].parent;
      var prevIsSibling := node.prev != 0 && node.parent == pages[node.prev].parent;
      if nextIsSibling && UsedLeafRead(pages[node.next].rows) > MINIMUM_USED_BYTES {
        parent := BorrowKeyFromRightLeaf(l, node);
      } else if prevIsSibling && UsedLeafRead(pages[node.prev].rows) > MINIMUM_USED_BYTES {
        parent := BorrowKeyFromLeftLeaf(l, node);
      } else if nextIsSibling {
        parent := MergeNextLeaf(l, node);
      } else {
        parent := MergeIntoPrevLeaf(l, node);
      }
    }

    /** updateParentIndexOfChild: the first or last num pages named in es get the parent owner. */
    method UpdateParentIndexOfChild(owner: nat, es: seq<Entry>, num: nat, runningFromBegin: bool)
      requires num <= |es|
      requires forall i | 0 <= i < num :: IsTreePage(pages, EntryRange(es, num, runningFromBegin)[i].child)
      modifies this`pages
      ensures Reparented(old(pages), pages, EntryRange(es, num, runningFromBegin), owner)
    {
      hide Reparented;
      ghost var pages0 := pages;
      ReparentStart(pages, owner);
      assert EntryRange(es, 0, runningFromBegin) == [];
      for i := 0 to num
        invariant Reparented(pages0, pages, EntryRange(es, i, runningFromBegin), owner)
      {
        var index := if runningFromBegin then i else |es| - i - 1;
        assert es[index] == EntryRange(es, num, runningFromBegin)[if runningFromBegin then i else num - i - 1];
        ReparentRangeStep(pages0, pages, es, i, runningFromBegin, owner);
        var temp := pages[es[index].child];
        temp := temp.(parent := owner);
        pages := pages[es[index].child := temp];
      }
    }

    /** borrowKeyFromRightInternal from the page in the next slot. Like the methods below it returns the parent, edited in memory. */
    method BorrowKeyFromRightInternal(p: nat, node: Page, i: nat) returns (parent: Page)
      requires InternalEdited(pages, node, root, nPage, firstFreePage, sh, chain, free, contents, p) && p != root
      requires |node.entries| <= 27
      requires IsInternal(pages, node.parent) && i + 1 < |pages[node.parent].entries| && pages[node.parent].entries[i].child == p
      requires node.parent != p && IsInternal(pages, pages[node.parent].entries[i+1].child)
      requires |pages[pages[node.parent].entries[i+1].child].entries| >= 28
      modifies this
      ensures node.Internal? && old(pages)[node.parent].entries[i+1].child in old(pages)
      ensures var es := old(pages)[node.parent].entries;
        var next := old(pages)[es[i+1].child];
        && IsTreePage(old(pages), next.entries[0].child) && next.entries[1].key.IntKey?
        && pages == BorrowRightPages(old(pages), p, node, es[i+1].child, es[i+1].key)
        && parent == old(pages)[node.parent].(entries := WithKey(es, i + 1, next.entries[1].key.k))
      ensures InternalEdited(pages, parent, root, nPage, firstFreePage, sh, chain, free, contents, node.parent)
      ensures root == old(root) && contents == old(contents) && LevelsKept(old(sh), sh, node.parent, root)
    {
      hide InternalEdited, LevelsKept, Reparented;
      ghost var sh' := BorrowRightInternalDone(pages, node, root, nPage, firstFreePage, sh, chain, free, contents, p, i);
      parent := pages[node.parent];
      var n := parent.entries[i+1].child;
      var next := pages[n];
      var moved := Entry(parent.entries[i+1].key, next.entries[0].child);
      parent := parent.(entries := parent.entries[i+1 := parent.entries[i+1].(key := next.entries[1].key)]);
      var edited := node.(entries := node.entries + [moved]);
      next := next.(entries := next.entries[1..]);
      assert EntryRange(edited.entries, 1, false) == [moved];
      UpdateParentIndexOfChild(p, edited.entries, 1, false);
      ReparentedOne(old(pages), pages, EntryRange(edited.entries, 1, false), moved, p);
      pages := pages[n := next];
      pages := pages[p := edited];
      sh := sh';
    }

    /** borrowKeyFromLeftInternal from the page in the previous slot i; page p is in slot i + 1. */
    method BorrowKeyFromLeftInternal(p: nat, node: Page, i: nat) returns (parent: Page)
      requires InternalEdited(pages, node, root, nPage, firstFreePage, sh, chain, free, contents, p) && p != root
      requires 0 < |node.entries| <= 27
      requires IsInternal(pages, node.parent) && i + 1 < |pages[node.parent].entries| && pages[node.parent].entries[i+1].child == p
      requires node.parent != p && IsInternal(pages, pages[node.parent].entries[i].child)
      requires |pages[pages[node.parent].entries[i].child].entries| >= 28
      modifies this
      ensures node.Internal? && old(pages)[node.parent].entries[i].child in old(pages)
      ensures var es := old(pages)[node.parent].entries;
        var prev := old(pages)[es[i].child];
        var last := prev.entries[|prev.entries|-1];
        && IsTreePage(old(pages), last.child) && last.key.IntKey?
        && pages == BorrowLeftPages(old(pages), p, node, es[i].child, es[i+1].key, NoKey)
        && parent == old(pages)[node.parent].(entries := WithKey(es, i + 1, last.key.k))
      ensures InternalEdited(pages, parent, root, nPage, firstFreePage, sh, chain, free, contents, node.parent)
      ensures root == old(root) && contents == old(contents) && LevelsKept(old(sh), sh, node.parent, root)
    {
      hide InternalEdited, LevelsKept, Reparented;
      ghost var sh' := BorrowLeftInternalDone(pages, node, root, nPage, firstFreePage, sh, chain, free, contents, p, i);
      parent := pages[node.parent];
      var n := parent.entries[i].child;
      var prev := pages[n];
      var last := |prev.entries| - 1;
      var edited := node.(entries := node.entries[0 := node.entries[0].(key := parent.entries[i+1].key)]);
      parent := parent.(entries := parent.entries[i+1 := parent.entries[i+1].(key := prev.entries[last].key)]);
      var moved := Entry(NoKey, prev.entries[last].child);
      edited := edited.(entries := [moved] + edited.entries);
      prev := prev.(entries := prev.entries[..last]);
      assert EntryRange(edited.entries, 1, true) == [moved];
      UpdateParentIndexOfChild(p, edited.entries, 1, true);
      ReparentedOne(old(pages), pages, EntryRange(edited.entries, 1, true), moved, p);
      pages := pages[n := prev];
      pages := pages[p := edited];
      sh := sh';
    }

    /** mergeInternalNode of the page in the next slot into this one. */
    method MergeNextInternal(p: nat, node: Page, i: nat) returns (parent: Page, ghost moved: map<nat, Page>)
      requires InternalEdited(pages, node, root, nPage, firstFreePage, sh, chain, free, contents, p) && p != root
      requires node.Internal? && |node.entries| <= 27
      requires IsInternal(pages, node.parent) && i + 1 < |pages[node.parent].entries| && pages[node.parent].entries[i].child == p
      requires var n := pages[node.parent].entries[i+1].child;
        node.parent != p && p in pages && IsInternal(pages, n) && n != p && 0 < |pages[n].entries| <= 27
      modifies this
      ensures InternalMergeReady(old(pages), moved, node, p, node.parent, i)
      ensures var es := old(pages)[node.parent].entries;
        && pages == InternalMergePages(moved, p, node, es[i+1].key, es[i+1].child, old(pages)[es[i+1].child], old(firstFreePage))
        && parent == old(pages)[node.parent].(entries := WithoutSlot(es, i + 1)) && firstFreePage == es[i+1].child
      ensures InternalEdited(pages, parent, root, nPage, firstFreePage, sh, chain, free, contents, node.parent)
      ensures root == old(root) && contents == old(contents) && LevelsKept(old(sh), sh, node.parent, root)
    {
      hide InternalEdited, LevelsKept, Reparented, InternalMergeReady;
      parent := pages[node.parent];
      var n := parent.entries[i+1].child;
      var next := pages[n];
      var num := |next.entries|;
      var edited := node.(entries := node.entries + next.entries);
      edited := edited.(entries := edited.entries[|node.entries| := edited.entries[|node.entries|].(key := parent.entries[i+1].key)]);
      assert edited.entries == JoinEntries(node.entries, parent.entries[i+1].key, next.entries);
      parent := parent.(entries := parent.entries[..i+1] + parent.entries[i+2..]);
      MergeChildren(pages, node, root, nPage, firstFreePage, sh, chain, free, contents, p, n, next.entries);
      MovedRange(edited.entries, node.entries, next.entries);
      UpdateParentIndexOfChild(p, edited.entries, num, false);
      MergeReady(old(pages), pages, node, p, node.parent, i, EntryRange(edited.entries, num, false));
      moved := pages;
      ghost var sh' := MergeInternalDone(old(pages), pages, node, root, nPage, firstFreePage, sh, chain, free, contents, p, node.parent, i);
      AddPageIntoFreeZone(n);
      pages := pages[p := edited];
      sh := sh';
    }

    /** mergeInternalNode of this page, in slot i + 1, into the one in the previous slot i. */
    method MergeIntoPrevInternal(p: nat, node: Page, i: nat) returns (parent: Page, ghost moved: map<nat, Page>)
      requires InternalEdited(pages, node, root, nPage, firstFreePage, sh, chain, free, contents, p) && p != root
      requires node.Internal? && 0 < |node.entries| <= 27
      requires IsInternal(pages, node.parent) && i + 1 < |pages[node.parent].entries| && pages[node.parent].entries[i+1].child == p
      requires var n := pages[node.parent].entries[i].child;
        node.parent != p && p in pages && IsInternal(pages, n) && n != p && |pages[n].entries| <= 27
      modifies this
      ensures InternalMergeReady(old(pages), moved, node, p, node.parent, i)
      ensures var es := old(pages)[node.parent].entries;
        && pages == InternalMergePages(moved, es[i].child, old(pages)[es[i].child], es[i+1].key, p, node, old(firstFreePage))
        && parent == old(pages)[node.parent].(entries := WithoutSlot(es, i + 1)) && firstFreePage == p
      ensures InternalEdited(pages, parent, root, nPage, firstFreePage, sh, chain, free, contents, node.parent)
      ensures root == old(root) && contents == old(contents) && LevelsKept(old(sh), sh, node.parent, root)
    {
      hide InternalEdited, LevelsKept, Reparented, InternalMergeReady;
      parent := pages[node.parent];
      var n := parent.entries[i].child;
      var prev := pages[n];
      var num := |node.entries|;
      var edited := prev.(entries := prev.entries + node.entries);
      edited := edited.(entries := edited.entries[|prev.entries| := edited.entries[|prev.entries|].(key := parent.entries[i+1].key)]);
      assert edited.entries == JoinEntries(prev.entries, parent.entries[i+1].key, node.entries);
      parent := parent.(entries := parent.entries[..i+1] + parent.entries[i+2..]);
      MergeChildren(pages, node, root, nPage, firstFreePage, sh, chain, free, contents, p, p, node.entries);
      MovedRange(edited.entries, prev.entries, node.entries);
      UpdateParentIndexOfChild(n, edited.entries, num, false);
      MergeReady(old(pages), pages, node, p, node.parent, i, EntryRange(edited.entries, num, false));
      moved := pages;
      ghost var sh' := MergeInternalDone(old(pages), pages, node, root, nPage, firstFreePage, sh, chain, free, contents, p, node.parent, i);
      AddPageIntoFreeZone(p);
      pages := pages[n := edited];
      sh := sh';
    }

    /** removeBtree on an underfull internal page: borrow a child from a sibling, or merge with one. */
    method RepairInternal(p: nat, node: Page) returns (parent: Page)
      requires InternalEdited(pages, node, root, nPage, firstFreePage, sh, chain, free, contents, p) && p != root
      requires node.Internal? && |node.entries| <= 27
      modifies this
      ensures node.parent != 0
      ensures InternalEdited(pages, parent, root, nPage, firstFreePage, sh, chain, free, contents, node.parent)
      ensures root == old(root) && contents == old(contents) && LevelsKept(old(sh), sh, node.parent, root)
    {
      hide InternalEdited, LevelsKept;
      ghost var s := InternalNeighbours(pages, node, root, nPage, firstFreePage, sh, chain, free, contents, p);
      var es := pages[node.parent].entries;
      var i := IndexOfChild(es, node.entries[1].key.k);
      RouteOnce(es, node.entries[1].key.k, i, s);
      var hasNext, hasPrev := i + 1 < |es|, i > 0;
      if hasNext { InternalThreshold(pages[es[i+1].child].entries); }
      if hasPrev { InternalThreshold(pages[es[i-1].child].entries); }
      if hasNext && UsedInternal(pages[es[i+1].child].entries) > MINIMUM_USED_BYTES {
        parent := BorrowKeyFromRightInternal(p, node, i);
      } else if hasPrev && UsedInternal(pages[es[i-1].child].entries) > MINIMUM_USED_BYTES {
        parent := BorrowKeyFromLeftInternal(p, node, i - 1);
      } else if hasNext {
        ghost var moved;
        parent, moved := MergeNextInternal(p, node, i);
      } else {
        ghost var moved;
        parent, moved := MergeIntoPrevInternal(p, node, i - 1);
      }
    }

    /** removeFromInternal: refresh the separator in front of the child that key belongs to, in memory. */
    method RemoveFromInternal(key: Key, p: nat, node: Page) returns (edited: Page, ghost index: int, ghost l: nat)
      requires InternalEdited(pages, node, root, nPage, firstFreePage, sh, chain, free, contents, p)
      ensures InternalEdited(pages, edited, root, nPage, firstFreePage, sh, chain, free, contents, p)
      ensures node.Internal? && edited.Internal? && edited.parent == node.parent && |edited.entries| == |node.entries|
      ensures RealKeys(node.entries) && (index == -1 || 1 <= index < |node.entries|)
      ensures forall i | 1 <= i < |node.entries| :: node.entries[i].key.k <= key <==> i <= index
      ensures index == -1 ==> edited == node
      ensures index != -1 ==>
        && FirstLeaf(sh, node.entries[index].child, l) && IsLeaf(pages[p := node], l) && pages[p := node][l].rows != []
        && edited == node.(entries := node.entries[index := node.entries[index].(key := IntKey(pages[p := node][l].rows[0].key))])
    {
      RefreshReady(pages, node, root, nPage, firstFreePage, sh, chain, free, contents, p);
      hide InternalEdited;
      edited, l := node, 0;
      var index' := LowerBound(EntryKeys(node.entries), key, 1);
      index := index';
      assert forall i | 1 <= i < |node.entries| :: EntryKeys(node.entries)[i].k == node.entries[i].key.k;
      if index' != -1 {
        ghost var V := pages[p := node];
        var leftMost := BeginLeaf(node.entries[index'].child, V);
        l :| BeginsAt(V, sh, node.entries[index'].child, l, leftMost);
        RefreshDone(pages, node, root, nPage, firstFreePage, sh, chain, free, contents, p, index', l);
        edited := node.(entries := node.entries[index' := node.entries[index'].(key := IntKey(pages[leftMost.page].rows[0].key))]);
      }
    }

    /** removeBtree from an internal page upwards: refresh its separator, repair it if it is underfull, go on with its parent. */
    method RemoveUp(key: Key, p: nat, stale: Page)
      requires InternalEdited(pages, stale, root, nPage, firstFreePage, sh, chain, free, contents, p)
      modifies this
      ensures Valid() && contents == old(contents)
      decreases if p in sh.lvl && root in sh.lvl then Above(sh, root, p) else 0
    {
      hide InternalEdited, Sound;
      ghost var index, l;
      var node;
      node, index, l := RemoveFromInternal(key, p, stale);
      LevelUp(pages, node, root, nPage, firstFreePage, sh, chain, free, contents, p);
      InternalThreshold(node.entries);
      var parent;
      if UsedInternal(node.entries) < MINIMUM_USED_BYTES {
        if p == root {
          if |node.entries| == 1 {
            CollapseDone(pages, node, root, nPage, firstFreePage, sh, chain, free, contents);
            var child := node.entries[0].child;
            var rootPage := pages[child];
            AddPageIntoFreeZone(p);
            rootPage := rootPage.(parent := 0);
            pages := pages[child := rootPage];
            sh := ShapeMinus(sh, root);
            root := child;
          } else {
            InternalKept(pages, node, root, nPage, firstFreePage, sh, chain, free, contents, p);
            pages := pages[p := node];
          }
          return;
        }
        parent := RepairInternal(p, node);
      } else {
        InternalKept(pages, node, root, nPage, firstFreePage, sh, chain, free, contents, p);
        pages := pages[p := node];
        if node.parent == 0 {
          return;
        }
        parent := pages[node.parent];
      }
      RemoveUp(key, node.parent, parent);
    }

    /** removeBtree: deleting a present key removes exactly that key from the table and returns its row. */
    method RemoveBtree(key: Key) returns (result: Row)
      requires Valid() && key in contents
      modifies this
      ensures Valid()
      ensures contents == old(contents) - {key}
      ensures result == old(contents)[key]
    {
      ContentsNeedRoot(pages, root, nPage, firstFreePage, sh, chain, free, contents, key);
      var l, S := FindLeaf(key);
      KeyInFoundLeaf(pages, root, nPage, firstFreePage, sh, chain, free, contents, key, l, S);
      hide Sound, LeafEdited, InternalEdited, SearchPath, Isolates;
      var node;
      result, node := RemoveFromLeaf(key, l);
      LeafEditedFacts(pages, node, root, nPage, firstFreePage, sh, chain, free, contents, l);
      var parent;
      if UsedLeafEdited(node.rows) < MINIMUM_USED_BYTES {
        if l == root {
          LeafKept(pages, node, root, nPage, firstFreePage, sh, chain, free, contents, l);
          pages := pages[l := node];
          return;
        }
        parent := RepairLeaf(l, node);
      } else {
        LeafKept(pages, node, root, nPage, firstFreePage, sh, chain, free, contents, l);
        pages := pages[l := node];
        if node.parent == 0 {
          return;
        }
        parent := pages[node.parent];
      }
      RemoveUp(key, node.parent, parent);
    }

    /** updatePrevIndexOfNextNode: leaf n, if it is one, now follows leaf l. */
    method UpdatePrevLeaf(n: nat, l: nat)
      requires n != 0 ==> IsLeaf(pages, n)
      modifies this`pages
      ensures pages == if n != 0 then old(pages)[n := old(pages)[n].(prev := l)] else old(pages)
    {
      if n != 0 {
        var temp := pages[n];
        temp := temp.(prev := l);
        pages := pages[n := temp];
      }
    }
  }

  lemma MovedRange(joined: seq<Entry>, left: seq<Entry>, right: seq<Entry>)
    requires |right| > 0 && |joined| == |left| + |right|
    requires forall j | 0 <= j < |right| :: joined[|left| + j].child == right[j].child
    ensures forall j | 0 <= j < |right| :: EntryRange(joined, |right|, false)[j].child == right[j].child
  {
  }

  lemma LeafKeys(pages: map<nat, Page>, sh: Shape, root: nat, l: nat)
    requires TreeOk(pages, sh, root) && IsLeaf(pages, l)
    ensures SortedRows(pages[l].rows) && KeySet(pages[l].rows) == sh.keys[l]
  {
    assert PageOk(pages, sh, l);
  }

  lemma SortedKeys(rows: seq<Row>)
    requires SortedRows(rows)
    ensures forall i, j | 0 <= i < j < |rows| :: RowKeys(rows)[i].k < RowKeys(rows)[j].k
  {
  }

  /** lower_bound finds the place of a key that is not there. */
  lemma PlaceOf(rows: seq<Row>, key: Key, index: int)
    requires key !in KeySet(rows) && (index == -1 || 0 <= index < |rows|)
    requires forall i | 0 <= i < |rows| :: RowKeys(rows)[i].k <= key <==> i <= index
    ensures forall j | 0 <= j < index + 1 :: rows[j].key < key
    ensures forall j | index + 1 <= j < |rows| :: key < rows[j].key
  {
    forall j | 0 <= j < |rows|
      ensures rows[j].key <= key <==> j <= index
      ensures rows[j].key != key
    {
      assert RowKeys(rows)[j].k == rows[j].key;
      assert rows[j].key in KeySet(rows);
    }
  }

  /** lower_bound finds a key that is there. */
  lemma LowerBoundHits(rows: seq<Row>, key: Key, index: int)
    requires SortedRows(rows) && key in KeySet(rows)
    requires index == -1 || 0 <= index < |rows|
    requires forall i | 0 <= i < |rows| :: RowKeys(rows)[i].k <= key <==> i <= index
    ensures 0 <= index < |rows| && rows[index].key == key
  {
    var i :| 0 <= i < |rows| && rows[i].key == key;
    assert RowKeys(rows)[i].k <= key;
    assert RowKeys(rows)[index].k <= key;
  }

  lemma SplitChildren(pages: map<nat, Page>, node: Page, root: nat, nPage: nat, firstFree: nat,
      sh: Shape, chain: seq<nat>, free: seq<nat>, contents: map<Key, Row>, p: nat)
    requires IsInternal(pages, p) && node.Internal?
    requires SoundExcept(pages[p := node], root, nPage, firstFree, sh, chain, free, contents, p)
    ensures forall i | 0 <= i < |node.entries| :: IsTreePage(pages, node.entries[i].child)
  {
    ChildrenArePages(pages, node, sh, root, p);
  }

  lemma ChildrenArePages(pages: map<nat, Page>, node: Page, sh: Shape, root: nat, p: nat)
    requires IsInternal(pages, p) && node.Internal? && TreeOk(pages[p := node], sh, root)
    ensures forall i | 0 <= i < |node.entries| :: IsTreePage(pages, node.entries[i].child)
  {
    assert PageOk(pages[p := node], sh, p);
    forall i | 0 <= i < |node.entries|
      ensures IsTreePage(pages, node.entries[i].child)
    {
      assert SlotOk(pages[p := node], sh, p, i);
    }
  }

  lemma PushKeepsList(pages: map<nat, Page>, nPage: nat, firstFree: nat, free: seq<nat>, p: nat)
    requires FreeInv(pages, nPage, firstFree, free) && IsTreePage(pages, p)
    ensures FreeInv(pages[p := Free(firstFree)], nPage, p, [p] + free)
  {
    var m, list := pages[p := Free(firstFree)], [p] + free;
    assert FreeLink(m, list, 0);
    forall i | 0 < i < |list|
      ensures FreeLink(m, list, i)
    {
      assert FreeLink(pages, free, i - 1);
    }
    forall q
      ensures q in list <==> q in m && m[q].Free?
    {
      assert q in list <==> q == p || q in free;
    }
  }

  lemma PopKeepsList(pages: map<nat, Page>, nPage: nat, p: nat, free: seq<nat>)
    requires p != 0 && FreeInv(pages, nPage, p, free)
    ensures |free| > 0 && pages[p].Free?
    ensures FreeInvExcept(pages, nPage, pages[p].nextFree, free[1..], p)
  {
    assert FreeLink(pages, free, 0);
    var rest := free[1..];
    forall i | 0 <= i < |rest|
      ensures FreeLink(pages, rest, i)
    {
      assert FreeLink(pages, free, i + 1);
    }
    forall q | q in free && q != p
      ensures q in rest
    {
      var i :| 0 <= i < |free| && free[i] == q;
      assert rest[i-1] == q;
    }
  }
}
