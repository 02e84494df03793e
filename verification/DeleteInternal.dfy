/** What removeBtree does to an underfull internal page. */
module DeleteInternal {
  import opened Pages
  import opened TreeInvariant
  import opened TreeSearch
  import opened TreeDelete
  import opened InsertSound
  import opened DeleteSound

  /** The slot of an edited internal page in its parent, found through its second entry's key. */
  lemma NodeSlot(pages: map<nat, Page>, sh: Shape, root: nat, p: nat) returns (i: nat)
    requires TreeOk(pages, sh, root) && IsInternal(pages, p) && p != root && |pages[p].entries| >= 2
    ensures RealKeys(pages[p].entries)
    ensures var P := pages[p].parent;
      && IsInternal(pages, P) && P != p && i < |pages[P].entries| && pages[P].entries[i].child == p
      && RealKeys(pages[P].entries) && Increasing(pages[P].entries)
      && Routes(pages[P].entries, pages[p].entries[1].key.k, i)
  {
    var P;
    P, i := ParentSlot(pages, sh, root, p);
    EntriesIncrease(pages, sh, root, p);
    EntriesIncrease(pages, sh, root, P);
    var v := ChildKey(pages, sh, root, p, 0);
    var w := ChildKey(pages, sh, root, p, 1);
    assert v in sh.keys[p] && w in sh.keys[p];
  }

  /** Facts about two neighbouring internal pages a and b of which only x may have too few children. */
  lemma InternalPairFacts(pages: map<nat, Page>, sh: Shape, root: nat, x: nat, P: nat, i: nat)
    requires TreeOk(pages, sh, root) && FilledExcept(pages, root, x)
    requires IsInternal(pages, P) && i + 1 < |pages[P].entries|
    requires IsInternal(pages, pages[P].entries[i].child) || IsInternal(pages, pages[P].entries[i+1].child)
    ensures var a, b := pages[P].entries[i].child, pages[P].entries[i+1].child;
      && Siblings(pages, P, i, a, b)
      && IsInternal(pages, a) && IsInternal(pages, b) && a != 0 && b != 0
      && pages[a].parent == P && pages[b].parent == P
      && a != root && b != root
      && RealKeys(pages[P].entries) && RealKeys(pages[a].entries) && RealKeys(pages[b].entries)
      && (a != x ==> 14 <= |pages[a].entries| <= 54)
      && (b != x ==> 14 <= |pages[b].entries| <= 54)
  {
    var a, b := pages[P].entries[i].child, pages[P].entries[i+1].child;
    SiblingsFacts(pages, sh, root, P, i);
    var v := ChildKey(pages, sh, root, P, i);
    var w := ChildKey(pages, sh, root, P, i + 1);
    assert PageOk(pages, sh, a) && PageOk(pages, sh, b);
    if a != x { assert Filled(pages[a], false); }
    if b != x { assert Filled(pages[b], false); }
  }

  /** Children of internal pages a and b below their entries name them as parent, and are neither a, b nor P. */
  lemma PairChildren(pages: map<nat, Page>, sh: Shape, root: nat, P: nat, i: nat)
    requires TreeOk(pages, sh, root) && IsInternal(pages, P) && i + 1 < |pages[P].entries|
    requires IsInternal(pages, pages[P].entries[i].child) && IsInternal(pages, pages[P].entries[i+1].child)
    ensures var a, b := pages[P].entries[i].child, pages[P].entries[i+1].child;
      && (forall c | HasChild(pages[a].entries, c) :: IsTreePage(pages, c) && pages[c].parent == a && c != P && c != a && c != b)
      && (forall c | HasChild(pages[b].entries, c) :: IsTreePage(pages, c) && pages[c].parent == b && c != P && c != a && c != b)
  {
    var a, b := pages[P].entries[i].child, pages[P].entries[i+1].child;
    SiblingsFacts(pages, sh, root, P, i);
    ParentNotBelow(pages, sh, root, P, i);
    ChildrenNameParent(pages, sh, root, a);
    ChildrenNameParent(pages, sh, root, b);
  }

  /** The levels of the parent and of the root are as before. */
  ghost predicate LevelsKept(sh: Shape, sh': Shape, P: nat, root: nat) {
    && P in sh.lvl && P in sh'.lvl && sh'.lvl[P] == sh.lvl[P]
    && root in sh.lvl && root in sh'.lvl && sh'.lvl[root] == sh.lvl[root]
  }

  // ---------------------------------------------------------------- borrowing

  /** The joined entries of two siblings, divided anew in m, with the parent's separator changed in memory. */
  lemma ShiftedInternals(pages: map<nat, Page>, node: Page, pages': map<nat, Page>, parent: Page, root: nat, nPage: nat, firstFree: nat,
      sh: Shape, chain: seq<nat>, free: seq<nat>, contents: map<Key, Row>, x: nat, P: nat, i: nat, j: nat) returns (sh': Shape)
    requires InternalEdited(pages, node, root, nPage, firstFree, sh, chain, free, contents, x)
    requires InternalSiblings(pages[x := node], P, i, j)
    requires x == pages[x := node][P].entries[i].child || x == pages[x := node][P].entries[i+1].child
    requires IsInternal(pages', P) && parent.Internal? && parent.parent == pages'[P].parent
    requires ShiftInternalPages(pages[x := node], pages'[P := parent], P, i, j)
    requires 14 <= j <= 54 && 14 <= |Joined2(pages[x := node], P, i)| - j <= 54
    ensures InternalEdited(pages', parent, root, nPage, firstFree, sh', chain, free, contents, P)
    ensures sh'.lvl == sh.lvl
  {
    var V := pages[x := node];
    hide TreeOk, ChainInv, FreeInv, ContentInv, FilledExcept, ShiftInternalPages;
    ShiftInternalSound(V, root, nPage, firstFree, sh, chain, free, contents, x, P, i, j, pages'[P := parent]);
    sh' := ShiftShape(sh, V[P].entries[i].child, V[P].entries[i+1].child, Joined2(V, P, i)[j].key.k);
    ParentEdited(pages', parent, root, nPage, firstFree, sh', chain, free, contents, P);
  }

  /** borrowKeyFromRightInternal moves one child: joined entries are cut one slot later. */
  lemma JoinBorrowRight(left: seq<Entry>, sep: EntryKey, right: seq<Entry>)
    requires |right| > 1
    ensures var js, j := JoinEntries(left, sep, right), |left| + 1;
      && j < |js| && js[..j] == left + [Entry(sep, right[0].child)] && js[j..] == right[1..] && js[j] == right[1]
      && |js| == |left| + |right|
  {
  }

  lemma HasChildParts(front: seq<Entry>, e: Entry, back: seq<Entry>, q: nat)
    ensures HasChild(front + [e], q) <==> HasChild(front, q) || e.child == q
    ensures HasChild([e] + back, q) <==> HasChild(back, q) || e.child == q
  {
    assert (front + [e])[|front|] == e && ([e] + back)[0] == e;
    if HasChild(front, q) {
      var i :| 0 <= i < |front| && front[i].child == q;
      assert (front + [e])[i].child == q;
    }
    if HasChild(back, q) {
      var i :| 0 <= i < |back| && back[i].child == q;
      assert ([e] + back)[i+1].child == q;
    }
    if HasChild([e] + back, q) && e.child != q {
      var i :| 0 <= i < |[e] + back| && ([e] + back)[i].child == q;
      assert back[i-1].child == q;
    }
  }

  /** borrowKeyFromRightInternal's page writes, but for the parent. */
  ghost function BorrowRightPages(pages: map<nat, Page>, p: nat, node: Page, n: nat, sep: EntryKey): map<nat, Page>
    requires node.Internal? && IsInternal(pages, n) && |pages[n].entries| > 1 && IsTreePage(pages, pages[n].entries[0].child)
  {
    var c := pages[n].entries[0].child;
    pages[c := pages[c].(parent := p)]
         [n := pages[n].(entries := pages[n].entries[1..])]
         [p := node.(entries := node.entries + [Entry(sep, c)])]
  }

  lemma BorrowRightWrites(pages: map<nat, Page>, node: Page, sh: Shape, root: nat, p: nat, P: nat, i: nat)
    requires node.Internal? && TreeOk(pages[p := node], sh, root)
    requires IsInternal(pages, p) && node.parent == P
    requires var V := pages[p := node];
      && IsInternal(V, P) && i + 1 < |V[P].entries| && V[P].entries[i].child == p
      && IsInternal(V, V[P].entries[i+1].child) && |V[V[P].entries[i+1].child].entries| > 1
      && V[V[P].entries[i+1].child].entries[1].key.IntKey?
    ensures var V := pages[p := node];
      var n, sep := V[P].entries[i+1].child, V[P].entries[i+1].key;
      && InternalSiblings(V, P, i, |node.entries| + 1)
      && |Joined2(V, P, i)| == |node.entries| + |V[n].entries|
      && n != p && P != p && P != n && IsInternal(pages, n) && IsTreePage(pages, pages[n].entries[0].child)
      && var m := BorrowRightPages(pages, p, node, n, sep);
         && IsInternal(m, P) && m[P] == pages[P]
         && ShiftInternalPages(V, m[P := pages[P].(entries := WithKey(pages[P].entries, i + 1, pages[n].entries[1].key.k))], P, i, |node.entries| + 1)
  {
    var V := pages[p := node];
    var es := V[P].entries;
    var n, sep := es[i+1].child, es[i+1].key;
    var ea, eb := node.entries, V[n].entries;
    SiblingsFacts(V, sh, root, P, i);
    PairChildren(V, sh, root, P, i);
    JoinBorrowRight(ea, sep, eb);
    var c := eb[0].child;
    assert HasChild(eb, c);
    assert eb == [eb[0]] + eb[1..];
    var j := |ea| + 1;
    var js := Joined2(V, P, i);
    var m := BorrowRightPages(pages, p, node, n, sep);
    forall q | q in V && q != p && q != n && q != P
      ensures m[q] == if V[q].Free? then V[q]
                      else if HasChild(js[..j], q) then V[q].(parent := p)
                      else if HasChild(js[j..], q) then V[q].(parent := n)
                      else V[q]
    {
      HasChildParts(ea, Entry(sep, c), eb[1..], q);
      HasChildParts(ea, eb[0], eb[1..], q);
      if q == c { assert HasChild(js[..j], q); }
    }
  }

  /** borrowKeyFromRightInternal. */
  lemma BorrowRightInternalDone(pages: map<nat, Page>, node: Page, root: nat, nPage: nat, firstFree: nat,
      sh: Shape, chain: seq<nat>, free: seq<nat>, contents: map<Key, Row>, p: nat, i: nat) returns (sh': Shape)
    requires InternalEdited(pages, node, root, nPage, firstFree, sh, chain, free, contents, p) && p != root
    requires |node.entries| <= 27
    requires IsInternal(pages, node.parent) && i + 1 < |pages[node.parent].entries| && pages[node.parent].entries[i].child == p
    requires node.parent != p && IsInternal(pages, pages[node.parent].entries[i+1].child)
    requires |pages[pages[node.parent].entries[i+1].child].entries| >= 28
    ensures node.Internal? && LevelsKept(sh, sh', node.parent, root)
    ensures var es := pages[node.parent].entries;
      var n := es[i+1].child;
      && n != p && n != node.parent && es[i+1].key.IntKey?
      && IsTreePage(pages, pages[n].entries[0].child) && pages[n].entries[1].key.IntKey?
      && pages[n].entries[0].child != n && pages[n].entries[0].child != p
      && InternalEdited(BorrowRightPages(pages, p, node, n, es[i+1].key),
           pages[node.parent].(entries := WithKey(es, i + 1, pages[n].entries[1].key.k)),
           root, nPage, firstFree, sh', chain, free, contents, node.parent)
  {
    var P := node.parent;
    var V := pages[p := node];
    var n := pages[P].entries[i+1].child;
    if n == p { SlotUnique(V, sh, root, P, i, i + 1); }
    assert IsTreePage(V, P) && IsTreePage(V, root);
    InternalPairFacts(V, sh, root, p, P, i);
    PairChildren(V, sh, root, P, i);
    assert HasChild(V[n].entries, V[n].entries[0].child);
    BorrowRightWrites(pages, node, sh, root, p, P, i);
    hide TreeOk, ChainInv, FreeInv, ContentInv, FilledExcept, ShiftInternalPages, BorrowRightPages, Joined2;
    sh' := ShiftedInternals(pages, node, BorrowRightPages(pages, p, node, n, pages[P].entries[i+1].key),
      pages[P].(entries := WithKey(pages[P].entries, i + 1, pages[n].entries[1].key.k)),
      root, nPage, firstFree, sh, chain, free, contents, p, P, i, |node.entries| + 1);
  }

  /** borrowKeyFromLeftInternal moves one child: joined entries are cut one slot earlier. */
  lemma JoinBorrowLeft(left: seq<Entry>, sep: EntryKey, right: seq<Entry>)
    requires |left| > 1 && |right| > 0
    ensures var js, j := JoinEntries(left, sep, right), |left| - 1;
      && 0 < j < |js| && js[..j] == left[..j] && js[j..] == [left[j]] + [Entry(sep, right[0].child)] + right[1..] && js[j] == left[j]
      && |js| == |left| + |right|
  {
  }

  /** The edited page's entries after it borrowed entry e from the page before it. */
  function BorrowedLeft(es: seq<Entry>, sep: EntryKey, key: EntryKey, child: nat): seq<Entry>
    requires |es| > 0
  {
    [Entry(key, child)] + es[0 := es[0].(key := sep)]
  }

  /** borrowKeyFromLeftInternal's page writes, but for the parent; key is what the new first entry gets as its key. */
  ghost function BorrowLeftPages(pages: map<nat, Page>, p: nat, node: Page, n: nat, sep: EntryKey, key: EntryKey): map<nat, Page>
    requires node.Internal? && |node.entries| > 0
    requires IsInternal(pages, n) && |pages[n].entries| > 0 && IsTreePage(pages, pages[n].entries[|pages[n].entries|-1].child)
  {
    var last := |pages[n].entries| - 1;
    var c := pages[n].entries[last].child;
    pages[c := pages[c].(parent := p)]
         [n := pages[n].(entries := pages[n].entries[..last])]
         [p := node.(entries := BorrowedLeft(node.entries, sep, key, c))]
  }

  lemma BorrowLeftWrites(pages: map<nat, Page>, node: Page, sh: Shape, root: nat, p: nat, P: nat, i: nat)
    requires node.Internal? && TreeOk(pages[p := node], sh, root) && |node.entries| > 0
    requires IsInternal(pages, p) && node.parent == P
    requires var V := pages[p := node];
      && IsInternal(V, P) && i + 1 < |V[P].entries| && V[P].entries[i+1].child == p
      && IsInternal(V, V[P].entries[i].child) && |V[V[P].entries[i].child].entries| > 1
      && V[V[P].entries[i].child].entries[|V[V[P].entries[i].child].entries|-1].key.IntKey?
    ensures var V := pages[p := node];
      var n, sep := V[P].entries[i].child, V[P].entries[i+1].key;
      var last := |V[n].entries| - 1;
      && InternalSiblings(V, P, i, last)
      && |Joined2(V, P, i)| == |node.entries| + |V[n].entries|
      && n != p && P != p && P != n && IsInternal(pages, n) && IsTreePage(pages, pages[n].entries[last].child)
      && var key := pages[n].entries[last].key;
         var m := BorrowLeftPages(pages, p, node, n, sep, key);
         && IsInternal(m, P) && m[P] == pages[P]
         && ShiftInternalPages(V, m[P := pages[P].(entries := WithKey(pages[P].entries, i + 1, key.k))], P, i, last)
  {
    hide TreeOk;
    var V := pages[p := node];
    var es := V[P].entries;
    var n, sep := es[i].child, es[i+1].key;
    var ea, eb := V[n].entries, node.entries;
    SiblingsFacts(V, sh, root, P, i);
    PairChildren(V, sh, root, P, i);
    JoinBorrowLeft(ea, sep, eb);
    var j := |ea| - 1;
    var c := ea[j].child;
    assert HasChild(ea, c);
    assert ea == ea[..j] + [ea[j]];
    assert eb == [eb[0]] + eb[1..];
    var js := Joined2(V, P, i);
    assert js[j..] == [ea[j]] + ([Entry(sep, eb[0].child)] + eb[1..]);
    assert BorrowedLeft(eb, sep, ea[j].key, c) == js[j..];
    var m := BorrowLeftPages(pages, p, node, n, sep, ea[j].key);
    forall q | q in V && q != p && q != n && q != P
      ensures m[q] == if V[q].Free? then V[q]
                      else if HasChild(js[..j], q) then V[q].(parent := n)
                      else if HasChild(js[j..], q) then V[q].(parent := p)
                      else V[q]
    {
      HasChildParts(ea[..j], ea[j], [Entry(sep, eb[0].child)] + eb[1..], q);
      HasChildParts([], Entry(sep, eb[0].child), eb[1..], q);
      HasChildParts([], eb[0], eb[1..], q);
      if q == c && HasChild(ea[..j], c) {
        var u :| 0 <= u < j && ea[..j][u].child == c;
        SlotUnique(V, sh, root, n, u, j);
        assert false;
      }
    }
  }

  lemma FirstKeySound(pages: map<nat, Page>, root: nat, nPage: nat, firstFree: nat,
      sh: Shape, chain: seq<nat>, free: seq<nat>, contents: map<Key, Row>, x: nat, p: nat, key: EntryKey)
    requires SoundExcept(pages, root, nPage, firstFree, sh, chain, free, contents, x)
    requires IsInternal(pages, p) && |pages[p].entries| > 0
    ensures SoundExcept(pages[p := pages[p].(entries := pages[p].entries[0 := pages[p].entries[0].(key := key)])],
              root, nPage, firstFree, sh, chain, free, contents, x)
  {
    var m := pages[p := pages[p].(entries := pages[p].entries[0 := pages[p].entries[0].(key := key)])];
    FirstKeyUnused(pages, sh, root, p, key);
    FrameLeaves(pages, sh, root, m, sh, chain, contents);
    FrameFree(pages, m, nPage, firstFree, free, 0);
    forall q | IsTreePage(m, q) && q != x
      ensures Filled(m[q], q == root)
    {
      assert Filled(pages[q], q == root);
    }
  }

  /** Only the key of the new first entry depends on what it is given. */
  lemma BorrowLeftFirstKey(pages: map<nat, Page>, p: nat, node: Page, n: nat, sep: EntryKey, key: EntryKey, P: nat, parent: Page)
    requires node.Internal? && |node.entries| > 0 && P != p
    requires IsInternal(pages, n) && |pages[n].entries| > 0 && IsTreePage(pages, pages[n].entries[|pages[n].entries|-1].child)
    ensures var m := BorrowLeftPages(pages, p, node, n, sep, key)[P := parent];
      && IsInternal(m, p) && |m[p].entries| > 0
      && BorrowLeftPages(pages, p, node, n, sep, NoKey)[P := parent] ==
           m[p := m[p].(entries := m[p].entries[0 := m[p].entries[0].(key := NoKey)])]
  {
    var c := pages[n].entries[|pages[n].entries|-1].child;
    assert BorrowedLeft(node.entries, sep, NoKey, c) == BorrowedLeft(node.entries, sep, key, c)[0 := Entry(NoKey, c)];
  }

  /** What a borrow from the left finds, and that it moves the boundary between the two pages by one. */
  lemma BorrowLeftFacts(pages: map<nat, Page>, node: Page, root: nat, nPage: nat, firstFree: nat,
      sh: Shape, chain: seq<nat>, free: seq<nat>, contents: map<Key, Row>, p: nat, i: nat)
    requires InternalEdited(pages, node, root, nPage, firstFree, sh, chain, free, contents, p) && p != root
    requires |node.entries| <= 27
    requires IsInternal(pages, node.parent) && i + 1 < |pages[node.parent].entries| && pages[node.parent].entries[i+1].child == p
    requires node.parent != p && IsInternal(pages, pages[node.parent].entries[i].child)
    requires |pages[pages[node.parent].entries[i].child].entries| >= 28
    ensures node.Internal? && |node.entries| > 0 && LevelsKept(sh, sh, node.parent, root)
    ensures var es, P, V := pages[node.parent].entries, node.parent, pages[p := node];
      var n, last := es[i].child, |pages[es[i].child].entries| - 1;
      && n != p && n != P && es[i+1].key.IntKey?
      && IsTreePage(pages, pages[n].entries[last].child) && pages[n].entries[last].key.IntKey?
      && pages[n].entries[last].child != n && pages[n].entries[last].child != p
      && IsInternal(V, P) && V[P].entries == es && InternalSiblings(V, P, i, last)
      && 14 <= last <= 54 && 14 <= |Joined2(V, P, i)| - last <= 54
      && var m := BorrowLeftPages(pages, p, node, n, es[i+1].key, pages[n].entries[last].key);
         && IsInternal(m, P) && m[P] == pages[P]
         && ShiftInternalPages(V, m[P := pages[P].(entries := WithKey(es, i + 1, pages[n].entries[last].key.k))], P, i, last)
  {
    hide ChainInv, FreeInv, ContentInv;
    var P, V := node.parent, pages[p := node];
    var n := pages[P].entries[i].child;
    if n == p { SlotUnique(V, sh, root, P, i, i + 1); }
    assert IsTreePage(V, P) && IsTreePage(V, root);
    var last := |pages[n].entries| - 1;
    InternalPairFacts(V, sh, root, p, P, i);
    PairChildren(V, sh, root, P, i);
    assert HasChild(V[n].entries, V[n].entries[last].child);
    BorrowLeftWrites(pages, node, sh, root, p, P, i);
  }

  /** The key of the new first entry does not matter. */
  lemma FirstKeyEdited(pages: map<nat, Page>, p: nat, node: Page, n: nat, sep: EntryKey, key: EntryKey, P: nat, parent: Page,
      root: nat, nPage: nat, firstFree: nat, sh: Shape, chain: seq<nat>, free: seq<nat>, contents: map<Key, Row>)
    requires node.Internal? && |node.entries| > 0 && P != p && P != n
    requires IsInternal(pages, n) && |pages[n].entries| > 0 && IsTreePage(pages, pages[n].entries[|pages[n].entries|-1].child)
    requires InternalEdited(BorrowLeftPages(pages, p, node, n, sep, key), parent, root, nPage, firstFree, sh, chain, free, contents, P)
    ensures InternalEdited(BorrowLeftPages(pages, p, node, n, sep, NoKey), parent, root, nPage, firstFree, sh, chain, free, contents, P)
  {
    hide SoundExcept;
    var m := BorrowLeftPages(pages, p, node, n, sep, key);
    BorrowLeftFirstKey(pages, p, node, n, sep, key, P, parent);
    FirstKeySound(m[P := parent], root, nPage, firstFree, sh, chain, free, contents, P, p, NoKey);
  }

  /** borrowKeyFromLeftInternal. */
  lemma BorrowLeftInternalDone(pages: map<nat, Page>, node: Page, root: nat, nPage: nat, firstFree: nat,
      sh: Shape, chain: seq<nat>, free: seq<nat>, contents: map<Key, Row>, p: nat, i: nat) returns (sh': Shape)
    requires InternalEdited(pages, node, root, nPage, firstFree, sh, chain, free, contents, p) && p != root
    requires |node.entries| <= 27
    requires IsInternal(pages, node.parent) && i + 1 < |pages[node.parent].entries| && pages[node.parent].entries[i+1].child == p
    requires node.parent != p && IsInternal(pages, pages[node.parent].entries[i].child)
    requires |pages[pages[node.parent].entries[i].child].entries| >= 28
    ensures node.Internal? && LevelsKept(sh, sh', node.parent, root)
    ensures var es := pages[node.parent].entries;
      var n := es[i].child;
      var last := |pages[n].entries| - 1;
      && n != p && n != node.parent && es[i+1].key.IntKey?
      && IsTreePage(pages, pages[n].entries[last].child) && pages[n].entries[last].key.IntKey?
      && pages[n].entries[last].child != n && pages[n].entries[last].child != p
      && InternalEdited(BorrowLeftPages(pages, p, node, n, es[i+1].key, NoKey),
           pages[node.parent].(entries := WithKey(es, i + 1, pages[n].entries[last].key.k)),
           root, nPage, firstFree, sh', chain, free, contents, node.parent)
  {
    hide InternalEdited, TreeOk, ShiftInternalPages, BorrowLeftPages, Joined2, InternalSiblings;
    BorrowLeftFacts(pages, node, root, nPage, firstFree, sh, chain, free, contents, p, i);
    var P := node.parent;
    var es := pages[P].entries;
    var n, last := es[i].child, |pages[es[i].child].entries| - 1;
    var key, parent := pages[n].entries[last].key, pages[P].(entries := WithKey(es, i + 1, pages[n].entries[last].key.k));
    sh' := ShiftedInternals(pages, node, BorrowLeftPages(pages, p, node, n, es[i+1].key, key), parent,
      root, nPage, firstFree, sh, chain, free, contents, p, P, i, last);
    FirstKeyEdited(pages, p, node, n, es[i+1].key, key, P, parent, root, nPage, firstFree, sh', chain, free, contents);
  }

  // ---------------------------------------------------------------- merging

  /** The pages that an internal merge writes, but for the parent: the moved children (in r), the freed d, and s. */
  ghost function InternalMergePages(r: map<nat, Page>, s: nat, left: Page, sep: EntryKey, d: nat, right: Page, firstFree: nat): map<nat, Page>
    requires left.Internal? && right.Internal? && |right.entries| > 0
  {
    r[d := Free(firstFree)][s := left.(entries := JoinEntries(left.entries, sep, right.entries))]
  }

  /** Page x, edited in memory to node, and its neighbour hang in slots i and i + 1 of P; r has d's children moved to s. */
  ghost predicate InternalMergeReady(pages: map<nat, Page>, r: map<nat, Page>, node: Page, x: nat, P: nat, i: nat) {
    && node.Internal? && IsInternal(pages, x) && P != x
    && var V := pages[x := node];
       && IsInternal(V, P) && i + 1 < |V[P].entries|
       && var s, d := V[P].entries[i].child, V[P].entries[i+1].child;
          && IsInternal(V, s) && IsInternal(V, d) && (x == s || x == d)
          && |V[d].entries| > 0
          && Reparented(pages, r, V[d].entries, s)
  }

  lemma InternalMergeWrites(pages: map<nat, Page>, r: map<nat, Page>, node: Page, sh: Shape, root: nat, x: nat, P: nat, i: nat, firstFree: nat)
    requires InternalMergeReady(pages, r, node, x, P, i) && TreeOk(pages[x := node], sh, root)
    ensures var V := pages[x := node];
      var s, d, sep := V[P].entries[i].child, V[P].entries[i+1].child, V[P].entries[i+1].key;
      var m := InternalMergePages(r, s, V[s], sep, d, V[d], firstFree);
      && Siblings(V, P, i, s, d)
      && IsInternal(m, P) && m[P] == pages[P]
      && MergePages(V, m[P := pages[P].(entries := WithoutSlot(pages[P].entries, i + 1))], P, i, s, d)
  {
    hide TreeOk, JoinEntries, MergeSlot, WithoutSlot;
    var V := pages[x := node];
    var s, d := V[P].entries[i].child, V[P].entries[i+1].child;
    MergePairFacts(V, sh, root, P, i);
    WithoutSlotMerges(pages[P].entries, i);
    MergedPagesOf(pages, V, r, x, P, s, d, V[P].entries[i+1].key, firstFree);
  }

  lemma MergePairFacts(pages: map<nat, Page>, sh: Shape, root: nat, P: nat, i: nat)
    requires TreeOk(pages, sh, root) && IsInternal(pages, P) && i + 1 < |pages[P].entries|
    requires IsInternal(pages, pages[P].entries[i].child) && IsInternal(pages, pages[P].entries[i+1].child)
    ensures var s, d := pages[P].entries[i].child, pages[P].entries[i+1].child;
      && Siblings(pages, P, i, s, d)
      && pages[s].parent == P && !HasChild(pages[d].entries, P) && !HasChild(pages[d].entries, s) && !HasChild(pages[d].entries, d)
  {
    hide Covers, Attached, Within;
    SiblingsFacts(pages, sh, root, P, i);
    PairChildren(pages, sh, root, P, i);
  }

  /** An internal merge changes the parent's links of d's children, d, and s. */
  lemma MergedPagesOf(pages: map<nat, Page>, V: map<nat, Page>, r: map<nat, Page>, x: nat, P: nat, s: nat, d: nat, sep: EntryKey,
      firstFree: nat)
    requires x in V && V == pages[x := V[x]] && (x == s || x == d)
    requires IsInternal(V, s) && IsInternal(V, d) && IsInternal(V, P) && s != d && P != s && P != d && |V[d].entries| > 0
    requires Reparented(pages, r, V[d].entries, s) && !HasChild(V[d].entries, P) && !HasChild(V[d].entries, s)
    ensures var m := InternalMergePages(r, s, V[s], sep, d, V[d], firstFree);
      && P in m && m[P] == V[P] && d in m && m[d].Free? && s in m
      && m[s] == V[s].(entries := JoinEntries(V[s].entries, sep, V[d].entries))
      && (forall q | q != s && q != d && q != P :: q in m <==> q in V)
      && forall q | q != s && q != d && q != P && q in V ::
           q in m && m[q] == if HasChild(V[d].entries, q) && !V[q].Free? then V[q].(parent := s) else V[q]
  {
    hide JoinEntries, HasChild;
  }

  lemma InternalMergeFree(pages: map<nat, Page>, r: map<nat, Page>, node: Page, x: nat, P: nat, i: nat, parent: Page,
      nPage: nat, firstFree: nat, free: seq<nat>)
    requires InternalMergeReady(pages, r, node, x, P, i) && parent.Internal?
    requires FreeInv(pages[x := node], nPage, firstFree, free)
    requires pages[x := node][P].entries[i].child != pages[x := node][P].entries[i+1].child
    requires P != pages[x := node][P].entries[i].child && P != pages[x := node][P].entries[i+1].child
    ensures var V := pages[x := node];
      var s, d, sep := V[P].entries[i].child, V[P].entries[i+1].child, V[P].entries[i+1].key;
      FreeInv(InternalMergePages(r, s, V[s], sep, d, V[d], firstFree)[P := parent], nPage, d, [d] + free)
  {
    var V := pages[x := node];
    var s, d, sep := V[P].entries[i].child, V[P].entries[i+1].child, V[P].entries[i+1].key;
    MergeInternalFree(V, InternalMergePages(r, s, V[s], sep, d, V[d], firstFree)[P := parent], nPage, firstFree, free, d);
  }

  /** mergeInternalNode of the page in slot i + 1 into the one in slot i, one of them edited in memory. */
  lemma MergeInternalDone(pages: map<nat, Page>, r: map<nat, Page>, node: Page, root: nat, nPage: nat, firstFree: nat,
      sh: Shape, chain: seq<nat>, free: seq<nat>, contents: map<Key, Row>, x: nat, P: nat, i: nat) returns (sh': Shape)
    requires InternalEdited(pages, node, root, nPage, firstFree, sh, chain, free, contents, x) && x != root
    requires P == node.parent && InternalMergeReady(pages, r, node, x, P, i)
    requires var V := pages[x := node];
      |V[V[P].entries[i].child].entries| <= 27 && |V[V[P].entries[i+1].child].entries| <= 27
    ensures LevelsKept(sh, sh', P, root)
    ensures var V := pages[x := node];
      var s, d, sep := V[P].entries[i].child, V[P].entries[i+1].child, V[P].entries[i+1].key;
      InternalEdited(InternalMergePages(r, s, V[s], sep, d, V[d], firstFree),
        pages[P].(entries := WithoutSlot(pages[P].entries, i + 1)), root, nPage, d, sh', chain, [d] + free, contents, P)
  {
    hide TreeOk, ChainInv, FreeInv, ContentInv, FilledExcept, MergePages, InternalMergePages, Reparented, MergeSlot;
    var V := pages[x := node];
    var s, d, sep := V[P].entries[i].child, V[P].entries[i+1].child, V[P].entries[i+1].key;
    var parent := pages[P].(entries := WithoutSlot(pages[P].entries, i + 1));
    var m := InternalMergePages(r, s, V[s], sep, d, V[d], firstFree);
    InternalPairFacts(V, sh, root, x, P, i);
    LevelsOfTree(V, sh, root, P);
    InternalMergeWrites(pages, r, node, sh, root, x, P, i, firstFree);
    InternalMergeFree(pages, r, node, x, P, i, parent, nPage, firstFree, free);
    ParentFilled(V, sh, root, P, x);
    MergeInternalSound(V, root, nPage, firstFree, d, sh, chain, free, [d] + free, contents, x, P, i, m[P := parent]);
    sh' := MergeShape(sh, s, d);
  }

  lemma LevelsOfTree(pages: map<nat, Page>, sh: Shape, root: nat, P: nat)
    requires TreeOk(pages, sh, root) && IsInternal(pages, P)
    ensures P in sh.lvl && root in sh.lvl && P in sh.keys && root in sh.keys
    ensures forall p :: (p in sh.lvl <==> p in sh.keys)
  {
    assert IsTreePage(pages, P) && IsTreePage(pages, root);
  }

  lemma MergeInternalFree(pages: map<nat, Page>, m: map<nat, Page>, nPage: nat, firstFree: nat, free: seq<nat>, d: nat)
    requires FreeInv(pages, nPage, firstFree, free) && IsTreePage(pages, d)
    requires d in m && m[d] == Free(firstFree)
    requires forall q :: q in m <==> q in pages
    requires forall q | q in pages && q != d :: q in m && (m[q] == pages[q] || (IsTreePage(pages, q) && IsTreePage(m, q)))
    ensures FreeInv(m, nPage, d, [d] + free)
  {
    FreePush(pages, nPage, firstFree, free, d);
    FrameFree(pages[d := Free(firstFree)], m, nPage, d, [d] + free, 0);
  }

  // ---------------------------------------------------------------- the other steps

  /** removeFromInternal: the separator becomes the first key of the leftmost leaf behind it. */
  lemma RefreshDone(pages: map<nat, Page>, node: Page, root: nat, nPage: nat, firstFree: nat,
      sh: Shape, chain: seq<nat>, free: seq<nat>, contents: map<Key, Row>, p: nat, i: nat, l: nat)
    requires InternalEdited(pages, node, root, nPage, firstFree, sh, chain, free, contents, p)
    requires 1 <= i < |node.entries|
    requires IsLeaf(pages[p := node], l) && FirstLeaf(sh, node.entries[i].child, l) && pages[p := node][l].rows != []
    ensures InternalEdited(pages, node.(entries := WithKey(node.entries, i, pages[p := node][l].rows[0].key)),
              root, nPage, firstFree, sh, chain, free, contents, p)
  {
    var V := pages[p := node];
    var k := V[l].rows[0].key;
    assert PageOk(V, sh, l);
    assert k in KeySet(V[l].rows);
    ChildrenOrdered(V, sh, root, p, i - 1, i);
    RefreshSound(V, root, nPage, firstFree, sh, chain, free, contents, p, p, i, k);
    assert V[p := V[p].(entries := WithKey(V[p].entries, i, k))] == pages[p := node.(entries := WithKey(node.entries, i, k))];
  }

  ghost predicate LeavesHaveRows(pages: map<nat, Page>) {
    forall l | IsLeaf(pages, l) :: pages[l].rows != []
  }

  /** The pages below an edited internal page are as stored, and all its leaves have rows. */
  lemma RefreshReady(pages: map<nat, Page>, node: Page, root: nat, nPage: nat, firstFree: nat,
      sh: Shape, chain: seq<nat>, free: seq<nat>, contents: map<Key, Row>, p: nat)
    requires InternalEdited(pages, node, root, nPage, firstFree, sh, chain, free, contents, p)
    ensures TreeOk(pages[p := node], sh, root) && RealKeys(node.entries) && Increasing(node.entries)
    ensures forall i | 0 <= i < |node.entries| ::
              && IsTreePage(pages[p := node], node.entries[i].child)
              && node.entries[i].child != 0
              && sh.lvl[node.entries[i].child] < sh.lvl[p]
    ensures LeavesHaveRows(pages[p := node])
  {
    var V := pages[p := node];
    EntriesIncrease(V, sh, root, p);
    forall i | 0 <= i < |node.entries|
      ensures IsTreePage(V, node.entries[i].child) && node.entries[i].child != 0 && sh.lvl[node.entries[i].child] < sh.lvl[p]
    {
      var w := ChildKey(V, sh, root, p, i);
    }
    forall l | IsLeaf(V, l)
      ensures V[l].rows != []
    {
      if l == root { RootLeafAlone(V, sh, root, p); }
      assert Filled(V[l], false);
    }
  }

  /** An internal page that is not underfull, or a root with two children, needs no repair. */
  lemma InternalKept(pages: map<nat, Page>, node: Page, root: nat, nPage: nat, firstFree: nat,
      sh: Shape, chain: seq<nat>, free: seq<nat>, contents: map<Key, Row>, p: nat)
    requires InternalEdited(pages, node, root, nPage, firstFree, sh, chain, free, contents, p)
    requires if p == root then |node.entries| >= 2 else |node.entries| >= 28
    ensures Sound(pages[p := node], root, nPage, firstFree, sh, chain, free, contents)
    ensures node.parent == 0 <==> p == root
    ensures p != root ==>
              && IsInternal(pages, node.parent) && node.parent != p
              && InternalEdited(pages[p := node], pages[node.parent], root, nPage, firstFree, sh, chain, free, contents, node.parent)
  {
    var V := pages[p := node];
    assert Attached(V, sh, root, p);
    AllFilled(V, root, nPage, firstFree, sh, chain, free, contents, p);
    if p != root {
      var P, i := ParentSlot(V, sh, root, p);
      assert V[P := pages[P]] == V;
      hide FreeInv, ContentInv, ChainInv, PageOk, Attached, SlotOk;
      SoundToExcept(V, root, nPage, firstFree, sh, chain, free, contents);
      ParentEdited(V, pages[P], root, nPage, firstFree, sh, chain, free, contents, P);
    }
  }

  /** The level of the next page up. */
  lemma LevelUp(pages: map<nat, Page>, node: Page, root: nat, nPage: nat, firstFree: nat,
      sh: Shape, chain: seq<nat>, free: seq<nat>, contents: map<Key, Row>, p: nat)
    requires InternalEdited(pages, node, root, nPage, firstFree, sh, chain, free, contents, p)
    ensures p in sh.lvl && root in sh.lvl && sh.lvl[p] <= sh.lvl[root] && root != 0
    ensures p != root ==> node.parent in sh.lvl && sh.lvl[node.parent] == sh.lvl[p] + 1 <= sh.lvl[root]
    ensures |node.entries| > 0 && RealKeys(node.entries)
  {
    var V := pages[p := node];
    assert Attached(V, sh, root, p);
    assert PageOk(V, sh, p);
    if p != root { var P, i := ParentSlot(V, sh, root, p); }
  }

  /** A root with one child is replaced by that child. */
  lemma CollapseDone(pages: map<nat, Page>, node: Page, root: nat, nPage: nat, firstFree: nat,
      sh: Shape, chain: seq<nat>, free: seq<nat>, contents: map<Key, Row>)
    requires InternalEdited(pages, node, root, nPage, firstFree, sh, chain, free, contents, root)
    requires |node.entries| == 1
    ensures var c := node.entries[0].child;
      && IsTreePage(pages, c) && c != root
      && Sound(pages[root := Free(firstFree)][c := pages[c].(parent := 0)], c, nPage, root, ShapeMinus(sh, root), chain, [root] + free, contents)
  {
    var V := pages[root := node];
    var c := node.entries[0].child;
    var w := ChildKey(V, sh, root, root, 0);
    var m := pages[root := Free(firstFree)][c := pages[c].(parent := 0)];
    FreePush(V, nPage, firstFree, free, root);
    FrameFree(V[root := Free(firstFree)], m, nPage, root, [root] + free, 0);
    hide FreeInv, ContentInv, ChainInv, FilledExcept, PageOk, Attached, SlotOk;
    CollapseSound(V, root, nPage, firstFree, root, sh, chain, free, [root] + free, contents, m);
  }

  /** The siblings that removeBtree looks up for an underfull internal page. */
  lemma InternalNeighbours(pages: map<nat, Page>, node: Page, root: nat, nPage: nat, firstFree: nat,
      sh: Shape, chain: seq<nat>, free: seq<nat>, contents: map<Key, Row>, p: nat) returns (i: nat)
    requires InternalEdited(pages, node, root, nPage, firstFree, sh, chain, free, contents, p) && p != root
    ensures var es := if node.parent in pages && pages[node.parent].Internal? then pages[node.parent].entries else [];
      && IsInternal(pages, p) && IsInternal(pages, node.parent) && node.parent != p && node.parent != 0
      && |es| >= 2 && i < |es| && es[i].child == p && RealKeys(es) && Increasing(es)
      && |node.entries| >= 2 && node.entries[1].key.IntKey? && Routes(es, node.entries[1].key.k, i)
      && (i + 1 < |es| ==> IsInternal(pages, es[i+1].child) && es[i+1].child != p && RealKeys(pages[es[i+1].child].entries)
                           && |pages[es[i+1].child].entries| > 0)
      && (i > 0 ==> IsInternal(pages, es[i-1].child) && es[i-1].child != p && RealKeys(pages[es[i-1].child].entries)
                    && |pages[es[i-1].child].entries| > 0)
  {
    var V := pages[p := node];
    i := NodeSlot(V, sh, root, p);
    var P := node.parent;
    assert Filled(V[P], P == root);
    assert P in V;
    if i + 1 < |V[P].entries| { InternalPairFacts(V, sh, root, p, P, i); SiblingsFacts(V, sh, root, P, i); }
    if i > 0 { InternalPairFacts(V, sh, root, p, P, i - 1); SiblingsFacts(V, sh, root, P, i - 1); }
  }

  /** The children of the dead page d are stored pages. */
  lemma MergeChildren(pages: map<nat, Page>, node: Page, root: nat, nPage: nat, firstFree: nat,
      sh: Shape, chain: seq<nat>, free: seq<nat>, contents: map<Key, Row>, x: nat, d: nat, es: seq<Entry>)
    requires InternalEdited(pages, node, root, nPage, firstFree, sh, chain, free, contents, x)
    requires IsInternal(pages[x := node], d) && pages[x := node][d].entries == es
    ensures IsInternal(pages, x)
    ensures forall i | 0 <= i < |es| :: IsTreePage(pages, es[i].child)
  {
    var V := pages[x := node];
    assert PageOk(V, sh, d);
    forall i | 0 <= i < |es|
      ensures IsTreePage(pages, es[i].child)
    {
      assert SlotOk(V, sh, d, i);
    }
  }

  /** Only the children named matter to updateParentIndexOfChild. */
  lemma MergeReady(pages: map<nat, Page>, r: map<nat, Page>, node: Page, x: nat, P: nat, i: nat, done: seq<Entry>)
    requires node.Internal? && IsInternal(pages, x) && P != x
    requires var V := pages[x := node];
       && IsInternal(V, P) && i + 1 < |V[P].entries|
       && var s, d := V[P].entries[i].child, V[P].entries[i+1].child;
          && IsInternal(V, s) && IsInternal(V, d) && (x == s || x == d)
          && |V[d].entries| > 0
          && |done| == |V[d].entries| && (forall j | 0 <= j < |done| :: done[j].child == V[d].entries[j].child)
          && Reparented(pages, r, done, s)
    ensures InternalMergeReady(pages, r, node, x, P, i)
  {
    var V := pages[x := node];
    var right := V[V[P].entries[i+1].child].entries;
    forall q
      ensures HasChild(done, q) <==> HasChild(right, q)
    {
      if HasChild(done, q) {
        var j :| 0 <= j < |done| && done[j].child == q;
        assert right[j].child == q;
      }
      if HasChild(right, q) {
        var j :| 0 <= j < |right| && right[j].child == q;
        assert done[j].child == q;
      }
    }
  }
}
