/** What the pages of one clustered table must satisfy between operations. */
module TreeInvariant {
  import opened Pages

  /** Ghost bookkeeping: the height of every tree page above the leaves, and the set of row keys below it. */
  datatype Shape = Shape(lvl: map<nat, nat>, keys: map<nat, set<Key>>)

  ghost predicate IsTreePage(pages: map<nat, Page>, p: nat) {
    p in pages && !pages[p].Free?
  }

  ghost predicate IsLeaf(pages: map<nat, Page>, p: nat) {
    p in pages && pages[p].Leaf?
  }

  ghost predicate IsInternal(pages: map<nat, Page>, p: nat) {
    p in pages && pages[p].Internal?
  }

  ghost function KeySet(rows: seq<Row>): set<Key> {
    set i | 0 <= i < |rows| :: rows[i].key
  }

  ghost predicate SortedRows(rows: seq<Row>) {
    forall i, j | 0 <= i < j < |rows| :: rows[i].key < rows[j].key
  }

  /** Index 0 is no page (it stands for "none"), and the bookkeeping covers exactly the tree pages. */
  ghost predicate Dom(pages: map<nat, Page>, sh: Shape) {
    && 0 !in pages
    && (forall p :: p in sh.lvl <==> IsTreePage(pages, p))
    && (forall p :: p in sh.keys <==> IsTreePage(pages, p))
  }

  /** All of s lie at or above the separator in front of slot i and below the one after it. */
  ghost predicate Within(es: seq<Entry>, i: nat, s: set<Key>)
    requires i < |es| && RealKeys(es)
  {
    && (i > 0 ==> forall k | k in s :: es[i].key.k <= k)
    && (i + 1 < |es| ==> forall k | k in s :: k < es[i+1].key.k)
  }

  /** Slot i of internal page p: parent link, uniform depth, and the search-tree order. */
  ghost predicate SlotOk(pages: map<nat, Page>, sh: Shape, p: nat, i: nat)
    requires Dom(pages, sh) && IsInternal(pages, p) && i < |pages[p].entries| && RealKeys(pages[p].entries)
  {
    var c := pages[p].entries[i].child;
    && IsTreePage(pages, c)
    && pages[c].parent == p
    && sh.lvl[c] + 1 == sh.lvl[p]
    && sh.keys[c] <= sh.keys[p]
    && Within(pages[p].entries, i, sh.keys[c])
  }

  /** Some slot of es leads to a page whose keys hold k. */
  ghost predicate Covers(sh: Shape, es: seq<Entry>, k: Key) {
    exists i :: 0 <= i < |es| && es[i].child in sh.keys && k in sh.keys[es[i].child]
  }

  ghost predicate InternalOk(pages: map<nat, Page>, sh: Shape, p: nat)
    requires Dom(pages, sh) && IsInternal(pages, p)
  {
    var es := pages[p].entries;
    && |es| > 0
    && sh.lvl[p] > 0
    && RealKeys(es)
    && (forall i {:trigger SlotOk(pages, sh, p, i)} | 0 <= i < |es| :: SlotOk(pages, sh, p, i))
    && (forall k {:trigger Covers(sh, es, k)} | k in sh.keys[p] :: Covers(sh, es, k))
  }

  ghost predicate LeafOk(pages: map<nat, Page>, sh: Shape, p: nat)
    requires Dom(pages, sh) && IsLeaf(pages, p)
  {
    && sh.lvl[p] == 0
    && SortedRows(pages[p].rows)
    && sh.keys[p] == KeySet(pages[p].rows)
  }

  ghost predicate PageOk(pages: map<nat, Page>, sh: Shape, p: nat)
    requires Dom(pages, sh) && IsTreePage(pages, p)
  {
    if pages[p].Leaf? then LeafOk(pages, sh, p) else InternalOk(pages, sh, p)
  }

  ghost predicate HasChild(es: seq<Entry>, c: nat) {
    exists i :: 0 <= i < |es| && es[i].child == c
  }

  /** Every page but the root hangs below the page it names as its parent, and has keys below it. */
  ghost predicate Attached(pages: map<nat, Page>, sh: Shape, root: nat, p: nat)
    requires Dom(pages, sh) && IsTreePage(pages, p) && IsTreePage(pages, root)
  {
    && sh.lvl[p] <= sh.lvl[root]
    && (p == root ==> pages[p].parent == 0)
    && (p != root ==>
          && (exists k :: k in sh.keys[p])
          && IsInternal(pages, pages[p].parent)
          && HasChild(pages[pages[p].parent].entries, p))
  }

  ghost predicate TreeOk(pages: map<nat, Page>, sh: Shape, root: nat) {
    && Dom(pages, sh)
    && IsTreePage(pages, root)
    && (forall p {:trigger PageOk(pages, sh, p)} | IsTreePage(pages, p) :: PageOk(pages, sh, p))
    && (forall p {:trigger Attached(pages, sh, root, p)} | IsTreePage(pages, p) :: Attached(pages, sh, root, p))
  }

  /** The search tree; a table without rows yet has no page and root 0. */
  ghost predicate TreeInv(pages: map<nat, Page>, sh: Shape, root: nat) {
    if root == 0 then
      Dom(pages, sh) && forall p :: !IsTreePage(pages, p)
    else
      TreeOk(pages, sh, root)
  }

  // ---------------------------------------------------------------- leaf chain

  ghost predicate Distinct(s: seq<nat>) {
    forall i, j | 0 <= i < j < |s| :: s[i] != s[j]
  }

  /** The link of position i in a chain of page indices, or 0 outside it. */
  ghost function At(s: seq<nat>, i: int): nat {
    if 0 <= i < |s| then s[i] else 0
  }

  ghost predicate ChainLinks(pages: map<nat, Page>, chain: seq<nat>, i: nat)
    requires i < |chain|
  {
    && IsLeaf(pages, chain[i])
    && pages[chain[i]].prev == At(chain, i - 1)
    && pages[chain[i]].next == At(chain, i + 1)
  }

  ghost predicate Below(a: set<Key>, b: set<Key>) {
    forall x, y | x in a && y in b :: x < y
  }

  /** chain lists the leaves from left to right, and nextLeaf/prevLeaf follow it. */
  ghost predicate ChainInv(pages: map<nat, Page>, sh: Shape, chain: seq<nat>)
    requires Dom(pages, sh)
  {
    && Distinct(chain)
    && (forall p :: p in chain <==> IsLeaf(pages, p))
    && (forall i | 0 <= i < |chain| :: ChainLinks(pages, chain, i))
    && (forall i, j | 0 <= i < j < |chain| :: LeavesBelow(sh, chain[i], chain[j]))
  }

  ghost predicate LeavesBelow(sh: Shape, a: nat, b: nat) {
    a in sh.keys && b in sh.keys && Below(sh.keys[a], sh.keys[b])
  }

  // ---------------------------------------------------------------- free pages

  /** Every index in 1..nPage-1 is a page; the free ones are exactly those on the list that starts at firstFree.
      Index x (if not 0) has been taken for a page that is still to be written. */
  ghost predicate FreeInvExcept(pages: map<nat, Page>, nPage: nat, firstFree: nat, free: seq<nat>, x: nat) {
    && nPage >= 1
    && (forall p :: p in pages || (p == x && x != 0) <==> 1 <= p < nPage)
    && Distinct(free)
    && (forall p :: p in free <==> p in pages && pages[p].Free? && p != x)
    && firstFree == At(free, 0)
    && (forall i | 0 <= i < |free| :: FreeLink(pages, free, i))
  }

  ghost predicate FreeLink(pages: map<nat, Page>, free: seq<nat>, i: nat)
    requires i < |free|
  {
    free[i] in pages && pages[free[i]] == Free(At(free, i + 1))
  }

  ghost predicate FreeInv(pages: map<nat, Page>, nPage: nat, firstFree: nat, free: seq<nat>) {
    FreeInvExcept(pages, nPage, firstFree, free, 0)
  }

  // ---------------------------------------------------------------- contents and fill

  /** contents is the table: its keys are those below the root, and each leaf row is the row stored under its key. */
  ghost predicate ContentInv(pages: map<nat, Page>, sh: Shape, root: nat, contents: map<Key, Row>)
    requires Dom(pages, sh)
  {
    && contents.Keys == (if root in sh.keys then sh.keys[root] else {})
    && (forall p | IsLeaf(pages, p) :: RowsIn(pages[p].rows, contents))
  }

  ghost predicate RowsIn(rows: seq<Row>, contents: map<Key, Row>) {
    forall i | 0 <= i < |rows| :: rows[i].key in contents && contents[rows[i].key] == rows[i]
  }

  /** How full a page is between operations: leaves fit their page, leaves below an internal page hold at
      least seven rows, internal pages have 14 to 54 children and an internal root 2 to 54. */
  ghost predicate Filled(page: Page, isRoot: bool)
    requires !page.Free?
  {
    match page
    case Leaf(_, _, _, rows) =>
      && (!isRoot ==> |rows| >= 7)
      && SmallRows(rows)
      && UsedLeafEdited(rows) <= MAXIMUM_USED_BYTES
    case Internal(_, es) => (if isRoot then 2 else 14) <= |es| <= 54
  }

  /** Every page but x is filled as it must be. */
  ghost predicate FilledExcept(pages: map<nat, Page>, root: nat, x: nat) {
    forall p | IsTreePage(pages, p) && p != x :: Filled(pages[p], p == root)
  }

  // ---------------------------------------------------------------- the whole file

  /** The invariant of a table file with at least one page, but for how full page x is. */
  ghost predicate SoundExcept(pages: map<nat, Page>, root: nat, nPage: nat, firstFree: nat,
      sh: Shape, chain: seq<nat>, free: seq<nat>, contents: map<Key, Row>, x: nat) {
    && TreeOk(pages, sh, root)
    && ChainInv(pages, sh, chain)
    && FreeInv(pages, nPage, firstFree, free)
    && ContentInv(pages, sh, root, contents)
    && FilledExcept(pages, root, x)
  }

  /** The invariant of a table file between operations. */
  ghost predicate Sound(pages: map<nat, Page>, root: nat, nPage: nat, firstFree: nat,
      sh: Shape, chain: seq<nat>, free: seq<nat>, contents: map<Key, Row>) {
    && TreeInv(pages, sh, root)
    && ChainInv(pages, sh, chain)
    && FreeInv(pages, nPage, firstFree, free)
    && ContentInv(pages, sh, root, contents)
    && FilledExcept(pages, root, 0)
  }

  // ---------------------------------------------------------------- consequences

  /** A child of an internal page has a key below it. */
  lemma ChildKey(pages: map<nat, Page>, sh: Shape, root: nat, p: nat, i: nat) returns (w: Key)
    requires TreeOk(pages, sh, root) && IsInternal(pages, p)
    requires i < |pages[p].entries|
    ensures RealKeys(pages[p].entries) && SlotOk(pages, sh, p, i)
    ensures w in sh.keys[pages[p].entries[i].child]
    ensures pages[p].entries[i].child != root && pages[p].entries[i].child != 0
  {
    assert PageOk(pages, sh, p);
    assert SlotOk(pages, sh, p, i);
    var c := pages[p].entries[i].child;
    assert Attached(pages, sh, root, root);
    assert Attached(pages, sh, root, c);
    w :| w in sh.keys[c];
  }

  ghost predicate HasKey(sh: Shape, c: nat) {
    c in sh.keys && exists k :: k in sh.keys[c]
  }

  ghost predicate Increasing(es: seq<Entry>)
    requires RealKeys(es)
  {
    forall i, j | 1 <= i < j < |es| :: es[i].key.k < es[j].key.k
  }

  /** Between two separators there is a key, so the separators increase. */
  lemma {:induction false} SeparatorsBetweenKeys(pages: map<nat, Page>, sh: Shape, p: nat, i: nat, j: nat)
    requires Dom(pages, sh) && IsInternal(pages, p) && InternalOk(pages, sh, p)
    requires forall i | 0 <= i < |pages[p].entries| :: HasKey(sh, pages[p].entries[i].child)
    requires 1 <= i < j < |pages[p].entries|
    ensures pages[p].entries[i].key.k < pages[p].entries[j].key.k
    decreases j
  {
    var es := pages[p].entries;
    assert SlotOk(pages, sh, p, j - 1);
    assert HasKey(sh, es[j-1].child);
    if i < j - 1 {
      SeparatorsBetweenKeys(pages, sh, p, i, j - 1);
    }
  }

  /** Separators of an internal page increase. */
  lemma EntriesIncrease(pages: map<nat, Page>, sh: Shape, root: nat, p: nat)
    requires TreeOk(pages, sh, root) && IsInternal(pages, p)
    ensures RealKeys(pages[p].entries) && Increasing(pages[p].entries)
  {
    var es := pages[p].entries;
    assert PageOk(pages, sh, p);
    forall i | 0 <= i < |es|
      ensures HasKey(sh, es[i].child)
    {
      var w := ChildKey(pages, sh, root, p, i);
    }
    forall i, j | 1 <= i < j < |es|
      ensures es[i].key.k < es[j].key.k
    {
      SeparatorsBetweenKeys(pages, sh, p, i, j);
    }
  }

  lemma SeparatorsIncrease(pages: map<nat, Page>, sh: Shape, root: nat, p: nat, i: nat, j: nat)
    requires TreeOk(pages, sh, root) && IsInternal(pages, p)
    requires 1 <= i < j < |pages[p].entries|
    ensures pages[p].entries[i].key.IntKey? && pages[p].entries[j].key.IntKey?
    ensures pages[p].entries[i].key.k < pages[p].entries[j].key.k
  {
    EntriesIncrease(pages, sh, root, p);
  }

  /** Children in different slots are different pages, and their keys lie in slot order. */
  lemma ChildrenOrdered(pages: map<nat, Page>, sh: Shape, root: nat, p: nat, i: nat, j: nat)
    requires TreeOk(pages, sh, root) && IsInternal(pages, p)
    requires 0 <= i < j < |pages[p].entries|
    ensures IsTreePage(pages, pages[p].entries[i].child) && IsTreePage(pages, pages[p].entries[j].child)
    ensures Below(sh.keys[pages[p].entries[i].child], sh.keys[pages[p].entries[j].child])
    ensures pages[p].entries[i].child != pages[p].entries[j].child
  {
    var v := ChildKey(pages, sh, root, p, i);
    var w := ChildKey(pages, sh, root, p, j);
    if i + 1 < j {
      SeparatorsIncrease(pages, sh, root, p, i + 1, j);
    }
  }

  /** k routes to slot i: at or above separator i, below separator i + 1. */
  ghost predicate Routes(es: seq<Entry>, k: Key, i: nat)
    requires RealKeys(es)
  {
    && i < |es|
    && (i > 0 ==> es[i].key.k <= k)
    && (i + 1 < |es| ==> k < es[i+1].key.k)
  }

  lemma RouteUnique(pages: map<nat, Page>, sh: Shape, root: nat, p: nat, k: Key, i: nat, j: nat)
    requires TreeOk(pages, sh, root) && IsInternal(pages, p)
    requires RealKeys(pages[p].entries)
    requires Routes(pages[p].entries, k, i) && Routes(pages[p].entries, k, j)
    ensures i == j
  {
    if i + 1 < j {
      SeparatorsIncrease(pages, sh, root, p, i + 1, j);
    } else if j + 1 < i {
      SeparatorsIncrease(pages, sh, root, p, j + 1, i);
    }
  }

  /** A key below p that routes to slot i is below the child in slot i. */
  lemma RouteFinds(pages: map<nat, Page>, sh: Shape, root: nat, p: nat, k: Key, i: nat)
    requires TreeOk(pages, sh, root) && IsInternal(pages, p)
    requires RealKeys(pages[p].entries) && Routes(pages[p].entries, k, i)
    requires k in sh.keys[p]
    ensures pages[p].entries[i].child in sh.keys
    ensures k in sh.keys[pages[p].entries[i].child]
  {
    assert PageOk(pages, sh, p);
    var es := pages[p].entries;
    assert Covers(sh, es, k);
    var j :| 0 <= j < |es| && es[j].child in sh.keys && k in sh.keys[es[j].child];
    assert SlotOk(pages, sh, p, j);
    RouteUnique(pages, sh, root, p, k, i, j);
  }
}
