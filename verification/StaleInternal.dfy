/** What a connection writes when it writes an internal page back that another one may have written since: removeBtree writes every
    page above the leaf (storage.cpp:135-264), with the separators refreshed. */
module StaleInternal {
  import opened Pages
  import opened TreeInvariant
  import opened TreeSearch
  import opened TreeInsert
  import opened TreeDelete
  import opened InsertSound
  import opened DeleteSound
  import opened StaleCache
  import T = TableFiles
  import D = Database

  /** The same parent and the same children in the same order. */
  ghost predicate SamePlaces(a: Page, b: Page) {
    && a.Internal? && b.Internal? && a.parent == b.parent && |a.entries| == |b.entries|
    && forall i | 0 <= i < |a.entries| :: a.entries[i].child == b.entries[i].child
  }

  /** Every separator parts the keys below its left from those below its right neighbour. */
  ghost predicate SeparatorsPart(es: seq<Entry>, sh: Shape) {
    RealKeys(es) && forall i | 0 <= i < |es| && es[i].child in sh.keys :: Within(es, i, sh.keys[es[i].child])
  }

  // ------------------------------------------------------------- what the file must be

  /** Writing an internal page can give a tree of the same table only if that page is already an internal page of the tree, with
      the same parent. The root is then the same. */
  lemma PlaceStays(pages: map<nat, Page>, sh: Shape, root: nat, p: nat, page: Page,
      sh': Shape, root': nat)
    requires TreeOk(pages, sh, root) && page.Internal? && TreeOk(pages[p := page], sh', root')
    requires !IsLeaf(pages, p)
    ensures root' == root && IsInternal(pages, p) && page.parent == pages[p].parent
  {
    hide PageOk, Attached;
    var pages' := pages[p := page];
    assert IsTreePage(pages', p);
    NoChildOfLeaf(pages, sh, root, root);
    if root != p {
      NoChildOfLeaf(pages', sh', root', root);
      var q, i := ParentSlot(pages', sh', root', p);
      assert HasChild(pages[q].entries, p);
      ChildrenNameParent(pages, sh, root, q);
    } else {
      NoChildOfLeaf(pages', sh', root', root');
      if root' != p {
        NoChildOfLeaf(pages, sh, root, root');
      }
    }
  }

  /** No leaf becomes an internal page: its rows would be nowhere. */
  lemma LeafStaysLeaf(pages: map<nat, Page>, sh: Shape, root: nat, chain: seq<nat>, contents: map<Key, Row>, p: nat, page: Page,
      sh': Shape, root': nat, chain': seq<nat>)
    requires TreeOk(pages, sh, root) && ChainInv(pages, sh, chain) && ContentInv(pages, sh, root, contents)
    requires page.Internal? && TreeOk(pages[p := page], sh', root') && ChainInv(pages[p := page], sh', chain')
    requires ContentInv(pages[p := page], sh', root', contents) && IsLeaf(pages, p)
    ensures p == root
  {
    hide PageOk, Attached, ChainLinks, LeavesBelow;
    if p != root {
      var pages' := pages[p := page];
      var k := NonRootKey(pages, sh, root, p);
      BelowRoot(pages, sh, root, p);
      var l := LeafWithKey(pages', sh', root', root', k);
      KeyInLeafRows(pages', sh', root', l);
      KeyInLeafRows(pages, sh, root, l);
      KeyInOneLeaf(pages, sh, chain, p, l, k);
    }
  }

  lemma KeyInLeafRows(pages: map<nat, Page>, sh: Shape, root: nat, l: nat)
    requires TreeOk(pages, sh, root) && IsLeaf(pages, l)
    ensures sh.keys[l] == KeySet(pages[l].rows)
  {
    assert PageOk(pages, sh, l);
  }

  lemma NoRootLeaf(pages: map<nat, Page>, sh: Shape, root: nat, page: Page, sh': Shape, root': nat)
    requires TreeOk(pages, sh, root) && page.Internal? && TreeOk(pages[root := page], sh', root')
    ensures !IsLeaf(pages, root)
  {
    hide PageOk, Attached;
    var c := FirstChild(pages[root := page], sh', root', root);
    if IsLeaf(pages, root) {
      RootLeafAlone(pages, sh, root, c);
    }
  }

  /** The children are the same. */
  lemma ChildStays(pages: map<nat, Page>, sh: Shape, root: nat, p: nat, page: Page, sh': Shape, c: nat)
    requires TreeOk(pages, sh, root) && IsInternal(pages, p) && page.Internal? && TreeOk(pages[p := page], sh', root)
    requires HasChild(page.entries, c)
    ensures HasChild(pages[p].entries, c)
  {
    hide PageOk, Attached;
    var pages' := pages[p := page];
    ChildrenNameParent(pages', sh', root, p);
    ChildLevels(pages', sh', root, p);
    NoChildOfLeaf(pages', sh', root, c);
    var q, i := ParentSlot(pages, sh, root, c);
  }

  /** The keys below every page are the same. */
  lemma {:induction false} KeysStay(pages: map<nat, Page>, sh: Shape, root: nat, p: nat, page: Page, sh': Shape, x: nat)
    requires TreeOk(pages, sh, root) && IsInternal(pages, p) && page.Internal? && TreeOk(pages[p := page], sh', root)
    requires forall c :: HasChild(page.entries, c) <==> HasChild(pages[p].entries, c)
    requires IsTreePage(pages, x)
    ensures sh.keys[x] == sh'.keys[x]
    decreases sh.lvl[x]
  {
    hide HasChild, PageOk, Attached;
    var pages' := pages[p := page];
    if pages[x].Leaf? {
      KeyInLeafRows(pages, sh, root, x);
      KeyInLeafRows(pages', sh', root, x);
    } else {
      ChildLevels(pages, sh, root, x);
      forall c | HasChild(pages[x].entries, c) ensures c in sh.keys && c in sh'.keys && sh.keys[c] == sh'.keys[c] {
        KeysStay(pages, sh, root, p, page, sh', c);
      }
      KeysFromChildren(pages, sh, root, x);
      KeysFromChildren(pages', sh', root, x);
      forall k | k in sh.keys[x] ensures k in sh'.keys[x] {
        var c :| HasChild(pages[x].entries, c) && c in sh.keys && k in sh.keys[c];
      }
      forall k | k in sh'.keys[x] ensures k in sh.keys[x] {
        var c :| HasChild(pages'[x].entries, c) && c in sh'.keys && k in sh'.keys[c];
      }
    }
  }

  lemma KeysFromChildren(pages: map<nat, Page>, sh: Shape, root: nat, x: nat)
    requires TreeOk(pages, sh, root) && IsInternal(pages, x)
    ensures forall k | k in sh.keys[x] :: exists c :: HasChild(pages[x].entries, c) && c in sh.keys && k in sh.keys[c]
    ensures forall c | HasChild(pages[x].entries, c) :: c in sh.keys && sh.keys[c] <= sh.keys[x]
  {
    assert PageOk(pages, sh, x);
    var es := pages[x].entries;
    forall k | k in sh.keys[x] ensures exists c :: HasChild(es, c) && c in sh.keys && k in sh.keys[c] {
      assert Covers(sh, es, k);
      var i :| 0 <= i < |es| && es[i].child in sh.keys && k in sh.keys[es[i].child];
      assert HasChild(es, es[i].child);
    }
    forall c | HasChild(es, c) ensures c in sh.keys && sh.keys[c] <= sh.keys[x] {
      var i :| 0 <= i < |es| && es[i].child == c;
      assert SlotOk(pages, sh, x, i);
    }
  }

  // ------------------------------------------------------------- the order of the children

  function Children(es: seq<Entry>): (r: seq<nat>)
    ensures |r| == |es| && forall i | 0 <= i < |es| :: r[i] == es[i].child
  {
    seq(|es|, i requires 0 <= i < |es| => es[i].child)
  }

  ghost predicate InKeyOrder(s: seq<nat>, sh: Shape) {
    && (forall i | 0 <= i < |s| :: HasKey(sh, s[i]))
    && forall i, j | 0 <= i < j < |s| :: LeavesBelow(sh, s[i], s[j])
  }

  /** Pages in the order of their keys are determined by their set. */
  lemma {:induction false} SameOrder(a: seq<nat>, b: seq<nat>, sh: Shape)
    requires InKeyOrder(a, sh) && InKeyOrder(b, sh) && forall c :: c in a <==> c in b
    ensures a == b
    decreases |a|
  {
    NoMembers(a);
    NoMembers(b);
    if a != [] {
      var m, n := |a| - 1, |b| - 1;
      LastOfOrder(a, sh, b[n]);
      LastOfOrder(b, sh, a[m]);
      assert a[m] == b[n];
      forall c ensures c in a[..m] <==> c in b[..n] {
        InFront(a, sh, c);
        InFront(b, sh, c);
      }
      SameOrder(a[..m], b[..n], sh);
      assert a == a[..m] + [a[m]] && b == b[..n] + [b[n]];
    }
  }

  lemma NoMembers(a: seq<nat>)
    ensures a == [] <==> forall c :: c !in a
  {
    if a != [] { assert a[0] in a; }
  }

  /** No other page lies above the last one. */
  lemma LastOfOrder(a: seq<nat>, sh: Shape, c: nat)
    requires InKeyOrder(a, sh) && a != [] && c in a
    ensures c == a[|a|-1] || LeavesBelow(sh, c, a[|a|-1])
    ensures HasKey(sh, c) && !LeavesBelow(sh, c, c)
    ensures !LeavesBelow(sh, a[|a|-1], c)
  {
  }

  lemma InFront(a: seq<nat>, sh: Shape, c: nat)
    requires InKeyOrder(a, sh) && a != []
    ensures c in a[..|a|-1] <==> c in a && c != a[|a|-1]
  {
  }

  /** The children of an internal page stand in the order of their keys. */
  lemma ChildrenInOrder(pages: map<nat, Page>, sh: Shape, root: nat, p: nat)
    requires TreeOk(pages, sh, root) && IsInternal(pages, p)
    ensures InKeyOrder(Children(pages[p].entries), sh)
    ensures forall c :: c in Children(pages[p].entries) <==> HasChild(pages[p].entries, c)
  {
    hide PageOk, Attached;
    var es := pages[p].entries;
    forall i | 0 <= i < |es| ensures HasKey(sh, es[i].child) {
      var k := ChildKey(pages, sh, root, p, i);
    }
    forall i, j | 0 <= i < j < |es| ensures LeavesBelow(sh, es[i].child, es[j].child) {
      ChildrenOrdered(pages, sh, root, p, i, j);
    }
    forall c | HasChild(es, c) ensures c in Children(es) {
      var i :| 0 <= i < |es| && es[i].child == c;
      assert Children(es)[i] == c;
    }
  }

  lemma ChildrenStay(pages: map<nat, Page>, sh: Shape, root: nat, p: nat, page: Page, sh': Shape)
    requires TreeOk(pages, sh, root) && IsInternal(pages, p) && page.Internal? && TreeOk(pages[p := page], sh', root)
    ensures Children(page.entries) == Children(pages[p].entries)
    ensures SeparatorsPart(page.entries, sh)
  {
    hide PageOk, Attached, HasChild, InKeyOrder, RealKeys, Within;
    var pages' := pages[p := page];
    forall c ensures HasChild(page.entries, c) <==> HasChild(pages[p].entries, c) {
      if HasChild(page.entries, c) { ChildStays(pages, sh, root, p, page, sh', c); }
      if HasChild(pages[p].entries, c) {
        assert pages'[p := pages[p]] == pages;
        ChildStays(pages', sh', root, p, pages[p], sh, c);
      }
    }
    ChildLevels(pages, sh, root, p);
    forall c | HasChild(pages[p].entries, c) ensures c in sh.keys && c in sh'.keys && sh.keys[c] == sh'.keys[c] {
      KeysStay(pages, sh, root, p, page, sh', c);
    }
    ChildrenInOrder(pages, sh, root, p);
    ChildrenInOrder(pages', sh', root, p);
    SameKeysOrder(Children(page.entries), sh', sh);
    SameOrder(Children(page.entries), Children(pages[p].entries), sh);
    SlotsPart(pages', sh', root, p);
    SameKeysPart(page.entries, sh', sh);
  }

  lemma SameKeysOrder(s: seq<nat>, sh': Shape, sh: Shape)
    requires InKeyOrder(s, sh') && forall c | c in s :: c in sh.keys && c in sh'.keys && sh.keys[c] == sh'.keys[c]
    ensures InKeyOrder(s, sh)
  {
    hide Below;
    forall i | 0 <= i < |s| ensures HasKey(sh, s[i]) {
      assert HasKey(sh', s[i]) && s[i] in s;
    }
    forall i, j | 0 <= i < j < |s| ensures LeavesBelow(sh, s[i], s[j]) {
      assert LeavesBelow(sh', s[i], s[j]) && s[i] in s && s[j] in s;
    }
  }

  lemma SlotsPart(pages: map<nat, Page>, sh: Shape, root: nat, p: nat)
    requires TreeOk(pages, sh, root) && IsInternal(pages, p)
    ensures SeparatorsPart(pages[p].entries, sh)
  {
    assert PageOk(pages, sh, p);
    var es := pages[p].entries;
    forall i | 0 <= i < |es| ensures es[i].child in sh.keys && Within(es, i, sh.keys[es[i].child]) {
      assert SlotOk(pages, sh, p, i);
    }
  }

  lemma SameKeysPart(es: seq<Entry>, sh': Shape, sh: Shape)
    requires SeparatorsPart(es, sh')
    requires forall c | c in Children(es) :: c in sh.keys && c in sh'.keys && sh.keys[c] == sh'.keys[c]
    ensures SeparatorsPart(es, sh)
  {
    hide Within;
    forall i | 0 <= i < |es| ensures es[i].child in sh.keys && Within(es, i, sh.keys[es[i].child]) {
      assert Children(es)[i] in Children(es);
    }
  }

  // ------------------------------------------------------------- the page that is written back

  lemma WriteNeeds(file: D.Snapshot, sh: Shape, chain: seq<nat>, free: seq<nat>, contents: map<Key, Row>,
      held: T.Header, p: nat, page: Page)
    requires Sound(file.pages, file.header.root, file.header.nPage, file.header.firstFreePage, sh, chain, free, contents)
    requires file.header.root != 0 && page.Internal? && Opens(file.pages[p := page], held, contents)
    ensures held == file.header && p in file.pages && SamePlaces(page, file.pages[p]) && SeparatorsPart(page.entries, sh)
  {
    hide PageOk, Attached, ChainInv, FreeInv, ContentInv, FilledExcept, SeparatorsPart;
    var pages, h := file.pages, file.header;
    var sh', chain', free' :| Sound(pages[p := page], held.root, held.nPage, held.firstFreePage, sh', chain', free', contents);
    assert IsTreePage(pages[p := page], p);
    if IsLeaf(pages, p) {
      LeafStaysLeaf(pages, sh, h.root, chain, contents, p, page, sh', held.root, chain');
    }
    if p == h.root {
      NoRootLeaf(pages, sh, h.root, page, sh', held.root);
    }
    PlaceStays(pages, sh, h.root, p, page, sh', held.root);
    SizeStays(pages, p, page, h.nPage, h.firstFreePage, free, held.nPage, held.firstFreePage, free');
    ChildrenStay(pages, sh, h.root, p, page, sh');
    assert forall i | 0 <= i < |page.entries| :: Children(page.entries)[i] == Children(pages[p].entries)[i];
  }

  /** Other separators that part the same keys keep the tree. */
  lemma SeparatorsTree(pages: map<nat, Page>, sh: Shape, root: nat, p: nat, page: Page)
    requires TreeOk(pages, sh, root) && IsInternal(pages, p)
    requires SamePlaces(page, pages[p]) && SeparatorsPart(page.entries, sh)
    ensures TreeOk(pages[p := page], sh, root)
  {
    hide SeparatorsPart, Within;
    var es, pages' := pages[p].entries, pages[p := page];
    forall q | IsTreePage(pages', q) ensures PageOk(pages', sh, q) {
      assert PageOk(pages, sh, q);
      if q == p {
        SeparatorsSlots(pages, sh, root, p, page);
      } else if pages[q].Internal? {
        FrameInternal(pages, sh, pages', sh, q);
      }
    }
    forall q | IsTreePage(pages', q) ensures Attached(pages', sh, root, q) {
      assert Attached(pages, sh, root, q);
      if q != root && pages[q].parent == p {
        var j :| 0 <= j < |es| && es[j].child == q;
        assert page.entries[j].child == q;
      }
    }
  }

  lemma SeparatorsSlots(pages: map<nat, Page>, sh: Shape, root: nat, p: nat, page: Page)
    requires TreeOk(pages, sh, root) && IsInternal(pages, p)
    requires SamePlaces(page, pages[p]) && SeparatorsPart(page.entries, sh)
    ensures Dom(pages[p := page], sh) && InternalOk(pages[p := page], sh, p)
  {
    hide Attached;
    var es, es', pages' := pages[p].entries, page.entries, pages[p := page];
    assert PageOk(pages, sh, p);
    forall j | 0 <= j < |es'| ensures SlotOk(pages', sh, p, j) {
      assert SlotOk(pages, sh, p, j);
    }
    forall x | x in sh.keys[p] ensures Covers(sh, es', x) {
      assert Covers(sh, es, x);
      var j :| 0 <= j < |es| && es[j].child in sh.keys && x in sh.keys[es[j].child];
      assert es'[j].child == es[j].child;
    }
  }

  lemma WriteOpens(file: D.Snapshot, sh: Shape, chain: seq<nat>, free: seq<nat>, contents: map<Key, Row>, p: nat, page: Page)
    requires Sound(file.pages, file.header.root, file.header.nPage, file.header.firstFreePage, sh, chain, free, contents)
    requires file.header.root != 0 && p in file.pages && SamePlaces(page, file.pages[p]) && SeparatorsPart(page.entries, sh)
    ensures Opens(file.pages[p := page], file.header, contents)
  {
    hide PageOk, Attached, ChainInv, FreeInvExcept, SeparatorsPart;
    var pages, pages', h := file.pages, file.pages[p := page], file.header;
    SeparatorsTree(pages, sh, h.root, p, page);
    FrameChain(pages, sh, pages', sh, chain);
    FrameFree(pages, pages', h.nPage, h.firstFreePage, free, 0);
    FrameContent(pages, sh, pages', sh, h.root, h.root, contents);
    forall q | IsTreePage(pages', q) && q != 0 ensures Filled(pages'[q], q == h.root) {
      assert Filled(pages[q], q == h.root);
    }
    assert Sound(pages', h.root, h.nPage, h.firstFreePage, sh, chain, free, contents);
  }

  /** A connection writes an internal page back and saves the metadata that it holds. The file then is sound and holds the same
      table if and only if no other connection has written the metadata since, the page still has the same parent and
      children, and its separators part the keys that are in the file. */
  lemma InternalWriteIff(file: D.Snapshot, sh: Shape, chain: seq<nat>, free: seq<nat>, contents: map<Key, Row>,
      held: T.Header, p: nat, page: Page)
    requires Sound(file.pages, file.header.root, file.header.nPage, file.header.firstFreePage, sh, chain, free, contents)
    requires file.header.root != 0 && page.Internal?
    ensures Opens(file.pages[p := page], held, contents) <==>
      held == file.header && p in file.pages && SamePlaces(page, file.pages[p]) && SeparatorsPart(page.entries, sh)
  {
    hide Sound, Opens, SamePlaces, SeparatorsPart;
    if Opens(file.pages[p := page], held, contents) {
      WriteNeeds(file, sh, chain, free, contents, held, p, page);
    }
    if held == file.header && p in file.pages && SamePlaces(page, file.pages[p]) && SeparatorsPart(page.entries, sh) {
      WriteOpens(file, sh, chain, free, contents, p, page);
    }
  }
}
