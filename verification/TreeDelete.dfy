/** Deleting keeps the tree invariant: removing a row, moving rows or children between siblings,
    merging siblings, and dropping a root with one child. */
module TreeDelete {
  import opened Pages
  import opened TreeInvariant
  import opened TreeSearch
  import opened TreeInsert

  // ---------------------------------------------------------------- removing a row

  ghost function ShapeWithout(sh: Shape, k: Key): Shape {
    Shape(sh.lvl, map p | p in sh.keys :: sh.keys[p] - {k})
  }

  /** A leaf other than the one that holds k does not hold k. */
  lemma KeyInOneLeaf(pages: map<nat, Page>, sh: Shape, chain: seq<nat>, l: nat, q: nat, k: Key)
    requires Dom(pages, sh) && ChainInv(pages, sh, chain) && IsLeaf(pages, l) && IsLeaf(pages, q)
    requires k in sh.keys[l] && q != l
    ensures k !in sh.keys[q]
  {
    var i := ChainPosition(pages, sh, chain, l);
    var j := ChainPosition(pages, sh, chain, q);
    if i < j { assert LeavesBelow(sh, l, q); } else { assert LeavesBelow(sh, q, l); }
  }

  /** A page with two children keeps a key when k is removed. */
  lemma OtherKey(pages: map<nat, Page>, sh: Shape, root: nat, p: nat, k: Key) returns (w: Key)
    requires TreeOk(pages, sh, root) && IsInternal(pages, p) && |pages[p].entries| >= 2
    ensures w in sh.keys[p] && w != k
  {
    var v := ChildKey(pages, sh, root, p, 0);
    var u := ChildKey(pages, sh, root, p, 1);
    ChildrenOrdered(pages, sh, root, p, 0, 1);
    w := if v == k then u else v;
  }

  lemma RemoveKeyInternal(pages: map<nat, Page>, sh: Shape, root: nat, k: Key, l: nat, rows: seq<Row>, p: nat)
    requires TreeOk(pages, sh, root) && IsLeaf(pages, l) && IsInternal(pages, p)
    ensures Dom(pages[l := pages[l].(rows := rows)], ShapeWithout(sh, k))
    ensures InternalOk(pages[l := pages[l].(rows := rows)], ShapeWithout(sh, k), p)
  {
    var pages', sh' := pages[l := pages[l].(rows := rows)], ShapeWithout(sh, k);
    var es := pages[p].entries;
    assert PageOk(pages, sh, p);
    forall i | 0 <= i < |es|
      ensures SlotOk(pages', sh', p, i)
    {
      assert SlotOk(pages, sh, p, i);
    }
    forall x | x in sh'.keys[p]
      ensures Covers(sh', es, x)
    {
      assert Covers(sh, es, x);
      var i :| 0 <= i < |es| && es[i].child in sh.keys && x in sh.keys[es[i].child];
      assert SlotOk(pages, sh, p, i);
    }
  }

  lemma RemoveKeyTree(pages: map<nat, Page>, sh: Shape, root: nat, chain: seq<nat>, k: Key, l: nat, rows: seq<Row>)
    requires TreeOk(pages, sh, root) && ChainInv(pages, sh, chain) && IsLeaf(pages, l) && k in sh.keys[l]
    requires SortedRows(rows) && KeySet(rows) == KeySet(pages[l].rows) - {k}
    requires l != root ==> rows != []
    requires forall p | IsInternal(pages, p) && p != root :: |pages[p].entries| >= 2
    ensures TreeOk(pages[l := pages[l].(rows := rows)], ShapeWithout(sh, k), root)
  {
    var pages', sh' := pages[l := pages[l].(rows := rows)], ShapeWithout(sh, k);
    forall p | IsTreePage(pages', p)
      ensures PageOk(pages', sh', p)
    {
      assert PageOk(pages, sh, p);
      if pages[p].Internal? {
        RemoveKeyInternal(pages, sh, root, k, l, rows, p);
      } else if p != l {
        KeyInOneLeaf(pages, sh, chain, l, p, k);
      }
    }
    forall p | IsTreePage(pages', p)
      ensures Attached(pages', sh', root, p)
    {
      assert Attached(pages, sh, root, p);
      if p != root {
        var w;
        if pages[p].Internal? {
          w := OtherKey(pages, sh, root, p, k);
        } else if p == l {
          assert PageOk(pages, sh, l);
          w := rows[0].key;
          assert w in KeySet(rows);
        } else {
          w := NonRootKey(pages, sh, root, p);
          KeyInOneLeaf(pages, sh, chain, l, p, k);
        }
        assert w in sh'.keys[p];
      }
    }
  }

  lemma RemoveKeyChain(pages: map<nat, Page>, sh: Shape, root: nat, chain: seq<nat>, k: Key, l: nat, rows: seq<Row>)
    requires TreeOk(pages, sh, root) && ChainInv(pages, sh, chain) && IsLeaf(pages, l)
    ensures Dom(pages[l := pages[l].(rows := rows)], ShapeWithout(sh, k))
    ensures ChainInv(pages[l := pages[l].(rows := rows)], ShapeWithout(sh, k), chain)
  {
    var pages', sh' := pages[l := pages[l].(rows := rows)], ShapeWithout(sh, k);
    assert forall p :: IsLeaf(pages', p) <==> IsLeaf(pages, p);
    forall i | 0 <= i < |chain|
      ensures ChainLinks(pages', chain, i)
    {
      assert ChainLinks(pages, chain, i);
    }
    forall i, j | 0 <= i < j < |chain|
      ensures LeavesBelow(sh', chain[i], chain[j])
    {
      assert LeavesBelow(sh, chain[i], chain[j]);
    }
  }

  // ---------------------------------------------------------------- refreshing a separator

  /** k separates the keys of s from those of t. */
  ghost predicate Parts(s: set<Key>, k: Key, t: set<Key>) {
    && (forall x | x in s :: x < k)
    && (forall x | x in t :: k <= x)
  }

  function WithKey(es: seq<Entry>, i: nat, k: Key): seq<Entry>
    requires i < |es|
  {
    es[i := es[i].(key := IntKey(k))]
  }

  /** A separator may move to any key above its left and not above its right subtree. */
  lemma RefreshSeparator(pages: map<nat, Page>, sh: Shape, root: nat, p: nat, i: nat, k: Key)
    requires TreeOk(pages, sh, root) && IsInternal(pages, p) && 1 <= i < |pages[p].entries|
    requires pages[p].entries[i].child in sh.keys && pages[p].entries[i-1].child in sh.keys
    requires Parts(sh.keys[pages[p].entries[i-1].child], k, sh.keys[pages[p].entries[i].child])
    ensures TreeOk(pages[p := pages[p].(entries := WithKey(pages[p].entries, i, k))], sh, root)
  {
    var es := pages[p].entries;
    var es' := WithKey(es, i, k);
    var pages' := pages[p := pages[p].(entries := es')];
    forall q | IsTreePage(pages', q)
      ensures PageOk(pages', sh, q)
    {
      assert PageOk(pages, sh, q);
      if q == p {
        RefreshSlots(pages, sh, root, p, i, k);
      } else if pages[q].Internal? {
        FrameInternal(pages, sh, pages', sh, q);
      }
    }
    forall q | IsTreePage(pages', q)
      ensures Attached(pages', sh, root, q)
    {
      assert Attached(pages, sh, root, q);
      if q != root && pages[q].parent == p {
        var j :| 0 <= j < |es| && es[j].child == q;
        assert es'[j].child == q;
      }
    }
  }

  lemma RefreshSlots(pages: map<nat, Page>, sh: Shape, root: nat, p: nat, i: nat, k: Key)
    requires TreeOk(pages, sh, root) && IsInternal(pages, p) && 1 <= i < |pages[p].entries|
    requires pages[p].entries[i].child in sh.keys && pages[p].entries[i-1].child in sh.keys
    requires Parts(sh.keys[pages[p].entries[i-1].child], k, sh.keys[pages[p].entries[i].child])
    ensures Dom(pages[p := pages[p].(entries := WithKey(pages[p].entries, i, k))], sh)
    ensures InternalOk(pages[p := pages[p].(entries := WithKey(pages[p].entries, i, k))], sh, p)
  {
    var es := pages[p].entries;
    var es' := WithKey(es, i, k);
    var pages' := pages[p := pages[p].(entries := es')];
    assert PageOk(pages, sh, p);
    forall j | 0 <= j < |es'|
      ensures SlotOk(pages', sh, p, j)
    {
      assert SlotOk(pages, sh, p, j);
      assert es'[j].child == es[j].child;
    }
    forall x | x in sh.keys[p]
      ensures Covers(sh, es', x)
    {
      assert Covers(sh, es, x);
      var j :| 0 <= j < |es| && es[j].child in sh.keys && x in sh.keys[es[j].child];
      assert es'[j].child == es[j].child;
    }
  }

  // ---------------------------------------------------------------- merging siblings

  /** The entries of two neighbouring internal pages in one: the separator between them moves down. */
  function JoinEntries(left: seq<Entry>, sep: EntryKey, right: seq<Entry>): seq<Entry>
    requires |right| > 0
  {
    left + [Entry(sep, right[0].child)] + right[1..]
  }

  /** The parent's entries when slots i and i + 1 become one slot for page s. */
  function MergeSlot(es: seq<Entry>, i: nat, s: nat): seq<Entry>
    requires i + 1 < |es|
  {
    es[..i] + [Entry(es[i].key, s)] + es[i+2..]
  }

  /** The dead page d leaves the tree, and s takes over its keys. */
  ghost function MergeShape(sh: Shape, s: nat, d: nat): Shape
    requires s in sh.keys && d in sh.keys
  {
    Shape(sh.lvl - {d}, (sh.keys - {d})[s := sh.keys[s] + sh.keys[d]])
  }

  /** Slots i and i + 1 of P hold s and d in one order or the other. */
  ghost predicate Siblings(pages: map<nat, Page>, P: nat, i: nat, s: nat, d: nat) {
    && IsInternal(pages, P) && i + 1 < |pages[P].entries|
    && var a, b := pages[P].entries[i].child, pages[P].entries[i+1].child;
       && ((a == s && b == d) || (a == d && b == s))
       && IsTreePage(pages, a) && IsTreePage(pages, b) && s != d && P != s && P != d
       && (pages[a].Leaf? <==> pages[b].Leaf?)
       && (pages[b].Internal? ==> |pages[b].entries| > 0)
  }

  /** m is pages after s absorbed d. */
  ghost predicate MergePages(pages: map<nat, Page>, m: map<nat, Page>, P: nat, i: nat, s: nat, d: nat)
    requires Siblings(pages, P, i, s, d)
  {
    var es := pages[P].entries;
    var a, b := es[i].child, es[i+1].child;
    && IsInternal(m, P) && m[P] == Internal(pages[P].parent, MergeSlot(es, i, s))
    && !IsTreePage(m, d)
    && (forall q | q != s && q != d && q != P :: q in m <==> q in pages)
    && if pages[a].Leaf? then
         && IsLeaf(m, s) && m[s].parent == P && m[s].rows == pages[a].rows + pages[b].rows
         && (forall q | q != s && q != d && q != P && q in pages :: LinksOnly(pages[q], m[q]))
       else
         && s in m && m[s] == Internal(P, JoinEntries(pages[a].entries, es[i+1].key, pages[b].entries))
         && (forall q | q != s && q != d && q != P && q in pages ::
               m[q] == if HasChild(pages[d].entries, q) && !pages[q].Free? then pages[q].(parent := s) else pages[q])
  }

  /** Neighbouring children are siblings in the sense above. */
  lemma SiblingsFacts(pages: map<nat, Page>, sh: Shape, root: nat, P: nat, i: nat)
    requires TreeOk(pages, sh, root) && IsInternal(pages, P) && i + 1 < |pages[P].entries|
    ensures var a, b := pages[P].entries[i].child, pages[P].entries[i+1].child;
      && Siblings(pages, P, i, a, b) && Siblings(pages, P, i, b, a)
      && RealKeys(pages[P].entries) && SlotOk(pages, sh, P, i) && SlotOk(pages, sh, P, i + 1)
      && Below(sh.keys[a], sh.keys[b])
  {
    var es := pages[P].entries;
    var a, b := es[i].child, es[i+1].child;
    var v := ChildKey(pages, sh, root, P, i);
    var w := ChildKey(pages, sh, root, P, i + 1);
    ChildrenOrdered(pages, sh, root, P, i, i + 1);
    assert PageOk(pages, sh, a) && PageOk(pages, sh, b);
  }

  lemma ChildrenNameParent(pages: map<nat, Page>, sh: Shape, root: nat, p: nat)
    requires TreeOk(pages, sh, root) && IsInternal(pages, p)
    ensures forall c | HasChild(pages[p].entries, c) :: IsTreePage(pages, c) && pages[c].parent == p
  {
    assert PageOk(pages, sh, p);
    forall c | HasChild(pages[p].entries, c)
      ensures IsTreePage(pages, c) && pages[c].parent == p
    {
      var j :| 0 <= j < |pages[p].entries| && pages[p].entries[j].child == c;
      assert SlotOk(pages, sh, p, j);
    }
  }

  lemma MergeDom(pages: map<nat, Page>, sh: Shape, root: nat, P: nat, i: nat, s: nat, d: nat, m: map<nat, Page>)
    requires TreeOk(pages, sh, root) && Siblings(pages, P, i, s, d) && MergePages(pages, m, P, i, s, d)
    ensures Dom(m, MergeShape(sh, s, d))
    ensures s != root && d != root && pages[root].parent != d
    ensures pages[s].parent == P && pages[d].parent == P
  {
    SiblingsFacts(pages, sh, root, P, i);
    assert Attached(pages, sh, root, root);
    var sh' := MergeShape(sh, s, d);
    forall p
      ensures IsTreePage(m, p) <==> p in sh'.lvl
      ensures IsTreePage(m, p) <==> p in sh'.keys
    {
      if p != s && p != d && p != P && p in pages && pages[p].Leaf? && IsLeaf(pages, s) {
        assert LinksOnly(pages[p], m[p]);
      }
    }
  }

  /** A page that is neither one of the siblings nor a child of d looks the same to its parent. */
  lemma MergeSame(pages: map<nat, Page>, sh: Shape, root: nat, P: nat, i: nat, s: nat, d: nat, m: map<nat, Page>, c: nat)
    requires TreeOk(pages, sh, root) && Siblings(pages, P, i, s, d) && MergePages(pages, m, P, i, s, d)
    requires IsTreePage(pages, c) && c != s && c != d && pages[c].parent != d
    ensures Dom(m, MergeShape(sh, s, d))
    ensures SameChild(pages, sh, m, MergeShape(sh, s, d), c)
  {
    MergeDom(pages, sh, root, P, i, s, d, m);
    if pages[d].Internal? {
      ChildrenNameParent(pages, sh, root, d);
    } else if c != P {
      assert LinksOnly(pages[c], m[c]);
    }
  }

  /** A child of d hangs below s after the merge. */
  lemma MergeMoved(pages: map<nat, Page>, sh: Shape, root: nat, P: nat, i: nat, s: nat, d: nat, m: map<nat, Page>, j: nat)
    requires TreeOk(pages, sh, root) && Siblings(pages, P, i, s, d) && MergePages(pages, m, P, i, s, d)
    requires IsInternal(pages, d) && j < |pages[d].entries|
    ensures Dom(m, MergeShape(sh, s, d))
    ensures RealKeys(pages[d].entries) && SlotOk(pages, sh, d, j)
    ensures var c, sh' := pages[d].entries[j].child, MergeShape(sh, s, d);
      IsTreePage(m, c) && m[c].parent == s && sh'.lvl[c] == sh.lvl[c] && sh'.keys[c] == sh.keys[c] && c != s && c != d
  {
    MergeDom(pages, sh, root, P, i, s, d, m);
    assert PageOk(pages, sh, d);
    assert SlotOk(pages, sh, d, j);
    SiblingsFacts(pages, sh, root, P, i);
    assert HasChild(pages[d].entries, pages[d].entries[j].child);
  }

  lemma MergeSlotAt(es: seq<Entry>, i: nat, s: nat)
    requires i + 1 < |es|
    ensures |MergeSlot(es, i, s)| == |es| - 1
    ensures forall t | 0 <= t < |es| - 1 ::
              MergeSlot(es, i, s)[t] == if t < i then es[t] else if t == i then Entry(es[i].key, s) else es[t+1]
    ensures RealKeys(es) ==> RealKeys(MergeSlot(es, i, s))
  {
  }

  lemma MergeSlotWindow(es: seq<Entry>, i: nat, s: nat, t: nat, t0: nat)
    requires i + 1 < |es| && t < |es| - 1 && t != i && t0 == if t < i then t else t + 1
    ensures |MergeSlot(es, i, s)| == |es| - 1
    ensures MergeSlot(es, i, s)[t] == es[t0]
    ensures t + 1 < |es| - 1 ==> t0 + 1 < |es| && MergeSlot(es, i, s)[t+1].key == es[t0+1].key
  {
  }

  lemma MergeParentSlots(pages: map<nat, Page>, sh: Shape, root: nat, P: nat, i: nat, s: nat, d: nat, m: map<nat, Page>, t: nat)
    requires TreeOk(pages, sh, root) && Siblings(pages, P, i, s, d) && MergePages(pages, m, P, i, s, d)
    requires t < |m[P].entries|
    ensures RealKeys(m[P].entries) && Dom(m, MergeShape(sh, s, d)) && SlotOk(m, MergeShape(sh, s, d), P, t)
  {
    var es := pages[P].entries;
    MergeDom(pages, sh, root, P, i, s, d, m);
    SiblingsFacts(pages, sh, root, P, i);
    MergeSlotAt(es, i, s);
    hide MergeSlot;
    if t == i {
      var v := ChildKey(pages, sh, root, P, i);
      var w := ChildKey(pages, sh, root, P, i + 1);
      if i + 2 < |es| { var u := ChildKey(pages, sh, root, P, i + 2); }
    } else {
      var t0 := if t < i then t else t + 1;
      var w := ChildKey(pages, sh, root, P, t0);
      if t0 < i { ChildrenOrdered(pages, sh, root, P, t0, i); ChildrenOrdered(pages, sh, root, P, t0, i + 1); }
      else { ChildrenOrdered(pages, sh, root, P, i, t0); ChildrenOrdered(pages, sh, root, P, i + 1, t0); }
      MergeSame(pages, sh, root, P, i, s, d, m, es[t0].child);
      MergeSlotWindow(es, i, s, t, t0);
    }
  }

  /** Folding slot i + 1 into slot i loses no key. */
  lemma MergeSlotCovers(sh: Shape, es: seq<Entry>, i: nat, s: nat, d: nat, k: Key)
    requires i + 1 < |es| && s in sh.keys && d in sh.keys && s != d && Covers(sh, es, k)
    requires (es[i].child == s && es[i+1].child == d) || (es[i].child == d && es[i+1].child == s)
    ensures Covers(MergeShape(sh, s, d), MergeSlot(es, i, s), k)
  {
    MergeSlotAt(es, i, s);
    var sh', es' := MergeShape(sh, s, d), MergeSlot(es, i, s);
    var j :| 0 <= j < |es| && es[j].child in sh.keys && k in sh.keys[es[j].child];
    if es[j].child == s || es[j].child == d {
      assert es'[i].child == s;
    } else {
      assert es'[if j < i then j else j - 1] == es[j];
    }
  }

  lemma MergeParentOk(pages: map<nat, Page>, sh: Shape, root: nat, P: nat, i: nat, s: nat, d: nat, m: map<nat, Page>)
    requires TreeOk(pages, sh, root) && Siblings(pages, P, i, s, d) && MergePages(pages, m, P, i, s, d)
    ensures Dom(m, MergeShape(sh, s, d)) && InternalOk(m, MergeShape(sh, s, d), P)
  {
    hide Covers, SlotOk, Attached;
    var es', sh' := m[P].entries, MergeShape(sh, s, d);
    MergeDom(pages, sh, root, P, i, s, d, m);
    assert PageOk(pages, sh, P);
    forall t | 0 <= t < |es'|
      ensures SlotOk(m, sh', P, t)
    {
      MergeParentSlots(pages, sh, root, P, i, s, d, m, t);
    }
    forall k | k in sh'.keys[P]
      ensures Covers(sh', es', k)
    {
      assert Covers(sh, pages[P].entries, k);
      MergeSlotCovers(sh, pages[P].entries, i, s, d, k);
    }
  }

  lemma MergeLeafOk(pages: map<nat, Page>, sh: Shape, root: nat, P: nat, i: nat, s: nat, d: nat, m: map<nat, Page>)
    requires TreeOk(pages, sh, root) && Siblings(pages, P, i, s, d) && MergePages(pages, m, P, i, s, d)
    requires IsLeaf(pages, s)
    ensures Dom(m, MergeShape(sh, s, d)) && IsLeaf(m, s) && LeafOk(m, MergeShape(sh, s, d), s)
  {
    MergeDom(pages, sh, root, P, i, s, d, m);
    SiblingsFacts(pages, sh, root, P, i);
    assert PageOk(pages, sh, s) && PageOk(pages, sh, d);
    var a, b := pages[P].entries[i].child, pages[P].entries[i+1].child;
    AppendSorted(pages[a].rows, pages[b].rows);
  }

  /** Slot t of the joined page. */
  lemma JoinedSlot(pages: map<nat, Page>, sh: Shape, root: nat, P: nat, i: nat, s: nat, d: nat, m: map<nat, Page>, t: nat)
    requires TreeOk(pages, sh, root) && Siblings(pages, P, i, s, d) && MergePages(pages, m, P, i, s, d)
    requires IsInternal(pages, s) && t < |m[s].entries|
    ensures RealKeys(m[s].entries) && Dom(m, MergeShape(sh, s, d)) && SlotOk(m, MergeShape(sh, s, d), s, t)
    ensures var ea, eb := pages[pages[P].entries[i].child].entries, pages[pages[P].entries[i+1].child].entries;
      |m[s].entries| == |ea| + |eb| && m[s].entries[t].child == (if t < |ea| then ea[t] else eb[t - |ea|]).child
  {
    var es := pages[P].entries;
    var a, b, sh' := es[i].child, es[i+1].child, MergeShape(sh, s, d);
    var ea, eb, js := pages[a].entries, pages[b].entries, m[s].entries;
    MergeDom(pages, sh, root, P, i, s, d, m);
    SiblingsFacts(pages, sh, root, P, i);
    assert PageOk(pages, sh, a) && PageOk(pages, sh, b);
    var q, j := if t < |ea| then a else b, if t < |ea| then t else t - |ea|;
    var w := ChildKey(pages, sh, root, q, j);
    assert js[t].child == pages[q].entries[j].child;
    if t < |ea| { assert js[t] == ea[t]; } else if t > |ea| { assert js[t] == eb[t - |ea|]; }
    if t + 1 < |ea| { assert js[t+1] == ea[t+1]; } else if t + 1 > |ea| && t + 1 < |js| { assert js[t+1] == eb[t + 1 - |ea|]; }
    if q == d {
      MergeMoved(pages, sh, root, P, i, s, d, m, j);
    } else {
      MergeSame(pages, sh, root, P, i, s, d, m, js[t].child);
    }
  }

  lemma JoinedChild(left: seq<Entry>, sep: EntryKey, right: seq<Entry>, j: nat)
    requires |right| > 0 && j < |right|
    ensures |left| + j < |JoinEntries(left, sep, right)|
    ensures JoinEntries(left, sep, right)[|left| + j].child == right[j].child
  {
  }

  lemma JoinedCovers(pages: map<nat, Page>, sh: Shape, root: nat, P: nat, i: nat, s: nat, d: nat, m: map<nat, Page>, q: nat, k: Key)
    requires TreeOk(pages, sh, root) && Siblings(pages, P, i, s, d) && MergePages(pages, m, P, i, s, d)
    requires IsInternal(pages, q) && IsInternal(pages, s) && (q == s || q == d) && k in sh.keys[q]
    ensures Covers(MergeShape(sh, s, d), m[s].entries, k)
  {
    hide TreeOk, MergePages, JoinEntries, Within, PageOk;
    var a := pages[P].entries[i].child;
    JoinedLength(pages, P, i, s, d, m);
    CoversOf(pages, sh, root, q, k);
    var j :| 0 <= j < |pages[q].entries| && pages[q].entries[j].child in sh.keys && k in sh.keys[pages[q].entries[j].child];
    var t := if q == a then j else |pages[a].entries| + j;
    JoinedSlot(pages, sh, root, P, i, s, d, m, t);
    var c := m[s].entries[t].child;
    assert c == pages[q].entries[j].child && k in MergeShape(sh, s, d).keys[c];
  }

  lemma JoinedLength(pages: map<nat, Page>, P: nat, i: nat, s: nat, d: nat, m: map<nat, Page>)
    requires Siblings(pages, P, i, s, d) && MergePages(pages, m, P, i, s, d) && IsInternal(pages, s)
    ensures IsInternal(m, s)
    ensures |m[s].entries| == |pages[pages[P].entries[i].child].entries| + |pages[pages[P].entries[i+1].child].entries|
  {
  }

  lemma CoversOf(pages: map<nat, Page>, sh: Shape, root: nat, q: nat, k: Key)
    requires TreeOk(pages, sh, root) && IsInternal(pages, q) && k in sh.keys[q]
    ensures Covers(sh, pages[q].entries, k) && Dom(pages, sh)
  {
    assert PageOk(pages, sh, q);
  }

  lemma MergeInternalOk(pages: map<nat, Page>, sh: Shape, root: nat, P: nat, i: nat, s: nat, d: nat, m: map<nat, Page>)
    requires TreeOk(pages, sh, root) && Siblings(pages, P, i, s, d) && MergePages(pages, m, P, i, s, d)
    requires IsInternal(pages, s)
    ensures Dom(m, MergeShape(sh, s, d)) && IsInternal(m, s) && InternalOk(m, MergeShape(sh, s, d), s)
  {
    var sh', js := MergeShape(sh, s, d), m[s].entries;
    MergeDom(pages, sh, root, P, i, s, d, m);
    assert PageOk(pages, sh, pages[P].entries[i].child);
    JoinedSlot(pages, sh, root, P, i, s, d, m, 0);
    forall t | 0 <= t < |js|
      ensures SlotOk(m, sh', s, t)
    {
      JoinedSlot(pages, sh, root, P, i, s, d, m, t);
    }
    forall k | k in sh'.keys[s]
      ensures Covers(sh', js, k)
    {
      JoinedCovers(pages, sh, root, P, i, s, d, m, if k in sh.keys[s] then s else d, k);
    }
  }

  /** A child of s or d is a child of s afterwards. */
  lemma MergeHangs(pages: map<nat, Page>, sh: Shape, root: nat, P: nat, i: nat, s: nat, d: nat, m: map<nat, Page>, r: nat, j: nat)
    requires TreeOk(pages, sh, root) && Siblings(pages, P, i, s, d) && MergePages(pages, m, P, i, s, d)
    requires (r == s || r == d) && IsInternal(pages, r) && j < |pages[r].entries|
    ensures IsInternal(m, s) && HasChild(m[s].entries, pages[r].entries[j].child)
  {
    var es := pages[P].entries;
    var a, b := es[i].child, es[i+1].child;
    if r == b { JoinedChild(pages[a].entries, es[i+1].key, pages[b].entries, j); }
    assert m[s].entries[if r == b then |pages[a].entries| + j else j].child == pages[r].entries[j].child;
  }

  lemma MergeAttached(pages: map<nat, Page>, sh: Shape, root: nat, P: nat, i: nat, s: nat, d: nat, m: map<nat, Page>, q: nat)
    requires TreeOk(pages, sh, root) && Siblings(pages, P, i, s, d) && MergePages(pages, m, P, i, s, d)
    requires IsTreePage(m, q) && q != root
    ensures Dom(m, MergeShape(sh, s, d)) && IsTreePage(m, root)
    ensures Attached(m, MergeShape(sh, s, d), root, q)
  {
    hide PageOk, SlotOk, Covers, Within;
    var sh' := MergeShape(sh, s, d);
    MergeDom(pages, sh, root, P, i, s, d, m);
    MergeSame(pages, sh, root, P, i, s, d, m, root);
    assert Attached(pages, sh, root, q);
    var r, j := ParentSlot(pages, sh, root, q);
    var w := NonRootKey(pages, sh, root, q);
    assert w in sh'.keys[q];
    if q == s {
      assert m[P].entries[i].child == s;
    } else if r == d {
      MergeMoved(pages, sh, root, P, i, s, d, m, j);
      MergeHangs(pages, sh, root, P, i, s, d, m, r, j);
    } else {
      MergeSame(pages, sh, root, P, i, s, d, m, q);
      if r == s {
        MergeHangs(pages, sh, root, P, i, s, d, m, r, j);
      } else if r == P {
        var es := pages[P].entries;
        assert j != i && j != i + 1;
        assert m[P].entries[if j < i then j else j - 1] == es[j];
      } else {
        assert m[r].Internal? && m[r].entries == pages[r].entries by {
          if pages[s].Leaf? { assert LinksOnly(pages[r], m[r]); }
        }
      }
    }
  }

  /** Merging two neighbouring siblings keeps the tree invariant. */
  lemma MergeTree(pages: map<nat, Page>, sh: Shape, root: nat, P: nat, i: nat, s: nat, d: nat, m: map<nat, Page>)
    requires TreeOk(pages, sh, root) && Siblings(pages, P, i, s, d) && MergePages(pages, m, P, i, s, d)
    ensures TreeOk(m, MergeShape(sh, s, d), root)
  {
    var sh' := MergeShape(sh, s, d);
    MergeDom(pages, sh, root, P, i, s, d, m);
    MergeSame(pages, sh, root, P, i, s, d, m, root);
    forall q | IsTreePage(m, q)
      ensures PageOk(m, sh', q)
    {
      MergePageOk(pages, sh, root, P, i, s, d, m, q);
    }
    assert Attached(pages, sh, root, root);
    forall q | IsTreePage(m, q)
      ensures Attached(m, sh', root, q)
    {
      if q != root { MergeAttached(pages, sh, root, P, i, s, d, m, q); }
    }
  }

  lemma MergePageOk(pages: map<nat, Page>, sh: Shape, root: nat, P: nat, i: nat, s: nat, d: nat, m: map<nat, Page>, q: nat)
    requires TreeOk(pages, sh, root) && Siblings(pages, P, i, s, d) && MergePages(pages, m, P, i, s, d)
    requires IsTreePage(m, q)
    ensures Dom(m, MergeShape(sh, s, d)) && PageOk(m, MergeShape(sh, s, d), q)
  {
    var sh' := MergeShape(sh, s, d);
    MergeDom(pages, sh, root, P, i, s, d, m);
    if q == P {
      MergeParentOk(pages, sh, root, P, i, s, d, m);
    } else if q == s {
      if pages[s].Leaf? { MergeLeafOk(pages, sh, root, P, i, s, d, m); }
      else { MergeInternalOk(pages, sh, root, P, i, s, d, m); }
    } else {
      assert PageOk(pages, sh, q);
      if pages[q].Leaf? && pages[s].Leaf? { assert LinksOnly(pages[q], m[q]); }
      if pages[q].Internal? {
        if pages[s].Leaf? { assert LinksOnly(pages[q], m[q]); }
        forall c | IsTreePage(pages, c) && pages[c].parent == q
          ensures SameChild(pages, sh, m, sh', c)
        {
          MergeSame(pages, sh, root, P, i, s, d, m, c);
        }
        FrameInternal(pages, sh, m, sh', q);
      }
    }
  }

  // ---------------------------------------------------------------- dropping the root

  ghost function ShapeMinus(sh: Shape, p: nat): Shape {
    Shape(sh.lvl - {p}, sh.keys - {p})
  }

  /** m is pages after the root's only child became the root. */
  ghost predicate CollapsePages(pages: map<nat, Page>, m: map<nat, Page>, root: nat, c: nat)
    requires IsTreePage(pages, c)
  {
    && !IsTreePage(m, root) && c != root
    && c in m && m[c] == pages[c].(parent := 0)
    && (forall q | q != root && q != c :: q in m <==> q in pages)
    && (forall q | q != root && q != c && q in pages :: m[q] == pages[q])
  }

  lemma CollapseTree(pages: map<nat, Page>, sh: Shape, root: nat, m: map<nat, Page>)
    requires TreeOk(pages, sh, root) && IsInternal(pages, root) && |pages[root].entries| == 1
    requires IsTreePage(pages, pages[root].entries[0].child) && CollapsePages(pages, m, root, pages[root].entries[0].child)
    ensures TreeOk(m, ShapeMinus(sh, root), pages[root].entries[0].child)
    ensures sh.keys[pages[root].entries[0].child] == sh.keys[root]
  {
    var c, sh' := pages[root].entries[0].child, ShapeMinus(sh, root);
    assert PageOk(pages, sh, root) && Attached(pages, sh, root, root);
    assert SlotOk(pages, sh, root, 0);
    forall k | k in sh.keys[root]
      ensures k in sh.keys[c]
    {
      assert Covers(sh, pages[root].entries, k);
    }
    assert Dom(m, sh');
    forall q | IsTreePage(m, q)
      ensures PageOk(m, sh', q)
    {
      assert PageOk(pages, sh, q);
      if pages[q].Internal? {
        forall x | IsTreePage(pages, x) && pages[x].parent == q
          ensures SameChild(pages, sh, m, sh', x)
        {
        }
        FrameInternal(pages, sh, m, sh', q);
      }
    }
    forall q | IsTreePage(m, q)
      ensures Attached(m, sh', c, q)
    {
      assert Attached(pages, sh, root, q);
      if q != c {
        var r, j := ParentSlot(pages, sh, root, q);
        var w := NonRootKey(pages, sh, root, q);
        assert w in sh'.keys[q];
        assert Attached(pages, sh, root, r);
        CollapseLevel(pages, sh, root, q);
      }
    }
  }

  /** With one child below the root, every other page is at most as high as that child. */
  lemma {:induction false} CollapseLevel(pages: map<nat, Page>, sh: Shape, root: nat, q: nat)
    requires TreeOk(pages, sh, root) && IsTreePage(pages, q) && q != root
    ensures sh.lvl[q] + 1 <= sh.lvl[root]
  {
    var r, j := ParentSlot(pages, sh, root, q);
  }

  // ---------------------------------------------------------------- moving rows or children between siblings

  /** The keys of two siblings a and b, divided anew at key. */
  ghost function ShiftShape(sh: Shape, a: nat, b: nat, key: Key): Shape
    requires a in sh.keys && b in sh.keys
  {
    Shape(sh.lvl, sh.keys[a := KeysBelow(sh.keys[a] + sh.keys[b], key)][b := KeysFrom(sh.keys[a] + sh.keys[b], key)])
  }

  /** Splitting the merged siblings again gives the parent its two slots back, with the new separator. */
  lemma SetChildMerged(es: seq<Entry>, i: nat, key: Key)
    requires i + 1 < |es|
    ensures SetChild(MergeSlot(es, i, es[i+1].child), i, key, es[i].child, es[i+1].child) == WithKey(es, i + 1, key)
  {
    var a, b := es[i].child, es[i+1].child;
    var es1 := MergeSlot(es, i, b);
    assert es1[i] == Entry(es[i].key, b);
    assert es1[..i] == es[..i];
    assert es1[i+1..] == es[i+2..];
    assert es == es[..i] + [es[i], es[i+1]] + es[i+2..];
  }

  lemma ShiftShapeMerged(sh: Shape, a: nat, b: nat, key: Key)
    requires a in sh.keys && b in sh.keys && a in sh.lvl && b in sh.lvl && sh.lvl[a] == sh.lvl[b] && a != b
    ensures SplitShape(MergeShape(sh, b, a), a, b, key) == ShiftShape(sh, a, b, key)
  {
    assert sh.keys[b] + sh.keys[a] == sh.keys[a] + sh.keys[b];
  }

  /** The pages after the rows of the leaves in slots i and i + 1 of P were divided anew in front of row j. */
  ghost function ShiftLeafPages(pages: map<nat, Page>, P: nat, i: nat, j: nat): map<nat, Page>
    requires IsInternal(pages, P) && i + 1 < |pages[P].entries|
    requires IsLeaf(pages, pages[P].entries[i].child) && IsLeaf(pages, pages[P].entries[i+1].child)
    requires 0 < j < |pages[pages[P].entries[i].child].rows + pages[pages[P].entries[i+1].child].rows|
  {
    var es := pages[P].entries;
    var a, b := es[i].child, es[i+1].child;
    var rows := pages[a].rows + pages[b].rows;
    pages[a := pages[a].(rows := rows[..j])]
         [b := pages[b].(rows := rows[j..])]
         [P := pages[P].(entries := WithKey(es, i + 1, rows[j].key))]
  }

  /** Moving rows between neighbouring leaves below one parent, as both borrow operations do, keeps the tree invariant. */
  lemma ShiftLeafTree(pages: map<nat, Page>, sh: Shape, root: nat, P: nat, i: nat, j: nat)
    requires TreeOk(pages, sh, root) && IsInternal(pages, P) && i + 1 < |pages[P].entries|
    requires IsLeaf(pages, pages[P].entries[i].child) && IsLeaf(pages, pages[P].entries[i+1].child)
    requires 0 < j < |pages[pages[P].entries[i].child].rows + pages[pages[P].entries[i+1].child].rows|
    ensures var a, b := pages[P].entries[i].child, pages[P].entries[i+1].child;
      && a in sh.keys && b in sh.keys
      && TreeOk(ShiftLeafPages(pages, P, i, j), ShiftShape(sh, a, b, (pages[a].rows + pages[b].rows)[j].key), root)
  {
    var es := pages[P].entries;
    var a, b := es[i].child, es[i+1].child;
    var rows := pages[a].rows + pages[b].rows;
    var key := rows[j].key;
    var merged := pages[b].(rows := rows);
    var m1 := (pages - {a})[b := merged][P := pages[P].(entries := MergeSlot(es, i, b))];
    SiblingsFacts(pages, sh, root, P, i);
    var sh1 := MergeShape(sh, b, a);
    var m2 := m1[a := pages[a].(rows := rows[..j])][b := merged.(rows := rows[j..])];
    ShiftLeafMerge(pages, sh, root, P, i, m1);
    ShiftLeafSplit(m1, m2, pages[a], a, b, j);
    ShiftLeafResult(pages, sh, root, P, i, j, m2);
    ShiftShapeMerged(sh, a, b, key);
    hide TreeOk, MergeShape, SplitShape, HalfSplit, LeafSplitPages, ShiftLeafPages;
    LeafHalfSplit(m1, sh1, root, b, a, j, m2);
    GrowParent(m2, SplitShape(sh1, a, b, key), root, key, a, b, i);
  }

  lemma ShiftLeafMerge(pages: map<nat, Page>, sh: Shape, root: nat, P: nat, i: nat, m: map<nat, Page>)
    requires TreeOk(pages, sh, root) && IsInternal(pages, P) && i + 1 < |pages[P].entries|
    requires var a, b := pages[P].entries[i].child, pages[P].entries[i+1].child;
      && IsLeaf(pages, a) && IsLeaf(pages, b)
      && m == (pages - {a})[b := pages[b].(rows := pages[a].rows + pages[b].rows)]
                [P := pages[P].(entries := MergeSlot(pages[P].entries, i, b))]
    ensures var a, b := pages[P].entries[i].child, pages[P].entries[i+1].child;
      a in sh.keys && b in sh.keys && TreeOk(m, MergeShape(sh, b, a), root)
    ensures IsLeaf(m, pages[P].entries[i+1].child) && !IsTreePage(m, pages[P].entries[i].child)
    ensures P != pages[P].entries[i].child && P != pages[P].entries[i+1].child
  {
    SiblingsFacts(pages, sh, root, P, i);
    MergeTree(pages, sh, root, P, i, pages[P].entries[i+1].child, pages[P].entries[i].child, m);
  }

  lemma ShiftLeafResult(pages: map<nat, Page>, sh: Shape, root: nat, P: nat, i: nat, j: nat, m2: map<nat, Page>)
    requires TreeOk(pages, sh, root) && IsInternal(pages, P) && i + 1 < |pages[P].entries|
    requires IsLeaf(pages, pages[P].entries[i].child) && IsLeaf(pages, pages[P].entries[i+1].child)
    requires 0 < j < |pages[pages[P].entries[i].child].rows + pages[pages[P].entries[i+1].child].rows|
    requires var es := pages[P].entries;
      var a, b := es[i].child, es[i+1].child;
      var rows := pages[a].rows + pages[b].rows;
      m2 == (pages - {a})[b := pages[b].(rows := rows)][P := pages[P].(entries := MergeSlot(es, i, b))]
              [a := pages[a].(rows := rows[..j])][b := pages[b].(rows := rows).(rows := rows[j..])]
    ensures var es := pages[P].entries;
      var a, b := es[i].child, es[i+1].child;
      var key := (pages[a].rows + pages[b].rows)[j].key;
      && IsInternal(m2, P) && |m2[P].entries| > i && m2[P].entries[i].child == b
      && IsLeaf(m2, b) && m2[b].parent == P && b != root
      && m2[P := m2[P].(entries := SetChild(m2[P].entries, i, key, a, b))] == ShiftLeafPages(pages, P, i, j)
  {
    var es := pages[P].entries;
    var a, b := es[i].child, es[i+1].child;
    var key := (pages[a].rows + pages[b].rows)[j].key;
    SiblingsFacts(pages, sh, root, P, i);
    var w := ChildKey(pages, sh, root, P, i + 1);
    MergeSlotAt(es, i, b);
    SetChildMerged(es, i, key);
  }

  lemma ShiftLeafSplit(m1: map<nat, Page>, m2: map<nat, Page>, pageA: Page, a: nat, b: nat, j: nat)
    requires a != 0 && a != b && !IsTreePage(m1, a) && IsLeaf(m1, b) && 0 < j < |m1[b].rows|
    requires pageA.Leaf? && pageA.parent == m1[b].parent
    requires m2 == m1[a := pageA.(rows := m1[b].rows[..j])][b := m1[b].(rows := m1[b].rows[j..])]
    ensures LeafSplitPages(m1, m2, b, a, j)
  {
  }

  /** The joined entries of the internal pages in slots i and i + 1 of P. */
  ghost function Joined2(pages: map<nat, Page>, P: nat, i: nat): seq<Entry>
    requires IsInternal(pages, P) && i + 1 < |pages[P].entries|
    requires IsInternal(pages, pages[P].entries[i].child) && IsInternal(pages, pages[P].entries[i+1].child)
    requires |pages[pages[P].entries[i+1].child].entries| > 0
  {
    var es := pages[P].entries;
    JoinEntries(pages[es[i].child].entries, es[i+1].key, pages[es[i+1].child].entries)
  }

  /** Both pages in slots i and i + 1 of P are internal, and entry j of their joined entries is a cut. */
  ghost predicate InternalSiblings(pages: map<nat, Page>, P: nat, i: nat, j: nat) {
    && IsInternal(pages, P) && i + 1 < |pages[P].entries|
    && IsInternal(pages, pages[P].entries[i].child) && IsInternal(pages, pages[P].entries[i+1].child)
    && |pages[pages[P].entries[i+1].child].entries| > 0
    && 0 < j < |Joined2(pages, P, i)| && Joined2(pages, P, i)[j].key.IntKey?
  }

  /** m is pages after the children of the internal pages in slots i and i + 1 of P were divided anew in front of joined entry j. */
  ghost predicate ShiftInternalPages(pages: map<nat, Page>, m: map<nat, Page>, P: nat, i: nat, j: nat)
    requires InternalSiblings(pages, P, i, j)
  {
    var es, js := pages[P].entries, Joined2(pages, P, i);
    var a, b := es[i].child, es[i+1].child;
    && (forall q :: q in m <==> q in pages)
    && a in m && m[a] == Internal(P, js[..j])
    && b in m && m[b] == Internal(P, js[j..])
    && P in m && m[P] == pages[P].(entries := WithKey(es, i + 1, js[j].key.k))
    && (forall q | q in pages && q != a && q != b && q != P ::
          m[q] == if pages[q].Free? then pages[q]
                  else if HasChild(js[..j], q) then pages[q].(parent := a)
                  else if HasChild(js[j..], q) then pages[q].(parent := b)
                  else pages[q])
  }

  ghost function MergedInternal(pages: map<nat, Page>, P: nat, i: nat, j: nat): map<nat, Page>
    requires InternalSiblings(pages, P, i, j)
  {
    var es := pages[P].entries;
    var a, b := es[i].child, es[i+1].child;
    map q | q in pages && q != a ::
      if q == P then Internal(pages[P].parent, MergeSlot(es, i, b))
      else if q == b then Internal(P, Joined2(pages, P, i))
      else if !pages[q].Free? && HasChild(pages[a].entries, q) then pages[q].(parent := b)
      else pages[q]
  }

  /** A page named in the joined entries is named by one of the two siblings, and the other way around. */
  lemma JoinedMembers(left: seq<Entry>, sep: EntryKey, right: seq<Entry>, j: nat, q: nat)
    requires |right| > 0 && 0 < j < |JoinEntries(left, sep, right)|
    ensures var js := JoinEntries(left, sep, right);
      HasChild(left, q) || HasChild(right, q) <==> HasChild(js[..j], q) || HasChild(js[j..], q)
  {
    var js := JoinEntries(left, sep, right);
    if HasChild(left, q) || HasChild(right, q) {
      var t;
      if HasChild(left, q) {
        t :| 0 <= t < |left| && left[t].child == q;
      } else {
        t :| 0 <= t < |right| && right[t].child == q;
        JoinedChild(left, sep, right, t);
        t := |left| + t;
      }
      assert js[t].child == q;
      if t < j { assert js[..j][t].child == q; } else { assert js[j..][t-j].child == q; }
    }
    if HasChild(js[..j], q) || HasChild(js[j..], q) {
      var t;
      if HasChild(js[..j], q) {
        t :| 0 <= t < j && js[..j][t].child == q;
      } else {
        t :| 0 <= t < |js| - j && js[j..][t].child == q;
        t := j + t;
      }
      assert js[t].child == q;
      if t < |left| { assert left[t].child == q; } else { assert right[t - |left|].child == q; }
    }
  }

  lemma ShiftInternalMerge(pages: map<nat, Page>, sh: Shape, root: nat, P: nat, i: nat, j: nat)
    requires TreeOk(pages, sh, root) && InternalSiblings(pages, P, i, j)
    ensures var a, b := pages[P].entries[i].child, pages[P].entries[i+1].child;
      a in sh.keys && b in sh.keys && TreeOk(MergedInternal(pages, P, i, j), MergeShape(sh, b, a), root)
    ensures pages[P].entries[i].child != 0 && pages[P].entries[i+1].child != root
  {
    var a, b := pages[P].entries[i].child, pages[P].entries[i+1].child;
    SiblingsFacts(pages, sh, root, P, i);
    var v := ChildKey(pages, sh, root, P, i);
    var w := ChildKey(pages, sh, root, P, i + 1);
    MergeTree(pages, sh, root, P, i, b, a, MergedInternal(pages, P, i, j));
  }

  lemma ShiftInternalSplit(pages: map<nat, Page>, sh: Shape, root: nat, P: nat, i: nat, j: nat, m: map<nat, Page>)
    requires TreeOk(pages, sh, root) && InternalSiblings(pages, P, i, j) && ShiftInternalPages(pages, m, P, i, j)
    ensures var es := pages[P].entries;
      var a, b := es[i].child, es[i+1].child;
      && IsInternal(MergedInternal(pages, P, i, j), b)
      && InternalSplitPages(MergedInternal(pages, P, i, j), m[P := Internal(pages[P].parent, MergeSlot(es, i, b))], b, a, j - 1)
  {
    var es, js := pages[P].entries, Joined2(pages, P, i);
    var a, b := es[i].child, es[i+1].child;
    var m1 := MergedInternal(pages, P, i, j);
    var m2 := m[P := Internal(pages[P].parent, MergeSlot(es, i, b))];
    SiblingsFacts(pages, sh, root, P, i);
    ChildrenNameParent(pages, sh, root, a);
    ChildrenNameParent(pages, sh, root, b);
    forall q | q != a && q != b && q in m1
      ensures m2[q] == if HasChild(js[..j], q) && !m1[q].Free? then m1[q].(parent := a) else m1[q]
    {
      JoinedMembers(pages[a].entries, es[i+1].key, pages[b].entries, j, q);
      if q == P { assert !HasChild(js[..j], P) by { ParentNotBelow(pages, sh, root, P, i); } }
    }
  }

  /** A page is not its own grandchild. */
  lemma ParentNotBelow(pages: map<nat, Page>, sh: Shape, root: nat, P: nat, i: nat)
    requires TreeOk(pages, sh, root) && IsInternal(pages, P) && i + 1 < |pages[P].entries|
    requires IsInternal(pages, pages[P].entries[i].child) && IsInternal(pages, pages[P].entries[i+1].child)
    ensures !HasChild(pages[pages[P].entries[i].child].entries, P) && !HasChild(pages[pages[P].entries[i+1].child].entries, P)
  {
    SiblingsFacts(pages, sh, root, P, i);
    ChildLevels(pages, sh, root, pages[P].entries[i].child);
    ChildLevels(pages, sh, root, pages[P].entries[i+1].child);
  }

  lemma ChildLevels(pages: map<nat, Page>, sh: Shape, root: nat, p: nat)
    requires TreeOk(pages, sh, root) && IsInternal(pages, p)
    ensures forall c | HasChild(pages[p].entries, c) :: c in sh.lvl && sh.lvl[c] + 1 == sh.lvl[p]
  {
    assert PageOk(pages, sh, p);
    forall c | HasChild(pages[p].entries, c)
      ensures c in sh.lvl && sh.lvl[c] + 1 == sh.lvl[p]
    {
      var j :| 0 <= j < |pages[p].entries| && pages[p].entries[j].child == c;
      assert SlotOk(pages, sh, p, j);
    }
  }

  lemma ShiftInternalResult(pages: map<nat, Page>, sh: Shape, root: nat, P: nat, i: nat, j: nat, m: map<nat, Page>)
    requires TreeOk(pages, sh, root) && InternalSiblings(pages, P, i, j) && ShiftInternalPages(pages, m, P, i, j)
    ensures var es := pages[P].entries;
      var a, b, key := es[i].child, es[i+1].child, Joined2(pages, P, i)[j].key.k;
      var m2 := m[P := Internal(pages[P].parent, MergeSlot(es, i, b))];
      && |MergeSlot(es, i, b)| > i && MergeSlot(es, i, b)[i].child == b
      && IsInternal(m2, b) && m2[b].parent == P && b != P
      && m2[P := m2[P].(entries := SetChild(m2[P].entries, i, key, a, b))] == m
  {
    var es := pages[P].entries;
    SiblingsFacts(pages, sh, root, P, i);
    MergeSlotAt(es, i, es[i+1].child);
    SetChildMerged(es, i, Joined2(pages, P, i)[j].key.k);
  }

  /** Moving children between neighbouring internal siblings, as both borrow operations do, keeps the tree invariant. */
  lemma ShiftInternalTree(pages: map<nat, Page>, sh: Shape, root: nat, P: nat, i: nat, j: nat, m: map<nat, Page>)
    requires TreeOk(pages, sh, root) && InternalSiblings(pages, P, i, j) && ShiftInternalPages(pages, m, P, i, j)
    ensures var a, b := pages[P].entries[i].child, pages[P].entries[i+1].child;
      && a in sh.keys && b in sh.keys
      && TreeOk(m, ShiftShape(sh, a, b, Joined2(pages, P, i)[j].key.k), root)
  {
    var es := pages[P].entries;
    var a, b, key := es[i].child, es[i+1].child, Joined2(pages, P, i)[j].key.k;
    var m1 := MergedInternal(pages, P, i, j);
    var m2 := m[P := Internal(pages[P].parent, MergeSlot(es, i, b))];
    SiblingsFacts(pages, sh, root, P, i);
    ShiftInternalMerge(pages, sh, root, P, i, j);
    ShiftInternalSplit(pages, sh, root, P, i, j, m);
    ShiftInternalResult(pages, sh, root, P, i, j, m);
    ShiftShapeMerged(sh, a, b, key);
    assert m1[b].entries == Joined2(pages, P, i);
    hide TreeOk, MergeShape, SplitShape, HalfSplit, InternalSplitPages, ShiftInternalPages, MergedInternal, Joined2;
    InternalHalfSplit(m1, MergeShape(sh, b, a), root, b, a, j - 1, m2);
    GrowParent(m2, SplitShape(MergeShape(sh, b, a), a, b, key), root, key, a, b, i);
  }

  // ---------------------------------------------------------------- the first entry's key

  /** The key of an internal page's first entry is never looked at. */
  lemma FirstKeyUnused(pages: map<nat, Page>, sh: Shape, root: nat, p: nat, key: EntryKey)
    requires TreeOk(pages, sh, root) && IsInternal(pages, p) && |pages[p].entries| > 0
    ensures TreeOk(pages[p := pages[p].(entries := pages[p].entries[0 := pages[p].entries[0].(key := key)])], sh, root)
  {
    var es := pages[p].entries;
    var es' := es[0 := es[0].(key := key)];
    var pages' := pages[p := pages[p].(entries := es')];
    forall q | IsTreePage(pages', q)
      ensures PageOk(pages', sh, q)
    {
      assert PageOk(pages, sh, q);
      if q == p {
        forall i | 0 <= i < |es'|
          ensures SlotOk(pages', sh, p, i)
        {
          assert SlotOk(pages, sh, p, i);
        }
        forall k | k in sh.keys[p]
          ensures Covers(sh, es', k)
        {
          assert Covers(sh, es, k);
          var i :| 0 <= i < |es| && es[i].child in sh.keys && k in sh.keys[es[i].child];
          assert es'[i].child == es[i].child;
        }
      } else if pages[q].Internal? {
        FrameInternal(pages, sh, pages', sh, q);
      }
    }
    forall q | IsTreePage(pages', q)
      ensures Attached(pages', sh, root, q)
    {
      assert Attached(pages, sh, root, q);
      if q != root && pages[q].parent == p {
        var j :| 0 <= j < |es| && es[j].child == q;
        assert es'[j].child == q;
      }
    }
  }

  // ---------------------------------------------------------------- the leaf chain

  lemma ShiftLeafChain(pages: map<nat, Page>, sh: Shape, root: nat, chain: seq<nat>, P: nat, i: nat, j: nat)
    requires TreeOk(pages, sh, root) && ChainInv(pages, sh, chain)
    requires IsInternal(pages, P) && i + 1 < |pages[P].entries|
    requires IsLeaf(pages, pages[P].entries[i].child) && IsLeaf(pages, pages[P].entries[i+1].child)
    requires 0 < j < |pages[pages[P].entries[i].child].rows + pages[pages[P].entries[i+1].child].rows|
    ensures var a, b := pages[P].entries[i].child, pages[P].entries[i+1].child;
      var sh' := ShiftShape(sh, a, b, (pages[a].rows + pages[b].rows)[j].key);
      Dom(ShiftLeafPages(pages, P, i, j), sh') && ChainInv(ShiftLeafPages(pages, P, i, j), sh', chain)
  {
    var a, b := pages[P].entries[i].child, pages[P].entries[i+1].child;
    var key := (pages[a].rows + pages[b].rows)[j].key;
    var pages', sh' := ShiftLeafPages(pages, P, i, j), ShiftShape(sh, a, b, key);
    SiblingsFacts(pages, sh, root, P, i);
    var n := ChainPosition(pages, sh, chain, a);
    SiblingsAdjacent(pages, sh, root, chain, P, i, n);
    assert Dom(pages', sh');
    forall x | 0 <= x < |chain|
      ensures ChainLinks(pages', chain, x)
    {
      assert ChainLinks(pages, chain, x);
    }
    forall x, y | 0 <= x < y < |chain|
      ensures LeavesBelow(sh', chain[x], chain[y])
    {
      ShiftOrder(pages, sh, chain, n, key, x, y);
    }
  }

  lemma ShiftOrder(pages: map<nat, Page>, sh: Shape, chain: seq<nat>, n: nat, key: Key, x: nat, y: nat)
    requires Dom(pages, sh) && ChainInv(pages, sh, chain)
    requires n + 1 < |chain| && x < y < |chain|
    ensures chain[n] in sh.keys && chain[n+1] in sh.keys
    ensures LeavesBelow(ShiftShape(sh, chain[n], chain[n+1], key), chain[x], chain[y])
  {
    var a, b := chain[n], chain[n+1];
    assert LeavesBelow(sh, a, b);
    assert LeavesBelow(sh, chain[x], chain[y]);
    if x < n { assert LeavesBelow(sh, chain[x], a) && LeavesBelow(sh, chain[x], b); }
    if y > n + 1 { assert LeavesBelow(sh, a, chain[y]) && LeavesBelow(sh, b, chain[y]); }
    assert x != n ==> chain[x] != a;
    assert x != n + 1 ==> chain[x] != b;
    assert y != n ==> chain[y] != a;
    assert y != n + 1 ==> chain[y] != b;
  }

  ghost function Removed(chain: seq<nat>, n: nat): seq<nat>
    requires n < |chain|
  {
    chain[..n] + chain[n+1..]
  }

  /** The sibling links after leaf s absorbed leaf d behind it. */
  ghost predicate MergeLinks(pages: map<nat, Page>, m: map<nat, Page>, s: nat, d: nat)
    requires IsLeaf(pages, s) && IsLeaf(pages, d)
  {
    && IsLeaf(m, s) && m[s].prev == pages[s].prev && m[s].next == pages[d].next
    && (forall q | IsLeaf(pages, q) && q != s && q != d ::
          && IsLeaf(m, q)
          && m[q].prev == (if q == pages[d].next then s else pages[q].prev)
          && m[q].next == pages[q].next)
  }

  lemma MergeLinkAt(pages: map<nat, Page>, m: map<nat, Page>, s: nat, d: nat, chain: seq<nat>, n: nat, x: nat)
    requires 0 !in pages && IsLeaf(pages, s) && IsLeaf(pages, d) && MergeLinks(pages, m, s, d)
    requires Distinct(chain)
    requires forall i | 0 <= i < |chain| :: ChainLinks(pages, chain, i)
    requires n + 1 < |chain| && chain[n] == s && chain[n+1] == d && x < |chain| - 1
    ensures ChainLinks(m, Removed(chain, n + 1), x)
  {
    var chain' := Removed(chain, n + 1);
    assert ChainLinks(pages, chain, n) && ChainLinks(pages, chain, n + 1);
    var x0 := if x <= n then x else x + 1;
    assert chain'[x] == chain[x0];
    assert ChainLinks(pages, chain, x0);
    if x > 0 { assert chain'[x-1] == chain[if x - 1 <= n then x - 1 else x]; }
    if x + 1 < |chain'| { assert chain'[x+1] == chain[if x + 1 <= n then x + 1 else x + 2]; }
  }

  lemma RemovedMembers(chain: seq<nat>, n: nat)
    requires n < |chain| && Distinct(chain)
    ensures Distinct(Removed(chain, n))
    ensures forall p :: p in Removed(chain, n) <==> p in chain && p != chain[n]
  {
    assert chain == chain[..n] + [chain[n]] + chain[n+1..];
    forall p | p in chain && p != chain[n]
      ensures p in Removed(chain, n)
    {
      var i :| 0 <= i < |chain| && chain[i] == p;
      assert Removed(chain, n)[if i < n then i else i - 1] == p;
    }
  }

  lemma MergeLeafChain(pages: map<nat, Page>, sh: Shape, root: nat, P: nat, i: nat, m: map<nat, Page>, chain: seq<nat>) returns (n: nat)
    requires TreeOk(pages, sh, root) && ChainInv(pages, sh, chain)
    requires IsInternal(pages, P) && i + 1 < |pages[P].entries|
    requires var s, d := pages[P].entries[i].child, pages[P].entries[i+1].child;
      IsLeaf(pages, s) && IsLeaf(pages, d) && Siblings(pages, P, i, s, d) && MergePages(pages, m, P, i, s, d) && MergeLinks(pages, m, s, d)
    ensures n + 1 < |chain| && chain[n] == pages[P].entries[i].child && chain[n+1] == pages[P].entries[i+1].child
    ensures var s, d := pages[P].entries[i].child, pages[P].entries[i+1].child;
      Dom(m, MergeShape(sh, s, d)) && ChainInv(m, MergeShape(sh, s, d), Removed(chain, n + 1))
  {
    var s, d := pages[P].entries[i].child, pages[P].entries[i+1].child;
    n := ChainPosition(pages, sh, chain, s);
    SiblingsAdjacent(pages, sh, root, chain, P, i, n);
    MergeDom(pages, sh, root, P, i, s, d, m);
    var chain', sh' := Removed(chain, n + 1), MergeShape(sh, s, d);
    RemovedMembers(chain, n + 1);
    forall p
      ensures p in chain' <==> IsLeaf(m, p)
    {
      if p != s && p != d && p != P && p in m { assert LinksOnly(pages[p], m[p]); }
    }
    forall x | 0 <= x < |chain'|
      ensures ChainLinks(m, chain', x)
    {
      MergeLinkAt(pages, m, s, d, chain, n, x);
    }
    forall x, y | 0 <= x < y < |chain'|
      ensures LeavesBelow(sh', chain'[x], chain'[y])
    {
      MergeOrder(pages, sh, chain, n, x, y);
    }
  }

  lemma MergeOrder(pages: map<nat, Page>, sh: Shape, chain: seq<nat>, n: nat, x: nat, y: nat)
    requires Dom(pages, sh) && ChainInv(pages, sh, chain)
    requires n + 1 < |chain| && x < y < |chain| - 1
    ensures chain[n] in sh.keys && chain[n+1] in sh.keys
    ensures LeavesBelow(MergeShape(sh, chain[n], chain[n+1]), Removed(chain, n + 1)[x], Removed(chain, n + 1)[y])
  {
    var s, d := chain[n], chain[n+1];
    var x0, y0 := if x <= n then x else x + 1, if y <= n then y else y + 1;
    assert Removed(chain, n + 1)[x] == chain[x0] && Removed(chain, n + 1)[y] == chain[y0];
    assert LeavesBelow(sh, s, d);
    assert LeavesBelow(sh, chain[x0], chain[y0]);
    if x0 < n { assert LeavesBelow(sh, chain[x0], s) && LeavesBelow(sh, chain[x0], d); }
    if y0 > n + 1 { assert LeavesBelow(sh, s, chain[y0]) && LeavesBelow(sh, d, chain[y0]); }
    assert chain[x0] != d && chain[y0] != d;
    assert x0 != n ==> chain[x0] != s;
    assert y0 != n ==> chain[y0] != s;
  }
}
