/** Inserting keeps the tree invariant: adding a row to a leaf, and splitting an overfull page. */
module TreeInsert {
  import opened Pages
  import opened TreeInvariant
  import opened TreeSearch

  // ---------------------------------------------------------------- framing

  /** Page c looks the same to its parent before and after. */
  ghost predicate SameChild(pages: map<nat, Page>, sh: Shape, pages': map<nat, Page>, sh': Shape, c: nat)
    requires Dom(pages, sh) && Dom(pages', sh')
  {
    && IsTreePage(pages, c) && IsTreePage(pages', c)
    && pages'[c].parent == pages[c].parent
    && sh'.lvl[c] == sh.lvl[c]
    && sh'.keys[c] == sh.keys[c]
  }

  /** An internal page stays sound when neither its entries nor its children (as seen from it) change. */
  lemma FrameInternal(pages: map<nat, Page>, sh: Shape, pages': map<nat, Page>, sh': Shape, p: nat)
    requires Dom(pages, sh) && Dom(pages', sh')
    requires IsInternal(pages, p) && IsInternal(pages', p) && InternalOk(pages, sh, p)
    requires pages'[p].entries == pages[p].entries
    requires sh'.lvl[p] == sh.lvl[p] && sh'.keys[p] == sh.keys[p]
    requires forall c | IsTreePage(pages, c) && pages[c].parent == p :: SameChild(pages, sh, pages', sh', c)
    ensures InternalOk(pages', sh', p)
  {
    var es := pages[p].entries;
    forall i | 0 <= i < |es|
      ensures SlotOk(pages', sh', p, i)
    {
      assert SlotOk(pages, sh, p, i);
      assert SameChild(pages, sh, pages', sh', es[i].child);
    }
    forall k | k in sh'.keys[p]
      ensures Covers(sh', es, k)
    {
      assert Covers(sh, es, k);
      var i :| 0 <= i < |es| && es[i].child in sh.keys && k in sh.keys[es[i].child];
      assert SlotOk(pages, sh, p, i);
      assert SameChild(pages, sh, pages', sh', es[i].child);
    }
  }

  lemma NoFreshChild(pages: map<nat, Page>, sh: Shape, p: nat, np: nat)
    requires Dom(pages, sh) && IsInternal(pages, p) && InternalOk(pages, sh, p)
    requires !IsTreePage(pages, np)
    ensures !HasChild(pages[p].entries, np)
  {
    var es := pages[p].entries;
    forall i | 0 <= i < |es|
      ensures es[i].child != np
    {
      assert SlotOk(pages, sh, p, i);
    }
  }

  // ---------------------------------------------------------------- adding a row

  ghost function ShapeWithKey(sh: Shape, S: set<nat>, k: Key): Shape {
    Shape(sh.lvl, map p | p in sh.keys :: if p in S then sh.keys[p] + {k} else sh.keys[p])
  }

  lemma AddKeyInternal(pages: map<nat, Page>, sh: Shape, root: nat, S: set<nat>, k: Key, l: nat, rows: seq<Row>, p: nat)
    requires TreeOk(pages, sh, root) && SearchPath(pages, S, root, k, l)
    requires IsInternal(pages, p)
    ensures Dom(pages[l := pages[l].(rows := rows)], ShapeWithKey(sh, S, k))
    ensures InternalOk(pages[l := pages[l].(rows := rows)], ShapeWithKey(sh, S, k), p)
  {
    var pages', sh' := pages[l := pages[l].(rows := rows)], ShapeWithKey(sh, S, k);
    var es := pages[p].entries;
    assert PageOk(pages, sh, p);
    if p in S { assert OnPath(pages, S, root, k, p); }
    forall i | 0 <= i < |es|
      ensures SlotOk(pages', sh', p, i)
    {
      assert SlotOk(pages, sh, p, i);
      var c := es[i].child;
      if c in S {
        var w := ChildKey(pages, sh, root, p, i);
        assert c != root;
        if c != l { assert OnPath(pages, S, root, k, c); }
      }
    }
    forall x | x in sh'.keys[p]
      ensures Covers(sh', es, x)
    {
      if x in sh.keys[p] {
        assert Covers(sh, es, x);
        var i :| 0 <= i < |es| && es[i].child in sh.keys && x in sh.keys[es[i].child];
        assert SlotOk(pages, sh, p, i);
      } else {
        var i :| 0 <= i < |es| && es[i].child in S;
        assert SlotOk(pages, sh, p, i);
      }
    }
  }

  lemma AddKeyTree(pages: map<nat, Page>, sh: Shape, root: nat, S: set<nat>, k: Key, l: nat, rows: seq<Row>)
    requires TreeOk(pages, sh, root) && SearchPath(pages, S, root, k, l)
    requires SortedRows(rows) && KeySet(rows) == KeySet(pages[l].rows) + {k}
    ensures TreeOk(pages[l := pages[l].(rows := rows)], ShapeWithKey(sh, S, k), root)
  {
    var pages', sh' := pages[l := pages[l].(rows := rows)], ShapeWithKey(sh, S, k);
    forall p | IsTreePage(pages', p)
      ensures PageOk(pages', sh', p)
    {
      assert PageOk(pages, sh, p);
      if pages[p].Internal? {
        AddKeyInternal(pages, sh, root, S, k, l, rows, p);
      }
    }
    forall p | IsTreePage(pages', p)
      ensures Attached(pages', sh', root, p)
    {
      assert Attached(pages, sh, root, p);
      if p != root {
        var w := NonRootKey(pages, sh, root, p);
        assert w in sh'.keys[p];
      }
    }
  }

  lemma AddKeyChain(pages: map<nat, Page>, sh: Shape, root: nat, S: set<nat>, k: Key, l: nat, rows: seq<Row>, chain: seq<nat>)
    requires TreeOk(pages, sh, root) && SearchPath(pages, S, root, k, l) && ChainInv(pages, sh, chain)
    requires Isolates(sh, root, l, k)
    ensures Dom(pages[l := pages[l].(rows := rows)], ShapeWithKey(sh, S, k))
    ensures ChainInv(pages[l := pages[l].(rows := rows)], ShapeWithKey(sh, S, k), chain)
  {
    var pages', sh' := pages[l := pages[l].(rows := rows)], ShapeWithKey(sh, S, k);
    assert forall p :: IsLeaf(pages', p) <==> IsLeaf(pages, p);
    forall i | 0 <= i < |chain|
      ensures ChainLinks(pages', chain, i)
    {
      assert ChainLinks(pages, chain, i);
    }
    forall i, j | 0 <= i < j < |chain|
      ensures LeavesBelow(sh', chain[i], chain[j])
    {
      var a, b := chain[i], chain[j];
      assert LeavesBelow(sh, a, b);
      assert ChainLinks(pages, chain, i) && ChainLinks(pages, chain, j);
      if a == root { RootLeafAlone(pages, sh, root, b); }
      if b == root { RootLeafAlone(pages, sh, root, a); }
      var v := NonRootKey(pages, sh, root, a);
      var w := NonRootKey(pages, sh, root, b);
      BelowRoot(pages, sh, root, a);
      BelowRoot(pages, sh, root, b);
    }
  }

  // ---------------------------------------------------------------- splitting a page

  ghost function KeysBelow(s: set<Key>, key: Key): set<Key> {
    set k | k in s && k < key
  }

  ghost function KeysFrom(s: set<Key>, key: Key): set<Key> {
    set k | k in s && key <= k
  }

  /** The new left page takes the keys below the separator, the split page keeps the rest. */
  ghost function SplitShape(sh: Shape, left: nat, p: nat, key: Key): Shape
    requires p in sh.lvl && p in sh.keys
  {
    Shape(sh.lvl[left := sh.lvl[p]],
          sh.keys[left := KeysBelow(sh.keys[p], key)][p := KeysFrom(sh.keys[p], key)])
  }

  /** The shape as the parent still sees it: the split page with both halves' keys. */
  ghost function Joined(sh: Shape, left: nat, p: nat): Shape
    requires p in sh.keys && left in sh.keys
  {
    Shape(sh.lvl, sh.keys[p := sh.keys[left] + sh.keys[p]])
  }

  /** A page has been split and its left half is not yet known to the parent, whose slot still names the right half. */
  ghost predicate HalfSplit(pages: map<nat, Page>, sh: Shape, root: nat, key: Key, left: nat, p: nat) {
    && Dom(pages, sh)
    && IsTreePage(pages, root) && IsTreePage(pages, left) && IsTreePage(pages, p)
    && left != p && left != root
    && pages[left].parent == pages[p].parent
    && sh.lvl[left] == sh.lvl[p]
    && (exists k :: k in sh.keys[left]) && (exists k :: k in sh.keys[p])
    && (forall k | k in sh.keys[left] :: k < key) && (forall k | k in sh.keys[p] :: key <= k)
    && (forall q {:trigger PageOk(pages, sh, q)} | IsTreePage(pages, q) && q != pages[p].parent :: PageOk(pages, sh, q))
    && (p != root ==>
          && IsInternal(pages, pages[p].parent)
          && InternalOk(pages, Joined(sh, left, p), pages[p].parent)
          && !HasChild(pages[pages[p].parent].entries, left))
    && (forall q {:trigger Attached(pages, sh, root, q)} | IsTreePage(pages, q) && q != left :: Attached(pages, sh, root, q))
  }

  ghost predicate LinksOnly(a: Page, b: Page) {
    a == b || (a.Leaf? && b.Leaf? && a.parent == b.parent && a.rows == b.rows)
  }

  /** m is pages after leaf l was split at row mid into the new leaf left and itself, up to sibling links. */
  ghost predicate LeafSplitPages(pages: map<nat, Page>, m: map<nat, Page>, l: nat, left: nat, mid: nat)
    requires IsLeaf(pages, l)
  {
    && left != 0 && !IsTreePage(pages, left)
    && 0 < mid < |pages[l].rows|
    && IsLeaf(m, left) && m[left].parent == pages[l].parent && m[left].rows == pages[l].rows[..mid]
    && IsLeaf(m, l) && m[l].parent == pages[l].parent && m[l].rows == pages[l].rows[mid..]
    && (forall q | q != left && q != l :: q in m <==> q in pages)
    && (forall q | q != left && q != l && q in pages :: LinksOnly(pages[q], m[q]))
  }

  lemma KeySetSplit(rows: seq<Row>, mid: nat)
    requires SortedRows(rows) && mid < |rows|
    ensures SortedRows(rows[..mid]) && SortedRows(rows[mid..])
    ensures KeySet(rows[..mid]) == KeysBelow(KeySet(rows), rows[mid].key)
    ensures KeySet(rows[mid..]) == KeysFrom(KeySet(rows), rows[mid].key)
  {
    forall k | k in KeysBelow(KeySet(rows), rows[mid].key)
      ensures k in KeySet(rows[..mid])
    {
      var i :| 0 <= i < |rows| && rows[i].key == k;
      assert rows[..mid][i].key == k;
    }
    forall k | k in KeysFrom(KeySet(rows), rows[mid].key)
      ensures k in KeySet(rows[mid..])
    {
      var i :| 0 <= i < |rows| && rows[i].key == k;
      assert rows[mid..][i - mid].key == k;
    }
  }

  lemma LeafSplitPageOk(pages: map<nat, Page>, sh: Shape, root: nat, l: nat, left: nat, mid: nat, m: map<nat, Page>, q: nat)
    requires TreeOk(pages, sh, root) && IsLeaf(pages, l) && LeafSplitPages(pages, m, l, left, mid)
    requires IsTreePage(m, q) && q != m[l].parent
    ensures Dom(m, SplitShape(sh, left, l, pages[l].rows[mid].key))
    ensures PageOk(m, SplitShape(sh, left, l, pages[l].rows[mid].key), q)
  {
    var sh' := SplitShape(sh, left, l, pages[l].rows[mid].key);
    assert PageOk(pages, sh, l);
    if q == left || q == l {
      KeySetSplit(pages[l].rows, mid);
    } else {
      assert PageOk(pages, sh, q);
      if pages[q].Internal? { FrameInternal(pages, sh, m, sh', q); }
    }
  }

  lemma LeafSplitParentOk(pages: map<nat, Page>, sh: Shape, root: nat, l: nat, left: nat, mid: nat, m: map<nat, Page>)
    requires TreeOk(pages, sh, root) && IsLeaf(pages, l) && LeafSplitPages(pages, m, l, left, mid)
    requires l != root
    ensures Dom(m, SplitShape(sh, left, l, pages[l].rows[mid].key))
    ensures IsInternal(m, m[l].parent)
    ensures InternalOk(m, Joined(SplitShape(sh, left, l, pages[l].rows[mid].key), left, l), m[l].parent)
    ensures !HasChild(m[m[l].parent].entries, left)
  {
    var sh' := SplitShape(sh, left, l, pages[l].rows[mid].key);
    assert Attached(pages, sh, root, l);
    var P := pages[l].parent;
    assert PageOk(pages, sh, P);
    var shJ := Joined(sh', left, l);
    assert shJ.keys[l] == sh.keys[l];
    FrameInternal(pages, sh, m, shJ, P);
    NoFreshChild(pages, sh, P, left);
  }

  lemma LeafSplitAttached(pages: map<nat, Page>, sh: Shape, root: nat, l: nat, left: nat, mid: nat, m: map<nat, Page>, q: nat)
    requires TreeOk(pages, sh, root) && IsLeaf(pages, l) && LeafSplitPages(pages, m, l, left, mid)
    requires IsTreePage(m, q) && q != left
    ensures Dom(m, SplitShape(sh, left, l, pages[l].rows[mid].key))
    ensures IsTreePage(m, root)
    ensures Attached(m, SplitShape(sh, left, l, pages[l].rows[mid].key), root, q)
  {
    var sh' := SplitShape(sh, left, l, pages[l].rows[mid].key);
    assert Attached(pages, sh, root, q);
    assert PageOk(pages, sh, l);
    assert pages[l].rows[mid].key in sh'.keys[l];
    assert LinksOnly(pages[root], m[root]) || root == l;
    if q != root {
      var w := NonRootKey(pages, sh, root, q);
      if q != l { assert w in sh'.keys[q]; }
    }
  }

  lemma LeafHalfSplit(pages: map<nat, Page>, sh: Shape, root: nat, l: nat, left: nat, mid: nat, m: map<nat, Page>)
    requires TreeOk(pages, sh, root) && IsLeaf(pages, l) && LeafSplitPages(pages, m, l, left, mid)
    ensures HalfSplit(m, SplitShape(sh, left, l, pages[l].rows[mid].key), root, pages[l].rows[mid].key, left, l)
  {
    var rows := pages[l].rows;
    assert PageOk(pages, sh, l);
    assert rows[0].key in KeysBelow(sh.keys[l], rows[mid].key);
    assert rows[mid].key in KeysFrom(sh.keys[l], rows[mid].key);
    LeafSplitAttached(pages, sh, root, l, left, mid, m, root);
    forall q | IsTreePage(m, q) && q != m[l].parent
      ensures PageOk(m, SplitShape(sh, left, l, rows[mid].key), q)
    {
      LeafSplitPageOk(pages, sh, root, l, left, mid, m, q);
    }
    if l != root { LeafSplitParentOk(pages, sh, root, l, left, mid, m); }
    forall q | IsTreePage(m, q) && q != left
      ensures Attached(m, SplitShape(sh, left, l, rows[mid].key), root, q)
    {
      LeafSplitAttached(pages, sh, root, l, left, mid, m, q);
    }
  }

  /** m is pages after internal page p was split behind slot mid into the new page left and itself. */
  ghost predicate InternalSplitPages(pages: map<nat, Page>, m: map<nat, Page>, p: nat, left: nat, mid: nat)
    requires IsInternal(pages, p)
  {
    var es := pages[p].entries;
    && left != 0 && !IsTreePage(pages, left)
    && mid + 1 < |es|
    && left in m && m[left] == Internal(pages[p].parent, es[..mid+1])
    && p in m && m[p] == Internal(pages[p].parent, es[mid+1..])
    && (forall q | q != left && q != p :: q in m <==> q in pages)
    && (forall q | q != left && q != p && q in pages ::
          m[q] == if HasChild(es[..mid+1], q) && !pages[q].Free? then pages[q].(parent := left) else pages[q])
  }

  /** The facts about splitting internal page p that the cases below share. */
  lemma InternalSplitDom(pages: map<nat, Page>, sh: Shape, root: nat, p: nat, left: nat, mid: nat, m: map<nat, Page>)
    requires TreeOk(pages, sh, root) && IsInternal(pages, p) && InternalSplitPages(pages, m, p, left, mid)
    ensures RealKeys(pages[p].entries)
    ensures Dom(m, SplitShape(sh, left, p, pages[p].entries[mid+1].key.k))
  {
    assert PageOk(pages, sh, p);
  }

  /** A child of p and on which side of the split it hangs. */
  lemma InternalSplitSlot(pages: map<nat, Page>, sh: Shape, root: nat, p: nat, left: nat, mid: nat, m: map<nat, Page>, i: nat)
    requires TreeOk(pages, sh, root) && IsInternal(pages, p) && InternalSplitPages(pages, m, p, left, mid)
    requires i < |pages[p].entries|
    ensures RealKeys(pages[p].entries) && SlotOk(pages, sh, p, i)
    ensures var c, key, sh' := pages[p].entries[i].child, pages[p].entries[mid+1].key.k, SplitShape(sh, left, p, pages[p].entries[mid+1].key.k);
      && IsTreePage(m, c)
      && c in sh'.keys && sh'.keys[c] == sh.keys[c]
      && c in sh'.lvl && sh'.lvl[c] == sh.lvl[c]
      && m[c].parent == (if i <= mid then left else p)
      && sh'.lvl[c] + 1 == sh'.lvl[if i <= mid then left else p]
      && sh'.keys[c] <= sh'.keys[if i <= mid then left else p]
      && (if i <= mid then forall k | k in sh.keys[c] :: k < key else forall k | k in sh.keys[c] :: key <= k)
  {
    var es := pages[p].entries;
    assert PageOk(pages, sh, p);
    assert SlotOk(pages, sh, p, i);
    var c := es[i].child;
    if i < mid { SeparatorsIncrease(pages, sh, root, p, i + 1, mid + 1); }
    if mid + 1 < i { SeparatorsIncrease(pages, sh, root, p, mid + 1, i); }
    if i <= mid {
      assert es[..mid+1][i].child == c;
    } else if HasChild(es[..mid+1], c) {
      var j :| 0 <= j < |es[..mid+1]| && es[..mid+1][j].child == c;
      SlotUnique(pages, sh, root, p, i, j);
      assert false;
    }
  }

  lemma InternalSplitHalfOk(pages: map<nat, Page>, sh: Shape, root: nat, p: nat, left: nat, mid: nat, m: map<nat, Page>, q: nat)
    requires TreeOk(pages, sh, root) && IsInternal(pages, p) && InternalSplitPages(pages, m, p, left, mid)
    requires q == left || q == p
    ensures RealKeys(pages[p].entries)
    ensures Dom(m, SplitShape(sh, left, p, pages[p].entries[mid+1].key.k))
    ensures InternalOk(m, SplitShape(sh, left, p, pages[p].entries[mid+1].key.k), q)
  {
    InternalSplitDom(pages, sh, root, p, left, mid, m);
    assert PageOk(pages, sh, p);
    var sh' := SplitShape(sh, left, p, pages[p].entries[mid+1].key.k);
    forall j | 0 <= j < |m[q].entries|
      ensures SlotOk(m, sh', q, j)
    {
      InternalSplitHalfSlot(pages, sh, root, p, left, mid, m, q, j);
    }
    forall k | k in sh'.keys[q]
      ensures Covers(sh', m[q].entries, k)
    {
      InternalSplitHalfCovers(pages, sh, root, p, left, mid, m, q, k);
    }
  }

  lemma CoversOwn(pages: map<nat, Page>, sh: Shape, root: nat, p: nat)
    requires TreeOk(pages, sh, root) && IsInternal(pages, p)
    ensures forall k | k in sh.keys[p] :: Covers(sh, pages[p].entries, k)
  {
    assert PageOk(pages, sh, p);
  }

  /** A slot keeps its window when the page is cut. */
  lemma PartWithin(es: seq<Entry>, part: seq<Entry>, off: nat, j: nat, keys: set<Key>)
    requires RealKeys(es) && j < |part| && off + |part| <= |es| && part == es[off..off+|part|]
    requires Within(es, off + j, keys)
    ensures RealKeys(part) && part[j] == es[off+j] && Within(part, j, keys)
  {
    assert forall i | 0 <= i < |part| :: part[i] == es[off + i];
  }

  lemma InternalSplitHalfSlot(pages: map<nat, Page>, sh: Shape, root: nat, p: nat, left: nat, mid: nat, m: map<nat, Page>, q: nat, j: nat)
    requires TreeOk(pages, sh, root) && IsInternal(pages, p) && InternalSplitPages(pages, m, p, left, mid)
    requires (q == left || q == p) && j < |m[q].entries|
    ensures RealKeys(pages[p].entries)
    ensures Dom(m, SplitShape(sh, left, p, pages[p].entries[mid+1].key.k))
    ensures RealKeys(m[q].entries) && SlotOk(m, SplitShape(sh, left, p, pages[p].entries[mid+1].key.k), q, j)
  {
    hide PageOk, Attached, Covers, Within, SplitShape, HasChild;
    InternalSplitDom(pages, sh, root, p, left, mid, m);
    var es, off := pages[p].entries, if q == left then 0 else mid + 1;
    InternalSplitSlot(pages, sh, root, p, left, mid, m, off + j);
    PartWithin(es, m[q].entries, off, j, sh.keys[es[off+j].child]);
  }

  lemma InternalSplitHalfCovers(pages: map<nat, Page>, sh: Shape, root: nat, p: nat, left: nat, mid: nat, m: map<nat, Page>, q: nat, k: Key)
    requires TreeOk(pages, sh, root) && IsInternal(pages, p) && InternalSplitPages(pages, m, p, left, mid)
    requires q == left || q == p
    ensures RealKeys(pages[p].entries)
    ensures Dom(m, SplitShape(sh, left, p, pages[p].entries[mid+1].key.k))
    ensures var sh' := SplitShape(sh, left, p, pages[p].entries[mid+1].key.k);
      k in sh'.keys[q] ==> Covers(sh', m[q].entries, k)
  {
    hide PageOk, Attached, SlotOk;
    InternalSplitDom(pages, sh, root, p, left, mid, m);
    var es, off := pages[p].entries, if q == left then 0 else mid + 1;
    CoversOwn(pages, sh, root, p);
    if k in SplitShape(sh, left, p, es[mid+1].key.k).keys[q] {
      assert Covers(sh, es, k);
      var i :| 0 <= i < |es| && es[i].child in sh.keys && k in sh.keys[es[i].child];
      InternalSplitSlot(pages, sh, root, p, left, mid, m, i);
      assert m[q].entries[i - off] == es[i];
    }
  }

  lemma InternalSplitPageOk(pages: map<nat, Page>, sh: Shape, root: nat, p: nat, left: nat, mid: nat, m: map<nat, Page>, q: nat)
    requires TreeOk(pages, sh, root) && IsInternal(pages, p) && InternalSplitPages(pages, m, p, left, mid)
    requires IsTreePage(m, q) && q != m[p].parent
    ensures RealKeys(pages[p].entries)
    ensures Dom(m, SplitShape(sh, left, p, pages[p].entries[mid+1].key.k))
    ensures PageOk(m, SplitShape(sh, left, p, pages[p].entries[mid+1].key.k), q)
  {
    InternalSplitDom(pages, sh, root, p, left, mid, m);
    var sh' := SplitShape(sh, left, p, pages[p].entries[mid+1].key.k);
    if q == left || q == p {
      InternalSplitHalfOk(pages, sh, root, p, left, mid, m, q);
    } else {
      assert PageOk(pages, sh, q);
      if pages[q].Internal? {
        forall c | IsTreePage(pages, c) && pages[c].parent == q
          ensures SameChild(pages, sh, m, sh', c)
        {
          InternalSplitOther(pages, sh, root, p, left, mid, m, c);
        }
        FrameInternal(pages, sh, m, sh', q);
      }
    }
  }

  /** A page that is not a child of p keeps its parent. */
  lemma InternalSplitOther(pages: map<nat, Page>, sh: Shape, root: nat, p: nat, left: nat, mid: nat, m: map<nat, Page>, c: nat)
    requires TreeOk(pages, sh, root) && IsInternal(pages, p) && InternalSplitPages(pages, m, p, left, mid)
    requires IsTreePage(pages, c) && pages[c].parent != p
    ensures IsTreePage(m, c) && m[c].parent == pages[c].parent
  {
    var es := pages[p].entries;
    if HasChild(es[..mid+1], c) {
      var j :| 0 <= j < |es[..mid+1]| && es[..mid+1][j].child == c;
      InternalSplitSlot(pages, sh, root, p, left, mid, m, j);
    }
  }

  lemma InternalSplitParentOk(pages: map<nat, Page>, sh: Shape, root: nat, p: nat, left: nat, mid: nat, m: map<nat, Page>)
    requires TreeOk(pages, sh, root) && IsInternal(pages, p) && InternalSplitPages(pages, m, p, left, mid)
    requires p != root
    ensures RealKeys(pages[p].entries)
    ensures Dom(m, SplitShape(sh, left, p, pages[p].entries[mid+1].key.k))
    ensures IsInternal(m, m[p].parent)
    ensures InternalOk(m, Joined(SplitShape(sh, left, p, pages[p].entries[mid+1].key.k), left, p), m[p].parent)
    ensures !HasChild(m[m[p].parent].entries, left)
  {
    InternalSplitDom(pages, sh, root, p, left, mid, m);
    var sh' := SplitShape(sh, left, p, pages[p].entries[mid+1].key.k);
    var P, s := ParentSlot(pages, sh, root, p);
    assert PageOk(pages, sh, P);
    var shJ := Joined(sh', left, p);
    assert shJ.keys[p] == sh.keys[p];
    InternalSplitOther(pages, sh, root, p, left, mid, m, p);
    forall c | IsTreePage(pages, c) && pages[c].parent == P
      ensures SameChild(pages, sh, m, shJ, c)
    {
      InternalSplitOther(pages, sh, root, p, left, mid, m, c);
    }
    FrameInternal(pages, sh, m, shJ, P);
    NoFreshChild(pages, sh, P, left);
  }

  /** Below the parts of a split page hang the children that hung below it. */
  lemma InternalSplitHangs(pages: map<nat, Page>, sh: Shape, root: nat, p: nat, left: nat, mid: nat, m: map<nat, Page>, q: nat)
    requires TreeOk(pages, sh, root) && IsInternal(pages, p) && InternalSplitPages(pages, m, p, left, mid)
    requires IsTreePage(m, q) && q != left && q != root
    ensures IsInternal(m, m[q].parent) && HasChild(m[m[q].parent].entries, q)
  {
    assert Attached(pages, sh, root, q);
    var r, i := ParentSlot(pages, sh, root, q);
    if r == p {
      InternalSplitSlot(pages, sh, root, p, left, mid, m, i);
      if i <= mid { assert m[left].entries[i].child == q; } else { assert m[p].entries[i - mid - 1].child == q; }
    } else {
      InternalSplitOther(pages, sh, root, p, left, mid, m, q);
      assert m[r].entries[i].child == q;
    }
  }

  lemma InternalSplitAttached(pages: map<nat, Page>, sh: Shape, root: nat, p: nat, left: nat, mid: nat, m: map<nat, Page>, q: nat)
    requires TreeOk(pages, sh, root) && IsInternal(pages, p) && InternalSplitPages(pages, m, p, left, mid)
    requires IsTreePage(m, q) && q != left
    ensures RealKeys(pages[p].entries)
    ensures Dom(m, SplitShape(sh, left, p, pages[p].entries[mid+1].key.k))
    ensures IsTreePage(m, root)
    ensures Attached(m, SplitShape(sh, left, p, pages[p].entries[mid+1].key.k), root, q)
  {
    hide PageOk, SlotOk, Covers, InternalOk, LeafOk;
    InternalSplitDom(pages, sh, root, p, left, mid, m);
    var sh' := SplitShape(sh, left, p, pages[p].entries[mid+1].key.k);
    assert Attached(pages, sh, root, q) && Attached(pages, sh, root, root) && Attached(pages, sh, root, p);
    InternalSplitOther(pages, sh, root, p, left, mid, m, root);
    if q != root {
      InternalSplitHangs(pages, sh, root, p, left, mid, m, q);
      if q == p {
        var w := ChildKey(pages, sh, root, p, mid + 1);
        InternalSplitSlot(pages, sh, root, p, left, mid, m, mid + 1);
        assert w in sh'.keys[p];
      } else {
        var v := NonRootKey(pages, sh, root, q);
        assert v in sh'.keys[q];
      }
    }
  }

  lemma InternalHalfSplit(pages: map<nat, Page>, sh: Shape, root: nat, p: nat, left: nat, mid: nat, m: map<nat, Page>)
    requires TreeOk(pages, sh, root) && IsInternal(pages, p) && InternalSplitPages(pages, m, p, left, mid)
    ensures RealKeys(pages[p].entries)
    ensures HalfSplit(m, SplitShape(sh, left, p, pages[p].entries[mid+1].key.k), root, pages[p].entries[mid+1].key.k, left, p)
  {
    InternalSplitDom(pages, sh, root, p, left, mid, m);
    var es := pages[p].entries;
    var key := es[mid+1].key.k;
    var v := ChildKey(pages, sh, root, p, 0);
    InternalSplitSlot(pages, sh, root, p, left, mid, m, 0);
    assert v in KeysBelow(sh.keys[p], key);
    var w := ChildKey(pages, sh, root, p, mid + 1);
    assert w in KeysFrom(sh.keys[p], key);
    InternalSplitAttached(pages, sh, root, p, left, mid, m, root);
    forall q | IsTreePage(m, q) && q != m[p].parent
      ensures PageOk(m, SplitShape(sh, left, p, key), q)
    {
      InternalSplitPageOk(pages, sh, root, p, left, mid, m, q);
    }
    if p != root { InternalSplitParentOk(pages, sh, root, p, left, mid, m); }
    forall q | IsTreePage(m, q) && q != left
      ensures Attached(m, SplitShape(sh, left, p, key), root, q)
    {
      InternalSplitAttached(pages, sh, root, p, left, mid, m, q);
    }
  }

  // ---------------------------------------------------------------- telling the parent

  /** setChild: the slot of the split page now names its left half, and a new slot its right half. */
  function SetChild(es: seq<Entry>, i: nat, key: Key, left: nat, right: nat): seq<Entry>
    requires i < |es|
  {
    es[..i] + [Entry(es[i].key, left), Entry(IntKey(key), right)] + es[i+1..]
  }

  /** The separator of a split page routes to the slot that names that page. */
  lemma SplitSlot(pages: map<nat, Page>, sh: Shape, root: nat, key: Key, left: nat, p: nat) returns (s: nat)
    requires HalfSplit(pages, sh, root, key, left, p) && p != root
    ensures IsInternal(pages, pages[p].parent)
    ensures var es := pages[pages[p].parent].entries;
      && s < |es| && es[s].child == p
      && RealKeys(es) && Increasing(es) && Routes(es, key, s)
  {
    var P := pages[p].parent;
    var es := pages[P].entries;
    var shJ := Joined(sh, left, p);
    assert Attached(pages, sh, root, p);
    s :| 0 <= s < |es| && es[s].child == p;
    assert SlotOk(pages, shJ, P, s);
    forall i | 0 <= i < |es|
      ensures HasKey(shJ, es[i].child)
    {
      assert SlotOk(pages, shJ, P, i);
      var c := es[i].child;
      assert Attached(pages, sh, root, c);
      assert Attached(pages, sh, root, root);
      var w :| w in sh.keys[c];
      assert w in shJ.keys[c];
    }
    forall i, j | 1 <= i < j < |es|
      ensures es[i].key.k < es[j].key.k
    {
      SeparatorsBetweenKeys(pages, shJ, P, i, j);
    }
    var a :| a in sh.keys[left];
    var b :| b in sh.keys[p];
    assert a in shJ.keys[p] && b in shJ.keys[p];
  }

  /** Slots of one page with increasing separators route a key only once. */
  lemma RouteOnce(es: seq<Entry>, k: Key, i: nat, j: nat)
    requires RealKeys(es) && Increasing(es) && Routes(es, k, i) && Routes(es, k, j)
    ensures i == j
  {
  }

  lemma GrowCovers(sh: Shape, es: seq<Entry>, s: nat, key: Key, left: nat, p: nat, k: Key)
    requires s < |es| && es[s].child == p && p in sh.keys && left in sh.keys
    requires Covers(Joined(sh, left, p), es, k)
    ensures Covers(sh, SetChild(es, s, key, left, p), k)
  {
    var shJ, es' := Joined(sh, left, p), SetChild(es, s, key, left, p);
    var i :| 0 <= i < |es| && es[i].child in shJ.keys && k in shJ.keys[es[i].child];
    if es[i].child == p {
      if k in sh.keys[left] { assert es'[s].child == left; } else { assert es'[s+1].child == p; }
    } else {
      assert es'[if i < s then i else i + 1] == es[i];
    }
  }

  lemma GrowParentSlot(pages: map<nat, Page>, sh: Shape, root: nat, key: Key, left: nat, p: nat, s: nat, i: nat)
    requires HalfSplit(pages, sh, root, key, left, p) && p != root
    requires IsInternal(pages, pages[p].parent)
    requires s < |pages[pages[p].parent].entries| && pages[pages[p].parent].entries[s].child == p
    requires i < |SetChild(pages[pages[p].parent].entries, s, key, left, p)|
    ensures var P := pages[p].parent;
      var es' := SetChild(pages[P].entries, s, key, left, p);
      var pages' := pages[P := pages[P].(entries := es')];
      Dom(pages', sh) && RealKeys(es') && SlotOk(pages', sh, P, i)
  {
    hide Covers, Attached, PageOk;
    var P := pages[p].parent;
    var es := pages[P].entries;
    var es' := SetChild(es, s, key, left, p);
    var shJ := Joined(sh, left, p);
    assert SlotOk(pages, shJ, P, s);
    assert RealKeys(es');
    if i < s {
      assert SlotOk(pages, shJ, P, i);
    } else if i > s + 1 {
      assert es'[i] == es[i-1];
      assert SlotOk(pages, shJ, P, i - 1);
    }
  }

  lemma GrowParentOk(pages: map<nat, Page>, sh: Shape, root: nat, key: Key, left: nat, p: nat, s: nat)
    requires HalfSplit(pages, sh, root, key, left, p) && p != root
    requires IsInternal(pages, pages[p].parent)
    requires s < |pages[pages[p].parent].entries| && pages[pages[p].parent].entries[s].child == p
    ensures var P := pages[p].parent;
      var pages' := pages[P := pages[P].(entries := SetChild(pages[P].entries, s, key, left, p))];
      Dom(pages', sh) && InternalOk(pages', sh, P)
  {
    hide SlotOk, Covers, Attached, PageOk;
    var P := pages[p].parent;
    var es := pages[P].entries;
    var es' := SetChild(es, s, key, left, p);
    var pages' := pages[P := pages[P].(entries := es')];
    var shJ := Joined(sh, left, p);
    forall i | 0 <= i < |es'|
      ensures RealKeys(es') && SlotOk(pages', sh, P, i)
    {
      GrowParentSlot(pages, sh, root, key, left, p, s, i);
    }
    forall k | k in sh.keys[P]
      ensures Covers(sh, es', k)
    {
      assert Covers(shJ, es, k);
      GrowCovers(sh, es, s, key, left, p, k);
    }
  }

  /** After setChild the tree invariant holds again; the parent may now be overfull. */
  lemma GrowParent(pages: map<nat, Page>, sh: Shape, root: nat, key: Key, left: nat, p: nat, s: nat)
    requires HalfSplit(pages, sh, root, key, left, p) && p != root
    requires IsInternal(pages, pages[p].parent)
    requires s < |pages[pages[p].parent].entries| && pages[pages[p].parent].entries[s].child == p
    ensures var P := pages[p].parent;
      TreeOk(pages[P := pages[P].(entries := SetChild(pages[P].entries, s, key, left, p))], sh, root)
  {
    var P := pages[p].parent;
    var es := pages[P].entries;
    var es' := SetChild(es, s, key, left, p);
    var pages' := pages[P := pages[P].(entries := es')];
    GrowParentOk(pages, sh, root, key, left, p, s);
    forall q | IsTreePage(pages', q)
      ensures PageOk(pages', sh, q)
    {
      if q != P {
        assert PageOk(pages, sh, q);
        if pages[q].Internal? { FrameInternal(pages, sh, pages', sh, q); }
      }
    }
    assert Attached(pages, sh, root, p);
    forall q | IsTreePage(pages', q)
      ensures Attached(pages', sh, root, q)
    {
      if q == left {
        assert es'[s].child == left;
      } else {
        assert Attached(pages, sh, root, q);
        if q != root && pages[q].parent == P {
          var i :| 0 <= i < |es| && es[i].child == q;
          if i == s { assert es'[s+1].child == q; } else { assert es'[if i < s then i else i + 1].child == q; }
        }
      }
    }
  }

  ghost function RootShape(sh: Shape, top: nat, left: nat, p: nat): Shape
    requires p in sh.lvl && p in sh.keys && left in sh.keys
  {
    Shape(sh.lvl[top := sh.lvl[p] + 1], sh.keys[top := sh.keys[left] + sh.keys[p]])
  }

  /** The pages after a new root was put above the two halves of the old one. */
  function RootPages(pages: map<nat, Page>, key: Key, left: nat, p: nat, top: nat): map<nat, Page>
    requires left in pages && p in pages && !pages[left].Free? && !pages[p].Free?
  {
    pages[left := pages[left].(parent := top)]
         [p := pages[p].(parent := top)]
         [top := Internal(0, [Entry(IntKey(key), left), Entry(IntKey(key), p)])]
  }

  lemma RootCovers(sh: Shape, es: seq<Entry>, left: nat, right: nat, k: Key)
    requires |es| == 2 && es[0].child == left && es[1].child == right && left in sh.keys && right in sh.keys
    requires k in sh.keys[left] || k in sh.keys[right]
    ensures Covers(sh, es, k)
  {
    if k in sh.keys[left] { assert es[0].child == left; } else { assert es[1].child == right; }
  }

  lemma GrowRootPageOk(pages: map<nat, Page>, sh: Shape, root: nat, key: Key, left: nat, top: nat, q: nat)
    requires HalfSplit(pages, sh, root, key, left, root)
    requires top != 0 && !IsTreePage(pages, top)
    requires IsTreePage(RootPages(pages, key, left, root, top), q)
    ensures Dom(RootPages(pages, key, left, root, top), RootShape(sh, top, left, root))
    ensures PageOk(RootPages(pages, key, left, root, top), RootShape(sh, top, left, root), q)
  {
    hide Covers;
    var pages', sh' := RootPages(pages, key, left, root, top), RootShape(sh, top, left, root);
    assert Attached(pages, sh, root, root);
    if q == top {
      var es := pages'[top].entries;
      assert SlotOk(pages', sh', top, 0) && SlotOk(pages', sh', top, 1);
      forall k | k in sh'.keys[top]
        ensures Covers(sh', es, k)
      {
        RootCovers(sh', es, left, root, k);
      }
    } else {
      assert PageOk(pages, sh, q);
      if pages[q].Internal? { FrameInternal(pages, sh, pages', sh', q); }
    }
  }

  lemma GrowRoot(pages: map<nat, Page>, sh: Shape, root: nat, key: Key, left: nat, top: nat)
    requires HalfSplit(pages, sh, root, key, left, root)
    requires top != 0 && !IsTreePage(pages, top)
    ensures TreeOk(RootPages(pages, key, left, root, top), RootShape(sh, top, left, root), top)
  {
    var pages', sh' := RootPages(pages, key, left, root, top), RootShape(sh, top, left, root);
    forall q | IsTreePage(pages', q)
      ensures PageOk(pages', sh', q)
    {
      GrowRootPageOk(pages, sh, root, key, left, top, q);
    }
    assert Attached(pages, sh, root, root);
    var es := pages'[top].entries;
    var a :| a in sh.keys[left];
    var b :| b in sh.keys[root];
    assert a in sh'.keys[left] && b in sh'.keys[root];
    forall q | IsTreePage(pages', q)
      ensures Attached(pages', sh', top, q)
    {
      if q == left {
        assert es[0].child == left;
      } else if q == root {
        assert es[1].child == root;
      } else if q != top {
        assert Attached(pages, sh, root, q);
        var w :| w in sh.keys[q];
        assert w in sh'.keys[q];
      }
    }
  }

  // ---------------------------------------------------------------- the leaf chain

  ghost predicate SameLinks(pages: map<nat, Page>, sh: Shape, pages': map<nat, Page>, sh': Shape, q: nat)
    requires Dom(pages, sh) && Dom(pages', sh') && IsLeaf(pages, q)
  {
    && IsLeaf(pages', q)
    && pages'[q].prev == pages[q].prev && pages'[q].next == pages[q].next
    && sh'.keys[q] == sh.keys[q]
  }

  /** Changes that leave the leaves' links and keys alone keep the chain. */
  lemma FrameChain(pages: map<nat, Page>, sh: Shape, pages': map<nat, Page>, sh': Shape, chain: seq<nat>)
    requires Dom(pages, sh) && Dom(pages', sh') && ChainInv(pages, sh, chain)
    requires forall q :: IsLeaf(pages, q) <==> IsLeaf(pages', q)
    requires forall q | IsLeaf(pages, q) :: SameLinks(pages, sh, pages', sh', q)
    ensures ChainInv(pages', sh', chain)
  {
    forall i | 0 <= i < |chain|
      ensures ChainLinks(pages', chain, i)
    {
      assert ChainLinks(pages, chain, i);
      assert SameLinks(pages, sh, pages', sh', chain[i]);
    }
    forall i, j | 0 <= i < j < |chain|
      ensures LeavesBelow(sh', chain[i], chain[j])
    {
      assert LeavesBelow(sh, chain[i], chain[j]);
      assert ChainLinks(pages, chain, i) && ChainLinks(pages, chain, j);
      assert SameLinks(pages, sh, pages', sh', chain[i]) && SameLinks(pages, sh, pages', sh', chain[j]);
    }
  }

  ghost function Inserted(chain: seq<nat>, m: nat, left: nat): seq<nat>
    requires m <= |chain|
  {
    chain[..m] + [left] + chain[m..]
  }

  /** The sibling links that splitLeaf writes. */
  ghost predicate LeafSplitLinks(pages: map<nat, Page>, m: map<nat, Page>, l: nat, left: nat)
    requires IsLeaf(pages, l)
  {
    && IsLeaf(m, left) && m[left].prev == pages[l].prev && m[left].next == l
    && IsLeaf(m, l) && m[l].prev == left && m[l].next == pages[l].next
    && (forall q | IsLeaf(pages, q) && q != l ::
          && IsLeaf(m, q)
          && m[q].prev == pages[q].prev
          && m[q].next == if q == pages[l].prev then left else pages[q].next)
  }

  lemma LeafSplitLinkAt(pages: map<nat, Page>, m: map<nat, Page>, l: nat, left: nat, chain: seq<nat>, at: nat, i: nat)
    requires 0 !in pages && IsLeaf(pages, l) && LeafSplitLinks(pages, m, l, left)
    requires Distinct(chain) && left != 0
    requires forall i | 0 <= i < |chain| :: ChainLinks(pages, chain, i)
    requires at < |chain| && chain[at] == l && i <= |chain|
    ensures ChainLinks(m, Inserted(chain, at, left), i)
  {
    var chain' := Inserted(chain, at, left);
    assert ChainLinks(pages, chain, at);
    assert chain'[at] == left;
    if i < at {
      assert ChainLinks(pages, chain, i);
      assert chain[i] != l && chain'[i] == chain[i];
      assert i + 1 < at ==> chain[i] != pages[l].prev;
    } else if i > at {
      assert ChainLinks(pages, chain, i - 1);
      assert chain'[i] == chain[i-1];
      if i > at + 1 {
        assert chain'[i-1] == chain[i-2];
        assert at > 0 ==> ChainLinks(pages, chain, at - 1);
        assert chain[i-1] != l && chain[i-1] != pages[l].prev;
      }
    }
  }

  lemma LeafSplitChain(pages: map<nat, Page>, sh: Shape, root: nat, l: nat, left: nat, mid: nat, m: map<nat, Page>,
      chain: seq<nat>, at: nat)
    requires TreeOk(pages, sh, root) && IsLeaf(pages, l) && LeafSplitPages(pages, m, l, left, mid)
    requires LeafSplitLinks(pages, m, l, left)
    requires ChainInv(pages, sh, chain) && at < |chain| && chain[at] == l
    ensures Dom(m, SplitShape(sh, left, l, pages[l].rows[mid].key))
    ensures ChainInv(m, SplitShape(sh, left, l, pages[l].rows[mid].key), Inserted(chain, at, left))
  {
    var sh' := SplitShape(sh, left, l, pages[l].rows[mid].key);
    var chain' := Inserted(chain, at, left);
    assert Dom(m, sh');
    forall i | 0 <= i < |chain'|
      ensures ChainLinks(m, chain', i)
    {
      LeafSplitLinkAt(pages, m, l, left, chain, at, i);
    }
    InsertedMembers(chain, at, left);
    forall p
      ensures p in chain' <==> IsLeaf(m, p)
    {
      if p != l && p != left && IsLeaf(m, p) { assert LinksOnly(pages[p], m[p]); }
    }
    assert left !in chain by { assert !IsLeaf(pages, left); }
    forall i, j | 0 <= i < j < |chain'|
      ensures LeavesBelow(sh', chain'[i], chain'[j])
    {
      LeafSplitOrder(pages, sh, l, left, pages[l].rows[mid].key, chain, at, i, j);
    }
  }

  lemma InsertedMembers(chain: seq<nat>, at: nat, left: nat)
    requires at <= |chain|
    ensures forall p :: p in Inserted(chain, at, left) <==> p in chain || p == left
    ensures Distinct(chain) && left !in chain ==> Distinct(Inserted(chain, at, left))
  {
    assert chain == chain[..at] + chain[at..];
  }

  lemma LeafSplitOrder(pages: map<nat, Page>, sh: Shape, l: nat, left: nat, key: Key, chain: seq<nat>, at: nat, i: nat, j: nat)
    requires Dom(pages, sh) && ChainInv(pages, sh, chain)
    requires at < |chain| && chain[at] == l && left !in chain
    requires i < j <= |chain|
    ensures l in sh.keys && l in sh.lvl
    ensures LeavesBelow(SplitShape(sh, left, l, key), Inserted(chain, at, left)[i], Inserted(chain, at, left)[j])
  {
    assert IsLeaf(pages, l);
    var i0, j0 := if i <= at then i else i - 1, if j <= at then j else j - 1;
    assert IsLeaf(pages, chain[i0]) && IsLeaf(pages, chain[j0]);
    if i0 < j0 { assert LeavesBelow(sh, chain[i0], chain[j0]); }
  }
}
