/** What a connection writes when another one has written the same leaf, or the metadata, since: storage.cpp:20-54 with one cache
    per connection (storage.h:49-57), and saveEntity of the metadata that it holds (storage.h:115-120). The lemmas are about
    single leaf writes, as setBTree and removeBtree make them without split, borrow or merge. */
module StaleCache {
  import opened Pages
  import opened TreeInvariant
  import opened TreeSearch
  import opened TreeDelete
  import opened InsertSound
  import opened DeleteSound
  import T = TableFiles
  import D = Database

  /** The file as a connection finds it that opens it now: some tree, leaf chain and free list make it sound, and the
      table in it is contents. */
  ghost predicate Opens(pages: map<nat, Page>, header: T.Header, contents: map<Key, Row>) {
    exists sh, chain, free :: Sound(pages, header.root, header.nPage, header.firstFreePage, sh, chain, free, contents)
  }

  ghost predicate Searched(pages: map<nat, Page>, root: nat, k: Key, l: nat) {
    exists S :: SearchPath(pages, S, root, k, l)
  }

  // ------------------------------------------------------------- what one leaf leaves to choose

  /** No page of a tree hangs below a leaf. */
  lemma NoChildOfLeaf(pages: map<nat, Page>, sh: Shape, root: nat, c: nat)
    requires TreeOk(pages, sh, root) && IsTreePage(pages, c)
    ensures !IsLeaf(pages, pages[c].parent)
    ensures pages[c].parent == 0 <==> c == root
  {
    assert Attached(pages, sh, root, c);
  }

  /** The first child of an internal page. */
  lemma FirstChild(pages: map<nat, Page>, sh: Shape, root: nat, p: nat) returns (c: nat)
    requires TreeOk(pages, sh, root) && IsInternal(pages, p)
    ensures IsTreePage(pages, c) && pages[c].parent == p && c != p
  {
    assert PageOk(pages, sh, p);
    assert SlotOk(pages, sh, p, 0);
    c := pages[p].entries[0].child;
  }

  /** Writing a leaf can give a tree only if that page is already a leaf of the tree, with the same parent. The root is
      then the same. */
  lemma TreeStays(pages: map<nat, Page>, sh: Shape, root: nat, l: nat, leaf: Page, sh': Shape, root': nat)
    requires TreeOk(pages, sh, root) && leaf.Leaf? && TreeInv(pages[l := leaf], sh', root')
    ensures root' == root && IsLeaf(pages, l) && leaf.parent == pages[l].parent
  {
    hide PageOk, Attached;
    var pages' := pages[l := leaf];
    assert IsTreePage(pages', l);
    if IsInternal(pages, l) {
      var c := FirstChild(pages, sh, root, l);
      NoChildOfLeaf(pages', sh', root', c);
      assert false;
    }
    NoChildOfLeaf(pages, sh, root, root);
    if root != l {
      NoChildOfLeaf(pages', sh', root', root);
      var q, i := ParentSlot(pages', sh', root', l);
      assert HasChild(pages[q].entries, l);
      ChildrenNameParent(pages, sh, root, q);
    } else {
      if root' != l {
        RootLeafAlone(pages, sh, root, root');
      }
      NoChildOfLeaf(pages', sh', root', l);
    }
  }

  /** The free list and the number of pages are the same. */
  lemma SizeStays(pages: map<nat, Page>, p: nat, page: Page, nPage: nat, firstFree: nat, free: seq<nat>,
      nPage': nat, firstFree': nat, free': seq<nat>)
    requires IsTreePage(pages, p) && !page.Free?
    requires FreeInv(pages, nPage, firstFree, free) && FreeInv(pages[p := page], nPage', firstFree', free')
    ensures nPage' == nPage && firstFree' == firstFree
  {
    var pages' := pages[p := page];
    assert forall q :: q in pages <==> q in pages';
    assert nPage in pages' <==> nPage < nPage';
    assert nPage' in pages <==> nPage' < nPage;
    assert forall q :: q in free <==> q in free';
    HeadOfList(pages, pages', free, free');
    HeadOfList(pages', pages, free', free);
  }

  /** The first free page is the one that no other free page links to. */
  lemma HeadOfList(pages: map<nat, Page>, pages': map<nat, Page>, free: seq<nat>, free': seq<nat>)
    requires Distinct(free) && (forall p :: p in free <==> p in free') && 0 !in free
    requires forall i | 0 <= i < |free| :: FreeLink(pages, free, i)
    requires forall i | 0 <= i < |free'| :: FreeLink(pages', free', i)
    requires forall p | p in free :: p in pages && p in pages' && pages[p] == pages'[p]
    ensures free != [] ==> free' != [] && free'[0] == free[0]
  {
    if free != [] {
      forall j | 0 < j < |free'| ensures free'[j] != free[0] {
        assert free'[j-1] in free';
        var i :| 0 <= i < |free| && free[i] == free'[j-1];
        assert FreeLink(pages, free, i) && FreeLink(pages', free', j - 1);
      }
      assert free[0] in free;
    }
  }

  /** The sibling links are the same. */
  lemma LinksStay(pages: map<nat, Page>, sh: Shape, chain: seq<nat>, l: nat, leaf: Page, sh': Shape, chain': seq<nat>)
    requires IsLeaf(pages, l) && leaf.Leaf? && Dom(pages, sh) && Dom(pages[l := leaf], sh')
    requires ChainInv(pages, sh, chain) && ChainInv(pages[l := leaf], sh', chain')
    ensures leaf.prev == pages[l].prev && leaf.next == pages[l].next
  {
    var pages' := pages[l := leaf];
    LinkBack(pages, sh, chain, l);
    LinkBack(pages', sh', chain', l);
    if pages[l].next != 0 { LinkBack(pages', sh', chain', pages[l].next); }
    if pages[l].prev != 0 { LinkBack(pages', sh', chain', pages[l].prev); }
    if leaf.next != 0 { LinkBack(pages, sh, chain, leaf.next); }
    if leaf.prev != 0 { LinkBack(pages, sh, chain, leaf.prev); }
  }

  /** Sibling links lead to other leaves, which link back. */
  lemma LinkBack(pages: map<nat, Page>, sh: Shape, chain: seq<nat>, l: nat)
    requires Dom(pages, sh) && ChainInv(pages, sh, chain) && IsLeaf(pages, l)
    ensures pages[l].next != 0 ==> pages[l].next != l && IsLeaf(pages, pages[l].next) && pages[pages[l].next].prev == l
    ensures pages[l].prev != 0 ==> pages[l].prev != l && IsLeaf(pages, pages[l].prev) && pages[pages[l].prev].next == l
  {
    hide LeavesBelow;
    var m := ChainPosition(pages, sh, chain, l);
    if m + 1 < |chain| { assert ChainLinks(pages, chain, m + 1); }
    if m > 0 { assert ChainLinks(pages, chain, m - 1); }
  }

  // ------------------------------------------------------------- what the table leaves to choose

  ghost predicate InOtherLeaf(pages: map<nat, Page>, l: nat, k: Key) {
    exists p :: p != l && IsLeaf(pages, p) && k in KeySet(pages[p].rows)
  }

  /** The keys of a leaf are those of the table that are in no other leaf. */
  lemma KeysOfLeaf(pages: map<nat, Page>, sh: Shape, root: nat, chain: seq<nat>, contents: map<Key, Row>, l: nat)
    requires TreeOk(pages, sh, root) && ChainInv(pages, sh, chain) && ContentInv(pages, sh, root, contents) && IsLeaf(pages, l)
    ensures SortedRows(pages[l].rows) && RowsIn(pages[l].rows, contents)
    ensures forall k :: k in KeySet(pages[l].rows) <==> k in contents && !InOtherLeaf(pages, l, k)
    ensures forall k | InOtherLeaf(pages, l, k) :: k in contents
  {
    hide ChainLinks, LeavesBelow, SortedRows;
    assert PageOk(pages, sh, l);
    forall k | k in contents && k !in KeySet(pages[l].rows) ensures InOtherLeaf(pages, l, k) {
      var p := LeafWithKey(pages, sh, root, root, k);
      assert PageOk(pages, sh, p);
    }
    forall k | InOtherLeaf(pages, l, k) ensures k in contents && k !in KeySet(pages[l].rows) {
      var p :| p != l && IsLeaf(pages, p) && k in KeySet(pages[p].rows);
      assert PageOk(pages, sh, p) && RowsIn(pages[p].rows, contents);
      if k in KeySet(pages[l].rows) { KeyInOneLeaf(pages, sh, chain, l, p, k); }
    }
    assert RowsIn(pages[l].rows, contents);
  }

  lemma NoKeys(a: seq<Row>)
    ensures KeySet(a) == {} <==> a == []
  {
    if a != [] {
      assert a[0].key in KeySet(a);
    }
  }

  /** Sorted rows of one table are determined by their keys. */
  lemma {:induction false} SameRows(a: seq<Row>, b: seq<Row>, contents: map<Key, Row>)
    requires SortedRows(a) && SortedRows(b) && RowsIn(a, contents) && RowsIn(b, contents) && KeySet(a) == KeySet(b)
    ensures a == b
    decreases |a|
  {
    NoKeys(a);
    NoKeys(b);
    if a != [] {
      LastKey(a);
      LastKey(b);
      SameRows(a[..|a|-1], b[..|b|-1], contents);
      assert a == a[..|a|-1] + [a[|a|-1]] && b == b[..|b|-1] + [b[|b|-1]];
    }
  }

  lemma LastKey(a: seq<Row>)
    requires SortedRows(a) && a != []
    ensures a[|a|-1].key in KeySet(a) && forall k | k in KeySet(a) :: k <= a[|a|-1].key
    ensures SortedRows(a[..|a|-1]) && KeySet(a[..|a|-1]) == KeySet(a) - {a[|a|-1].key}
  {
    WithoutRowKeys(a, |a| - 1);
    assert WithoutRow(a, |a| - 1) == a[..|a|-1];
  }

  /** The rows that a leaf had before a row was inserted. */
  lemma RowsBeforeInsert(rows: seq<Row>, inserted: seq<Row>, row: Row, at: nat)
    requires InsertedAt(rows, inserted, row, at) && SortedRows(inserted)
    ensures SortedRows(rows) && KeySet(rows) == KeySet(inserted) - {row.key}
    ensures forall r | r in rows :: r in inserted
  {
    assert WithoutRow(inserted, at) == rows && inserted[at] == row;
    WithoutRowKeys(inserted, at);
  }

  // ------------------------------------------------------------- the page that is written

  /** A leaf that is written whole leaves no choice but for its rows. */
  lemma LeafStays(pages: map<nat, Page>, header: T.Header, sh: Shape, chain: seq<nat>, free: seq<nat>, contents: map<Key, Row>,
      l: nat, leaf: Page, header': T.Header, contents': map<Key, Row>) returns (sh': Shape, chain': seq<nat>)
    requires Sound(pages, header.root, header.nPage, header.firstFreePage, sh, chain, free, contents) && header.root != 0
    requires leaf.Leaf? && Opens(pages[l := leaf], header', contents')
    ensures header' == header && IsLeaf(pages, l) && leaf == pages[l].(rows := leaf.rows)
    ensures TreeOk(pages[l := leaf], sh', header.root) && ChainInv(pages[l := leaf], sh', chain')
    ensures ContentInv(pages[l := leaf], sh', header.root, contents')
  {
    hide PageOk, Attached, ChainInv, FreeInv, ContentInv, FilledExcept;
    var free';
    sh', chain', free' :| Sound(pages[l := leaf], header'.root, header'.nPage, header'.firstFreePage, sh', chain', free', contents');
    TreeStays(pages, sh, header.root, l, leaf, sh', header'.root);
    SizeStays(pages, l, leaf, header.nPage, header.firstFreePage, free, header'.nPage, header'.firstFreePage, free');
    LinksStay(pages, sh, chain, l, leaf, sh', chain');
  }

  // ------------------------------------------------------------- where the search leads

  /** A search goes on to a leaf, and the pages that it has visited are a complete path. */
  lemma {:induction false} SearchEnds(pages: map<nat, Page>, sh: Shape, root: nat, S: set<nat>, k: Key, p: nat)
    returns (S': set<nat>, l: nat)
    requires TreeOk(pages, sh, root) && IsTreePage(pages, p) && PathTo(pages, S, root, k, p) && Isolates(sh, root, p, k)
    requires forall q | q in S :: sh.lvl[q] >= sh.lvl[p]
    ensures SearchPath(pages, S', root, k, l) && Isolates(sh, root, l, k)
    decreases sh.lvl[p]
  {
    hide Attached, SlotOk, OnPath, Isolates;
    if pages[p].Leaf? {
      S', l := S, p;
    } else {
      var es := pages[p].entries;
      assert PageOk(pages, sh, p);
      EntriesIncrease(pages, sh, root, p);
      var i := RoutedSlot(es, k);
      SearchStep(pages, sh, root, S, k, p, i);
      S', l := SearchEnds(pages, sh, root, S + {es[i].child}, k, es[i].child);
    }
  }

  /** Some slot routes k. */
  lemma {:induction false} RoutedSlot(es: seq<Entry>, k: Key) returns (i: nat)
    requires es != [] && RealKeys(es) && Increasing(es)
    ensures Routes(es, k, i)
    decreases |es|
  {
    if |es| == 1 || es[|es|-1].key.k <= k {
      i := |es| - 1;
    } else {
      i := RoutedSlot(es[..|es|-1], k);
    }
  }

  /** Every page on the path of a search separates its key from all others. */
  lemma {:induction false} PathIsolates(pages: map<nat, Page>, sh: Shape, root: nat, S: set<nat>, k: Key, l: nat, p: nat)
    requires TreeOk(pages, sh, root) && SearchPath(pages, S, root, k, l) && p in S && Isolates(sh, root, p, k)
    ensures Isolates(sh, root, l, k)
    decreases sh.lvl[p]
  {
    hide Attached, SlotOk, Isolates;
    if p != l {
      assert OnPath(pages, S, root, k, p);
      var es := pages[p].entries;
      var i :| 0 <= i < |es| && es[i].child in S;
      SearchStepIsolates(pages, sh, root, k, p, i);
      ChildLevels(pages, sh, root, p);
      PathIsolates(pages, sh, root, S, k, l, es[i].child);
    }
  }

  /** A key in a leaf is found there. */
  lemma FoundThere(pages: map<nat, Page>, sh: Shape, root: nat, chain: seq<nat>, k: Key, l: nat)
    requires TreeOk(pages, sh, root) && ChainInv(pages, sh, chain) && IsLeaf(pages, l) && k in KeySet(pages[l].rows)
    ensures Searched(pages, root, k, l)
  {
    hide SearchPath, Attached, ChainLinks, LeavesBelow;
    assert PathTo(pages, {root}, root, k, root) && Isolates(sh, root, root, k);
    var S, m := SearchEnds(pages, sh, root, {root}, k, root);
    PathEnds(pages, S, root, k, m);
    assert PageOk(pages, sh, l) && PageOk(pages, sh, m);
    BelowRoot(pages, sh, root, l);
    if m != l {
      KeyInOneLeaf(pages, sh, chain, l, m, k);
      OutsideLeaf(sh, root, k, m);
    }
  }

  lemma PathEnds(pages: map<nat, Page>, S: set<nat>, root: nat, k: Key, l: nat)
    requires SearchPath(pages, S, root, k, l)
    ensures IsLeaf(pages, l) && root in S
  {
  }

  lemma OutsideLeaf(sh: Shape, root: nat, k: Key, l: nat)
    requires root in sh.keys && l in sh.keys && Isolates(sh, root, l, k) && k in sh.keys[root]
    ensures k in sh.keys[l]
  {
  }

  /** Searches do not depend on what is in the leaves. */
  lemma SameSearch(pages: map<nat, Page>, root: nat, k: Key, l: nat, leaf: Page)
    requires IsLeaf(pages, l) && leaf.Leaf? && leaf == pages[l].(rows := leaf.rows) && Searched(pages[l := leaf], root, k, l)
    ensures Searched(pages, root, k, l)
  {
    var pages' := pages[l := leaf];
    var S :| SearchPath(pages', S, root, k, l);
    forall p | p in S && p != l ensures OnPath(pages, S, root, k, p) {
      assert OnPath(pages', S, root, k, p);
    }
    assert SearchPath(pages, S, root, k, l);
  }

  // ------------------------------------------------------------- an insertion

  /** A connection inserts a row into the leaf that it has cached, writes the leaf and saves the metadata that it holds. The
      file then is sound and holds its old table with exactly this row more if and only if neither the leaf nor the metadata
      was written by another connection since, and the search for the key in the file ends in this leaf. */
  lemma LeafInsertIff(file: D.Snapshot, sh: Shape, chain: seq<nat>, free: seq<nat>, contents: map<Key, Row>,
      held: T.Header, l: nat, cached: Page, row: Row, rows: seq<Row>, at: nat)
    requires Sound(file.pages, file.header.root, file.header.nPage, file.header.firstFreePage, sh, chain, free, contents)
    requires file.header.root != 0 && cached.Leaf? && InsertedAt(cached.rows, rows, row, at)
    requires RowSize(row) <= MAX_TUPLE_BYTES && UsedLeafEdited(rows) <= MAXIMUM_USED_BYTES
    ensures row.key !in contents && Opens(file.pages[l := cached.(rows := rows)], held, contents[row.key := row]) <==>
      D.UpToDate(held, map[l := cached], file) && Searched(file.pages, file.header.root, row.key, l)
  {
    hide Sound, Opens, Searched, InsertedAt;
    var pages, leaf := file.pages, cached.(rows := rows);
    if row.key !in contents && Opens(pages[l := leaf], held, contents[row.key := row]) {
      var sh', chain' := LeafStays(pages, file.header, sh, chain, free, contents, l, leaf, held, contents[row.key := row]);
      InsertNeeds(file, sh, chain, free, contents, sh', chain', l, cached, row, rows, at);
    }
    if D.UpToDate(held, map[l := cached], file) && Searched(pages, file.header.root, row.key, l) {
      assert l in map[l := cached];
      InsertOpens(file, sh, chain, free, contents, l, row, rows, at);
    }
  }

  lemma InsertNeeds(file: D.Snapshot, sh: Shape, chain: seq<nat>, free: seq<nat>, contents: map<Key, Row>,
      sh': Shape, chain': seq<nat>, l: nat, cached: Page, row: Row, rows: seq<Row>, at: nat)
    requires Sound(file.pages, file.header.root, file.header.nPage, file.header.firstFreePage, sh, chain, free, contents)
    requires file.header.root != 0 && IsLeaf(file.pages, l) && cached.Leaf? && InsertedAt(cached.rows, rows, row, at)
    requires row.key !in contents && cached.(rows := rows) == file.pages[l].(rows := rows)
    requires TreeOk(file.pages[l := cached.(rows := rows)], sh', file.header.root)
    requires ChainInv(file.pages[l := cached.(rows := rows)], sh', chain')
    requires ContentInv(file.pages[l := cached.(rows := rows)], sh', file.header.root, contents[row.key := row])
    ensures cached == file.pages[l] && Searched(file.pages, file.header.root, row.key, l)
  {
    hide InsertedAt, Searched, FreeInv, FilledExcept, PageOk, Attached, ChainLinks, LeavesBelow, SortedRows;
    var pages, root := file.pages, file.header.root;
    var pages' := pages[l := cached.(rows := rows)];
    KeysOfLeaf(pages, sh, root, chain, contents, l);
    KeysOfLeaf(pages', sh', root, chain', contents[row.key := row], l);
    RowsBeforeInsert(cached.rows, rows, row, at);
    OthersKeep(pages, l, cached.(rows := rows));
    assert KeySet(cached.rows) == KeySet(pages[l].rows);
    StillIn(cached.rows, rows, contents, contents[row.key := row]);
    SameRows(cached.rows, pages[l].rows, contents);
    FoundThere(pages', sh', root, chain', row.key, l);
    SameSearch(pages, root, row.key, l, cached.(rows := rows));
  }

  lemma OthersKeep(pages: map<nat, Page>, l: nat, leaf: Page)
    requires IsLeaf(pages, l) && leaf.Leaf?
    ensures forall k :: InOtherLeaf(pages, l, k) <==> InOtherLeaf(pages[l := leaf], l, k)
  {
    hide KeySet;
    var pages' := pages[l := leaf];
    forall k ensures InOtherLeaf(pages, l, k) <==> InOtherLeaf(pages', l, k) {
      if InOtherLeaf(pages, l, k) {
        var p :| p != l && IsLeaf(pages, p) && k in KeySet(pages[p].rows);
        assert IsLeaf(pages', p) && k in KeySet(pages'[p].rows);
      }
      if InOtherLeaf(pages', l, k) {
        var p :| p != l && IsLeaf(pages', p) && k in KeySet(pages'[p].rows);
        assert IsLeaf(pages, p) && k in KeySet(pages[p].rows);
      }
    }
  }

  lemma StillIn(rows: seq<Row>, others: seq<Row>, contents: map<Key, Row>, contents': map<Key, Row>)
    requires RowsIn(others, contents') && forall r | r in rows :: r in others
    requires forall k | k in KeySet(rows) :: k in contents && (k in contents' ==> contents'[k] == contents[k])
    ensures RowsIn(rows, contents)
  {
    forall i | 0 <= i < |rows| ensures rows[i].key in contents && contents[rows[i].key] == rows[i] {
      assert rows[i].key in KeySet(rows) && rows[i] in rows;
      var j :| 0 <= j < |others| && others[j] == rows[i];
    }
  }

  lemma InsertOpens(file: D.Snapshot, sh: Shape, chain: seq<nat>, free: seq<nat>, contents: map<Key, Row>, l: nat, row: Row,
      rows: seq<Row>, at: nat)
    requires Sound(file.pages, file.header.root, file.header.nPage, file.header.firstFreePage, sh, chain, free, contents)
    requires file.header.root != 0 && Searched(file.pages, file.header.root, row.key, l)
    requires IsLeaf(file.pages, l) && InsertedAt(file.pages[l].rows, rows, row, at)
    requires RowSize(row) <= MAX_TUPLE_BYTES && UsedLeafEdited(rows) <= MAXIMUM_USED_BYTES
    ensures row.key !in contents
    ensures Opens(file.pages[l := file.pages[l].(rows := rows)], file.header, contents[row.key := row])
  {
    hide SoundExcept, SearchPath, Isolates, ChainInv, FreeInv, FilledExcept, PageOk, Attached;
    var pages, root := file.pages, file.header.root;
    var S :| SearchPath(pages, S, root, row.key, l);
    PathEnds(pages, S, root, row.key, l);
    RootIsolates(sh, root, row.key);
    PathIsolates(pages, sh, root, S, row.key, l, root);
    NotYetThere(pages, sh, root, contents, l, row, rows, at);
    SoundHere(pages, root, file.header.nPage, file.header.firstFreePage, sh, chain, free, contents, l);
    assert pages[l := pages[l]] == pages;
    AddRowDone(pages, pages[l], root, file.header.nPage, file.header.firstFreePage, sh, chain, free, contents, S, l, row, rows, at);
  }

  lemma RootIsolates(sh: Shape, root: nat, k: Key)
    requires root in sh.keys
    ensures Isolates(sh, root, root, k)
  {
  }

  /** A row can be inserted into the leaf to which the search leads only if the table does not have its key. */
  lemma NotYetThere(pages: map<nat, Page>, sh: Shape, root: nat, contents: map<Key, Row>, l: nat, row: Row, rows: seq<Row>, at: nat)
    requires TreeOk(pages, sh, root) && ContentInv(pages, sh, root, contents) && IsLeaf(pages, l)
    requires Isolates(sh, root, l, row.key) && InsertedAt(pages[l].rows, rows, row, at)
    ensures row.key !in contents
  {
    assert PageOk(pages, sh, l);
    if row.key in contents {
      OutsideLeaf(sh, root, row.key, l);
      var i :| 0 <= i < |pages[l].rows| && pages[l].rows[i].key == row.key;
      assert false;
    }
  }

  // ------------------------------------------------------------- a removal

  /** What the table holds under the key of a row, less that. */
  ghost predicate HasRow(contents: map<Key, Row>, row: Row) {
    row.key in contents && contents[row.key] == row
  }

  /** A connection removes a row from the leaf that it has cached, which stays full enough, writes the leaf and saves the
      metadata that it holds. The file then is sound and holds its old table without exactly this row if and only if neither
      the leaf nor the metadata was written by another connection since. */
  lemma LeafRemoveIff(file: D.Snapshot, sh: Shape, chain: seq<nat>, free: seq<nat>, contents: map<Key, Row>,
      held: T.Header, l: nat, cached: Page, i: nat)
    requires Sound(file.pages, file.header.root, file.header.nPage, file.header.firstFreePage, sh, chain, free, contents)
    requires file.header.root != 0 && cached.Leaf? && SortedRows(cached.rows) && i < |cached.rows|
    requires l == held.root || UsedLeafEdited(WithoutRow(cached.rows, i)) >= MINIMUM_USED_BYTES
    ensures
      && HasRow(contents, cached.rows[i])
      && Opens(file.pages[l := cached.(rows := WithoutRow(cached.rows, i))], held, contents - {cached.rows[i].key})
      <==> D.UpToDate(held, map[l := cached], file)
  {
    hide Sound, Opens, SortedRows, WithoutRow;
    var pages, row, leaf := file.pages, cached.rows[i], cached.(rows := WithoutRow(cached.rows, i));
    if HasRow(contents, row) && Opens(pages[l := leaf], held, contents - {row.key}) {
      var sh', chain' := LeafStays(pages, file.header, sh, chain, free, contents, l, leaf, held, contents - {row.key});
      RemoveNeeds(file, sh, chain, free, contents, sh', chain', l, cached, i);
    }
    if D.UpToDate(held, map[l := cached], file) {
      assert l in map[l := cached];
      RemoveOpens(file, sh, chain, free, contents, l, i);
    }
  }

  lemma RemoveNeeds(file: D.Snapshot, sh: Shape, chain: seq<nat>, free: seq<nat>, contents: map<Key, Row>,
      sh': Shape, chain': seq<nat>, l: nat, cached: Page, i: nat)
    requires Sound(file.pages, file.header.root, file.header.nPage, file.header.firstFreePage, sh, chain, free, contents)
    requires file.header.root != 0 && IsLeaf(file.pages, l) && cached.Leaf? && SortedRows(cached.rows) && i < |cached.rows|
    requires HasRow(contents, cached.rows[i])
    requires cached.(rows := WithoutRow(cached.rows, i)) == file.pages[l].(rows := WithoutRow(cached.rows, i))
    requires TreeOk(file.pages[l := cached.(rows := WithoutRow(cached.rows, i))], sh', file.header.root)
    requires ChainInv(file.pages[l := cached.(rows := WithoutRow(cached.rows, i))], sh', chain')
    requires ContentInv(file.pages[l := cached.(rows := WithoutRow(cached.rows, i))], sh', file.header.root,
      contents - {cached.rows[i].key})
    ensures cached == file.pages[l]
  {
    hide FreeInv, FilledExcept, PageOk, Attached, ChainLinks, LeavesBelow, SortedRows, WithoutRow;
    var pages, root, row, rows := file.pages, file.header.root, cached.rows[i], WithoutRow(cached.rows, i);
    var pages' := pages[l := cached.(rows := rows)];
    KeysOfLeaf(pages, sh, root, chain, contents, l);
    KeysOfLeaf(pages', sh', root, chain', contents - {row.key}, l);
    WithoutRowKeys(cached.rows, i);
    OthersKeep(pages, l, cached.(rows := rows));
    assert row.key in KeySet(cached.rows);
    assert KeySet(cached.rows) == KeySet(pages[l].rows);
    BackIn(cached.rows, i, contents);
    SameRows(cached.rows, pages[l].rows, contents);
  }

  lemma BackIn(rows: seq<Row>, i: nat, contents: map<Key, Row>)
    requires i < |rows| && HasRow(contents, rows[i]) && RowsIn(WithoutRow(rows, i), contents - {rows[i].key})
    ensures RowsIn(rows, contents)
  {
    var rest := WithoutRow(rows, i);
    forall j | 0 <= j < |rows| ensures rows[j].key in contents && contents[rows[j].key] == rows[j] {
      if j != i { assert rest[if j < i then j else j - 1] == rows[j]; }
    }
  }

  lemma RemoveOpens(file: D.Snapshot, sh: Shape, chain: seq<nat>, free: seq<nat>, contents: map<Key, Row>, l: nat, i: nat)
    requires Sound(file.pages, file.header.root, file.header.nPage, file.header.firstFreePage, sh, chain, free, contents)
    requires file.header.root != 0 && IsLeaf(file.pages, l) && i < |file.pages[l].rows|
    requires l == file.header.root || UsedLeafEdited(WithoutRow(file.pages[l].rows, i)) >= MINIMUM_USED_BYTES
    ensures HasRow(contents, file.pages[l].rows[i])
    ensures Opens(file.pages[l := file.pages[l].(rows := WithoutRow(file.pages[l].rows, i))], file.header,
      contents - {file.pages[l].rows[i].key})
  {
    hide TreeOk, ChainInv, FreeInv, ContentInv, WithoutRow;
    var pages, h, rows := file.pages, file.header, WithoutRow(file.pages[l].rows, i);
    var k := pages[l].rows[i].key;
    RemoveRowDone(pages, h.root, h.nPage, h.firstFreePage, sh, chain, free, contents, l, i);
    RowsBytesBounds(rows);
    var pages' := pages[l := pages[l].(rows := rows)];
    assert Sound(pages', h.root, h.nPage, h.firstFreePage, ShapeWithout(sh, k), chain, free, contents - {k});
  }

  /** An abort removes the row that its transaction has inserted from the leaf that it has cached, and does not save the metadata.
      The file then is sound and holds what others have put into it, without exactly this row, if and only if the leaf in the
      file is still the one that the insertion wrote. */
  lemma LeafAbortIff(file: D.Snapshot, sh: Shape, chain: seq<nat>, free: seq<nat>, contents: map<Key, Row>,
      l: nat, cached: Page, row: Row, rows: seq<Row>, at: nat)
    requires Sound(file.pages, file.header.root, file.header.nPage, file.header.firstFreePage, sh, chain, free, contents)
    requires file.header.root != 0 && cached.Leaf? && SortedRows(cached.rows) && InsertedAt(cached.rows, rows, row, at)
    requires l == file.header.root || UsedLeafEdited(cached.rows) >= MINIMUM_USED_BYTES
    ensures HasRow(contents, row) && Opens(file.pages[l := cached], file.header, contents - {row.key}) <==>
      l in file.pages && file.pages[l] == cached.(rows := rows)
  {
    hide Sound, Opens, SortedRows;
    InsertedRows(cached.rows, rows, row, at);
    assert WithoutRow(rows, at) == cached.rows && rows[at] == row;
    var leaf := cached.(rows := rows);
    LeafRemoveIff(file, sh, chain, free, contents, file.header, l, leaf, at);
    assert leaf.(rows := WithoutRow(rows, at)) == cached;
    assert l in map[l := leaf];
  }

  // ------------------------------------------------------------- what is lost

  /** Two connections have read leaf 1 with one row. The second one inserts another row and commits. The first one inserts a
      third row, which already takes the second one out of the file, and aborts. */
  lemma LostRow(first: Row, second: Row, third: Row)
    requires first.key < second.key < third.key
    ensures var cached := Leaf(0, 0, 0, [first]);
      var committed := map[1 := cached.(rows := [first, second])];
      var inserted := committed[1 := cached.(rows := [first, third])];
      var aborted := inserted[1 := inserted[1].(rows := [first])];
      && Listed(committed, 1, 1) == [first, second]
      && Listed(inserted, 1, 1) == [first, third]
      && Listed(aborted, 1, 1) == [first]
  {
  }

  /** The rows that nextLeaf lists from the first row of leaf l on, over at most n leaves. */
  ghost function Listed(pages: map<nat, Page>, l: nat, n: nat): seq<Row>
    decreases n
  {
    if n == 0 || !IsLeaf(pages, l) then [] else pages[l].rows + Listed(pages, pages[l].next, n - 1)
  }

  /** The leaf behind leaf 1 was split in front since leaf 1 was cached, which has changed the link of leaf 1 only. A row
      inserted into the cached leaf takes leaf 2 out of every later scan. */
  lemma LostLeaf(a: Row, b: Row, c: Row, d: Row)
    requires a.key < b.key < c.key < d.key
    ensures var cached := Leaf(9, 0, 3, [a]);
      var file := map[1 := cached.(next := 2), 2 := Leaf(9, 1, 3, [c]), 3 := Leaf(9, 2, 0, [d])];
      && Listed(file, 1, 3) == [a, c, d]
      && Listed(file[1 := cached.(rows := [a, b])], 1, 3) == [a, b, d]
  {
    var cached := Leaf(9, 0, 3, [a]);
    var file := map[1 := cached.(next := 2), 2 := Leaf(9, 1, 3, [c]), 3 := Leaf(9, 2, 0, [d])];
    var written := file[1 := cached.(rows := [a, b])];
    assert Listed(file, 3, 1) == [d] && Listed(file, 2, 2) == [c] + Listed(file, 3, 1);
    assert Listed(written, 3, 2) == [d];
  }

  /** So it is in every file: behind a leaf written with the link over the next one, no leaf leads to that any more. */
  lemma SkippedLeaf(file: D.Snapshot, sh: Shape, chain: seq<nat>, free: seq<nat>, contents: map<Key, Row>, m: nat, rows: seq<Row>)
    requires Sound(file.pages, file.header.root, file.header.nPage, file.header.firstFreePage, sh, chain, free, contents)
    requires m + 2 < |chain|
    ensures forall i | 0 <= i < |chain| :: IsLeaf(file.pages, chain[i])
    ensures var written := file.pages[chain[m] := file.pages[chain[m]].(next := chain[m+2], rows := rows)];
      chain[0] != chain[m+1] && forall p | IsLeaf(written, p) :: written[p].next != chain[m+1]
  {
    hide PageOk, Attached, FreeInv, FilledExcept, LeavesBelow;
    assert forall i | 0 <= i < |chain| :: ChainLinks(file.pages, chain, i);
    forall p | IsLeaf(file.pages, p) && p != chain[m] ensures file.pages[p].next != chain[m+1] {
      var n := ChainPosition(file.pages, sh, chain, p);
      assert n != m && IsLeaf(file.pages, chain[m+1]) && chain[m+1] != 0;
      assert n + 1 < |chain| ==> chain[n+1] != chain[m+1];
    }
  }

  /** With a number of pages saved from before others have added some, and no free page, popFreePage takes a page of the
      tree for a new one. */
  lemma TakenTwice(file: D.Snapshot, sh: Shape, chain: seq<nat>, free: seq<nat>, contents: map<Key, Row>, held: T.Header)
    requires Sound(file.pages, file.header.root, file.header.nPage, file.header.firstFreePage, sh, chain, free, contents)
    requires 1 <= held.nPage < file.header.nPage && file.header.firstFreePage == 0
    ensures IsTreePage(file.pages, held.nPage)
  {
    assert free != [] ==> FreeLink(file.pages, free, 0);
    assert held.nPage in file.pages && (file.pages[held.nPage].Free? ==> held.nPage in free);
  }

  /** With a root saved from before others have put one above it, some row of the table is found no more. */
  lemma HiddenRow(file: D.Snapshot, sh: Shape, chain: seq<nat>, free: seq<nat>, contents: map<Key, Row>, held: T.Header)
    returns (k: Key)
    requires Sound(file.pages, file.header.root, file.header.nPage, file.header.firstFreePage, sh, chain, free, contents)
    requires IsTreePage(file.pages, held.root) && held.root != file.header.root
    ensures k in contents
    ensures forall l | Searched(file.pages, held.root, k, l) :: IsLeaf(file.pages, l) && k !in KeySet(file.pages[l].rows)
  {
    hide InternalOk, Attached, ChainInv, FreeInv;
    var pages, root := file.pages, file.header.root;
    var q, i := ParentSlot(pages, sh, root, held.root);
    assert q != 0 && Filled(pages[q], q == root);
    var j := if i == 0 then 1 else 0;
    k := ChildKey(pages, sh, root, q, j);
    ChildrenOrdered(pages, sh, root, q, 0, if i == 0 then 1 else i);
    assert k !in sh.keys[held.root];
    BelowRoot(pages, sh, root, pages[q].entries[j].child);
    forall l | Searched(pages, held.root, k, l) ensures IsLeaf(pages, l) && k !in KeySet(pages[l].rows) {
      var S :| SearchPath(pages, S, held.root, k, l);
      PathStaysBelow(pages, sh, root, held.root, S, k, l, held.root);
      assert PageOk(pages, sh, l);
    }
  }

  lemma {:induction false} PathStaysBelow(pages: map<nat, Page>, sh: Shape, root: nat, start: nat, S: set<nat>, k: Key, l: nat, p: nat)
    requires TreeOk(pages, sh, root) && IsTreePage(pages, start) && SearchPath(pages, S, start, k, l) && p in S
    requires sh.keys[p] <= sh.keys[start]
    ensures sh.keys[l] <= sh.keys[start]
    decreases sh.lvl[p]
  {
    hide Attached;
    if p != l {
      assert OnPath(pages, S, start, k, p);
      var es := pages[p].entries;
      var i :| 0 <= i < |es| && es[i].child in S;
      assert PageOk(pages, sh, p);
      assert SlotOk(pages, sh, p, i);
      PathStaysBelow(pages, sh, root, start, S, k, l, es[i].child);
    }
  }
}
