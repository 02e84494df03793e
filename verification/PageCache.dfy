/** Pages behind the cache of storage.cpp, over the page images on disk. */
module PageCache {
  import opened Tuples
  import opened LruCache

  // ------------------------------------------------------------- what the code does, on values

  /** A page object: what is decoded in memory, and the bytes it was last saved to. */
  datatype PageObject = PageObject(pageIndex: nat, content: Bytes, rawData: Bytes)

  /** The file, all page objects, the entries of the cache with the numbers of their objects, and the keys of lookup.
      failed: a page was read that is nowhere. */
  datatype State = State(disk: map<nat, Bytes>, objects: seq<PageObject>, items: seq<Entry<nat, nat>>, keys: set<nat>,
    loads: seq<Bytes>, failed: bool)

  ghost function Start(disk: map<nat, Bytes>): State {
    State(disk, [], [], {}, [], false)
  }

  ghost function Object(s: State, o: nat): PageObject {
    if o < |s.objects| then s.objects[o] else PageObject(0, [], [])
  }

  ghost function SetObject(s: State, o: nat, p: PageObject): State {
    if o < |s.objects| then s.(objects := s.objects[o := p]) else s
  }

  /** A page object of its own. */
  ghost function NewObject(s: State, p: PageObject): State {
    s.(objects := s.objects + [p])
  }

  /** put, and the object that it returns. */
  ghost function AfterPut(s: State, max: nat, k: nat, o: nat): (State, nat) {
    if |s.keys| >= max && s.items != [] then
      (s.(items := s.items[1..] + [Entry(k, o)], keys := s.keys - {s.items[0].key} + {k}), s.items[0].value)
    else
      (s.(items := s.items + [Entry(k, o)], keys := s.keys + {k}), o)
  }

  ghost function WriteUncached(s: State, o: nat): State {
    s.(disk := s.disk[Object(s, o).pageIndex := Object(s, o).rawData])
  }

  ghost function Save(s: State, o: nat): State {
    SetObject(s, o, Object(s, o).(rawData := Object(s, o).content))
  }

  ghost function Refresh(s: State, o: nat): State {
    SetObject(s, o, Object(s, o).(content := Object(s, o).rawData))
  }

  ghost function AfterWrite(s: State, max: nat, o: nat): State {
    if Object(s, o).pageIndex == 0 then s
    else
      var (t, out) := AfterPut(Save(s, o), max, Object(s, o).pageIndex, o);
      WriteUncached(t, out)
  }

  ghost predicate Cached(s: State, k: nat) {
    k in s.keys && LastIndex(s.items, k) >= 0
  }

  /** readPage, and the object that it returns. The object that a full cache gives up gets the index of the page read. */
  ghost function AfterRead(s: State, max: nat, k: nat): (State, nat) {
    if Cached(s, k) then
      var i := LastIndex(s.items, k);
      (Refresh(s.(items := Renewed(s.items, i)), s.items[i].value), s.items[i].value)
    else if k !in s.disk then
      (s.(failed := true), 0)
    else
      var o := |s.objects|;
      var (t, out) := AfterPut(NewObject(s, PageObject(k, [], s.disk[k])), max, k, o);
      var u := SetObject(t, out, Object(t, out).(pageIndex := k));
      (Refresh(WriteUncached(u, out), o), o)
  }

  /** One use of a page: save new contents, in a page object of its own or in the cached one; change it in memory
      without saving; or read it. */
  datatype Use =
    | Store(page: nat, contents: Bytes, inNewObject: bool)
    | Scribble(page: nat, contents: Bytes)
    | Load(page: nat)

  ghost function SetContent(s: State, o: nat, contents: Bytes): State {
    SetObject(s, o, Object(s, o).(content := contents))
  }

  ghost function Step(s: State, max: nat, u: Use): State {
    if s.failed then s
    else if u.Store? && u.inNewObject then
      AfterWrite(NewObject(s, PageObject(u.page, u.contents, [])), max, |s.objects|)
    else
      var (t, o) := AfterRead(s, max, u.page);
      if t.failed then t
      else
        match u
        case Store(_, contents, _) => AfterWrite(SetContent(t, o, contents), max, o)
        case Scribble(_, contents) => SetContent(t, o, contents)
        case Load(_) => t.(loads := t.loads + [Object(t, o).content])
  }

  ghost function After(disk: map<nat, Bytes>, uses: seq<Use>, max: nat): State {
    if uses == [] then Start(disk) else Step(After(disk, uses[..|uses|-1], max), max, uses[|uses|-1])
  }

  lemma AfterNext(disk: map<nat, Bytes>, uses: seq<Use>, i: nat, max: nat)
    requires i < |uses|
    ensures After(disk, uses[..i+1], max) == Step(After(disk, uses[..i], max), max, uses[i])
  {
    assert uses[..i+1][..i] == uses[..i];
  }

  // ------------------------------------------------------------- the code

  class Page {
    var pageIndex: nat
    var content: Bytes
    var rawData: Bytes

    constructor (pageIndex: nat, content: Bytes, rawData: Bytes)
      ensures this.pageIndex == pageIndex && this.content == content && this.rawData == rawData
    {
      this.pageIndex, this.content, this.rawData := pageIndex, content, rawData;
    }

    ghost function Value(): PageObject
      reads this
    {
      PageObject(pageIndex, content, rawData)
    }
  }

  ghost function EntryOf(k: nat, p: Page?): Entry<nat, Page?> {
    Entry(k, p)
  }

  /** items are the entries of values, whose objects are numbered in objects. */
  ghost predicate Numbered(values: seq<Entry<nat, Page?>>, items: seq<Entry<nat, nat>>, objects: seq<Page>) {
    && |values| == |items|
    && forall i | 0 <= i < |items| ::
         items[i].value < |objects| && values[i].key == items[i].key && values[i].value == objects[items[i].value]
  }

  lemma NumberedPut(values: seq<Entry<nat, Page?>>, items: seq<Entry<nat, nat>>, objects: seq<Page>, k: nat, o: nat)
    requires Numbered(values, items, objects) && o < |objects|
    ensures Numbered(values + [EntryOf(k, objects[o])], items + [Entry(k, o)], objects)
    ensures items != [] ==>
      && Numbered(values[1..] + [EntryOf(k, objects[o])], items[1..] + [Entry(k, o)], objects)
      && items[0].value < |objects| && values[0].key == items[0].key && values[0].value == objects[items[0].value]
  {
  }

  lemma NumberedMore(values: seq<Entry<nat, Page?>>, items: seq<Entry<nat, nat>>, objects: seq<Page>, p: Page)
    requires Numbered(values, items, objects)
    ensures Numbered(values, items, objects + [p])
  {
  }

  lemma NumberedGet(values: seq<Entry<nat, Page?>>, items: seq<Entry<nat, nat>>, objects: seq<Page>, k: nat)
    requires Numbered(values, items, objects)
    ensures LastIndex(items, k) == LastIndex(values, k)
    ensures LastIndex(items, k) >= 0 ==>
      && Numbered(Renewed(values, LastIndex(values, k)), Renewed(items, LastIndex(items, k)), objects)
      && items[LastIndex(items, k)].value < |objects|
      && values[LastIndex(items, k)].value == objects[items[LastIndex(items, k)].value]
  {
    hide Renewed;
    if LastIndex(values, k) >= 0 {
      LastIs(items, k, LastIndex(values, k));
      RenewedSource(values, LastIndex(values, k));
      RenewedSource(items, LastIndex(values, k));
    } else {
      assert forall j | 0 <= j < |items| :: values[j].key == items[j].key;
    }
  }

  /** One file with its cache. The images are the ones that save writes and refresh reads. */
  class CachedFile {
    const pageCache: LRUCache<nat, Page?>
    var disk: map<nat, Bytes>
    /** The page objects in the order in which they came. */
    ghost var objects: seq<Page>

    /** The page objects are as in s. */
    ghost predicate ObjectsAre(s: State)
      reads this`objects, objects
    {
      && |objects| == |s.objects|
      && (forall i, j | 0 <= i < j < |objects| :: objects[i] != objects[j])
      && forall i | 0 <= i < |objects| :: objects[i].Value() == s.objects[i]
    }

    ghost predicate CacheIs(s: State)
      reads this`objects, pageCache, pageCache.linkedList, pageCache.linkedList.repr
    {
      && pageCache.Valid() && pageCache.lookup.Keys == s.keys
      && Numbered(pageCache.Items(), s.items, objects)
    }

    /** File, cache and page objects are those of s. */
    ghost predicate Is(s: State)
      reads this, objects, pageCache, pageCache.linkedList, pageCache.linkedList.repr
    {
      disk == s.disk && ObjectsAre(s) && CacheIs(s)
    }

    constructor (disk: map<nat, Bytes>, maxSize: nat)
      requires maxSize > 0
      ensures Is(Start(disk)) && objects == [] && pageCache.maxSize == maxSize
      ensures fresh(pageCache) && fresh(pageCache.linkedList) && fresh(pageCache.linkedList.repr)
    {
      this.disk, objects := disk, [];
      pageCache := new LRUCache(maxSize);
    }

    /** A new page object. */
    method Create(k: nat, content: Bytes, rawData: Bytes, ghost s: State) returns (aPage: Page)
      requires Is(s)
      modifies this`objects
      ensures Is(NewObject(s, PageObject(k, content, rawData)))
      ensures fresh(aPage) && objects == old(objects) + [aPage]
    {
      hide LRUCache.Valid, LRUCache.Items, Numbered;
      aPage := new Page(k, content, rawData);
      NumberedMore(pageCache.Items(), s.items, objects, aPage);
      objects := objects + [aPage];
    }

    /** An object gets another value. */
    ghost predicate OnlyObject(o: nat, v: PageObject, s: State)
      reads this`objects, objects
    {
      && o < |objects| == |s.objects|
      && (forall i, j | 0 <= i < j < |objects| :: objects[i] != objects[j])
      && forall i | 0 <= i < |objects| :: objects[i].Value() == if i == o then v else s.objects[i]
    }

    lemma ObjectSet(o: nat, v: PageObject, s: State)
      requires OnlyObject(o, v, s)
      ensures ObjectsAre(SetObject(s, o, v))
    {
    }

    method SavePage(aPage: Page, ghost s: State, ghost o: nat)
      requires Is(s) && o < |objects| && objects[o] == aPage
      modifies aPage`rawData
      ensures Is(Save(s, o))
    {
      hide LRUCache.Valid, LRUCache.Items, Numbered;
      aPage.rawData := aPage.content;
      ObjectSet(o, Object(s, o).(rawData := Object(s, o).content), s);
    }

    method RefreshPage(aPage: Page, ghost s: State, ghost o: nat)
      requires Is(s) && o < |objects| && objects[o] == aPage
      modifies aPage`content
      ensures Is(Refresh(s, o))
    {
      hide LRUCache.Valid, LRUCache.Items, Numbered;
      aPage.content := aPage.rawData;
      ObjectSet(o, Object(s, o).(content := Object(s, o).rawData), s);
    }

    method SetPageContent(aPage: Page, contents: Bytes, ghost s: State, ghost o: nat)
      requires Is(s) && o < |objects| && objects[o] == aPage
      modifies aPage`content
      ensures Is(SetContent(s, o, contents))
    {
      hide LRUCache.Valid, LRUCache.Items, Numbered;
      aPage.content := contents;
      ObjectSet(o, Object(s, o).(content := contents), s);
    }

    method SetPageIndex(aPage: Page, k: nat, ghost s: State, ghost o: nat)
      requires Is(s) && o < |objects| && objects[o] == aPage
      modifies aPage`pageIndex
      ensures Is(SetObject(s, o, Object(s, o).(pageIndex := k)))
    {
      hide LRUCache.Valid, LRUCache.Items, Numbered;
      aPage.pageIndex := k;
      ObjectSet(o, Object(s, o).(pageIndex := k), s);
    }

    /** put, as writePage and readPage call it: the page goes into the cache, and the page to write comes out,
        which is the same one while the cache has room, and the one it gives up otherwise. */
    method PutPage(k: nat, aPage: Page, ghost s: State, ghost o: nat) returns (needWritingPage: Page)
      requires Is(s) && o < |objects| && objects[o] == aPage
      modifies pageCache`lookup, pageCache.linkedList, pageCache.linkedList.repr
      ensures Is(AfterPut(s, pageCache.maxSize, k, o).0)
      ensures AfterPut(s, pageCache.maxSize, k, o).1 < |objects| && needWritingPage == objects[AfterPut(s, pageCache.maxSize, k, o).1]
      ensures fresh(pageCache.linkedList.repr - old(pageCache.linkedList.repr))
    {
      hide LRUCache.Valid, LRUCache.Items, Numbered;
      NumberedPut(pageCache.Items(), s.items, objects, k, o);
      SameLength(s);
      var out := pageCache.Put(k, aPage);
      needWritingPage := out;
    }

    lemma SameLength(s: State)
      requires CacheIs(s)
      ensures |pageCache.Items()| == |s.items| && |pageCache.lookup| == |s.keys|
    {
      assert |pageCache.lookup| == |pageCache.lookup.Keys|;
    }

    method WritePageUncache(aPage: Page, ghost s: State, ghost o: nat)
      requires Is(s) && o < |objects| && objects[o] == aPage
      modifies this`disk
      ensures Is(WriteUncached(s, o))
    {
      hide LRUCache.Valid, LRUCache.Items, Numbered;
      assert aPage.Value() == s.objects[o];
      disk := disk[aPage.pageIndex := aPage.rawData];
    }

    method WritePage(aPage: Page, ghost s: State, ghost o: nat)
      requires Is(s) && o < |objects| && objects[o] == aPage
      modifies this`disk, aPage`rawData, pageCache`lookup, pageCache.linkedList, pageCache.linkedList.repr
      ensures Is(AfterWrite(s, pageCache.maxSize, o))
      ensures fresh(pageCache.linkedList.repr - old(pageCache.linkedList.repr))
    {
      hide ObjectsAre, CacheIs, AfterPut;
      ObjectIs(s, o);
      if aPage.pageIndex == 0 {
        return;
      }
      SavePage(aPage, s, o);
      ghost var t := Save(s, o);
      var needWritingPage := PutPage(aPage.pageIndex, aPage, t, o);
      WritePageUncache(needWritingPage, AfterPut(t, pageCache.maxSize, aPage.pageIndex, o).0, AfterPut(t, pageCache.maxSize, aPage.pageIndex, o).1);
    }

    lemma ObjectIs(s: State, o: nat)
      requires ObjectsAre(s) && o < |objects|
      ensures Object(s, o) == objects[o].Value() && |objects| == |s.objects|
    {
    }

    /** readPage; there is no page 0, and a page that is neither cached nor on disk cannot be read. */
    method ReadPage(k: nat, ghost s: State) returns (aPage: Page?)
      requires Is(s) && !s.failed
      modifies this, objects, pageCache`lookup, pageCache.linkedList, pageCache.linkedList.repr
      ensures Is(if k == 0 then s else AfterRead(s, pageCache.maxSize, k).0)
      ensures aPage == null <==> k == 0 || AfterRead(s, pageCache.maxSize, k).0.failed
      ensures aPage != null ==>
        && (aPage in old(objects) || fresh(aPage))
        && AfterRead(s, pageCache.maxSize, k).1 < |objects|
        && aPage == objects[AfterRead(s, pageCache.maxSize, k).1]
      ensures old(objects) <= objects && fresh(objects[|old(objects)|..])
      ensures fresh(pageCache.linkedList.repr - old(pageCache.linkedList.repr))
    {
      hide ObjectsAre, CacheIs, AfterPut, Refresh, WriteUncached, NewObject, SetObject;
      if k == 0 {
        return null;
      }
      ghost var max := pageCache.maxSize;
      KeysAre(s, k);
      ReadFails(s, max, k);
      if k in pageCache.lookup {
        ghost var o := s.items[LastIndex(s.items, k)].value;
        aPage := GetPage(k, s);
        RefreshPage(aPage, s.(items := Renewed(s.items, LastIndex(s.items, k))), o);
      } else if k in disk {
        ghost var o := |s.objects|;
        aPage := Create(k, [], disk[k], s);
        ghost var t := NewObject(s, PageObject(k, [], s.disk[k]));
        var needWritingPage := PutPage(k, aPage, t, o);
        ghost var (u, out) := AfterPut(t, max, k, o);
        SetPageIndex(needWritingPage, k, u, out);
        ghost var v := SetObject(u, out, Object(u, out).(pageIndex := k));
        WritePageUncache(needWritingPage, v, out);
        RefreshPage(aPage, WriteUncached(v, out), o);
      } else {
        aPage := null;
        Failed(s);
      }
    }

    lemma Failed(s: State)
      requires Is(s)
      ensures Is(s.(failed := true))
    {
    }

    lemma KeysAre(s: State, k: nat)
      requires Is(s)
      ensures k in pageCache.lookup <==> Cached(s, k)
      ensures |objects| == |s.objects| && disk == s.disk
    {
      NumberedGet(pageCache.Items(), s.items, objects, k);
      if k in pageCache.lookup {
        assert PointsTo(pageCache.linkedList.Nodes(), k, pageCache.lookup[k]);
      }
    }

    /** get of a page that is cached. */
    method GetPage(k: nat, ghost s: State) returns (aPage: Page)
      requires Is(s) && k in pageCache.lookup && Cached(s, k)
      modifies pageCache.linkedList, pageCache.linkedList.repr
      ensures Is(s.(items := Renewed(s.items, LastIndex(s.items, k))))
      ensures var o := s.items[LastIndex(s.items, k)].value; o < |objects| && aPage == objects[o]
      ensures fresh(pageCache.linkedList.repr - old(pageCache.linkedList.repr))
    {
      hide LRUCache.Valid, LRUCache.Items, Numbered, LastIndex, Renewed;
      NumberedGet(pageCache.Items(), s.items, objects, k);
      var cached, at := pageCache.Get(k);
      aPage := cached.value;
    }

    /** One use of a page. */
    method UsePage(u: Use, ghost s: State) returns (load: Bytes, ok: bool)
      requires Is(s) && u.page != 0 && !s.failed
      modifies this, objects, pageCache`lookup, pageCache.linkedList, pageCache.linkedList.repr
      ensures Is(Step(s, pageCache.maxSize, u))
      ensures ok <==> !Step(s, pageCache.maxSize, u).failed
      ensures ok ==> Step(s, pageCache.maxSize, u).loads == if u.Load? then s.loads + [load] else s.loads
      ensures !ok ==> Step(s, pageCache.maxSize, u).loads == s.loads
      ensures old(objects) <= objects && fresh(objects[|old(objects)|..])
      ensures fresh(pageCache.linkedList.repr - old(pageCache.linkedList.repr))
    {
      hide Is, AfterPut, AfterWrite, AfterRead, SetContent, NewObject, Object;
      load, ok := [], true;
      StepKeeps(s, pageCache.maxSize, u);
      if u.Store? && u.inNewObject {
        NumberOf(s);
        var aPage := Create(u.page, u.contents, [], s);
        WritePage(aPage, NewObject(s, PageObject(u.page, u.contents, [])), |s.objects|);
        return;
      }
      var aPage := ReadPage(u.page, s);
      ghost var t, o := AfterRead(s, pageCache.maxSize, u.page).0, AfterRead(s, pageCache.maxSize, u.page).1;
      if aPage == null {
        ok := false;
        return;
      }
      if u.Store? {
        SetPageContent(aPage, u.contents, t, o);
        WritePage(aPage, SetContent(t, o, u.contents), o);
      } else if u.Scribble? {
        SetPageContent(aPage, u.contents, t, o);
      } else {
        load := aPage.content;
        Loaded(t, o);
      }
    }

    lemma NumberOf(s: State)
      requires Is(s)
      ensures |objects| == |s.objects|
    {
    }

    lemma Loaded(t: State, o: nat)
      requires Is(t) && o < |objects|
      ensures Object(t, o).content == objects[o].content
      ensures Is(t.(loads := t.loads + [Object(t, o).content]))
    {
    }
  }

  lemma ReadFails(s: State, max: nat, k: nat)
    requires !s.failed
    ensures AfterRead(s, max, k).0.failed <==> !Cached(s, k) && k !in s.disk
  {
  }

  /** Only a Load adds to loads, and nothing but a page that is nowhere fails. */
  lemma StepKeeps(s: State, max: nat, u: Use)
    requires !s.failed
    ensures var t := AfterRead(s, max, u.page).0; t.loads == s.loads
    ensures forall t: State, o: nat :: AfterWrite(t, max, o).loads == t.loads && (AfterWrite(t, max, o).failed <==> t.failed)
    ensures forall t: State, o: nat, c: Bytes :: SetContent(t, o, c).loads == t.loads && (SetContent(t, o, c).failed <==> t.failed)
    ensures forall p: PageObject :: NewObject(s, p).loads == s.loads && !NewObject(s, p).failed
  {
  }

  /** Every run of saves, unsaved changes and reads, whatever the size of the cache, does to file, cache and page
      objects what After says, and returns its loads; it stops at a page that cannot be read. */
  method Run(file: CachedFile, uses: seq<Use>) returns (loads: seq<Bytes>, ok: bool)
    requires file.Is(Start(file.disk)) && file.objects == []
    requires forall i | 0 <= i < |uses| :: uses[i].page != 0
    modifies file, file.pageCache`lookup, file.pageCache.linkedList, file.pageCache.linkedList.repr
    ensures var s := After(old(file.disk), uses, file.pageCache.maxSize);
      loads == s.loads && (ok <==> !s.failed) && file.Is(s)
  {
    hide CachedFile.Is, Step;
    loads, ok := [], true;
    ghost var max := file.pageCache.maxSize;
    ghost var disk := file.disk;
    assert uses[..0] == [];
    for i := 0 to |uses|
      invariant ok ==> file.Is(After(disk, uses[..i], max)) && loads == After(disk, uses[..i], max).loads
      invariant ok ==> !After(disk, uses[..i], max).failed
      invariant !ok ==> After(disk, uses, max).failed && file.Is(After(disk, uses, max)) && loads == After(disk, uses, max).loads
      invariant fresh(file.objects)
      invariant fresh(file.pageCache.linkedList.repr - old(file.pageCache.linkedList.repr))
    {
      if ok {
        AfterNext(disk, uses, i, max);
        var load;
        ghost var before := file.objects;
        load, ok := file.UsePage(uses[i], After(disk, uses[..i], max));
        assert file.objects == before + file.objects[|before|..];
        if !ok {
          StaysFailed(disk, uses, i + 1, max);
        } else if uses[i].Load? {
          loads := loads + [load];
        }
      }
    }
    assert uses[..|uses|] == uses;
  }

  lemma {:induction false} StaysFailed(disk: map<nat, Bytes>, uses: seq<Use>, i: nat, max: nat)
    requires i <= |uses| && After(disk, uses[..i], max).failed
    ensures After(disk, uses, max) == After(disk, uses[..i], max)
    decreases |uses| - i
  {
    hide AfterRead, AfterWrite;
    if i == |uses| {
      assert uses[..i] == uses;
    } else {
      AfterNext(disk, uses, i, max);
      StaysFailed(disk, uses, i + 1, max);
    }
  }

  // ------------------------------------------------------------- the flat page store

  ghost function FlatStore(disk: map<nat, Bytes>, uses: seq<Use>): map<nat, Bytes> {
    if uses == [] then disk
    else
      var before := FlatStore(disk, uses[..|uses|-1]);
      match uses[|uses|-1]
      case Store(k, contents, _) => before[k := contents]
      case _ => before
  }

  ghost function FlatLoads(disk: map<nat, Bytes>, uses: seq<Use>): seq<Bytes> {
    if uses == [] then []
    else
      var loads := FlatLoads(disk, uses[..|uses|-1]);
      match uses[|uses|-1]
      case Load(k) =>
        var before := FlatStore(disk, uses[..|uses|-1]);
        if k in before then loads + [before[k]] else loads
      case _ => loads
  }

  ghost predicate Over(uses: seq<Use>, used: set<nat>) {
    forall i | 0 <= i < |uses| :: uses[i].page in used
  }

  /** Nothing is read before it was stored. */
  ghost predicate Defined(disk: map<nat, Bytes>, uses: seq<Use>) {
    forall i | 0 <= i < |uses| :: (uses[i].Store? && uses[i].inNewObject) || uses[i].page in FlatStore(disk, uses[..i])
  }

  /** The run reads, and leaves on disk, what a flat store would. */
  ghost predicate LikeFlat(disk: map<nat, Bytes>, uses: seq<Use>, max: nat) {
    var s := After(disk, uses, max);
    !s.failed && s.disk == FlatStore(disk, uses) && s.loads == FlatLoads(disk, uses)
  }

  lemma RoomFor(keys: set<nat>, pages: set<nat>, maxSize: nat)
    requires keys <= pages && |pages| < maxSize
    ensures |keys| < maxSize
    decreases |pages|
  {
    if keys != pages {
      var x :| x in pages && x !in keys;
      RoomFor(keys, pages - {x}, maxSize);
    }
  }

  /** The cached page under k is the page k, and its image is the one on disk. */
  ghost predicate CachedInStep(s: State, k: nat) {
    var i := LastIndex(s.items, k);
    && i >= 0 && s.items[i].value < |s.objects| && k in s.disk
    && s.objects[s.items[i].value].pageIndex == k && s.objects[s.items[i].value].rawData == s.disk[k]
  }

  ghost predicate InStep(s: State) {
    && !s.failed && (forall i | 0 <= i < |s.items| :: s.items[i].value < |s.objects|)
    && forall k | k in s.keys :: CachedInStep(s, k)
  }

  /** A change of what an object holds in memory, or of its image if it is to be written next. */
  lemma ContentInStep(s: State, o: nat, contents: Bytes)
    requires InStep(s)
    ensures InStep(SetContent(s, o, contents)) && SetContent(s, o, contents).disk == s.disk && SetContent(s, o, contents).keys == s.keys
    ensures InStep(Refresh(s, o)) && Refresh(s, o).disk == s.disk && Refresh(s, o).keys == s.keys
  {
    hide LastIndex;
    forall t | t == SetContent(s, o, contents) || t == Refresh(s, o)
      ensures InStep(t)
    {
      forall k | k in t.keys ensures CachedInStep(t, k) {
        assert CachedInStep(s, k);
      }
    }
  }

  lemma LastWithMore(items: seq<Entry<nat, nat>>, e: Entry<nat, nat>, k: nat)
    ensures LastIndex(items + [e], k) == if e.key == k then |items| else LastIndex(items, k)
  {
    assert (items + [e])[..|items|] == items;
  }

  lemma WriteThrough(s: State, max: nat, o: nat)
    requires o < |s.objects| && s.objects[o].pageIndex != 0 && |s.keys| < max
    ensures var p := s.objects[o];
      AfterWrite(s, max, o) == s.(disk := s.disk[p.pageIndex := p.content], objects := s.objects[o := p.(rawData := p.content)],
        items := s.items + [Entry(p.pageIndex, o)], keys := s.keys + {p.pageIndex})
  {
  }

  /** While the cache has room, what is put into it is written through. */
  lemma WriteInStep(s: State, max: nat, o: nat)
    requires InStep(s) && o < |s.objects| && s.objects[o].pageIndex != 0
    requires |s.keys| < max
    ensures var t := AfterWrite(s, max, o);
      && InStep(t) && t.keys == s.keys + {s.objects[o].pageIndex}
      && t.disk == s.disk[s.objects[o].pageIndex := s.objects[o].content]
  {
    hide LastIndex, AfterWrite;
    var t, k := AfterWrite(s, max, o), s.objects[o].pageIndex;
    WriteThrough(s, max, o);
    forall j | j in t.keys ensures CachedInStep(t, j) {
      LastWithMore(s.items, Entry(k, o), j);
      if j != k {
        assert CachedInStep(s, j);
        assert s.items[LastIndex(s.items, j)].value != o;
      }
    }
  }

  lemma RenewedInStep(s: State, k: nat)
    requires InStep(s) && k in s.keys
    ensures LastIndex(s.items, k) >= 0
    ensures InStep(s.(items := Renewed(s.items, LastIndex(s.items, k))))
  {
    hide LastIndex, Renewed;
    assert CachedInStep(s, k);
    var at := LastIndex(s.items, k);
    var t := s.(items := Renewed(s.items, at));
    RenewedSource(s.items, at);
    forall j | j in t.keys ensures CachedInStep(t, j) {
      assert CachedInStep(s, j);
      LastRenewed(s.items, at, j);
      assert Source(Target(LastIndex(s.items, j), at, |s.items|), at, |s.items|) == LastIndex(s.items, j);
    }
  }

  /** While the cache has room, the page read is the one on disk. */
  lemma ReadInStep(s: State, max: nat, k: nat)
    requires InStep(s) && k in s.disk && k != 0 && |s.keys| < max
    ensures var (t, o) := AfterRead(s, max, k);
      && InStep(t) && t.disk == s.disk && t.keys == s.keys + {k} && t.loads == s.loads
      && o < |t.objects| && t.objects[o] == PageObject(k, s.disk[k], s.disk[k])
  {
    hide LastIndex, Renewed;
    if k in s.keys {
      assert CachedInStep(s, k);
      RenewedInStep(s, k);
      var i := LastIndex(s.items, k);
      ContentInStep(s.(items := Renewed(s.items, i)), s.items[i].value, []);
    } else {
      MissingInStep(s, max, k);
    }
  }

  lemma MissingInStep(s: State, max: nat, k: nat)
    requires InStep(s) && k in s.disk && k !in s.keys && |s.keys| < max
    ensures var (t, o) := AfterRead(s, max, k);
      && InStep(t) && t.disk == s.disk && t.keys == s.keys + {k} && t.loads == s.loads
      && o < |t.objects| && t.objects[o] == PageObject(k, s.disk[k], s.disk[k])
  {
    hide InStep, CachedInStep;
    var o, p := |s.objects|, PageObject(k, [], s.disk[k]);
    var t := s.(objects := s.objects + [p], items := s.items + [Entry(k, o)], keys := s.keys + {k});
    MoreInStep(s, k);
    ContentInStep(t, o, []);
    MissingRead(s, max, k);
  }

  /** One page more, with its image on disk. */
  lemma MoreInStep(s: State, k: nat)
    requires InStep(s) && k in s.disk && k !in s.keys
    ensures InStep(s.(objects := s.objects + [PageObject(k, [], s.disk[k])], items := s.items + [Entry(k, |s.objects|)], keys := s.keys + {k}))
    ensures !s.failed
  {
    hide LastIndex;
    var o, p := |s.objects|, PageObject(k, [], s.disk[k]);
    var t := s.(objects := s.objects + [p], items := s.items + [Entry(k, o)], keys := s.keys + {k});
    forall j | j in t.keys ensures CachedInStep(t, j) {
      LastWithMore(s.items, Entry(k, o), j);
      if j != k { assert CachedInStep(s, j); }
    }
  }

  lemma MissingRead(s: State, max: nat, k: nat)
    requires k in s.disk && k !in s.keys && |s.keys| < max
    ensures var o, p := |s.objects|, PageObject(k, [], s.disk[k]);
      AfterRead(s, max, k) == (Refresh(s.(objects := s.objects + [p], items := s.items + [Entry(k, o)], keys := s.keys + {k}), o), o)
  {
    hide LastIndex;
    var o, p := |s.objects|, PageObject(k, [], s.disk[k]);
    var t := s.(objects := s.objects + [p], items := s.items + [Entry(k, o)], keys := s.keys + {k});
    assert t.objects[o := p] == t.objects && s.disk[k := s.disk[k]] == s.disk;
  }

  lemma StepInStep(s: State, max: nat, u: Use)
    requires InStep(s) && u.page != 0 && |s.keys| < max && |s.keys + {u.page}| < max
    requires (u.Store? && u.inNewObject) || u.page in s.disk
    ensures var t := Step(s, max, u);
      && InStep(t) && t.keys == s.keys + {u.page}
      && t.disk == (if u.Store? then s.disk[u.page := u.contents] else s.disk)
      && t.loads == if u.Load? then s.loads + [s.disk[u.page]] else s.loads
  {
    hide AfterRead, AfterWrite, InStep;
    InStepRuns(s, s);
    StepKeeps(s, max, u);
    if u.Store? && u.inNewObject {
      NewInStep(s, PageObject(u.page, u.contents, []));
      WriteInStep(NewObject(s, PageObject(u.page, u.contents, [])), max, |s.objects|);
    } else {
      ReadInStep(s, max, u.page);
      InStepRuns(s, AfterRead(s, max, u.page).0);
      var (t, o) := AfterRead(s, max, u.page);
      if !u.Load? {
        ContentInStep(t, o, u.contents);
      }
      if u.Store? {
        WriteInStep(SetContent(t, o, u.contents), max, o);
        assert t.keys + {u.page} == t.keys;
      }
      if u.Load? {
        LoadInStep(t, t.loads + [Object(t, o).content]);
      }
    }
  }

  lemma NewInStep(s: State, p: PageObject)
    requires InStep(s)
    ensures InStep(NewObject(s, p))
  {
    hide LastIndex;
    forall k | k in s.keys ensures CachedInStep(NewObject(s, p), k) {
      assert CachedInStep(s, k);
    }
  }

  lemma InStepRuns(s: State, t: State)
    requires InStep(s) && InStep(t)
    ensures !s.failed && !t.failed
  {
  }

  lemma LoadInStep(s: State, loads: seq<Bytes>)
    requires InStep(s)
    ensures InStep(s.(loads := loads))
  {
    hide LastIndex;
    forall k | k in s.keys ensures CachedInStep(s.(loads := loads), k) {
      assert CachedInStep(s, k);
    }
  }

  /** With fewer pages than the cache holds, any run is like one on the flat store. */
  lemma {:induction false} FewPages(disk: map<nat, Bytes>, uses: seq<Use>, used: set<nat>, max: nat)
    requires |used| < max && 0 !in used && Over(uses, used) && Defined(disk, uses)
    ensures LikeFlat(disk, uses, max)
    ensures InStep(After(disk, uses, max)) && After(disk, uses, max).keys <= used
    decreases |uses|
  {
    hide Step, InStep;
    if uses == [] {
      StartInStep(disk);
    } else {
      var n := |uses| - 1;
      assert forall i | 0 <= i < n :: uses[..n][..i] == uses[..i] && uses[..n][i] == uses[i];
      FewPages(disk, uses[..n], used, max);
      var s := After(disk, uses[..n], max);
      RoomFor(s.keys, used, max);
      RoomFor(s.keys + {uses[n].page}, used, max);
      assert (uses[n].Store? && uses[n].inNewObject) || uses[n].page in FlatStore(disk, uses[..n]);
      StepInStep(s, max, uses[n]);
      InStepRuns(s, After(disk, uses, max));
    }
  }

  lemma StartInStep(disk: map<nat, Bytes>)
    ensures InStep(Start(disk))
  {
  }

  /** Some more uses of pages. */
  ghost function Behind(s: State, uses: seq<Use>, max: nat): State {
    if uses == [] then s else Step(Behind(s, uses[..|uses|-1], max), max, uses[|uses|-1])
  }

  ghost function PagesOf(uses: seq<Use>): set<nat> {
    set i | 0 <= i < |uses| :: uses[i].page
  }

  lemma PagesOfMore(uses: seq<Use>)
    requires uses != []
    ensures PagesOf(uses) == PagesOf(uses[..|uses|-1]) + {uses[|uses|-1].page}
  {
    assert forall i | 0 <= i < |uses| - 1 :: uses[..|uses|-1][i] == uses[i];
    assert forall p | p in PagesOf(uses) :: exists i :: 0 <= i < |uses| && uses[i].page == p;
  }

  /** A cache in step with the file stays so behind any uses for which it has room, and holds every page used. */
  lemma {:induction false} UsesStayInStep(s: State, uses: seq<Use>, max: nat)
    requires InStep(s) && 0 !in PagesOf(uses) && |s.keys + PagesOf(uses)| < max && Defined(s.disk, uses)
    ensures var t := Behind(s, uses, max);
      InStep(t) && t.disk == FlatStore(s.disk, uses) && t.keys == s.keys + PagesOf(uses)
    decreases |uses|
  {
    hide Step, InStep, PagesOf;
    if uses == [] {
      NoPages(s);
    } else {
      var n := |uses| - 1;
      PagesOfMore(uses);
      assert forall i | 0 <= i < n :: uses[..n][..i] == uses[..i] && uses[..n][i] == uses[i];
      RoomFor(s.keys + PagesOf(uses[..n]), s.keys + PagesOf(uses), max);
      UsesStayInStep(s, uses[..n], max);
      var t := Behind(s, uses[..n], max);
      assert (uses[n].Store? && uses[n].inNewObject) || uses[n].page in FlatStore(s.disk, uses[..n]);
      assert t.keys + {uses[n].page} == s.keys + PagesOf(uses);
      StepInStep(t, max, uses[n]);
    }
  }

  lemma NoPages(s: State)
    ensures s.keys + PagesOf([]) == s.keys
  {
  }

  /** Only stored pages change in the file. */
  lemma {:induction false} OthersOnDisk(disk: map<nat, Bytes>, uses: seq<Use>, p: nat)
    requires p !in PagesOf(uses)
    ensures p in FlatStore(disk, uses) <==> p in disk
    ensures p in disk ==> FlatStore(disk, uses)[p] == disk[p]
    decreases |uses|
  {
    if uses != [] {
      PagesOfMore(uses);
      OthersOnDisk(disk, uses[..|uses|-1], p);
    }
  }

  /** The images in a cache that is in step. */
  ghost function Images(s: State): (r: map<nat, Bytes>)
    requires InStep(s)
    ensures r.Keys == s.keys && forall k | k in r :: k in s.disk && r[k] == s.disk[k]
  {
    map k | k in s.keys && CachedInStep(s, k) :: s.objects[s.items[LastIndex(s.items, k)].value].rawData
  }

  // ------------------------------------------------------------- one page more

  /** n different pages of a set. */
  lemma {:induction false} Choose(used: set<nat>, n: nat) returns (pages: seq<nat>)
    requires n <= |used|
    ensures |pages| == n && forall i | 0 <= i < n :: pages[i] in used
    ensures forall i, j | 0 <= i < j < n :: pages[i] != pages[j]
    decreases n
  {
    if n == 0 {
      pages := [];
    } else {
      var x :| x in used;
      var rest := Choose(used - {x}, n - 1);
      pages := rest + [x];
    }
  }

  /** Every page is stored once. */
  ghost function Fill(pages: seq<nat>): (r: seq<Use>)
    ensures |r| == |pages| && forall i | 0 <= i < |r| :: r[i] == Store(pages[i], [10], true)
  {
    seq(|pages|, i requires 0 <= i < |pages| => Store(pages[i], [10], true))
  }

  ghost function SetOf(pages: seq<nat>): set<nat> {
    set p | p in pages
  }

  /** Storing a page object of its own while the cache has room. */
  lemma StoreNew(s: State, max: nat, k: nat, c: Bytes)
    requires !s.failed && k != 0 && |s.keys| < max
    ensures Step(s, max, Store(k, c, true)) == State(s.disk[k := c], s.objects + [PageObject(k, c, c)],
      s.items + [Entry(k, |s.objects|)], s.keys + {k}, s.loads, false)
  {
    var o := |s.objects|;
    var t := NewObject(s, PageObject(k, c, []));
    assert Save(t, o).objects == s.objects + [PageObject(k, c, c)];
    assert AfterPut(Save(t, o), max, k, o).1 == o;
  }

  /** The cache is full of different pages, each in an object of its own. */
  ghost predicate Filled(s: State, pages: seq<nat>) {
    && !s.failed && |s.items| == |s.objects| == |pages| && s.keys == SetOf(pages) && |s.keys| == |pages|
    && forall i | 0 <= i < |pages| :: s.items[i] == Entry(pages[i], i) && s.objects[i] == PageObject(pages[i], [10], [10])
  }

  lemma FilledNext(s: State, pages: seq<nat>, max: nat)
    requires pages != [] && |pages| <= max && 0 !in pages
    requires pages[|pages|-1] !in pages[..|pages|-1] && Filled(s, pages[..|pages|-1])
    ensures Filled(Step(s, max, Store(pages[|pages|-1], [10], true)), pages)
    ensures SetOf(pages) == SetOf(pages[..|pages|-1]) + {pages[|pages|-1]}
  {
    hide Step;
    var n := |pages| - 1;
    assert pages == pages[..n] + [pages[n]];
    StoreNew(s, max, pages[n], [10]);
  }

  /** Stores of different pages fill the cache. */
  lemma {:induction false} Filling(pages: seq<nat>, max: nat)
    requires |pages| <= max && 0 !in pages
    requires forall i, j | 0 <= i < j < |pages| :: pages[i] != pages[j]
    ensures Filled(After(map[], Fill(pages), max), pages)
    ensures FlatStore(map[], Fill(pages)).Keys == SetOf(pages)
    decreases |pages|
  {
    hide Step, Filled;
    if pages == [] {
      NothingFilled();
    } else {
      var n := |pages| - 1;
      Filling(pages[..n], max);
      assert Fill(pages)[..n] == Fill(pages[..n]);
      FilledNext(After(map[], Fill(pages[..n]), max), pages, max);
    }
  }

  lemma NothingFilled()
    ensures Filled(Start(map[]), [])
  {
  }

  /** And storing the first of them again writes its old image instead. */
  lemma ManyPages(used: set<nat>, max: nat) returns (uses: seq<Use>)
    requires |used| >= max > 0 && 0 !in used
    ensures Over(uses, used) && Defined(map[], uses) && !LikeFlat(map[], uses, max)
  {
    hide Filled, Step, Fill;
    var pages := Choose(used, max);
    Filling(pages, max);
    var again := Store(pages[0], [11], true);
    uses := Fill(pages) + [again];
    assert uses[..max] == Fill(pages);
    StoreInFull(After(map[], Fill(pages), max), pages, max);
  }

  /** The full cache gives up the first page, and its old image goes to the disk. */
  lemma StoreInFull(s: State, pages: seq<nat>, max: nat)
    requires |pages| == max > 0 && 0 !in pages && Filled(s, pages)
    ensures pages[0] in Step(s, max, Store(pages[0], [11], true)).disk
    ensures Step(s, max, Store(pages[0], [11], true)).disk[pages[0]] == [10]
  {
    var t := NewObject(s, PageObject(pages[0], [11], []));
    assert Object(t, max) == PageObject(pages[0], [11], []) && t.objects[0] == PageObject(pages[0], [10], [10]);
    var (u, out) := AfterPut(Save(t, max), max, pages[0], max);
    assert out == 0 && Object(u, 0) == PageObject(pages[0], [10], [10]);
  }

  /** Behind an empty cache, all runs on the pages of a set are like runs on a flat page store if and only if the set
      is smaller than the cache. */
  lemma LikeFlatIff(used: set<nat>, max: nat)
    requires max > 0 && 0 !in used
    ensures (forall disk, uses | Over(uses, used) && Defined(disk, uses) :: LikeFlat(disk, uses, max)) <==> |used| < max
  {
    if |used| < max {
      forall disk, uses | Over(uses, used) && Defined(disk, uses) ensures LikeFlat(disk, uses, max) {
        FewPages(disk, uses, used, max);
      }
    } else {
      var uses := ManyPages(used, max);
    }
  }

  /** Reading a second page through a cache for one page writes the first page's image over it. */
  lemma FullReadOverwrites(first: Bytes, second: Bytes)
    ensures After(map[1 := first, 2 := second], [Load(1), Load(2)], 1).disk == map[1 := first, 2 := first]
  {
    var disk := map[1 := first, 2 := second];
    assert [Load(1), Load(2)][..1] == [Load(1)] && [Load(1)][..0] == [];
    var s := After(disk, [Load(1)], 1);
    AfterNext(disk, [Load(1)], 0, 1);
    assert [Load(1)][..1] == [Load(1)];
    FirstLoad(disk, first);
    assert !Cached(s, 2);
    assert AfterPut(NewObject(s, PageObject(2, [], second)), 1, 2, 1).1 == 0;
  }

  lemma FirstLoad(disk: map<nat, Bytes>, first: Bytes)
    requires 1 in disk && disk[1] == first
    ensures Step(Start(disk), 1, Load(1)) == State(disk, [PageObject(1, first, first)], [Entry(1, 0)], {1}, [first], false)
  {
    var s := Start(disk);
    assert !Cached(s, 1);
    assert AfterPut(NewObject(s, PageObject(1, [], first)), 1, 1, 0).1 == 0;
    assert disk[1 := first] == disk;
  }
}
