/** The connections to a database (database.h, database_controller.h): every connection has a Database object of its own, with its
    own transaction, page cache and table metadata, over the files that all of them share. */
module Database {
  import opened Tuples
  import opened Pages
  import opened Encoding
  import opened UndoReplay
  import opened Options
  import opened TableFiles
  import C = PageCache

  /** A table file at one time: its pages and its metadata as the last operation left them. */
  datatype Snapshot = Snapshot(header: Header, pages: map<nat, Page>)

  /** What readPage finds: a cached page if there is one, and the file's otherwise. */
  function Seen(cached: map<nat, Page>, disk: map<nat, Page>): map<nat, Page> {
    disk + cached
  }

  /** No page and no metadata that a connection holds was written by another one since. */
  ghost predicate UpToDate(held: Header, cached: map<nat, Page>, file: Snapshot) {
    held == file.header && forall p | p in cached :: p in file.pages && cached[p] == file.pages[p]
  }

  /** Such a connection sees the file as it is. */
  lemma UpToDateSees(held: Header, cached: map<nat, Page>, file: Snapshot)
    requires UpToDate(held, cached, file)
    ensures Seen(cached, file.pages) == file.pages && held == file.header
  {
  }

  /** The pages that a connection has cached behind an operation of its own: those that it had, those that it wrote,
      and any others that it may have read. */
  function CachedAfter<T(==)>(cached: map<nat, T>, before: map<nat, T>, now: map<nat, T>, read: set<nat>): map<nat, T> {
    map p | p in now && (p in cached || p in read || p !in before || before[p] != now[p]) ::
      if p in cached && p in before && before[p] == now[p] then cached[p] else now[p]
  }

  /** A connection that was up to date before its own operation is up to date behind it. */
  lemma StaysUpToDate(held: Header, cached: map<nat, Page>, before: Snapshot, now: Snapshot, read: set<nat>)
    requires UpToDate(held, cached, before)
    ensures UpToDate(now.header, CachedAfter(cached, before.pages, now.pages, read), now)
  {
  }

  /** What writePage and readPage leave in a cache that has room: the images of the pages that it had and of those that were
      used. So a connection that was in step has cached what CachedAfter says, and is in step again. */
  lemma UsesAreCached(s: C.State, uses: seq<C.Use>, max: nat)
    requires C.InStep(s) && 0 !in C.PagesOf(uses) && |s.keys + C.PagesOf(uses)| < max && C.Defined(s.disk, uses)
    ensures var t := C.Behind(s, uses, max);
      && C.InStep(t) && t.disk == C.FlatStore(s.disk, uses)
      && C.Images(t) == CachedAfter(C.Images(s), s.disk, t.disk, C.PagesOf(uses))
      && forall p | p in C.Images(t) :: p in t.disk && C.Images(t)[p] == t.disk[p]
  {
    hide C.Behind, C.InStep, C.FlatStore, C.PagesOf, C.Images;
    C.UsesStayInStep(s, uses, max);
    var t := C.Behind(s, uses, max);
    forall p | p !in C.PagesOf(uses) ensures (p in t.disk <==> p in s.disk) && (p in s.disk ==> t.disk[p] == s.disk[p]) {
      C.OthersOnDisk(s.disk, uses, p);
    }
  }

  lemma KeptUp(held: Header, cached: map<nat, Page>, before: Snapshot, now: Snapshot, accessed: bool, read: set<nat>)
    requires UpToDate(held, cached, before) && (!accessed ==> before == now)
    ensures UpToDate(if accessed then now.header else held, CachedAfter(cached, before.pages, now.pages, read), now)
  {
    hide CachedAfter;
    StaysUpToDate(held, cached, before, now, read);
  }

  class Database {
    const files: TableFiles
    var transactionPtr: Option<nat>
    /** mEntity: the metadata of the tables used so far. */
    var entities: map<Bytes, Header>
    /** pageCache. It has room for all pages used. */
    var pageCache: map<Bytes, map<nat, Page>>

    /** A new connection has nothing cached. */
    constructor (files: TableFiles)
      ensures this.files == files && transactionPtr == None
      ensures forall n | n in files.storages && n in files.headers :: InStep(n) <==> files.headers[n] == files.HeaderOf(n)
    {
      this.files, transactionPtr, entities, pageCache := files, None, map[], map[];
    }

    /** The transaction of this connection, if there is one, is running. */
    ghost predicate Valid()
      reads this`transactionPtr, files`states, files`bases, files.log, files.storages.Values
    {
      files.Valid() && (transactionPtr.Some? ==> transactionPtr.value in files.bases)
    }

    function Now(table: Bytes): Snapshot
      reads files.storages.Values
      requires table in files.storages
    {
      Snapshot(files.HeaderOf(table), files.storages[table].pages)
    }

    function Cached(table: Bytes): map<nat, Page>
      reads this`pageCache
    {
      if table in pageCache then pageCache[table] else map[]
    }

    /** What this connection holds of a table is what the file holds: nobody else has written any of it. */
    ghost predicate InStep(table: Bytes)
      reads this`entities, this`pageCache, files`headers, files.storages.Values
      requires table in files.storages
    {
      HoldsOf(table, Now(table))
    }

    ghost predicate HoldsOf(table: Bytes, file: Snapshot)
      reads this`entities, this`pageCache, files`headers
    {
      && (table in entities || table in files.headers)
      && UpToDate(if table in entities then entities[table] else files.headers[table], Cached(table), file)
    }

    /** The tables with which this connection is in step. */
    ghost function Current(): set<Bytes>
      reads this`entities, this`pageCache, files`headers, files.storages.Values
    {
      set n | n in files.storages && InStep(n)
    }

    /** Every operation keeps what this connection holds of the tables up to date. It holds the metadata of every table that it
        uses, and so of those that it changes. */
    method KeepUp(before: map<Bytes, Snapshot>, used: set<Bytes>, ghost current: set<Bytes>)
      requires before.Keys == files.storages.Keys
      requires forall n | n in current :: n in files.storages && HoldsOf(n, before[n])
      modifies this`entities, this`pageCache
      ensures current <= Current()
      ensures forall n | n in files.storages && (n in used || n in old(entities)) :: n in entities
    {
      hide CachedAfter, UpToDate;
      var read: map<Bytes, set<nat>> := *;
      ghost var held, had := Held(), pageCache;
      var accessed := set n | n in files.storages && (n in used || before[n] != Now(n));
      entities := map n | n in files.storages && (n in entities || n in accessed) ::
        if n in accessed then files.HeaderOf(n) else entities[n];
      pageCache := map n | n in files.storages ::
        CachedAfter(Cached(n), before[n].pages, files.storages[n].pages, if n in read then read[n] else {});
      forall n | n in current
        ensures InStep(n)
      {
        KeptUp(held[n], if n in had then had[n] else map[], before[n], Now(n), n in accessed, if n in read then read[n] else {});
      }
    }

    /** The metadata that this connection works with: its own, or what the file says. */
    ghost function Held(): map<Bytes, Header>
      reads this`entities, files`headers
    {
      map n | n in files.headers.Keys + entities.Keys :: if n in entities then entities[n] else files.headers[n]
    }

    /** An operation of this connection works on what the connection sees of a table. That is the file only because the
        connection is in step. */
    method Look(table: Bytes)
      requires table in Current()
      modifies files.storages[table]
      ensures unchanged(files.storages[table])
    {
      var st, held := files.storages[table], if table in entities then entities[table] else files.headers[table];
      UpToDateSees(held, Cached(table), Now(table));
      st.pages := Seen(Cached(table), st.pages);
      st.root, st.nPage, st.firstFreePage := held.root, held.nPage, held.firstFreePage;
    }

    method LookAll(tables: set<Bytes>)
      requires tables <= Current() && tables <= files.storages.Keys
      requires forall m, n | m in files.storages && n in files.storages && m != n :: files.storages[m] != files.storages[n]
      modifies set n | n in tables :: files.storages[n]
      ensures forall n | n in tables :: unchanged(files.storages[n])
    {
      var todo := tables;
      while todo != {}
        invariant todo <= tables
        invariant forall n | n in tables :: unchanged(files.storages[n])
        decreases todo
      {
        var n :| n in todo;
        Look(n);
        todo := todo - {n};
      }
    }

    /** saveEntity. */
    method SaveEntity(table: Bytes)
      requires table in files.storages
      modifies files`headers
      ensures files.headers == old(files.headers)[table := files.HeaderOf(table)]
      ensures old(Current()) <= Current()
    {
      files.SaveEntity(table);
    }

    function Snapshots(): map<Bytes, Snapshot>
      reads files.storages.Values
    {
      map n | n in files.storages :: Now(n)
    }

    lemma CurrentHolds(before: map<Bytes, Snapshot>)
      requires before == Snapshots()
      ensures forall n | n in Current() :: n in before && HoldsOf(n, before[n])
    {
    }

    // -------------------------------------------------------------- transactions

    /** beginTransaction: a transaction that was running is left behind with its changes in place. id is the next value of
        the counter. */
    method BeginTransaction(id: nat)
      requires Valid() && id < TWO_32 && id !in files.bases
      modifies this`transactionPtr, files`states, files`bases, files.log
      ensures Valid() && transactionPtr == Some(id)
      ensures files.Tables() == old(files.Tables())
      ensures files.bases == (if old(transactionPtr).Some? then old(files.bases) - {old(transactionPtr).value} else old(files.bases))[id := map[]]
      ensures forall t :: files.FoundColumns(t) <==> t == id || old(files.FoundColumns(t))
    {
      hide TableFiles.Valid, TableFiles.Tables, TableFiles.FoundColumns;
      if transactionPtr.Some? {
        files.Commit(transactionPtr.value);
      }
      files.BeginTransaction(id);
      transactionPtr := Some(id);
    }

    method Commit()
      requires Valid() && transactionPtr.Some?
      modifies this`transactionPtr, files`states, files`bases
      ensures Valid() && transactionPtr == None
      ensures files.Tables() == old(files.Tables()) && files.bases == old(files.bases) - {old(transactionPtr).value}
    {
      hide TableFiles.Valid, TableFiles.Tables;
      files.Commit(transactionPtr.value);
      transactionPtr := None;
    }

    // -------------------------------------------------------------- statements

    /** doInsert, by a connection that is in step with the table. */
    method DoInsert(table: Bytes, tuple: Tuple) returns (r: Outcome)
      requires Valid() && transactionPtr.Some? && table in files.schemas && table in Current()
      requires Sorted(tuple) && InColumns(tuple, files.schemas[table].cols)
      requires (4 + 13 + 20) + FullSize(tuple, files.schemas[table].cols) <= MAX_TUPLE_BYTES
      requires TypedFields(tuple, files.schemas[table].columns)
      requires Unclaimed(files.bases, transactionPtr.value, Location(table, KeyOf(tuple, files.schemas[table].pk)))
      modifies this`entities, this`pageCache, files`headers, files`bases, files.log, files.storages[table]
      ensures Valid() && transactionPtr == old(transactionPtr)
      ensures old(Current()) <= Current()
      ensures r.Done? <==> old(files.MayInsert(table, tuple))
      ensures r.Failed? ==> files.Tables() == old(files.Tables()) && files.bases == old(files.bases)
      ensures r.Done? ==>
        var k := KeyOf(tuple, files.schemas[table].pk);
        && files.Tables() == old(files.Tables())[table := old(files.Tables())[table][k := Row(k, tuple)]]
        && files.bases == old(files.bases)[transactionPtr.value :=
             Claims(old(files.bases)[transactionPtr.value], {Location(table, k)}, old(files.Tables()))]
        && files.headers == old(files.headers)[table := files.HeaderOf(table)]
      ensures forall t :: files.FoundColumns(t) <==> old(files.FoundColumns(t))
    {
      hide TableFiles.Valid, TableFiles.Tables, TableFiles.FoundColumns, TableFiles.MayInsert, InStep, HoldsOf, Current, Claims, Unclaimed, InColumns,
        FullSize, TypedFields, Sorted, KeyOf;
      var before := Snapshots();
      ghost var current := Current();
      CurrentHolds(before);
      Look(table);
      r := files.DoInsert(transactionPtr.value, table, tuple);
      assert forall n | n in current :: HoldsOf(n, before[n]);
      KeepUp(before, {table}, current);
      if r.Done? {
        SaveEntity(table);
      }
    }

    /** deleteTuples, by a connection that is in step with the table. */
    method DeleteTuples(table: Bytes, filter: Row -> bool)
      requires Valid() && transactionPtr.Some? && table in files.schemas && table in Current()
      requires table in files.Tables() && forall k | k in Selected(files.Tables()[table], filter) ::
        Unclaimed(files.bases, transactionPtr.value, Location(table, k))
      modifies this`entities, this`pageCache, files`headers, files`bases, files.log, files.storages[table]
      ensures Valid() && transactionPtr == old(transactionPtr)
      ensures old(Current()) <= Current() && files.headers == old(files.headers)[table := files.HeaderOf(table)]
      ensures var m := old(files.Tables())[table];
        files.Tables() == old(files.Tables())[table := map k | k in m && !filter(m[k]) :: m[k]]
      ensures var gone := Selected(old(files.Tables())[table], filter);
        files.bases == old(files.bases)[transactionPtr.value :=
             Claims(old(files.bases)[transactionPtr.value], Locations(table, gone), old(files.Tables()))]
      ensures forall t :: files.FoundColumns(t) <==> old(files.FoundColumns(t))
    {
      hide TableFiles.Valid, TableFiles.Tables, TableFiles.FoundColumns, InStep, HoldsOf, Current, Claims, Unclaimed, Selected, Locations;
      var before := Snapshots();
      ghost var current := Current();
      CurrentHolds(before);
      Look(table);
      files.DeleteTuples(transactionPtr.value, table, filter);
      assert forall n | n in current :: HoldsOf(n, before[n]);
      KeepUp(before, {table}, current);
      SaveEntity(table);
    }

    /** update, by a connection that is in step with the table. It throws, with a row taken out and not put back, exactly if
        some value does not have the type of its column. */
    method Update(table: Bytes, updates: seq<Assignment>, filter: Row -> bool) returns (r: Outcome)
      requires Valid() && transactionPtr.Some? && table in files.schemas && table in Current()
      requires PlainUpdates(updates, files.schemas[table])
      requires table in files.Tables() && forall k | k in Selected(files.Tables()[table], filter) ::
        && k in files.Tables()[table] && RowFits(Row(k, Updated(files.Tables()[table][k], updates)), files.schemas[table])
        && Unclaimed(files.bases, transactionPtr.value, Location(table, k))
      modifies this`entities, this`pageCache, files`headers, files`bases, files.log, files.storages[table]
      ensures r.Done? <==> forall k | k in Selected(old(files.Tables())[table], filter) ::
        TypedFields(Updated(old(files.Tables())[table][k], updates), files.schemas[table].columns)
      ensures r.Done? ==> Valid() && transactionPtr == old(transactionPtr)
      ensures r.Done? ==> old(Current()) <= Current() && files.headers == old(files.headers)[table := files.HeaderOf(table)]
      ensures r.Done? ==> UpdatedWhere(old(files.Tables())[table], files.Tables()[table], filter, updates)
      ensures var changed := Selected(old(files.Tables())[table], filter);
        r.Done? ==>
          && files.Tables() == old(files.Tables())[table := Rewritten(old(files.Tables())[table], changed, updates)]
          && files.bases == old(files.bases)[transactionPtr.value :=
               Claims(old(files.bases)[transactionPtr.value], Locations(table, changed), old(files.Tables()))]
          && forall t :: files.FoundColumns(t) <==>
               old(files.FoundColumns(t)) && (t == transactionPtr.value ==> AllHave(old(files.Tables())[table], changed, updates))
    {
      hide TableFiles.Valid, TableFiles.Tables, TableFiles.FoundColumns, InStep, HoldsOf, Current, Claims, Unclaimed, Selected, Locations, Rewritten, Updated, RowFits,
        TypedFields, PlainUpdates, AllHave, UpdatedWhere;
      var before := Snapshots();
      ghost var current := Current();
      CurrentHolds(before);
      Look(table);
      r := files.Update(transactionPtr.value, table, updates, filter);
      if r.Done? {
        assert forall n | n in current :: HoldsOf(n, before[n]);
        KeepUp(before, {table}, current);
        SaveEntity(table);
      }
    }

    lemma StoragesApart()
      requires Valid()
      ensures forall m, n | m in files.storages && n in files.storages && m != n :: files.storages[m] != files.storages[n]
    {
    }

    /** What undo sees of the tables that it visits is what is in the files. */
    method LookAtUndone() returns (tables: set<Bytes>)
      requires Valid() && transactionPtr.Some? && TablesOf(files.bases[transactionPtr.value]) <= Current()
      modifies files.log, files.StoragesOf(files.bases[transactionPtr.value])
      ensures Valid() && files.Tables() == old(files.Tables()) && Current() == old(Current())
      ensures forall t :: files.FoundColumns(t) <==> old(files.FoundColumns(t))
    {
      hide TableFiles.Valid, TableFiles.Tables, TableFiles.FoundColumns, InStep, Current;
      tables := files.TablesToUndo(transactionPtr.value);
      StoragesApart();
      LookAll(tables);
    }

    /** abort, by a connection that is in step with the tables that its transaction has changed: every row that it changed
        has, up to absent and null fields, the value it had before, and every other row is unchanged. It does so exactly if
        every UPDATE of the transaction found all columns that it assigned. The headers are not saved. */
    method Abort() returns (r: Outcome)
      requires Valid() && transactionPtr.Some? && TablesOf(files.bases[transactionPtr.value]) <= Current()
      modifies this, files`states, files`bases, files.log, files.StoragesOf(files.bases[transactionPtr.value])
      ensures r.Done? <==> old(files.FoundColumns(transactionPtr.value))
      ensures r.Done? ==> Valid() && transactionPtr == None && old(Current()) <= Current() && files.headers == old(files.headers)
      ensures r.Done? ==> files.bases == old(files.bases) - {old(transactionPtr).value}
      ensures var base := old(files.bases)[old(transactionPtr).value];
        r.Done? ==> Gives(files.Tables(), base) && SameOutside(files.Tables(), old(files.Tables()), base.Keys)
    {
      hide TableFiles.Valid, TableFiles.Tables, TableFiles.FoundColumns, InStep, HoldsOf, Current, Gives, SameOutside;
      var tables := LookAtUndone();
      r := UndoAndKeepUp(transactionPtr.value, tables);
      if r.Done? {
        transactionPtr := None;
      }
    }

    method UndoAndKeepUp(txn: nat, used: set<Bytes>) returns (r: Outcome)
      requires files.Valid() && txn in files.bases
      modifies this`entities, this`pageCache, files`states, files`bases, files.log, files.StoragesOf(files.bases[txn])
      ensures r.Done? <==> old(files.FoundColumns(txn))
      ensures r.Done? ==> files.Valid() && old(Current()) <= Current() && files.bases == old(files.bases) - {txn}
      ensures var base := old(files.bases)[txn];
        r.Done? ==> Gives(files.Tables(), base) && SameOutside(files.Tables(), old(files.Tables()), base.Keys)
    {
      hide TableFiles.Valid, TableFiles.Tables, TableFiles.FoundColumns, InStep, HoldsOf, Current, Gives, SameOutside;
      var before := Snapshots();
      ghost var current := Current();
      CurrentHolds(before);
      r := files.Abort(txn);
      if r.Done? {
        assert forall n | n in current :: HoldsOf(n, before[n]);
        KeepUp(before, used, current);
      }
    }
  }
}
