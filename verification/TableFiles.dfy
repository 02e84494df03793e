/** The files of one database, its tables and its log, and what the statements of its transactions do to them
    (transaction_handle.cpp, insert_tuple.cpp, delete_tuple.cpp, update.cpp). */
module TableFiles {
  import opened Tuples
  import opened Pages
  import opened Encoding
  import opened UndoLog
  import opened UndoReplay
  import B = BTreeStorage
  import L = LogManager
  import opened Options

  datatype Outcome = Done | Failed(reason: string)

  datatype TransactionState = GROWING | COMMITTED | ABORTED

  /** One `column = expression` of an UPDATE; the expression sees the row. */
  datatype Assignment = Assignment(column: Bytes, expression: Row -> Value)

  /** tuple[n] as a value: an absent field is created, as null. */
  function Touch(t: Tuple, n: Bytes): Tuple {
    if Has(t, n) then t else Put(t, n, Null)
  }

  /** The assignments of an UPDATE one after the other, each seeing the effect of those before. */
  function Updated(row: Row, updates: seq<Assignment>): Tuple
    decreases |updates|
  {
    if updates == [] then row.tuple
    else
      var a := updates[0];
      var t := Touch(row.tuple, a.column);
      Updated(Row(row.key, Put(t, a.column, a.expression(Row(row.key, t)))), updates[1..])
  }

  /** Assignment i gives its column the value of its expression on t: there the columns assigned before are as the whole UPDATE
      leaves them, and all others as they were. */
  ghost predicate AssignedFrom(row: Row, result: Tuple, updates: seq<Assignment>, i: nat, t: Tuple)
    requires i < |updates|
  {
    && (forall n :: Get(t, n) == if IsUpdated(n, updates, i) then Get(result, n) else Get(row.tuple, n))
    && Get(result, updates[i].column) == updates[i].expression(Row(row.key, t))
  }

  ghost predicate Assigned(row: Row, result: Tuple, updates: seq<Assignment>, i: nat)
    requires i < |updates|
  {
    exists t :: AssignedFrom(row, result, updates, i, t)
  }

  /** An UPDATE assigns in order: every column gets the value of its expression on what the assignments before have left, and
      columns that it does not assign keep theirs. */
  ghost predicate AssignedInOrder(row: Row, result: Tuple, updates: seq<Assignment>) {
    && (forall n | !IsUpdated(n, updates, |updates|) :: Get(result, n) == Get(row.tuple, n))
    && forall i | 0 <= i < |updates| :: Assigned(row, result, updates, i)
  }

  lemma {:induction false} UpdatedInOrder(row: Row, updates: seq<Assignment>)
    requires forall i, j | 0 <= i < j < |updates| :: updates[i].column != updates[j].column
    ensures AssignedInOrder(row, Updated(row, updates), updates)
    decreases |updates|
  {
    hide Get, Put, Touch, AssignedFrom, IsUpdated;
    if updates == [] {
      NothingAssigned(row);
    } else {
      var a, rest := updates[0], updates[1..];
      var t := Touch(row.tuple, a.column);
      var first := Row(row.key, Put(t, a.column, a.expression(Row(row.key, t))));
      UpdatedInOrder(first, rest);
      FirstAssigned(row, first, updates, Updated(row, updates));
    }
  }

  lemma NothingAssigned(row: Row)
    ensures AssignedInOrder(row, row.tuple, [])
  {
  }

  lemma FirstAssigned(row: Row, first: Row, updates: seq<Assignment>, result: Tuple)
    requires updates != [] && forall i, j | 0 <= i < j < |updates| :: updates[i].column != updates[j].column
    requires var t := Touch(row.tuple, updates[0].column);
      first == Row(row.key, Put(t, updates[0].column, updates[0].expression(Row(row.key, t))))
    requires AssignedInOrder(first, result, updates[1..])
    ensures AssignedInOrder(row, result, updates)
  {
    hide Get, Put, Touch, Has;
    var rest, c := updates[1..], updates[0].column;
    var t0 := Touch(row.tuple, c);
    forall n ensures Get(t0, n) == Get(row.tuple, n)
      ensures Get(first.tuple, n) == if n == c then updates[0].expression(Row(row.key, t0)) else Get(row.tuple, n)
    {
      TouchGet(row.tuple, c, n);
      PutGet(t0, c, updates[0].expression(Row(row.key, t0)), n);
    }
    forall n, i | 0 < i <= |updates| ensures IsUpdated(n, updates, i) <==> n == c || IsUpdated(n, rest, i - 1) {
      IsUpdatedBehind(n, updates, i);
    }
    assert !IsUpdated(c, rest, |rest|);
    forall n | !IsUpdated(n, updates, |updates|) ensures Get(result, n) == Get(row.tuple, n) {
      assert !IsUpdated(n, rest, |rest|) && n != c;
    }
    forall i | 0 <= i < |updates| ensures Assigned(row, result, updates, i) {
      if i == 0 {
        assert AssignedFrom(row, result, updates, i, t0);
      } else {
        assert rest[i-1] == updates[i] && Assigned(first, result, rest, i - 1);
        var t :| AssignedFrom(first, result, rest, i - 1, t);
        assert !IsUpdated(c, rest, i - 1);
        assert AssignedFrom(row, result, updates, i, t);
      }
    }
  }

  lemma IsUpdatedBehind(n: Bytes, updates: seq<Assignment>, i: nat)
    requires 0 < i <= |updates|
    ensures IsUpdated(n, updates, i) <==> n == updates[0].column || IsUpdated(n, updates[1..], i - 1)
  {
    if j :| 0 <= j < i && updates[j].column == n {
      assert j > 0 ==> updates[1..][j-1].column == n;
    }
    if j :| 0 <= j < i - 1 && updates[1..][j].column == n {
      assert updates[j+1].column == n;
    }
    if n == updates[0].column {
      assert updates[0].column == n;
    }
  }

  lemma PlainInOrder(row: Row, updates: seq<Assignment>, s: Schema)
    requires PlainUpdates(updates, s)
    ensures AssignedInOrder(row, Updated(row, updates), updates)
  {
    UpdatedInOrder(row, updates);
  }

  /** The table behind an UPDATE: rows for which the condition does not hold are as they were, the others have the assignments
      made. */
  ghost predicate UpdatedWhere(m: map<Key, Row>, n: map<Key, Row>, filter: Row -> bool, updates: seq<Assignment>) {
    && n.Keys == m.Keys
    && forall k | k in m ::
         if filter(m[k]) then n[k].key == k && AssignedInOrder(m[k], n[k].tuple, updates) else n[k] == m[k]
  }

  lemma RewrittenWhere(m: map<Key, Row>, filter: Row -> bool, updates: seq<Assignment>, s: Schema)
    requires PlainUpdates(updates, s)
    ensures UpdatedWhere(m, Rewritten(m, Selected(m, filter), updates), filter, updates)
  {
    hide AssignedInOrder, Updated;
    forall k | k in m { UpdatedInOrder(m[k], updates); }
  }

  /** The table behind a DELETE: exactly the rows for which the condition does not hold, as they were. */
  lemma KeptRows(m: map<Key, Row>, filter: Row -> bool)
    ensures m - Selected(m, filter) == map k | k in m && !filter(m[k]) :: m[k]
  {
  }

  /** Columns other than the key column pk, none set twice. */
  ghost predicate SetOnce(updates: seq<Assignment>, pk: Bytes) {
    && (forall i | 0 <= i < |updates| :: updates[i].column != pk)
    && forall i, j | 0 <= i < j < |updates| :: updates[i].column != updates[j].column
  }

  /** Such columns of the table. */
  ghost predicate PlainUpdates(updates: seq<Assignment>, s: Schema) {
    && (forall i | 0 <= i < |updates| :: updates[i].column in s.cols)
    && SetOnce(updates, s.pk)
  }

  lemma PlainIsOnce(updates: seq<Assignment>, s: Schema)
    requires PlainUpdates(updates, s)
    ensures SetOnce(updates, s.pk)
  {
  }

  /** The row has all the columns that an UPDATE assigns. */
  ghost predicate HasAll(row: Row, updates: seq<Assignment>) {
    forall i | 0 <= i < |updates| :: Has(row.tuple, updates[i].column)
  }

  ghost predicate AllHave(m: map<Key, Row>, keys: set<Key>, updates: seq<Assignment>) {
    forall k | k in keys && k in m :: HasAll(m[k], updates)
  }

  const MAX_TABLE_NAME: nat := 0x4000_0000

  ghost predicate NamesFit(schemas: map<Bytes, Schema>) {
    forall n | n in schemas :: |n| < MAX_TABLE_NAME
  }

  /** The values of an image are those of a tuple. */
  ghost predicate ImageOf(image: Tuple, t: Tuple) {
    forall i | 0 <= i < |image| :: image[i].value == Get(t, image[i].name)
  }

  /** Images of small rows make an entry that the log can hold. */
  lemma EntryIsValid(e: LogEntry, t: Tuple, u: Tuple, s: Schema)
    requires e.txn < TWO_32 && |e.table| < MAX_TABLE_NAME && SortedNames(s.cols)
    requires Sorted(e.before) && InColumns(e.before, s.cols) && ImageOf(e.before, t)
    requires Sorted(e.after) && InColumns(e.after, s.cols) && ImageOf(e.after, u)
    requires FullSize(t, s.cols) <= MAX_TUPLE_BYTES && FullSize(u, s.cols) <= MAX_TUPLE_BYTES
    ensures ValidEntry(e)
  {
    ColumnSizes(e.before, t, s.cols);
    ColumnSizes(e.after, u, s.cols);
  }

  lemma ImageOfItself(t: Tuple)
    requires Sorted(t)
    ensures ImageOf(t, t)
  {
    forall i | 0 <= i < |t| ensures t[i].value == Get(t, t[i].name) {
      GetOfField(t, i);
    }
  }

  lemma BeginIsValid(e: LogEntry)
    requires e.txn < TWO_32 && e.table == [] && e.before == [] && e.after == []
    ensures ValidEntry(e)
  {
  }

  lemma CleanAppend(log: seq<LogEntry>, e: LogEntry)
    ensures forall t :: Clean(L.UndoList(log + [e], t)) <==>
      if e.txn != t then Clean(L.UndoList(log, t))
      else e.op == BEGIN || (Clean(L.UndoList(log, t)) && (e.op == UPDATE ==> NoNulls(e.before)))
  {
    hide Clean, NoNulls, L.UndoList;
    forall t
      ensures Clean(L.UndoList(log + [e], t)) <==>
        if e.txn != t then Clean(L.UndoList(log, t))
        else e.op == BEGIN || (Clean(L.UndoList(log, t)) && (e.op == UPDATE ==> NoNulls(e.before)))
    {
      UndoListAppend(log, e, t);
      NothingUnclean();
      CleanSplit([e] + L.UndoList(log, t));
      assert ([e] + L.UndoList(log, t))[1..] == L.UndoList(log, t);
    }
  }

  lemma NothingUnclean()
    ensures Clean([])
  {
  }

  /** Exactly the growing transactions have a base. */
  ghost predicate Running(states: map<nat, TransactionState>, bases: map<nat, Base>) {
    && (forall t :: t in bases <==> t in states && states[t] == GROWING)
    && forall t | t in bases :: t < TWO_32
  }

  lemma NoLongerRunning(states: map<nat, TransactionState>, bases: map<nat, Base>, txn: nat, state: TransactionState)
    requires Running(states, bases) && txn in bases && state != GROWING
    ensures Running(states[txn := state], bases - {txn})
  {
  }

  // ------------------------------------------------------------- the images of an update

  ghost predicate IsUpdated(n: Bytes, updates: seq<Assignment>, i: nat)
    requires i <= |updates|
  {
    exists j :: 0 <= j < i && updates[j].column == n
  }

  /** What the loop of update has built after i assignments, started from row old. */
  ghost predicate Images(old_: Tuple, tuple: Tuple, before: Tuple, after: Tuple, updates: seq<Assignment>, i: nat, pk: Bytes)
    requires i <= |updates|
  {
    && Sorted(before) && Sorted(after)
    && (forall n :: Has(before, n) <==> n == pk || IsUpdated(n, updates, i))
    && (forall n :: Has(after, n) <==> n == pk || IsUpdated(n, updates, i))
    && (forall n | Has(before, n) :: Get(before, n) == Get(old_, n))
    && (forall n | Has(after, n) :: Get(after, n) == Get(tuple, n))
    && (forall n :: IsUpdated(n, updates, i) || Get(tuple, n) == Get(old_, n))
  }

  lemma TouchGet(t: Tuple, n: Bytes, m: Bytes)
    ensures Get(Touch(t, n), m) == Get(t, m)
    ensures Has(Touch(t, n), m) <==> m == n || Has(t, m)
  {
    PutGet(t, n, Null, m);
    if m == n && !Has(t, n) {
      AbsentIsNull(t, n);
    }
  }

  lemma ImagesStart(tuple: Tuple, updates: seq<Assignment>, pk: Bytes, v: Value)
    requires v == Get(tuple, pk)
    ensures Images(tuple, tuple, Put([], pk, v), Put([], pk, v), updates, 0, pk)
  {
    PutSorted([], pk, v);
    forall n
      ensures Has(Put([], pk, v), n) <==> n == pk
      ensures Get(Put([], pk, v), pk) == v
    {
      PutGet([], pk, v, n);
      PutGet([], pk, v, pk);
    }
  }

  lemma IsUpdatedNext(n: Bytes, updates: seq<Assignment>, i: nat)
    requires i < |updates|
    ensures IsUpdated(n, updates, i + 1) <==> IsUpdated(n, updates, i) || n == updates[i].column
  {
    if IsUpdated(n, updates, i) {
      var j :| 0 <= j < i && updates[j].column == n;
    }
  }

  lemma ImagesStep(old_: Tuple, tuple: Tuple, before: Tuple, after: Tuple, updates: seq<Assignment>, i: nat, pk: Bytes, v: Value)
    requires i < |updates| && SetOnce(updates, pk)
    requires Images(old_, tuple, before, after, updates, i, pk)
    ensures var n := updates[i].column;
      Images(old_, Put(Touch(tuple, n), n, v), Put(before, n, Get(tuple, n)), Put(after, n, v), updates, i + 1, pk)
  {
    hide Get, Has, Put, Touch, Sorted;
    var c := updates[i].column;
    PutSorted(before, c, Get(tuple, c));
    PutSorted(after, c, v);
    assert !IsUpdated(c, updates, i);
    forall n
      ensures IsUpdated(n, updates, i + 1) <==> IsUpdated(n, updates, i) || n == c
      ensures Has(Put(before, c, Get(tuple, c)), n) <==> n == c || Has(before, n)
      ensures Get(Put(before, c, Get(tuple, c)), n) == if n == c then Get(tuple, c) else Get(before, n)
      ensures Has(Put(after, c, v), n) <==> n == c || Has(after, n)
      ensures Get(Put(after, c, v), n) == if n == c then v else Get(after, n)
      ensures Get(Put(Touch(tuple, c), c, v), n) == if n == c then v else Get(tuple, n)
    {
      IsUpdatedNext(n, updates, i);
      PutGet(before, c, Get(tuple, c), n);
      PutGet(after, c, v, n);
      TouchGet(tuple, c, n);
      PutGet(Touch(tuple, c), c, v, n);
    }
  }

  /** Before images have nulls for the columns that were absent. */
  lemma ImagesTyped(old_: Tuple, tuple: Tuple, before: Tuple, after: Tuple, updates: seq<Assignment>, s: Schema)
    requires Images(old_, tuple, before, after, updates, |updates|, s.pk) && TypedFields(old_, s.columns)
    ensures TypedOrNull(before, s.columns)
  {
    hide Get, Has, TypeTag;
    forall c | 0 <= c < |s.columns| && Has(before, s.columns[c].name)
      ensures Get(before, s.columns[c].name) == Null || TypeTag(Get(before, s.columns[c].name)) == s.columns[c].tag
    {
      if !Has(old_, s.columns[c].name) {
        AbsentIsNull(old_, s.columns[c].name);
      }
    }
  }

  /** And they have none if all updated columns were there. */
  lemma ImagesNoNulls(row: Row, tuple: Tuple, before: Tuple, after: Tuple, updates: seq<Assignment>, s: Schema)
    requires SchemaFits(s) && RowFits(row, s) && TypedFields(row.tuple, s.columns) && Has(row.tuple, s.pk)
    requires Images(row.tuple, tuple, before, after, updates, |updates|, s.pk)
    ensures NoNulls(before) <==> forall i | 0 <= i < |updates| :: Has(row.tuple, updates[i].column)
  {
    hide Get, Has, TypeTag, FullSize, SchemaFits, TypedFields, Sorted;
    var t := row.tuple;
    if forall i | 0 <= i < |updates| :: Has(t, updates[i].column) {
      forall i | 0 <= i < |before| ensures before[i].value != Null {
        NullField(before, i);
        assert Has(t, before[i].name);
        HasIndex(t, before[i].name);
        var j :| 0 <= j < |t| && t[j].name == before[i].name;
        NullField(t, j);
        FieldNotNull(t, s, j);
      }
    }
    if NoNulls(before) {
      forall i | 0 <= i < |updates| ensures Has(t, updates[i].column) {
        assert IsUpdated(updates[i].column, updates, |updates|);
        HasIndex(before, updates[i].column);
        var j :| 0 <= j < |before| && before[j].name == updates[i].column;
        NullField(before, j);
        if !Has(t, updates[i].column) { AbsentIsNull(t, updates[i].column); }
      }
    }
  }

  /** The finished images describe the change, and are images of the row before and after it. */
  lemma ImagesDone(row: Row, tuple: Tuple, before: Tuple, after: Tuple, updates: seq<Assignment>, s: Schema)
    requires PlainUpdates(updates, s) && s.pk in s.cols
    requires Images(row.tuple, tuple, before, after, updates, |updates|, s.pk)
    requires RowFits(row, s) && RowFits(Row(row.key, tuple), s)
    ensures Get(after, s.pk) == Int(row.key)
    ensures InColumns(before, s.cols) && ImageOf(before, row.tuple)
    ensures InColumns(after, s.cols) && ImageOf(after, tuple)
  {
    hide Get, Has, FullSize;
    ImageFields(before, row.tuple, s);
    ImageFields(after, tuple, s);
    assert Has(after, s.pk);
  }

  lemma ImageFields(image: Tuple, t: Tuple, s: Schema)
    requires Sorted(image) && Sorted(t) && InColumns(t, s.cols)
    requires forall n | Has(image, n) :: Get(image, n) == Get(t, n) && n in s.cols
    requires FullSize(t, s.cols) <= MAX_TUPLE_BYTES
    ensures InColumns(image, s.cols) && ImageOf(image, t)
  {
    hide Get, Has, FullSize, Sorted;
    forall i | 0 <= i < |image|
      ensures ValidField(image[i]) && image[i].name in s.cols && image[i].value == Get(t, image[i].name)
    {
      GetOfField(image, i);
      ColumnIsShort(t, s.cols, image[i].name);
      ValueIsValid(t, image[i].name, s);
    }
  }

  lemma ValueIsValid(t: Tuple, n: Bytes, s: Schema)
    requires Sorted(t) && InColumns(t, s.cols)
    ensures ValidValue(Get(t, n))
  {
    HasIndex(t, n);
    if Has(t, n) {
      var i :| 0 <= i < |t| && t[i].name == n;
      GetOfField(t, i);
    } else {
      AbsentIsNull(t, n);
    }
  }

  lemma {:induction false} ColumnIsShort(t: Tuple, cols: seq<Bytes>, n: Bytes)
    requires n in cols
    ensures |n| <= FullSize(t, cols)
    decreases |cols|
  {
    if n != cols[0] {
      ColumnIsShort(t, cols[1..], n);
    }
  }

  lemma UpdateStep(S: State, e: LogEntry, row: Row, tuple: Tuple, updates: seq<Assignment>, T: State, schemas: map<Bytes, Schema>)
    requires StateFits(S, schemas) && StateTyped(S, schemas)
    requires e.op == UPDATE && e.table in schemas && e.table in S && row.key in S[e.table] && row == S[e.table][row.key]
    requires PlainUpdates(updates, schemas[e.table]) && schemas[e.table].pk in schemas[e.table].cols
    requires Images(row.tuple, tuple, e.before, e.after, updates, |updates|, schemas[e.table].pk)
    requires RowFits(Row(row.key, tuple), schemas[e.table])
    requires T == S[e.table := S[e.table][row.key := Row(row.key, tuple)]]
    ensures LoggedStep(S, e, T, schemas) && LocationOf(e, schemas) == Location(e.table, row.key)
  {
    hide Get, Has, FullSize, Sorted, InColumns, PlainUpdates, TypedFields, TypedOrNull;
    var s := schemas[e.table];
    assert RowFits(row, s) && TypedFields(row.tuple, s.columns);
    ImagesTyped(row.tuple, tuple, e.before, e.after, updates, s);
    ImagesDone(row, tuple, e.before, e.after, updates, s);
    forall n ensures Get(tuple, n) == if Has(e.after, n) then Get(e.after, n) else Get(row.tuple, n) {
    }
    var l := Location(e.table, row.key);
    assert At(S, l) == Some(row.tuple) && At(T, l) == Some(tuple);
    assert SameOutside(S, T, {l});
  }

  lemma InsertStep(S: State, e: LogEntry, k: Key, T: State, schemas: map<Bytes, Schema>)
    requires e.op == INSERT && e.table in schemas && e.table in S && e.before == []
    requires RowFits(Row(k, e.after), schemas[e.table]) && k !in S[e.table]
    requires T == S[e.table := S[e.table][k := Row(k, e.after)]]
    ensures LoggedStep(S, e, T, schemas) && LocationOf(e, schemas) == Location(e.table, k)
  {
  }

  lemma DeleteStep(S: State, e: LogEntry, k: Key, T: State, schemas: map<Bytes, Schema>)
    requires StateFits(S, schemas) && StateTyped(S, schemas)
    requires e.op == DELETE && e.table in schemas && e.table in S && e.after == []
    requires k in S[e.table] && e.before == S[e.table][k].tuple
    requires T == S[e.table := S[e.table] - {k}]
    ensures LoggedStep(S, e, T, schemas) && LocationOf(e, schemas) == Location(e.table, k)
  {
    hide TypedFields;
    assert RowFits(S[e.table][k], schemas[e.table]) && TypedFields(S[e.table][k].tuple, schemas[e.table].columns);
  }

  lemma RowRemoved(S: State, schemas: map<Bytes, Schema>, table: Bytes, key: Key)
    requires StateFits(S, schemas) && StateTyped(S, schemas) && table in S && key in S[table]
    ensures StateFits(S[table := S[table] - {key}], schemas) && StateTyped(S[table := S[table] - {key}], schemas)
  {
    hide RowFits, TypedFields;
  }

  lemma RowSet(S: State, schemas: map<Bytes, Schema>, table: Bytes, row: Row)
    requires SchemasFit(schemas) && StateFits(S, schemas) && StateTyped(S, schemas)
    requires table in S && RowFits(row, schemas[table]) && TypedFields(row.tuple, schemas[table].columns)
    ensures StateFits(S[table := S[table][row.key := row]], schemas) && StateTyped(S[table := S[table][row.key := row]], schemas)
    ensures RowSize(row) <= MAX_TUPLE_BYTES
  {
    hide RowFits, TypedFields;
    FittingRowIsSmall(row, schemas[table]);
  }

  lemma RowOfState(S: State, schemas: map<Bytes, Schema>, table: Bytes, key: Key)
    requires StateFits(S, schemas) && table in S && key in S[table]
    ensures table in schemas && RowFits(S[table][key], schemas[table]) && S[table][key].key == key
    ensures Has(S[table][key].tuple, schemas[table].pk)
  {
    assert RowFits(S[table][key], schemas[table]);
    if !Has(S[table][key].tuple, schemas[table].pk) {
      AbsentIsNull(S[table][key].tuple, schemas[table].pk);
      assert false;
    }
  }

  lemma FittingRowsEntry(e: LogEntry, row: Row, s: Schema)
    requires e.txn < TWO_32 && |e.table| < MAX_TABLE_NAME && SortedNames(s.cols) && RowFits(row, s)
    requires (e.before == [] && e.after == row.tuple) || (e.before == row.tuple && e.after == [])
    ensures ValidEntry(e)
  {
    hide SortedNames, Sorted;
    ImageOfItself(row.tuple);
    EntryIsValid(e, row.tuple, row.tuple, s);
  }

  lemma StillRunning(states: map<nat, TransactionState>, bases: map<nat, Base>, txn: nat, base: Base)
    requires Running(states, bases) && txn in bases
    ensures Running(states, bases[txn := base]) && txn < TWO_32
  {
  }

  /** The keys of the rows that a WHERE clause selects. */
  ghost function Selected(m: map<Key, Row>, filter: Row -> bool): set<Key> {
    set k | k in m && filter(m[k])
  }

  ghost function Locations(table: Bytes, keys: set<Key>): set<Location> {
    set k | k in keys :: Location(table, k)
  }

  /** A table with the rows of some keys updated. */
  ghost function Rewritten(m: map<Key, Row>, keys: set<Key>, updates: seq<Assignment>): map<Key, Row> {
    map k | k in m :: if k in keys then Row(k, Updated(m[k], updates)) else m[k]
  }

  ghost function SetOf(s: seq<Key>): set<Key> {
    set k | k in s
  }

  lemma SetOfPrefix(s: seq<Key>, i: nat)
    requires i < |s| && forall j | 0 <= j < i :: s[j] != s[i]
    ensures SetOf(s[..i+1]) == SetOf(s[..i]) + {s[i]} && s[i] !in SetOf(s[..i])
  {
    assert s[..i+1] == s[..i] + [s[i]];
  }

  /** One row more is claimed. */
  lemma ClaimsNext(base: Base, table: Bytes, keys: set<Key>, key: Key, S: State, S': State)
    requires key !in keys && At(S', Location(table, key)) == At(S, Location(table, key))
    ensures Claims(Claims(base, Locations(table, keys), S), {Location(table, key)}, S') == Claims(base, Locations(table, keys + {key}), S)
  {
    assert Locations(table, keys + {key}) == Locations(table, keys) + {Location(table, key)};
    assert Location(table, key) !in Locations(table, keys);
  }

  lemma ClaimsNone(bases: map<nat, Base>, txn: nat, table: Bytes, S: State)
    requires txn in bases
    ensures bases == bases[txn := Claims(bases[txn], Locations(table, {}), S)]
  {
    assert Claims(bases[txn], Locations(table, {}), S) == bases[txn];
  }

  lemma DeletedNext(S: State, table: Bytes, keys: set<Key>, key: Key)
    requires table in S && key in S[table] && key !in keys
    ensures var D := S[table := S[table] - keys];
      && key in D[table] && At(D, Location(table, key)) == At(S, Location(table, key))
      && D[table := D[table] - {key}] == S[table := S[table] - (keys + {key})]
  {
    assert S[table] - keys - {key} == S[table] - (keys + {key});
  }

  lemma RewrittenNext(S: State, table: Bytes, keys: set<Key>, key: Key, updates: seq<Assignment>)
    requires table in S && key in S[table] && key !in keys
    ensures var D := S[table := Rewritten(S[table], keys, updates)];
      && key in D[table] && D[table][key] == S[table][key] && At(D, Location(table, key)) == At(S, Location(table, key))
      && D[table := D[table][key := Row(key, Updated(S[table][key], updates))]] == S[table := Rewritten(S[table], keys + {key}, updates)]
  {
    assert Rewritten(S[table], keys, updates)[key := Row(key, Updated(S[table][key], updates))]
      == Rewritten(S[table], keys + {key}, updates);
  }

  lemma UpdateLogged(S: State, e: LogEntry, row: Row, tuple: Tuple, updates: seq<Assignment>, T: State, schemas: map<Bytes, Schema>)
    requires StateFits(S, schemas) && StateTyped(S, schemas)
    requires e.op == UPDATE && e.table in schemas && e.table in S && row.key in S[e.table] && row == S[e.table][row.key]
    requires PlainUpdates(updates, schemas[e.table]) && schemas[e.table].pk in schemas[e.table].cols
    requires Images(row.tuple, tuple, e.before, e.after, updates, |updates|, schemas[e.table].pk)
    requires RowFits(Row(row.key, tuple), schemas[e.table])
    requires var R := S[e.table := S[e.table] - {row.key}]; T == R[e.table := R[e.table][row.key := Row(row.key, tuple)]]
    ensures T == S[e.table := S[e.table][row.key := Row(row.key, tuple)]]
    ensures LoggedStep(S, e, T, schemas) && LocationOf(e, schemas) == Location(e.table, row.key)
  {
    hide Images, RowFits, PlainUpdates, StateFits, StateTyped, LoggedStep, LocationOf;
    Reinserted(S, e.table, row.key, Row(row.key, tuple));
    UpdateStep(S, e, row, tuple, updates, T, schemas);
  }

  /** The tables whose rows a transaction has changed. */
  ghost function TablesOf(base: Base): set<Bytes> {
    set l | l in base :: l.table
  }

  /** What page 0 of a table file says: where the tree begins, how many pages there are, and the head of the free list. */
  datatype Header = Header(root: nat, nPage: nat, firstFreePage: nat)

  class TableFiles {
    const schemas: map<Bytes, Schema>
    const storages: map<Bytes, B.Storage>
    const log: L.LogManager
    /** The headers as they were last saved. */
    var headers: map<Bytes, Header>
    var states: map<nat, TransactionState>
    /** What every running transaction has changed, and from what. */
    ghost var bases: map<nat, Base>

    function HeaderOf(table: Bytes): Header
      reads storages.Values
      requires table in storages
    {
      Header(storages[table].root, storages[table].nPage, storages[table].firstFreePage)
    }

    /** saveEntity. insert, update and delete call it at their end; abort does not. */
    method SaveEntity(table: Bytes)
      requires table in storages
      modifies this`headers
      ensures headers == old(headers)[table := HeaderOf(table)]
    {
      headers := headers[table := HeaderOf(table)];
    }

    ghost function Tables(): State
      reads storages.Values
    {
      map n | n in storages :: storages[n].contents
    }

    ghost function StoragesOf(base: Base): set<B.Storage> {
      set n | n in storages && n in TablesOf(base) :: storages[n]
    }

    /** The parts are in order; nothing is said about transactions yet. */
    ghost predicate Wired()
      reads log, storages.Values
    {
      && log.Valid()
      && storages.Keys == schemas.Keys && SchemasFit(schemas) && NamesFit(schemas)
      && (forall n | n in storages :: storages[n].Valid())
      && (forall m, n | m in storages && n in storages && m != n :: storages[m] != storages[n])
      && StateFits(Tables(), schemas) && StateTyped(Tables(), schemas)
    }

    lemma WiredFacts()
      requires Wired()
      ensures storages.Keys == schemas.Keys == Tables().Keys && SchemasFit(schemas)
      ensures StateFits(Tables(), schemas) && StateTyped(Tables(), schemas)
      ensures forall n | n in schemas :: |n| < MAX_TABLE_NAME && SortedNames(schemas[n].cols)
    {
    }

    /** No UPDATE of txn since its BEGIN has found a column that it assigned absent. */
    ghost predicate FoundColumns(txn: nat)
      reads log
    {
      Clean(L.UndoList(log.Log(), txn))
    }

    /** Every running transaction can be undone. */
    ghost predicate Valid()
      reads this`states, this`bases, log, storages.Values
    {
      && Wired()
      && Running(states, bases)
      && AllUndo(Tables(), log.Log(), bases, schemas)
    }

    /** The files of a database with nobody connected. */
    constructor (schemas: map<Bytes, Schema>, storages: map<Bytes, B.Storage>, log: L.LogManager)
      requires log.Valid()
      requires storages.Keys == schemas.Keys && SchemasFit(schemas) && NamesFit(schemas)
      requires forall n | n in storages :: storages[n].Valid()
      requires forall m, n | m in storages && n in storages && m != n :: storages[m] != storages[n]
      requires var S := map n | n in storages :: storages[n].contents; StateFits(S, schemas) && StateTyped(S, schemas)
      ensures Valid() && bases == map[]
      ensures this.schemas == schemas && this.storages == storages && this.log == log
      ensures headers.Keys == storages.Keys && forall n | n in storages :: headers[n] == HeaderOf(n)
    {
      hide RowFits, B.Storage.Valid, L.LogManager.Valid, L.LogManager.Log, SchemasFit, NamesFit, StateFits, StateTyped, Undoes;
      this.schemas, this.storages, this.log := schemas, storages, log;
      headers := map n | n in storages :: Header(storages[n].root, storages[n].nPage, storages[n].firstFreePage);
      states, bases := map[], map[];
      new;
      assert Tables() == map n | n in storages :: storages[n].contents;
    }

    method BeginTransaction(txn: nat)
      requires Valid() && txn < TWO_32 && txn !in bases
      modifies this`states, this`bases, log
      ensures Valid()
      ensures Tables() == old(Tables()) && bases == old(bases)[txn := map[]]
      ensures forall t :: FoundColumns(t) <==> t == txn || old(FoundColumns(t))
    {
      hide Clean, L.UndoList, AllUndo, Wired, Tables, L.LogManager.Log, ValidEntry;
      var e := LogEntry(txn, BEGIN, [], [], []);
      BeginIsValid(e);
      BeginKeeps(Tables(), log.Log(), bases, e, schemas);
      states := states[txn := GROWING];
      bases := bases[txn := map[]];
      CleanAppend(log.Log(), e);
      AppendUndoEntry(e);
    }

    method Commit(txn: nat)
      requires Valid() && txn in bases
      modifies this`states, this`bases
      ensures Valid()
      ensures Tables() == old(Tables()) && bases == old(bases) - {txn}
    {
      hide Wired, Undoes, Running;
      NoLongerRunning(states, bases, txn, COMMITTED);
      states := states[txn := COMMITTED];
      bases := bases - {txn};
    }

    // -------------------------------------------------------------- one row

    method RemoveRow(table: Bytes, key: Key) returns (row: Row)
      requires Wired() && table in storages && key in Tables()[table]
      modifies storages[table]
      ensures Wired() && row == old(Tables())[table][key]
      ensures Tables() == old(Tables())[table := old(Tables())[table] - {key}]
    {
      hide RowFits, SchemasFit, NamesFit, StateFits, B.Storage.Valid, L.LogManager.Valid, StateTyped;
      assert forall n | n in storages && n != table :: storages[n] != storages[table];
      RowRemoved(Tables(), schemas, table, key);
      row := storages[table].RemoveBtree(key);
      assert Tables() == old(Tables())[table := old(Tables())[table] - {key}];
    }

    method AppendUndoEntry(e: LogEntry)
      requires Wired() && ValidEntry(e)
      modifies log
      ensures Wired() && log.Log() == old(log.Log()) + [e] && Tables() == old(Tables())
    {
      hide RowFits, SchemasFit, NamesFit, B.Storage.Valid, L.LogManager.Valid, L.LogManager.Log, ValidEntry, StateFits, StateTyped;
      assert forall n | n in storages :: storages[n] in storages.Values;
      assert log.Valid();
      log.AppendUndoEntry(e);
    }

    /** setBTree of a row; it throws in writePage if the row cannot be written (TableImage.RowSetIff). What the pages hold then
        is not said. */
    method SetRow(table: Bytes, row: Row) returns (ok: bool)
      requires Wired() && table in storages && row.key !in Tables()[table] && RowFits(row, schemas[table])
      modifies storages[table]
      ensures ok <==> TypedFields(row.tuple, schemas[table].columns)
      ensures ok ==> Wired()
      ensures ok ==> Tables() == old(Tables())[table := old(Tables())[table][row.key := row]]
    {
      hide RowFits, SchemasFit, NamesFit, StateFits, StateTyped, TypedFields, B.Storage.Valid, L.LogManager.Valid;
      ok := TypedFields(row.tuple, schemas[table].columns);
      if !ok {
        return;
      }
      assert forall n | n in storages && n != table :: storages[n] != storages[table];
      RowSet(Tables(), schemas, table, row);
      storages[table].SetBTree(row);
      assert Tables() == old(Tables())[table := old(Tables())[table][row.key := row]];
    }

    /** The log entry, then the row; insert and update end like this. */
    method LogAndSetRow(e: LogEntry, row: Row) returns (ok: bool)
      requires Wired() && ValidEntry(e)
      requires e.table in storages && row.key !in Tables()[e.table] && RowFits(row, schemas[e.table])
      modifies log, storages[e.table]
      ensures ok <==> TypedFields(row.tuple, schemas[e.table].columns)
      ensures ok ==> Wired() && log.Log() == old(log.Log()) + [e]
      ensures ok ==> Tables() == old(Tables())[e.table := old(Tables())[e.table][row.key := row]]
    {
      hide Wired, RowFits, ValidEntry, TypedFields, L.LogManager.Log;
      WiredFacts();
      AppendUndoEntry(e);
      ok := SetRow(e.table, row);
    }

    // -------------------------------------------------------------- statements

    /** The search for the key in validateInsert. */
    method HasKey(table: Bytes, k: Key) returns (found: bool)
      requires Wired() && table in storages
      ensures found <==> k in Tables()[table]
    {
      hide B.Storage.Valid, StateFits, StateTyped, SchemasFit, NamesFit, L.LogManager.Valid;
      var searchPage := storages[table].SearchBtree(k);
      found := searchPage.LeafAt?;
    }

    /** validateInsert, without foreign keys: why a row may not be inserted. */
    method ValidateInsert(table: Bytes, tuple: Tuple) returns (r: Outcome)
      requires Wired() && table in schemas
      ensures r.Done? <==>
        && (forall i | 0 <= i < |schemas[table].required| :: Has(tuple, schemas[table].required[i]))
        && Get(tuple, schemas[table].pk).Int?
        && KeyOf(tuple, schemas[table].pk) !in Tables()[table]
    {
      hide Wired, Has, Get;
      WiredFacts();
      var s := schemas[table];
      var given := AllGiven(tuple, s.required);
      if !given {
        return Failed("Key not null");
      }
      if !Get(tuple, s.pk).Int? {
        return Failed("Can't convert to pair key element");
      }
      var duplicate := HasKey(table, KeyOf(tuple, s.pk));
      r := if duplicate then Failed("Duplicate key") else Done;
    }

    static method AllGiven(tuple: Tuple, required: seq<Bytes>) returns (r: bool)
      ensures r <==> forall i | 0 <= i < |required| :: Has(tuple, required[i])
    {
      for i := 0 to |required|
        invariant forall j | 0 <= j < i :: Has(tuple, required[j])
      {
        if !Has(tuple, required[i]) {
          return false;
        }
      }
      r := true;
    }

    /** What validateInsert asks for. */
    ghost predicate MayInsert(table: Bytes, tuple: Tuple)
      reads storages.Values
      requires storages.Keys == schemas.Keys && table in schemas
    {
      && (forall i | 0 <= i < |schemas[table].required| :: Has(tuple, schemas[table].required[i]))
      && Get(tuple, schemas[table].pk).Int?
      && KeyOf(tuple, schemas[table].pk) !in Tables()[table]
    }

    /** doInsert. */
    method DoInsert(txn: nat, table: Bytes, tuple: Tuple) returns (r: Outcome)
      requires Valid() && txn in bases && table in schemas
      requires Sorted(tuple) && InColumns(tuple, schemas[table].cols)
      requires (4 + 13 + 20) + FullSize(tuple, schemas[table].cols) <= MAX_TUPLE_BYTES
      requires TypedFields(tuple, schemas[table].columns)
      requires Unclaimed(bases, txn, Location(table, KeyOf(tuple, schemas[table].pk)))
      modifies this`bases, log, storages[table]
      ensures Valid()
      ensures r.Done? <==> old(MayInsert(table, tuple))
      ensures r.Failed? ==> Tables() == old(Tables()) && bases == old(bases)
      ensures r.Done? ==>
        var k := KeyOf(tuple, schemas[table].pk);
        && Tables() == old(Tables())[table := old(Tables())[table][k := Row(k, tuple)]]
        && bases == old(bases)[txn := Claims(old(bases)[txn], {Location(table, k)}, old(Tables()))]
      ensures forall t :: FoundColumns(t) <==> old(FoundColumns(t))
    {
      hide AllUndo, Wired, FoundColumns, TypedFields, Claims, Unclaimed, Running, InColumns, Sorted, FullSize, Has, Get;
      WiredFacts();
      r := ValidateInsert(table, tuple);
      if r.Done? {
        InsertRow(txn, table, Row(KeyOf(tuple, schemas[table].pk), tuple));
      }
    }

    /** The bookkeeping behind one logged change: its row is claimed, and everything stays undoable. */
    ghost method Claim(S: State, h: seq<LogEntry>, e: LogEntry, l: Location)
      requires Wired() && Running(states, bases) && StateFits(S, schemas) && AllUndo(S, h, bases, schemas)
      requires log.Log() == h + [e] && e.op != BEGIN && e.txn in bases
      requires LoggedStep(S, e, Tables(), schemas) && e.table in schemas && LocationOf(e, schemas) == l
      requires Unclaimed(bases, e.txn, l)
      modifies this`bases
      ensures Valid()
      ensures bases == old(bases)[e.txn := Claims(old(bases)[e.txn], {l}, S)]
      ensures forall t :: FoundColumns(t) <==> Clean(L.UndoList(h, t)) && (t == e.txn && e.op == UPDATE ==> NoNulls(e.before))
    {
      CleanAppend(h, e);
      hide Clean, L.UndoList, NoNulls, AllUndo, Wired, L.LogManager.Log, RowFits, StateFits, LoggedStep, LocationOf, Claims, Unclaimed, Running, SchemasFit;
      WiredFacts();
      LoggedKeeps(S, h, bases, e, Tables(), schemas);
      StillRunning(states, bases, e.txn, Claims(bases[e.txn], {l}, S));
      bases := bases[e.txn := Claims(bases[e.txn], {l}, S)];
    }

    /** The log entry, then the row. */
    method InsertRow(txn: nat, table: Bytes, row: Row)
      requires Valid() && txn in bases && table in schemas
      requires RowFits(row, schemas[table]) && row.key !in Tables()[table]
      requires TypedFields(row.tuple, schemas[table].columns)
      requires Unclaimed(bases, txn, Location(table, row.key))
      modifies this`bases, log, storages[table]
      ensures Valid()
      ensures Tables() == old(Tables())[table := old(Tables())[table][row.key := row]]
      ensures bases == old(bases)[txn := Claims(old(bases)[txn], {Location(table, row.key)}, old(Tables()))]
      ensures forall t :: FoundColumns(t) <==> old(FoundColumns(t))
    {
      hide Clean, L.UndoList, TypedFields, StateTyped, AllUndo, Wired, L.LogManager.Log, ValidEntry, RowFits, StateFits, LoggedStep, LocationOf, Claims, Unclaimed, Running, SchemasFit, SortedNames;
      WiredFacts();
      var e := LogEntry(txn, INSERT, table, [], row.tuple);
      StillRunning(states, bases, txn, bases[txn]);
      ghost var S, h := Tables(), log.Log();
      FittingRowsEntry(e, row, schemas[table]);
      var ok := LogAndSetRow(e, row);
      InsertStep(S, e, row.key, Tables(), schemas);
      Claim(S, h, e, Location(table, row.key));
    }

    /** removeBtree, then the log entry. */
    method DeleteRow(txn: nat, table: Bytes, key: Key)
      requires Valid() && txn in bases && table in schemas
      requires key in Tables()[table]
      requires Unclaimed(bases, txn, Location(table, key))
      modifies this`bases, log, storages[table]
      ensures Valid()
      ensures Tables() == old(Tables())[table := old(Tables())[table] - {key}]
      ensures bases == old(bases)[txn := Claims(old(bases)[txn], {Location(table, key)}, old(Tables()))]
      ensures forall t :: FoundColumns(t) <==> old(FoundColumns(t))
    {
      hide Clean, L.UndoList, TypedFields, StateTyped, AllUndo, Wired, L.LogManager.Log, ValidEntry, RowFits, StateFits, LoggedStep, LocationOf, Claims, Unclaimed, Running, SchemasFit, SortedNames;
      WiredFacts();
      StillRunning(states, bases, txn, bases[txn]);
      ghost var S, h := Tables(), log.Log();
      var row := RemoveRow(table, key);
      RowOfState(S, schemas, table, key);
      var e := LogEntry(txn, DELETE, table, row.tuple, []);
      FittingRowsEntry(e, row, schemas[table]);
      AppendUndoEntry(e);
      DeleteStep(S, e, key, Tables(), schemas);
      Claim(S, h, e, Location(table, key));
    }

    /** One row of an update: remove it, build the images while assigning, log, insert it again. A row that cannot be
        written makes writePage throw, when the row is out already. */
    method UpdateRow(txn: nat, table: Bytes, key: Key, updates: seq<Assignment>) returns (ok: bool)
      requires Valid() && txn in bases && table in schemas
      requires key in Tables()[table] && PlainUpdates(updates, schemas[table])
      requires RowFits(Row(key, Updated(Tables()[table][key], updates)), schemas[table])
      requires Unclaimed(bases, txn, Location(table, key))
      modifies this`bases, log, storages[table]
      ensures ok <==> TypedFields(Updated(old(Tables())[table][key], updates), schemas[table].columns)
      ensures ok ==> Valid()
      ensures ok ==>
        Tables() == old(Tables())[table := old(Tables())[table][key := Row(key, Updated(old(Tables())[table][key], updates))]]
      ensures ok ==> AssignedInOrder(old(Tables())[table][key], Tables()[table][key].tuple, updates)
      ensures ok ==> bases == old(bases)[txn := Claims(old(bases)[txn], {Location(table, key)}, old(Tables()))]
      ensures ok ==> forall t :: FoundColumns(t) <==>
        old(FoundColumns(t)) && (t == txn ==> HasAll(old(Tables())[table][key], updates))
    {
      hide Clean, L.UndoList, TypedFields, StateTyped, AllUndo, Wired, L.LogManager.Log, ValidEntry, RowFits, StateFits, LoggedStep,
        LocationOf, Claims, Unclaimed, Running, SchemasFit, SortedNames, Images, PlainUpdates, Updated, HasAll, NoNulls, AssignedInOrder;
      WiredFacts();
      PlainInOrder(Tables()[table][key], updates, schemas[table]);
      StillRunning(states, bases, txn, bases[txn]);
      ghost var S, h := Tables(), log.Log();
      var e, row := TakeRow(txn, table, key, updates);
      ok := LogAndSetRow(e, row);
      if ok {
        Claim(S, h, e, Location(table, key));
      }
    }

    /** The first half of UpdateRow: the row is out, its images and its new form are built. */
    method TakeRow(txn: nat, table: Bytes, key: Key, updates: seq<Assignment>) returns (e: LogEntry, updated: Row)
      requires Wired() && txn < TWO_32 && table in schemas
      requires key in Tables()[table] && PlainUpdates(updates, schemas[table])
      requires RowFits(Row(key, Updated(Tables()[table][key], updates)), schemas[table])
      modifies storages[table]
      ensures Wired() && key !in Tables()[table]
      ensures updated == Row(key, Updated(old(Tables())[table][key], updates))
      ensures e.txn == txn && e.table == table && e.op == UPDATE && ValidEntry(e)
      ensures NoNulls(e.before) <==> HasAll(old(Tables())[table][key], updates)
      ensures var after := Tables()[table := Tables()[table][key := updated]];
        && after == old(Tables())[table := old(Tables())[table][key := updated]]
        && LoggedStep(old(Tables()), e, after, schemas) && LocationOf(e, schemas) == Location(table, key)
    {
      hide Wired, ValidEntry, RowFits, StateFits, StateTyped, TypedFields, LoggedStep, LocationOf, SchemasFit, SortedNames, Images,
        PlainUpdates, SetOnce, Updated, NoNulls, HasAll;
      WiredFacts();
      PlainIsOnce(updates, schemas[table]);
      ghost var S := Tables();
      RowOfState(S, schemas, table, key);
      var row := RemoveRow(table, key);
      var tuple, before, after := BuildImages(row, schemas[table].pk, updates);
      e, updated := LogEntry(txn, UPDATE, table, before, after), Row(row.key, tuple);
      UpdateEntry(e, row, tuple, updates, schemas);
      UpdateFound(S, e, row, tuple, updates, schemas);
      UpdateLogged(S, e, row, tuple, updates, Tables()[table := Tables()[table][key := updated]], schemas);
    }

    method EachUndoEntry(txn: nat) returns (entries: seq<LogEntry>)
      requires Wired()
      modifies log
      ensures Wired() && log.Log() == old(log.Log()) && Tables() == old(Tables())
      ensures entries == L.UndoList(log.Log(), txn)
    {
      hide RowFits, SchemasFit, NamesFit, B.Storage.Valid, L.LogManager.Valid, L.LogManager.Log, L.UndoList, StateFits;
      assert forall n | n in storages :: storages[n] in storages.Values;
      assert log.Valid();
      entries := log.EachUndoEntry(txn);
    }

    lemma ListFacts(txn: nat)
      requires AllUndo(Tables(), log.Log(), bases, schemas) && txn in bases
      ensures var list := L.UndoList(log.Log(), txn);
        && CanUndoAll(Tables(), list, schemas)
        && forall i | 0 <= i < |list| ::
             EntryFits(list[i], schemas) && list[i].op != BEGIN && list[i].table in TablesOf(bases[txn])
    {
      hide CanUndoAll, EntryFits, Gives, L.UndoList;
      assert Undoes(Tables(), L.UndoList(log.Log(), txn), bases[txn], schemas);
    }

    /** The scan at the head of update and of deleteTuples: the keys of the selected rows. */
    method SelectedKeys(table: Bytes, filter: Row -> bool) returns (keys: seq<Key>)
      requires Wired() && table in storages
      ensures forall i, j | 0 <= i < j < |keys| :: keys[i] != keys[j]
      ensures SetOf(keys) == Selected(Tables()[table], filter)
      ensures forall k :: k in keys <==> k in Tables()[table] && filter(Tables()[table][k])
    {
      hide B.Storage.Valid, StateFits, SchemasFit, L.LogManager.Valid;
      var rows := storages[table].Scan();
      keys := [];
      for i := 0 to |rows|
        invariant forall a, b | 0 <= a < b < |keys| :: keys[a] < keys[b]
        invariant forall a | 0 <= a < |keys| :: i > 0 && keys[a] <= rows[i-1].key
        invariant forall k :: k in keys <==> exists a :: 0 <= a < i && rows[a].key == k && filter(rows[a])
      {
        if filter(rows[i]) {
          keys := keys + [rows[i].key];
        }
      }
    }

    method DeleteTuples(txn: nat, table: Bytes, filter: Row -> bool)
      requires Valid() && txn in bases && table in schemas
      requires forall k | k in Selected(Tables()[table], filter) :: Unclaimed(bases, txn, Location(table, k))
      modifies this`bases, log, storages[table]
      ensures Valid()
      ensures var m := old(Tables())[table];
        Tables() == old(Tables())[table := map k | k in m && !filter(m[k]) :: m[k]]
      ensures var gone := Selected(old(Tables())[table], filter);
        && Tables() == old(Tables())[table := old(Tables())[table] - gone]
        && bases == old(bases)[txn := Claims(old(bases)[txn], Locations(table, gone), old(Tables()))]
      ensures forall t :: FoundColumns(t) <==> old(FoundColumns(t))
    {
      hide FoundColumns, AllUndo, Wired, Running, Claims, Locations, Selected, SetOf, StateFits, StateTyped, SchemasFit, Unclaimed;
      WiredFacts();
      ghost var S, b := Tables(), bases;
      var deleteKeys := SelectedKeys(table, filter);
      assert deleteKeys[..|deleteKeys|] == deleteKeys;
      NothingYet(S, b, txn, table);
      for i := 0 to |deleteKeys|
        invariant Valid() && txn in bases
        invariant Tables() == S[table := S[table] - SetOf(deleteKeys[..i])]
        invariant forall t :: FoundColumns(t) <==> old(FoundColumns(t))
        invariant bases == b[txn := Claims(b[txn], Locations(table, SetOf(deleteKeys[..i])), S)]
      {
        SelectedMember(S, table, filter, deleteKeys, i);
        DeleteNext(S, b, txn, table, deleteKeys, i);
        DeleteRow(txn, table, deleteKeys[i]);
      }
      KeptRows(S[table], filter);
    }

    method Update(txn: nat, table: Bytes, updates: seq<Assignment>, filter: Row -> bool) returns (r: Outcome)
      requires Valid() && txn in bases && table in schemas
      requires PlainUpdates(updates, schemas[table])
      requires forall k | k in Selected(Tables()[table], filter) ::
        && k in Tables()[table] && RowFits(Row(k, Updated(Tables()[table][k], updates)), schemas[table])
        && Unclaimed(bases, txn, Location(table, k))
      modifies this`bases, log, storages[table]
      ensures r.Done? <==> forall k | k in Selected(old(Tables())[table], filter) ::
        TypedFields(Updated(old(Tables())[table][k], updates), schemas[table].columns)
      ensures r.Done? ==> Valid()
      ensures r.Done? ==> UpdatedWhere(old(Tables())[table], Tables()[table], filter, updates)
      ensures var changed := Selected(old(Tables())[table], filter);
        r.Done? ==>
          && Tables() == old(Tables())[table := Rewritten(old(Tables())[table], changed, updates)]
          && bases == old(bases)[txn := Claims(old(bases)[txn], Locations(table, changed), old(Tables()))]
          && forall t :: FoundColumns(t) <==>
               old(FoundColumns(t)) && (t == txn ==> AllHave(old(Tables())[table], changed, updates))
    {
      hide FoundColumns, HasAll, TypedFields, StateTyped, AllUndo, Wired, Running, Claims, Locations, Selected, SetOf, Rewritten, Updated,
        RowFits, PlainUpdates, StateFits, SchemasFit, Unclaimed, UpdatedWhere;
      WiredFacts();
      ghost var S, b := Tables(), bases;
      RewrittenWhere(S[table], filter, updates, schemas[table]);
      var updateKeys := SelectedKeys(table, filter);
      assert updateKeys[..|updateKeys|] == updateKeys;
      NothingYet(S, b, txn, table);
      NothingRewritten(S, table, updates);
      for i := 0 to |updateKeys|
        invariant Valid() && txn in bases
        invariant Tables() == S[table := Rewritten(S[table], SetOf(updateKeys[..i]), updates)]
        invariant bases == b[txn := Claims(b[txn], Locations(table, SetOf(updateKeys[..i])), S)]
        invariant forall j | 0 <= j < i ::
          && updateKeys[j] in S[table]
          && TypedFields(Updated(S[table][updateKeys[j]], updates), schemas[table].columns)
        invariant forall t :: FoundColumns(t) <==>
          old(FoundColumns(t)) && (t == txn ==> AllHave(S[table], SetOf(updateKeys[..i]), updates))
      {
        SelectedMember(S, table, filter, updateKeys, i);
        UpdateNext(S, b, txn, table, updateKeys, i, updates);
        var ok := UpdateRow(txn, table, updateKeys[i], updates);
        if !ok {
          return Failed("bad variant access");
        }
      }
      SelectedIndex(S, table, filter, updateKeys);
      r := Done;
    }

    // -------------------------------------------------------------- abort

    /** undoDelete: assign the before image, generate a key unless the tuple still has one, insert. */
    method RestoreRow(table: Bytes, start: Tuple, btreeKey: Option<Key>, before: Tuple) returns (ok: bool)
      requires Wired() && table in storages
      requires var tuple := PutAll(start, before);
        var key := if btreeKey.Some? then btreeKey.value else KeyOf(tuple, schemas[table].pk);
        key !in Tables()[table] && RowFits(Row(key, tuple), schemas[table])
      modifies storages[table]
      ensures ok <==> TypedFields(PutAll(start, before), schemas[table].columns)
      ensures ok ==> Wired()
      ensures ok ==>
        var tuple := PutAll(start, before);
        var key := if btreeKey.Some? then btreeKey.value else KeyOf(tuple, schemas[table].pk);
        Tables() == old(Tables())[table := old(Tables())[table][key := Row(key, tuple)]]
    {
      hide Wired, RowFits, TypedFields;
      WiredFacts();
      var tuple := start;
      for i := 0 to |before|
        invariant Wired() && Tables() == old(Tables())
        invariant PutAll(tuple, before[i..]) == PutAll(start, before)
      {
        tuple := Put(tuple, before[i].name, before[i].value);
      }
      var key := if btreeKey.Some? then btreeKey.value else KeyOf(tuple, schemas[table].pk);
      ok := SetRow(table, Row(key, tuple));
    }

    /** The visitor of undo, for one entry. It throws, when the row is out already, exactly if it puts back a null. */
    method UndoEntry(e: LogEntry) returns (ok: bool)
      requires Wired() && e.op != BEGIN && EntryFits(e, schemas) && CanUndo(Tables(), e, schemas)
      modifies storages[e.table]
      ensures ok <==> (e.op == UPDATE ==> NoNulls(e.before))
      ensures ok ==> Wired() && Tables() == UndoOne(old(Tables()), e, schemas)
    {
      UndoneTyped(Tables(), e, schemas);
      hide Wired, RowFits, StateFits, StateTyped, TypedFields, InColumns, NoNulls, EntryTyped;
      WiredFacts();
      ghost var S := Tables();
      var pk := schemas[e.table].pk;
      ok := true;
      match e.op
      case INSERT =>
        var row := RemoveRow(e.table, KeyOf(e.after, pk));
      case DELETE =>
        KeyOfRestored(e.before, pk);
        ok := RestoreRow(e.table, [], None, e.before);
      case UPDATE =>
        RowOfState(S, schemas, e.table, KeyOf(e.after, pk));
        var row := RemoveRow(e.table, KeyOf(e.after, pk));
        Reinserted(S, e.table, row.key, Row(row.key, PutAll(row.tuple, e.before)));
        ok := RestoreRow(e.table, row.tuple, Some(row.key), e.before);
    }

    /** The tables of the entries that undo will visit. */
    method TablesToUndo(txn: nat) returns (tables: set<Bytes>)
      requires Valid() && txn in bases
      modifies log
      ensures Valid() && Tables() == old(Tables())
      ensures forall t :: FoundColumns(t) <==> old(FoundColumns(t))
      ensures tables <= TablesOf(bases[txn]) && tables <= storages.Keys
    {
      hide Wired, AllUndo, L.UndoList, L.LogManager.Log, Running, EntryFits, Clean, CanUndoAll, StateFits, StateTyped, SchemasFit;
      WiredFacts();
      ListFacts(txn);
      var entries := EachUndoEntry(txn);
      tables := {};
      for i := 0 to |entries|
        modifies {}
        invariant tables <= TablesOf(bases[txn]) && tables <= storages.Keys
      {
        EntryTable(entries[i], schemas);
        tables := tables + {entries[i].table};
      }
    }

    /** undo, up to an entry that puts back a null. */
    method Undo(txn: nat, ghost S: State, ghost h: seq<LogEntry>) returns (ok: bool)
      requires Wired() && AllUndo(S, h, bases, schemas) && txn in bases && Tables() == S && log.Log() == h
      modifies log, StoragesOf(bases[txn])
      ensures log.Log() == h
      ensures ok <==> Clean(L.UndoList(h, txn))
      ensures ok ==> Wired() && Tables() == UndoAll(S, L.UndoList(h, txn), schemas)
    {
      hide Wired, StateFits, CanUndo, UndoOne, L.UndoList, L.LogManager.Log, EntryFits, Gives, NoNulls;
      ListFacts(txn);
      var entries := EachUndoEntry(txn);
      for i := 0 to |entries|
        invariant Wired() && log.Log() == h
        invariant CanUndoAll(Tables(), entries[i..], schemas)
        invariant UndoAll(Tables(), entries[i..], schemas) == UndoAll(S, entries, schemas)
        invariant forall j | 0 <= j < i && entries[j].op == UPDATE :: NoNulls(entries[j].before)
      {
        assert entries[i..][1..] == entries[i+1..];
        EntryTable(entries[i], schemas);
        WiredFacts();
        ok := UndoEntry(entries[i]);
        if !ok {
          return;
        }
      }
      ok := true;
    }

    lemma AbortFacts(txn: nat)
      requires Wired()
      ensures SchemasFit(schemas) && StateFits(Tables(), schemas)
    {
    }

    /** abort: every row that txn has changed gets back the value it had before, up to absent and null
        fields; every other row, and every other running transaction, keeps what it has. That is so exactly if every
        UPDATE of txn found the columns that it assigned; otherwise the replay throws. */
    method Abort(txn: nat) returns (r: Outcome)
      requires Valid() && txn in bases
      modifies this`states, this`bases, log, StoragesOf(bases[txn])
      ensures r.Done? <==> old(FoundColumns(txn))
      ensures r.Done? ==> Valid() && bases == old(bases) - {txn}
      ensures r.Done? ==> Gives(Tables(), old(bases)[txn]) && SameOutside(Tables(), old(Tables()), old(bases)[txn].Keys)
      ensures log.Log() == old(log.Log())
    {
      hide Wired, AllUndo, Gives, SameOutside, StateFits, L.UndoList, L.LogManager.Log, Running, UndoAll, Undoes, SchemasFit, Clean,
        Tables, StateTyped, TypedFields, RowFits, EntryFits, CanUndoAll;
      AbortFacts(txn);
      ghost var S, h, b := Tables(), log.Log(), bases;
      NoLongerRunning(states, bases, txn, ABORTED);
      AbortKeeps(S, h, b, txn, schemas);
      states := states[txn := ABORTED];
      var ok := Undo(txn, S, h);
      if !ok {
        return Failed("bad variant access");
      }
      bases := bases - {txn};
      r := Done;
    }
  }

  lemma EntryTable(e: LogEntry, schemas: map<Bytes, Schema>)
    requires EntryFits(e, schemas) && e.op != BEGIN
    ensures e.table in schemas
  {
  }

  lemma KeyOfRestored(before: Tuple, pk: Bytes)
    requires Sorted(before)
    ensures KeyOf(PutAll([], before), pk) == KeyOf(before, pk)
  {
    PutAllGet([], before, pk);
    if !Has(before, pk) {
      AbsentIsNull(before, pk);
    }
  }

  lemma NothingYet(S: State, bases: map<nat, Base>, txn: nat, table: Bytes)
    requires txn in bases && table in S
    ensures bases == bases[txn := Claims(bases[txn], Locations(table, SetOf([])), S)]
    ensures S == S[table := S[table] - SetOf([])]
  {
    NoKeys();
    assert S[table] - {} == S[table];
    ClaimsNone(bases, txn, table, S);
  }

  lemma NothingRewritten(S: State, table: Bytes, updates: seq<Assignment>)
    requires table in S && forall k | k in S[table] :: S[table][k].key == k
    ensures S == S[table := Rewritten(S[table], SetOf([]), updates)]
    ensures AllHave(S[table], SetOf([]), updates)
  {
    assert Rewritten(S[table], {}, updates) == S[table];
    NoKeys();
  }

  lemma NoKeys()
    ensures SetOf([]) == {}
  {
  }

  lemma OthersClaim(bases: map<nat, Base>, txn: nat, base: Base, l: Location)
    requires Unclaimed(bases, txn, l)
    ensures Unclaimed(bases[txn := base], txn, l)
  {
  }

  /** One turn of the loop of deleteTuples, seen from its start. */
  lemma DeleteNext(S: State, b: map<nat, Base>, txn: nat, table: Bytes, keys: seq<Key>, i: nat)
    requires table in S && txn in b && i < |keys| && keys[i] in S[table] && Unclaimed(b, txn, Location(table, keys[i]))
    requires forall j | 0 <= j < i :: keys[j] != keys[i]
    ensures var done, l := SetOf(keys[..i]), Location(table, keys[i]);
      var D, c := S[table := S[table] - done], b[txn := Claims(b[txn], Locations(table, done), S)];
      && keys[i] in D[table] && Unclaimed(c, txn, l)
      && D[table := D[table] - {keys[i]}] == S[table := S[table] - SetOf(keys[..i+1])]
      && c[txn := Claims(c[txn], {l}, D)] == b[txn := Claims(b[txn], Locations(table, SetOf(keys[..i+1])), S)]
  {
    hide Claims, Locations, SetOf, Unclaimed;
    var done := SetOf(keys[..i]);
    SetOfPrefix(keys, i);
    DeletedNext(S, table, done, keys[i]);
    ClaimsNext(b[txn], table, done, keys[i], S, S[table := S[table] - done]);
    OthersClaim(b, txn, Claims(b[txn], Locations(table, done), S), Location(table, keys[i]));
  }

  /** One turn of the loop of update. */
  lemma UpdateNext(S: State, b: map<nat, Base>, txn: nat, table: Bytes, keys: seq<Key>, i: nat, updates: seq<Assignment>)
    requires table in S && txn in b && i < |keys| && keys[i] in S[table] && Unclaimed(b, txn, Location(table, keys[i]))
    requires forall j | 0 <= j < i :: keys[j] != keys[i]
    ensures var done, l := SetOf(keys[..i]), Location(table, keys[i]);
      var D, c := S[table := Rewritten(S[table], done, updates)], b[txn := Claims(b[txn], Locations(table, done), S)];
      && keys[i] in D[table] && D[table][keys[i]] == S[table][keys[i]] && Unclaimed(c, txn, l)
      && D[table := D[table][keys[i] := Row(keys[i], Updated(S[table][keys[i]], updates))]]
           == S[table := Rewritten(S[table], SetOf(keys[..i+1]), updates)]
      && c[txn := Claims(c[txn], {l}, D)] == b[txn := Claims(b[txn], Locations(table, SetOf(keys[..i+1])), S)]
      && (AllHave(S[table], SetOf(keys[..i+1]), updates) <==> AllHave(S[table], done, updates) && HasAll(S[table][keys[i]], updates))
  {
    hide Claims, Locations, SetOf, Unclaimed, Rewritten, Updated, HasAll;
    var done := SetOf(keys[..i]);
    SetOfPrefix(keys, i);
    RewrittenNext(S, table, done, keys[i], updates);
    ClaimsNext(b[txn], table, done, keys[i], S, S[table := Rewritten(S[table], done, updates)]);
    OthersClaim(b, txn, Claims(b[txn], Locations(table, done), S), Location(table, keys[i]));
  }

  lemma SelectedIndex(S: State, table: Bytes, filter: Row -> bool, keys: seq<Key>)
    requires table in S && SetOf(keys) == Selected(S[table], filter)
    ensures forall k | k in Selected(S[table], filter) :: exists i :: 0 <= i < |keys| && keys[i] == k
  {
    forall k | k in Selected(S[table], filter) ensures exists i :: 0 <= i < |keys| && keys[i] == k {
      assert k in SetOf(keys);
    }
  }

  lemma SelectedMember(S: State, table: Bytes, filter: Row -> bool, keys: seq<Key>, i: nat)
    requires table in S && i < |keys| && SetOf(keys) == Selected(S[table], filter)
    ensures keys[i] in S[table] && keys[i] in Selected(S[table], filter)
  {
    assert keys[i] in SetOf(keys);
  }

  lemma Reinserted(S: State, table: Bytes, key: Key, row: Row)
    requires table in S
    ensures var R := S[table := S[table] - {key}];
      R[table := R[table][key := row]] == S[table := S[table][key := row]]
  {
    assert (S[table] - {key})[key := row] == S[table][key := row];
  }

  lemma UpdateFound(S: State, e: LogEntry, row: Row, tuple: Tuple, updates: seq<Assignment>, schemas: map<Bytes, Schema>)
    requires SchemasFit(schemas) && StateFits(S, schemas) && StateTyped(S, schemas)
    requires e.table in S && row.key in S[e.table] && row == S[e.table][row.key] && Has(row.tuple, schemas[e.table].pk)
    requires Images(row.tuple, tuple, e.before, e.after, updates, |updates|, schemas[e.table].pk)
    ensures NoNulls(e.before) <==> HasAll(row, updates)
  {
    hide Images, RowFits, TypedFields, SchemaFits, NoNulls, Has;
    ImagesNoNulls(row, tuple, e.before, e.after, updates, schemas[e.table]);
  }

  lemma UpdateEntry(e: LogEntry, row: Row, tuple: Tuple, updates: seq<Assignment>, schemas: map<Bytes, Schema>)
    requires e.txn < TWO_32 && |e.table| < MAX_TABLE_NAME && SchemasFit(schemas) && e.table in schemas
    requires PlainUpdates(updates, schemas[e.table])
    requires Images(row.tuple, tuple, e.before, e.after, updates, |updates|, schemas[e.table].pk)
    requires RowFits(row, schemas[e.table]) && RowFits(Row(row.key, tuple), schemas[e.table])
    ensures ValidEntry(e) && schemas[e.table].pk in schemas[e.table].cols
  {
    hide Get, FullSize, Sorted, InColumns, ValidEntry, PlainUpdates, SortedNames, ImageOf;
    ImagesDone(row, tuple, e.before, e.after, updates, schemas[e.table]);
    EntryIsValid(e, row.tuple, tuple, schemas[e.table]);
  }

  /** A row of one column, and of two. */
  function RowOf(id: Bytes, v: Value): Tuple {
    [Field(id, v)]
  }

  function RowWith(b: Bytes, vb: Value, id: Bytes, v: Value): Tuple {
    [Field(b, vb)] + RowOf(id, v)
  }

  lemma FieldsOf(b: Bytes, vb: Value, id: Bytes, v: Value, n: Bytes)
    ensures (Has(RowOf(id, v), n) <==> n == id) && Get(RowOf(id, v), n) == if n == id then v else Null
    ensures Has(RowWith(b, vb, id, v), n) <==> n == b || n == id
    ensures Get(RowWith(b, vb, id, v), n) == if n == b then vb else if n == id then v else Null
  {
    assert RowOf(id, v)[1..] == [];
    assert RowWith(b, vb, id, v)[1..] == RowOf(id, v);
  }

  /** Row 1 is inserted without its column b; an UPDATE sets b to 5 and logs these images; undoing it puts a null into b, and
      the row cannot be written. */
  lemma NullPutBack(b: Bytes, id: Bytes)
    requires NameLess(b, id) && b != BTREE_KEY && b != CHILD_BTREE_KEY && id != BTREE_KEY && id != CHILD_BTREE_KEY
    ensures var s := Schema(id, [b, id], [id], [Column(id, 'I' as nat), Column(b, 'I' as nat)]);
      var row, updates := Row(1, RowOf(id, Int(1))), [Assignment(b, _ => Int(5))];
      var before, after := RowWith(b, Null, id, Int(1)), RowWith(b, Int(5), id, Int(1));
      && SchemaFits(s) && TypedFields(row.tuple, s.columns) && TypedFields(after, s.columns) && Updated(row, updates) == after
      && Images(row.tuple, after, before, after, updates, 1, id)
      && SameTuple(PutAll(after, before), row.tuple) && !TypedFields(PutAll(after, before), s.columns)
  {
    hide Has, Get, RowOf, RowWith, Sorted, PutAll, Updated;
    AssignedOnce(b, id, Int(1), Int(5));
    var columns := [Column(id, 'I' as nat), Column(b, 'I' as nat)];
    assert columns[0] == Column(id, 'I' as nat) && columns[1] == Column(b, 'I' as nat);
    var updates := [Assignment(b, _ => Int(5))];
    RowsSorted(b, id, Null, Int(1));
    RowsSorted(b, id, Int(5), Int(1));
    var before, after := RowWith(b, Null, id, Int(1)), RowWith(b, Int(5), id, Int(1));
    forall n
      ensures IsUpdated(n, updates, 1) <==> n == b
      ensures (Has(before, n) <==> n == b || n == id) && Get(before, n) == if n == id then Int(1) else Null
      ensures (Has(after, n) <==> n == b || n == id) && Get(after, n) == if n == b then Int(5) else if n == id then Int(1) else Null
      ensures (Has(RowOf(id, Int(1)), n) <==> n == id) && Get(RowOf(id, Int(1)), n) == if n == id then Int(1) else Null
      ensures Get(PutAll(after, before), n) == Get(before, n) && (Has(PutAll(after, before), n) <==> n == b || n == id)
    {
      assert updates[0].column == b;
      FieldsOf(b, Null, id, Int(1), n);
      FieldsOf(b, Int(5), id, Int(1), n);
      PutAllGet(after, before, n);
    }
  }

  /** Row 1 without its integer column b, and an UPDATE that sets b to a string: all that update asks for, and the new row cannot be
      written. So update throws, when the row is out already. */
  lemma StringIntoNumber(b: Bytes, id: Bytes)
    requires NameLess(b, id) && b != BTREE_KEY && b != CHILD_BTREE_KEY && id != BTREE_KEY && id != CHILD_BTREE_KEY
    requires |b| + |id| <= 100
    ensures var s := Schema(id, [b, id], [id], [Column(id, 'I' as nat), Column(b, 'I' as nat)]);
      var row, updates := Row(1, RowOf(id, Int(1))), [Assignment(b, _ => Varchar([]))];
      && SchemaFits(s) && RowFits(row, s) && TypedFields(row.tuple, s.columns)
      && PlainUpdates(updates, s) && RowFits(Row(1, Updated(row, updates)), s)
      && !TypedFields(Updated(row, updates), s.columns)
  {
    hide Has, Get, RowOf, RowWith, Sorted, Updated, InColumns, FullSize;
    AssignedOnce(b, id, Int(1), Varchar([]));
    RowsSorted(b, id, Varchar([]), Int(1));
    var columns := [Column(id, 'I' as nat), Column(b, 'I' as nat)];
    assert columns[0] == Column(id, 'I' as nat) && columns[1] == Column(b, 'I' as nat);
    SizesOf(b, Varchar([]), id, Int(1));
    ColumnsOf(b, Varchar([]), id, Int(1));
    forall n
      ensures (Has(RowOf(id, Int(1)), n) <==> n == id) && Get(RowOf(id, Int(1)), n) == if n == id then Int(1) else Null
      ensures Has(RowWith(b, Varchar([]), id, Int(1)), n) <==> n == b || n == id
      ensures Get(RowWith(b, Varchar([]), id, Int(1)), n) == if n == b then Varchar([]) else if n == id then Int(1) else Null
    {
      FieldsOf(b, Varchar([]), id, Int(1), n);
    }
  }

  lemma SizesOf(b: Bytes, vb: Value, id: Bytes, v: Value)
    requires NameLess(b, id)
    ensures FullSize(RowWith(b, vb, id, v), [b, id]) == 8 + |b| + |id| + SizeOfValue(vb) + SizeOfValue(v)
    ensures FullSize(RowOf(id, v), [b, id]) == 8 + |b| + |id| + SizeOfValue(v)
  {
    hide Get, NameLess, Sorted, RowWith, RowOf;
    RowsSorted(b, id, vb, v);
    FieldsOf(b, vb, id, v, b);
    FieldsOf(b, vb, id, v, id);
    forall t ensures FullSize(t, [b, id]) == 8 + |b| + |id| + SizeOfValue(Get(t, b)) + SizeOfValue(Get(t, id)) {
      FullSizeOfTwo(t, b, id);
    }
  }

  lemma FullSizeOfTwo(t: Tuple, b: Bytes, id: Bytes)
    ensures FullSize(t, [b, id]) == 8 + |b| + |id| + SizeOfValue(Get(t, b)) + SizeOfValue(Get(t, id))
  {
    hide Get;
    assert [b, id][1..] == [id] && [id][1..] == [];
    assert FullSize(t, [id]) == 4 + |id| + SizeOfValue(Get(t, id));
  }

  lemma ColumnsOf(b: Bytes, vb: Value, id: Bytes, v: Value)
    requires NameLess(b, id) && ValidField(Field(b, vb)) && ValidField(Field(id, v))
    ensures InColumns(RowWith(b, vb, id, v), [b, id]) && InColumns(RowOf(id, v), [b, id]) && Sorted(RowOf(id, v))
  {
    hide NameLess;
    assert RowWith(b, vb, id, v)[0] == Field(b, vb) && RowWith(b, vb, id, v)[1] == Field(id, v);
    assert b in [b, id] && id in [b, id];
  }

  lemma AssignedOnce(b: Bytes, id: Bytes, v: Value, w: Value)
    requires NameLess(b, id)
    ensures Updated(Row(1, RowOf(id, v)), [Assignment(b, _ => w)]) == RowWith(b, w, id, v)
  {
    hide NameLess;
    RowsSorted(b, id, Null, v);
    NameOrder(b, id);
    FieldsOf(b, Null, id, v, b);
    assert Touch(RowOf(id, v), b) == RowWith(b, Null, id, v);
    assert RowWith(b, Null, id, v)[1..] == RowOf(id, v);
    assert Put(RowWith(b, Null, id, v), b, w) == RowWith(b, w, id, v);
    var updates := [Assignment(b, _ => w)];
    assert updates[1..] == [];
  }

  lemma RowsSorted(b: Bytes, id: Bytes, vb: Value, v: Value)
    requires NameLess(b, id)
    ensures Sorted(RowWith(b, vb, id, v)) && b != id
  {
    NameOrder(b, id);
  }

  /** The two loops that fill the images and assign the new values. */
  method BuildImages(row: Row, pk: Bytes, updates: seq<Assignment>)
    returns (updated: Tuple, before: Tuple, after: Tuple)
    requires SetOnce(updates, pk) && Has(row.tuple, pk)
    ensures updated == Updated(row, updates) && AssignedInOrder(row, updated, updates)
    ensures Images(row.tuple, updated, before, after, updates, |updates|, pk)
  {
    hide Get, Images, Has, Put, AssignedInOrder;
    UpdatedInOrder(row, updates);
    updated := Touch(row.tuple, pk);
    before := Put([], pk, Get(updated, pk));
    after := Put([], pk, Get(updated, pk));
    ImagesStart(updated, updates, pk, Get(updated, pk));
    for i := 0 to |updates|
      invariant Updated(Row(row.key, updated), updates[i..]) == Updated(row, updates)
      invariant Images(row.tuple, updated, before, after, updates, i, pk)
    {
      var n := updates[i].column;
      ImagesStep(row.tuple, updated, before, after, updates, i, pk, updates[i].expression(Row(row.key, Touch(updated, n))));
      before := Put(before, n, Get(updated, n));
      updated := Touch(updated, n);
      var v := updates[i].expression(Row(row.key, updated));
      after := Put(after, n, v);
      updated := Put(updated, n, v);
    }
  }
}
