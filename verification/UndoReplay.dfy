/** What a log entry changes, what undoing it changes, and why an abort restores the tables
    (transaction_handle.cpp). */
module UndoReplay {
  import opened Tuples
  import opened Pages
  import opened Encoding
  import opened UndoLog
  import opened LogManager
  import opened Options

  /** The integer column that is the key of a table, the names of all its columns in order, those that
      must be given, and the columns with their types as the attribute list has them. */
  datatype Schema = Schema(pk: Bytes, cols: seq<Bytes>, required: seq<Bytes>, columns: seq<Column>)

  /** The rows of every table. */
  type State = map<Bytes, map<Key, Row>>

  datatype Location = Location(table: Bytes, key: Key)

  function At(S: State, l: Location): Option<Tuple> {
    if l.table in S && l.key in S[l.table] then Some(S[l.table][l.key].tuple) else None
  }

  /** Equal up to fields that are absent in one and null in the other. */
  ghost predicate SameTuple(a: Tuple, b: Tuple) {
    forall n :: Get(a, n) == Get(b, n)
  }

  ghost predicate SameAt(a: Option<Tuple>, b: Option<Tuple>) {
    match (a, b)
    case (None, None) => true
    case (Some(x), Some(y)) => SameTuple(x, y)
    case _ => false
  }

  /** States that differ at most inside L, and there at most by absent and null fields. */
  ghost predicate SameWithin(S: State, T: State, L: set<Location>) {
    forall l | l in L :: SameAt(At(S, l), At(T, l))
  }

  ghost predicate SameOutside(S: State, T: State, L: set<Location>) {
    S.Keys == T.Keys && forall l | l !in L :: At(S, l) == At(T, l)
  }

  // ------------------------------------------------------------- well-formed rows

  /** Encoded bytes of a tuple in which every column is present. */
  function FullSize(t: Tuple, cols: seq<Bytes>): nat {
    if cols == [] then 0 else 4 + |cols[0]| + SizeOfValue(Get(t, cols[0])) + FullSize(t, cols[1..])
  }

  ghost predicate SortedNames(cols: seq<Bytes>) {
    forall i, j | 0 <= i < j < |cols| :: NameLess(cols[i], cols[j])
  }

  ghost predicate InColumns(t: Tuple, cols: seq<Bytes>) {
    forall i | 0 <= i < |t| :: ValidField(t[i]) && t[i].name in cols
  }

  /** A row that the table may hold: its columns are the table's, its key column gives its key,
      and it is small even with every absent column written as null. */
  ghost predicate RowFits(row: Row, s: Schema) {
    && Sorted(row.tuple) && InColumns(row.tuple, s.cols)
    && Get(row.tuple, s.pk) == Int(row.key)
    && (4 + 13 + 20) + FullSize(row.tuple, s.cols) <= MAX_TUPLE_BYTES
  }

  ghost predicate StateFits(S: State, schemas: map<Bytes, Schema>) {
    && S.Keys == schemas.Keys
    && forall n, k | n in S && k in S[n] :: S[n][k].key == k && RowFits(S[n][k], schemas[n])
  }

  /** Only columns of the table are written. */
  lemma {:induction false} ColumnSizes(t: Tuple, u: Tuple, cols: seq<Bytes>)
    requires SortedNames(cols) && Sorted(t) && InColumns(t, cols)
    requires forall i | 0 <= i < |t| :: t[i].value == Get(u, t[i].name)
    ensures SizeOfTuple(t) <= FullSize(u, cols)
    ensures 4 * |t| <= SizeOfTuple(t)
    decreases |cols|
  {
    if t != [] {
      assert t[0].name in cols;
      var c := cols[0];
      NameOrder(t[0].name, c);
      assert t[0].name == c || NameLess(c, t[0].name);
      forall i | 0 < i < |t|
        ensures t[i].name in cols[1..]
      {
        NameOrder(t[0].name, t[i].name);
        assert t[i].name in cols && t[i].name != c;
      }
      if t[0].name == c {
        ColumnSizes(t[1..], u, cols[1..]);
      } else {
        ColumnSizes(t, u, cols[1..]);
      }
    }
  }

  lemma {:induction false} SameSize(t: Tuple, u: Tuple, cols: seq<Bytes>)
    requires SameTuple(t, u)
    ensures FullSize(t, cols) == FullSize(u, cols)
    decreases |cols|
  {
    if cols != [] {
      SameSize(t, u, cols[1..]);
    }
  }

  /** Such a row is small enough for the tree. */
  lemma FittingRowIsSmall(row: Row, s: Schema)
    requires RowFits(row, s) && SortedNames(s.cols)
    ensures RowSize(row) <= MAX_TUPLE_BYTES
  {
    forall i | 0 <= i < |row.tuple|
      ensures row.tuple[i].value == Get(row.tuple, row.tuple[i].name)
    {
      GetOfField(row.tuple, i);
    }
    ColumnSizes(row.tuple, row.tuple, s.cols);
  }

  // ------------------------------------------------------------- images

  /** The loop that assigns every field of an image to a tuple. */
  function PutAll(t: Tuple, image: Tuple): Tuple
    decreases |image|
  {
    if image == [] then t else PutAll(Put(t, image[0].name, image[0].value), image[1..])
  }

  lemma {:induction false} PutAllGet(t: Tuple, image: Tuple, n: Bytes)
    requires Sorted(image)
    ensures Get(PutAll(t, image), n) == if Has(image, n) then Get(image, n) else Get(t, n)
    ensures Has(PutAll(t, image), n) <==> Has(image, n) || Has(t, n)
    decreases |image|
  {
    if image != [] {
      var f := image[0];
      PutAllGet(Put(t, f.name, f.value), image[1..], n);
      PutGet(t, f.name, f.value, n);
      if f.name == n {
        HasIndex(image[1..], n);
        if Has(image[1..], n) {
          var i :| 0 <= i < |image[1..]| && image[1..][i].name == n;
          NameOrder(image[0].name, image[i+1].name);
          assert false;
        }
      }
    }
  }

  lemma {:induction false} PutAllInColumns(t: Tuple, image: Tuple, cols: seq<Bytes>)
    requires Sorted(t) && InColumns(t, cols) && InColumns(image, cols)
    ensures Sorted(PutAll(t, image)) && InColumns(PutAll(t, image), cols)
    decreases |image|
  {
    if image != [] {
      var f := image[0];
      PutSorted(t, f.name, f.value);
      var t' := Put(t, f.name, f.value);
      forall i | 0 <= i < |t'|
        ensures ValidField(t'[i]) && t'[i].name in cols
      {
        assert t'[i] in t';
        assert t'[i] == f || t'[i] in t;
      }
      PutAllInColumns(t', image[1..], cols);
    }
  }

  // ------------------------------------------------------------- doing and undoing an entry

  /** The image that holds an entry's key. */
  function KeyImage(e: LogEntry): Tuple {
    if e.op == DELETE then e.before else e.after
  }

  function KeyOf(t: Tuple, pk: Bytes): Key {
    match Get(t, pk)
    case Int(i) => i
    case _ => 0
  }

  function LocationOf(e: LogEntry, schemas: map<Bytes, Schema>): Location
    requires e.table in schemas
  {
    Location(e.table, KeyOf(KeyImage(e), schemas[e.table].pk))
  }

  /** Values of the types of their columns, or nulls. */
  ghost predicate TypedOrNull(t: Tuple, columns: seq<Column>) {
    forall c | 0 <= c < |columns| && Has(t, columns[c].name) ::
      Get(t, columns[c].name) == Null || TypeTag(Get(t, columns[c].name)) == columns[c].tag
  }

  /** The image to restore is a whole row of a DELETE; for an UPDATE it has a null for every column that was absent. */
  ghost predicate EntryTyped(e: LogEntry, s: Schema) {
    && (e.op == DELETE ==> TypedFields(e.before, s.columns))
    && (e.op == UPDATE ==> TypedOrNull(e.before, s.columns))
  }

  /** An entry other than BEGIN names a table and has images of its columns. */
  ghost predicate EntryFits(e: LogEntry, schemas: map<Bytes, Schema>) {
    e.op != BEGIN ==>
      && e.table in schemas
      && Sorted(e.before) && InColumns(e.before, schemas[e.table].cols)
      && Sorted(e.after) && InColumns(e.after, schemas[e.table].cols)
      && EntryTyped(e, schemas[e.table])
  }

  /** What INSERT, DELETE and UPDATE entries promise about the change they were written for. */
  ghost predicate LoggedChange(old_: Option<Tuple>, e: LogEntry, new_: Option<Tuple>) {
    match e.op
    case BEGIN => old_ == new_
    case INSERT => old_.None? && new_ == Some(e.after)
    case DELETE => old_ == Some(e.before) && new_.None?
    case UPDATE =>
      && old_.Some? && new_.Some?
      && (forall n :: Has(e.before, n) <==> Has(e.after, n))
      && (forall n | Has(e.before, n) :: Get(e.before, n) == Get(old_.value, n))
      && (forall n :: Get(new_.value, n) == if Has(e.after, n) then Get(e.after, n) else Get(old_.value, n))
  }

  /** One logged change of one row. */
  ghost predicate LoggedStep(S: State, e: LogEntry, T: State, schemas: map<Bytes, Schema>) {
    && EntryFits(e, schemas)
    && if e.op == BEGIN then SameOutside(S, T, {}) else
         && SameOutside(S, T, {LocationOf(e, schemas)})
         && LoggedChange(At(S, LocationOf(e, schemas)), e, At(T, LocationOf(e, schemas)))
  }

  /** The tuple that the visitor of undo inserts again. */
  function Restored(S: State, e: LogEntry, l: Location): Tuple {
    match At(S, l)
    case Some(t) => if e.op == UPDATE then PutAll(t, e.before) else PutAll([], e.before)
    case None => PutAll([], e.before)
  }

  /** The removal and insertion that undoing e makes are allowed. */
  ghost predicate CanUndo(S: State, e: LogEntry, schemas: map<Bytes, Schema>) {
    e.op != BEGIN ==>
      && e.table in schemas && e.table in S
      && var l := LocationOf(e, schemas);
         && (e.op == DELETE <==> At(S, l).None?)
         && (e.op != INSERT ==> RowFits(Row(l.key, Restored(S, e, l)), schemas[e.table]))
  }

  function UndoOne(S: State, e: LogEntry, schemas: map<Bytes, Schema>): State {
    if e.op == BEGIN || e.table !in S || e.table !in schemas then S
    else
      var l := LocationOf(e, schemas);
      if e.op == INSERT then S[e.table := S[e.table] - {l.key}]
      else S[e.table := S[e.table][l.key := Row(l.key, Restored(S, e, l))]]
  }

  function UndoAll(S: State, list: seq<LogEntry>, schemas: map<Bytes, Schema>): State
    decreases |list|
  {
    if list == [] then S else UndoAll(UndoOne(S, list[0], schemas), list[1..], schemas)
  }

  ghost predicate CanUndoAll(S: State, list: seq<LogEntry>, schemas: map<Bytes, Schema>)
    decreases |list|
  {
    list == [] || (CanUndo(S, list[0], schemas) && CanUndoAll(UndoOne(S, list[0], schemas), list[1..], schemas))
  }

  /** All entries are changes of rows in L. */
  ghost predicate Touches(list: seq<LogEntry>, L: set<Location>, schemas: map<Bytes, Schema>) {
    forall i | 0 <= i < |list| ::
      EntryFits(list[i], schemas) && list[i].op != BEGIN && LocationOf(list[i], schemas) in L
  }

  ghost predicate SchemaFits(s: Schema) {
    && SortedNames(s.cols) && s.pk in s.cols
    && ColumnsFit(s.columns) && HasColumn(s.columns, s.pk, 'I' as nat)
    && (forall c | 0 <= c < |s.columns| :: s.columns[c].name in s.cols)
    && forall n | n in s.cols :: AmongColumns(s.columns, n)
  }

  ghost predicate SchemasFit(schemas: map<Bytes, Schema>) {
    forall n | n in schemas :: SchemaFits(schemas[n])
  }

  /** Undoing one entry changes its own row only. */
  lemma UndoOneAt(S: State, e: LogEntry, schemas: map<Bytes, Schema>, x: Location)
    requires e.op != BEGIN && CanUndo(S, e, schemas)
    ensures UndoOne(S, e, schemas).Keys == S.Keys
    ensures At(UndoOne(S, e, schemas), x) ==
      if x != LocationOf(e, schemas) then At(S, x)
      else if e.op == INSERT then None
      else Some(Restored(S, e, x))
  {
  }

  lemma UndoOneFits(S: State, e: LogEntry, schemas: map<Bytes, Schema>)
    requires StateFits(S, schemas) && CanUndo(S, e, schemas)
    ensures StateFits(UndoOne(S, e, schemas), schemas)
  {
    hide RowFits;
  }

  /** Undoing the entry of a change restores the row up to absent and null fields. */
  lemma UndoneChange(S: State, e: LogEntry, T: State, schemas: map<Bytes, Schema>)
    requires SchemasFit(schemas) && StateFits(S, schemas) && StateFits(T, schemas)
    requires LoggedStep(S, e, T, schemas) && e.op != BEGIN
    ensures CanUndo(T, e, schemas)
    ensures SameAt(At(UndoOne(T, e, schemas), LocationOf(e, schemas)), At(S, LocationOf(e, schemas)))
    ensures SameOutside(UndoOne(T, e, schemas), S, {LocationOf(e, schemas)})
  {
    hide SchemasFit, EntryTyped, InColumns, Sorted, FullSize, Get, Has, PutAll;
    var l := LocationOf(e, schemas);
    var s := schemas[e.table];
    if e.op != INSERT {
      var t := Restored(T, e, l);
      RestoredIsOld(At(S, l), e, At(T, l), l, t);
      RestoredFits(S, e, T, schemas, t);
    }
    UndoOneAt(T, e, schemas, l);
    forall x | x != l ensures At(UndoOne(T, e, schemas), x) == At(S, x) {
      UndoOneAt(T, e, schemas, x);
    }
  }

  lemma RestoredIsOld(old_: Option<Tuple>, e: LogEntry, new_: Option<Tuple>, l: Location, t: Tuple)
    requires LoggedChange(old_, e, new_) && e.op != BEGIN && e.op != INSERT && Sorted(e.before)
    requires t == if e.op == UPDATE then PutAll(new_.value, e.before) else PutAll([], e.before)
    ensures old_.Some? && SameTuple(t, old_.value)
  {
    forall n ensures Get(t, n) == Get(old_.value, n) {
      if e.op == UPDATE {
        PutAllGet(new_.value, e.before, n);
      } else {
        PutAllGet([], e.before, n);
        if !Has(e.before, n) {
          AbsentIsNull(e.before, n);
        }
      }
    }
  }

  lemma RestoredFits(S: State, e: LogEntry, T: State, schemas: map<Bytes, Schema>, t: Tuple)
    requires SchemasFit(schemas) && StateFits(S, schemas) && StateFits(T, schemas)
    requires EntryFits(e, schemas) && e.op != BEGIN
    requires At(S, LocationOf(e, schemas)).Some? && SameTuple(t, At(S, LocationOf(e, schemas)).value)
    requires t == Restored(T, e, LocationOf(e, schemas))
    ensures RowFits(Row(LocationOf(e, schemas).key, t), schemas[e.table])
  {
    var l := LocationOf(e, schemas);
    var s := schemas[e.table];
    var row := S[l.table][l.key];
    assert RowFits(row, s);
    SameSize(t, row.tuple, s.cols);
    PutAllInColumns([], e.before, s.cols);
    if At(T, l).Some? {
      assert RowFits(T[l.table][l.key], s);
      PutAllInColumns(At(T, l).value, e.before, s.cols);
    }
  }

  /** States that agree on a row up to absent and null fields undo an entry of that row alike. */
  lemma SameUndo(S: State, T: State, e: LogEntry, schemas: map<Bytes, Schema>)
    requires StateFits(S, schemas) && StateFits(T, schemas)
    requires EntryFits(e, schemas) && e.op != BEGIN
    requires SameAt(At(S, LocationOf(e, schemas)), At(T, LocationOf(e, schemas)))
    requires CanUndo(S, e, schemas)
    ensures CanUndo(T, e, schemas)
    ensures SameAt(At(UndoOne(S, e, schemas), LocationOf(e, schemas)), At(UndoOne(T, e, schemas), LocationOf(e, schemas)))
  {
    var l := LocationOf(e, schemas);
    var s := schemas[e.table];
    if e.op != INSERT {
      var a, b := Restored(S, e, l), Restored(T, e, l);
      forall n ensures Get(a, n) == Get(b, n) {
        PutAllGet([], e.before, n);
        if e.op == UPDATE {
          PutAllGet(At(S, l).value, e.before, n);
          PutAllGet(At(T, l).value, e.before, n);
        }
      }
      SameSize(a, b, s.cols);
      PutAllInColumns([], e.before, s.cols);
      if At(T, l).Some? {
        assert RowFits(T[l.table][l.key], s);
        PutAllInColumns(At(T, l).value, e.before, s.cols);
      }
    }
    UndoOneAt(S, e, schemas, l);
    UndoOneAt(T, e, schemas, l);
  }

  /** Replaying undo entries of L from states that agree on L succeeds alike, ends alike on L, and leaves
      every row outside L as it was. */
  lemma {:induction false} SameUndoAll(S: State, T: State, list: seq<LogEntry>, L: set<Location>, schemas: map<Bytes, Schema>)
    requires StateFits(S, schemas) && StateFits(T, schemas) && Touches(list, L, schemas)
    requires SameWithin(S, T, L)
    requires CanUndoAll(S, list, schemas)
    ensures CanUndoAll(T, list, schemas)
    ensures SameWithin(UndoAll(S, list, schemas), UndoAll(T, list, schemas), L)
    ensures StateFits(UndoAll(T, list, schemas), schemas)
    ensures SameOutside(UndoAll(T, list, schemas), T, L)
    decreases |list|
  {
    hide StateFits, EntryFits, LocationOf, CanUndo, UndoOne, RowFits, At, SameAt;
    if list != [] {
      var e := list[0];
      SameUndo(S, T, e, schemas);
      UndoOneFits(S, e, schemas);
      UndoOneFits(T, e, schemas);
      var S', T' := UndoOne(S, e, schemas), UndoOne(T, e, schemas);
      forall x | x != LocationOf(e, schemas) ensures At(S', x) == At(S, x) && At(T', x) == At(T, x) {
        UndoOneAt(S, e, schemas, x);
        UndoOneAt(T, e, schemas, x);
      }
      UndoOneAt(T, e, schemas, LocationOf(e, schemas));
      SameUndoAll(S', T', list[1..], L, schemas);
    }
  }

  // ------------------------------------------------------------- whole runs

  /** The tables after each entry of a log. */
  ghost predicate Run(states: seq<State>, es: seq<LogEntry>, schemas: map<Bytes, Schema>) {
    && |states| == |es| + 1
    && (forall i | 0 <= i < |states| :: StateFits(states[i], schemas))
    && forall i | 0 <= i < |es| :: LoggedStep(states[i], es[i], states[i+1], schemas)
  }

  /** The rows of L belong to txn: nobody else changes them, and txn changes no others. */
  ghost predicate Owns(es: seq<LogEntry>, txn: nat, L: set<Location>, schemas: map<Bytes, Schema>) {
    forall i | 0 <= i < |es| && es[i].op != BEGIN ::
      EntryFits(es[i], schemas) && (LocationOf(es[i], schemas) in L <==> es[i].txn == txn)
  }

  ghost predicate NoBegin(es: seq<LogEntry>, txn: nat) {
    forall i | 0 <= i < |es| && es[i].txn == txn :: es[i].op != BEGIN
  }

  /** The log without one transaction. */
  ghost function Without(es: seq<LogEntry>, txn: nat): seq<LogEntry> {
    if es == [] then []
    else
      var rest := Without(es[..|es|-1], txn);
      if es[|es|-1].txn == txn then rest else rest + [es[|es|-1]]
  }

  lemma RunPrefix(states: seq<State>, es: seq<LogEntry>, txn: nat, L: set<Location>, schemas: map<Bytes, Schema>)
    requires es != [] && Run(states, es, schemas) && Owns(es, txn, L, schemas) && NoBegin(es, txn)
    ensures |states| == |es| + 1
    ensures Run(states[..|es|], es[..|es|-1], schemas)
    ensures Owns(es[..|es|-1], txn, L, schemas) && NoBegin(es[..|es|-1], txn)
    ensures LoggedStep(states[|es|-1], es[|es|-1], states[|es|], schemas)
    ensures StateFits(states[|es|-1], schemas) && StateFits(states[|es|], schemas)
  {
    hide StateFits, LoggedStep, EntryFits;
  }

  /** The values that rows had when a transaction first changed them. */
  type Base = map<Location, Option<Tuple>>

  ghost predicate Gives(S: State, base: Base) {
    forall l | l in base :: SameAt(At(S, l), base[l])
  }

  /** Undoing the list is possible and gives every row of base its value in base. */
  ghost predicate Undoes(S: State, list: seq<LogEntry>, base: Base, schemas: map<Bytes, Schema>) {
    && Touches(list, base.Keys, schemas)
    && CanUndoAll(S, list, schemas)
    && Gives(UndoAll(S, list, schemas), base)
  }

  lemma GivesAlso(A: State, B: State, base: Base)
    requires SameWithin(A, B, base.Keys) && Gives(A, base)
    ensures Gives(B, base)
  {
    forall l | l in base ensures SameAt(At(B, l), base[l]) {
      assert SameAt(At(A, l), At(B, l)) && SameAt(At(A, l), base[l]);
    }
  }

  /** One entry more, undone in front of the others, gives what the others give. */
  lemma UndoNewest(S: State, e: LogEntry, T: State, list: seq<LogEntry>, base: Base, schemas: map<Bytes, Schema>)
    requires SchemasFit(schemas) && StateFits(S, schemas) && StateFits(T, schemas)
    requires LoggedStep(S, e, T, schemas) && e.op != BEGIN && LocationOf(e, schemas) in base
    requires Undoes(S, list, base, schemas)
    ensures Undoes(T, [e] + list, base, schemas)
  {
    hide StateFits, RowFits, CanUndo, UndoOne, LoggedChange, SchemasFit;
    UndoneChange(S, e, T, schemas);
    UndoOneFits(T, e, schemas);
    var U := UndoOne(T, e, schemas);
    forall l | l in base ensures SameAt(At(S, l), At(U, l)) {
      SameAtReflexive(At(S, l));
    }
    SameUndoAll(S, U, list, base.Keys, schemas);
    GivesAlso(UndoAll(S, list, schemas), UndoAll(U, list, schemas), base);
    assert ([e] + list)[1..] == list;
  }

  /** A change of rows outside base does not disturb its undo list. */
  lemma UndoUndisturbed(S: State, T: State, list: seq<LogEntry>, base: Base, schemas: map<Bytes, Schema>)
    requires StateFits(S, schemas) && StateFits(T, schemas)
    requires forall l | l in base :: At(S, l) == At(T, l)
    requires Undoes(S, list, base, schemas)
    ensures Undoes(T, list, base, schemas)
  {
    hide StateFits, CanUndoAll, UndoAll, Touches, SameOutside;
    SameUndoAll(S, T, list, base.Keys, schemas);
    GivesAlso(UndoAll(S, list, schemas), UndoAll(T, list, schemas), base);
  }

  /** Undoing leaves every row outside base as it is, and only rows that fit. */
  lemma UndoTouchesBase(S: State, list: seq<LogEntry>, base: Base, schemas: map<Bytes, Schema>)
    requires StateFits(S, schemas) && Undoes(S, list, base, schemas)
    ensures SameOutside(UndoAll(S, list, schemas), S, base.Keys)
    ensures StateFits(UndoAll(S, list, schemas), schemas)
  {
    hide StateFits, CanUndoAll, UndoAll, Touches, SameOutside, At;
    forall l ensures SameAt(At(S, l), At(S, l)) {
      SameAtReflexive(At(S, l));
    }
    SameUndoAll(S, S, list, base.Keys, schemas);
  }

  /** In any interleaving in which nobody else changes the rows of txn, undoing the entries of txn
      newest first always succeeds, gives those rows their first values and leaves all others alone. */
  lemma AbortRestores(states: seq<State>, es: seq<LogEntry>, txn: nat, L: set<Location>, schemas: map<Bytes, Schema>)
    requires SchemasFit(schemas) && Run(states, es, schemas) && Owns(es, txn, L, schemas) && NoBegin(es, txn)
    ensures var mine := Reversed(EntriesOf(es, txn));
      && Touches(mine, L, schemas)
      && CanUndoAll(states[|es|], mine, schemas)
      && SameWithin(UndoAll(states[|es|], mine, schemas), states[0], L)
      && SameOutside(UndoAll(states[|es|], mine, schemas), states[|es|], L)
  {
    hide StateFits, RowFits, CanUndoAll, UndoAll, LoggedChange, SchemasFit, Run, EntryFits, SameAt, At, Touches;
    RunKeys(states, es, schemas);
    var base := map l | l in L :: At(states[0], l);
    AbortGives(states, es, txn, L, schemas, base);
    UndoTouchesBase(states[|es|], Reversed(EntriesOf(es, txn)), base, schemas);
  }

  lemma {:induction false} AbortGives(states: seq<State>, es: seq<LogEntry>, txn: nat, L: set<Location>, schemas: map<Bytes, Schema>,
      base: Base)
    requires SchemasFit(schemas) && Run(states, es, schemas) && Owns(es, txn, L, schemas) && NoBegin(es, txn)
    requires base.Keys == L && forall l | l in L :: base[l] == At(states[0], l)
    ensures Undoes(states[|es|], Reversed(EntriesOf(es, txn)), base, schemas)
    decreases |es|
  {
    hide StateFits, RowFits, LoggedChange, SchemasFit, Run, EntryFits, Undoes;
    RunKeys(states, es, schemas);
    if es == [] {
      NothingUndone(states[0], base, schemas);
    } else {
      var n := |es| - 1;
      var e := es[n];
      RunPrefix(states, es, txn, L, schemas);
      AbortGives(states[..|es|], es[..n], txn, L, schemas, base);
      var mine := Reversed(EntriesOf(es[..n], txn));
      if e.txn == txn {
        UndoNewest(states[n], e, states[n+1], mine, base, schemas);
        var all := EntriesOf(es, txn);
        assert all[..|all|-1] == EntriesOf(es[..n], txn);
      } else {
        UndoUndisturbed(states[n], states[n+1], mine, base, schemas);
      }
    }
  }

  lemma NothingUndone(S: State, base: Base, schemas: map<Bytes, Schema>)
    requires forall l | l in base :: base[l] == At(S, l)
    ensures Undoes(S, [], base, schemas)
  {
  }

  /** The rows of L from one state, all others from another. */
  ghost function Mix(S: State, start: State, L: set<Location>): State
    requires S.Keys == start.Keys
  {
    map n | n in S :: map k | k in S[n].Keys + start[n].Keys && k in (if Location(n, k) in L then start[n] else S[n])
      :: (if Location(n, k) in L then start[n] else S[n])[k]
  }

  lemma MixAt(S: State, start: State, L: set<Location>, l: Location)
    requires S.Keys == start.Keys
    ensures Mix(S, start, L).Keys == S.Keys
    ensures At(Mix(S, start, L), l) == At(if l in L then start else S, l)
  {
  }

  lemma MixFits(S: State, start: State, L: set<Location>, schemas: map<Bytes, Schema>)
    requires StateFits(S, schemas) && StateFits(start, schemas)
    ensures StateFits(Mix(S, start, L), schemas)
  {
    hide RowFits;
  }

  /** The same run without one transaction. */
  ghost function Alone(states: seq<State>, es: seq<LogEntry>, txn: nat, L: set<Location>): seq<State>
    requires |states| == |es| + 1
    requires forall i | 0 <= i < |states| :: states[i].Keys == states[0].Keys
    decreases |es|
  {
    if es == [] then [states[0]]
    else
      var rest := Alone(states[..|es|], es[..|es|-1], txn, L);
      if es[|es|-1].txn == txn then rest else rest + [Mix(states[|es|], states[0], L)]
  }

  /** Without txn the other transactions make the same changes, and end with the rows of txn as they were. */
  lemma {:induction false} OthersAlone(states: seq<State>, es: seq<LogEntry>, txn: nat, L: set<Location>, schemas: map<Bytes, Schema>)
    requires Run(states, es, schemas) && Owns(es, txn, L, schemas) && NoBegin(es, txn)
    requires forall i | 0 <= i < |states| :: states[i].Keys == states[0].Keys
    ensures var alone := Alone(states, es, txn, L);
      && Run(alone, Without(es, txn), schemas)
      && |alone| == |Without(es, txn)| + 1 && alone[0] == states[0]
      && alone[|alone|-1].Keys == states[0].Keys
      && forall l :: At(alone[|alone|-1], l) == At(if l in L then states[0] else states[|es|], l)
    decreases |es|
  {
    hide StateFits, LoggedChange, EntryFits, Mix, At;
    if es != [] {
      var n := |es| - 1;
      RunPrefix(states, es, txn, L, schemas);
      OthersAlone(states[..|es|], es[..n], txn, L, schemas);
      var rest := Alone(states[..|es|], es[..n], txn, L);
      var e := es[n];
      if e.txn != txn {
        var mixed := Mix(states[|es|], states[0], L);
        MixFits(states[|es|], states[0], L, schemas);
        forall l ensures At(mixed, l) == At(if l in L then states[0] else states[|es|], l) {
          MixAt(states[|es|], states[0], L, l);
        }
        MixAt(states[|es|], states[0], L, Location([], 0));
        StepAlone(rest[|rest|-1], e, mixed, states[n], states[n+1], states[0], L, schemas);
        RunAppend(rest, Without(es[..n], txn), e, mixed, schemas);
      }
    }
  }

  lemma StepAlone(A: State, e: LogEntry, B: State, S: State, T: State, start: State, L: set<Location>, schemas: map<Bytes, Schema>)
    requires LoggedStep(S, e, T, schemas) && (e.op != BEGIN ==> LocationOf(e, schemas) !in L)
    requires A.Keys == B.Keys
    requires forall l :: At(A, l) == At(if l in L then start else S, l)
    requires forall l :: At(B, l) == At(if l in L then start else T, l)
    ensures LoggedStep(A, e, B, schemas)
  {
    hide At, LoggedChange;
  }

  lemma RunAppend(states: seq<State>, es: seq<LogEntry>, e: LogEntry, T: State, schemas: map<Bytes, Schema>)
    requires Run(states, es, schemas) && StateFits(T, schemas) && LoggedStep(states[|es|], e, T, schemas)
    ensures Run(states + [T], es + [e], schemas)
  {
    hide StateFits, LoggedStep;
  }

  /** An abort removes exactly the effects of its transaction: the tables are, up to absent and null fields,
      those of a run in which the other transactions made the same changes and txn did not run at all. */
  lemma AbortErasesTransaction(states: seq<State>, es: seq<LogEntry>, txn: nat, L: set<Location>, schemas: map<Bytes, Schema>)
    returns (alone: seq<State>)
    requires SchemasFit(schemas) && Run(states, es, schemas) && Owns(es, txn, L, schemas) && NoBegin(es, txn)
    ensures Run(alone, Without(es, txn), schemas) && |alone| > 0 && alone[0] == states[0]
    ensures forall l :: SameAt(At(UndoAll(states[|es|], Reversed(EntriesOf(es, txn)), schemas), l), At(alone[|alone|-1], l))
  {
    hide StateFits, LoggedStep, UndoAll, CanUndoAll, Touches, At, SameAt, Run, Owns, NoBegin, Alone;
    RunKeys(states, es, schemas);
    AbortRestores(states, es, txn, L, schemas);
    OthersAlone(states, es, txn, L, schemas);
    alone := Alone(states, es, txn, L);
    var last := states[|es|];
    var undone := UndoAll(last, Reversed(EntriesOf(es, txn)), schemas);
    forall l ensures SameAt(At(undone, l), At(alone[|alone|-1], l)) {
      SameAtReflexive(At(last, l));
      assert l !in L ==> At(undone, l) == At(last, l);
    }
  }

  lemma RunKeys(states: seq<State>, es: seq<LogEntry>, schemas: map<Bytes, Schema>)
    requires Run(states, es, schemas)
    ensures |states| == |es| + 1 && StateFits(states[|es|], schemas)
    ensures forall i | 0 <= i < |states| :: states[i].Keys == states[0].Keys
  {
    hide RowFits, LoggedStep;
    assert StateFits(states[0], schemas);
  }

  lemma SameAtReflexive(a: Option<Tuple>)
    ensures SameAt(a, a)
  {
  }

  // ------------------------------------------------------------- transactions that are still running

  /** Every running transaction can be undone at any time, and no row is claimed by two of them. */
  ghost predicate AllUndo(S: State, log: seq<LogEntry>, bases: map<nat, Base>, schemas: map<Bytes, Schema>) {
    && (forall t | t in bases :: Undoes(S, UndoList(log, t), bases[t], schemas))
    && forall t, u | t in bases && u in bases && t != u :: bases[t].Keys !! bases[u].Keys
  }

  /** Rows that a transaction changes for the first time enter its base with the values they have. */
  ghost function Claims(base: Base, L: set<Location>, S: State): Base {
    map l | l in base.Keys + L :: if l in base then base[l] else At(S, l)
  }

  ghost predicate Unclaimed(bases: map<nat, Base>, txn: nat, l: Location) {
    forall u | u in bases && u != txn :: l !in bases[u]
  }

  lemma UndoListAppend(log: seq<LogEntry>, e: LogEntry, t: nat)
    ensures UndoList(log + [e], t) ==
      if e.txn != t then UndoList(log, t) else if e.op == BEGIN then [] else [e] + UndoList(log, t)
  {
    assert (log + [e])[..|log|] == log;
  }

  lemma ClaimMore(S: State, list: seq<LogEntry>, base: Base, L: set<Location>, schemas: map<Bytes, Schema>)
    requires StateFits(S, schemas) && Undoes(S, list, base, schemas)
    ensures Undoes(S, list, Claims(base, L, S), schemas)
  {
    hide StateFits, CanUndoAll, UndoAll, EntryFits, At;
    UndoTouchesBase(S, list, base, schemas);
    forall l | l in Claims(base, L, S)
      ensures SameAt(At(UndoAll(S, list, schemas), l), Claims(base, L, S)[l])
    {
      SameAtReflexive(At(S, l));
    }
  }

  /** A logged change keeps every running transaction undoable. */
  lemma LoggedKeeps(S: State, log: seq<LogEntry>, bases: map<nat, Base>, e: LogEntry, T: State, schemas: map<Bytes, Schema>)
    requires SchemasFit(schemas) && StateFits(S, schemas) && StateFits(T, schemas)
    requires AllUndo(S, log, bases, schemas)
    requires LoggedStep(S, e, T, schemas) && e.op != BEGIN && e.txn in bases
    requires Unclaimed(bases, e.txn, LocationOf(e, schemas))
    ensures AllUndo(T, log + [e], bases[e.txn := Claims(bases[e.txn], {LocationOf(e, schemas)}, S)], schemas)
  {
    hide StateFits, Undoes, UndoList, LocationOf, LoggedChange, InColumns, Sorted;
    var claimed := Claims(bases[e.txn], {LocationOf(e, schemas)}, S);
    forall t | t in bases
      ensures Undoes(T, UndoList(log + [e], t), bases[e.txn := claimed][t], schemas)
    {
      UndoListAppend(log, e, t);
      if t == e.txn {
        ClaimMore(S, UndoList(log, t), bases[t], {LocationOf(e, schemas)}, schemas);
        UndoNewest(S, e, T, UndoList(log, t), claimed, schemas);
      } else {
        UndoUndisturbed(S, T, UndoList(log, t), bases[t], schemas);
      }
    }
  }

  lemma BeginKeeps(S: State, log: seq<LogEntry>, bases: map<nat, Base>, e: LogEntry, schemas: map<Bytes, Schema>)
    requires AllUndo(S, log, bases, schemas) && e.op == BEGIN && e.txn !in bases
    ensures AllUndo(S, log + [e], bases[e.txn := map[]], schemas)
  {
    hide Undoes, UndoList;
    forall t | t in bases ensures UndoList(log + [e], t) == UndoList(log, t) {
      UndoListAppend(log, e, t);
    }
    UndoListAppend(log, e, e.txn);
    NothingUndone(S, map[], schemas);
  }

  /** Undoing one running transaction keeps all others undoable. */
  lemma AbortKeeps(S: State, log: seq<LogEntry>, bases: map<nat, Base>, txn: nat, schemas: map<Bytes, Schema>)
    requires StateFits(S, schemas) && AllUndo(S, log, bases, schemas) && txn in bases
    ensures var T := UndoAll(S, UndoList(log, txn), schemas);
      && StateFits(T, schemas)
      && Gives(T, bases[txn]) && SameOutside(T, S, bases[txn].Keys)
      && AllUndo(T, log, bases - {txn}, schemas)
  {
    hide StateFits, UndoAll, CanUndoAll, Touches, At, UndoList;
    var T := UndoAll(S, UndoList(log, txn), schemas);
    UndoTouchesBase(S, UndoList(log, txn), bases[txn], schemas);
    forall t | t in bases && t != txn
      ensures Undoes(T, UndoList(log, t), bases[t], schemas)
    {
      assert bases[t].Keys !! bases[txn].Keys;
      UndoUndisturbed(S, T, UndoList(log, t), bases[t], schemas);
    }
  }

  // ------------------------------------------------------------- rows that transactions share

  /** A column of a row; null if there is no such row. */
  function ColumnAt(S: State, l: Location, n: Bytes): Value {
    match At(S, l)
    case Some(t) => Get(t, n)
    case None => Null
  }

  ghost predicate Updates(e: LogEntry, txn: nat, l: Location, n: Bytes, schemas: map<Bytes, Schema>) {
    e.txn == txn && e.op == UPDATE && e.table in schemas && LocationOf(e, schemas) == l && Has(e.after, n)
  }

  /** The first entry with which txn updates column n of row l; |es| if there is none. */
  ghost function FirstUpdate(es: seq<LogEntry>, txn: nat, l: Location, n: Bytes, schemas: map<Bytes, Schema>): (i: nat)
    ensures i <= |es|
    ensures i < |es| ==> Updates(es[i], txn, l, n, schemas)
    ensures forall j | 0 <= j < i :: !Updates(es[j], txn, l, n, schemas)
  {
    if es == [] then 0
    else
      var i := FirstUpdate(es[..|es|-1], txn, l, n, schemas);
      if i < |es| - 1 || Updates(es[|es|-1], txn, l, n, schemas) then i else |es|
  }

  /** txn changes row l by updates only. */
  ghost predicate OnlyUpdates(es: seq<LogEntry>, txn: nat, l: Location, schemas: map<Bytes, Schema>) {
    forall i | 0 <= i < |es| && es[i].txn == txn && es[i].op != BEGIN && es[i].table in schemas && LocationOf(es[i], schemas) == l ::
      es[i].op == UPDATE
  }

  lemma UndoneColumn(S: State, e: LogEntry, A: State, T: State, l: Location, n: Bytes, schemas: map<Bytes, Schema>)
    requires LoggedStep(S, e, A, schemas) && e.op != BEGIN && CanUndo(T, e, schemas)
    requires LocationOf(e, schemas) == l ==> e.op == UPDATE
    ensures ColumnAt(UndoOne(T, e, schemas), l, n) == ColumnAt(if Updates(e, e.txn, l, n, schemas) then S else T, l, n)
  {
    hide Get, Has, PutAll, RowFits, Sorted, InColumns;
    UndoOneAt(T, e, schemas, l);
    if LocationOf(e, schemas) == l {
      PutAllGet(At(T, l).value, e.before, n);
    }
  }

  /** Whatever other transactions do to a row that txn has only updated: undoing txn gives every column of it that txn has
      updated the value from before its first update, and leaves every other column as it is. */
  lemma {:induction false} AbortOfShared(states: seq<State>, es: seq<LogEntry>, txn: nat, T: State, l: Location, n: Bytes,
      schemas: map<Bytes, Schema>)
    requires Run(states, es, schemas) && NoBegin(es, txn) && OnlyUpdates(es, txn, l, schemas)
    requires CanUndoAll(T, Reversed(EntriesOf(es, txn)), schemas)
    ensures |states| == |es| + 1
    ensures var i := FirstUpdate(es, txn, l, n, schemas);
      ColumnAt(UndoAll(T, Reversed(EntriesOf(es, txn)), schemas), l, n) == ColumnAt(if i < |es| then states[i] else T, l, n)
    decreases |es|
  {
    hide LoggedStep, CanUndo, UndoOne, StateFits, ColumnAt, Updates, LocationOf, EntryFits, EntriesOf, Reversed, Run, NoBegin,
      OnlyUpdates;
    if es == [] {
      NothingShared(states, txn, schemas);
    } else {
      var m := |es| - 1;
      var front, e := es[..m], es[m];
      SharedPrefix(states, es, txn, l, schemas);
      MineReversed(es, txn);
      if e.txn == txn {
        AbortOfShared(states[..|es|], front, txn, UndoOne(T, e, schemas), l, n, schemas);
        UndoneColumn(states[m], e, states[m+1], T, l, n, schemas);
      } else {
        AbortOfShared(states[..|es|], front, txn, T, l, n, schemas);
        NotOfOther(e, txn, l, n, schemas);
      }
    }
  }

  lemma NothingShared(states: seq<State>, txn: nat, schemas: map<Bytes, Schema>)
    requires Run(states, [], schemas)
    ensures |states| == 1 && Reversed(EntriesOf([], txn)) == []
  {
  }

  lemma SharedPrefix(states: seq<State>, es: seq<LogEntry>, txn: nat, l: Location, schemas: map<Bytes, Schema>)
    requires es != [] && Run(states, es, schemas) && NoBegin(es, txn) && OnlyUpdates(es, txn, l, schemas)
    ensures |states| == |es| + 1 && Run(states[..|es|], es[..|es|-1], schemas)
    ensures NoBegin(es[..|es|-1], txn) && OnlyUpdates(es[..|es|-1], txn, l, schemas)
    ensures var e := es[|es|-1]; e.txn == txn ==>
      LoggedStep(states[|es|-1], e, states[|es|], schemas) && e.op != BEGIN && e.table in schemas
      && (LocationOf(e, schemas) == l ==> e.op == UPDATE)
  {
    hide StateFits, LoggedChange, LocationOf;
    assert LoggedStep(states[|es|-1], es[|es|-1], states[|es|], schemas);
  }

  lemma MineReversed(es: seq<LogEntry>, txn: nat)
    requires es != []
    ensures var e, rest := es[|es|-1], Reversed(EntriesOf(es[..|es|-1], txn));
      Reversed(EntriesOf(es, txn)) == if e.txn == txn then [e] + rest else rest
  {
    var all := EntriesOf(es, txn);
    if es[|es|-1].txn == txn {
      assert all[..|all|-1] == EntriesOf(es[..|es|-1], txn);
    }
  }

  lemma NotOfOther(e: LogEntry, txn: nat, l: Location, n: Bytes, schemas: map<Bytes, Schema>)
    requires e.txn != txn
    ensures !Updates(e, txn, l, n, schemas)
  {
  }

  // ------------------------------------------------------------- which tables an abort can write

  /** All rows have the types of their columns, so that their pages can be written. */
  ghost predicate StateTyped(S: State, schemas: map<Bytes, Schema>) {
    forall n, k | n in S && n in schemas && k in S[n] :: TypedFields(S[n][k].tuple, schemas[n].columns)
  }

  /** Every row that the replay of a list puts back can be written. */
  ghost predicate UndoTyped(S: State, list: seq<LogEntry>, schemas: map<Bytes, Schema>)
    decreases |list|
  {
    list == [] ||
      (StateTyped(UndoOne(S, list[0], schemas), schemas) && UndoTyped(UndoOne(S, list[0], schemas), list[1..], schemas))
  }

  ghost predicate NoNulls(t: Tuple) {
    forall i | 0 <= i < |t| :: t[i].value != Null
  }

  /** No UPDATE in the list has found an updated column absent. */
  ghost predicate Clean(list: seq<LogEntry>) {
    forall i | 0 <= i < |list| && list[i].op == UPDATE :: NoNulls(list[i].before)
  }

  lemma NullField(t: Tuple, i: nat)
    requires Sorted(t) && i < |t|
    ensures Has(t, t[i].name) && Get(t, t[i].name) == t[i].value
  {
    HasIndex(t, t[i].name);
    GetOfField(t, i);
  }

  /** Putting an image back gives a row that can be written exactly if the image has no null. */
  lemma RestoredTyped(t: Tuple, before: Tuple, s: Schema)
    requires SchemaFits(s) && Sorted(before) && InColumns(before, s.cols)
    requires TypedFields(t, s.columns) && TypedOrNull(before, s.columns)
    ensures TypedFields(PutAll(t, before), s.columns) <==> NoNulls(before)
  {
    hide Get, Has, PutAll, TypeTag, Sorted;
    var r := PutAll(t, before);
    forall n
      ensures Get(r, n) == if Has(before, n) then Get(before, n) else Get(t, n)
      ensures Has(r, n) <==> Has(before, n) || Has(t, n)
    {
      PutAllGet(t, before, n);
    }
    if NoNulls(before) {
      forall c | 0 <= c < |s.columns| && Has(before, s.columns[c].name)
        ensures Get(before, s.columns[c].name) != Null
      {
        HasIndex(before, s.columns[c].name);
        var i :| 0 <= i < |before| && before[i].name == s.columns[c].name;
        NullField(before, i);
      }
    }
    if !NoNulls(before) {
      var i :| 0 <= i < |before| && before[i].value == Null;
      NullField(before, i);
      assert AmongColumns(s.columns, before[i].name);
      var c :| 0 <= c < |s.columns| && s.columns[c].name == before[i].name;
      NullHasNoColumn(s.columns[c].tag);
      assert Has(r, s.columns[c].name) && Get(r, s.columns[c].name) == Null;
    }
  }

  lemma NullHasNoColumn(tag: nat)
    ensures IsColumnTag(tag) ==> TypeTag(Null) != tag
  {
  }

  lemma TypedHasNoNulls(t: Tuple, s: Schema)
    requires SchemaFits(s) && Sorted(t) && InColumns(t, s.cols) && TypedFields(t, s.columns)
    ensures NoNulls(t) && TypedFields(PutAll([], t), s.columns)
  {
    hide TypedFields, SchemaFits, PutAll, TypedOrNull;
    NothingTyped(s.columns);
    TypedNotNull(t, s.columns);
    RestoredTyped([], t, s);
    forall i | 0 <= i < |t| ensures t[i].value != Null {
      FieldNotNull(t, s, i);
    }
  }

  lemma FieldNotNull(t: Tuple, s: Schema, i: nat)
    requires SchemaFits(s) && Sorted(t) && InColumns(t, s.cols) && TypedFields(t, s.columns) && i < |t|
    ensures t[i].value != Null
  {
    hide Get, Has, TypeTag;
    NullField(t, i);
    assert AmongColumns(s.columns, t[i].name);
    var c :| 0 <= c < |s.columns| && s.columns[c].name == t[i].name;
    NullHasNoColumn(s.columns[c].tag);
  }

  lemma TypedNotNull(t: Tuple, columns: seq<Column>)
    requires TypedFields(t, columns)
    ensures TypedOrNull(t, columns)
  {
  }

  lemma NothingTyped(columns: seq<Column>)
    ensures TypedFields([], columns)
  {
  }

  /** Undoing one entry leaves tables that can be written exactly if the entry puts back no null. */
  lemma UndoneTyped(S: State, e: LogEntry, schemas: map<Bytes, Schema>)
    requires SchemasFit(schemas) && StateTyped(S, schemas)
    requires EntryFits(e, schemas) && e.op != BEGIN && CanUndo(S, e, schemas)
    ensures StateTyped(UndoOne(S, e, schemas), schemas) <==> (e.op == UPDATE ==> NoNulls(e.before))
    ensures e.op != INSERT ==>
      (TypedFields(Restored(S, e, LocationOf(e, schemas)), schemas[e.table].columns) <==> (e.op == UPDATE ==> NoNulls(e.before)))
  {
    hide TypedFields, SchemaFits, PutAll, RowFits, NoNulls, TypedOrNull, InColumns, Sorted;
    var l, s := LocationOf(e, schemas), schemas[e.table];
    var T: State := UndoOne(S, e, schemas);
    match e.op
    case INSERT =>
    case DELETE =>
      TypedHasNoNulls(e.before, s);
      assert T[l.table][l.key].tuple == Restored(S, e, l);
    case UPDATE =>
      RestoredTyped(At(S, l).value, e.before, s);
      assert T[l.table][l.key].tuple == Restored(S, e, l);
  }

  /** So all pages that an abort writes can be written if and only if no UPDATE of the transaction has found an updated
      column absent. */
  lemma {:induction false} UndoTypedIff(S: State, list: seq<LogEntry>, schemas: map<Bytes, Schema>)
    requires SchemasFit(schemas) && StateTyped(S, schemas) && CanUndoAll(S, list, schemas)
    requires forall i | 0 <= i < |list| :: EntryFits(list[i], schemas) && list[i].op != BEGIN
    ensures UndoTyped(S, list, schemas) <==> Clean(list)
    decreases |list|
  {
    hide StateTyped, EntryFits, CanUndo, UndoOne, SchemasFit, NoNulls;
    if list != [] {
      UndoneTyped(S, list[0], schemas);
      CleanSplit(list);
      if StateTyped(UndoOne(S, list[0], schemas), schemas) {
        UndoTypedIff(UndoOne(S, list[0], schemas), list[1..], schemas);
      }
    }
  }

  lemma CleanSplit(list: seq<LogEntry>)
    requires list != []
    ensures Clean(list) <==> (list[0].op == UPDATE ==> NoNulls(list[0].before)) && Clean(list[1..])
  {
    hide NoNulls;
    if (list[0].op == UPDATE ==> NoNulls(list[0].before)) && Clean(list[1..]) {
      forall i | 0 <= i < |list| && list[i].op == UPDATE ensures NoNulls(list[i].before) {
        if i > 0 { assert list[1..][i-1] == list[i]; }
      }
    }
    if Clean(list) {
      forall i | 0 <= i < |list[1..]| && list[1..][i].op == UPDATE ensures NoNulls(list[1..][i].before) {
        assert list[1..][i] == list[i+1];
      }
    }
  }

  /** The columns that an UPDATE wrote were all there. */
  ghost predicate FoundAll(e: LogEntry, old_: Option<Tuple>) {
    old_.Some? && forall n | Has(e.before, n) :: Has(old_.value, n)
  }

  lemma NullsAreAbsent(S: State, e: LogEntry, T: State, schemas: map<Bytes, Schema>)
    requires SchemasFit(schemas) && StateFits(S, schemas) && StateTyped(S, schemas)
    requires LoggedStep(S, e, T, schemas) && e.op == UPDATE
    ensures NoNulls(e.before) <==> FoundAll(e, At(S, LocationOf(e, schemas)))
  {
    hide Get, Has, FullSize, TypeTag, SchemaFits, Sorted;
    var l, s := LocationOf(e, schemas), schemas[e.table];
    var t := At(S, l).value;
    assert RowFits(S[l.table][l.key], s) && TypedFields(t, s.columns);
    if NoNulls(e.before) {
      forall n | Has(e.before, n) ensures Has(t, n) {
        HasIndex(e.before, n);
        var i :| 0 <= i < |e.before| && e.before[i].name == n;
        NullField(e.before, i);
        if !Has(t, n) { AbsentIsNull(t, n); }
      }
    }
    if FoundAll(e, At(S, l)) {
      forall i | 0 <= i < |e.before| ensures e.before[i].value != Null {
        NullField(e.before, i);
        HasIndex(t, e.before[i].name);
        var j :| 0 <= j < |t| && t[j].name == e.before[i].name;
        NullField(t, j);
        FieldNotNull(t, s, j);
      }
    }
  }

  /** In any run of tables that can be written, in which nobody else changes the rows of txn: every page that undoing txn
      writes can be written if and only if every UPDATE of txn found all the columns that it assigned. */
  lemma AbortWritableIff(states: seq<State>, es: seq<LogEntry>, txn: nat, L: set<Location>, schemas: map<Bytes, Schema>)
    requires SchemasFit(schemas) && Run(states, es, schemas) && Owns(es, txn, L, schemas) && NoBegin(es, txn)
    requires forall i | 0 <= i < |states| :: StateTyped(states[i], schemas)
    ensures UndoTyped(states[|es|], Reversed(EntriesOf(es, txn)), schemas)
      <==> forall i | 0 <= i < |es| && es[i].txn == txn && es[i].op == UPDATE ::
             es[i].table in schemas && FoundAll(es[i], At(states[i], LocationOf(es[i], schemas)))
  {
    hide StateTyped, EntryFits, CanUndo, UndoOne, SchemasFit, NoNulls, StateFits, FoundAll, At, SameAt, UndoAll, UndoTyped,
      CanUndoAll, SameOutside, LoggedChange;
    AbortRestores(states, es, txn, L, schemas);
    UndoTypedIff(states[|es|], Reversed(EntriesOf(es, txn)), schemas);
    CleanReversed(es, txn);
    forall i | 0 <= i < |es| && es[i].txn == txn && es[i].op == UPDATE
      ensures es[i].table in schemas
      ensures NoNulls(es[i].before) <==> FoundAll(es[i], At(states[i], LocationOf(es[i], schemas)))
    {
      StepTable(states[i], es[i], states[i+1], schemas);
      NullsAreAbsent(states[i], es[i], states[i+1], schemas);
    }
  }

  lemma StepTable(S: State, e: LogEntry, T: State, schemas: map<Bytes, Schema>)
    requires LoggedStep(S, e, T, schemas) && e.op != BEGIN
    ensures e.table in schemas
  {
  }

  lemma {:induction false} CleanReversed(es: seq<LogEntry>, txn: nat)
    ensures Clean(Reversed(EntriesOf(es, txn))) <==> forall i | 0 <= i < |es| && es[i].txn == txn && es[i].op == UPDATE :: NoNulls(es[i].before)
    decreases |es|
  {
    hide NoNulls;
    if es != [] {
      var n := |es| - 1;
      CleanReversed(es[..n], txn);
      assert forall i | 0 <= i < n :: es[..n][i] == es[i];
      if es[n].txn == txn {
        var all := EntriesOf(es, txn);
        assert all[..|all|-1] == EntriesOf(es[..n], txn) && all[|all|-1] == es[n];
        var list := Reversed(all);
        assert list == [es[n]] + Reversed(EntriesOf(es[..n], txn));
        CleanSplit(list);
        assert list[1..] == Reversed(EntriesOf(es[..n], txn));
      }
    }
  }
}
