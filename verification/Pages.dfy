/** Pages of a table file and the byte accounting of slotted_page.cpp. */
module Pages {
  import opened Tuples

  const STORAGE_UNIT_SIZE: nat := 4096
  const MAXIMUM_USED_BYTES: nat := 3840
  const MINIMUM_USED_BYTES: nat := 1920
  /** What reassignData counts as a leaf header, and what save really writes. */
  const COUNTED_LEAF_HEADER: nat := 21
  const REAL_LEAF_HEADER: nat := 25
  const INTERNAL_HEADER: nat := 17
  /** The largest encoded tuple for which the leaves are proved to fit. */
  const MAX_TUPLE_BYTES: nat := 248

  type Key = int

  /** The key stored in an internal entry: one integer column, or the empty key
      that borrowKeyFromLeftInternal puts into the first entry. */
  datatype EntryKey = NoKey | IntKey(k: Key)

  datatype Row = Row(key: Key, tuple: Tuple)

  datatype Entry = Entry(key: EntryKey, child: nat)

  datatype Page =
    | Leaf(parent: nat, prev: nat, next: nat, rows: seq<Row>)
    | Internal(parent: nat, entries: seq<Entry>)
    | Free(nextFree: nat)

  /** The encoded row: its fields and the field that holds its B+ tree key
      (a 13 byte name and an 8 + 4 + 8 byte key). */
  function RowSize(r: Row): nat {
    (4 + 13 + 20) + SizeOfTuple(r.tuple)
  }

  /** Bytes of the rows and of their slots. */
  function RowsBytes(rows: seq<Row>): nat {
    if rows == [] then 0 else RowsBytes(rows[..|rows|-1]) + 4 + RowSize(rows[|rows|-1])
  }

  /** Bytes of one internal entry and its slot: the key field and the child field. */
  function EntrySize(e: Entry): nat {
    4 + (4 + 13 + (if e.key.NoKey? then 8 else 20)) + (4 + 16 + 8)
  }

  function EntriesBytes(es: seq<Entry>): nat {
    if es == [] then 0 else EntriesBytes(es[..|es|-1]) + EntrySize(es[|es|-1])
  }

  /** getSizeOfUsedBytes of a leaf whose slots were just reassigned. */
  function UsedLeafEdited(rows: seq<Row>): nat {
    COUNTED_LEAF_HEADER + RowsBytes(rows)
  }

  /** getSizeOfUsedBytes of a leaf that was just refreshed from its image. */
  function UsedLeafRead(rows: seq<Row>): nat {
    REAL_LEAF_HEADER + RowsBytes(rows)
  }

  function UsedInternal(es: seq<Entry>): nat {
    INTERNAL_HEADER + EntriesBytes(es)
  }

  ghost predicate SmallRows(rows: seq<Row>) {
    forall i | 0 <= i < |rows| :: RowSize(rows[i]) <= MAX_TUPLE_BYTES
  }

  ghost predicate RealKeys(es: seq<Entry>) {
    forall i | 1 <= i < |es| :: es[i].key.IntKey?
  }

  lemma {:induction false} RowsBytesConcat(a: seq<Row>, b: seq<Row>)
    ensures RowsBytes(a + b) == RowsBytes(a) + RowsBytes(b)
    decreases |b|
  {
    if b == [] {
      assert a + b == a;
    } else {
      var b' := b[..|b|-1];
      assert (a + b)[..|a + b|-1] == a + b';
      RowsBytesConcat(a, b');
    }
  }

  /** A row with its slot takes 41 to 252 bytes. */
  lemma {:induction false} RowsBytesBounds(rows: seq<Row>)
    requires SmallRows(rows)
    ensures 41 * |rows| <= RowsBytes(rows) <= 252 * |rows|
    decreases |rows|
  {
    if rows != [] {
      RowsBytesBounds(rows[..|rows|-1]);
    }
  }

  /** Splitting an overfull leaf in the middle leaves two leaves that fit and hold at least seven rows. */
  lemma SplitLeafFits(rows: seq<Row>)
    requires SmallRows(rows)
    requires MAXIMUM_USED_BYTES < UsedLeafEdited(rows) <= MAXIMUM_USED_BYTES + 252
    ensures |rows| >= 16
    ensures UsedLeafEdited(rows[..|rows| / 2]) <= MAXIMUM_USED_BYTES
    ensures UsedLeafEdited(rows[|rows| / 2..]) <= MAXIMUM_USED_BYTES
    ensures SmallRows(rows[..|rows| / 2]) && SmallRows(rows[|rows| / 2..])
  {
    var a, b := rows[..|rows| / 2], rows[|rows| / 2..];
    RowsBytesBounds(rows);
    RowsBytesBounds(a);
    RowsBytesBounds(b);
    assert a + b == rows;
    RowsBytesConcat(a, b);
  }

  lemma {:induction false} EntriesBytesBounds(es: seq<Entry>)
    requires RealKeys(es) && es != []
    ensures 69 * |es| - 12 <= EntriesBytes(es) <= 69 * |es|
    decreases |es|
  {
    if |es| == 1 {
      assert es[..0] == [];
    } else {
      EntriesBytesBounds(es[..|es|-1]);
    }
  }

  /** With a one-integer key the byte thresholds of an internal node count its children. */
  lemma InternalThreshold(es: seq<Entry>)
    requires RealKeys(es) && es != []
    ensures UsedInternal(es) < MINIMUM_USED_BYTES <==> |es| <= 27
    ensures UsedInternal(es) > MINIMUM_USED_BYTES <==> |es| >= 28
  {
    EntriesBytesBounds(es);
  }
}
