/** Entries of the undo log and their byte layout (undo_entry.cpp). */
module UndoLog {
  import opened Tuples
  import opened Encoding
  import opened IoManager
  import opened Sequences

  datatype OperationType = INSERT | DELETE | UPDATE | BEGIN

  datatype LogEntry = LogEntry(txn: nat, op: OperationType, table: Bytes, before: Tuple, after: Tuple)

  /** The enumerators are character codes, written in four bytes. */
  function OperationCode(op: OperationType): nat {
    match op
    case INSERT => 'I' as nat
    case DELETE => 'D' as nat
    case UPDATE => 'U' as nat
    case BEGIN => 'B' as nat
  }

  function OperationOf(code: nat): OperationType {
    if code == 'I' as nat then INSERT
    else if code == 'D' as nat then DELETE
    else if code == 'U' as nat then UPDATE
    else BEGIN
  }

  ghost predicate ValidField(f: Field) {
    |f.name| < TWO_32 && ValidValue(f.value)
  }

  ghost predicate ValidTuple(t: Tuple) {
    Sorted(t) && forall i | 0 <= i < |t| :: ValidField(t[i])
  }

  function FieldSize(f: Field): nat {
    4 + |f.name| + 4 + SizeOfValue(f.value)
  }

  ghost function EncodeField(f: Field): (r: Bytes)
    requires ValidField(f)
    ensures |r| == FieldSize(f)
  {
    EncodedValueSize(f.value);
    EncodeString(f.name) + U32(TypeTag(f.value)) + EncodeValue(f.value)
  }

  ghost function EncodeTuple(t: Tuple): Bytes
    requires forall i | 0 <= i < |t| :: ValidField(t[i])
  {
    if t == [] then [] else EncodeTuple(t[..|t|-1]) + EncodeField(t[|t|-1])
  }

  /** A field in the log: its name, the character code of the type of its value, and the value. */
  lemma FieldLayout(f: Field)
    requires ValidField(f)
    ensures var r, n := EncodeField(f), |f.name|;
      && |r| == 8 + n + SizeOfValue(f.value)
      && r[..4] == U32(n) && r[4..4+n] == f.name && r[4+n..8+n] == U32(TypeTag(f.value)) && r[8+n..] == EncodeValue(f.value)
  {
    hide LittleEndian;
  }

  /** The bytes of a tuple's image: sizeOfTuple plus one type tag per field. */
  lemma {:induction false} EncodedTupleSize(t: Tuple)
    requires forall i | 0 <= i < |t| :: ValidField(t[i])
    ensures |EncodeTuple(t)| == SizeOfTuple(t) + 4 * |t|
    decreases |t|
  {
    if t != [] {
      EncodedTupleSize(t[..|t|-1]);
      SizeOfTupleLast(t);
    }
  }

  lemma {:induction false} SizeOfTupleLast(t: Tuple)
    requires t != []
    ensures SizeOfTuple(t) == SizeOfTuple(t[..|t|-1]) + 4 + |t[|t|-1].name| + SizeOfValue(t[|t|-1].value)
    decreases |t|
  {
    if |t| > 1 {
      SizeOfTupleLast(t[1..]);
      assert t[1..][..|t[1..]|-1] == t[..|t|-1][1..];
    }
  }

  /** calcRawSize. */
  function RawSize(e: LogEntry): nat {
    4 + 4 + (4 + |e.table|) + 4 * (|e.before| + |e.after|) + 4 + SizeOfTuple(e.before) + SizeOfTuple(e.after)
  }

  ghost predicate ValidEntry(e: LogEntry) {
    && e.txn < TWO_32
    && |e.table| < TWO_32
    && ValidTuple(e.before) && ValidTuple(e.after)
    && RawSize(e) + 4 < TWO_32 / 2
  }

  ghost function EncodeHeader(e: LogEntry): (r: Bytes)
    ensures |r| == 12 + |e.table|
  {
    U32(e.txn) + U32(OperationCode(e.op)) + EncodeString(e.table)
  }

  /** The image of an entry: header, the offset at which the before image ends, both images. */
  ghost function EncodeEntry(e: LogEntry): Bytes
    requires ValidEntry(e)
  {
    EncodeHeader(e) + U32(16 + |e.table| + |EncodeTuple(e.before)|) + EncodeTuple(e.before) + EncodeTuple(e.after)
  }

  lemma EncodedEntrySize(e: LogEntry)
    requires ValidEntry(e)
    ensures |EncodeEntry(e)| == RawSize(e) > 0
  {
    EncodedTupleSize(e.before);
    EncodedTupleSize(e.after);
  }

  /** A tuple image cut in front of and behind field k. */
  lemma {:induction false} EncodeTupleAt(t: Tuple, k: nat)
    requires forall i | 0 <= i < |t| :: ValidField(t[i])
    requires k < |t|
    ensures |EncodeTuple(t[..k])| + FieldSize(t[k]) <= |EncodeTuple(t)|
    ensures EncodeTuple(t[..k+1]) == EncodeTuple(t[..k]) + EncodeField(t[k])
    ensures EncodeTuple(t)[..|EncodeTuple(t[..k])|] == EncodeTuple(t[..k])
    ensures EncodeTuple(t)[|EncodeTuple(t[..k])|..|EncodeTuple(t[..k])| + FieldSize(t[k])] == EncodeField(t[k])
    decreases |t|
  {
    hide EncodeField, FieldSize, ValidField;
    assert t[..k+1][..k] == t[..k];
    if k == |t| - 1 {
      assert t[..k+1] == t;
    } else {
      var init := t[..|t|-1];
      assert init[..k] == t[..k] && init[..k+1] == t[..k+1];
      EncodeTupleAt(init, k);
    }
  }

  /** The number that save writes back over the gap: where the before image ends. */
  ghost function BeforeEnd(e: LogEntry): nat
    requires ValidEntry(e)
  {
    16 + |e.table| + |EncodeTuple(e.before)|
  }

  /** Where each part of an entry's image stands. */
  lemma EntryPieces(e: LogEntry, r: Bytes)
    requires ValidEntry(e) && r == EncodeEntry(e)
    ensures |r| == RawSize(e) && BeforeEnd(e) + |EncodeTuple(e.after)| == |r|
    ensures r[..4] == U32(e.txn)
    ensures r[4..8] == U32(OperationCode(e.op))
    ensures r[8..12+|e.table|] == EncodeString(e.table)
    ensures r[12+|e.table|..16+|e.table|] == U32(BeforeEnd(e))
    ensures r[16+|e.table|..BeforeEnd(e)] == EncodeTuple(e.before)
    ensures r[BeforeEnd(e)..] == EncodeTuple(e.after)
  {
    hide LittleEndian, EncodeTuple;
    EncodedEntrySize(e);
  }

  lemma BackPatch(buf: Bytes, header: Bytes, gap: Bytes, body: Bytes)
    requires |buf| == |header| + |gap| + |body|
    ensures Overwrite(Overwrite(Overwrite(buf, 0, header), |header| + |gap|, body), |header|, gap) == header + gap + body
  {
    var two := Overwrite(Overwrite(buf, 0, header), |header| + |gap|, body);
    assert two[..|header|] == header;
    assert two[|header|+|gap|..] == body;
  }

  class UndoEntry {
    const io: IOManager
    var transactionId: nat
    var operationType: OperationType
    var tableName: Bytes
    var bufferPoint: nat
    var beforeImage: Tuple
    var afterImage: Tuple

    /** An entry about to be read from rawSize bytes. */
    constructor FromRaw(raw: Bytes)
      ensures fresh(io) && fresh(io.rawData) && io.rawData[..] == raw
      ensures beforeImage == [] && afterImage == []
    {
      transactionId, operationType, tableName, bufferPoint := 0, BEGIN, [], 0;
      beforeImage, afterImage := [], [];
      io := new IOManager(|raw|);
      new;
      assert io.bufferOffset == 0;
      io.WriteBytes(raw);
      io.bufferOffset := 0;
    }

    /** An entry about to be written. */
    constructor (e: LogEntry, rawSize: nat)
      ensures fresh(io) && fresh(io.rawData) && io.rawData.Length == rawSize
      ensures Contents() == e
    {
      transactionId, operationType, tableName, bufferPoint := e.txn, e.op, e.table, 0;
      beforeImage, afterImage := e.before, e.after;
      io := new IOManager(rawSize);
    }

    ghost function Contents(): LogEntry
      reads this
    {
      LogEntry(transactionId, operationType, tableName, beforeImage, afterImage)
    }

    /** One turn of writeTuple: the name, the type tag, the value. */
    method WriteField(f: Field)
      requires ValidField(f)
      requires io.bufferOffset + FieldSize(f) <= io.rawData.Length
      modifies io`bufferOffset, io.rawData
      ensures io.bufferOffset == old(io.bufferOffset) + FieldSize(f)
      ensures io.rawData[..] == Overwrite(old(io.rawData[..]), old(io.bufferOffset), EncodeField(f))
    {
      hide LittleEndian, EncodeValue, Overwrite;
      ghost var buf, off := io.rawData[..], io.bufferOffset;
      EncodedValueSize(f.value);
      OverwriteTwice(buf, off, EncodeString(f.name), U32(TypeTag(f.value)));
      OverwriteTwice(buf, off, EncodeString(f.name) + U32(TypeTag(f.value)), EncodeValue(f.value));
      io.WriteString(f.name);
      io.WriteU32(TypeTag(f.value));
      var ok := io.WriteValue(f.value, TypeTag(f.value));
    }

    /** writeTuple. */
    method WriteTuple(t: Tuple)
      requires forall i | 0 <= i < |t| :: ValidField(t[i])
      requires io.bufferOffset + |EncodeTuple(t)| <= io.rawData.Length
      modifies io`bufferOffset, io.rawData
      ensures io.bufferOffset == old(io.bufferOffset) + |EncodeTuple(t)|
      ensures io.rawData[..] == Overwrite(old(io.rawData[..]), old(io.bufferOffset), EncodeTuple(t))
    {
      hide EncodeField, FieldSize;
      ghost var buf, off := io.rawData[..], io.bufferOffset;
      assert t[..|t|] == t;
      for k := 0 to |t|
        invariant io.bufferOffset == off + |EncodeTuple(t[..k])|
        invariant |EncodeTuple(t[..k])| <= |EncodeTuple(t)|
        invariant io.rawData[..] == Overwrite(buf, off, EncodeTuple(t[..k]))
      {
        EncodeTupleAt(t, k);
        OverwriteTwice(buf, off, EncodeTuple(t[..k]), EncodeField(t[k]));
        WriteField(t[k]);
      }
    }

    /** save: the offset behind the before image is known only after writing it, and is filled in last. */
    method Save()
      requires ValidEntry(Contents()) && io.rawData.Length == RawSize(Contents())
      modifies this`bufferPoint, io`bufferOffset, io.rawData
      ensures io.rawData[..] == EncodeEntry(Contents())
      ensures Contents() == old(Contents())
    {
      hide LittleEndian, Overwrite, EncodeTuple, SizeOfTuple, Sorted;
      ghost var e := Contents();
      ghost var buf := io.rawData[..];
      EncodedTupleSize(e.before);
      EncodedTupleSize(e.after);
      io.bufferOffset := 0;
      SavedHeader(buf, e);
      io.WriteU32(transactionId);
      io.WriteU32(OperationCode(operationType));
      io.WriteString(tableName);
      ghost var buf1 := io.rawData[..];
      var t := io.bufferOffset;
      io.bufferOffset := io.bufferOffset + 4;
      OverwriteTwice(buf1, t + 4, EncodeTuple(e.before), EncodeTuple(e.after));
      WriteTuple(beforeImage);
      bufferPoint := io.bufferOffset;
      WriteTuple(afterImage);
      assert io.bufferOffset == io.rawData.Length;
      BackPatch(buf, EncodeHeader(e), U32(bufferPoint), EncodeTuple(e.before) + EncodeTuple(e.after));
      io.bufferOffset := t;
      io.WriteU32(bufferPoint);
      EntryConcat(e);
    }

    /** readTuple: std::map::insert for every field up to endOffset. */
    method ReadTuple(endOffset: nat, ghost t: Tuple) returns (tuple: Tuple)
      requires ValidTuple(t)
      requires io.bufferOffset <= endOffset <= io.rawData.Length
      requires io.rawData[io.bufferOffset..endOffset] == EncodeTuple(t)
      modifies io`bufferOffset
      ensures io.bufferOffset == endOffset
      ensures tuple == t
    {
      hide EncodeField, Sorted, Put, Insert, NameLess, EncodeTuple;
      assert t[..|t|] == t;
      NothingEncoded(t);
      tuple := [];
      ghost var k := 0;
      ghost var off := io.bufferOffset;
      while io.bufferOffset < endOffset
        invariant k <= |t| && tuple == t[..k]
        invariant io.bufferOffset == off + |EncodeTuple(t[..k])| <= endOffset
        decreases endOffset - io.bufferOffset
      {
        EncodeTupleAt(t, k);
        FieldAt(io.rawData[..], off, endOffset, t, k);
        var f := ReadField(t[k]);
        InsertNext(t, k);
        tuple := Insert(tuple, f);
        k := k + 1;
      }
      PrefixWhole(t, k);
    }

    /** One turn of readTuple. */
    method ReadField(ghost f: Field) returns (r: Field)
      requires ValidField(f)
      requires io.bufferOffset + FieldSize(f) <= io.rawData.Length
      requires io.rawData[io.bufferOffset..io.bufferOffset+FieldSize(f)] == EncodeField(f)
      modifies io`bufferOffset
      ensures io.bufferOffset == old(io.bufferOffset) + FieldSize(f)
      ensures r == f
    {
      hide LittleEndian, EncodeValue;
      EncodedValueSize(f.value);
      FieldPieces(io.rawData[..], io.bufferOffset, f);
      var name := io.ReadString(f.name);
      var type_ := io.ReadU32(TypeTag(f.value));
      var value := io.ReadValue(type_, f.value);
      r := Field(name, value);
    }

    /** refresh reads back exactly what save wrote. */
    method Refresh(ghost e: LogEntry)
      requires ValidEntry(e) && io.rawData[..] == EncodeEntry(e)
      requires beforeImage == [] && afterImage == []
      modifies this, io`bufferOffset
      ensures Contents() == e
    {
      hide LittleEndian, EncodeTuple, SizeOfTuple, ValidTuple, EncodeEntry, EncodeString;
      EntryPieces(e, io.rawData[..]);
      EntryOffsets(e);
      io.bufferOffset := 0;
      transactionId := io.ReadU32(e.txn);
      var code := io.ReadU32(OperationCode(e.op));
      operationType := OperationOf(code);
      tableName := io.ReadString(e.table);
      bufferPoint := io.ReadU32(BeforeEnd(e));
      beforeImage := ReadTuple(bufferPoint, e.before);
      assert io.bufferOffset == bufferPoint;
      afterImage := ReadTuple(io.rawData.Length, e.after);
      assert io.bufferOffset == io.rawData.Length;
    }
  }

  lemma SavedHeader(buf: Bytes, e: LogEntry)
    requires |buf| >= 12 + |e.table|
    ensures Overwrite(Overwrite(Overwrite(buf, 0, U32(e.txn)), 4, U32(OperationCode(e.op))), 8, EncodeString(e.table))
         == Overwrite(buf, 0, EncodeHeader(e))
  {
    hide LittleEndian, Overwrite;
    OverwriteTwice(buf, 0, U32(e.txn), U32(OperationCode(e.op)));
    OverwriteTwice(buf, 0, U32(e.txn) + U32(OperationCode(e.op)), EncodeString(e.table));
  }

  lemma EntryConcat(e: LogEntry)
    requires ValidEntry(e)
    ensures EncodeHeader(e) + U32(BeforeEnd(e)) + (EncodeTuple(e.before) + EncodeTuple(e.after)) == EncodeEntry(e)
  {
    hide LittleEndian, EncodeTuple;
  }

  lemma EntryOffsets(e: LogEntry)
    requires ValidEntry(e)
    ensures BeforeEnd(e) < TWO_32 && e.txn < TWO_32 && OperationCode(e.op) < TWO_32 && |e.table| < TWO_32
    ensures OperationOf(OperationCode(e.op)) == e.op
    ensures ValidTuple(e.before) && ValidTuple(e.after)
  {
    EncodedTupleSize(e.before);
  }

  lemma FieldPieces(buf: Bytes, off: nat, f: Field)
    requires ValidField(f) && off + FieldSize(f) <= |buf| && buf[off..off+FieldSize(f)] == EncodeField(f)
    ensures |EncodeValue(f.value)| == SizeOfValue(f.value)
    ensures buf[off..off+4+|f.name|] == EncodeString(f.name)
    ensures buf[off+4+|f.name|..off+8+|f.name|] == U32(TypeTag(f.value))
    ensures buf[off+8+|f.name|..off+FieldSize(f)] == EncodeValue(f.value)
  {
    hide LittleEndian, EncodeValue;
    EncodedValueSize(f.value);
    SliceOfSlice(buf, off, EncodeString(f.name) + U32(TypeTag(f.value)), EncodeValue(f.value));
    SliceOfSlice(buf, off, EncodeString(f.name), U32(TypeTag(f.value)));
  }

  lemma NothingEncoded(t: Tuple)
    ensures EncodeTuple(t[..0]) == []
  {
  }

  /** The fields come back in their order. */
  lemma InsertNext(t: Tuple, k: nat)
    requires ValidTuple(t) && k < |t|
    ensures ValidField(t[k]) && Insert(t[..k], t[k]) == t[..k+1]
  {
    PutLast(t[..k], t[k].name, t[k].value);
    assert t[..k] + [t[k]] == t[..k+1];
  }

  lemma FieldAt(buf: Bytes, off: nat, end: nat, t: Tuple, k: nat)
    requires ValidTuple(t) && k < |t|
    requires off <= end <= |buf| && buf[off..end] == EncodeTuple(t)
    requires |EncodeTuple(t[..k])| + FieldSize(t[k]) <= |EncodeTuple(t)|
    requires EncodeTuple(t)[|EncodeTuple(t[..k])|..|EncodeTuple(t[..k])| + FieldSize(t[k])] == EncodeField(t[k])
    ensures buf[off+|EncodeTuple(t[..k])|..off+|EncodeTuple(t[..k])|+FieldSize(t[k])] == EncodeField(t[k])
  {
    hide EncodeTuple, EncodeField, FieldSize;
    var a, b := |EncodeTuple(t[..k])|, FieldSize(t[k]);
    SubSlice(buf, off, end, a, a + b);
  }

  /** Every field has bytes, so a prefix with all the bytes is the whole tuple. */
  lemma PrefixWhole(t: Tuple, k: nat)
    requires ValidTuple(t) && k <= |t|
    requires |EncodeTuple(t[..k])| >= |EncodeTuple(t)|
    ensures t[..k] == t
  {
    if k < |t| {
      EncodeTupleAt(t, k);
      assert false;
    }
  }
}
