/** The undo log of one database: append to the last file, read everything backwards (log_manager.cpp). */
module LogManager {
  import opened Tuples
  import opened Encoding
  import opened UndoLog
  import opened Sequences

  const MAX_UNDO_LOG_FILE_SIZE: nat := 256 * 1024 * 8

  /** An entry on disk is followed by its size, so that it can be found from behind. */
  ghost function Record(e: LogEntry): Bytes
    requires ValidEntry(e)
  {
    EncodeEntry(e) + U32(RawSize(e))
  }

  ghost predicate AllValid(es: seq<LogEntry>) {
    forall i | 0 <= i < |es| :: ValidEntry(es[i])
  }

  ghost function EncodeFile(es: seq<LogEntry>): Bytes
    requires AllValid(es)
  {
    if es == [] then [] else EncodeFile(es[..|es|-1]) + Record(es[|es|-1])
  }

  ghost function Flatten(files: seq<seq<LogEntry>>): seq<LogEntry> {
    if files == [] then [] else Flatten(files[..|files|-1]) + files[|files|-1]
  }

  /** What reading backwards visits: the entries of txn up to its last BEGIN. */
  ghost function UndoList(log: seq<LogEntry>, txn: nat): seq<LogEntry> {
    if log == [] then []
    else
      var e := log[|log|-1];
      var rest := log[..|log|-1];
      if e.txn != txn then UndoList(rest, txn)
      else if e.op == BEGIN then []
      else [e] + UndoList(rest, txn)
  }

  /** The entries of one transaction, in the order in which they were appended. */
  ghost function EntriesOf(log: seq<LogEntry>, txn: nat): seq<LogEntry> {
    if log == [] then []
    else
      var rest := EntriesOf(log[..|log|-1], txn);
      if log[|log|-1].txn == txn then rest + [log[|log|-1]] else rest
  }

  ghost function Reversed<T>(s: seq<T>): seq<T> {
    if s == [] then [] else [s[|s|-1]] + Reversed(s[..|s|-1])
  }

  /** Whatever other transactions append in between, a transaction reads back what it wrote since
      its BEGIN, newest first. */
  lemma {:induction false} ReadsBackwards(earlier: seq<LogEntry>, begin: LogEntry, since: seq<LogEntry>, txn: nat)
    requires begin.txn == txn && begin.op == BEGIN
    requires forall i | 0 <= i < |since| && since[i].txn == txn :: since[i].op != BEGIN
    ensures UndoList(earlier + [begin] + since, txn) == Reversed(EntriesOf(since, txn))
    decreases |since|
  {
    var log := earlier + [begin] + since;
    if since == [] {
      assert log[|log|-1] == begin;
    } else {
      var init, e := since[..|since|-1], since[|since|-1];
      assert log[..|log|-1] == earlier + [begin] + init;
      ReadsBackwards(earlier, begin, init, txn);
      if e.txn == txn {
        var mine := EntriesOf(since, txn);
        assert mine[..|mine|-1] == EntriesOf(init, txn);
      }
    }
  }

  /** Cutting the file behind entry m-1. */
  lemma {:induction false} FileAt(es: seq<LogEntry>, m: nat)
    requires AllValid(es) && 0 < m <= |es|
    ensures |EncodeFile(es[..m])| == |EncodeFile(es[..m-1])| + RawSize(es[m-1]) + 4 <= |EncodeFile(es)|
    ensures EncodeFile(es)[..|EncodeFile(es[..m])|] == EncodeFile(es[..m])
    ensures EncodeFile(es[..m]) == EncodeFile(es[..m-1]) + Record(es[m-1])
    decreases |es|
  {
    hide EncodeEntry, RawSize, LittleEndian, ValidEntry;
    EncodedEntrySize(es[m-1]);
    if m == |es| {
      assert es[..m] == es;
    } else {
      var init := es[..|es|-1];
      assert init[..m] == es[..m] && init[..m-1] == es[..m-1];
      FileAt(init, m);
    }
    assert es[..m][..m-1] == es[..m-1];
  }

  /** The record that ends at a position of the file. */
  lemma RecordAt(file: Bytes, es: seq<LogEntry>, m: nat)
    requires AllValid(es) && 0 < m <= |es| && file == EncodeFile(es)
    ensures ValidEntry(es[m-1])
    ensures |EncodeFile(es[..m])| == |EncodeFile(es[..m-1])| + RawSize(es[m-1]) + 4 <= |file|
    ensures file[|EncodeFile(es[..m])|-4..|EncodeFile(es[..m])|] == U32(RawSize(es[m-1]))
    ensures file[|EncodeFile(es[..m-1])|..|EncodeFile(es[..m])|-4] == EncodeEntry(es[m-1])
  {
    hide LittleEndian, EncodeEntry, RawSize, EncodeFile;
    FileAt(es, m);
    var e := es[m-1];
    EncodedEntrySize(e);
    RecordSlices(file, EncodeFile(es[..m-1]), EncodeEntry(e), U32(RawSize(e)));
  }

  lemma RecordSlices(file: Bytes, a: Bytes, b: Bytes, c: Bytes)
    requires |a| + |b| + |c| <= |file| && file[..|a|+|b|+|c|] == a + (b + c)
    ensures file[|a|..|a|+|b|] == b
    ensures file[|a|+|b|..|a|+|b|+|c|] == c
  {
    var all := file[..|a|+|b|+|c|];
    assert all[|a|..|a|+|b|] == b && all[|a|+|b|..] == c;
    SubSlice(file, 0, |all|, |a|, |a| + |b|);
    SubSlice(file, 0, |all|, |a| + |b|, |all|);
  }

  lemma FlattenEmptyFile(files: seq<seq<LogEntry>>)
    ensures Flatten(files + [[]]) == Flatten(files)
  {
    assert (files + [[]])[..|files|] == files;
  }

  lemma FlattenAppend(files: seq<seq<LogEntry>>, e: LogEntry)
    requires files != []
    ensures Flatten(files[|files|-1 := files[|files|-1] + [e]]) == Flatten(files) + [e]
  {
    var files' := files[|files|-1 := files[|files|-1] + [e]];
    assert files'[..|files|-1] == files[..|files|-1];
  }

  lemma EncodeAppend(es: seq<LogEntry>, e: LogEntry)
    requires AllValid(es) && ValidEntry(e)
    ensures AllValid(es + [e]) && EncodeFile(es + [e]) == EncodeFile(es) + Record(e)
  {
    assert (es + [e])[..|es|] == es;
  }

  /** One step of the backward scan, seen from the whole log. */
  lemma UndoStep(earlier: seq<LogEntry>, es: seq<LogEntry>, m: nat, txn: nat)
    requires 0 < m <= |es|
    ensures UndoList(earlier + es[..m], txn)
         == if es[m-1].txn != txn then UndoList(earlier + es[..m-1], txn)
            else if es[m-1].op == BEGIN then []
            else [es[m-1]] + UndoList(earlier + es[..m-1], txn)
  {
    var log := earlier + es[..m];
    assert log[..|log|-1] == earlier + es[..m-1];
  }

  class LogManager {
    /** The files undo_log_0.log, undo_log_1.log, ... of the database. */
    var files: seq<Bytes>
    var countFile: nat
    /** What the files hold. */
    ghost var entries: seq<seq<LogEntry>>

    ghost predicate Valid()
      reads this
    {
      && |entries| == |files|
      && (countFile == 0 || countFile == |files|)
      && forall i | 0 <= i < |files| :: AllValid(entries[i]) && files[i] == EncodeFile(entries[i])
    }

    ghost function Log(): seq<LogEntry>
      reads this
    {
      Flatten(entries)
    }

    /** A new process finds the files that are there. */
    constructor (files: seq<Bytes>, ghost entries: seq<seq<LogEntry>>)
      requires |entries| == |files|
      requires forall i | 0 <= i < |files| :: AllValid(entries[i]) && files[i] == EncodeFile(entries[i])
      ensures Valid() && Log() == Flatten(entries)
    {
      this.files, this.entries, countFile := files, entries, 0;
    }

    /** Counts the files on first use and opens a new one behind a full one. */
    method GetCurrentFileIndex() returns (index: nat)
      requires Valid()
      modifies this
      ensures Valid() && Log() == old(Log())
      ensures index == countFile == |files| > 0
      ensures |files[index-1]| <= MAX_UNDO_LOG_FILE_SIZE
      ensures old(files) <= files
    {
      hide EncodeEntry, RawSize, LittleEndian, ValidEntry, Flatten;
      if countFile == 0 {
        countFile := |files|;
      }
      if countFile == 0 || |files[countFile-1]| > MAX_UNDO_LOG_FILE_SIZE {
        countFile := countFile + 1;
        FlattenEmptyFile(entries);
        files, entries := files + [[]], entries + [[]];
      }
      index := countFile;
    }

    method AppendUndoEntry(e: LogEntry)
      requires Valid() && ValidEntry(e)
      modifies this
      ensures Valid() && Log() == old(Log()) + [e]
    {
      hide EncodeEntry, EncodeFile, RawSize, LittleEndian;
      var index := GetCurrentFileIndex();
      EncodedEntrySize(e);
      var entry := new UndoEntry(e, RawSize(e));
      entry.Save();
      FlattenAppend(entries, e);
      EncodeAppend(entries[index-1], e);
      AppendBytes(files[index-1], EncodeEntry(e), U32(RawSize(e)));
      files := files[index-1 := files[index-1] + entry.io.rawData[..] + U32(entry.io.rawData.Length)];
      entries := entries[index-1 := entries[index-1] + [e]];
    }

    /** Calls back, in the order of the result, for every entry of txn behind its BEGIN. */
    method EachUndoEntry(txn: nat) returns (visited: seq<LogEntry>)
      requires Valid()
      modifies this
      ensures Valid() && Log() == old(Log())
      ensures visited == UndoList(Log(), txn)
    {
      hide EncodeEntry, EncodeFile, RawSize, LittleEndian, ValidEntry, UndoList;
      visited := [];
      var index := GetCurrentFileIndex();
      assert entries[..index] == entries;
      assert visited + UndoList(Log(), txn) == UndoList(Log(), txn);
      while index > 0
        modifies {}
        invariant index <= |files|
        invariant visited + UndoList(Flatten(entries[..index]), txn) == UndoList(Log(), txn)
      {
        var done, visited' := ReadFile(index, txn, visited);
        visited := visited';
        if done {
          return;
        }
        index := index - 1;
      }
      NothingToUndo(txn);
      assert visited + [] == visited;
    }

    /** The inner loop: one file, from its end. */
    method ReadFile(index: nat, txn: nat, before: seq<LogEntry>) returns (done: bool, visited: seq<LogEntry>)
      requires Valid() && 0 < index <= |files|
      ensures done ==> visited == before + UndoList(Flatten(entries[..index]), txn)
      ensures !done ==> visited + UndoList(Flatten(entries[..index-1]), txn) == before + UndoList(Flatten(entries[..index]), txn)
    {
      hide EncodeEntry, RawSize, LittleEndian, ValidEntry, UndoList, Flatten;
      visited, done := before, false;
      var input := files[index-1];
      ghost var es, earlier := entries[index-1], Flatten(entries[..index-1]);
      ghost var m := |es|;
      FlattenLast(entries, index);
      assert es[..m] == es;
      var pos := |input|;
      while pos > 0
        invariant m <= |es| && pos == |EncodeFile(es[..m])| <= |input|
        invariant visited + UndoList(earlier + es[..m], txn) == before + UndoList(Flatten(entries[..index]), txn)
        decreases pos
      {
        assert m > 0;
        RecordAt(input, es, m);
        UndoStep(earlier, es, m, txn);
        var entry;
        pos, entry := ReadEntry(input, pos, es[m-1]);
        if entry.transactionId == txn {
          if entry.operationType == BEGIN {
            assert visited + [] == visited;
            return true, visited;
          }
          visited := visited + [LogEntry(txn, entry.operationType, entry.tableName, entry.beforeImage, entry.afterImage)];
        }
        m := m - 1;
      }
      FileHasBytes(es[..m]);
      assert earlier + [] == earlier;
    }
  }

  /** Seek four bytes back for the size, then back over the entry, and read it. */
  method ReadEntry(input: Bytes, pos: nat, ghost e: LogEntry) returns (pos': nat, entry: UndoEntry)
    requires ValidEntry(e) && RawSize(e) + 4 <= pos <= |input|
    requires input[pos-4..pos] == U32(RawSize(e))
    requires input[pos-4-RawSize(e)..pos-4] == EncodeEntry(e)
    ensures pos' == pos - 4 - RawSize(e)
    ensures fresh(entry) && entry.Contents() == e
  {
    hide EncodeEntry, LittleEndian;
    SizeRoundTrip(e);
    var size := FromLittleEndian(input[pos-4..pos]);
    entry := new UndoEntry.FromRaw(input[pos-4-size..pos-4]);
    entry.Refresh(e);
    pos' := pos - 4 - size;
  }

  lemma SizeRoundTrip(e: LogEntry)
    requires ValidEntry(e)
    ensures FromLittleEndian(U32(RawSize(e))) == RawSize(e)
  {
    hide LittleEndian, SizeOfTuple, Sorted;
    PowersOf256();
    LittleEndianRoundTrip(RawSize(e), 4);
  }

  lemma AppendBytes(file: Bytes, a: Bytes, b: Bytes)
    ensures file + a + b == file + (a + b)
  {
  }

  lemma NothingToUndo(txn: nat)
    ensures UndoList(Flatten([]), txn) == []
  {
  }

  lemma FlattenLast(files: seq<seq<LogEntry>>, index: nat)
    requires 0 < index <= |files|
    ensures Flatten(files[..index]) == Flatten(files[..index-1]) + files[index-1]
  {
    assert files[..index][..index-1] == files[..index-1];
  }

  /** Every record has bytes. */
  lemma FileHasBytes(es: seq<LogEntry>)
    requires AllValid(es)
    ensures es != [] ==> |EncodeFile(es)| > 0
  {
    hide EncodeEntry, RawSize, LittleEndian, ValidEntry;
    if es != [] {
      FileAt(es, |es|);
      assert es[..|es|] == es;
    }
  }
}
