/** The buffer of io_manager.h: raw bytes with a moving offset. */
module IoManager {
  import opened Tuples
  import opened Encoding
  import opened Sequences

  class IOManager {
    var rawData: array<byte>
    var bufferOffset: nat

    constructor (rawSize: nat)
      ensures fresh(rawData) && rawData.Length == rawSize && bufferOffset == 0
    {
      rawData := new byte[rawSize](_ => 0);
      bufferOffset := 0;
    }

    /** memcpy into the buffer. */
    method WriteBytes(bs: Bytes)
      requires bufferOffset + |bs| <= rawData.Length
      modifies this`bufferOffset, rawData
      ensures bufferOffset == old(bufferOffset) + |bs|
      ensures rawData[..] == Overwrite(old(rawData[..]), old(bufferOffset), bs)
    {
      for i := 0 to |bs|
        invariant bufferOffset == old(bufferOffset)
        invariant rawData[..bufferOffset] == old(rawData[..])[..bufferOffset]
        invariant rawData[bufferOffset..bufferOffset+i] == bs[..i]
        invariant rawData[bufferOffset+i..] == old(rawData[..])[bufferOffset+i..]
      {
        rawData[bufferOffset + i] := bs[i];
      }
      bufferOffset := bufferOffset + |bs|;
      assert bs[..|bs|] == bs;
      assert rawData[..] == rawData[..old(bufferOffset)] + rawData[old(bufferOffset)..bufferOffset] + rawData[bufferOffset..];
    }

    /** memcpy out of the buffer. */
    method ReadBytes(n: nat) returns (bs: Bytes)
      requires bufferOffset + n <= rawData.Length
      modifies this`bufferOffset
      ensures bufferOffset == old(bufferOffset) + n
      ensures bs == rawData[old(bufferOffset)..old(bufferOffset)+n]
    {
      bs := rawData[bufferOffset..bufferOffset+n];
      bufferOffset := bufferOffset + n;
    }

    method WriteU32(x: nat)
      requires bufferOffset + 4 <= rawData.Length
      modifies this`bufferOffset, rawData
      ensures bufferOffset == old(bufferOffset) + 4
      ensures rawData[..] == Overwrite(old(rawData[..]), old(bufferOffset), U32(x))
    {
      WriteBytes(U32(x));
    }

    method WriteString(s: Bytes)
      requires bufferOffset + 4 + |s| <= rawData.Length
      modifies this`bufferOffset, rawData
      ensures bufferOffset == old(bufferOffset) + 4 + |s|
      ensures rawData[..] == Overwrite(old(rawData[..]), old(bufferOffset), EncodeString(s))
    {
      WriteU32(|s|);
      WriteBytes(s);
      OverwriteTwice(old(rawData[..]), old(bufferOffset), U32(|s|), s);
    }

    /** write of a value as a type: a value of another type is not written (std::get throws). A type that no column
        has writes nothing. */
    method WriteValue(v: Value, tag: nat) returns (ok: bool)
      requires ValidValue(v) && (TypeTag(v) == tag ==> bufferOffset + SizeOfValue(v) <= rawData.Length)
      modifies this`bufferOffset, rawData
      ensures ok <==> TypeTag(v) == tag || !IsColumnTag(tag)
      ensures TypeTag(v) == tag ==>
        && bufferOffset == old(bufferOffset) + SizeOfValue(v)
        && rawData[..] == Overwrite(old(rawData[..]), old(bufferOffset), EncodeValue(v))
      ensures TypeTag(v) != tag ==> bufferOffset == old(bufferOffset) && rawData[..] == old(rawData[..])
    {
      if v.Null? && TypeTag(v) == tag {
        NothingOver(rawData[..], bufferOffset);
      }
      if tag == 'I' as nat {
        if !v.Int? { return false; }
        WriteBytes(I64(v.i));
      } else if tag == 'B' as nat {
        if !v.Bool? { return false; }
        WriteBytes([if v.b then 1 else 0]);
      } else if tag == 'D' as nat {
        if !v.Datetime? { return false; }
        WriteBytes(U64(v.d));
      } else if tag == 'F' as nat {
        if !v.Float? { return false; }
        WriteBytes(v.raw);
      } else if tag == 'V' as nat {
        if !v.Varchar? { return false; }
        WriteString(v.s);
      }
      ok := true;
    }

    lemma NothingOver(buf: Bytes, off: nat)
      requires off <= |buf|
      ensures Overwrite(buf, off, []) == buf
    {
    }

    method WriteU64(x: nat)
      requires bufferOffset + 8 <= rawData.Length
      modifies this`bufferOffset, rawData
      ensures bufferOffset == old(bufferOffset) + 8
      ensures rawData[..] == Overwrite(old(rawData[..]), old(bufferOffset), U64(x))
    {
      WriteBytes(U64(x));
    }

    method WriteElement(e: KeyElement)
      requires ValidElement(e) && bufferOffset + |EncodeElement(e)| <= rawData.Length
      modifies this`bufferOffset, rawData
      ensures bufferOffset == old(bufferOffset) + |EncodeElement(e)|
      ensures rawData[..] == Overwrite(old(rawData[..]), old(bufferOffset), EncodeElement(e))
    {
      hide LittleEndian, Overwrite;
      WriteU32(ElementTag(e));
      match e
      case IntElement(i) =>
        WriteBytes(I64(i));
        OverwriteTwice(old(rawData[..]), old(bufferOffset), U32(ElementTag(e)), I64(i));
      case FloatElement(raw) =>
        WriteBytes(raw);
        OverwriteTwice(old(rawData[..]), old(bufferOffset), U32(ElementTag(e)), raw);
      case VarcharElement(s) =>
        WriteString(s);
        OverwriteTwice(old(rawData[..]), old(bufferOffset), U32(ElementTag(e)), EncodeString(s));
    }

    method WriteKey(key: seq<KeyElement>)
      requires ValidKey(key) && bufferOffset + |EncodeKey(key)| <= rawData.Length
      modifies this`bufferOffset, rawData
      ensures bufferOffset == old(bufferOffset) + |EncodeKey(key)|
      ensures rawData[..] == Overwrite(old(rawData[..]), old(bufferOffset), EncodeKey(key))
    {
      hide LittleEndian, Overwrite, EncodeElement, ValidElement;
      ghost var buf, off, parts := rawData[..], bufferOffset, ElementParts(key);
      WriteU64(|key|);
      assert U64(|key|) + Concat(parts[..0]) == U64(|key|);
      for i := 0 to |key|
        invariant bufferOffset == off + 8 + |Concat(parts[..i])|
        invariant |Concat(parts[..i])| <= |Concat(parts)|
        invariant rawData[..] == Overwrite(buf, off, U64(|key|) + Concat(parts[..i]))
      {
        ConcatAt(parts, i);
        OverwriteTwice(buf, off, U64(|key|) + Concat(parts[..i]), EncodeElement(key[i]));
        assert U64(|key|) + Concat(parts[..i]) + EncodeElement(key[i]) == U64(|key|) + Concat(parts[..i+1]);
        WriteElement(key[i]);
      }
      assert parts[..|key|] == parts;
    }

    /** Reads back a number that was written at the offset. */
    method ReadU32(ghost x: nat) returns (r: nat)
      requires x < TWO_32
      requires bufferOffset + 4 <= rawData.Length && rawData[bufferOffset..bufferOffset+4] == U32(x)
      modifies this`bufferOffset
      ensures bufferOffset == old(bufferOffset) + 4
      ensures r == x
    {
      var bs := ReadBytes(4);
      PowersOf256();
      LittleEndianRoundTrip(x, 4);
      r := FromLittleEndian(bs);
    }

    method ReadU64(ghost x: nat) returns (r: nat)
      requires x < TWO_64
      requires bufferOffset + 8 <= rawData.Length && rawData[bufferOffset..bufferOffset+8] == U64(x)
      modifies this`bufferOffset
      ensures bufferOffset == old(bufferOffset) + 8
      ensures r == x
    {
      var bs := ReadBytes(8);
      PowersOf256();
      LittleEndianRoundTrip(x, 8);
      r := FromLittleEndian(bs);
    }

    method ReadString(ghost s: Bytes) returns (r: Bytes)
      requires |s| < TWO_32
      requires bufferOffset + 4 + |s| <= rawData.Length && rawData[bufferOffset..bufferOffset+4+|s|] == EncodeString(s)
      modifies this`bufferOffset
      ensures bufferOffset == old(bufferOffset) + 4 + |s|
      ensures r == s
    {
      SliceOfSlice(rawData[..], bufferOffset, U32(|s|), s);
      var length := ReadU32(|s|);
      r := ReadBytes(length);
    }

    /** Reads back a value of a known type tag that was written at the offset. */
    method ReadValue(tag: nat, ghost v: Value) returns (r: Value)
      requires ValidValue(v) && tag == TypeTag(v)
      requires bufferOffset + SizeOfValue(v) <= rawData.Length
      requires rawData[bufferOffset..bufferOffset+SizeOfValue(v)] == EncodeValue(v)
      modifies this`bufferOffset
      ensures bufferOffset == old(bufferOffset) + SizeOfValue(v)
      ensures r == v
    {
      if tag == 'I' as nat {
        var x := ReadU64(if v.i < 0 then v.i + TWO_64 else v.i);
        r := Int(FromI64(x));
      } else if tag == 'B' as nat {
        var bs := ReadBytes(1);
        r := Bool(bs[0] == 1);
      } else if tag == 'D' as nat {
        var d := ReadU64(v.d);
        r := Datetime(d);
      } else if tag == 'F' as nat {
        var raw := ReadBytes(8);
        r := Float(raw);
      } else if tag == 'V' as nat {
        var s := ReadString(v.s);
        r := Varchar(s);
      } else {
        r := Null;
      }
    }

    method ReadElement(ghost e: KeyElement) returns (r: KeyElement)
      requires ValidElement(e) && bufferOffset + |EncodeElement(e)| <= rawData.Length
      requires rawData[bufferOffset..bufferOffset+|EncodeElement(e)|] == EncodeElement(e)
      modifies this`bufferOffset
      ensures bufferOffset == old(bufferOffset) + |EncodeElement(e)|
      ensures r == e
    {
      ghost var payload := EncodeElement(e)[4..];
      SliceOfSlice(rawData[..], bufferOffset, U32(ElementTag(e)), payload);
      var tag := ReadU32(ElementTag(e));
      if tag == 'I' as nat {
        var x := ReadU64(if e.i < 0 then e.i + TWO_64 else e.i);
        r := IntElement(FromI64(x));
      } else if tag == 'F' as nat {
        var raw := ReadBytes(8);
        r := FloatElement(raw);
      } else {
        var s := ReadString(e.s);
        r := VarcharElement(s);
      }
    }

    method ReadKey(ghost key: seq<KeyElement>) returns (r: seq<KeyElement>)
      requires ValidKey(key) && bufferOffset + |EncodeKey(key)| <= rawData.Length
      requires rawData[bufferOffset..bufferOffset+|EncodeKey(key)|] == EncodeKey(key)
      modifies this`bufferOffset
      ensures bufferOffset == old(bufferOffset) + |EncodeKey(key)|
      ensures r == key
    {
      hide LittleEndian, EncodeElement, ValidElement;
      ghost var off, parts := bufferOffset + 8, ElementParts(key);
      SliceOfSlice(rawData[..], bufferOffset, U64(|key|), Concat(parts));
      var size := ReadU64(|key|);
      r := [];
      for i := 0 to size
        invariant bufferOffset == off + |Concat(parts[..i])|
        invariant r == key[..i]
      {
        ConcatIn(rawData[..], off, parts, i);
        var e := ReadElement(key[i]);
        r := r + [e];
      }
      assert parts[..|key|] == parts;
    }
  }

  lemma OverwriteTwice(buf: Bytes, off: nat, a: Bytes, b: Bytes)
    requires off + |a| + |b| <= |buf|
    ensures |Overwrite(buf, off, a)| == |buf|
    ensures Overwrite(Overwrite(buf, off, a), off + |a|, b) == Overwrite(buf, off, a + b)
  {
    var once := Overwrite(buf, off, a);
    assert once[..off+|a|] == buf[..off] + a;
    assert once[off+|a|+|b|..] == buf[off+|a|+|b|..];
  }

  lemma SliceOfSlice(buf: Bytes, off: nat, a: Bytes, b: Bytes)
    requires off + |a| + |b| <= |buf| && buf[off..off+|a|+|b|] == a + b
    ensures buf[off..off+|a|] == a
    ensures buf[off+|a|..off+|a|+|b|] == b
  {
    var all := buf[off..off+|a|+|b|];
    assert all[..|a|] == a && all[|a|..] == b;
    SubSlice(buf, off, off + |a| + |b|, 0, |a|);
    SubSlice(buf, off, off + |a| + |b|, |a|, |a| + |b|);
  }
}
