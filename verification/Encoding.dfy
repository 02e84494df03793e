/** The byte layouts that io_manager writes: fixed-width little-endian numbers, strings and values. */
module Encoding {
  import opened Tuples
  import opened Sequences

  const TWO_32: nat := 0x1_0000_0000
  const TWO_63: int := 0x8000_0000_0000_0000
  const TWO_64: nat := 0x1_0000_0000_0000_0000

  function Pow256(n: nat): nat {
    if n == 0 then 1 else 256 * Pow256(n - 1)
  }

  /** The n bytes of x, least significant first. */
  function LittleEndian(x: nat, n: nat): (r: Bytes)
    ensures |r| == n
  {
    if n == 0 then [] else [(x % 256) as byte] + LittleEndian(x / 256, n - 1)
  }

  function FromLittleEndian(bs: Bytes): nat {
    if bs == [] then 0 else (bs[0] as nat) + 256 * FromLittleEndian(bs[1..])
  }

  lemma {:induction false} LittleEndianRoundTrip(x: nat, n: nat)
    requires x < Pow256(n)
    ensures FromLittleEndian(LittleEndian(x, n)) == x
    decreases n
  {
    if n > 0 {
      LittleEndianRoundTrip(x / 256, n - 1);
      assert LittleEndian(x, n)[1..] == LittleEndian(x / 256, n - 1);
    }
  }

  lemma DivideTwice(x: nat, p: nat)
    requires p > 0
    ensures 256 * p > 0 && x / 256 / p == x / (256 * p)
  {
    var q, r := x / (256 * p), x % (256 * p);
    assert x == (256 * p) * q + r == 256 * (p * q) + r;
    assert x / 256 == p * q + r / 256;
    assert r / 256 < p;
    assert p * q + r / 256 == q * p + r / 256;
    QuotientIs(x / 256, p, q, r / 256);
  }

  lemma QuotientIs(x: nat, p: nat, q: nat, r: nat)
    requires p > 0 && x == q * p + r && r < p
    ensures x / p == q
  {
    var d := x / p;
    assert x == d * p + x % p;
    Distribute(q, d, p);
    Multiple(q - d, p);
  }

  lemma Distribute(q: int, d: int, p: int)
    ensures (q - d) * p == q * p - d * p
  {
  }

  lemma {:induction false} Multiple(k: int, p: int)
    requires p > 0
    ensures k >= 1 ==> k * p >= p
    ensures k <= -1 ==> k * p <= -p
    decreases if k < 0 then -k else k
  {
    if k > 1 {
      Multiple(k - 1, p);
      Distribute(k, 1, p);
    } else if k < -1 {
      Multiple(k + 1, p);
      Distribute(k, -1, p);
    }
  }

  /** Byte i is digit i of the number, counted from the least significant one. */
  lemma {:induction false} LittleEndianDigits(x: nat, n: nat, i: nat)
    requires i < n
    ensures Pow256(i) > 0 && LittleEndian(x, n)[i] == x / Pow256(i) % 256
    decreases i
  {
    if i > 0 {
      LittleEndianDigits(x / 256, n - 1, i - 1);
      DivideTwice(x, Pow256(i - 1));
    }
  }

  lemma PowersOf256()
    ensures Pow256(4) == TWO_32 && Pow256(8) == TWO_64
  {
    assert Pow256(1) == 256 && Pow256(2) == 0x1_0000 && Pow256(3) == 0x100_0000 && Pow256(4) == TWO_32;
    assert Pow256(5) == 0x100_0000_0000 && Pow256(6) == 0x1_0000_0000_0000 && Pow256(7) == 0x100_0000_0000_0000;
  }

  function U32(x: nat): Bytes {
    LittleEndian(x, 4)
  }

  function U64(x: nat): Bytes {
    LittleEndian(x, 8)
  }

  /** Two's complement. */
  function I64(i: int): Bytes
    requires -TWO_63 <= i < TWO_63
  {
    U64(if i < 0 then i + TWO_64 else i)
  }

  function FromI64(x: nat): int
    requires x < TWO_64
  {
    if x < TWO_63 then x else x - TWO_64
  }

  function EncodeString(s: Bytes): Bytes {
    U32(|s|) + s
  }

  /** The values that fit their C++ types. */
  predicate ValidValue(v: Value) {
    match v
    case Null => true
    case Int(i) => -TWO_63 <= i < TWO_63
    case Varchar(s) => |s| < TWO_32
    case Bool(_) => true
    case Datetime(d) => d < TWO_64
    case Float(raw) => |raw| == 8
  }

  /** IOManager::write of a value; a null value has no bytes. */
  function EncodeValue(v: Value): Bytes
    requires ValidValue(v)
  {
    match v
    case Null => []
    case Int(i) => I64(i)
    case Varchar(s) => EncodeString(s)
    case Bool(b) => [if b then 1 else 0]
    case Datetime(d) => U64(d)
    case Float(raw) => raw
  }

  /** An integer is its two's complement, whose digits are those of i modulo 2^64; a string is its length and its bytes; true is
      1 and false 0. */
  lemma ValueBytes(v: Value)
    requires ValidValue(v)
    ensures v.Int? ==> |EncodeValue(v)| == 8 && FromLittleEndian(EncodeValue(v)) == v.i % TWO_64
    ensures v.Varchar? ==> |EncodeValue(v)| == 4 + |v.s| && FromLittleEndian(EncodeValue(v)[..4]) == |v.s| && EncodeValue(v)[4..] == v.s
    ensures v.Bool? ==> EncodeValue(v) == [if v.b then 1 else 0]
    ensures v.Datetime? ==> |EncodeValue(v)| == 8 && FromLittleEndian(EncodeValue(v)) == v.d
  {
    hide LittleEndian, FromLittleEndian, Pow256;
    PowersOf256();
    match v
    case Int(i) => LittleEndianRoundTrip(if i < 0 then i + TWO_64 else i, 8);
    case Varchar(s) => LittleEndianRoundTrip(|s|, 4);
    case Datetime(d) => LittleEndianRoundTrip(d, 8);
    case _ =>
  }

  /** DataTypes: the character code of the type, in four bytes. */
  function TypeTag(v: Value): nat {
    match v
    case Null => 'N' as nat
    case Int(_) => 'I' as nat
    case Varchar(_) => 'V' as nat
    case Bool(_) => 'B' as nat
    case Datetime(_) => 'D' as nat
    case Float(_) => 'F' as nat
  }

  /** The types that a column can have. */
  predicate IsColumnTag(tag: nat) {
    tag == 'I' as nat || tag == 'V' as nat || tag == 'B' as nat || tag == 'D' as nat || tag == 'F' as nat
  }

  /** An attribute: its name and the character code of its type. */
  datatype Column = Column(name: Bytes, tag: nat)

  ghost predicate HasColumn(columns: seq<Column>, name: Bytes, tag: nat) {
    exists i :: 0 <= i < |columns| && columns[i] == Column(name, tag)
  }

  ghost predicate AmongColumns(columns: seq<Column>, n: Bytes) {
    exists i :: 0 <= i < |columns| && columns[i].name == n
  }

  /** "bree_key_2303" and "bnode_child_2303". */
  const BTREE_KEY: Bytes := [98, 114, 101, 101, 95, 107, 101, 121, 95, 50, 51, 48, 51]
  const CHILD_BTREE_KEY: Bytes := [98, 110, 111, 100, 101, 95, 99, 104, 105, 108, 100, 95, 50, 51, 48, 51]

  ghost predicate ColumnsFit(columns: seq<Column>) {
    && (forall i | 0 <= i < |columns| ::
          columns[i].name != BTREE_KEY && columns[i].name != CHILD_BTREE_KEY && IsColumnTag(columns[i].tag))
    && forall i, j | 0 <= i < j < |columns| :: columns[i].name != columns[j].name
  }

  /** Every field that a column has is of the type of that column; so none is null. */
  predicate TypedFields(t: Tuple, columns: seq<Column>) {
    forall c | 0 <= c < |columns| && Has(t, columns[c].name) :: TypeTag(Get(t, columns[c].name)) == columns[c].tag
  }

  /** sizeOfSqlType is the number of bytes written. */
  lemma EncodedValueSize(v: Value)
    requires ValidValue(v)
    ensures |EncodeValue(v)| == SizeOfValue(v)
  {
  }

  /** A buffer with bs written over it at an offset. */
  function Overwrite(buf: Bytes, off: nat, bs: Bytes): Bytes
    requires off + |bs| <= |buf|
  {
    buf[..off] + bs + buf[off+|bs|..]
  }

  // ------------------------------------------------------------- sequences of parts

  function Concat(parts: seq<Bytes>): Bytes {
    if parts == [] then [] else Concat(parts[..|parts|-1]) + parts[|parts|-1]
  }

  /** Part k inside the concatenation of all parts. */
  lemma {:induction false} ConcatAt(parts: seq<Bytes>, k: nat)
    requires k < |parts|
    ensures Concat(parts[..k+1]) == Concat(parts[..k]) + parts[k]
    ensures |Concat(parts[..k])| + |parts[k]| <= |Concat(parts)|
    ensures Concat(parts)[|Concat(parts[..k])|..|Concat(parts[..k])| + |parts[k]|] == parts[k]
    decreases |parts|
  {
    assert parts[..k+1][..k] == parts[..k];
    if k == |parts| - 1 {
      assert parts[..k+1] == parts;
    } else {
      var init := parts[..|parts|-1];
      assert init[..k] == parts[..k] && init[..k+1] == parts[..k+1];
      ConcatAt(init, k);
    }
  }

  /** Part k where the concatenation stands in a buffer. */
  lemma ConcatIn(buf: Bytes, off: nat, parts: seq<Bytes>, k: nat)
    requires k < |parts| && off + |Concat(parts)| <= |buf|
    requires buf[off..off+|Concat(parts)|] == Concat(parts)
    ensures Concat(parts[..k+1]) == Concat(parts[..k]) + parts[k]
    ensures |Concat(parts[..k])| + |parts[k]| <= |Concat(parts)|
    ensures buf[off+|Concat(parts[..k])|..off+|Concat(parts[..k])|+|parts[k]|] == parts[k]
  {
    ConcatAt(parts, k);
    hide Concat;
    var a, n := |Concat(parts[..k])|, |parts[k]|;
    SubSlice(buf, off, off + |Concat(parts)|, a, a + n);
  }

  // ------------------------------------------------------------- B+ tree keys

  datatype KeyElement = IntElement(i: int) | FloatElement(raw: Bytes) | VarcharElement(s: Bytes)

  predicate ValidElement(e: KeyElement) {
    match e
    case IntElement(i) => -TWO_63 <= i < TWO_63
    case FloatElement(raw) => |raw| == 8
    case VarcharElement(s) => |s| < TWO_32
  }

  predicate ValidKey(key: seq<KeyElement>) {
    |key| < TWO_32 && forall i | 0 <= i < |key| :: ValidElement(key[i])
  }

  function ElementTag(e: KeyElement): nat {
    match e
    case IntElement(_) => 'I' as nat
    case FloatElement(_) => 'F' as nat
    case VarcharElement(_) => 'V' as nat
  }

  function EncodeElement(e: KeyElement): Bytes
    requires ValidElement(e)
  {
    U32(ElementTag(e)) + match e case IntElement(i) => I64(i) case FloatElement(raw) => raw case VarcharElement(s) => EncodeString(s)
  }

  function ElementParts(key: seq<KeyElement>): seq<Bytes>
    requires ValidKey(key)
  {
    seq(|key|, i requires 0 <= i < |key| => EncodeElement(key[i]))
  }

  /** A vector: its size in eight bytes, then its elements. */
  function EncodeKey(key: seq<KeyElement>): Bytes
    requires ValidKey(key)
  {
    U64(|key|) + Concat(ElementParts(key))
  }

  function SizeOfElement(e: KeyElement): nat {
    4 + match e case IntElement(_) => 8 case FloatElement(_) => 8 case VarcharElement(s) => 4 + |s|
  }

  /** BPlusKey::getRawSize. */
  function KeySize(key: seq<KeyElement>): nat {
    if key == [] then 8 else KeySize(key[..|key|-1]) + SizeOfElement(key[|key|-1])
  }

  /** getRawSize is the number of bytes written. */
  lemma {:induction false} EncodedKeySize(key: seq<KeyElement>)
    requires ValidKey(key)
    ensures |EncodeKey(key)| == KeySize(key)
    decreases |key|
  {
    if key != [] {
      var init := key[..|key|-1];
      EncodedKeySize(init);
      assert ElementParts(key)[..|key|-1] == ElementParts(init);
    }
  }
}
