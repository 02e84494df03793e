/** Values, tuples and their encoded sizes (types.h, helpers.cpp). */
module Tuples {
  type byte = x: int | 0 <= x < 256
  type Bytes = seq<byte>

  /** One alternative per member of the source's SqlTypes variant that a table row can hold.
      A float is its eight raw bytes; nothing here computes with floats. */
  datatype Value =
    | Null
    | Int(i: int)
    | Varchar(s: Bytes)
    | Bool(b: bool)
    | Datetime(d: nat)
    | Float(raw: Bytes)

  /** A row without its B+ tree key: the fields in the order in which the source's std::map lists them. */
  datatype Field = Field(name: Bytes, value: Value)
  type Tuple = seq<Field>

  function SizeOfValue(v: Value): nat {
    match v
    case Null => 0
    case Int(_) => 8
    case Varchar(s) => 4 + |s|
    case Bool(_) => 1
    case Datetime(_) => 8
    case Float(_) => 8
  }

  function SizeOfTuple(t: Tuple): nat {
    if t == [] then 0 else 4 + |t[0].name| + SizeOfValue(t[0].value) + SizeOfTuple(t[1..])
  }

  // ------------------------------------------------------------- std::map operations

  /** The order of std::string, byte by byte. */
  predicate NameLess(a: Bytes, b: Bytes) {
    b != [] && (a == [] || a[0] < b[0] || (a[0] == b[0] && NameLess(a[1..], b[1..])))
  }

  lemma {:induction false} NameOrder(a: Bytes, b: Bytes)
    ensures NameLess(a, b) || NameLess(b, a) || a == b
    ensures !(NameLess(a, b) && (NameLess(b, a) || a == b))
    decreases |a|
  {
    if a != [] && b != [] {
      NameOrder(a[1..], b[1..]);
      assert a == [a[0]] + a[1..] && b == [b[0]] + b[1..];
    }
  }

  /** At byte i, behind equal ones, a ends or has the smaller byte. */
  ghost predicate SmallerAt(a: Bytes, b: Bytes, i: int) {
    && 0 <= i <= |a| && i < |b| && (forall k | 0 <= k < i :: a[k] == b[k])
    && (i == |a| || a[i] < b[i])
  }

  /** a is less than b exactly if it is a proper prefix of b or has the smaller byte at the first place where they differ. */
  lemma {:induction false} NameLessIff(a: Bytes, b: Bytes)
    ensures NameLess(a, b) <==> exists i :: SmallerAt(a, b, i)
    decreases |a|
  {
    if a != [] && b != [] {
      NameLessIff(a[1..], b[1..]);
      if exists i :: SmallerAt(a, b, i) {
        var i :| SmallerAt(a, b, i);
        if i > 0 {
          assert a[0] == b[0];
          assert SmallerAt(a[1..], b[1..], i - 1);
        }
      }
      if exists i :: SmallerAt(a[1..], b[1..], i) {
        var i :| SmallerAt(a[1..], b[1..], i);
        if a[0] == b[0] {
          assert SmallerAt(a, b, i + 1);
        }
      }
      if a[0] < b[0] { assert SmallerAt(a, b, 0); }
    } else if b != [] {
      assert SmallerAt(a, b, 0);
    }
  }

  lemma {:induction false} NameLessTransitive(a: Bytes, b: Bytes, c: Bytes)
    requires NameLess(a, b) && NameLess(b, c)
    ensures NameLess(a, c)
    decreases |a|
  {
    if a != [] && a[0] == b[0] == c[0] {
      NameLessTransitive(a[1..], b[1..], c[1..]);
    }
  }

  /** The fields stand in the order of their names, so no name occurs twice. */
  ghost predicate Sorted(t: Tuple) {
    forall i, j | 0 <= i < j < |t| :: NameLess(t[i].name, t[j].name)
  }

  predicate Has(t: Tuple, n: Bytes) {
    t != [] && (t[0].name == n || Has(t[1..], n))
  }

  /** The value of a field; an absent field reads as null. */
  function Get(t: Tuple, n: Bytes): Value {
    if t == [] then Null else if t[0].name == n then t[0].value else Get(t[1..], n)
  }

  /** t[n] = v: overwrites the field or adds it at its place. */
  function Put(t: Tuple, n: Bytes, v: Value): Tuple {
    if t == [] then [Field(n, v)]
    else if t[0].name == n then [Field(n, v)] + t[1..]
    else if NameLess(n, t[0].name) then [Field(n, v)] + t
    else [t[0]] + Put(t[1..], n, v)
  }

  /** std::map::insert: a name that is there keeps its value. */
  function Insert(t: Tuple, f: Field): Tuple {
    if Has(t, f.name) then t else Put(t, f.name, f.value)
  }

  lemma {:induction false} PutGet(t: Tuple, n: Bytes, v: Value, m: Bytes)
    ensures Get(Put(t, n, v), m) == if m == n then v else Get(t, m)
    ensures Has(Put(t, n, v), m) <==> m == n || Has(t, m)
    decreases |t|
  {
    var p := Put(t, n, v);
    if t != [] && t[0].name != n && !NameLess(n, t[0].name) {
      PutGet(t[1..], n, v, m);
      assert p[1..] == Put(t[1..], n, v);
    } else if t != [] && t[0].name == n {
      assert p[1..] == t[1..];
    } else {
      assert p[1..] == t;
    }
  }

  lemma {:induction false} HasIndex(t: Tuple, n: Bytes)
    ensures Has(t, n) <==> exists i :: 0 <= i < |t| && t[i].name == n
    decreases |t|
  {
    if t != [] {
      HasIndex(t[1..], n);
      assert forall i | 0 < i < |t| :: t[i] == t[1..][i-1];
      assert forall i | 0 <= i < |t| - 1 :: t[1..][i] == t[i+1];
    }
  }

  /** A field put behind all others is appended. */
  lemma {:induction false} PutLast(t: Tuple, n: Bytes, v: Value)
    requires forall i | 0 <= i < |t| :: NameLess(t[i].name, n)
    ensures Put(t, n, v) == t + [Field(n, v)] && !Has(t, n)
    decreases |t|
  {
    if t != [] {
      NameOrder(t[0].name, n);
      PutLast(t[1..], n, v);
      assert t == [t[0]] + t[1..];
    }
  }

  lemma {:induction false} PutSorted(t: Tuple, n: Bytes, v: Value)
    requires Sorted(t)
    ensures Sorted(Put(t, n, v))
    ensures forall f :: f in Put(t, n, v) ==> f == Field(n, v) || f in t
    decreases |t|
  {
    if t != [] {
      NameOrder(t[0].name, n);
      if t[0].name == n {
      } else if NameLess(n, t[0].name) {
        forall i | 0 < i < |t| ensures NameLess(n, t[i].name) {
          NameLessTransitive(n, t[0].name, t[i].name);
        }
      } else {
        var rest := Put(t[1..], n, v);
        PutSorted(t[1..], n, v);
        forall i | 0 <= i < |rest| ensures NameLess(t[0].name, rest[i].name) {
          assert rest[i] in rest;
          assert rest[i] in t[1..] ==> exists j :: 0 < j < |t| && t[j] == rest[i];
        }
      }
    }
  }

  lemma {:induction false} FirstNameIsLeast(t: Tuple, n: Bytes)
    requires Sorted(t) && Has(t, n)
    ensures t[0].name == n || NameLess(t[0].name, n)
    ensures Has(t[1..], n) <==> t[0].name != n
  {
    HasIndex(t[1..], n);
    if t[0].name == n {
      forall i | 0 <= i < |t[1..]| ensures t[1..][i].name != n {
        NameOrder(t[0].name, t[i+1].name);
      }
    } else {
      var i :| 0 <= i < |t[1..]| && t[1..][i].name == n;
      assert NameLess(t[0].name, t[i+1].name);
    }
  }

  /** A tuple is determined by its fields. */
  lemma {:induction false} SortedUnique(a: Tuple, b: Tuple)
    requires Sorted(a) && Sorted(b)
    requires forall n :: (Has(a, n) <==> Has(b, n)) && Get(a, n) == Get(b, n)
    ensures a == b
    decreases |a|
  {
    if a == [] {
      assert b != [] ==> Has(b, b[0].name);
    } else {
      assert Has(a, a[0].name) && Has(b, a[0].name) && Has(b, b[0].name) && Has(a, b[0].name);
      FirstNameIsLeast(b, a[0].name);
      FirstNameIsLeast(a, b[0].name);
      NameOrder(a[0].name, b[0].name);
      assert a[0].name == b[0].name && Get(a, a[0].name) == Get(b, a[0].name);
      forall n ensures (Has(a[1..], n) <==> Has(b[1..], n)) && Get(a[1..], n) == Get(b[1..], n) {
        Behind(a, n);
        Behind(b, n);
      }
      SortedUnique(a[1..], b[1..]);
    }
  }

  lemma Behind(t: Tuple, n: Bytes)
    requires Sorted(t) && t != []
    ensures Has(t[1..], n) <==> Has(t, n) && n != t[0].name
    ensures Get(t[1..], n) == if n == t[0].name then Null else Get(t, n)
  {
    if Has(t, n) {
      FirstNameIsLeast(t, n);
    }
    if !Has(t[1..], n) {
      AbsentIsNull(t[1..], n);
    }
  }

  lemma {:induction false} AbsentIsNull(t: Tuple, n: Bytes)
    requires !Has(t, n)
    ensures Get(t, n) == Null
    decreases |t|
  {
    if t != [] {
      AbsentIsNull(t[1..], n);
    }
  }

  /** The values of a tuple are what Get returns. */
  lemma {:induction false} GetOfField(t: Tuple, i: nat)
    requires Sorted(t) && i < |t|
    ensures Get(t, t[i].name) == t[i].value && Has(t, t[i].name)
    decreases |t|
  {
    if i > 0 {
      NameOrder(t[0].name, t[i].name);
      GetOfField(t[1..], i - 1);
    }
  }
}
