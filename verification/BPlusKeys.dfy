/** The comparison of composite keys (b_plus_key.cpp), for integer and string columns. */
module BPlusKeys {
  import opened Tuples
  import opened Encoding

  type BPlusKey = seq<KeyElement>

  /** What the operators assert: equally many elements, and of the same types. */
  ghost predicate SameTypes(a: BPlusKey, b: BPlusKey) {
    && |a| == |b|
    && forall i | 0 <= i < |a| :: (a[i].IntElement? && b[i].IntElement?) || (a[i].VarcharElement? && b[i].VarcharElement?)
  }

  predicate ElementLess(x: KeyElement, y: KeyElement) {
    match (x, y)
    case (IntElement(i), IntElement(j)) => i < j
    case (VarcharElement(s), VarcharElement(t)) => NameLess(s, t)
    case _ => false
  }

  /** a comes before b: at the first element in which they differ, a has the smaller one. */
  ghost predicate Before(a: BPlusKey, b: BPlusKey)
    requires |a| == |b|
  {
    exists i :: DifferAt(a, b, i) && ElementLess(a[i], b[i])
  }

  ghost predicate DifferAt(a: BPlusKey, b: BPlusKey, i: int)
    requires |a| == |b|
  {
    0 <= i < |a| && a[i] != b[i] && forall k | 0 <= k < i :: a[k] == b[k]
  }

  lemma ElementOrder(x: KeyElement, y: KeyElement)
    requires (x.IntElement? && y.IntElement?) || (x.VarcharElement? && y.VarcharElement?)
    ensures ElementLess(x, y) || ElementLess(y, x) || x == y
    ensures !(ElementLess(x, y) && (ElementLess(y, x) || x == y))
  {
    if x.VarcharElement? {
      NameOrder(x.s, y.s);
    }
  }

  lemma ElementLessTransitive(x: KeyElement, y: KeyElement, z: KeyElement)
    requires ElementLess(x, y) && ElementLess(y, z)
    ensures ElementLess(x, z)
  {
    if x.VarcharElement? {
      NameLessTransitive(x.s, y.s, z.s);
    }
  }

  /** In the terms of the columns: behind equal elements, a has the smaller integer, or the string that is a proper prefix or has
      the smaller byte at the first place where the strings differ. */
  lemma BeforeMeans(a: BPlusKey, b: BPlusKey)
    requires SameTypes(a, b)
    ensures Before(a, b) <==> exists i ::
      && 0 <= i < |a| && (forall k | 0 <= k < i :: a[k] == b[k])
      && if a[i].IntElement? then a[i].i < b[i].i else exists j :: SmallerAt(a[i].s, b[i].s, j)
  {
    hide NameLess, SmallerAt;
    forall i | 0 <= i < |a|
      ensures ElementLess(a[i], b[i]) <==> if a[i].IntElement? then a[i].i < b[i].i else exists j :: SmallerAt(a[i].s, b[i].s, j)
      ensures ElementLess(a[i], b[i]) ==> a[i] != b[i]
    {
      ElementOrder(a[i], b[i]);
      if a[i].VarcharElement? {
        NameLessIff(a[i].s, b[i].s);
      }
    }
    if i :| 0 <= i < |a| && (forall k | 0 <= k < i :: a[k] == b[k]) && ElementLess(a[i], b[i]) {
      assert DifferAt(a, b, i);
    }
  }

  /** Keys of one integer are ordered as these, which is the order in which the tree has its keys. */
  lemma OneInteger(i: int, j: int)
    ensures Before([IntElement(i)], [IntElement(j)]) <==> i < j
  {
    BeforeMeans([IntElement(i)], [IntElement(j)]);
    assert [IntElement(i)][0].i == i && [IntElement(j)][0].i == j;
  }

  /** operator<. */
  method Less(a: BPlusKey, b: BPlusKey) returns (r: bool)
    requires SameTypes(a, b)
    ensures r <==> Before(a, b)
    ensures r <==> exists i ::
      && 0 <= i < |a| && (forall k | 0 <= k < i :: a[k] == b[k])
      && if a[i].IntElement? then a[i].i < b[i].i else exists j :: SmallerAt(a[i].s, b[i].s, j)
  {
    BeforeMeans(a, b);
    for i := 0 to |a|
      invariant forall k | 0 <= k < i :: a[k] == b[k]
    {
      if ElementLess(a[i], b[i]) {
        ElementOrder(a[i], b[i]);
        assert DifferAt(a, b, i);
        return true;
      }
      if ElementLess(b[i], a[i]) {
        ElementOrder(b[i], a[i]);
        assert DifferAt(a, b, i);
        return false;
      }
      ElementOrder(a[i], b[i]);
    }
    r := false;
  }

  /** operator<=: the same loop, with the other answer for equal keys. */
  method LessOrEqual(a: BPlusKey, b: BPlusKey) returns (r: bool)
    requires SameTypes(a, b)
    ensures r <==> Before(a, b) || a == b
    ensures r <==> a == b || exists i ::
      && 0 <= i < |a| && (forall k | 0 <= k < i :: a[k] == b[k])
      && if a[i].IntElement? then a[i].i < b[i].i else exists j :: SmallerAt(a[i].s, b[i].s, j)
  {
    BeforeMeans(a, b);
    for i := 0 to |a|
      invariant forall k | 0 <= k < i :: a[k] == b[k]
    {
      if ElementLess(a[i], b[i]) {
        ElementOrder(a[i], b[i]);
        assert DifferAt(a, b, i);
        return true;
      }
      if ElementLess(b[i], a[i]) {
        ElementOrder(b[i], a[i]);
        assert DifferAt(a, b, i);
        return false;
      }
      ElementOrder(a[i], b[i]);
    }
    r := true;
  }

  /** Keys of one index are strictly and totally ordered. */
  lemma TotalOrder(a: BPlusKey, b: BPlusKey)
    requires SameTypes(a, b)
    ensures Before(a, b) || Before(b, a) || a == b
    ensures !(Before(a, b) && (Before(b, a) || a == b))
  {
    if Before(a, b) && Before(b, a) {
      var i :| DifferAt(a, b, i) && ElementLess(a[i], b[i]);
      var j :| DifferAt(b, a, j) && ElementLess(b[j], a[j]);
      ElementOrder(a[i], b[i]);
    }
    if a != b {
      var i := FirstDifference(a, b, 0);
      ElementOrder(a[i], b[i]);
      assert DifferAt(b, a, i);
    }
  }

  lemma {:induction false} FirstDifference(a: BPlusKey, b: BPlusKey, from: nat) returns (i: int)
    requires |a| == |b| && a != b && from <= |a| && (forall k | 0 <= k < from :: a[k] == b[k])
    ensures DifferAt(a, b, i)
    decreases |a| - from
  {
    if from == |a| {
      assert false;
    } else if a[from] != b[from] {
      i := from;
    } else {
      i := FirstDifference(a, b, from + 1);
    }
  }

  lemma Transitive(a: BPlusKey, b: BPlusKey, c: BPlusKey)
    requires |a| == |b| == |c| && Before(a, b) && Before(b, c)
    ensures Before(a, c)
  {
    var i :| DifferAt(a, b, i) && ElementLess(a[i], b[i]);
    var j :| DifferAt(b, c, j) && ElementLess(b[j], c[j]);
    var m := if i < j then i else j;
    if i == j {
      ElementLessTransitive(a[i], b[i], c[i]);
    }
    LessMeansDifferent(a[m], c[m]);
    assert DifferAt(a, c, m);
  }

  lemma LessMeansDifferent(x: KeyElement, y: KeyElement)
    ensures ElementLess(x, y) ==> x != y
  {
    if ElementLess(x, y) {
      ElementOrder(x, y);
    }
  }
}
