/** The two join implementations: the join switch of select.cpp, which copies rows, and joinEntity of helpers.cpp,
    which extends its rows in place. */
module Join {
  import opened Tuples

  type Joined = map<(Bytes, Bytes), Value>

  datatype JoinType = Inner | Cross | Left | Right

  /** The names that the fields of a tuple have in a joined row. */
  ghost function Names(entity: Bytes, t: Tuple): set<(Bytes, Bytes)> {
    set i | 0 <= i < |t| :: (entity, t[i].name)
  }

  /** addToJoinedTuple: fields that are there keep their value. */
  ghost function Added(row: Joined, entity: Bytes, t: Tuple): Joined {
    map k | k in row.Keys + Names(entity, t) :: if k in row then row[k] else Get(t, k.1)
  }

  /** removeFromJoinedTuple. */
  ghost function Removed(row: Joined, entity: Bytes, t: Tuple): Joined {
    row - Names(entity, t)
  }

  /** Removing what was added gives the row back exactly if none of the fields was there before. */
  lemma AddRemove(row: Joined, entity: Bytes, t: Tuple)
    ensures Removed(Added(row, entity, t), entity, t) == row <==> row.Keys !! Names(entity, t)
  {
    var r := Removed(Added(row, entity, t), entity, t);
    if row.Keys !! Names(entity, t) {
      assert r.Keys == row.Keys;
      assert forall k | k in row :: r[k] == row[k];
    } else {
      var k :| k in row.Keys && k in Names(entity, t);
      assert k !in r;
    }
  }

  ghost predicate NewTo(entity: Bytes, row: Joined) {
    forall k | k in row :: k.0 != entity
  }

  lemma NewNames(row: Joined, entity: Bytes, t: Tuple)
    requires NewTo(entity, row)
    ensures Removed(Added(row, entity, t), entity, t) == row
  {
    AddRemove(row, entity, t);
  }

  /** The first field of a name. */
  ghost predicate FirstField(t: Tuple, i: int, n: Bytes) {
    0 <= i < |t| && t[i].name == n && forall j | 0 <= j < i :: t[j].name != n
  }

  lemma {:induction false} FirstFieldOf(t: Tuple, n: Bytes) returns (i: int)
    requires Has(t, n)
    ensures FirstField(t, i, n) && Get(t, n) == t[i].value
    decreases |t|
  {
    if t[0].name == n {
      i := 0;
    } else {
      i := FirstFieldOf(t[1..], n);
      i := i + 1;
    }
  }

  lemma AddedMeans(row: Joined, entity: Bytes, t: Tuple)
    ensures var r := Added(row, entity, t);
      && (forall k | k in row :: k in r && r[k] == row[k])
      && (forall i | 0 <= i < |t| :: (entity, t[i].name) in r)
      && forall k | k in r && k !in row :: k.0 == entity && exists i :: FirstField(t, i, k.1) && r[k] == t[i].value
  {
    var r := Added(row, entity, t);
    forall k | k in r && k !in row ensures exists i :: FirstField(t, i, k.1) && r[k] == t[i].value {
      HasIndex(t, k.1);
      var i := FirstFieldOf(t, k.1);
    }
  }

  /** addToJoinedTuple: fields of the joined row stay, the others are added; of fields of the same name the first one counts. */
  method AddToJoinedTuple(row: Joined, entity: Bytes, t: Tuple) returns (r: Joined)
    ensures r == Added(row, entity, t)
    ensures forall k | k in row :: k in r && r[k] == row[k]
    ensures forall i | 0 <= i < |t| :: (entity, t[i].name) in r
    ensures forall k | k in r && k !in row :: k.0 == entity && exists i :: FirstField(t, i, k.1) && r[k] == t[i].value
  {
    AddedMeans(row, entity, t);
    r := row;
    assert Added(row, entity, t[..0]) == row;
    for i := 0 to |t|
      invariant r == Added(row, entity, t[..i])
    {
      AddedNext(row, entity, t, i);
      if (entity, t[i].name) !in r {
        r := r[(entity, t[i].name) := t[i].value];
      }
    }
    assert t[..|t|] == t;
  }

  lemma AddedNext(row: Joined, entity: Bytes, t: Tuple, i: nat)
    requires i < |t|
    ensures var k := (entity, t[i].name); var before := Added(row, entity, t[..i]);
      Added(row, entity, t[..i+1]) == if k in before then before else before[k := t[i].value]
  {
    var k := (entity, t[i].name);
    assert t[..i+1] == t[..i] + [t[i]];
    assert Names(entity, t[..i+1]) == Names(entity, t[..i]) + {k};
    forall n ensures Get(t[..i+1], n) == if Has(t[..i], n) || n != t[i].name then Get(t[..i], n) else t[i].value {
      GetAppend(t[..i], t[i], n);
    }
    forall n: Bytes ensures Has(t[..i], n) <==> (entity, n) in Names(entity, t[..i]) {
      HasIndex(t[..i], n);
    }
  }

  lemma {:induction false} GetAppend(t: Tuple, f: Field, n: Bytes)
    ensures Get(t + [f], n) == if Has(t, n) then Get(t, n) else if f.name == n then f.value else Null
    ensures !Has(t, n) ==> Get(t, n) == Null
    decreases |t|
  {
    if t != [] {
      GetAppend(t[1..], f, n);
      assert (t + [f])[1..] == t[1..] + [f];
    }
  }

  method RemoveFromJoinedTuple(row: Joined, entity: Bytes, t: Tuple) returns (r: Joined)
    ensures r == Removed(row, entity, t)
  {
    r := row;
    for i := 0 to |t|
      invariant r == row - Names(entity, t[..i])
    {
      assert Names(entity, t[..i+1]) == Names(entity, t[..i]) + {(entity, t[i].name)};
      if (entity, t[i].name) in r {
        r := r - {(entity, t[i].name)};
      }
    }
    assert t[..|t|] == t;
  }

  // ------------------------------------------------------------- what a join should return

  ghost function IfHolds(row: Joined, on: Joined -> bool): multiset<Joined> {
    if on(row) then multiset{row} else multiset{}
  }

  /** The matches of one left row. */
  ghost function OfLeft(l: Joined, rights: seq<Tuple>, target: Bytes, on: Joined -> bool): multiset<Joined> {
    if rights == [] then multiset{}
    else OfLeft(l, rights[..|rights|-1], target, on) + IfHolds(Added(l, target, rights[|rights|-1]), on)
  }

  /** The matches of one right row. */
  ghost function OfRight(lefts: seq<Joined>, r: Tuple, target: Bytes, on: Joined -> bool): multiset<Joined> {
    if lefts == [] then multiset{}
    else OfRight(lefts[..|lefts|-1], r, target, on) + IfHolds(Added(lefts[|lefts|-1], target, r), on)
  }

  ghost function Matches(lefts: seq<Joined>, rights: seq<Tuple>, target: Bytes, on: Joined -> bool): multiset<Joined> {
    if lefts == [] then multiset{}
    else Matches(lefts[..|lefts|-1], rights, target, on) + OfLeft(lefts[|lefts|-1], rights, target, on)
  }

  ghost predicate LeftMatched(l: Joined, rights: seq<Tuple>, target: Bytes, on: Joined -> bool) {
    exists j :: 0 <= j < |rights| && on(Added(l, target, rights[j]))
  }

  ghost predicate RightMatched(lefts: seq<Joined>, r: Tuple, target: Bytes, on: Joined -> bool) {
    exists i :: 0 <= i < |lefts| && on(Added(lefts[i], target, r))
  }

  /** The left rows without a match, each with the null row of the right table. */
  ghost function LeftAlone(lefts: seq<Joined>, rights: seq<Tuple>, nullRight: Tuple, target: Bytes, on: Joined -> bool): multiset<Joined> {
    if lefts == [] then multiset{}
    else
      var l := lefts[|lefts|-1];
      LeftAlone(lefts[..|lefts|-1], rights, nullRight, target, on)
        + if LeftMatched(l, rights, target, on) then multiset{} else multiset{Added(l, target, nullRight)}
  }

  /** The right rows without a match, each with the null row of the tables joined so far. */
  ghost function RightAlone(lefts: seq<Joined>, rights: seq<Tuple>, nullLeft: Joined, target: Bytes, on: Joined -> bool): multiset<Joined> {
    if rights == [] then multiset{}
    else
      var r := rights[|rights|-1];
      RightAlone(lefts, rights[..|rights|-1], nullLeft, target, on)
        + if RightMatched(lefts, r, target, on) then multiset{} else multiset{Added(nullLeft, target, r)}
  }

  predicate Always(row: Joined) {
    true
  }

  ghost function JoinOf(kind: JoinType, lefts: seq<Joined>, rights: seq<Tuple>, nullLeft: Joined, nullRight: Tuple,
      target: Bytes, on: Joined -> bool): multiset<Joined>
  {
    match kind
    case Inner => Matches(lefts, rights, target, on)
    case Cross => Matches(lefts, rights, target, Always)
    case Left => Matches(lefts, rights, target, on) + LeftAlone(lefts, rights, nullRight, target, on)
    case Right => Matches(lefts, rights, target, on) + RightAlone(lefts, rights, nullLeft, target, on)
  }

  // ------------------------------------------------------------- how often a row is in a join

  ghost predicate MatchesAs(l: Joined, r: Tuple, target: Bytes, on: Joined -> bool, x: Joined) {
    on(Added(l, target, r)) && Added(l, target, r) == x
  }

  /** The pairs of rows that match, and give the joined row x. */
  ghost function Pairs(lefts: seq<Joined>, rights: seq<Tuple>, target: Bytes, on: Joined -> bool, x: Joined): set<(int, int)> {
    set i, j | 0 <= i < |lefts| && 0 <= j < |rights| && MatchesAs(lefts[i], rights[j], target, on, x) :: (i, j)
  }

  ghost predicate MatchesNone(l: Joined, rights: seq<Tuple>, target: Bytes, on: Joined -> bool) {
    forall j | 0 <= j < |rights| :: !on(Added(l, target, rights[j]))
  }

  ghost predicate MatchedByNone(lefts: seq<Joined>, r: Tuple, target: Bytes, on: Joined -> bool) {
    forall i | 0 <= i < |lefts| :: !on(Added(lefts[i], target, r))
  }

  /** The left rows that match no right row, and give x with the null row. */
  ghost function LonelyLefts(lefts: seq<Joined>, rights: seq<Tuple>, nullRight: Tuple, target: Bytes, on: Joined -> bool, x: Joined): set<int> {
    set i | 0 <= i < |lefts| && MatchesNone(lefts[i], rights, target, on) && Added(lefts[i], target, nullRight) == x
  }

  /** The right rows that match no left row, and give x with the null row. */
  ghost function LonelyRights(lefts: seq<Joined>, rights: seq<Tuple>, nullLeft: Joined, target: Bytes, on: Joined -> bool, x: Joined): set<int> {
    set j | 0 <= j < |rights| && MatchedByNone(lefts, rights[j], target, on) && Added(nullLeft, target, rights[j]) == x
  }

  lemma {:induction false} LonelyLeftCount(lefts: seq<Joined>, rights: seq<Tuple>, nullRight: Tuple, target: Bytes, on: Joined -> bool, x: Joined)
    ensures LeftAlone(lefts, rights, nullRight, target, on)[x] == |LonelyLefts(lefts, rights, nullRight, target, on, x)|
    decreases |lefts|
  {
    hide Added, MatchesNone, LeftMatched, LonelyLefts;
    LonelyLeftsNext(lefts, rights, nullRight, target, on, x);
    if lefts != [] {
      LonelyLeftCount(lefts[..|lefts|-1], rights, nullRight, target, on, x);
      NoneOrMatched(lefts[|lefts|-1], rights, target, on);
    }
  }

  lemma WithAndWithout(all: set<int>, init: set<int>, n: int)
    requires forall i :: i in init <==> i in all && i != n
    ensures |all| == |init| + if n in all then 1 else 0
  {
    forall i ensures i in init <==> i in all - {n} {
      assert i in init <==> i in all && i != n;
    }
    assert init == all - {n};
  }

  lemma LonelyLeftsNext(lefts: seq<Joined>, rights: seq<Tuple>, nullRight: Tuple, target: Bytes, on: Joined -> bool, x: Joined)
    ensures lefts == [] ==> LonelyLefts(lefts, rights, nullRight, target, on, x) == {}
    ensures lefts != [] ==>
      var n := |lefts| - 1;
      var all, init := LonelyLefts(lefts, rights, nullRight, target, on, x), LonelyLefts(lefts[..n], rights, nullRight, target, on, x);
      |all| == |init| + if MatchesNone(lefts[n], rights, target, on) && Added(lefts[n], target, nullRight) == x then 1 else 0
  {
    hide Added, MatchesNone;
    if lefts != [] {
      var n := |lefts| - 1;
      var all, init := LonelyLefts(lefts, rights, nullRight, target, on, x), LonelyLefts(lefts[..n], rights, nullRight, target, on, x);
      forall i ensures i in init <==> i in all && i != n {
        assert 0 <= i < n ==> lefts[..n][i] == lefts[i];
      }
      assert n in all <==> MatchesNone(lefts[n], rights, target, on) && Added(lefts[n], target, nullRight) == x;
      WithAndWithout(all, init, n);
    }
  }

  lemma NoneOrMatched(l: Joined, rights: seq<Tuple>, target: Bytes, on: Joined -> bool)
    ensures MatchesNone(l, rights, target, on) <==> !LeftMatched(l, rights, target, on)
  {
  }

  lemma NoneOrMatchedRight(lefts: seq<Joined>, r: Tuple, target: Bytes, on: Joined -> bool)
    ensures MatchedByNone(lefts, r, target, on) <==> !RightMatched(lefts, r, target, on)
  {
  }

  lemma {:induction false} LonelyRightCount(lefts: seq<Joined>, rights: seq<Tuple>, nullLeft: Joined, target: Bytes, on: Joined -> bool, x: Joined)
    ensures RightAlone(lefts, rights, nullLeft, target, on)[x] == |LonelyRights(lefts, rights, nullLeft, target, on, x)|
    decreases |rights|
  {
    hide Added, MatchedByNone, RightMatched, LonelyRights;
    LonelyRightsNext(lefts, rights, nullLeft, target, on, x);
    if rights != [] {
      LonelyRightCount(lefts, rights[..|rights|-1], nullLeft, target, on, x);
      NoneOrMatchedRight(lefts, rights[|rights|-1], target, on);
    }
  }

  lemma LonelyRightsNext(lefts: seq<Joined>, rights: seq<Tuple>, nullLeft: Joined, target: Bytes, on: Joined -> bool, x: Joined)
    ensures rights == [] ==> LonelyRights(lefts, rights, nullLeft, target, on, x) == {}
    ensures rights != [] ==>
      var n := |rights| - 1;
      var all, init := LonelyRights(lefts, rights, nullLeft, target, on, x), LonelyRights(lefts, rights[..n], nullLeft, target, on, x);
      |all| == |init| + if MatchedByNone(lefts, rights[n], target, on) && Added(nullLeft, target, rights[n]) == x then 1 else 0
  {
    hide Added, MatchedByNone;
    if rights != [] {
      var n := |rights| - 1;
      var all, init := LonelyRights(lefts, rights, nullLeft, target, on, x), LonelyRights(lefts, rights[..n], nullLeft, target, on, x);
      forall j ensures j in init <==> j in all && j != n {
        assert 0 <= j < n ==> rights[..n][j] == rights[j];
      }
      assert n in all <==> MatchedByNone(lefts, rights[n], target, on) && Added(nullLeft, target, rights[n]) == x;
      WithAndWithout(all, init, n);
    }
  }

  /** The pairs of one left row. */
  ghost function PairsOfLeft(i: int, l: Joined, rights: seq<Tuple>, target: Bytes, on: Joined -> bool, x: Joined): set<(int, int)> {
    set h, j | h == i && 0 <= j < |rights| && MatchesAs(l, rights[j], target, on, x) :: (h, j)
  }

  lemma {:induction false} OfLeftCount(i: int, l: Joined, rights: seq<Tuple>, target: Bytes, on: Joined -> bool, x: Joined)
    ensures OfLeft(l, rights, target, on)[x] == |PairsOfLeft(i, l, rights, target, on, x)|
    decreases |rights|
  {
    hide Added, MatchesAs, PairsOfLeft, IfHolds;
    PairsOfLeftNext(i, l, rights, target, on, x);
    if rights != [] {
      OfLeftCount(i, l, rights[..|rights|-1], target, on, x);
      OnePair(l, rights[|rights|-1], target, on, x);
    }
  }

  lemma PairsOfLeftNext(i: int, l: Joined, rights: seq<Tuple>, target: Bytes, on: Joined -> bool, x: Joined)
    ensures rights == [] ==> PairsOfLeft(i, l, rights, target, on, x) == {}
    ensures rights != [] ==>
      var n := |rights| - 1;
      |PairsOfLeft(i, l, rights, target, on, x)| == |PairsOfLeft(i, l, rights[..n], target, on, x)|
        + if MatchesAs(l, rights[n], target, on, x) then 1 else 0
  {
    hide MatchesAs;
    if rights != [] {
      var n := |rights| - 1;
      var all, init := PairsOfLeft(i, l, rights, target, on, x), PairsOfLeft(i, l, rights[..n], target, on, x);
      forall p: (int, int) ensures p in all - {(i, n)} <==> p in init {
        assert 0 <= p.1 < n ==> rights[..n][p.1] == rights[p.1];
      }
      assert all - {(i, n)} == init;
      assert (i, n) in all <==> MatchesAs(l, rights[n], target, on, x);
    }
  }

  lemma OnePair(l: Joined, r: Tuple, target: Bytes, on: Joined -> bool, x: Joined)
    ensures IfHolds(Added(l, target, r), on)[x] == if MatchesAs(l, r, target, on, x) then 1 else 0
  {
    hide Added;
  }

  lemma {:induction false} MatchesCount(lefts: seq<Joined>, rights: seq<Tuple>, target: Bytes, on: Joined -> bool, x: Joined)
    ensures Matches(lefts, rights, target, on)[x] == |Pairs(lefts, rights, target, on, x)|
    decreases |lefts|
  {
    hide Added, MatchesAs, OfLeft;
    if lefts != [] {
      var n := |lefts| - 1;
      MatchesCount(lefts[..n], rights, target, on, x);
      OfLeftCount(n, lefts[n], rights, target, on, x);
      PairsNext(lefts, rights, target, on, x);
    }
  }

  lemma PairsNext(lefts: seq<Joined>, rights: seq<Tuple>, target: Bytes, on: Joined -> bool, x: Joined)
    requires lefts != []
    ensures var init, last := Pairs(lefts[..|lefts|-1], rights, target, on, x), PairsOfLeft(|lefts| - 1, lefts[|lefts|-1], rights, target, on, x);
      Pairs(lefts, rights, target, on, x) == init + last && init !! last
  {
    hide MatchesAs;
  }

  /** Every joined row occurs as often as there are matching pairs of rows that give it; in a left join once more for every left
      row without a match that gives it with the null row, and in a right join for every such right row. */
  lemma JoinCount(kind: JoinType, lefts: seq<Joined>, rights: seq<Tuple>, nullLeft: Joined, nullRight: Tuple,
      target: Bytes, on: Joined -> bool, x: Joined)
    ensures JoinOf(kind, lefts, rights, nullLeft, nullRight, target, on)[x] ==
      |Pairs(lefts, rights, target, if kind.Cross? then Always else on, x)| + (
        if kind.Left? then |LonelyLefts(lefts, rights, nullRight, target, on, x)|
        else if kind.Right? then |LonelyRights(lefts, rights, nullLeft, target, on, x)|
        else 0)
  {
    hide Matches, LeftAlone, RightAlone, Pairs, LonelyLefts, LonelyRights, Always;
    MatchesCount(lefts, rights, target, if kind.Cross? then Always else on, x);
    LonelyLeftCount(lefts, rights, nullRight, target, on, x);
    LonelyRightCount(lefts, rights, nullLeft, target, on, x);
  }

  lemma JoinCounts(result: seq<Joined>, kind: JoinType, lefts: seq<Joined>, rights: seq<Tuple>, nullLeft: Joined, nullRight: Tuple,
      target: Bytes, on: Joined -> bool)
    requires multiset(result) == JoinOf(kind, lefts, rights, nullLeft, nullRight, target, on)
    ensures forall x ::
      multiset(result)[x] == |Pairs(lefts, rights, target, if kind.Cross? then Always else on, x)| + (
        if kind.Left? then |LonelyLefts(lefts, rights, nullRight, target, on, x)|
        else if kind.Right? then |LonelyRights(lefts, rights, nullLeft, target, on, x)|
        else 0)
  {
    hide JoinOf, Pairs, LonelyLefts, LonelyRights;
    forall x
      ensures multiset(result)[x] == |Pairs(lefts, rights, target, if kind.Cross? then Always else on, x)| + (
        if kind.Left? then |LonelyLefts(lefts, rights, nullRight, target, on, x)|
        else if kind.Right? then |LonelyRights(lefts, rights, nullLeft, target, on, x)|
        else 0)
    {
      JoinCount(kind, lefts, rights, nullLeft, nullRight, target, on, x);
    }
  }

  lemma SwapMiddle<T>(a: multiset<T>, b: multiset<T>, c: multiset<T>, d: multiset<T>)
    ensures (a + b) + (c + d) == (a + c) + (b + d)
  {
  }

  lemma OfLeftNext(l: Joined, rights: seq<Tuple>, j: nat, target: Bytes, on: Joined -> bool)
    requires j < |rights|
    ensures OfLeft(l, rights[..j+1], target, on) == OfLeft(l, rights[..j], target, on) + IfHolds(Added(l, target, rights[j]), on)
    ensures LeftMatched(l, rights[..j+1], target, on) <==> LeftMatched(l, rights[..j], target, on) || on(Added(l, target, rights[j]))
  {
    hide Added;
    assert rights[..j+1][..j] == rights[..j];
    assert forall k | 0 <= k <= j :: rights[..j+1][k] == if k < j then rights[..j][k] else rights[j];
  }

  /** Matches may as well be collected one right row after the other. */
  lemma {:induction false} MatchesByRight(lefts: seq<Joined>, rights: seq<Tuple>, j: nat, target: Bytes, on: Joined -> bool)
    requires j < |rights|
    ensures Matches(lefts, rights[..j+1], target, on) == Matches(lefts, rights[..j], target, on) + OfRight(lefts, rights[j], target, on)
    decreases |lefts|
  {
    hide Added, IfHolds, OfLeft;
    if lefts != [] {
      var init, l := lefts[..|lefts|-1], lefts[|lefts|-1];
      MatchesByRight(init, rights, j, target, on);
      OfLeftNext(l, rights, j, target, on);
      SwapMiddle(Matches(init, rights[..j], target, on), OfRight(init, rights[j], target, on),
        OfLeft(l, rights[..j], target, on), IfHolds(Added(l, target, rights[j]), on));
    }
  }

  lemma {:induction false} NoRights(lefts: seq<Joined>, target: Bytes, on: Joined -> bool)
    ensures Matches(lefts, [], target, on) == multiset{}
    decreases |lefts|
  {
    if lefts != [] {
      NoRights(lefts[..|lefts|-1], target, on);
    }
  }

  // ------------------------------------------------------------- the join switch of select

  /** inner; joined rows are copies. */
  method SelectInner(temp: seq<Joined>, other: seq<Tuple>, target: Bytes, on: Joined -> bool) returns (result: seq<Joined>)
    ensures multiset(result) == Matches(temp, other, target, on)
  {
    hide Added, IfHolds, OfLeft, Matches;
    result := [];
    MatchesEnds(temp, other, target, on);
    for i := 0 to |temp|
      invariant multiset(result) == Matches(temp[..i], other, target, on)
    {
      MatchesNext(temp, other, i, target, on);
      ghost var before := multiset(result);
      OfLeftEnds(temp[i], other, target, on);
      for j := 0 to |other|
        invariant multiset(result) == before + OfLeft(temp[i], other[..j], target, on)
      {
        OfLeftNext(temp[i], other, j, target, on);
        var row := AddToJoinedTuple(temp[i], target, other[j]);
        PushIf(result, row, on);
        if on(row) {
          result := result + [row];
        }
      }
    }
  }

  method SelectCross(temp: seq<Joined>, other: seq<Tuple>, target: Bytes) returns (result: seq<Joined>)
    ensures multiset(result) == Matches(temp, other, target, Always)
  {
    hide Added, IfHolds, OfLeft, Matches;
    result := [];
    MatchesEnds(temp, other, target, Always);
    for i := 0 to |temp|
      invariant multiset(result) == Matches(temp[..i], other, target, Always)
    {
      MatchesNext(temp, other, i, target, Always);
      ghost var before := multiset(result);
      OfLeftEnds(temp[i], other, target, Always);
      for j := 0 to |other|
        invariant multiset(result) == before + OfLeft(temp[i], other[..j], target, Always)
      {
        OfLeftNext(temp[i], other, j, target, Always);
        var row := AddToJoinedTuple(temp[i], target, other[j]);
        PushIf(result, row, Always);
        result := result + [row];
      }
    }
  }

  lemma PushIf(result: seq<Joined>, row: Joined, on: Joined -> bool)
    ensures multiset(if on(row) then result + [row] else result) == multiset(result) + IfHolds(row, on)
  {
  }

  lemma MatchesEnds(lefts: seq<Joined>, rights: seq<Tuple>, target: Bytes, on: Joined -> bool)
    ensures Matches(lefts[..0], rights, target, on) == multiset{}
    ensures lefts[..|lefts|] == lefts
  {
  }

  lemma OfLeftEnds(l: Joined, rights: seq<Tuple>, target: Bytes, on: Joined -> bool)
    ensures OfLeft(l, rights[..0], target, on) == multiset{} && !LeftMatched(l, rights[..0], target, on)
    ensures rights[..|rights|] == rights
  {
  }

  lemma OfRightEnds(lefts: seq<Joined>, r: Tuple, target: Bytes, on: Joined -> bool)
    ensures OfRight(lefts[..0], r, target, on) == multiset{} && !RightMatched(lefts[..0], r, target, on)
    ensures lefts[..|lefts|] == lefts
  {
  }

  lemma OfRightNext(lefts: seq<Joined>, r: Tuple, i: nat, target: Bytes, on: Joined -> bool)
    requires i < |lefts|
    ensures OfRight(lefts[..i+1], r, target, on) == OfRight(lefts[..i], r, target, on) + IfHolds(Added(lefts[i], target, r), on)
    ensures RightMatched(lefts[..i+1], r, target, on) <==> RightMatched(lefts[..i], r, target, on) || on(Added(lefts[i], target, r))
  {
    hide Added;
    assert lefts[..i+1][..i] == lefts[..i];
    assert forall k | 0 <= k <= i :: lefts[..i+1][k] == if k < i then lefts[..i][k] else lefts[i];
  }

  lemma MatchesNext(lefts: seq<Joined>, rights: seq<Tuple>, i: nat, target: Bytes, on: Joined -> bool)
    requires i < |lefts|
    ensures Matches(lefts[..i+1], rights, target, on) == Matches(lefts[..i], rights, target, on) + OfLeft(lefts[i], rights, target, on)
  {
    assert lefts[..i+1][..i] == lefts[..i];
  }

  lemma LeftAloneNext(lefts: seq<Joined>, rights: seq<Tuple>, i: nat, nullRight: Tuple, target: Bytes, on: Joined -> bool)
    requires i < |lefts|
    ensures LeftAlone(lefts[..i+1], rights, nullRight, target, on) == LeftAlone(lefts[..i], rights, nullRight, target, on)
      + if LeftMatched(lefts[i], rights, target, on) then multiset{} else multiset{Added(lefts[i], target, nullRight)}
  {
    assert lefts[..i+1][..i] == lefts[..i];
  }

  lemma RightAloneNext(lefts: seq<Joined>, rights: seq<Tuple>, j: nat, nullLeft: Joined, target: Bytes, on: Joined -> bool)
    requires j < |rights|
    ensures RightAlone(lefts, rights[..j+1], nullLeft, target, on) == RightAlone(lefts, rights[..j], nullLeft, target, on)
      + if RightMatched(lefts, rights[j], target, on) then multiset{} else multiset{Added(nullLeft, target, rights[j])}
  {
    assert rights[..j+1][..j] == rights[..j];
  }

  /** left. */
  method SelectLeft(temp: seq<Joined>, other: seq<Tuple>, nullRight: Tuple, target: Bytes, on: Joined -> bool) returns (result: seq<Joined>)
    ensures multiset(result) == Matches(temp, other, target, on) + LeftAlone(temp, other, nullRight, target, on)
  {
    hide Added, IfHolds, OfLeft, Matches, LeftAlone, LeftMatched;
    result := [];
    MatchesEnds(temp, other, target, on);
    NoLeftAlone(temp, other, nullRight, target, on);
    for i := 0 to |temp|
      invariant multiset(result) == Matches(temp[..i], other, target, on) + LeftAlone(temp[..i], other, nullRight, target, on)
    {
      MatchesNext(temp, other, i, target, on);
      LeftAloneNext(temp, other, i, nullRight, target, on);
      ghost var before := multiset(result);
      var flag;
      result, flag := SelectOfLeft(temp[i], other, target, on, result);
      if !flag {
        var row := AddToJoinedTuple(temp[i], target, nullRight);
        result := result + [row];
      }
      SwapMiddle(Matches(temp[..i], other, target, on), LeftAlone(temp[..i], other, nullRight, target, on),
        OfLeft(temp[i], other, target, on), if flag then multiset{} else multiset{Added(temp[i], target, nullRight)});
    }
  }

  /** The inner loop of left: all matches of one left row, and whether there was one. */
  method SelectOfLeft(row1: Joined, other: seq<Tuple>, target: Bytes, on: Joined -> bool, before: seq<Joined>)
    returns (result: seq<Joined>, flag: bool)
    ensures multiset(result) == multiset(before) + OfLeft(row1, other, target, on)
    ensures flag <==> LeftMatched(row1, other, target, on)
  {
    hide Added, IfHolds, OfLeft, LeftMatched;
    result, flag := before, false;
    OfLeftEnds(row1, other, target, on);
    for j := 0 to |other|
      invariant multiset(result) == multiset(before) + OfLeft(row1, other[..j], target, on)
      invariant flag <==> LeftMatched(row1, other[..j], target, on)
    {
      OfLeftNext(row1, other, j, target, on);
      var row := AddToJoinedTuple(row1, target, other[j]);
      PushIf(result, row, on);
      if on(row) {
        result := result + [row];
        flag := true;
      }
    }
  }

  lemma NoLeftAlone(lefts: seq<Joined>, rights: seq<Tuple>, nullRight: Tuple, target: Bytes, on: Joined -> bool)
    ensures LeftAlone(lefts[..0], rights, nullRight, target, on) == multiset{}
  {
  }

  lemma NoRightAlone(lefts: seq<Joined>, rights: seq<Tuple>, nullLeft: Joined, target: Bytes, on: Joined -> bool)
    ensures RightAlone(lefts, rights[..0], nullLeft, target, on) == multiset{}
    ensures Matches(lefts, rights[..0], target, on) == multiset{}
    ensures rights[..|rights|] == rights
  {
    NoRights(lefts, target, on);
  }

  /** right: the loops are the other way round. */
  method SelectRight(temp: seq<Joined>, other: seq<Tuple>, currentNull: Joined, target: Bytes, on: Joined -> bool) returns (result: seq<Joined>)
    ensures multiset(result) == Matches(temp, other, target, on) + RightAlone(temp, other, currentNull, target, on)
  {
    hide Added, IfHolds, OfRight, Matches, RightAlone, RightMatched;
    result := [];
    NoRightAlone(temp, other, currentNull, target, on);
    for j := 0 to |other|
      invariant multiset(result) == Matches(temp, other[..j], target, on) + RightAlone(temp, other[..j], currentNull, target, on)
    {
      MatchesByRight(temp, other, j, target, on);
      RightAloneNext(temp, other, j, currentNull, target, on);
      var flag;
      result, flag := SelectOfRight(temp, other[j], target, on, result);
      if !flag {
        var row := AddToJoinedTuple(currentNull, target, other[j]);
        result := result + [row];
      }
      SwapMiddle(Matches(temp, other[..j], target, on), RightAlone(temp, other[..j], currentNull, target, on),
        OfRight(temp, other[j], target, on), if flag then multiset{} else multiset{Added(currentNull, target, other[j])});
    }
  }

  /** The inner loop of right. */
  method SelectOfRight(temp: seq<Joined>, row2: Tuple, target: Bytes, on: Joined -> bool, before: seq<Joined>)
    returns (result: seq<Joined>, flag: bool)
    ensures multiset(result) == multiset(before) + OfRight(temp, row2, target, on)
    ensures flag <==> RightMatched(temp, row2, target, on)
  {
    hide Added, IfHolds, OfRight, RightMatched;
    result, flag := before, false;
    OfRightEnds(temp, row2, target, on);
    for i := 0 to |temp|
      invariant multiset(result) == multiset(before) + OfRight(temp[..i], row2, target, on)
      invariant flag <==> RightMatched(temp[..i], row2, target, on)
    {
      OfRightNext(temp, row2, i, target, on);
      var row := AddToJoinedTuple(temp[i], target, row2);
      PushIf(result, row, on);
      if on(row) {
        result := result + [row];
        flag := true;
      }
    }
  }

  method SelectJoin(kind: JoinType, temp: seq<Joined>, other: seq<Tuple>, currentNull: Joined, nullRight: Tuple,
      target: Bytes, on: Joined -> bool) returns (result: seq<Joined>)
    ensures multiset(result) == JoinOf(kind, temp, other, currentNull, nullRight, target, on)
    ensures forall x ::
      multiset(result)[x] == |Pairs(temp, other, target, if kind.Cross? then Always else on, x)| + (
        if kind.Left? then |LonelyLefts(temp, other, nullRight, target, on, x)|
        else if kind.Right? then |LonelyRights(temp, other, currentNull, target, on, x)|
        else 0)
  {
    hide Pairs, LonelyLefts, LonelyRights, Matches, LeftAlone, RightAlone;
    match kind {
      case Inner => result := SelectInner(temp, other, target, on);
      case Cross => result := SelectCross(temp, other, target);
      case Left => result := SelectLeft(temp, other, nullRight, target, on);
      case Right => result := SelectRight(temp, other, currentNull, target, on);
    }
    JoinCounts(result, kind, temp, other, currentNull, nullRight, target, on);
  }

  // ------------------------------------------------------------- joinEntity

  /** joinEntity: every left row is extended in place, tested, and stripped again. It applies the condition for a cross
      join too. The rows that were lent to it come back unchanged. */
  method JoinEntity(kind: JoinType, left: array<Joined>, right: seq<Tuple>, nullLeft: Joined, nullRight: Tuple,
      target: Bytes, on: Joined -> bool) returns (result: seq<Joined>, nullLeft': Joined)
    requires forall i | 0 <= i < left.Length :: NewTo(target, left[i])
    requires NewTo(target, nullLeft)
    modifies left
    ensures left[..] == old(left[..]) && nullLeft' == nullLeft
    ensures multiset(result) == JoinOf(if kind.Cross? then Inner else kind, old(left[..]), right, nullLeft, nullRight, target, on)
    ensures forall x ::
      multiset(result)[x] == |Pairs(old(left[..]), right, target, on, x)| + (
        if kind.Left? then |LonelyLefts(old(left[..]), right, nullRight, target, on, x)|
        else if kind.Right? then |LonelyRights(old(left[..]), right, nullLeft, target, on, x)|
        else 0)
  {
    hide Pairs, LonelyLefts, LonelyRights, Added, Removed, IfHolds, OfLeft, Matches, LeftAlone, RightAlone, LeftMatched, RightMatched;
    ghost var lefts := left[..];
    nullLeft' := nullLeft;
    var noteLeft, noteRight;
    result, noteLeft, noteRight := JoinPairs(left, right, target, on);
    if kind.Left? {
      result := JoinLeftAlone(left, right, nullRight, target, on, noteLeft, result);
    }
    if kind.Right? {
      result, nullLeft' := JoinRightAlone(lefts, right, nullLeft, target, on, noteRight, result);
    }
    JoinCounts(result, if kind.Cross? then Inner else kind, lefts, right, nullLeft, nullRight, target, on);
  }

  /** The double loop. */
  method JoinPairs(left: array<Joined>, right: seq<Tuple>, target: Bytes, on: Joined -> bool)
    returns (result: seq<Joined>, noteLeft: set<nat>, noteRight: set<nat>)
    requires forall i | 0 <= i < left.Length :: NewTo(target, left[i])
    modifies left
    ensures left[..] == old(left[..])
    ensures multiset(result) == Matches(left[..], right, target, on)
    ensures forall i | 0 <= i < left.Length :: i in noteLeft <==> LeftMatched(left[i], right, target, on)
    ensures forall j | 0 <= j < |right| :: j in noteRight <==> RightMatched(left[..], right[j], target, on)
  {
    hide Added, Removed, IfHolds, OfLeft, Matches, LeftMatched;
    ghost var lefts := left[..];
    result, noteLeft, noteRight := [], {}, {};
    MatchesEnds(lefts, right, target, on);
    for i := 0 to left.Length
      invariant left[..] == lefts
      invariant multiset(result) == Matches(lefts[..i], right, target, on)
      invariant forall m | 0 <= m < left.Length :: m in noteLeft <==> m < i && LeftMatched(lefts[m], right, target, on)
      invariant forall j | 0 <= j < |right| :: j in noteRight <==> exists m :: 0 <= m < i && on(Added(lefts[m], target, right[j]))
    {
      MatchesNext(lefts, right, i, target, on);
      var matched, notes;
      result, matched, notes := JoinRow(left, i, right, target, on, result);
      if matched {
        noteLeft := noteLeft + {i};
      }
      noteRight := noteRight + notes;
    }
  }

  /** The inner loop: one left row against all right rows. */
  method JoinRow(left: array<Joined>, i: nat, right: seq<Tuple>, target: Bytes, on: Joined -> bool, before: seq<Joined>)
    returns (result: seq<Joined>, matched: bool, noteRight: set<nat>)
    requires i < left.Length && NewTo(target, left[i])
    modifies left
    ensures left[..] == old(left[..])
    ensures multiset(result) == multiset(before) + OfLeft(left[i], right, target, on)
    ensures matched <==> LeftMatched(left[i], right, target, on)
    ensures forall j | 0 <= j < |right| :: j in noteRight <==> on(Added(left[i], target, right[j]))
  {
    hide Added, Removed, IfHolds, OfLeft, LeftMatched;
    ghost var l := left[i];
    result, matched, noteRight := before, false, {};
    OfLeftEnds(l, right, target, on);
    for j := 0 to |right|
      invariant left[..] == old(left[..])
      invariant multiset(result) == multiset(before) + OfLeft(l, right[..j], target, on)
      invariant matched <==> LeftMatched(l, right[..j], target, on)
      invariant forall k | 0 <= k < |right| :: k in noteRight <==> k < j && on(Added(l, target, right[k]))
    {
      OfLeftNext(l, right, j, target, on);
      NewNames(l, target, right[j]);
      var row := AddToJoinedTuple(left[i], target, right[j]);
      left[i] := row;
      PushIf(result, row, on);
      if on(left[i]) {
        matched, noteRight := true, noteRight + {j};
        result := result + [left[i]];
      }
      row := RemoveFromJoinedTuple(left[i], target, right[j]);
      left[i] := row;
      assert left[..] == old(left[..]);
    }
  }

  method JoinLeftAlone(left: array<Joined>, right: seq<Tuple>, nullRight: Tuple, target: Bytes, on: Joined -> bool,
      noteLeft: set<nat>, before: seq<Joined>) returns (result: seq<Joined>)
    requires forall i | 0 <= i < left.Length :: NewTo(target, left[i])
    requires forall i | 0 <= i < left.Length :: i in noteLeft <==> LeftMatched(left[i], right, target, on)
    modifies left
    ensures left[..] == old(left[..])
    ensures multiset(result) == multiset(before) + LeftAlone(left[..], right, nullRight, target, on)
  {
    hide Added, Removed, LeftAlone, LeftMatched;
    ghost var lefts := left[..];
    result := before;
    NoLeftAlone(lefts, right, nullRight, target, on);
    MatchesEnds(lefts, right, target, on);
    for i := 0 to left.Length
      invariant left[..] == lefts
      invariant multiset(result) == multiset(before) + LeftAlone(lefts[..i], right, nullRight, target, on)
    {
      LeftAloneNext(lefts, right, i, nullRight, target, on);
      if i !in noteLeft {
        NewNames(lefts[i], target, nullRight);
        var row := AddToJoinedTuple(left[i], target, nullRight);
        left[i] := row;
        result := result + [left[i]];
        row := RemoveFromJoinedTuple(left[i], target, nullRight);
        left[i] := row;
        assert left[..] == lefts;
      }
    }
  }

  method JoinRightAlone(ghost lefts: seq<Joined>, right: seq<Tuple>, nullLeft: Joined, target: Bytes, on: Joined -> bool,
      noteRight: set<nat>, before: seq<Joined>) returns (result: seq<Joined>, nullLeft': Joined)
    requires NewTo(target, nullLeft)
    requires forall j | 0 <= j < |right| :: j in noteRight <==> RightMatched(lefts, right[j], target, on)
    ensures nullLeft' == nullLeft
    ensures multiset(result) == multiset(before) + RightAlone(lefts, right, nullLeft, target, on)
  {
    hide Added, Removed, RightAlone, RightMatched;
    result, nullLeft' := before, nullLeft;
    NoRightAlone(lefts, right, nullLeft, target, on);
    for j := 0 to |right|
      invariant nullLeft' == nullLeft
      invariant multiset(result) == multiset(before) + RightAlone(lefts, right[..j], nullLeft, target, on)
    {
      RightAloneNext(lefts, right, j, nullLeft, target, on);
      if j !in noteRight {
        NewNames(nullLeft, target, right[j]);
        nullLeft' := AddToJoinedTuple(nullLeft', target, right[j]);
        result := result + [nullLeft'];
        nullLeft' := RemoveFromJoinedTuple(nullLeft', target, right[j]);
      }
    }
  }

  // ------------------------------------------------------------- where the two differ

  ghost predicate AllHold(lefts: seq<Joined>, rights: seq<Tuple>, target: Bytes, on: Joined -> bool) {
    forall i, j | 0 <= i < |lefts| && 0 <= j < |rights| :: on(Added(lefts[i], target, rights[j]))
  }

  lemma {:induction false} OfLeftSize(l: Joined, rights: seq<Tuple>, target: Bytes, on: Joined -> bool)
    ensures |OfLeft(l, rights, target, on)| <= |rights|
    ensures |OfLeft(l, rights, target, on)| == |rights| <==> forall j | 0 <= j < |rights| :: on(Added(l, target, rights[j]))
    decreases |rights|
  {
    hide Added;
    if rights != [] {
      OfLeftSize(l, rights[..|rights|-1], target, on);
    }
  }

  lemma {:induction false} MatchesSize(lefts: seq<Joined>, rights: seq<Tuple>, target: Bytes, on: Joined -> bool)
    ensures |Matches(lefts, rights, target, on)| <= |lefts| * |rights|
    ensures |Matches(lefts, rights, target, on)| == |lefts| * |rights| <==> AllHold(lefts, rights, target, on)
    decreases |lefts|
  {
    hide Added, AllHold, OfLeft;
    AllHoldSplit(lefts, rights, target, on);
    if lefts != [] {
      var init, l := lefts[..|lefts|-1], lefts[|lefts|-1];
      MatchesSize(init, rights, target, on);
      OfLeftSize(l, rights, target, on);
      OneRowMore(|init|, |rights|);
    }
  }

  lemma OneRowMore(m: nat, n: nat)
    ensures (m + 1) * n == m * n + n
  {
  }

  lemma AllHoldSplit(lefts: seq<Joined>, rights: seq<Tuple>, target: Bytes, on: Joined -> bool)
    ensures lefts == [] ==> AllHold(lefts, rights, target, on)
    ensures lefts != [] ==> (AllHold(lefts, rights, target, on) <==>
      AllHold(lefts[..|lefts|-1], rights, target, on)
      && forall j | 0 <= j < |rights| :: on(Added(lefts[|lefts|-1], target, rights[j])))
  {
    hide Added;
  }

  lemma {:induction false} OfLeftWhole(l: Joined, rights: seq<Tuple>, target: Bytes, on: Joined -> bool)
    requires forall j | 0 <= j < |rights| :: on(Added(l, target, rights[j]))
    ensures OfLeft(l, rights, target, on) == OfLeft(l, rights, target, Always)
    decreases |rights|
  {
    hide Added;
    if rights != [] {
      OfLeftWhole(l, rights[..|rights|-1], target, on);
    }
  }

  lemma {:induction false} MatchesWhole(lefts: seq<Joined>, rights: seq<Tuple>, target: Bytes, on: Joined -> bool)
    requires AllHold(lefts, rights, target, on)
    ensures Matches(lefts, rights, target, on) == Matches(lefts, rights, target, Always)
    decreases |lefts|
  {
    hide Added;
    if lefts != [] {
      MatchesWhole(lefts[..|lefts|-1], rights, target, on);
      OfLeftWhole(lefts[|lefts|-1], rights, target, on);
    }
  }

  /** What joinEntity returns is what select returns for inner, left and right joins, and for a cross join exactly if the
      condition holds for every pair of rows. */
  lemma JoinsAgree(kind: JoinType, lefts: seq<Joined>, rights: seq<Tuple>, nullLeft: Joined, nullRight: Tuple,
      target: Bytes, on: Joined -> bool)
    ensures JoinOf(if kind.Cross? then Inner else kind, lefts, rights, nullLeft, nullRight, target, on)
         == JoinOf(kind, lefts, rights, nullLeft, nullRight, target, on)
         <==> (kind.Cross? ==> AllHold(lefts, rights, target, on))
  {
    hide Added, OfLeft, Matches;
    if kind.Cross? {
      MatchesSize(lefts, rights, target, on);
      MatchesSize(lefts, rights, target, Always);
      if AllHold(lefts, rights, target, on) {
        MatchesWhole(lefts, rights, target, on);
      }
    }
  }
}
