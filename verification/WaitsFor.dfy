/** The waits-for graph of lock_manager.cpp: breadth-first cycle search and the detection that erases vertices. */
module WaitsFor {
  type Txn = nat
  type Graph = map<Txn, set<Txn>>

  /** The transactions that u waits for; a vertex that is not in the map waits for none. */
  function Out(g: Graph, u: Txn): set<Txn> {
    if u in g then g[u] else {}
  }

  /** Only vertices without edges were added. */
  ghost predicate SameEdges(g: Graph, h: Graph) {
    forall u :: Out(g, u) == Out(h, u)
  }

  // ------------------------------------------------------------- paths

  ghost predicate IsPath(g: Graph, p: seq<Txn>) {
    p != [] && forall i | 0 <= i < |p| - 1 :: p[i+1] in Out(g, p[i])
  }

  function Last(p: seq<Txn>): Txn
    requires p != []
  {
    p[|p|-1]
  }

  ghost predicate PathFrom(g: Graph, t: Txn, p: seq<Txn>) {
    IsPath(g, p) && p[0] == t
  }

  /** What can be reached from t is a tree with root t: it is reached in one way only. */
  ghost predicate TreeFrom(g: Graph, t: Txn) {
    forall p, q | PathFrom(g, t, p) && PathFrom(g, t, q) && Last(p) == Last(q) :: p == q
  }

  /** Every vertex is the root of a tree. */
  ghost predicate AllTrees(g: Graph) {
    forall t | t in g :: TreeFrom(g, t)
  }

  ghost predicate IsCycle(g: Graph, c: seq<Txn>) {
    IsPath(g, c) && |c| >= 2 && c[0] == Last(c)
  }

  ghost predicate Acyclic(g: Graph) {
    forall c :: !IsCycle(g, c)
  }

  lemma Extend(g: Graph, p: seq<Txn>, v: Txn)
    requires IsPath(g, p) && v in Out(g, Last(p))
    ensures IsPath(g, p + [v]) && Last(p + [v]) == v
  {
  }

  lemma Prefix(g: Graph, p: seq<Txn>)
    requires IsPath(g, p) && |p| >= 2
    ensures IsPath(g, p[..|p|-1]) && Last(p) in Out(g, Last(p[..|p|-1]))
    ensures p == p[..|p|-1] + [Last(p)]
  {
    assert p[|p|-2+1] in Out(g, p[|p|-2]);
  }

  /** A tree contains no cycle: going round it would reach its vertices a second time. */
  lemma CycleIsNoTree(g: Graph, t: Txn, p: seq<Txn>, c: seq<Txn>)
    requires PathFrom(g, t, p) && IsCycle(g, c) && Last(p) == c[0]
    ensures !TreeFrom(g, t)
  {
    var q := p + c[1..];
    forall i | 0 <= i < |q| - 1 ensures q[i+1] in Out(g, q[i]) {
      if i >= |p| - 1 {
        assert q[i] == c[i-(|p|-1)] && q[i+1] == c[i-(|p|-1)+1];
      }
    }
    assert PathFrom(g, t, q) && Last(q) == Last(p) && |q| != |p|;
  }

  /** If every vertex with edges is the root of a tree, the graph has no cycle. */
  lemma TreesAreAcyclic(g: Graph)
    requires AllTrees(g)
    ensures Acyclic(g)
  {
    forall c ensures !IsCycle(g, c) {
      if IsCycle(g, c) {
        assert c[0+1] in Out(g, c[0]);
        CycleIsNoTree(g, c[0], [c[0]], c);
        assert false;
      }
    }
  }

  /** The converse does not hold: two ways to the same vertex count as a cycle. */
  lemma DiamondIsNoTree()
    ensures var g := map[1 := {2, 3}, 2 := {4}, 3 := {4}];
      Acyclic(g) && !TreeFrom(g, 1)
  {
    var g := map[1 := {2, 3}, 2 := {4}, 3 := {4}];
    forall c ensures !IsCycle(g, c) {
      if IsPath(g, c) && |c| >= 2 {
        UpwardPath(g, c);
      }
    }
    assert PathFrom(g, 1, [1, 2, 4]) && PathFrom(g, 1, [1, 3, 4]);
    assert Last([1, 2, 4]) == Last([1, 3, 4]) && [1, 2, 4][1] != [1, 3, 4][1];
  }

  lemma {:induction false} UpwardPath(g: Graph, p: seq<Txn>)
    requires forall u: Txn, v: Txn | v in Out(g, u) :: u < v
    requires IsPath(g, p) && |p| >= 2
    ensures p[0] < Last(p)
    decreases |p|
  {
    Prefix(g, p);
    if |p| > 2 {
      UpwardPath(g, p[..|p|-1]);
    }
  }

  // ------------------------------------------------------------- the search

  /** All vertices: those in the map, those that are waited for, and t. */
  ghost function Vertices(g: Graph, t: Txn): set<Txn> {
    g.Keys + (set u, v | u in g && v in g[u] :: v) + {t}
  }

  /** The search from t has followed all edges of the vertices in done, and of u those that are not in todo; way gives
      the one path to every visited vertex. */
  ghost predicate Searched(g: Graph, t: Txn, visited: set<Txn>, queue: seq<Txn>, u: Txn, todo: set<Txn>, way: map<Txn, seq<Txn>>) {
    && way.Keys == visited && t in visited && way[t] == [t]
    && (forall v | v in visited :: PathFrom(g, t, way[v]) && Last(way[v]) == v)
    && (forall v | v in queue :: v in visited)
    && (forall i, j | 0 <= i < j < |queue| :: queue[i] != queue[j])
    && todo <= Out(g, u)
    && (forall w, v | w in visited && w !in queue && v in Out(g, w) && !(w == u && v in todo) ::
          v in visited && way[v] == way[w] + [v])
    && (forall v | v in visited && v != t ::
          var w := way[v][|way[v]|-2];
          |way[v]| >= 2 && w in visited && w !in queue && !(w == u && v in todo) && v in Out(g, w) && way[v] == way[w] + [v])
  }

  lemma SearchStart(g: Graph, t: Txn)
    ensures Searched(g, t, {t}, [t], t, {}, map[t := [t]])
  {
  }

  /** An edge to a new vertex. */
  lemma SearchNew(g: Graph, t: Txn, visited: set<Txn>, queue: seq<Txn>, u: Txn, todo: set<Txn>, way: map<Txn, seq<Txn>>, v: Txn)
    requires Searched(g, t, visited, queue, u, todo, way) && u in visited && u !in queue
    requires v in todo && v !in visited
    ensures Searched(g, t, visited + {v}, queue + [v], u, todo - {v}, way[v := way[u] + [v]])
  {
    hide PathFrom, IsPath;
    ExtendFrom(g, t, way[u], v);
  }

  lemma ExtendFrom(g: Graph, t: Txn, p: seq<Txn>, v: Txn)
    requires PathFrom(g, t, p) && v in Out(g, Last(p))
    ensures PathFrom(g, t, p + [v]) && Last(p + [v]) == v
  {
    Extend(g, p, v);
  }

  /** An edge to a visited vertex is a second way to it. */
  lemma SearchSecondWay(g: Graph, t: Txn, visited: set<Txn>, queue: seq<Txn>, u: Txn, todo: set<Txn>, way: map<Txn, seq<Txn>>, v: Txn)
    requires Searched(g, t, visited, queue, u, todo, way) && u in visited && u !in queue
    requires v in todo && v in visited
    ensures !TreeFrom(g, t)
  {
    Extend(g, way[u], v);
    var p, q := way[u] + [v], way[v];
    assert PathFrom(g, t, p) && PathFrom(g, t, q) && Last(p) == Last(q);
    assert p[|p|-2] == u && |p| >= 2;
    assert v != t ==> q[|q|-2] != u;
  }

  /** When nothing is left to follow, every path is the recorded one. */
  lemma {:induction false} OneWay(g: Graph, t: Txn, visited: set<Txn>, u: Txn, way: map<Txn, seq<Txn>>, p: seq<Txn>)
    requires Searched(g, t, visited, [], u, {}, way) && PathFrom(g, t, p)
    ensures Last(p) in visited && way[Last(p)] == p
    decreases |p|
  {
    if |p| >= 2 {
      Prefix(g, p);
      OneWay(g, t, visited, u, way, p[..|p|-1]);
    } else {
      assert p == [t];
    }
  }

  lemma SearchDone(g: Graph, t: Txn, visited: set<Txn>, u: Txn, way: map<Txn, seq<Txn>>)
    requires Searched(g, t, visited, [], u, {}, way)
    ensures TreeFrom(g, t)
  {
    forall p, q | PathFrom(g, t, p) && PathFrom(g, t, q) && Last(p) == Last(q) ensures p == q {
      OneWay(g, t, visited, u, way, p);
      OneWay(g, t, visited, u, way, q);
    }
  }

  lemma SearchNext(g: Graph, t: Txn, visited: set<Txn>, queue: seq<Txn>, u: Txn, way: map<Txn, seq<Txn>>)
    requires Searched(g, t, visited, queue, u, {}, way) && queue != []
    ensures Searched(g, t, visited, queue[1..], queue[0], Out(g, queue[0]), way)
    ensures queue[0] in visited && queue[0] !in queue[1..]
  {
  }

  ghost function From(vertices: set<Txn>, t: int): set<Txn> {
    set u | u in vertices && u >= t
  }

  lemma FromShrinks(vertices: set<Txn>, a: int, b: int)
    ensures a in vertices && a < b ==> From(vertices, b) < From(vertices, a)
  {
    if a in vertices && a < b {
      assert a in From(vertices, a) && a !in From(vertices, b);
    }
  }

  lemma OutInVertices(g: Graph, t: Txn, u: Txn)
    ensures Out(g, u) <= Vertices(g, t) && t in Vertices(g, t) && g.Keys <= Vertices(g, t)
    ensures SameEdges(g, g)
  {
  }

  lemma SameOut(g: Graph, h: Graph, u: Txn)
    requires SameEdges(g, h)
    ensures Out(g, u) == Out(h, u)
  {
  }

  lemma NewVertex(g: Graph, h: Graph, u: Txn)
    requires SameEdges(g, h) && u !in h
    ensures SameEdges(g, h[u := {}]) && Out(g, u) == {}
  {
  }

  class LockManager {
    var waitsFor: Graph

    /** hasCycle is false exactly if what can be reached from t is a tree. It adds vertices, but no edge. */
    method HasCycle(t: Txn) returns (r: bool)
      modifies this`waitsFor
      ensures r <==> !TreeFrom(old(waitsFor), t)
      ensures SameEdges(old(waitsFor), waitsFor)
      ensures old(waitsFor).Keys <= waitsFor.Keys <= Vertices(old(waitsFor), t)
    {
      hide Searched, TreeFrom, Vertices, SameEdges;
      ghost var g := waitsFor;
      var q: seq<Txn>, visited: set<Txn> := [t], {t};
      ghost var way: map<Txn, seq<Txn>>, last: Txn := map[t := [t]], t;
      SearchStart(g, t);
      OutInVertices(g, t, t);
      while q != []
        invariant Searched(g, t, visited, q, last, {}, way)
        invariant SameEdges(g, waitsFor) && g.Keys <= waitsFor.Keys <= Vertices(g, t)
        invariant way.Keys == visited <= Vertices(g, t) && (forall v | v in q :: v in visited)
        decreases Vertices(g, t) - visited, |q|
      {
        var u := q[0];
        SearchNext(g, t, visited, q, last, way);
        ghost var visited0 := visited;
        q := q[1..];
        last := u;
        OutInVertices(g, t, u);
        if u !in waitsFor {
          NewVertex(g, waitsFor, u);
          waitsFor := waitsFor[u := {}];
        }
        SameOut(g, waitsFor, u);
        var todo := waitsFor[u];
        ghost var size := |q|;
        while todo != {}
          modifies {}
          invariant Searched(g, t, visited, q, u, todo, way) && u in visited && u !in q
          invariant todo <= Out(g, u) && visited0 <= visited == way.Keys <= Vertices(g, t) && (forall v | v in q :: v in visited)
          invariant visited == visited0 ==> |q| == size
          decreases todo
        {
          var v :| v in todo;
          if v !in visited {
            SearchNew(g, t, visited, q, u, todo, way, v);
            q := q + [v];
            visited := visited + {v};
            way := way[v := way[u] + [v]];
          } else {
            SearchSecondWay(g, t, visited, q, u, todo, way, v);
            return true;
          }
          todo := todo - {v};
        }
      }
      SearchDone(g, t, visited, last, way);
      r := false;
    }

    method AddEdge(t1: Txn, t2: Txn)
      modifies this`waitsFor
      ensures Edges(waitsFor) == Edges(old(waitsFor)) + {(t1, t2)}
      ensures waitsFor.Keys == old(waitsFor).Keys + {t1}
    {
      waitsFor := waitsFor[t1 := Out(waitsFor, t1) + {t2}];
    }

    /** removeAllEdge: the vertex and every edge to it. */
    method RemoveAllEdge(t2: Txn)
      modifies this`waitsFor
      ensures waitsFor == map u | u in old(waitsFor) && u != t2 :: old(waitsFor)[u] - {t2}
    {
      waitsFor := waitsFor - {t2};
      var todo := waitsFor.Keys;
      while todo != {}
        invariant todo <= waitsFor.Keys == old(waitsFor).Keys - {t2}
        invariant forall u | u in waitsFor :: waitsFor[u] == if u in todo then old(waitsFor)[u] else old(waitsFor)[u] - {t2}
        decreases todo
      {
        var t1 :| t1 in todo;
        waitsFor := waitsFor[t1 := waitsFor[t1] - {t2}];
        todo := todo - {t1};
      }
    }

    /** The next vertex of the map behind t. */
    method NextVertex(t: int) returns (r: int)
      requires t >= -1
      ensures r > t ==> r in waitsFor && forall u | u in waitsFor && u > t :: u >= r
      ensures r <= t ==> r == -1 && forall u | u in waitsFor :: u <= t
    {
      r := -1;
      var todo := waitsFor.Keys;
      while todo != {}
        invariant todo <= waitsFor.Keys
        invariant r == -1 || (r > t && r in waitsFor)
        invariant forall u | u in waitsFor && u > t && u !in todo :: r > t && r <= u
        decreases todo
      {
        var u :| u in todo;
        if u > t && (r == -1 || u < r) {
          r := u;
        }
        todo := todo - {u};
      }
    }

    /** RunCycleDetection: erases the edges of the first vertex whose reachable part is no tree. It erases nothing if and only
        if every vertex is the root of a tree; the graph then has no cycle, and keeps its edges. */
    method RunCycleDetection() returns (erased: int)
      modifies this`waitsFor
      ensures erased >= -1
      ensures erased == -1 <==> AllTrees(old(waitsFor))
      ensures erased == -1 ==> SameEdges(old(waitsFor), waitsFor) && Acyclic(old(waitsFor))
      ensures erased >= 0 ==>
        && erased in old(waitsFor) && !TreeFrom(old(waitsFor), erased)
        && (forall u | u in old(waitsFor) && u < erased :: TreeFrom(old(waitsFor), u))
        && forall u :: Out(waitsFor, u) == if u == erased then {} else Out(old(waitsFor), u)
    {
      hide TreeFrom, Acyclic;
      ghost var g, t0 := waitsFor, 0;
      erased := -1;
      var t1 := NextVertex(-1);
      while t1 >= 0
        invariant erased == -1 && t1 >= -1 && SameEdges(g, waitsFor) && g.Keys <= waitsFor.Keys <= Vertices(g, 0)
        invariant t1 >= 0 ==> t1 in waitsFor
        invariant forall u | u in g && (t1 < 0 || u < t1) :: TreeFrom(g, u)
        decreases t1 >= 0, From(Vertices(g, 0), t1)
      {
        ghost var here := waitsFor;
        SameTrees(g, waitsFor, t1);
        NoNewVertices(g, waitsFor, t1);
        var found := HasCycle(t1);
        if found {
          NoTreeHasEdges(g, t1);
          waitsFor := waitsFor - {t1};
          return t1;
        }
        var next := NextVertex(t1);
        FromShrinks(Vertices(g, 0), t1, next);
        t1 := if next > t1 then next else -1;
      }
      TreesAreAcyclic(g);
    }

    /** The detection thread on a graph that nobody else changes: every detection erases edges, until every vertex is the
        root of a tree, and so no cycle is left. Edges are only ever removed, and none is if and only if every vertex is the
        root of a tree from the start. */
    method RepeatCycleDetection()
      modifies this`waitsFor
      ensures AllTrees(waitsFor) && Acyclic(waitsFor)
      ensures Edges(waitsFor) <= Edges(old(waitsFor))
      ensures Edges(waitsFor) == Edges(old(waitsFor)) <==> AllTrees(old(waitsFor))
    {
      hide AllTrees, TreeFrom, Acyclic, Edges;
      ghost var g := waitsFor;
      var erased := 0;
      while erased >= 0
        invariant Edges(waitsFor) <= Edges(g)
        invariant Edges(waitsFor) == Edges(g) || !AllTrees(g)
        invariant Edges(waitsFor) == Edges(g) ==> SameEdges(g, waitsFor)
        invariant erased < 0 ==> AllTrees(waitsFor)
        decreases erased >= 0, Edges(waitsFor)
      {
        ghost var here := waitsFor;
        erased := RunCycleDetection();
        if erased >= 0 {
          NoTreeHasEdges(here, erased);
          FewerEdges(here, waitsFor, erased);
        }
        if erased < 0 {
          SameAllTrees(here, waitsFor);
          EdgesOfSame(here, waitsFor);
        }
        if Edges(here) == Edges(g) { SameAllTrees(g, here); }
        SameEdgesCompose(g, here, waitsFor);
      }
      if Edges(waitsFor) == Edges(g) { SameAllTrees(g, waitsFor); }
      TreesAreAcyclic(waitsFor);
    }
  }

  ghost function Edges(g: Graph): set<(Txn, Txn)> {
    set u, v | u in g && v in g[u] :: (u, v)
  }

  lemma FewerEdges(g: Graph, h: Graph, t: Txn)
    requires t in g && g[t] != {}
    requires forall u :: Out(h, u) == if u == t then {} else Out(g, u)
    ensures Edges(h) < Edges(g)
  {
    forall u, v | u in h && v in h[u] ensures (u, v) in Edges(g) {
      assert v in Out(h, u) && v in Out(g, u);
    }
    var v :| v in g[t];
    assert (t, v) in Edges(g) && (t, v) !in Edges(h) by { assert Out(h, t) == {}; }
  }

  lemma EdgesOfSame(g: Graph, h: Graph)
    ensures SameEdges(g, h) ==> Edges(g) == Edges(h)
  {
    if SameEdges(g, h) {
      forall u: Txn, v: Txn ensures (u, v) in Edges(g) <==> (u, v) in Edges(h) {
        assert (u, v) in Edges(g) <==> v in Out(g, u);
        assert (u, v) in Edges(h) <==> v in Out(h, u);
      }
    }
  }

  lemma SameEdgesCompose(g: Graph, h: Graph, k: Graph)
    ensures SameEdges(g, h) && SameEdges(h, k) ==> SameEdges(g, k)
  {
  }

  /** Trees depend on edges only. */
  lemma SameTrees(g: Graph, h: Graph, t: Txn)
    requires SameEdges(g, h)
    ensures TreeFrom(g, t) <==> TreeFrom(h, t)
  {
    forall p ensures PathFrom(g, t, p) <==> PathFrom(h, t, p) {
      assert p != [] ==> forall i | 0 <= i < |p| - 1 :: Out(g, p[i]) == Out(h, p[i]);
    }
  }

  lemma SameAllTrees(g: Graph, h: Graph)
    requires SameEdges(g, h)
    ensures AllTrees(g) <==> AllTrees(h)
  {
    hide TreeFrom;
    forall t ensures TreeFrom(g, t) <==> TreeFrom(h, t) {
      SameTrees(g, h, t);
    }
    forall t | !TreeFrom(g, t) ensures t in g && t in h {
      NoTreeHasEdges(g, t);
      NoTreeHasEdges(h, t);
    }
  }

  lemma NoNewVertices(g: Graph, h: Graph, t: Txn)
    requires SameEdges(g, h) && h.Keys <= Vertices(g, 0) && t in h
    ensures Vertices(h, t) <= Vertices(g, 0)
  {
    forall u, v | u in h && v in h[u] ensures v in Vertices(g, 0) {
      assert v in Out(h, u) && v in Out(g, u);
    }
  }

  lemma FirstEdge(g: Graph, p: seq<Txn>)
    requires IsPath(g, p)
    ensures |p| >= 2 ==> p[0+1] in Out(g, p[0])
  {
  }

  /** A vertex without edges is a tree. */
  lemma NoTreeHasEdges(g: Graph, t: Txn)
    requires !TreeFrom(g, t)
    ensures t in g && g[t] != {}
  {
    if Out(g, t) == {} {
      forall p | PathFrom(g, t, p) ensures p == [t] {
        FirstEdge(g, p);
      }
      assert false;
    }
  }
}
