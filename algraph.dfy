/** The adjacency-list graph of ds/algraph.go: a map from each source vertex to the list of its
    destinations, built from an edge list, and a depth-first count of the simple paths between
    two vertices. */
module AlGraphs {
  import opened Outcome
  import opened PathSets

  /** An `AlGraph`: the map is the whole state, and `GetMap` is the field `m`. */
  datatype AlGraph = AlGraph(m: map<string, seq<string>>)

  const InvalidEdgeError := "invalid edge format; must be a vertex couple"

  // ----- NewAlGraph -----

  /** Every edge is a vertex couple. */
  ghost predicate WellFormed(edges: seq<seq<string>>) {
    forall i :: 0 <= i < |edges| ==> |edges[i]| == 2
  }

  /** The sources of the couples among the edges. */
  ghost function Sources(edges: seq<seq<string>>): set<string> {
    set i | 0 <= i < |edges| && |edges[i]| == 2 :: edges[i][0]
  }

  /** The destinations of the couples leaving s, in edge order. */
  ghost function Targets(edges: seq<seq<string>>, s: string): seq<string> {
    if edges == [] then []
    else
      var e := edges[|edges| - 1];
      Targets(edges[..|edges| - 1], s) + (if |e| == 2 && e[0] == s then [e[1]] else [])
  }

  /** The adjacency lists the edges describe: each source mapped to its destinations in edge
      order, and no other key. */
  ghost function Adjacency(edges: seq<seq<string>>): map<string, seq<string>> {
    map s | s in Sources(edges) :: Targets(edges, s)
  }

  /** A vertex that is the source of no couple has no destinations. */
  lemma {:induction false} TargetsOfNonSource(edges: seq<seq<string>>, s: string)
    requires s !in Sources(edges)
    ensures Targets(edges, s) == []
    decreases |edges|
  {
    if edges != [] {
      var init := edges[..|edges| - 1];
      assert Sources(init) <= Sources(edges) by {
        forall t | t in Sources(init) ensures t in Sources(edges) {
          var i :| 0 <= i < |init| && |init[i]| == 2 && init[i][0] == t;
          assert edges[i] == init[i];
        }
      }
      TargetsOfNonSource(init, s);
    }
  }

  /** Adding a couple at the end appends its destination to its source's list, creating the
      list when the source is new. */
  lemma AdjacencySnoc(edges: seq<seq<string>>, e: seq<string>)
    requires |e| == 2
    ensures var a := Adjacency(edges);
      Adjacency(edges + [e]) == a[e[0] := (if e[0] in a then a[e[0]] else []) + [e[1]]]
  {
    var es := edges + [e];
    assert es[..|es| - 1] == edges;
    assert Sources(es) == Sources(edges) + {e[0]} by {
      forall t | t in Sources(es) ensures t in Sources(edges) + {e[0]} {
        var i :| 0 <= i < |es| && |es[i]| == 2 && es[i][0] == t;
        if i < |edges| {
          assert edges[i] == es[i];
        }
      }
      forall t | t in Sources(edges) ensures t in Sources(es) {
        var i :| 0 <= i < |edges| && |edges[i]| == 2 && edges[i][0] == t;
        assert es[i] == edges[i];
      }
      assert es[|edges|] == e;
    }
    var a := Adjacency(edges);
    var b := a[e[0] := (if e[0] in a then a[e[0]] else []) + [e[1]]];
    forall s | s in Sources(es) ensures Adjacency(es)[s] == b[s] {
      assert Targets(es, s) == Targets(edges, s) + (if s == e[0] then [e[1]] else []);
      if s !in Sources(edges) {
        TargetsOfNonSource(edges, s);
      }
    }
  }

  /** `NewAlGraph`: an edge that is not a vertex couple is an error; otherwise the graph maps
      each source to its destinations in edge order. */
  method NewAlGraph(edges: seq<seq<string>>) returns (r: Result<AlGraph>)
    ensures r.Err? <==> !WellFormed(edges)
    ensures r.Err? ==> r.msg == InvalidEdgeError
    ensures r.Ok? ==> r.value.m == Adjacency(edges)
  {
    var m: map<string, seq<string>> := map[];
    var i := 0;
    while i < |edges|
      invariant 0 <= i <= |edges|
      invariant WellFormed(edges[..i])
      invariant m == Adjacency(edges[..i])
    {
      var edge := edges[i];
      if |edge| != 2 {
        return Err(InvalidEdgeError);
      }
      var s, d := edge[0], edge[1];
      if s !in m {
        assert [] + [d] == [d];
        m := m[s := [d]];
      } else {
        m := m[s := m[s] + [d]];
      }
      AdjacencySnoc(edges[..i], edge);
      assert edges[..i + 1] == edges[..i] + [edge];
      i := i + 1;
    }
    assert edges[..i] == edges;
    r := Ok(AlGraph(m));
  }

  /** The edge list of the tests. */
  function ExampleEdges(): seq<seq<string>> {
    [["A", "B"], ["B", "C"], ["B", "E"], ["C", "E"], ["E", "D"]]
  }

  /** The graph of the tests. */
  function ExampleMap(): map<string, seq<string>> {
    map["A" := ["B"], "B" := ["C", "E"], "C" := ["E"], "E" := ["D"]]
  }

  /** The example edges, the first one and the first two. */
  lemma ExamplePrefixes()
    ensures Adjacency(ExampleEdges()[..1]) == map["A" := ["B"]]
    ensures Adjacency(ExampleEdges()[..2]) == map["A" := ["B"], "B" := ["C"]]
  {
    var es := ExampleEdges();
    var e0: seq<seq<string>> := [];
    assert Sources(e0) == {};
    assert Adjacency(e0) == map[];
    AdjacencySnoc(e0, ["A", "B"]);
    assert e0 + [["A", "B"]] == es[..1];
    assert [] + ["B"] == ["B"];
    AdjacencySnoc(es[..1], ["B", "C"]);
    assert es[..1] + [["B", "C"]] == es[..2];
    assert "B" != "A" by { assert "B"[0] != "A"[0]; }
    assert [] + ["C"] == ["C"];
  }

  /** The first three example edges. */
  lemma ExampleThreeEdges()
    ensures Adjacency(ExampleEdges()[..3]) == map["A" := ["B"], "B" := ["C", "E"]]
  {
    var es := ExampleEdges();
    ExamplePrefixes();
    AdjacencySnoc(es[..2], ["B", "E"]);
    assert es[..2] + [["B", "E"]] == es[..3];
    assert "B" != "A" by { assert "B"[0] != "A"[0]; }
    assert ["C"] + ["E"] == ["C", "E"];
  }

  /** The first four example edges. */
  lemma ExampleFourEdges()
    ensures Adjacency(ExampleEdges()[..4]) == map["A" := ["B"], "B" := ["C", "E"], "C" := ["E"]]
  {
    var es := ExampleEdges();
    ExampleThreeEdges();
    AdjacencySnoc(es[..3], ["C", "E"]);
    assert es[..3] + [["C", "E"]] == es[..4];
    assert "C" != "A" && "C" != "B" by { assert "C"[0] != "A"[0] && "C"[0] != "B"[0]; }
    assert [] + ["E"] == ["E"];
  }

  /** The example edges describe the example map: B keeps C before E, and D, a destination
      only, is not a key. */
  lemma ExampleAdjacency()
    ensures Adjacency(ExampleEdges()) == ExampleMap()
  {
    var es := ExampleEdges();
    ExampleFourEdges();
    AdjacencySnoc(es[..4], ["E", "D"]);
    assert es[..4] + [["E", "D"]] == es;
    assert "E" != "A" && "E" != "B" && "E" != "C" by {
      assert "E"[0] != "A"[0] && "E"[0] != "B"[0] && "E"[0] != "C"[0];
    }
    assert [] + ["D"] == ["D"];
  }

  /** The tests' edge list with a first edge of four vertices. */
  function MalformedEdges(): seq<seq<string>> {
    [["A", "B", "A", "E"], ["B", "C"], ["B", "E"], ["C", "E"], ["E", "D"]]
  }

  /** The two construction tests: the example edges give the example map, and the malformed
      list gives the error. */
  method ConstructExamples() returns (good: Result<AlGraph>, bad: Result<AlGraph>)
    ensures good == Ok(AlGraph(ExampleMap()))
    ensures bad == Err(InvalidEdgeError)
  {
    ExampleAdjacency();
    good := NewAlGraph(ExampleEdges());
    assert |MalformedEdges()[0]| != 2;
    bad := NewAlGraph(MalformedEdges());
  }

  // ----- numPaths -----

  /** What `numPaths(curr, end, visited)` returns when visited holds V: 1 at the end vertex
      (checked before the visited test), 0 at a vertex on the current path, otherwise the sum
      over the neighbours in list order with curr marked. A vertex with no list has none. */
  ghost function Count(m: map<string, seq<string>>, curr: string, end: string, V: set<string>): nat
    decreases |m.Keys - V|, 0
  {
    if curr == end then 1
    else if curr in V || curr !in m then 0
    else
      MarkShrinks(m.Keys, V, curr);
      CountAll(m, m[curr], end, V + {curr})
  }

  /** The sum of Count over a list of neighbours, with the same visited set for each. */
  ghost function CountAll(m: map<string, seq<string>>, ns: seq<string>, end: string, W: set<string>): nat
    decreases |m.Keys - W|, |ns| + 1
  {
    if ns == [] then 0
    else CountAll(m, ns[..|ns| - 1], end, W) + Count(m, ns[|ns| - 1], end, W)
  }

  /** `numPaths`: marks curr in the shared visited set, sums the counts of its neighbours in
      list order, and unmarks it. */
  method NumPathsFrom(g: AlGraph, curr: string, end: string, visited: KeySet, ghost V: set<string>)
    returns (count: int)
    requires visited.keys == V
    modifies visited
    ensures visited.keys == old(visited.keys)
    ensures count == Count(g.m, curr, end, V)
    ensures curr == end ==> count == 1
    ensures curr != end && curr in V ==> count == 0
    decreases |g.m.Keys - V|, 0
  {
    if curr == end {
      return 1;
    }
    if curr in visited.keys {
      return 0;
    }
    visited.keys := visited.keys + {curr};
    count := 0;
    if curr in g.m {
      ghost var W := V + {curr};
      MarkShrinks(g.m.Keys, V, curr);
      var ns := g.m[curr];
      var i := 0;
      while i < |ns|
        invariant 0 <= i <= |ns|
        invariant visited.keys == W
        invariant count == CountAll(g.m, ns[..i], end, W)
      {
        var n := NumPathsFrom(g, ns[i], end, visited, W);
        assert ns[..i + 1][..i] == ns[..i];
        count := count + n;
        i := i + 1;
      }
      assert ns[..|ns|] == ns;
    }
    visited.keys := visited.keys - {curr};
    assert visited.keys == V;
  }

  // ----- the paths that Count counts -----

  /** No neighbour list repeats a vertex. */
  ghost predicate DistinctNeighbours(m: map<string, seq<string>>) {
    forall s :: s in m ==> NoRepeats(m[s])
  }

  ghost predicate NoRepeats(ns: seq<string>) {
    forall i, j :: 0 <= i < j < |ns| ==> ns[i] != ns[j]
  }

  /** A simple path to end that avoids V: it ends at end, each step follows an edge, no vertex
      repeats, and no vertex before the last is end or in V. */
  ghost predicate SimplePath(m: map<string, seq<string>>, end: string, p: seq<string>, V: set<string>) {
    && |p| >= 1
    && p[|p| - 1] == end
    && (forall i :: 0 <= i < |p| - 1 ==> p[i] != end && p[i] !in V && p[i] in m && p[i + 1] in m[p[i]])
    && (forall i, j :: 0 <= i < j < |p| ==> p[i] != p[j])
  }

  /** The paths the search explores from curr, shaped like Count. */
  ghost function PathsFrom(m: map<string, seq<string>>, curr: string, end: string, V: set<string>): set<seq<string>>
    decreases |m.Keys - V|, 0
  {
    if curr == end then {[curr]}
    else if curr in V || curr !in m then {}
    else
      MarkShrinks(m.Keys, V, curr);
      PathsVia(m, curr, m[curr], end, V + {curr})
  }

  /** The paths from x that go on through one of the neighbours ns. */
  ghost function PathsVia(m: map<string, seq<string>>, x: string, ns: seq<string>, end: string, W: set<string>): set<seq<string>>
    decreases |m.Keys - W|, |ns| + 1
  {
    if ns == [] then {}
    else PathsVia(m, x, ns[..|ns| - 1], end, W) + Prepend(x, PathsFrom(m, ns[|ns| - 1], end, W))
  }

  /** A path through one of ns comes from one of ns. */
  lemma {:induction false} ViaOut(m: map<string, seq<string>>, x: string, ns: seq<string>, end: string, W: set<string>, p: seq<string>)
    returns (n: string)
    requires p in PathsVia(m, x, ns, end, W)
    ensures n in ns && p in Prepend(x, PathsFrom(m, n, end, W))
    decreases |ns|
  {
    var init := ns[..|ns| - 1];
    if p in PathsVia(m, x, init, end, W) {
      n := ViaOut(m, x, init, end, W, p);
      assert n in init;
    } else {
      n := ns[|ns| - 1];
    }
  }

  /** A path from x through any one of ns is among the paths through ns. */
  lemma {:induction false} ViaIn(m: map<string, seq<string>>, x: string, ns: seq<string>, end: string, W: set<string>, n: string, p: seq<string>)
    requires n in ns && p in Prepend(x, PathsFrom(m, n, end, W))
    ensures p in PathsVia(m, x, ns, end, W)
    decreases |ns|
  {
    var init := ns[..|ns| - 1];
    if n != ns[|ns| - 1] {
      assert n in init by {
        var k :| 0 <= k < |ns| && ns[k] == n;
        assert init[k] == n;
      }
      ViaIn(m, x, init, end, W, n, p);
    }
  }

  /** Putting x in front of a simple path from a neighbour of x gives a simple path from x. */
  lemma PrependSimple(m: map<string, seq<string>>, end: string, x: string, q: seq<string>, V: set<string>)
    requires x != end && x !in V && x in m
    requires SimplePath(m, end, q, V + {x}) && q[0] in m[x]
    ensures SimplePath(m, end, [x] + q, V)
  {
    var p := [x] + q;
    forall i | 0 <= i < |p| - 1
      ensures p[i] != end && p[i] !in V && p[i] in m && p[i + 1] in m[p[i]]
    {
      if i > 0 {
        assert p[i] == q[i - 1] && p[i + 1] == q[i];
      }
    }
    forall i, j | 0 <= i < j < |p| ensures p[i] != p[j] {
      if i > 0 {
        assert p[i] == q[i - 1] && p[j] == q[j - 1];
      } else {
        assert p[j] == q[j - 1];
      }
    }
  }

  /** Dropping the first vertex of a simple path that does not start at end leaves a simple
      path from a neighbour, avoiding the dropped vertex too. */
  lemma TailSimple(m: map<string, seq<string>>, end: string, p: seq<string>, V: set<string>)
    requires SimplePath(m, end, p, V) && p[0] != end
    ensures |p| >= 2 && p[0] !in V && p[0] in m && p[1] in m[p[0]]
    ensures SimplePath(m, end, p[1..], V + {p[0]})
  {
    var q := p[1..];
    forall i | 0 <= i < |q| - 1
      ensures q[i] != end && q[i] !in V + {p[0]} && q[i] in m && q[i + 1] in m[q[i]]
    {
      assert q[i] == p[i + 1] && q[i + 1] == p[i + 2];
    }
    forall i, j | 0 <= i < j < |q| ensures q[i] != q[j] {
      assert q[i] == p[i + 1] && q[j] == p[j + 1];
    }
  }

  /** A simple path that starts at end is the one-vertex path. */
  lemma StartsAtEnd(m: map<string, seq<string>>, end: string, p: seq<string>, V: set<string>)
    requires SimplePath(m, end, p, V) && p[0] == end
    ensures p == [end]
  {
    assert |p| == 1;
  }

  /** Every path PathsFrom collects is a simple path from curr. */
  lemma {:induction false} PathsFromSound(m: map<string, seq<string>>, curr: string, end: string, V: set<string>, p: seq<string>)
    requires p in PathsFrom(m, curr, end, V)
    ensures SimplePath(m, end, p, V) && p[0] == curr
    decreases |m.Keys - V|
  {
    if curr == end {
      assert p == [curr];
    } else if curr !in V && curr in m {
      var W := V + {curr};
      MarkShrinks(m.Keys, V, curr);
      var n := ViaOut(m, curr, m[curr], end, W, p);
      Unprepend(curr, PathsFrom(m, n, end, W), p);
      PathsFromSound(m, n, end, W, p[1..]);
      assert p == [curr] + p[1..];
      PrependSimple(m, end, curr, p[1..], V);
    }
  }

  /** Every simple path from curr is collected by PathsFrom. */
  lemma {:induction false} PathsFromComplete(m: map<string, seq<string>>, curr: string, end: string, V: set<string>, p: seq<string>)
    requires SimplePath(m, end, p, V) && p[0] == curr
    ensures p in PathsFrom(m, curr, end, V)
    decreases |m.Keys - V|
  {
    if curr == end {
      StartsAtEnd(m, end, p, V);
    } else {
      TailSimple(m, end, p, V);
      var W := V + {curr};
      MarkShrinks(m.Keys, V, curr);
      PathsFromComplete(m, p[1], end, W, p[1..]);
      assert p == [curr] + p[1..];
      ViaIn(m, curr, m[curr], end, W, p[1], p);
    }
  }

  /** PathsFrom holds exactly the simple paths from curr to end avoiding V. */
  lemma PathsFromExactly(m: map<string, seq<string>>, curr: string, end: string, V: set<string>, p: seq<string>)
    ensures p in PathsFrom(m, curr, end, V) <==> SimplePath(m, end, p, V) && p[0] == curr
  {
    if p in PathsFrom(m, curr, end, V) {
      PathsFromSound(m, curr, end, V, p);
    }
    if SimplePath(m, end, p, V) && p[0] == curr {
      PathsFromComplete(m, curr, end, V, p);
    }
  }

  /** A path through one of ns has one of ns second. */
  lemma SecondOfVia(m: map<string, seq<string>>, x: string, ns: seq<string>, end: string, W: set<string>, p: seq<string>)
    requires p in PathsVia(m, x, ns, end, W)
    ensures |p| >= 2 && p[1] in ns
  {
    var n := ViaOut(m, x, ns, end, W, p);
    Unprepend(x, PathsFrom(m, n, end, W), p);
    PathsFromSound(m, n, end, W, p[1..]);
  }

  /** With no repeated neighbour, Count is the number of simple paths from curr to end. */
  lemma {:induction false} CountIsNumberOfPaths(m: map<string, seq<string>>, curr: string, end: string, V: set<string>)
    requires DistinctNeighbours(m)
    ensures Count(m, curr, end, V) == |PathsFrom(m, curr, end, V)|
    decreases |m.Keys - V|, 0
  {
    if curr != end && curr !in V && curr in m {
      MarkShrinks(m.Keys, V, curr);
      CountAllIsNumberOfPaths(m, curr, m[curr], end, V + {curr});
    }
  }

  /** With no repeated neighbour, CountAll is the number of paths through the neighbours. */
  lemma {:induction false} CountAllIsNumberOfPaths(m: map<string, seq<string>>, x: string, ns: seq<string>, end: string, W: set<string>)
    requires DistinctNeighbours(m) && NoRepeats(ns)
    ensures CountAll(m, ns, end, W) == |PathsVia(m, x, ns, end, W)|
    decreases |m.Keys - W|, |ns| + 1
  {
    if ns != [] {
      var init, last := ns[..|ns| - 1], ns[|ns| - 1];
      var A, B := PathsVia(m, x, init, end, W), Prepend(x, PathsFrom(m, last, end, W));
      CountAllIsNumberOfPaths(m, x, init, end, W);
      CountIsNumberOfPaths(m, last, end, W);
      PrependCard(x, PathsFrom(m, last, end, W));
      assert last !in init by {
        forall k | 0 <= k < |init| ensures init[k] != last {
          assert init[k] == ns[k];
        }
      }
      forall p | p in A ensures |p| >= 2 && p[1] in init {
        SecondOfVia(m, x, init, end, W, p);
      }
      forall p | p in B ensures |p| >= 2 && p[1] == last {
        Unprepend(x, PathsFrom(m, last, end, W), p);
        PathsFromSound(m, last, end, W, p[1..]);
      }
      assert A !! B;
      assert |A + B| == |A| + |B|;
    }
  }

  /** `NumPaths`: the search from start with nothing visited; when no neighbour list repeats a
      vertex, the result is the number of simple paths from start to end. */
  method NumPaths(g: AlGraph, start: string, end: string) returns (n: int)
    ensures n == Count(g.m, start, end, {})
    ensures DistinctNeighbours(g.m) ==> n == |PathsFrom(g.m, start, end, {})|
  {
    var visited := new KeySet();
    n := NumPathsFrom(g, start, end, visited, {});
    if DistinctNeighbours(g.m) {
      CountIsNumberOfPaths(g.m, start, end, {});
    }
  }

  /** In the example graph, C reaches E in one way with A and B on the path. */
  lemma ExampleFromC()
    ensures Count(ExampleMap(), "C", "E", {"A", "B"}) == 1
  {
    var m := ExampleMap();
    assert m["C"] == ["E"];
    assert ["E"][..0] == [];
  }

  /** In the example graph, B reaches E in two ways: through C, and directly. */
  lemma ExampleFromB()
    ensures Count(ExampleMap(), "B", "E", {"A"}) == 2
  {
    var m := ExampleMap();
    ExampleFromC();
    var ns := m["B"];
    assert ns == ["C", "E"];
    assert ns[..1] == ["C"] && ns[..1][..0] == [];
    assert {"A"} + {"B"} == {"A", "B"};
  }

  /** In the example graph, A reaches E in two ways, both through B. */
  lemma ExampleFromA()
    ensures Count(ExampleMap(), "A", "E", {}) == 2
  {
    var m := ExampleMap();
    ExampleFromB();
    assert m["A"] == ["B"] && ["B"][..0] == [];
    assert {} + {"A"} == {"A"};
  }

  /** The path-count test: two paths lead from A to E. */
  method ExamplePaths() returns (n: int)
    ensures n == 2
  {
    var r := NewAlGraph(ExampleEdges());
    ExampleAdjacency();
    n := NumPaths(r.value, "A", "E");
    ExampleFromA();
  }
}
