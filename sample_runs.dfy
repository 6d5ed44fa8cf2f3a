// The demonstration run of the engine: Dijkstra's algorithm from vertex 0
// over the weighted demonstration graph. Any result a finished run may
// return there is pinned down completely: distances, parents, the settle
// order and the printed paths.
module SampleRuns {
  import opened GraphSpec
  import opened ShortestPathSpec
  import opened Graphs

  /** The shortest distances from vertex 0 in the weighted demonstration graph. */
  function SampleDistances(): seq<int>
  {
    [0, 3, 1, 8, 10]
  }

  /** The sample weights are non-negative, and the shortest distances never
      drop by more than an edge's weight across it, so none of them can be
      undercut. */
  lemma SamplePotential()
    ensures ValidWeighted(SampleWeightedLists())
    ensures IsPotential(SampleWeightedLists(), SampleDistances())
  {
    var g, p := SampleWeightedLists(), SampleDistances();
    forall u, e: WeightedEdge | 0 <= u < |g| && e in g[u]
      ensures 0 <= e.vertex < |g| && e.weight >= 0 && p[e.vertex] <= p[u] + e.weight
    {
      if u == 0 {} else if u == 1 {} else if u == 2 {} else if u == 3 {}
    }
  }

  /** Each vertex is reached from 0 by a walk costing its distance:
      0-2-1 (3), 0-2 (1), 0-2-1-3 (8), 0-2-1-3-4 (10). */
  lemma SampleWalk(v: int) returns (vs: seq<int>, ws: seq<int>)
    requires 0 <= v < 5
    ensures IsWeightedWalkFrom(SampleWeightedLists(), 0, v, vs, ws) && Total(ws) == SampleDistances()[v]
  {
    var g := SampleWeightedLists();
    assert Total([1]) == 1;
    assert Total([1, 2]) == 3 by { assert [1, 2][..1] == [1]; }
    assert Total([1, 2, 5]) == 8 by { assert [1, 2, 5][..2] == [1, 2]; }
    assert Total([1, 2, 5, 2]) == 10 by { assert [1, 2, 5, 2][..3] == [1, 2, 5]; }
    if v == 0 {
      vs, ws := [0], [];
    } else if v == 1 {
      vs, ws := [0, 2, 1], [1, 2];
    } else if v == 2 {
      vs, ws := [0, 2], [1];
    } else if v == 3 {
      vs, ws := [0, 2, 1, 3], [1, 2, 5];
    } else {
      vs, ws := [0, 2, 1, 3, 4], [1, 2, 5, 2];
    }
    assert WeightedEdge(2, 1) in g[0] && WeightedEdge(1, 2) in g[2];
    assert WeightedEdge(3, 5) in g[1] && WeightedEdge(4, 2) in g[3];
  }

  /** SampleDistances() lists the shortest distance of every vertex. */
  lemma SampleShortest(v: int)
    requires 0 <= v < 5
    ensures IsShortestDistance(SampleWeightedLists(), 0, v, SampleDistances()[v])
  {
    var vs, ws := SampleWalk(v);
    SamplePotential();
    PotentialBoundsDistance(SampleWeightedLists(), SampleDistances(), 0, v);
  }

  /** A finished run's distances on the demonstration graph are
      0, 3, 1, 8 and 10. */
  lemma SampleRunDistances(dist: seq<Distance>, parent: seq<int>, order: seq<int>, rank: seq<nat>)
    requires DijkstraResult(SampleWeightedLists(), 0, dist, parent, order, rank)
    ensures dist == [Finite(0), Finite(3), Finite(1), Finite(8), Finite(10)]
  {
    var g := SampleWeightedLists();
    forall v | 0 <= v < 5
      ensures dist[v] == Finite(SampleDistances()[v])
    {
      var vs, ws := SampleWalk(v);
      assert WeightedReachable(g, 0, v);
      SampleShortest(v);
      ShortestDistanceUnique(g, 0, v, dist[v].value, SampleDistances()[v]);
    }
  }

  /** The only edge into v that accounts for v's distance comes from
      [-, 2, 0, 1, 3][v]: 1 via 2 (1 + 2), 2 via 0 (0 + 1), 3 via 1 (3 + 5),
      4 via 3 (8 + 2). */
  lemma SampleParent(dist: seq<Distance>, parent: seq<int>, v: int)
    requires dist == [Finite(0), Finite(3), Finite(1), Finite(8), Finite(10)]
    requires |parent| == 5 && 1 <= v < 5
    requires ParentEdge(SampleWeightedLists(), dist, parent, v)
    ensures parent[v] == [-1, 2, 0, 1, 3][v]
  {
    var g := SampleWeightedLists();
    var w :| WeightedEdge(v, w) in g[parent[v]] && dist[v].value == dist[parent[v]].value + w;
    if parent[v] == 0 {} else if parent[v] == 1 {} else if parent[v] == 2 {} else if parent[v] == 3 {}
  }

  /** The settle order follows the distances 0 < 1 < 3 < 8 < 10, so it is
      0, 2, 1, 3, 4. */
  lemma SampleOrder(dist: seq<Distance>, order: seq<int>)
    requires dist == [Finite(0), Finite(3), Finite(1), Finite(8), Finite(10)]
    requires Distinct(order) && VerticesBelow(order, 5)
    requires forall v :: 0 <= v < 5 ==> (v in order <==> dist[v].Finite?)
    requires forall i, j :: 0 <= i < j < |order| ==> dist[order[i]].Finite? && dist[order[i]].value <= dist[order[j]].value
    ensures order == [0, 2, 1, 3, 4]
  {
    assert 0 in order && 1 in order && 2 in order && 3 in order && 4 in order;
    var i0 :| 0 <= i0 < |order| && order[i0] == 0;
    var i1 :| 0 <= i1 < |order| && order[i1] == 1;
    var i2 :| 0 <= i2 < |order| && order[i2] == 2;
    var i3 :| 0 <= i3 < |order| && order[i3] == 3;
    var i4 :| 0 <= i4 < |order| && order[i4] == 4;
    assert i0 < i2 < i1 < i3 < i4;
    OrderSlot(order, 0, i0, i1, i2, i3, i4);
    OrderSlot(order, 1, i0, i1, i2, i3, i4);
    OrderSlot(order, 2, i0, i1, i2, i3, i4);
    OrderSlot(order, 3, i0, i1, i2, i3, i4);
    OrderSlot(order, 4, i0, i1, i2, i3, i4);
    if |order| > 5 {
      OrderSlot(order, 5, i0, i1, i2, i3, i4);
    }
    assert |order| == 5 && i0 == 0 && i2 == 1 && i1 == 2 && i3 == 3 && i4 == 4;
  }

  /** In an order without repeats over vertices 0-4, each position is where
      one of the five vertices sits. */
  lemma OrderSlot(order: seq<int>, j: int, i0: int, i1: int, i2: int, i3: int, i4: int)
    requires Distinct(order) && VerticesBelow(order, 5)
    requires 0 <= i0 < |order| && order[i0] == 0 && 0 <= i1 < |order| && order[i1] == 1
    requires 0 <= i2 < |order| && order[i2] == 2 && 0 <= i3 < |order| && order[i3] == 3
    requires 0 <= i4 < |order| && order[i4] == 4
    requires 0 <= j < |order|
    ensures j == i0 || j == i1 || j == i2 || j == i3 || j == i4
  {
    assert 0 <= order[j] < 5;
  }

  /** Every result a finished run from 0 may return on the demonstration
      graph: distances 0, 3, 1, 8, 10; parents -, 2, 0, 1, 3; settle order
      0, 2, 1, 3, 4; and the printed paths to 3 and 4 are 0 2 1 3 and
      0 2 1 3 4. */
  lemma SampleRun(dist: seq<Distance>, parent: seq<int>, order: seq<int>, rank: seq<nat>)
    requires DijkstraResult(SampleWeightedLists(), 0, dist, parent, order, rank)
    ensures dist == [Finite(0), Finite(3), Finite(1), Finite(8), Finite(10)]
    ensures parent == [-1, 2, 0, 1, 3]
    ensures order == [0, 2, 1, 3, 4]
    ensures ParentsRanked(parent, rank)
    ensures PathTo(parent, rank, 3) == [0, 2, 1, 3] && PathTo(parent, rank, 4) == [0, 2, 1, 3, 4]
  {
    var g := SampleWeightedLists();
    SampleRunDistances(dist, parent, order, rank);
    forall v | 1 <= v < 5
      ensures parent[v] == [-1, 2, 0, 1, 3][v]
    {
      SampleParent(dist, parent, v);
    }
    SampleOrder(dist, order);
    TreeIsRanked(g, 0, dist, parent, rank);
    SamplePaths(parent, rank);
  }

  /** Following the sample parents back from 3 and from 4. */
  lemma SamplePaths(parent: seq<int>, rank: seq<nat>)
    requires parent == [-1, 2, 0, 1, 3] && ParentsRanked(parent, rank)
    ensures PathTo(parent, rank, 3) == [0, 2, 1, 3] && PathTo(parent, rank, 4) == [0, 2, 1, 3, 4]
  {
    assert PathTo(parent, rank, 0) == [0];
    assert PathTo(parent, rank, 2) == [0, 2];
    assert PathTo(parent, rank, 1) == [0, 2, 1];
    assert PathTo(parent, rank, 3) == [0, 2, 1, 3];
  }

  /** The sample edges added to five empty lists give exactly the sample lists. */
  lemma SampleListsExact(g0: seq<seq<WeightedEdge>>, g: seq<seq<WeightedEdge>>)
    requires |g0| == 5 && forall x :: 0 <= x < 5 ==> g0[x] == []
    requires |g| == |g0| && forall x :: 0 <= x < |g| ==> g[x] == g0[x] + (if x < 5 then SampleWeightedLists()[x] else [])
    ensures g == SampleWeightedLists()
  {
    forall x | 0 <= x < 5
      ensures g[x] == SampleWeightedLists()[x]
    {
      assert g[x] == [] + SampleWeightedLists()[x];
    }
  }

  /** The demonstration: a graph on five vertices, the weighted sample
      edges, Dijkstra from 0, and the path printed for vertex 3. */
  method SampleShortestPaths() returns (dist: seq<Distance>, parent: seq<int>, order: seq<int>, path: seq<int>)
    ensures dist == [Finite(0), Finite(3), Finite(1), Finite(8), Finite(10)]
    ensures parent == [-1, 2, 0, 1, 3] && order == [0, 2, 1, 3, 4]
    ensures path == [0, 2, 1, 3]
  {
    var graph := new Graph(5);
    ghost var g0 := graph.weightedAdjList;
    graph.CreateSampleWeightedGraph();
    SampleListsExact(g0, graph.weightedAdjList);
    SamplePotential();
    ghost var rank;
    dist, parent, order, rank := graph.Dijkstra(0);
    SampleRun(dist, parent, order, rank);
    path := PathTo(parent, rank, 3);
  }
}
