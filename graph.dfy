// The graph engine: an undirected graph kept as adjacency lists (plain for
// the traversals, weighted for shortest paths), breadth-first and
// depth-first traversal, Dijkstra's algorithm and path reconstruction.
// The local vectors, queue, stack and priority queue of the traversals are
// values: seq<bool>, seq<int> and multiset<MinHeapNode>.
module Graphs {
  import opened GraphSpec
  import opened TraversalSpec
  import opened ShortestPathSpec

  /** The lists after appending the undirected edge u-v: v at the end of
      u's list, u at the end of v's list. */
  ghost predicate EdgeAppended<T>(a: seq<seq<T>>, b: seq<seq<T>>, u: int, v: int, toV: T, toU: T)
  {
    |b| == |a| &&
    forall x :: 0 <= x < |b| ==> b[x] == a[x] + (if x == u then [toV] else []) + (if x == v then [toU] else [])
  }

  lemma AppendEdge<T>(a: seq<seq<T>>, u: int, v: int, toV: T, toU: T)
    requires 0 <= u < |a| && 0 <= v < |a|
    ensures EdgeAppended(a, a[u := a[u] + [toV]][v := a[u := a[u] + [toV]][v] + [toU]], u, v, toV, toU)
  {
  }

  /** Counting one entry of a list after the append. */
  lemma AppendedCount<T>(ax: seq<T>, bx: seq<T>, x: int, u: int, v: int, toV: T, toU: T, e: T)
    requires bx == ax + (if x == u then [toV] else []) + (if x == v then [toU] else [])
    ensures multiset(bx)[e] == multiset(ax)[e]
              + (if x == u && e == toV then 1 else 0) + (if x == v && e == toU then 1 else 0)
  {
    var mid := ax + (if x == u then [toV] else []);
    assert multiset(mid) == multiset(ax) + multiset(if x == u then [toV] else []);
    assert multiset(bx) == multiset(mid) + multiset(if x == v then [toU] else []);
  }

  /** Counting one weighted entry of a list after the append. */
  lemma WeightedAppendedCount(ax: seq<WeightedEdge>, bx: seq<WeightedEdge>, x: int, u: int, v: int, w: int, y: int, c: int)
    requires bx == ax + (if x == u then [WeightedEdge(v, w)] else []) + (if x == v then [WeightedEdge(u, w)] else [])
    ensures multiset(bx)[WeightedEdge(y, c)] == multiset(ax)[WeightedEdge(y, c)]
              + (if x == u && y == v && c == w then 1 else 0) + (if x == v && y == u && c == w then 1 else 0)
  {
    AppendedCount(ax, bx, x, u, v, WeightedEdge(v, w), WeightedEdge(u, w), WeightedEdge(y, c));
  }

  /** One pair of lists after the append of a weighted edge u-v. */
  lemma WeightedPairSymmetric(oldX: seq<WeightedEdge>, oldY: seq<WeightedEdge>, newX: seq<WeightedEdge>, newY: seq<WeightedEdge>,
                              x: int, y: int, u: int, v: int, w: int, c: int)
    requires newX == oldX + (if x == u then [WeightedEdge(v, w)] else []) + (if x == v then [WeightedEdge(u, w)] else [])
    requires newY == oldY + (if y == u then [WeightedEdge(v, w)] else []) + (if y == v then [WeightedEdge(u, w)] else [])
    requires multiset(oldX)[WeightedEdge(y, c)] == multiset(oldY)[WeightedEdge(x, c)]
    ensures multiset(newX)[WeightedEdge(y, c)] == multiset(newY)[WeightedEdge(x, c)]
  {
    WeightedAppendedCount(oldX, newX, x, u, v, w, y, c);
    WeightedAppendedCount(oldY, newY, y, u, v, w, x, c);
  }

  /** Adding the undirected edge u-v to valid, symmetric lists keeps them
      valid and symmetric. */
  lemma EdgeKeepsSymmetric(a: seq<seq<int>>, b: seq<seq<int>>, u: int, v: int)
    requires ValidAdjacency(a) && Symmetric(a) && 0 <= u < |a| && 0 <= v < |a|
    requires EdgeAppended(a, b, u, v, v, u)
    ensures ValidAdjacency(b) && Symmetric(b)
  {
    forall x, e | 0 <= x < |b| && e in b[x]
      ensures 0 <= e < |b|
    {
      assert e in a[x] || e == v || e == u;
    }
    forall x, y | 0 <= x < |b| && 0 <= y < |b|
      ensures multiset(b[x])[y] == multiset(b[y])[x]
    {
      AppendedCount(a[x], b[x], x, u, v, v, u, y);
      AppendedCount(a[y], b[y], y, u, v, v, u, x);
    }
  }

  /** Appending a weighted edge between two vertices keeps every entry a
      vertex, and keeps every weight non-negative when the new one is. */
  lemma WeightedEdgeKeepsValid(a: seq<seq<WeightedEdge>>, b: seq<seq<WeightedEdge>>, u: int, v: int, w: int)
    requires WeightedInRange(a) && 0 <= u < |a| && 0 <= v < |a|
    requires EdgeAppended(a, b, u, v, WeightedEdge(v, w), WeightedEdge(u, w))
    ensures WeightedInRange(b)
    ensures ValidWeighted(a) && w >= 0 ==> ValidWeighted(b)
  {
    forall x, e | 0 <= x < |b| && e in b[x]
      ensures 0 <= e.vertex < |b| && (ValidWeighted(a) && w >= 0 ==> e.weight >= 0)
    {
      assert e in a[x] || e == WeightedEdge(v, w) || e == WeightedEdge(u, w);
    }
  }

  /** Appending a weighted edge keeps the lists symmetric. */
  lemma WeightedEdgeKeepsSymmetric(a: seq<seq<WeightedEdge>>, b: seq<seq<WeightedEdge>>, u: int, v: int, w: int)
    requires SymmetricWeighted(a) && 0 <= u < |a| && 0 <= v < |a|
    requires EdgeAppended(a, b, u, v, WeightedEdge(v, w), WeightedEdge(u, w))
    ensures SymmetricWeighted(b)
  {
    forall x, y, c | 0 <= x < |b| && 0 <= y < |b|
      ensures multiset(b[x])[WeightedEdge(y, c)] == multiset(b[y])[WeightedEdge(x, c)]
    {
      WeightedPairSymmetric(a[x], a[y], b[x], b[y], x, y, u, v, w, c);
    }
  }

  /** What the demonstration graph's six edges append to the lists of
      vertices 0-4. */
  function SampleLists(): seq<seq<int>>
  {
    [[1, 2], [0, 2, 3], [0, 1, 4], [1, 4], [2, 3]]
  }

  /** What the demonstration weighted graph's seven edges append to the
      weighted lists of vertices 0-4. */
  function SampleWeightedLists(): seq<seq<WeightedEdge>>
  {
    [[WeightedEdge(1, 4), WeightedEdge(2, 1)],
     [WeightedEdge(0, 4), WeightedEdge(2, 2), WeightedEdge(3, 5)],
     [WeightedEdge(0, 1), WeightedEdge(1, 2), WeightedEdge(3, 8), WeightedEdge(4, 10)],
     [WeightedEdge(1, 5), WeightedEdge(2, 8), WeightedEdge(4, 2)],
     [WeightedEdge(2, 10), WeightedEdge(3, 2)]]
  }

  /** The entries that appending the first n of the undirected edges es, in
      order, adds to vertex x's list; each edge is (u, v, entry for u's list,
      entry for v's list). */
  function AddedAt<T>(es: seq<(int, int, T, T)>, n: nat, x: int): seq<T>
    requires n <= |es|
  {
    if n == 0 then []
    else
      var (u, v, toV, toU) := es[n - 1];
      AddedAt(es, n - 1, x) + (if x == u then [toV] else []) + (if x == v then [toU] else [])
  }

  /** A run of n edge appends adds AddedAt(es, n, x) to the end of every list x. */
  lemma {:induction false} EdgesAppended<T>(gs: seq<seq<seq<T>>>, es: seq<(int, int, T, T)>, n: nat)
    requires n <= |es| && n < |gs|
    requires forall k :: 0 <= k < n ==> EdgeAppended(gs[k], gs[k + 1], es[k].0, es[k].1, es[k].2, es[k].3)
    ensures |gs[n]| == |gs[0]|
    ensures forall x :: 0 <= x < |gs[0]| ==> gs[n][x] == gs[0][x] + AddedAt(es, n, x)
  {
    if n > 0 {
      EdgesAppended(gs, es, n - 1);
      assert EdgeAppended(gs[n - 1], gs[n], es[n - 1].0, es[n - 1].1, es[n - 1].2, es[n - 1].3);
    }
  }

  /** A vertex that none of the first n edges touches gets nothing. */
  lemma {:induction false} AddedAtUntouched<T>(es: seq<(int, int, T, T)>, n: nat, x: int)
    requires n <= |es|
    requires forall k :: 0 <= k < n ==> es[k].0 != x && es[k].1 != x
    ensures AddedAt(es, n, x) == []
  {
    if n > 0 {
      AddedAtUntouched(es, n - 1, x);
    }
  }

  /** The edges of the demonstration graph, in the order they are added. */
  function SampleEdges(): seq<(int, int, int, int)>
  {
    [(0, 1, 1, 0), (0, 2, 2, 0), (1, 2, 2, 1), (1, 3, 3, 1), (2, 4, 4, 2), (3, 4, 4, 3)]
  }

  /** The six appends of the demonstration graph, one after another, add
      exactly SampleLists() to vertices 0-4. */
  lemma SampleBuilt(g0: seq<seq<int>>, g1: seq<seq<int>>, g2: seq<seq<int>>, g3: seq<seq<int>>,
                    g4: seq<seq<int>>, g5: seq<seq<int>>, g6: seq<seq<int>>)
    requires EdgeAppended(g0, g1, 0, 1, 1, 0)
    requires EdgeAppended(g1, g2, 0, 2, 2, 0)
    requires EdgeAppended(g2, g3, 1, 2, 2, 1)
    requires EdgeAppended(g3, g4, 1, 3, 3, 1)
    requires EdgeAppended(g4, g5, 2, 4, 4, 2)
    requires EdgeAppended(g5, g6, 3, 4, 4, 3)
    ensures |g6| == |g0|
    ensures forall x :: 0 <= x < |g6| ==> g6[x] == g0[x] + (if x < 5 then SampleLists()[x] else [])
  {
    var gs := [g0, g1, g2, g3, g4, g5, g6];
    var es := SampleEdges();
    forall k | 0 <= k < |es|
      ensures EdgeAppended(gs[k], gs[k + 1], es[k].0, es[k].1, es[k].2, es[k].3)
    {
      if k == 0 {} else if k == 1 {} else if k == 2 {} else if k == 3 {} else if k == 4 {}
    }
    EdgesAppended(gs, es, 6);
    forall x | 0 <= x < |g6|
      ensures g6[x] == g0[x] + (if x < 5 then SampleLists()[x] else [])
    {
      if x >= 5 {
        AddedAtUntouched(es, 6, x);
      } else {
        SampleAdded(x);
      }
    }
  }

  /** The six edges add SampleLists()[x] to vertex x. */
  lemma SampleAdded(x: int)
    requires 0 <= x < 5
    ensures AddedAt(SampleEdges(), 6, x) == SampleLists()[x]
  {
    if x == 0 {
    } else if x == 1 {
    } else if x == 2 {
    } else if x == 3 {
    }
  }

  /** The weighted edges of the demonstration graph, in the order they are added. */
  function SampleWeightedEdges(): seq<(int, int, WeightedEdge, WeightedEdge)>
  {
    [(0, 1, WeightedEdge(1, 4), WeightedEdge(0, 4)),
     (0, 2, WeightedEdge(2, 1), WeightedEdge(0, 1)),
     (1, 2, WeightedEdge(2, 2), WeightedEdge(1, 2)),
     (1, 3, WeightedEdge(3, 5), WeightedEdge(1, 5)),
     (2, 3, WeightedEdge(3, 8), WeightedEdge(2, 8)),
     (2, 4, WeightedEdge(4, 10), WeightedEdge(2, 10)),
     (3, 4, WeightedEdge(4, 2), WeightedEdge(3, 2))]
  }

  /** The seven appends of the weighted demonstration graph, one after
      another, add exactly SampleWeightedLists() to vertices 0-4. */
  lemma SampleWeightedBuilt(g0: seq<seq<WeightedEdge>>, g1: seq<seq<WeightedEdge>>, g2: seq<seq<WeightedEdge>>,
                            g3: seq<seq<WeightedEdge>>, g4: seq<seq<WeightedEdge>>, g5: seq<seq<WeightedEdge>>,
                            g6: seq<seq<WeightedEdge>>, g7: seq<seq<WeightedEdge>>)
    requires EdgeAppended(g0, g1, 0, 1, WeightedEdge(1, 4), WeightedEdge(0, 4))
    requires EdgeAppended(g1, g2, 0, 2, WeightedEdge(2, 1), WeightedEdge(0, 1))
    requires EdgeAppended(g2, g3, 1, 2, WeightedEdge(2, 2), WeightedEdge(1, 2))
    requires EdgeAppended(g3, g4, 1, 3, WeightedEdge(3, 5), WeightedEdge(1, 5))
    requires EdgeAppended(g4, g5, 2, 3, WeightedEdge(3, 8), WeightedEdge(2, 8))
    requires EdgeAppended(g5, g6, 2, 4, WeightedEdge(4, 10), WeightedEdge(2, 10))
    requires EdgeAppended(g6, g7, 3, 4, WeightedEdge(4, 2), WeightedEdge(3, 2))
    ensures |g7| == |g0|
    ensures forall x :: 0 <= x < |g7| ==> g7[x] == g0[x] + (if x < 5 then SampleWeightedLists()[x] else [])
  {
    var gs := [g0, g1, g2, g3, g4, g5, g6, g7];
    var es := SampleWeightedEdges();
    forall k | 0 <= k < |es|
      ensures EdgeAppended(gs[k], gs[k + 1], es[k].0, es[k].1, es[k].2, es[k].3)
    {
      if k == 0 {} else if k == 1 {} else if k == 2 {} else if k == 3 {} else if k == 4 {} else if k == 5 {}
    }
    EdgesAppended(gs, es, 7);
    forall x | 0 <= x < |g7|
      ensures g7[x] == g0[x] + (if x < 5 then SampleWeightedLists()[x] else [])
    {
      if x >= 5 {
        AddedAtUntouched(es, 7, x);
      } else {
        SampleWeightedAdded(x);
      }
    }
  }

  /** The seven weighted edges add SampleWeightedLists()[x] to vertex x. */
  lemma SampleWeightedAdded(x: int)
    requires 0 <= x < 5
    ensures AddedAt(SampleWeightedEdges(), 7, x) == SampleWeightedLists()[x]
  {
    if x == 0 {
    } else if x == 1 {
    } else if x == 2 {
    } else if x == 3 {
    }
  }

  class Graph {
    var vertices: int
    /** Neighbours of each vertex, in insertion order (BFS and DFS). */
    var adjList: seq<seq<int>>
    /** Neighbours with edge weights (Dijkstra). */
    var weightedAdjList: seq<seq<WeightedEdge>>

    /** One list per vertex, every entry a vertex, every edge listed at both
        ends, every weight non-negative. */
    ghost predicate Valid()
      reads this
    {
      && vertices >= 0
      && |adjList| == vertices && |weightedAdjList| == vertices
      && ValidAdjacency(adjList) && Symmetric(adjList)
      && WeightedInRange(weightedAdjList) && SymmetricWeighted(weightedAdjList)
    }

    /** A graph on v vertices and no edges. */
    constructor (v: int)
      requires v >= 0
      ensures Valid() && vertices == v
      ensures |adjList| == v && forall x :: 0 <= x < v ==> adjList[x] == []
      ensures |weightedAdjList| == v && forall x :: 0 <= x < v ==> weightedAdjList[x] == []
    {
      vertices := v;
      adjList := seq(v, _ => []);
      weightedAdjList := seq(v, _ => []);
    }

    /** Undirected edge u-v: v is appended to u's list, then u to v's list;
        a self-loop is listed twice and repeated edges are kept. */
    method AddEdge(u: int, v: int)
      requires Valid() && 0 <= u < vertices && 0 <= v < vertices
      modifies this
      ensures Valid()
      ensures vertices == old(vertices) && weightedAdjList == old(weightedAdjList)
      ensures EdgeAppended(old(adjList), adjList, u, v, v, u)
    {
      AppendEdge(adjList, u, v, v, u);
      ghost var a := adjList;
      adjList := adjList[u := adjList[u] + [v]];
      adjList := adjList[v := adjList[v] + [u]];
      EdgeKeepsSymmetric(a, adjList, u, v);
    }

    /** Undirected weighted edge u-v: (v, weight) is appended to u's list,
        then (u, weight) to v's list. */
    method AddWeightedEdge(u: int, v: int, weight: int)
      requires Valid() && 0 <= u < vertices && 0 <= v < vertices
      modifies this
      ensures Valid()
      ensures vertices == old(vertices) && adjList == old(adjList)
      ensures EdgeAppended(old(weightedAdjList), weightedAdjList, u, v, WeightedEdge(v, weight), WeightedEdge(u, weight))
    {
      AppendEdge(weightedAdjList, u, v, WeightedEdge(v, weight), WeightedEdge(u, weight));
      ghost var g := weightedAdjList;
      weightedAdjList := weightedAdjList[u := weightedAdjList[u] + [WeightedEdge(v, weight)]];
      weightedAdjList := weightedAdjList[v := weightedAdjList[v] + [WeightedEdge(u, weight)]];
      WeightedEdgeKeepsValid(g, weightedAdjList, u, v, weight);
      WeightedEdgeKeepsSymmetric(g, weightedAdjList, u, v, weight);
    }

    /** The demonstration graph on vertices 0-4: edges 0-1, 0-2, 1-2, 1-3,
        2-4, 3-4, added in that order. */
    method CreateSampleGraph()
      requires Valid() && vertices >= 5
      modifies this
      ensures Valid()
      ensures vertices == old(vertices) && weightedAdjList == old(weightedAdjList)
      ensures |adjList| == |old(adjList)|
      ensures forall x :: 0 <= x < |adjList| ==> adjList[x] == old(adjList[x]) + (if x < 5 then SampleLists()[x] else [])
    {
      ghost var g0 := adjList;
      AddEdge(0, 1);
      ghost var g1 := adjList;
      AddEdge(0, 2);
      ghost var g2 := adjList;
      AddEdge(1, 2);
      ghost var g3 := adjList;
      AddEdge(1, 3);
      ghost var g4 := adjList;
      AddEdge(2, 4);
      ghost var g5 := adjList;
      AddEdge(3, 4);
      SampleBuilt(g0, g1, g2, g3, g4, g5, adjList);
    }

    /** The demonstration weighted graph on vertices 0-4: edges 0-1 (4),
        0-2 (1), 1-2 (2), 1-3 (5), 2-3 (8), 2-4 (10), 3-4 (2), in that order. */
    method CreateSampleWeightedGraph()
      requires Valid() && vertices >= 5
      modifies this
      ensures Valid()
      ensures vertices == old(vertices) && adjList == old(adjList)
      ensures |weightedAdjList| == |old(weightedAdjList)|
      ensures forall x :: 0 <= x < |weightedAdjList| ==>
                weightedAdjList[x] == old(weightedAdjList[x]) + (if x < 5 then SampleWeightedLists()[x] else [])
    {
      ghost var g0 := weightedAdjList;
      AddWeightedEdge(0, 1, 4);
      ghost var g1 := weightedAdjList;
      AddWeightedEdge(0, 2, 1);
      ghost var g2 := weightedAdjList;
      AddWeightedEdge(1, 2, 2);
      ghost var g3 := weightedAdjList;
      AddWeightedEdge(1, 3, 5);
      ghost var g4 := weightedAdjList;
      AddWeightedEdge(2, 3, 8);
      ghost var g5 := weightedAdjList;
      AddWeightedEdge(2, 4, 10);
      ghost var g6 := weightedAdjList;
      AddWeightedEdge(3, 4, 2);
      ghost var g7 := weightedAdjList;
      SampleWeightedBuilt(g0, g1, g2, g3, g4, g5, g6, g7);
    }

    // ------------------------------------------------------ breadth-first

    /** Breadth-first search from startVertex: a vertex is marked when it is
        queued. Returns the vertices in the order they leave the queue; the
        ghost `level` gives each one's hop distance from the start. */
    method BFS(startVertex: int) returns (order: seq<int>, ghost level: seq<int>)
      requires Valid() && 0 <= startVertex < vertices
      ensures |order| > 0 && order[0] == startVertex && Distinct(order)
      ensures forall v :: 0 <= v < vertices ==> (v in order <==> Reachable(adjList, startVertex, v))
      ensures VerticesBelow(order, vertices) && |level| == vertices
      ensures forall v :: v in order ==> IsHopDistance(adjList, startVertex, v, level[v])
      ensures forall i, j :: 0 <= i < j < |order| ==> level[order[i]] <= level[order[j]]
    {
      var adj := adjList;
      var visited := seq(vertices, _ => false);
      var queue: seq<int> := [];
      visited := visited[startVertex := true];
      queue := queue + [startVertex];
      order := [];
      level := seq(vertices, _ => 0);
      BfsStart(adj, startVertex, visited, level);
      while queue != []
        invariant BfsInvariant(adj, startVertex, visited, order, queue, level)
        decreases Unmarked(visited), |queue|
      {
        ghost var visited0, queue0, level0 := visited, queue, level;
        var current := queue[0];
        queue := queue[1..];
        order := order + [current];
        visited, queue, level := EnqueueUnvisited(adj, current, visited, queue, level);
        BfsStep(adj, startVertex, visited0, order[..|order| - 1], queue0, level0, visited, level);
        assert order[..|order| - 1] + [current] == order;
      }
      BfsDone(adj, startVertex, visited, order, level);
    }

    /** Depth-first traversal from startVertex with an explicit stack: a
        popped vertex is processed only if unmarked, and its unmarked
        neighbours are pushed last to first. The result lists each reachable
        vertex exactly once, starting with startVertex. */
    method DFS(startVertex: int) returns (order: seq<int>)
      requires Valid() && 0 <= startVertex < vertices
      ensures |order| > 0 && order[0] == startVertex && Distinct(order)
      ensures VerticesBelow(order, vertices)
      ensures forall v :: 0 <= v < vertices ==> (v in order <==> Reachable(adjList, startVertex, v))
    {
      var adj := adjList;
      var visited := seq(vertices, _ => false);
      var stack: seq<int> := [startVertex];
      order := [];
      DfsStart(adj, startVertex, visited);
      while stack != []
        invariant DfsInvariant(adj, startVertex, visited, order, stack)
        decreases Unmarked(visited), |stack|
      {
        var current := stack[|stack| - 1];
        ghost var visited0, order0, stack0 := visited, order, stack;
        stack := stack[..|stack| - 1];
        if !visited[current] {
          MarkLowersUnmarked(visited, current);
          visited := visited[current := true];
          order := order + [current];
          stack := PushUnvisited(adj, current, visited, stack);
          DfsVisit(adj, startVertex, visited0, order0, stack0);
        } else {
          DfsSkip(adj, startVertex, visited, order, stack0);
        }
      }
      DfsDone(adj, startVertex, visited, order);
    }

    /** The push loop of the traversal: u's neighbours are walked from the
        last to the first and each unmarked one is pushed, so the stack gains
        the unmarked neighbours in reverse list order. */
    static method PushUnvisited(adj: seq<seq<int>>, u: int, visited: seq<bool>, stack: seq<int>)
      returns (stack': seq<int>)
      requires ValidAdjacency(adj) && 0 <= u < |adj| && |visited| == |adj|
      ensures VerticesBelow(adj[u], |adj|)
      ensures stack' == stack + Reverse(UnmarkedOf(visited, adj[u]))
    {
      var nbrs := adj[u];
      ListBelow(adj, u);
      stack' := stack;
      var i := |nbrs|;
      while i > 0
        invariant 0 <= i <= |nbrs|
        invariant stack' == stack + Reverse(UnmarkedOf(visited, nbrs[i..]))
      {
        i := i - 1;
        var neighbor := nbrs[i];
        assert nbrs[i..][1..] == nbrs[i + 1..] && nbrs[i..][0] == neighbor;
        if !visited[neighbor] {
          stack' := stack' + [neighbor];
        }
      }
      assert nbrs[0..] == nbrs;
    }

    /** The scan of u's list: every neighbour not yet marked is marked and
        queued, in list order, one level below u. */
    static method EnqueueUnvisited(adj: seq<seq<int>>, u: int, visited: seq<bool>, queue: seq<int>, ghost level: seq<int>)
      returns (visited': seq<bool>, queue': seq<int>, ghost level': seq<int>)
      requires ValidAdjacency(adj) && 0 <= u < |adj| && |visited| == |adj| && |level| == |adj|
      ensures queue' == queue + FirstUnmarked(visited, adj[u])
      ensures BfsScanned(adj, u, visited, level, visited', level')
      ensures Unmarked(visited') + |FirstUnmarked(visited, adj[u])| == Unmarked(visited)
    {
      visited', queue', level' := visited, queue, level;
      var nbrs := adj[u];
      ListBelow(adj, u);
      ScanStart(visited, level, level[u] + 1, nbrs);
      for k := 0 to |nbrs|
        invariant queue' == queue + FirstUnmarked(visited, nbrs[..k])
        invariant ScannedPrefix(visited, level, level[u] + 1, nbrs[..k], visited', level')
      {
        var neighbor := nbrs[k];
        assert nbrs[..k + 1] == nbrs[..k] + [neighbor];
        assert VerticesBelow(nbrs[..k], |visited|);
        if !visited'[neighbor] {
          ghost var visited0, level0 := visited', level';
          visited' := visited'[neighbor := true];
          queue' := queue' + [neighbor];
          level' := level'[neighbor := level[u] + 1];
          ScanMarks(visited, level, level[u] + 1, nbrs[..k], neighbor, visited0, level0, visited', level');
        } else {
          ScanSkips(visited, level, level[u] + 1, nbrs[..k], neighbor, visited', level');
        }
      }
      assert nbrs[..|nbrs|] == nbrs;
    }

    // ------------------------------------------------------------ Dijkstra

    /** Dijkstra's algorithm from startVertex over the weighted lists, with
        a priority queue that may hold stale entries: a popped entry of a
        settled vertex is skipped. Returns each vertex's distance (Infinity
        when unreachable), its parent on a shortest path (-1 for the start
        and the unreachable), and the order in which vertices were settled;
        the ghost `rank` numbers the settled vertices in that order. */
    method Dijkstra(startVertex: int) returns (dist: seq<Distance>, parent: seq<int>, order: seq<int>, ghost rank: seq<nat>)
      requires Valid() && ValidWeighted(weightedAdjList) && 0 <= startVertex < vertices
      ensures |dist| == vertices && |parent| == vertices
      ensures DijkstraResult(weightedAdjList, startVertex, dist, parent, order, rank)
    {
      var g := weightedAdjList;
      dist := seq(vertices, _ => Infinity);
      parent := seq(vertices, _ => -1);
      var visited := seq(vertices, _ => false);
      var pq: multiset<MinHeapNode> := multiset{};
      dist := dist[startVertex := Finite(0)];
      pq := pq + multiset{MinHeapNode(startVertex, 0)};
      order := [];
      rank := seq(vertices, _ => 0);
      DijkstraStart(g, startVertex);
      while pq != multiset{}
        invariant DijkstraInvariant(g, startVertex, dist, parent, visited, pq, order, rank)
        decreases Unmarked(visited), |pq|
      {
        visited, dist, parent, pq, order, rank := SettleNext(g, startVertex, visited, dist, parent, pq, order, rank);
      }
      DijkstraDone(g, startVertex, dist, parent, visited, order, rank);
    }

    /** One round of Dijkstra's loop: pop a top entry; if its vertex u is
        already settled, drop the stale entry; otherwise settle u (mark it,
        record it in the settle order) and relax its edges. */
    static method SettleNext(g: seq<seq<WeightedEdge>>, ghost s: int, visited: seq<bool>, dist: seq<Distance>,
                             parent: seq<int>, pq: multiset<MinHeapNode>, order: seq<int>, ghost rank: seq<nat>)
      returns (visited': seq<bool>, dist': seq<Distance>, parent': seq<int>, pq': multiset<MinHeapNode>,
               order': seq<int>, ghost rank': seq<nat>)
      requires DijkstraInvariant(g, s, dist, parent, visited, pq, order, rank) && pq != multiset{}
      ensures DijkstraInvariant(g, s, dist', parent', visited', pq', order', rank')
      ensures Unmarked(visited') < Unmarked(visited) || (visited' == visited && |pq'| < |pq|)
      ensures exists top :: SettleRound(g, top, visited, dist, parent, pq, order, visited', dist', parent', pq', order')
    {
      TopExists(pq);
      var top :| top in pq && IsTop(top, pq);
      var u := top.vertex;
      pq' := pq - multiset{top};
      if visited[u] {
        visited', dist', parent', order', rank' := visited, dist, parent, order, rank;
        DijkstraSkip(g, s, dist, parent, visited, pq, order, rank, top, pq');
      } else {
        MarkLowersUnmarked(visited, u);
        visited' := visited[u := true];
        order' := order + [u];
        rank' := rank[u := |order|];
        dist', parent', pq' := RelaxEdges(g, u, visited', dist, parent, pq');
        DijkstraVisit(g, s, dist, parent, visited, pq, order, rank, top, dist', parent', pq', visited', order', rank');
      }
      assert SettleRound(g, top, visited, dist, parent, pq, order, visited', dist', parent', pq', order');
    }

    /** The scan of u's weighted list: for each edge u-v of weight w in list
        order, when v is unsettled, u's distance is finite and du + w beats
        v's distance, v takes du + w and parent u and is queued at du + w.
        (A tie keeps the earlier parent.) */
    static method RelaxEdges(g: seq<seq<WeightedEdge>>, u: int, visited: seq<bool>, dist: seq<Distance>,
                             parent: seq<int>, pq: multiset<MinHeapNode>)
      returns (dist': seq<Distance>, parent': seq<int>, pq': multiset<MinHeapNode>)
      requires ValidWeighted(g) && 0 <= u < |g| && |visited| == |g| && |dist| == |g| && |parent| == |g|
      requires visited[u] && dist[u].Finite?
      ensures RelaxedBy(u, dist[u].value, g[u], visited, dist, parent, pq, dist', parent', pq')
    {
      dist', parent', pq' := dist, parent, pq;
      var edges := g[u];
      ghost var du := dist[u].value;
      RelaxStart(u, du, visited, dist, parent, pq);
      assert EdgesBelow(edges, |dist|);
      for k := 0 to |edges|
        invariant RelaxedBy(u, du, edges[..k], visited, dist, parent, pq, dist', parent', pq')
      {
        var v := edges[k].vertex;
        var weight := edges[k].weight;
        assert dist'[u] == Finite(du);
        ghost var d0, p0, q0 := dist', parent', pq';
        if !visited[v] && dist'[u].Finite? && Improves(dist'[u].value + weight, dist'[v]) {
          dist' := dist'[v := Finite(dist'[u].value + weight)];
          parent' := parent'[v := u];
          pq' := pq' + multiset{MinHeapNode(v, dist'[v].value)};
          RelaxStepLowers(u, du, edges, k, visited, dist, parent, pq, d0, p0, q0, dist', parent', pq');
        } else {
          RelaxStepKeeps(u, du, edges, k, visited, dist, parent, pq, d0, p0, q0);
        }
      }
      assert edges[..|edges|] == edges;
    }
  }

  // ---------------------------------------------------- path reconstruction

  /** The path printed for `target`: parent links followed from target back
      to a vertex without a parent, listed from that vertex to target. The
      ghost rank, lower at every parent, bounds the recursion. */
  function PathTo(parent: seq<int>, ghost rank: seq<nat>, target: int): (path: seq<int>)
    requires ParentsRanked(parent, rank) && 0 <= target < |parent|
    ensures |path| >= 1 && path[|path| - 1] == target
    ensures forall i :: 0 <= i < |path| ==> 0 <= path[i] < |parent|
    ensures parent[path[0]] == -1
    ensures forall i :: 0 < i < |path| ==> parent[path[i]] == path[i - 1]
    decreases rank[target]
  {
    if parent[target] == -1 then [target] else PathTo(parent, rank, parent[target]) + [target]
  }

  /** On a finished run, the path to a vertex with a finite distance is a
      walk from the start costing exactly that distance: a shortest path. */
  lemma {:induction false} PathIsShortest(g: seq<seq<WeightedEdge>>, s: int, dist: seq<Distance>, parent: seq<int>,
                                          rank: seq<nat>, target: int) returns (ws: seq<int>)
    requires ShortestPathTree(g, s, dist, parent, rank) && 0 <= target < |g| && dist[target].Finite?
    ensures ParentsRanked(parent, rank)
    ensures IsWeightedWalkFrom(g, s, target, PathTo(parent, rank, target), ws) && Total(ws) == dist[target].value
    decreases rank[target]
  {
    TreeIsRanked(g, s, dist, parent, rank);
    if parent[target] == -1 {
      ws := [];
      assert IsWeightedWalkFrom(g, s, target, [target], ws);
    } else {
      var p := parent[target];
      assert ParentEdge(g, dist, parent, target);
      var w :| WeightedEdge(target, w) in g[p] && dist[target].value == dist[p].value + w;
      var ws' := PathIsShortest(g, s, dist, parent, rank, p);
      WeightedWalkExtend(g, PathTo(parent, rank, p), ws', target, w);
      ws := ws' + [w];
    }
  }
}
