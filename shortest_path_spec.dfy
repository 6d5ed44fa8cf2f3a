// Dijkstra's algorithm as a state machine over value-typed state: the
// priority-queue entries, tentative distances, and the invariants that make
// every settled distance a shortest one.
module ShortestPathSpec {
  import opened GraphSpec

  /** An entry of Dijkstra's priority queue. */
  datatype MinHeapNode = MinHeapNode(vertex: int, distance: int)

  /** The queue's ordering: a ranks below b (b is served first) when a's
      distance is greater. */
  predicate Compare(a: MinHeapNode, b: MinHeapNode)
  {
    a.distance > b.distance
  }

  /** A tentative distance; Infinity stands for the INT_MAX sentinel. */
  datatype Distance = Infinity | Finite(value: int)

  /** top is outranked by no entry of pq: the queue may serve it next. */
  predicate IsTop(top: MinHeapNode, pq: multiset<MinHeapNode>)
  {
    forall o :: o in pq ==> !Compare(top, o)
  }

  /** Every non-empty queue has a top. */
  lemma {:induction false} TopExists(pq: multiset<MinHeapNode>)
    requires |pq| > 0
    ensures exists top :: top in pq && IsTop(top, pq)
    decreases |pq|
  {
    var x :| x in pq;
    var rest := pq - multiset{x};
    assert pq == rest + multiset{x};
    if |rest| == 0 {
      assert rest == multiset{};
      assert IsTop(x, pq);
    } else {
      TopExists(rest);
      var m :| m in rest && IsTop(m, rest);
      var top := if m.distance <= x.distance then m else x;
      forall o | o in pq
        ensures !Compare(top, o)
      {
        if o != x {
          assert o in rest;
        }
      }
      assert top in pq && IsTop(top, pq);
    }
  }

  /** d, when it is finite, is no greater than c. */
  predicate AtMost(d: Distance, c: Distance)
  {
    c.Infinity? || (d.Finite? && d.value <= c.value)
  }

  /** The relaxation test: a candidate distance beats the current one (an
      infinite current distance is beaten by any candidate). */
  predicate Improves(candidate: int, current: Distance)
  {
    current.Infinity? || candidate < current.value
  }

  // ------------------------------------------------------- the relaxation

  /** Edge entries that name vertices below n and carry non-negative weights. */
  ghost predicate EdgesBelow(edges: seq<WeightedEdge>, n: int)
  {
    forall e :: e in edges ==> 0 <= e.vertex < n && e.weight >= 0
  }

  /** v's distance was lowered through u: some edge u-v of weight w makes
      du + w strictly better than v's old distance, which it replaces, and u
      becomes v's parent. */
  ghost predicate LoweredThrough(u: int, du: int, edges: seq<WeightedEdge>, v: int, before: Distance, after: Distance, p: int)
  {
    p == u && exists w :: WeightedEdge(v, w) in edges && after == Finite(du + w) && Improves(du + w, before)
  }

  /** The effect of relaxing the edges `edges` leaving u, at distance du:
      settled vertices are untouched; every other vertex either keeps its
      distance and parent or was lowered through one of the edges; each
      edge's far end, unless settled, ends no further than du plus the
      weight; the queue only gains entries, each for an unsettled vertex at
      no less than du and no less than its new distance; and every lowered
      vertex is queued at its new distance. */
  ghost predicate RelaxedBy(u: int, du: int, edges: seq<WeightedEdge>, visited: seq<bool>,
                            dist: seq<Distance>, parent: seq<int>, pq: multiset<MinHeapNode>,
                            dist': seq<Distance>, parent': seq<int>, pq': multiset<MinHeapNode>)
  {
    && |dist'| == |dist| == |visited| && |parent'| == |parent| == |dist| && EdgesBelow(edges, |dist|)
    && (forall v :: 0 <= v < |dist| && visited[v] ==> dist'[v] == dist[v] && parent'[v] == parent[v])
    && (forall e :: e in edges && !visited[e.vertex] ==> dist'[e.vertex].Finite? && dist'[e.vertex].value <= du + e.weight)
    && (forall v :: 0 <= v < |dist| ==>
          (dist'[v] == dist[v] && parent'[v] == parent[v]) || LoweredThrough(u, du, edges, v, dist[v], dist'[v], parent'[v]))
    && (forall e :: e in pq ==> e in pq')
    && (forall e :: e in pq' && e !in pq ==>
          0 <= e.vertex < |dist| && !visited[e.vertex] && dist'[e.vertex].Finite? &&
          dist'[e.vertex].value <= e.distance && du <= e.distance)
    && (forall v :: 0 <= v < |dist| && dist'[v] != dist[v] ==> MinHeapNode(v, dist'[v].value) in pq')
  }

  /** One round of Dijkstra's loop, popping `top`, a least entry of the
      queue: a stale entry of a settled vertex is dropped and nothing else
      changes; otherwise its vertex is marked, appended to the settle order
      and its edges are relaxed against the queue without `top`. */
  ghost predicate SettleRound(g: seq<seq<WeightedEdge>>, top: MinHeapNode,
                              visited: seq<bool>, dist: seq<Distance>, parent: seq<int>,
                              pq: multiset<MinHeapNode>, order: seq<int>,
                              visited': seq<bool>, dist': seq<Distance>, parent': seq<int>,
                              pq': multiset<MinHeapNode>, order': seq<int>)
  {
    && top in pq && IsTop(top, pq)
    && 0 <= top.vertex < |visited| == |dist| == |g|
    && if visited[top.vertex] then
         && visited' == visited && dist' == dist && parent' == parent && order' == order
         && pq' == pq - multiset{top}
       else
         && visited' == visited[top.vertex := true] && order' == order + [top.vertex]
         && dist[top.vertex].Finite?
         && RelaxedBy(top.vertex, dist[top.vertex].value, g[top.vertex], visited', dist, parent,
                      pq - multiset{top}, dist', parent', pq')
  }

  lemma RelaxStart(u: int, du: int, visited: seq<bool>, dist: seq<Distance>, parent: seq<int>, pq: multiset<MinHeapNode>)
    requires |dist| == |visited| == |parent|
    ensures RelaxedBy(u, du, [], visited, dist, parent, pq, dist, parent, pq)
  {
  }

  /** Relaxing the next edge u-v of weight w, when v is unsettled and du + w
      improves on v's current distance: v takes du + w and parent u and is
      queued at du + w. */
  lemma RelaxStepLowers(u: int, du: int, edges: seq<WeightedEdge>, k: int, visited: seq<bool>,
                        dist: seq<Distance>, parent: seq<int>, pq: multiset<MinHeapNode>,
                        dist': seq<Distance>, parent': seq<int>, pq': multiset<MinHeapNode>,
                        dist'': seq<Distance>, parent'': seq<int>, pq'': multiset<MinHeapNode>)
    requires 0 <= k < |edges| && EdgesBelow(edges, |dist|)
    requires RelaxedBy(u, du, edges[..k], visited, dist, parent, pq, dist', parent', pq')
    requires !visited[edges[k].vertex] && Improves(du + edges[k].weight, dist'[edges[k].vertex])
    requires dist'' == dist'[edges[k].vertex := Finite(du + edges[k].weight)] && parent'' == parent'[edges[k].vertex := u]
    requires pq'' == pq' + multiset{MinHeapNode(edges[k].vertex, du + edges[k].weight)}
    ensures RelaxedBy(u, du, edges[..k + 1], visited, dist, parent, pq, dist'', parent'', pq'')
  {
    var e := edges[k];
    var v, w := e.vertex, e.weight;
    var done, edges' := edges[..k], edges[..k + 1];
    assert edges' == done + [e];
    assert e in edges';
    assert LoweredThrough(u, du, edges', v, dist[v], dist''[v], parent''[v]);
    forall x | 0 <= x < |dist| && x != v
      ensures (dist''[x] == dist[x] && parent''[x] == parent[x]) || LoweredThrough(u, du, edges', x, dist[x], dist''[x], parent''[x])
    {
      if !(dist'[x] == dist[x] && parent'[x] == parent[x]) {
        var w' :| WeightedEdge(x, w') in done && dist'[x] == Finite(du + w') && Improves(du + w', dist[x]);
        assert WeightedEdge(x, w') in edges';
      }
    }
    forall f | f in edges' && !visited[f.vertex]
      ensures dist''[f.vertex].Finite? && dist''[f.vertex].value <= du + f.weight
    {
      if f != e {
        assert f in done;
      }
    }
  }

  /** Relaxing the next edge u-v when it does not qualify (v settled, or no
      strict improvement) changes nothing. */
  lemma RelaxStepKeeps(u: int, du: int, edges: seq<WeightedEdge>, k: int, visited: seq<bool>,
                       dist: seq<Distance>, parent: seq<int>, pq: multiset<MinHeapNode>,
                       dist': seq<Distance>, parent': seq<int>, pq': multiset<MinHeapNode>)
    requires 0 <= k < |edges| && EdgesBelow(edges, |dist|)
    requires RelaxedBy(u, du, edges[..k], visited, dist, parent, pq, dist', parent', pq')
    requires visited[edges[k].vertex] || !Improves(du + edges[k].weight, dist'[edges[k].vertex])
    ensures RelaxedBy(u, du, edges[..k + 1], visited, dist, parent, pq, dist', parent', pq')
  {
    var e := edges[k];
    var done, edges' := edges[..k], edges[..k + 1];
    assert edges' == done + [e];
    assert e in edges';
    forall x | 0 <= x < |dist| && !(dist'[x] == dist[x] && parent'[x] == parent[x])
      ensures LoweredThrough(u, du, edges', x, dist[x], dist'[x], parent'[x])
    {
      var w' :| WeightedEdge(x, w') in done && dist'[x] == Finite(du + w') && Improves(du + w', dist[x]);
      assert WeightedEdge(x, w') in edges';
    }
    forall f | f in edges' && !visited[f.vertex]
      ensures dist'[f.vertex].Finite? && dist'[f.vertex].value <= du + f.weight
    {
      if f != e {
        assert f in done;
      }
    }
  }

  /** Relaxation only ever lowers distances. */
  lemma RelaxOnlyLowers(u: int, du: int, edges: seq<WeightedEdge>, visited: seq<bool>,
                        dist: seq<Distance>, parent: seq<int>, pq: multiset<MinHeapNode>,
                        dist': seq<Distance>, parent': seq<int>, pq': multiset<MinHeapNode>)
    requires RelaxedBy(u, du, edges, visited, dist, parent, pq, dist', parent', pq')
    ensures forall v :: 0 <= v < |dist| ==> AtMost(dist'[v], dist[v])
  {
    forall v | 0 <= v < |dist|
      ensures AtMost(dist'[v], dist[v])
    {
      if !(dist'[v] == dist[v] && parent'[v] == parent[v]) {
        assert LoweredThrough(u, du, edges, v, dist[v], dist'[v], parent'[v]);
      }
    }
  }

  /** After relaxing u's edges, an unsettled vertex ends at exactly the
      smaller of its old distance and du plus the lightest edge from u to
      it: it is no greater than either, and it equals one of them. */
  lemma RelaxTakesMinimum(u: int, du: int, edges: seq<WeightedEdge>, visited: seq<bool>,
                          dist: seq<Distance>, parent: seq<int>, pq: multiset<MinHeapNode>,
                          dist': seq<Distance>, parent': seq<int>, pq': multiset<MinHeapNode>, v: int)
    requires RelaxedBy(u, du, edges, visited, dist, parent, pq, dist', parent', pq')
    requires 0 <= v < |dist| && !visited[v]
    ensures AtMost(dist'[v], dist[v])
    ensures forall w :: WeightedEdge(v, w) in edges ==> dist'[v].Finite? && dist'[v].value <= du + w
    ensures dist'[v] == dist[v] || exists w :: WeightedEdge(v, w) in edges && dist'[v] == Finite(du + w)
  {
    RelaxOnlyLowers(u, du, edges, visited, dist, parent, pq, dist', parent', pq');
    forall w | WeightedEdge(v, w) in edges
      ensures dist'[v].Finite? && dist'[v].value <= du + w
    {
      assert WeightedEdge(v, w).vertex == v;
    }
  }

  // ------------------------------------------------- the loop's invariant

  /** Sizes of Dijkstra's state over g: one entry per vertex. */
  ghost predicate DijkstraShape(g: seq<seq<WeightedEdge>>, s: int, dist: seq<Distance>, parent: seq<int>, visited: seq<bool>, rank: seq<nat>)
  {
    ValidWeighted(g) && 0 <= s < |g| && |dist| == |g| && |parent| == |g| && |visited| == |g| && |rank| == |g|
  }

  /** Every finite distance is non-negative and is the cost of some walk. */
  ghost predicate DistancesWitnessed(g: seq<seq<WeightedEdge>>, s: int, dist: seq<Distance>)
  {
    forall v :: 0 <= v < |dist| && dist[v].Finite? ==> dist[v].value >= 0 && HasWalkCosting(g, s, v, dist[v].value)
  }

  /** A vertex still at infinity has no parent and is not settled. */
  ghost predicate UnreachedBare(dist: seq<Distance>, parent: seq<int>, visited: seq<bool>)
    requires |parent| == |dist| == |visited|
  {
    forall v :: 0 <= v < |dist| && dist[v].Infinity? ==> parent[v] == -1 && !visited[v]
  }

  /** v's parent is a vertex, both distances are finite, and v's distance is
      its parent's plus the weight of an edge from the parent to v. */
  ghost predicate ParentEdge(g: seq<seq<WeightedEdge>>, dist: seq<Distance>, parent: seq<int>, v: int)
    requires 0 <= v < |dist| == |parent| == |g|
  {
    && 0 <= parent[v] < |g| && dist[parent[v]].Finite? && dist[v].Finite?
    && exists w :: WeightedEdge(v, w) in g[parent[v]] && dist[v].value == dist[parent[v]].value + w
  }

  /** The parent links during the run: the start is at 0 with no parent;
      every other vertex with a finite distance has a settled parent
      across an edge accounting for its distance, settled earlier than it. */
  ghost predicate ParentsSettled(g: seq<seq<WeightedEdge>>, s: int, dist: seq<Distance>, parent: seq<int>, visited: seq<bool>, rank: seq<nat>)
    requires DijkstraShape(g, s, dist, parent, visited, rank)
  {
    && dist[s] == Finite(0) && parent[s] == -1
    && forall v :: 0 <= v < |g| && v != s && dist[v].Finite? ==>
         ParentEdge(g, dist, parent, v) && visited[parent[v]] && (visited[v] ==> rank[parent[v]] < rank[v])
  }

  /** Settled vertices carry a finite distance no walk undercuts. */
  ghost predicate SettledShortest(g: seq<seq<WeightedEdge>>, s: int, dist: seq<Distance>, visited: seq<bool>)
    requires |dist| == |visited|
  {
    forall v :: 0 <= v < |dist| && visited[v] ==> dist[v].Finite? && NoCheaperWalk(g, s, v, dist[v].value)
  }

  /** Every edge leaving a settled vertex has been relaxed. */
  ghost predicate SettledRelaxed(g: seq<seq<WeightedEdge>>, dist: seq<Distance>, visited: seq<bool>)
    requires |dist| == |visited| == |g|
  {
    forall u, e :: 0 <= u < |g| && visited[u] && e in g[u] ==>
      && dist[u].Finite? && 0 <= e.vertex < |g| && dist[e.vertex].Finite?
      && dist[e.vertex].value <= dist[u].value + e.weight
  }

  /** Every queue entry names a vertex whose distance is at most the entry's
      (older entries may be stale, never optimistic). */
  ghost predicate QueueSound(dist: seq<Distance>, pq: multiset<MinHeapNode>)
  {
    forall e :: e in pq ==> 0 <= e.vertex < |dist| && dist[e.vertex].Finite? && dist[e.vertex].value <= e.distance
  }

  /** Every unsettled vertex with a finite distance is queued at it. */
  ghost predicate QueueComplete(dist: seq<Distance>, visited: seq<bool>, pq: multiset<MinHeapNode>)
    requires |dist| == |visited|
  {
    forall v :: 0 <= v < |dist| && !visited[v] && dist[v].Finite? ==> MinHeapNode(v, dist[v].value) in pq
  }

  /** Settled distances are no greater than any queued one. */
  ghost predicate SettledFirst(dist: seq<Distance>, visited: seq<bool>, pq: multiset<MinHeapNode>)
    requires |dist| == |visited|
  {
    forall u, e :: 0 <= u < |dist| && visited[u] && e in pq ==> dist[u].Finite? && dist[u].value <= e.distance
  }

  /** `order` lists the settled vertices, rank giving each one's position,
      in non-decreasing distance. */
  ghost predicate SettleOrder(dist: seq<Distance>, visited: seq<bool>, order: seq<int>, rank: seq<nat>)
    requires |dist| == |visited| == |rank|
  {
    && VerticesBelow(order, |dist|)
    && (forall i :: 0 <= i < |order| ==> rank[order[i]] == i)
    && (forall v :: 0 <= v < |dist| ==> (visited[v] <==> v in order))
    && (forall i, j :: 0 <= i < j < |order| ==> AtMost(dist[order[i]], dist[order[j]]))
  }

  ghost predicate DijkstraInvariant(g: seq<seq<WeightedEdge>>, s: int, dist: seq<Distance>, parent: seq<int>,
                                    visited: seq<bool>, pq: multiset<MinHeapNode>, order: seq<int>, rank: seq<nat>)
  {
    && DijkstraShape(g, s, dist, parent, visited, rank)
    && DistancesWitnessed(g, s, dist)
    && UnreachedBare(dist, parent, visited)
    && ParentsSettled(g, s, dist, parent, visited, rank)
    && SettledShortest(g, s, dist, visited)
    && SettledRelaxed(g, dist, visited)
    && QueueSound(dist, pq)
    && QueueComplete(dist, visited, pq)
    && SettledFirst(dist, visited, pq)
    && SettleOrder(dist, visited, order, rank)
  }

  /** The state after initialisation: the start at 0 and queued, every other
      vertex at infinity, no parents, nothing settled. */
  lemma DijkstraStart(g: seq<seq<WeightedEdge>>, s: int)
    requires ValidWeighted(g) && 0 <= s < |g|
    ensures DijkstraInvariant(g, s, seq(|g|, _ => Infinity)[s := Finite(0)], seq(|g|, _ => -1),
                              seq(|g|, _ => false), multiset{MinHeapNode(s, 0)}, [], seq(|g|, _ => 0))
  {
    StartCostsNothing(g, s);
  }

  /** Popping an entry of a settled vertex changes nothing but the queue. */
  lemma DijkstraSkip(g: seq<seq<WeightedEdge>>, s: int, dist: seq<Distance>, parent: seq<int>,
                     visited: seq<bool>, pq: multiset<MinHeapNode>, order: seq<int>, rank: seq<nat>,
                     top: MinHeapNode, pq': multiset<MinHeapNode>)
    requires DijkstraInvariant(g, s, dist, parent, visited, pq, order, rank)
    requires top in pq && 0 <= top.vertex < |g| && visited[top.vertex] && pq' == pq - multiset{top}
    ensures DijkstraInvariant(g, s, dist, parent, visited, pq', order, rank)
  {
    forall v | 0 <= v < |dist| && !visited[v] && dist[v].Finite?
      ensures MinHeapNode(v, dist[v].value) in pq'
    {
      var e := MinHeapNode(v, dist[v].value);
      assert e in pq && e != top;
      assert pq'[e] == pq[e];
    }
  }

  // ------------------------------------------------------- the settle step

  /** A walk from the start ends at a settled vertex or costs at least m,
      when m is no greater than any queued distance: to leave the settled
      set it must cross a relaxed edge into a vertex queued at no more than
      the walk's cost so far. */
  lemma {:induction false} WalkMeetsQueue(g: seq<seq<WeightedEdge>>, s: int, dist: seq<Distance>, parent: seq<int>,
                                          visited: seq<bool>, pq: multiset<MinHeapNode>, order: seq<int>, rank: seq<nat>,
                                          m: int, vs: seq<int>, ws: seq<int>)
    requires DijkstraInvariant(g, s, dist, parent, visited, pq, order, rank)
    requires forall e :: e in pq ==> m <= e.distance
    requires IsWeightedWalk(g, vs, ws) && vs[0] == s
    ensures visited[vs[|vs| - 1]] || Total(ws) >= m
    decreases |ws|
  {
    var x := vs[|vs| - 1];
    if |ws| == 0 {
      if !visited[s] {
        assert MinHeapNode(s, 0) in pq;
      }
    } else if !visited[x] {
      WeightedWalkPrefix(g, vs, ws);
      var vs', ws' := vs[..|vs| - 1], ws[..|ws| - 1];
      var y, w := vs'[|vs'| - 1], ws[|ws| - 1];
      WalkMeetsQueue(g, s, dist, parent, visited, pq, order, rank, m, vs', ws');
      assert WeightedEdge(x, w) in g[y];
      if visited[y] {
        assert IsWeightedWalkFrom(g, s, y, vs', ws');
        assert MinHeapNode(x, dist[x].value) in pq;
      } else {
        assert WeightedEdge(x, w).weight >= 0;
      }
    }
  }

  /** The vertex of a top entry that is not yet settled already has its
      shortest distance. */
  lemma SettleTop(g: seq<seq<WeightedEdge>>, s: int, dist: seq<Distance>, parent: seq<int>,
                  visited: seq<bool>, pq: multiset<MinHeapNode>, order: seq<int>, rank: seq<nat>, top: MinHeapNode)
    requires DijkstraInvariant(g, s, dist, parent, visited, pq, order, rank)
    requires top in pq && IsTop(top, pq)
    requires 0 <= top.vertex < |g| && !visited[top.vertex]
    ensures dist[top.vertex].Finite? && IsShortestDistance(g, s, top.vertex, dist[top.vertex].value)
    ensures forall e :: e in pq ==> dist[top.vertex].value <= e.distance
  {
    var u := top.vertex;
    var du := dist[u].value;
    forall vs, ws | IsWeightedWalkFrom(g, s, u, vs, ws)
      ensures Total(ws) >= du
    {
      WalkMeetsQueue(g, s, dist, parent, visited, pq, order, rank, du, vs, ws);
    }
  }

  // -------------------------------------------------------- the visit step

  /** One visit: top is a top entry of pq whose vertex u is unsettled; u is
      settled, the entry popped, and u's edges relaxed, from the old state
      to dist', parent', pq'. */
  ghost predicate VisitStep(g: seq<seq<WeightedEdge>>, s: int, dist: seq<Distance>, parent: seq<int>,
                            visited: seq<bool>, pq: multiset<MinHeapNode>, order: seq<int>, rank: seq<nat>,
                            top: MinHeapNode, dist': seq<Distance>, parent': seq<int>, pq': multiset<MinHeapNode>)
  {
    && DijkstraInvariant(g, s, dist, parent, visited, pq, order, rank)
    && top in pq && IsTop(top, pq) && 0 <= top.vertex < |g| && !visited[top.vertex]
    && RelaxedBy(top.vertex, dist[top.vertex].value, g[top.vertex], visited[top.vertex := true],
                 dist, parent, pq - multiset{top}, dist', parent', pq')
  }

  /** What a visit can rely on: u's distance is finite, shortest, no greater
      than any queued one and at least every settled one; distances only
      fall, and settled ones (u among them) stay put. */
  lemma VisitFacts(g: seq<seq<WeightedEdge>>, s: int, dist: seq<Distance>, parent: seq<int>,
                   visited: seq<bool>, pq: multiset<MinHeapNode>, order: seq<int>, rank: seq<nat>,
                   top: MinHeapNode, dist': seq<Distance>, parent': seq<int>, pq': multiset<MinHeapNode>)
    requires VisitStep(g, s, dist, parent, visited, pq, order, rank, top, dist', parent', pq')
    ensures var u := top.vertex;
            && dist[u].Finite? && dist[u].value >= 0 && dist'[u] == dist[u] && parent'[u] == parent[u]
            && NoCheaperWalk(g, s, u, dist[u].value)
            && MinHeapNode(u, dist[u].value) in pq
            && (forall e :: e in pq ==> dist[u].value <= e.distance)
            && (forall y :: 0 <= y < |g| && visited[y] ==> dist[y].Finite? && dist[y].value <= dist[u].value)
            && (forall v :: 0 <= v < |g| ==> AtMost(dist'[v], dist[v]))
            && (forall e :: e in pq - multiset{top} ==> e in pq)
  {
    var u := top.vertex;
    SettleTop(g, s, dist, parent, visited, pq, order, rank, top);
    RelaxOnlyLowers(u, dist[u].value, g[u], visited[u := true], dist, parent, pq - multiset{top}, dist', parent', pq');
    assert MinHeapNode(u, dist[u].value) in pq;
  }

  lemma VisitKeepsWitnessed(g: seq<seq<WeightedEdge>>, s: int, u: int, du: int, visited': seq<bool>,
                            dist: seq<Distance>, parent: seq<int>, pq: multiset<MinHeapNode>,
                            dist': seq<Distance>, parent': seq<int>, pq': multiset<MinHeapNode>)
    requires ValidWeighted(g) && 0 <= u < |g| == |dist|
    requires dist[u] == Finite(du) && DistancesWitnessed(g, s, dist)
    requires RelaxedBy(u, du, g[u], visited', dist, parent, pq, dist', parent', pq')
    ensures DistancesWitnessed(g, s, dist')
  {
    forall v | 0 <= v < |dist'| && dist'[v].Finite?
      ensures dist'[v].value >= 0 && HasWalkCosting(g, s, v, dist'[v].value)
    {
      if !(dist'[v] == dist[v] && parent'[v] == parent[v]) {
        var w :| WeightedEdge(v, w) in g[u] && dist'[v] == Finite(du + w) && Improves(du + w, dist[v]);
        WeightedWalkStep(g, s, u, v, w, du);
      }
    }
  }

  lemma VisitKeepsBare(u: int, du: int, edges: seq<WeightedEdge>, visited: seq<bool>,
                       dist: seq<Distance>, parent: seq<int>, pq: multiset<MinHeapNode>,
                       dist': seq<Distance>, parent': seq<int>, pq': multiset<MinHeapNode>)
    requires |dist| == |visited| == |parent| && 0 <= u < |dist| && dist[u].Finite?
    requires UnreachedBare(dist, parent, visited)
    requires RelaxedBy(u, du, edges, visited[u := true], dist, parent, pq, dist', parent', pq')
    ensures UnreachedBare(dist', parent', visited[u := true])
  {
    forall v | 0 <= v < |dist'| && dist'[v].Infinity?
      ensures parent'[v] == -1 && !visited[u := true][v]
    {
    }
  }

  lemma VisitKeepsParents(g: seq<seq<WeightedEdge>>, s: int, u: int, du: int, visited: seq<bool>, order: seq<int>, rank: seq<nat>,
                          dist: seq<Distance>, parent: seq<int>, pq: multiset<MinHeapNode>,
                          dist': seq<Distance>, parent': seq<int>, pq': multiset<MinHeapNode>)
    requires DijkstraShape(g, s, dist, parent, visited, rank) && 0 <= u < |g| && !visited[u]
    requires dist[u] == Finite(du) && du >= 0
    requires ParentsSettled(g, s, dist, parent, visited, rank)
    requires forall y :: 0 <= y < |g| && visited[y] ==> rank[y] < |order|
    requires RelaxedBy(u, du, g[u], visited[u := true], dist, parent, pq, dist', parent', pq')
    ensures DijkstraShape(g, s, dist', parent', visited[u := true], rank[u := |order|])
    ensures ParentsSettled(g, s, dist', parent', visited[u := true], rank[u := |order|])
  {
    var visited', rank' := visited[u := true], rank[u := |order|];
    if !(dist'[s] == dist[s] && parent'[s] == parent[s]) {
      assert false;
    }
    forall v | 0 <= v < |g| && v != s && dist'[v].Finite?
      ensures ParentEdge(g, dist', parent', v) && visited'[parent'[v]] && (visited'[v] ==> rank'[parent'[v]] < rank'[v])
    {
      if dist'[v] == dist[v] && parent'[v] == parent[v] {
        var p := parent[v];
        assert ParentEdge(g, dist, parent, v) && visited[p];
        var w :| WeightedEdge(v, w) in g[p] && dist[v].value == dist[p].value + w;
        assert dist'[p] == dist[p];
      } else {
        var w :| WeightedEdge(v, w) in g[u] && dist'[v] == Finite(du + w) && Improves(du + w, dist[v]);
        assert dist'[u] == dist[u];
      }
    }
  }

  lemma VisitKeepsSettled(g: seq<seq<WeightedEdge>>, s: int, u: int, du: int, visited: seq<bool>,
                          dist: seq<Distance>, dist': seq<Distance>)
    requires |dist| == |visited| == |g| == |dist'| && 0 <= u < |g|
    requires dist[u] == Finite(du) && NoCheaperWalk(g, s, u, du)
    requires SettledShortest(g, s, dist, visited)
    requires forall v :: 0 <= v < |g| && visited[u := true][v] ==> dist'[v] == dist[v]
    ensures SettledShortest(g, s, dist', visited[u := true])
  {
  }

  lemma VisitKeepsRelaxed(g: seq<seq<WeightedEdge>>, u: int, du: int, visited: seq<bool>,
                          dist: seq<Distance>, parent: seq<int>, pq: multiset<MinHeapNode>,
                          dist': seq<Distance>, parent': seq<int>, pq': multiset<MinHeapNode>)
    requires ValidWeighted(g) && |dist| == |visited| == |g| == |dist'| && 0 <= u < |g| && dist[u] == Finite(du)
    requires SettledRelaxed(g, dist, visited)
    requires forall y :: 0 <= y < |g| && visited[y] ==> dist[y].Finite? && dist[y].value <= du
    requires forall v :: 0 <= v < |g| ==> AtMost(dist'[v], dist[v])
    requires RelaxedBy(u, du, g[u], visited[u := true], dist, parent, pq, dist', parent', pq')
    ensures SettledRelaxed(g, dist', visited[u := true])
  {
    var visited' := visited[u := true];
    forall x, e | 0 <= x < |g| && visited'[x] && e in g[x]
      ensures dist'[x].Finite? && 0 <= e.vertex < |g| && dist'[e.vertex].Finite? && dist'[e.vertex].value <= dist'[x].value + e.weight
    {
      if x == u && visited'[e.vertex] && e.vertex != u {
        assert dist'[e.vertex] == dist[e.vertex];
      }
    }
  }

  lemma VisitKeepsQueue(u: int, du: int, edges: seq<WeightedEdge>, top: MinHeapNode, visited: seq<bool>,
                        dist: seq<Distance>, parent: seq<int>, pq: multiset<MinHeapNode>,
                        dist': seq<Distance>, parent': seq<int>, pq': multiset<MinHeapNode>)
    requires |dist| == |visited| == |parent| == |dist'| && 0 <= u < |dist| && !visited[u]
    requires top in pq && top.vertex == u && dist[u] == Finite(du)
    requires forall e :: e in pq ==> du <= e.distance
    requires forall y :: 0 <= y < |dist| && visited[y] ==> dist[y].Finite? && dist[y].value <= du
    requires QueueSound(dist, pq) && QueueComplete(dist, visited, pq)
    requires forall v :: 0 <= v < |dist| ==> AtMost(dist'[v], dist[v])
    requires RelaxedBy(u, du, edges, visited[u := true], dist, parent, pq - multiset{top}, dist', parent', pq')
    ensures QueueSound(dist', pq')
    ensures QueueComplete(dist', visited[u := true], pq')
    ensures SettledFirst(dist', visited[u := true], pq')
  {
    var visited' := visited[u := true];
    var pq0 := pq - multiset{top};
    assert forall e :: e in pq0 ==> e in pq;
    forall v | 0 <= v < |dist'| && !visited'[v] && dist'[v].Finite?
      ensures MinHeapNode(v, dist'[v].value) in pq'
    {
      if dist'[v] == dist[v] {
        var e := MinHeapNode(v, dist[v].value);
        assert e in pq && e != top;
        assert pq0[e] == pq[e];
      }
    }
  }

  lemma VisitKeepsOrder(u: int, du: int, visited: seq<bool>, order: seq<int>, rank: seq<nat>,
                        dist: seq<Distance>, dist': seq<Distance>)
    requires |dist| == |visited| == |rank| == |dist'| && 0 <= u < |dist| && !visited[u] && dist[u] == Finite(du)
    requires SettleOrder(dist, visited, order, rank)
    requires forall y :: 0 <= y < |dist| && visited[y] ==> dist[y].Finite? && dist[y].value <= du
    requires forall v :: 0 <= v < |dist| && visited[u := true][v] ==> dist'[v] == dist[v]
    ensures SettleOrder(dist', visited[u := true], order + [u], rank[u := |order|])
  {
    var visited', order', rank' := visited[u := true], order + [u], rank[u := |order|];
    assert u !in order;
    forall i | 0 <= i < |order'|
      ensures rank'[order'[i]] == i && visited'[order'[i]] && dist'[order'[i]] == dist[order'[i]]
    {
      if i < |order| {
        assert order'[i] == order[i];
      }
    }
    forall v | 0 <= v < |dist'|
      ensures visited'[v] <==> v in order'
    {
    }
  }

  /** A visit keeps the whole invariant. */
  lemma DijkstraVisit(g: seq<seq<WeightedEdge>>, s: int, dist: seq<Distance>, parent: seq<int>,
                      visited: seq<bool>, pq: multiset<MinHeapNode>, order: seq<int>, rank: seq<nat>,
                      top: MinHeapNode, dist': seq<Distance>, parent': seq<int>, pq': multiset<MinHeapNode>,
                      visited': seq<bool>, order': seq<int>, rank': seq<nat>)
    requires VisitStep(g, s, dist, parent, visited, pq, order, rank, top, dist', parent', pq')
    requires visited' == visited[top.vertex := true] && order' == order + [top.vertex] && rank' == rank[top.vertex := |order|]
    ensures DijkstraInvariant(g, s, dist', parent', visited', pq', order', rank')
  {
    var u := top.vertex;
    var du := dist[u].value;
    var pq0 := pq - multiset{top};
    VisitFacts(g, s, dist, parent, visited, pq, order, rank, top, dist', parent', pq');
    assert forall y :: 0 <= y < |g| && visited[y] ==> rank[y] < |order| by {
      forall y | 0 <= y < |g| && visited[y]
        ensures rank[y] < |order|
      {
        var i :| 0 <= i < |order| && order[i] == y;
      }
    }
    VisitKeepsWitnessed(g, s, u, du, visited[u := true], dist, parent, pq0, dist', parent', pq');
    VisitKeepsBare(u, du, g[u], visited, dist, parent, pq0, dist', parent', pq');
    VisitKeepsParents(g, s, u, du, visited, order, rank, dist, parent, pq0, dist', parent', pq');
    VisitKeepsSettled(g, s, u, du, visited, dist, dist');
    VisitKeepsRelaxed(g, u, du, visited, dist, parent, pq0, dist', parent', pq');
    VisitKeepsQueue(u, du, g[u], top, visited, dist, parent, pq, dist', parent', pq');
    VisitKeepsOrder(u, du, visited, order, rank, dist, dist');
  }

  // ------------------------------------------------------------ the result

  /** The parent links of a finished run: the start at 0 with no parent,
      every vertex at infinity with no parent, and every other vertex
      across an edge, accounting for its distance, from a parent of lower
      rank (so following parents always ends). */
  ghost predicate ShortestPathTree(g: seq<seq<WeightedEdge>>, s: int, dist: seq<Distance>, parent: seq<int>, rank: seq<nat>)
  {
    && |dist| == |g| && |parent| == |g| && |rank| == |g| && 0 <= s < |g|
    && dist[s] == Finite(0) && parent[s] == -1
    && (forall v :: 0 <= v < |g| && dist[v].Infinity? ==> parent[v] == -1)
    && (forall v :: 0 <= v < |g| && v != s && dist[v].Finite? ==> ParentEdge(g, dist, parent, v) && rank[parent[v]] < rank[v])
  }

  /** The result of a finished run from s: exactly the reachable vertices
      have a finite distance, each the shortest one; the parents form a
      shortest path tree; and `order` lists each of them once, in
      non-decreasing distance. */
  ghost predicate DijkstraResult(g: seq<seq<WeightedEdge>>, s: int, dist: seq<Distance>, parent: seq<int>,
                                 order: seq<int>, rank: seq<nat>)
  {
    && ShortestPathTree(g, s, dist, parent, rank)
    && (forall v :: 0 <= v < |g| ==> (dist[v].Finite? <==> WeightedReachable(g, s, v)))
    && (forall v :: 0 <= v < |g| && dist[v].Finite? ==> IsShortestDistance(g, s, v, dist[v].value))
    && Distinct(order) && VerticesBelow(order, |g|)
    && (forall v :: 0 <= v < |g| ==> (v in order <==> dist[v].Finite?))
    && (forall i, j :: 0 <= i < j < |order| ==> dist[order[i]].Finite? && dist[order[i]].value <= dist[order[j]].value)
  }

  /** When the queue runs empty, the state is a finished run's result. */
  lemma DijkstraDone(g: seq<seq<WeightedEdge>>, s: int, dist: seq<Distance>, parent: seq<int>,
                     visited: seq<bool>, order: seq<int>, rank: seq<nat>)
    requires DijkstraInvariant(g, s, dist, parent, visited, multiset{}, order, rank)
    ensures DijkstraResult(g, s, dist, parent, order, rank)
  {
    assert forall v :: 0 <= v < |g| ==> (visited[v] <==> dist[v].Finite?);
    assert ClosedWeighted(g, visited);
    forall v | 0 <= v < |g|
      ensures dist[v].Finite? <==> WeightedReachable(g, s, v)
    {
      if WeightedReachable(g, s, v) {
        var vs, ws :| IsWeightedWalkFrom(g, s, v, vs, ws);
        ClosedHoldsWeightedWalk(g, visited, vs, ws);
      }
      if dist[v].Finite? {
        assert HasWalkCosting(g, s, v, dist[v].value);
      }
    }
    forall i, j | 0 <= i < j < |order|
      ensures order[i] != order[j]
    {
      assert rank[order[i]] == i && rank[order[j]] == j;
    }
    forall i, j | 0 <= i < j < |order|
      ensures dist[order[i]].Finite? && dist[order[i]].value <= dist[order[j]].value
    {
      assert AtMost(dist[order[i]], dist[order[j]]) && visited[order[j]];
    }
  }

  /** Every parent link is -1 or a vertex of lower rank. */
  ghost predicate ParentsRanked(parent: seq<int>, rank: seq<nat>)
  {
    |rank| == |parent| &&
    forall v :: 0 <= v < |parent| ==> parent[v] == -1 || (0 <= parent[v] < |parent| && rank[parent[v]] < rank[v])
  }

  lemma TreeIsRanked(g: seq<seq<WeightedEdge>>, s: int, dist: seq<Distance>, parent: seq<int>, rank: seq<nat>)
    requires ShortestPathTree(g, s, dist, parent, rank)
    ensures ParentsRanked(parent, rank)
  {
    forall v | 0 <= v < |parent| && parent[v] != -1
      ensures 0 <= parent[v] < |parent| && rank[parent[v]] < rank[v]
    {
      if v != s && dist[v].Finite? {
        assert ParentEdge(g, dist, parent, v);
      }
    }
  }
}
