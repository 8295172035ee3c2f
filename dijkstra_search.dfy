/** What Dijkstra's search keeps true between steps, stated on values: the distance map, the
  * predecessor map, the visited set, the queue entries and, as ghost bookkeeping, one walk per
  * reached vertex realizing its distance. One lemma per kind of step shows the invariant survives. */
module DijkstraSearch {
  import opened Errors
  import opened GraphModel
  import opened Walks
  import opened PriorityQueues

  /** Every edge leaves the list it is in and ends at a vertex of the graph. */
  ghost predicate EdgesClosed(adj: Adjacency) {
    forall v, e :: v in adj && e in adj[v] ==> e.from == v && e.to in adj
  }

  /** Edge e out of x is relaxed: once x has a distance, e's target has one no worse than through e. */
  ghost predicate Relaxed(D: map<int, Dist>, x: int, e: Edge) {
    x in D && e.to in D
    && (D[x].Finite? ==> D[e.to].Finite? && D[e.to].cost <= D[x].cost + TotalCost(e.data))
  }

  /** Every edge out of the vertices of S is relaxed. */
  ghost predicate AllRelaxed(adj: Adjacency, D: map<int, Dist>, S: set<int>) {
    forall x, e :: x in S && x in adj && e in adj[x] ==> Relaxed(D, x, e)
  }

  /** A finite distance of v is the cost of the recorded walk to v, and is not negative. */
  ghost predicate Realized(adj: Adjacency, start: int, D: map<int, Dist>, walkTo: map<int, seq<Edge>>, v: int) {
    v in D && D[v].Finite? ==>
      v in walkTo && IsWalk(adj, start, walkTo[v], v) && WalkCost(walkTo[v]) == D[v].cost && D[v].cost >= 0.0
  }

  /** A visited vertex's distance is final: no walk to it costs less. */
  ghost predicate Final(adj: Adjacency, start: int, D: map<int, Dist>, visited: set<int>, v: int) {
    v in visited ==>
      v in D && D[v].Finite? && forall w :: IsWalk(adj, start, w, v) ==> D[v].cost <= WalkCost(w)
  }

  /** The walk of v ends with an edge out of prev[v], whose walk it extends, and prev[v] is visited. */
  ghost predicate PrevLinked(prev: map<int, int>, visited: set<int>, walkTo: map<int, seq<Edge>>, v: int) {
    v in prev ==>
      && v in walkTo && prev[v] in visited && prev[v] in walkTo
      && |walkTo[v]| > 0
      && walkTo[v][..|walkTo[v]| - 1] == walkTo[prev[v]]
      && walkTo[v][|walkTo[v]| - 1].from == prev[v]
  }

  /** Every vertex has a distance, start's is zero, and a finite one is the cost of a walk from start. */
  ghost predicate DistancesInv(adj: Adjacency, start: int, D: map<int, Dist>, walkTo: map<int, seq<Edge>>) {
    && D.Keys == adj.Keys && start in adj && D[start] == Finite(0.0)
    && (forall v :: Realized(adj, start, D, walkTo, v))
  }

  /** Each entry's item has a distance no larger than the entry's priority, and an unvisited vertex
    * with a distance is queued with exactly that distance. */
  ghost predicate QueueInv(D: map<int, Dist>, visited: set<int>, Q: multiset<Entry<int>>) {
    && (forall e :: e in Q ==> e.item in D && D[e.item].Finite? && D[e.item].cost <= e.priority)
    && (forall v :: v in D && v !in visited && D[v].Finite? ==> Entry(v, D[v].cost) in Q)
  }

  /** Visited vertices have their final distances. */
  ghost predicate SettledInv(adj: Adjacency, start: int, D: map<int, Dist>, visited: set<int>) {
    visited <= D.Keys && forall v :: Final(adj, start, D, visited, v)
  }

  /** The predecessor map follows the walks, and every reached vertex but start has a predecessor. */
  ghost predicate PrevInv(start: int, D: map<int, Dist>, prev: map<int, int>, visited: set<int>,
                          walkTo: map<int, seq<Edge>>) {
    && start in walkTo && walkTo[start] == [] && start !in prev
    && (forall v :: v in D && D[v].Finite? && v != start ==> v in prev)
    && (forall v :: PrevLinked(prev, visited, walkTo, v))
  }

  /** The invariant of the outer loop, less the relaxation of the visited vertices' edges. Q is the
    * multiset of queue entries. The per-vertex parts are predicates of their own, so that each is
    * unfolded only for the vertices a proof names. */
  ghost predicate SearchInv(adj: Adjacency, start: int, D: map<int, Dist>, prev: map<int, int>, visited: set<int>,
                            walkTo: map<int, seq<Edge>>, Q: multiset<Entry<int>>)
  {
    && EdgesClosed(adj) && NonNegativeCosts(adj)
    && DistancesInv(adj, start, D, walkTo)
    && QueueInv(D, visited, Q)
    && SettledInv(adj, start, D, visited)
    && PrevInv(start, D, prev, visited, walkTo)
  }

  /** The invariant of the relaxation loop over the edges of u, after its first i edges. */
  ghost predicate InnerInv(adj: Adjacency, start: int, D: map<int, Dist>, prev: map<int, int>, visited: set<int>,
                           walkTo: map<int, seq<Edge>>, Q: multiset<Entry<int>>, u: int, i: int)
  {
    && SearchInv(adj, start, D, prev, visited, walkTo, Q)
    && u in visited && u in adj && u in D && D[u].Finite? && u in walkTo && 0 <= i <= |adj[u]|
    && AllRelaxed(adj, D, visited - {u})
    && (forall k :: 0 <= k < i ==> Relaxed(D, u, adj[u][k]))
  }

  /** Every vertex at infinity, then start at 0. */
  function InitialDistances(adj: Adjacency, start: int): (D: map<int, Dist>)
    ensures D.Keys == adj.Keys + {start}
  {
    (map v | v in adj :: Infinity)[start := Finite(0.0)]
  }

  /** The state before the loop: only start has a distance, and it is queued at 0. */
  lemma SearchStart(adj: Adjacency, start: int)
    requires EdgesClosed(adj) && NonNegativeCosts(adj) && start in adj
    ensures var D := InitialDistances(adj, start);
      && SearchInv(adj, start, D, map[], {}, map[start := []], multiset{Entry(start, 0.0)})
      && AllRelaxed(adj, D, {})
  {
    var D := InitialDistances(adj, start);
    var walkTo: map<int, seq<Edge>> := map[start := []];
    forall v ensures Realized(adj, start, D, walkTo, v) {
      if v in D && D[v].Finite? {
        assert v == start;
        assert IsWalk(adj, start, walkTo[start], start);
      }
    }
  }

  /** A popped entry whose vertex is already visited is stale: dropping it keeps the invariant. */
  lemma StalePop(adj: Adjacency, start: int, D: map<int, Dist>, prev: map<int, int>, visited: set<int>,
                 walkTo: map<int, seq<Edge>>, Q: multiset<Entry<int>>, top: Entry<int>)
    requires SearchInv(adj, start, D, prev, visited, walkTo, Q)
    requires top in Q && top.item in visited
    ensures SearchInv(adj, start, D, prev, visited, walkTo, Q - multiset{top})
  {
    var Q' := Q - multiset{top};
    forall v | v in D && v !in visited && D[v].Finite? ensures Entry(v, D[v].cost) in Q' {
      assert Entry(v, D[v].cost) != top;
    }
  }

  /** Any walk from start ends at a visited vertex, or some queued entry's priority is at most its cost. */
  lemma {:induction false} FrontierBound(adj: Adjacency, start: int, D: map<int, Dist>, prev: map<int, int>,
                                         visited: set<int>, walkTo: map<int, seq<Edge>>, Q: multiset<Entry<int>>,
                                         w: seq<Edge>, t: int)
    requires SearchInv(adj, start, D, prev, visited, walkTo, Q) && AllRelaxed(adj, D, visited)
    requires IsWalk(adj, start, w, t)
    ensures t in visited || exists x :: x in Q && x.priority <= WalkCost(w)
    decreases |w|
  {
    if w == [] {
      if start !in visited {
        assert Entry(start, 0.0) in Q;
      }
    } else {
      var e := w[|w| - 1];
      var w' := w[..|w| - 1];
      FrontierBound(adj, start, D, prev, visited, walkTo, Q, w', e.from);
      assert TotalCost(e.data) >= 0.0;
      if e.from in visited {
        assert Final(adj, start, D, visited, e.from);
        assert Relaxed(D, e.from, e);
        if t !in visited {
          assert Entry(t, D[t].cost) in Q;
        }
      } else {
        var x :| x in Q && x.priority <= WalkCost(w');
        assert x.priority <= WalkCost(w);
      }
    }
  }

  /** The least entry of the queue, when its vertex is unvisited, carries that vertex's final
    * distance: no walk to it costs less. */
  lemma PoppedIsFinal(adj: Adjacency, start: int, D: map<int, Dist>, prev: map<int, int>, visited: set<int>,
                      walkTo: map<int, seq<Edge>>, Q: multiset<Entry<int>>, top: Entry<int>)
    requires SearchInv(adj, start, D, prev, visited, walkTo, Q) && AllRelaxed(adj, D, visited)
    requires top in Q && top.item !in visited
    requires forall x :: x in Q ==> top.priority <= x.priority
    ensures top.item in D && D[top.item] == Finite(top.priority)
    ensures forall w :: IsWalk(adj, start, w, top.item) ==> top.priority <= WalkCost(w)
  {
    var u := top.item;
    assert Entry(u, D[u].cost) in Q;
    forall w | IsWalk(adj, start, w, u) ensures top.priority <= WalkCost(w) {
      FrontierBound(adj, start, D, prev, visited, walkTo, Q, w, u);
    }
  }

  /** Visiting the vertex of the least entry, once its distance is known final, keeps the invariant. */
  lemma VisitPop(adj: Adjacency, start: int, D: map<int, Dist>, prev: map<int, int>, visited: set<int>,
                 walkTo: map<int, seq<Edge>>, Q: multiset<Entry<int>>, top: Entry<int>)
    requires SearchInv(adj, start, D, prev, visited, walkTo, Q) && AllRelaxed(adj, D, visited)
    requires top in Q && top.item !in visited
    requires forall x :: x in Q ==> top.priority <= x.priority
    ensures InnerInv(adj, start, D, prev, visited + {top.item}, walkTo, Q - multiset{top}, top.item, 0)
  {
    var u := top.item;
    PoppedIsFinal(adj, start, D, prev, visited, walkTo, Q, top);
    var visited' := visited + {u};
    var Q' := Q - multiset{top};
    forall v ensures Final(adj, start, D, visited', v) {
      assert Final(adj, start, D, visited, v);
    }
    forall v | v in D && v !in visited' && D[v].Finite? ensures Entry(v, D[v].cost) in Q' {
      assert Entry(v, D[v].cost) != top;
    }
    forall v ensures PrevLinked(prev, visited', walkTo, v) {
      assert PrevLinked(prev, visited, walkTo, v);
    }
    assert visited' - {u} == visited;
    assert Realized(adj, start, D, walkTo, u);
  }

  /** The target of an edge out of a visited vertex, when the edge improves its distance, is unvisited
    * and is not start. */
  lemma ImprovedIsUnvisited(adj: Adjacency, start: int, D: map<int, Dist>, prev: map<int, int>, visited: set<int>,
                            walkTo: map<int, seq<Edge>>, Q: multiset<Entry<int>>, u: int, e: Edge)
    requires SearchInv(adj, start, D, prev, visited, walkTo, Q)
    requires u in visited && u in adj && e in adj[u] && u in D && D[u].Finite?
    requires D[e.to].Infinity? || D[u].cost + TotalCost(e.data) < D[e.to].cost
    ensures e.to !in visited && e.to != start && u in walkTo
    ensures IsWalk(adj, start, walkTo[u] + [e], e.to)
    ensures WalkCost(walkTo[u] + [e]) == D[u].cost + TotalCost(e.data)
    ensures D[u].cost + TotalCost(e.data) >= 0.0
  {
    assert Realized(adj, start, D, walkTo, u);
    WalkExtend(adj, start, walkTo[u], e);
    assert TotalCost(e.data) >= 0.0;
    assert Final(adj, start, D, visited, e.to);
  }

  /** Relaxing edge i of u when it improves its target's distance keeps the inner invariant. */
  lemma RelaxImproves(adj: Adjacency, start: int, D: map<int, Dist>, prev: map<int, int>, visited: set<int>,
                      walkTo: map<int, seq<Edge>>, Q: multiset<Entry<int>>, u: int, i: int,
                      D': map<int, Dist>, prev': map<int, int>, walkTo': map<int, seq<Edge>>, Q': multiset<Entry<int>>)
    requires InnerInv(adj, start, D, prev, visited, walkTo, Q, u, i) && i < |adj[u]|
    requires D[adj[u][i].to].Infinity? || D[u].cost + TotalCost(adj[u][i].data) < D[adj[u][i].to].cost
    requires D' == D[adj[u][i].to := Finite(D[u].cost + TotalCost(adj[u][i].data))]
    requires prev' == prev[adj[u][i].to := u]
    requires walkTo' == walkTo[adj[u][i].to := walkTo[u] + [adj[u][i]]]
    requires Q' == Q + multiset{Entry(adj[u][i].to, D[u].cost + TotalCost(adj[u][i].data))}
    ensures InnerInv(adj, start, D', prev', visited, walkTo', Q', u, i + 1)
  {
    var e := adj[u][i];
    var nd := D[u].cost + TotalCost(e.data);
    ImproveKeepsSearchInv(adj, start, D, prev, visited, walkTo, Q, u, e, D', prev', walkTo', Q');
    RelaxedAfterImprove(adj, D, visited, u, i, nd);
  }

  /** Lowering the distance of the target of edge e out of visited u to the cost through e, with
    * u as its predecessor, its walk extended by e and a new queue entry, keeps the invariant. */
  lemma ImproveKeepsSearchInv(adj: Adjacency, start: int, D: map<int, Dist>, prev: map<int, int>, visited: set<int>,
                              walkTo: map<int, seq<Edge>>, Q: multiset<Entry<int>>, u: int, e: Edge,
                              D': map<int, Dist>, prev': map<int, int>, walkTo': map<int, seq<Edge>>,
                              Q': multiset<Entry<int>>)
    requires SearchInv(adj, start, D, prev, visited, walkTo, Q)
    requires u in visited && u in adj && e in adj[u] && u in D && D[u].Finite? && u in walkTo
    requires D[e.to].Infinity? || D[u].cost + TotalCost(e.data) < D[e.to].cost
    requires D' == D[e.to := Finite(D[u].cost + TotalCost(e.data))]
    requires prev' == prev[e.to := u]
    requires walkTo' == walkTo[e.to := walkTo[u] + [e]]
    requires Q' == Q + multiset{Entry(e.to, D[u].cost + TotalCost(e.data))}
    ensures SearchInv(adj, start, D', prev', visited, walkTo', Q') && e.to !in visited
  {
    var nd := D[u].cost + TotalCost(e.data);
    ImprovedIsUnvisited(adj, start, D, prev, visited, walkTo, Q, u, e);
    ImproveKeepsQueue(D, visited, Q, e.to, nd, D', Q');
    ImproveKeepsWalks(adj, start, D, walkTo, e.to, walkTo[u] + [e], nd, D', walkTo');
    ImproveKeepsFinal(adj, start, D, visited, e.to, D');
    ImproveKeepsPrev(start, D, prev, visited, walkTo, u, e, D', prev', walkTo');
  }

  /** Lowering the distance of x to nd and queueing x at nd keeps the queue entries in step with
    * the distances. */
  lemma ImproveKeepsQueue(D: map<int, Dist>, visited: set<int>, Q: multiset<Entry<int>>, x: int, nd: real,
                          D': map<int, Dist>, Q': multiset<Entry<int>>)
    requires QueueInv(D, visited, Q)
    requires x in D && (D[x].Infinity? || nd < D[x].cost)
    requires D' == D[x := Finite(nd)] && Q' == Q + multiset{Entry(x, nd)}
    ensures QueueInv(D', visited, Q')
  {
  }

  /** Recording walk w of cost nd for x, other than start, keeps every finite distance realized by its walk. */
  lemma ImproveKeepsWalks(adj: Adjacency, start: int, D: map<int, Dist>, walkTo: map<int, seq<Edge>>,
                          x: int, w: seq<Edge>, nd: real, D': map<int, Dist>, walkTo': map<int, seq<Edge>>)
    requires DistancesInv(adj, start, D, walkTo)
    requires x in D && x != start && IsWalk(adj, start, w, x) && WalkCost(w) == nd && nd >= 0.0
    requires D' == D[x := Finite(nd)] && walkTo' == walkTo[x := w]
    ensures DistancesInv(adj, start, D', walkTo')
  {
    forall v ensures Realized(adj, start, D', walkTo', v) {
      if v != x {
        assert Realized(adj, start, D, walkTo, v);
      }
    }
  }

  /** Changing the distance of an unvisited vertex leaves the visited vertices' distances final. */
  lemma ImproveKeepsFinal(adj: Adjacency, start: int, D: map<int, Dist>, visited: set<int>, x: int,
                          D': map<int, Dist>)
    requires SettledInv(adj, start, D, visited)
    requires x !in visited && D'.Keys == D.Keys && forall v :: v in D && v != x ==> D'[v] == D[v]
    ensures SettledInv(adj, start, D', visited)
  {
    forall v ensures Final(adj, start, D', visited, v) {
      assert Final(adj, start, D, visited, v);
    }
  }

  /** Making visited u the predecessor of the unvisited target of its edge e, with u's walk extended
    * by e, keeps the predecessor map following the walks. */
  lemma ImproveKeepsPrev(start: int, D: map<int, Dist>, prev: map<int, int>, visited: set<int>,
                         walkTo: map<int, seq<Edge>>, u: int, e: Edge,
                         D': map<int, Dist>, prev': map<int, int>, walkTo': map<int, seq<Edge>>)
    requires PrevInv(start, D, prev, visited, walkTo)
    requires u in visited && u in walkTo && e.from == u && e.to !in visited && e.to != start
    requires D'.Keys == D.Keys && forall v :: v in D && v != e.to ==> D'[v] == D[v]
    requires prev' == prev[e.to := u] && walkTo' == walkTo[e.to := walkTo[u] + [e]]
    ensures PrevInv(start, D', prev', visited, walkTo')
  {
    forall v ensures PrevLinked(prev', visited, walkTo', v) {
      if v == e.to {
        assert (walkTo[u] + [e])[..|walkTo[u]|] == walkTo[u];
      } else {
        assert PrevLinked(prev, visited, walkTo, v);
      }
    }
  }

  /** Lowering the distance of an unvisited vertex to the cost through edge i of u keeps the
    * visited vertices' edges relaxed, and relaxes that edge. */
  lemma RelaxedAfterImprove(adj: Adjacency, D: map<int, Dist>, visited: set<int>, u: int, i: int, nd: real)
    requires u in visited && u in adj && 0 <= i < |adj[u]| && visited <= D.Keys && adj[u][i].to in D
    requires adj[u][i].to !in visited && D[u].Finite? && nd == D[u].cost + TotalCost(adj[u][i].data)
    requires D[adj[u][i].to].Infinity? || nd < D[adj[u][i].to].cost
    requires AllRelaxed(adj, D, visited - {u})
    requires forall k :: 0 <= k < i ==> Relaxed(D, u, adj[u][k])
    ensures var D' := D[adj[u][i].to := Finite(nd)];
      AllRelaxed(adj, D', visited - {u}) && forall k :: 0 <= k < i + 1 ==> Relaxed(D', u, adj[u][k])
  {
    var nb := adj[u][i].to;
    var D' := D[nb := Finite(nd)];
    forall x, e | x in visited - {u} && x in adj && e in adj[x] ensures Relaxed(D', x, e) {
      assert Relaxed(D, x, e);
    }
    forall k | 0 <= k < i + 1 ensures Relaxed(D', u, adj[u][k]) {
      if k < i {
        assert Relaxed(D, u, adj[u][k]);
      }
    }
  }

  /** An edge that does not improve its target's distance is already relaxed. */
  lemma RelaxSkips(adj: Adjacency, start: int, D: map<int, Dist>, prev: map<int, int>, visited: set<int>,
                   walkTo: map<int, seq<Edge>>, Q: multiset<Entry<int>>, u: int, i: int)
    requires InnerInv(adj, start, D, prev, visited, walkTo, Q, u, i) && i < |adj[u]|
    requires !(D[adj[u][i].to].Infinity? || D[u].cost + TotalCost(adj[u][i].data) < D[adj[u][i].to].cost)
    ensures InnerInv(adj, start, D, prev, visited, walkTo, Q, u, i + 1)
  {
  }

  /** After the last edge of u, every visited vertex's edges are relaxed. */
  lemma RelaxDone(adj: Adjacency, start: int, D: map<int, Dist>, prev: map<int, int>, visited: set<int>,
                  walkTo: map<int, seq<Edge>>, Q: multiset<Entry<int>>, u: int)
    requires u in adj && InnerInv(adj, start, D, prev, visited, walkTo, Q, u, |adj[u]|)
    ensures AllRelaxed(adj, D, visited)
  {
    forall x, e | x in visited && x in adj && e in adj[x] ensures Relaxed(D, x, e) {
      if x == u {
        var k :| 0 <= k < |adj[u]| && adj[u][k] == e;
      }
    }
  }

  /** When the queue runs empty with every visited vertex relaxed, every reachable vertex is visited. */
  lemma QueueEmptyClosure(adj: Adjacency, start: int, D: map<int, Dist>, prev: map<int, int>, visited: set<int>,
                          walkTo: map<int, seq<Edge>>)
    requires SearchInv(adj, start, D, prev, visited, walkTo, multiset{}) && AllRelaxed(adj, D, visited)
    ensures forall t :: Reachable(adj, start, t) ==> t in visited
  {
    forall t | Reachable(adj, start, t) ensures t in visited {
      var w :| IsWalk(adj, start, w, t);
      FrontierBound(adj, start, D, prev, visited, walkTo, multiset{}, w, t);
    }
  }

  /** What the invariant gives once the search stops: visited distances are least costs, and finite
    * distances are reached. */
  lemma SettledAreShortest(adj: Adjacency, start: int, D: map<int, Dist>, prev: map<int, int>, visited: set<int>,
                           walkTo: map<int, seq<Edge>>, Q: multiset<Entry<int>>)
    requires SearchInv(adj, start, D, prev, visited, walkTo, Q)
    ensures forall v :: v in visited ==> v in D && D[v].Finite? && IsShortest(adj, start, v, D[v].cost)
    ensures forall v :: v in D && D[v].Finite? ==> Reachable(adj, start, v)
  {
    forall v | v in visited ensures v in D && D[v].Finite? && IsShortest(adj, start, v, D[v].cost) {
      assert Final(adj, start, D, visited, v);
      assert Realized(adj, start, D, walkTo, v);
    }
    forall v | v in D && D[v].Finite? ensures Reachable(adj, start, v) {
      assert Realized(adj, start, D, walkTo, v);
    }
  }

  /** Everything the search promises once it stops, whether at the target or at an empty queue. */
  lemma ResultOfSearch(adj: Adjacency, start: int, D: map<int, Dist>, prev: map<int, int>, visited: set<int>,
                       walkTo: map<int, seq<Edge>>, Q: multiset<Entry<int>>)
    requires SearchInv(adj, start, D, prev, visited, walkTo, Q)
    ensures forall v :: v in visited ==> v in D && D[v].Finite? && IsShortest(adj, start, v, D[v].cost)
    ensures forall v :: v in D && D[v].Finite? ==> Reachable(adj, start, v)
    ensures Ranked(prev, WalkRank(walkTo))
    ensures forall v :: v in visited ==>
      && v in walkTo && IsWalk(adj, start, walkTo[v], v) && WalkCost(walkTo[v]) == D[v].cost
      && PrevChain(prev, start, v, WalkRank(walkTo)) == Some(PathVertices(start, walkTo[v]))
  {
    SettledAreShortest(adj, start, D, prev, visited, walkTo, Q);
    assert Final(adj, start, D, visited, start) && Realized(adj, start, D, walkTo, start);
    ChainFollowsWalk(adj, start, D, prev, visited, walkTo, Q, start);
    forall v | v in visited
      ensures v in walkTo && IsWalk(adj, start, walkTo[v], v) && WalkCost(walkTo[v]) == D[v].cost
      ensures PrevChain(prev, start, v, WalkRank(walkTo)) == Some(PathVertices(start, walkTo[v]))
    {
      assert Final(adj, start, D, visited, v);
      assert Realized(adj, start, D, walkTo, v);
      ChainFollowsWalk(adj, start, D, prev, visited, walkTo, Q, v);
    }
  }

  /** The predecessor map has no cycle: each vertex in it ranks above its predecessor. */
  ghost predicate Ranked(prev: map<int, int>, rank: map<int, nat>) {
    && prev.Keys <= rank.Keys
    && forall w :: w in prev ==> prev[w] in rank && rank[prev[w]] < rank[w]
  }

  /** The vertices from start to w obtained by following the predecessors back from w, if they lead to start. */
  ghost function PrevChain(prev: map<int, int>, start: int, w: int, rank: map<int, nat>): Option<seq<int>>
    requires Ranked(prev, rank)
    decreases if w in rank then rank[w] else 0
  {
    if w == start then Some([start])
    else if w !in prev then None
    else
      match PrevChain(prev, start, prev[w], rank) {
        case None => None
        case Some(p) => Some(p + [w])
      }
  }

  /** A predecessor chain starts at start, ends at w, and each vertex after the first has the one
    * before it as predecessor. */
  lemma {:induction false} PrevChainShape(prev: map<int, int>, start: int, w: int, rank: map<int, nat>)
    requires Ranked(prev, rank) && PrevChain(prev, start, w, rank).Some?
    ensures var p := PrevChain(prev, start, w, rank).value;
      && |p| >= 1 && p[0] == start && p[|p| - 1] == w
      && forall i :: 0 < i < |p| ==> p[i] in prev && prev[p[i]] == p[i - 1]
    decreases if w in rank then rank[w] else 0
  {
    if w != start {
      PrevChainShape(prev, start, prev[w], rank);
    }
  }

  /** A predecessor chain repeats no vertex: start only at its head, and the ranks rising after it. */
  lemma {:induction false} ChainIsSimple(prev: map<int, int>, start: int, w: int, rank: map<int, nat>)
    requires Ranked(prev, rank) && PrevChain(prev, start, w, rank).Some?
    ensures var p := PrevChain(prev, start, w, rank).value;
      && |p| >= 1 && p[0] == start && p[|p| - 1] == w
      && (forall i :: 0 < i < |p| ==> p[i] != start && p[i] in rank && w in rank && rank[p[i]] <= rank[w])
      && (forall i, j :: 0 <= i < j < |p| ==> p[i] != p[j])
    decreases if w in rank then rank[w] else 0
  {
    if w != start {
      var u := prev[w];
      ChainIsSimple(prev, start, u, rank);
      var q := PrevChain(prev, start, u, rank).value;
      var p := PrevChain(prev, start, w, rank).value;
      assert p == q + [w];
      forall i | 0 < i < |q| ensures rank[q[i]] < rank[w] && q[i] != w {
        assert u != start && rank[q[i]] <= rank[u];
      }
    }
  }

  /** The ranks the walks give: the number of edges of each. */
  function WalkRank(walkTo: map<int, seq<Edge>>): (rank: map<int, nat>)
    ensures rank.Keys == walkTo.Keys
  {
    map v | v in walkTo :: |walkTo[v]|
  }

  /** Following the predecessors back from a reached vertex retraces the vertices of its walk. */
  lemma {:induction false} ChainFollowsWalk(adj: Adjacency, start: int, D: map<int, Dist>, prev: map<int, int>,
                                            visited: set<int>, walkTo: map<int, seq<Edge>>, Q: multiset<Entry<int>>, v: int)
    requires SearchInv(adj, start, D, prev, visited, walkTo, Q)
    requires v in D && D[v].Finite? && v in walkTo
    ensures Ranked(prev, WalkRank(walkTo))
    ensures PrevChain(prev, start, v, WalkRank(walkTo)) == Some(PathVertices(start, walkTo[v]))
    decreases |walkTo[v]|
  {
    var rank := WalkRank(walkTo);
    forall w | w in prev ensures w in rank && prev[w] in rank && rank[prev[w]] < rank[w] {
      assert PrevLinked(prev, visited, walkTo, w);
    }
    assert Ranked(prev, rank);
    if v != start {
      assert PrevLinked(prev, visited, walkTo, v);
      assert Realized(adj, start, D, walkTo, v);
      var u := prev[v];
      assert Final(adj, start, D, visited, u);
      var wv := walkTo[v];
      var last := wv[|wv| - 1];
      ChainFollowsWalk(adj, start, D, prev, visited, walkTo, Q, u);
      assert wv == walkTo[u] + [last];
      assert last.to == v;
      PathVerticesAppend(start, walkTo[u], last);
      assert PrevChain(prev, start, v, rank) == Some(PathVertices(start, walkTo[u]) + [v]);
    } else {
      assert PathVertices(start, []) == [start];
    }
  }

  lemma PathVerticesAppend(s: int, w: seq<Edge>, e: Edge)
    ensures PathVertices(s, w + [e]) == PathVertices(s, w) + [e.to]
  {
  }
}
