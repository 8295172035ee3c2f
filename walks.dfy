/** Walks through the adjacency lists of the star graph: what "reachable" and "shortest" mean,
  * independently of any algorithm that computes them. */
module Walks {
  import opened GraphModel

  type Adjacency = map<int, seq<Edge>>

  /** A distance as the solver keeps it: a finite cost, or infinity for a vertex not yet reached. */
  datatype Dist = Finite(cost: real) | Infinity

  /** Whether w is a walk from s to t: each edge is in the list of the vertex it leaves, and each
    * edge leaves the vertex the previous one entered. The empty walk stays at s. */
  ghost predicate IsWalk(adj: Adjacency, s: int, w: seq<Edge>, t: int)
    decreases |w|
  {
    if w == [] then s == t
    else
      var e := w[|w| - 1];
      e.to == t && e.from in adj && e in adj[e.from] && IsWalk(adj, s, w[..|w| - 1], e.from)
  }

  /** The cost of a walk: the sum of the total costs of its edges. */
  function WalkCost(w: seq<Edge>): real
    decreases |w|
  {
    if w == [] then 0.0 else WalkCost(w[..|w| - 1]) + TotalCost(w[|w| - 1].data)
  }

  ghost predicate Reachable(adj: Adjacency, s: int, t: int) {
    exists w :: IsWalk(adj, s, w, t)
  }

  /** Whether c is the least cost of a walk from s to t: some walk costs c, and none costs less. */
  ghost predicate IsShortest(adj: Adjacency, s: int, t: int, c: real) {
    && (exists w :: IsWalk(adj, s, w, t) && WalkCost(w) == c)
    && (forall w :: IsWalk(adj, s, w, t) ==> c <= WalkCost(w))
  }

  /** Every transition has a non-negative total cost. The loader does not enforce this; the solver's
    * least-cost guarantee needs it. */
  ghost predicate NonNegativeCosts(adj: Adjacency) {
    forall v, e :: v in adj && e in adj[v] ==> TotalCost(e.data) >= 0.0
  }

  /** The vertices a walk from s passes through: s, then the end of each edge. */
  function PathVertices(s: int, w: seq<Edge>): (p: seq<int>)
    ensures |p| == |w| + 1 && p[0] == s
  {
    [s] + seq(|w|, i requires 0 <= i < |w| => w[i].to)
  }

  /** Appending one edge to a walk. */
  lemma WalkExtend(adj: Adjacency, s: int, w: seq<Edge>, e: Edge)
    requires IsWalk(adj, s, w, e.from) && e.from in adj && e in adj[e.from]
    ensures IsWalk(adj, s, w + [e], e.to)
    ensures WalkCost(w + [e]) == WalkCost(w) + TotalCost(e.data)
    ensures PathVertices(s, w + [e]) == PathVertices(s, w) + [e.to]
  {
    assert (w + [e])[..|w|] == w;
  }

  /** With non-negative transition costs no walk costs less than nothing. */
  lemma {:induction false} WalkCostNonNegative(adj: Adjacency, s: int, w: seq<Edge>, t: int)
    requires NonNegativeCosts(adj) && IsWalk(adj, s, w, t)
    ensures WalkCost(w) >= 0.0
    decreases |w|
  {
    if w != [] {
      var e := w[|w| - 1];
      WalkCostNonNegative(adj, s, w[..|w| - 1], e.from);
    }
  }

  /** The vertices of a walk from s to t start at s, end at t, and each consecutive pair is joined
    * by an edge of the list of the first one. */
  lemma {:induction false} WalkVerticesAreLinked(adj: Adjacency, s: int, w: seq<Edge>, t: int)
    requires IsWalk(adj, s, w, t)
    ensures var p := PathVertices(s, w);
      && p[|p| - 1] == t
      && forall i :: 0 <= i < |w| ==> w[i].from == p[i] && w[i].to == p[i + 1] && w[i].from in adj && w[i] in adj[w[i].from]
    decreases |w|
  {
    if w != [] {
      var e := w[|w| - 1];
      var w' := w[..|w| - 1];
      WalkVerticesAreLinked(adj, s, w', e.from);
      var p' := PathVertices(s, w');
      var p := PathVertices(s, w);
      assert w' + [e] == w;
      WalkExtend(adj, s, w', e);
      assert p == p' + [e.to];
      forall i | 0 <= i < |w|
        ensures w[i].from == p[i] && w[i].to == p[i + 1] && w[i].from in adj && w[i] in adj[w[i].from]
      {
        if i < |w'| {
          assert w[i] == w'[i] && p[i] == p'[i] && p[i + 1] == p'[i + 1];
        } else {
          assert w[i] == e && p[i] == p'[|p'| - 1] && p[i + 1] == e.to;
        }
      }
    }
  }

  /** The least cost of a walk is unique. */
  lemma ShortestIsUnique(adj: Adjacency, s: int, t: int, c1: real, c2: real)
    requires IsShortest(adj, s, t, c1) && IsShortest(adj, s, t, c2)
    ensures c1 == c2
  {
    var w1 :| IsWalk(adj, s, w1, t) && WalkCost(w1) == c1;
    var w2 :| IsWalk(adj, s, w2, t) && WalkCost(w2) == c2;
  }
}
