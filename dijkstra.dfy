/** The route solver over a star graph: Dijkstra's algorithm with a binary-heap priority queue and
  * lazy deletion (an entry whose vertex is already visited is skipped when popped). */
module ShortestPaths {
  import opened Errors
  import opened GraphModel
  import opened Walks
  import opened PriorityQueues
  import opened StarGraphs
  import opened DijkstraSearch

  /** A route: whether one exists, its cost, its vertices from start to end and their planet names. */
  datatype PathResult = PathResult(pathExists: bool, totalCost: Dist, path: seq<int>, pathNames: seq<string>)

  /** The default result: no route, infinite cost. */
  const NoPath := PathResult(false, Infinity, [], [])

  /** What a route query promises for two vertices of the graph: a route exists exactly when end is
    * reachable from start; then its cost is the least cost of a walk, its vertices are those of a
    * walk of that cost, and its names are their planets' names. */
  ghost predicate SolvesRoute(g: GraphState, start: int, end: int, r: PathResult) {
    && (r.pathExists <==> Reachable(g.adj, start, end))
    && (r.pathExists ==>
          && r.totalCost.Finite? && IsShortest(g.adj, start, end, r.totalCost.cost)
          && (exists w :: IsWalk(g.adj, start, w, end) && WalkCost(w) == r.totalCost.cost
                          && r.path == PathVertices(start, w)))
    && (!r.pathExists ==> r == NoPath)
    && (start == end ==> r.pathExists && r.totalCost == Finite(0.0) && r.path == [start])
    && (forall i, j :: 0 <= i < j < |r.path| ==> r.path[i] != r.path[j])
    && |r.pathNames| == |r.path|
    && (forall i :: 0 <= i < |r.path| ==> r.path[i] in g.planets && r.pathNames[i] == g.planets[r.path[i]].name)
  }

  /** The chain value extended by the vertices already collected after it. */
  function Extend(chain: Option<seq<int>>, rest: seq<int>): Option<seq<int>> {
    match chain
    case None => None
    case Some(p) => Some(p + rest)
  }

  /** Dequeue on a non-empty queue, stated on the multiset of its entries: the item of an entry of
    * least priority, and that entry gone. */
  method PopLeast(pq: PriorityQueue<int>, ghost Q: multiset<Entry<int>>) returns (current: int, ghost top: Entry<int>)
    requires pq.Valid() && multiset(pq.Entries()) == Q && Q != multiset{}
    modifies pq.Repr
    ensures pq.Valid() && fresh(pq.Repr - old(pq.Repr))
    ensures top in Q && current == top.item && forall x :: x in Q ==> top.priority <= x.priority
    ensures multiset(pq.Entries()) == Q - multiset{top}
  {
    top := pq.Entries()[0];
    var popped := pq.Dequeue();
    current := popped.value;
  }

  /** One step of the edge loop: if the edge brings its target closer, lower the target's distance,
    * make current its predecessor and queue it at the new distance. */
  method RelaxEdge(pq: PriorityQueue<int>, edge: Edge, current: int, i: nat, ghost start: int, ghost adj: Adjacency,
                   distances0: map<int, Dist>, previous0: map<int, int>, visited: set<int>,
                   ghost walkTo0: map<int, seq<Edge>>, ghost Q0: multiset<Entry<int>>)
    returns (distances: map<int, Dist>, previous: map<int, int>, ghost walkTo: map<int, seq<Edge>>,
             ghost Q: multiset<Entry<int>>)
    requires pq.Valid() && multiset(pq.Entries()) == Q0
    requires InnerInv(adj, start, distances0, previous0, visited, walkTo0, Q0, current, i)
    requires i < |adj[current]| && edge == adj[current][i]
    modifies pq.Repr
    ensures pq.Valid() && fresh(pq.Repr - old(pq.Repr)) && multiset(pq.Entries()) == Q
    ensures InnerInv(adj, start, distances, previous, visited, walkTo, Q, current, i + 1)
  {
    var neighbor := edge.to;
    var edgeCost := TotalCost(edge.data);
    var newDistance := distances0[current].cost + edgeCost;
    if distances0[neighbor].Infinity? || newDistance < distances0[neighbor].cost {
      Q := Q0 + multiset{Entry(neighbor, newDistance)};
      distances := distances0[neighbor := Finite(newDistance)];
      previous := previous0[neighbor := current];
      walkTo := walkTo0[neighbor := walkTo0[current] + [edge]];
      RelaxImproves(adj, start, distances0, previous0, visited, walkTo0, Q0, current, i, distances, previous, walkTo, Q);
      pq.Enqueue(neighbor, newDistance);
    } else {
      distances, previous, walkTo, Q := distances0, previous0, walkTo0, Q0;
      RelaxSkips(adj, start, distances, previous, visited, walkTo, Q, current, i);
    }
  }

  /** The vertices of a walk from a vertex of a well-formed graph are all vertices with planets. */
  lemma WalkStaysInGraph(g: GraphState, start: int, w: seq<Edge>, t: int)
    requires WellFormed(g) && start in g.adj && IsWalk(g.adj, start, w, t)
    ensures forall i :: 0 <= i < |PathVertices(start, w)| ==> PathVertices(start, w)[i] in g.planets
  {
    WalkVerticesAreLinked(g.adj, start, w, t);
    var p := PathVertices(start, w);
    forall i | 0 <= i < |p| ensures p[i] in g.planets {
      if i > 0 {
        assert w[i - 1].to == p[i] && w[i - 1] in g.adj[w[i - 1].from];
      }
    }
  }

  /** A walk of least cost, read back as its vertices without repetition and their names, solves
    * the route query; from a vertex to itself it is the walk of no edges. */
  lemma FoundRoute(g: GraphState, start: int, end: int, w: seq<Edge>, r: PathResult)
    requires r.pathExists && r.totalCost.Finite? && IsShortest(g.adj, start, end, r.totalCost.cost)
    requires IsWalk(g.adj, start, w, end) && WalkCost(w) == r.totalCost.cost && r.path == PathVertices(start, w)
    requires |r.pathNames| == |r.path|
    requires forall k :: 0 <= k < |r.path| ==> r.path[k] in g.planets && r.pathNames[k] == g.planets[r.path[k]].name
    requires start == end ==> r.totalCost == Finite(0.0) && r.path == [start]
    requires forall i, j :: 0 <= i < j < |r.path| ==> r.path[i] != r.path[j]
    ensures SolvesRoute(g, start, end, r)
  {
  }

  /** The route from a planet to itself is that planet alone, at no cost. */
  lemma RouteToItself(g: GraphState, start: int, r: PathResult)
    requires SolvesRoute(g, start, start, r)
    ensures start in g.planets && r == PathResult(true, Finite(0.0), [start], [g.planets[start].name])
  {
    assert r.path[0] == start;
  }

  /** When end cannot be reached, the default result solves the route query. */
  lemma NoRoute(g: GraphState, start: int, end: int)
    requires !Reachable(g.adj, start, end) && start != end
    ensures SolvesRoute(g, start, end, NoPath)
  {
  }

  class Dijkstra {
    const graph: StarGraph

    constructor (g: StarGraph)
      ensures graph == g
    {
      graph := g;
    }

    /** The cheapest route from start to end. A vertex missing from the graph gives the default
      * result; otherwise the search stops once end is visited and the route is read back through
      * the predecessors, with the planet name of each vertex. */
    method FindShortestPath(start: int, end: int) returns (r: PathResult)
      requires graph.Valid() && NonNegativeCosts(graph.adjacencyList)
      ensures !(start in graph.adjacencyList && end in graph.adjacencyList) ==> r == NoPath
      ensures start in graph.adjacencyList && end in graph.adjacencyList ==> SolvesRoute(graph.State(), start, end, r)
      ensures start == end && start in graph.adjacencyList ==>
        r == PathResult(true, Finite(0.0), [start], [graph.planetData[start].name])
    {
      var hasStart := graph.HasVertex(start);
      var hasEnd := graph.HasVertex(end);
      if !hasStart || !hasEnd {
        return NoPath;
      }
      var distances, previous, visited, walkTo := Search(start, Some(end));
      var cost := distances[end];
      if cost.Infinity? {
        NoRoute(graph.State(), start, end);
        return NoPath;
      }
      assert end in visited;
      var path := ReconstructPath(previous, start, end, WalkRank(walkTo));
      ChainIsSimple(previous, start, end, WalkRank(walkTo));
      WalkStaysInGraph(graph.State(), start, walkTo[end], end);
      var names := PlanetNames(path);
      r := PathResult(true, cost, path, names);
      FoundRoute(graph.State(), start, end, walkTo[end], r);
      if start == end {
        RouteToItself(graph.State(), start, r);
      }
    }

    /** The planet name of each vertex of a path, in order. */
    method PlanetNames(path: seq<int>) returns (names: seq<string>)
      requires graph.Valid() && forall k :: 0 <= k < |path| ==> path[k] in graph.planetData
      ensures |names| == |path|
      ensures forall k :: 0 <= k < |path| ==> names[k] == graph.planetData[path[k]].name
    {
      names := [];
      var i := 0;
      while i < |path|
        invariant 0 <= i <= |path| && |names| == i
        invariant forall k :: 0 <= k < i ==> names[k] == graph.planetData[path[k]].name
      {
        var name := graph.GetVertexName(path[i]);
        names := names + [name.value];
        i := i + 1;
      }
    }

    /** The same query by planet names; an unknown name gives the default result. */
    method FindShortestPathByName(startName: string, endName: string) returns (r: PathResult)
      requires graph.Valid() && NonNegativeCosts(graph.adjacencyList)
      ensures !(startName in graph.nameToIndex && endName in graph.nameToIndex) ==> r == NoPath
      ensures startName in graph.nameToIndex && endName in graph.nameToIndex ==>
        SolvesRoute(graph.State(), graph.nameToIndex[startName], graph.nameToIndex[endName], r)
    {
      var start := graph.GetVertexIndex(startName);
      if start.Err? {
        return NoPath;
      }
      var end := graph.GetVertexIndex(endName);
      if end.Err? {
        return NoPath;
      }
      r := FindShortestPath(start.value, end.value);
    }

    /** The least cost from start to every vertex, infinity where there is no route. The first
      * turn asks the graph for the edges of start, which fails when start is not a vertex. */
    method FindAllShortestPaths(start: int) returns (r: Result<map<int, Dist>>)
      requires graph.Valid() && NonNegativeCosts(graph.adjacencyList)
      ensures start !in graph.adjacencyList ==> r == Err(VertexNotFound(Vertex, start))
      ensures start in graph.adjacencyList ==> r.Ok? && r.value.Keys == graph.adjacencyList.Keys
      ensures r.Ok? ==> forall v :: v in r.value ==>
        && (r.value[v].Finite? <==> Reachable(graph.adjacencyList, start, v))
        && (r.value[v].Finite? ==> IsShortest(graph.adjacencyList, start, v, r.value[v].cost))
    {
      var edges := graph.GetEdges(start);
      if edges.Err? {
        return Err(edges.error);
      }
      var distances, previous, visited, walkTo := Search(start, None);
      return Ok(distances);
    }

    /** The path from start to end read back through the predecessors, or empty if they do not lead
      * from end back to start. The ghost rank is what makes the walk back terminate. */
    method ReconstructPath(previous: map<int, int>, start: int, end: int, ghost rank: map<int, nat>)
      returns (path: seq<int>)
      requires Ranked(previous, rank)
      ensures PrevChain(previous, start, end, rank).Some? ==> path == PrevChain(previous, start, end, rank).value
      ensures PrevChain(previous, start, end, rank).None? ==> path == []
    {
      path := [];
      if end !in previous && start != end {
        return;
      }
      var current := end;
      ghost var chain := PrevChain(previous, start, end, rank);
      if chain.Some? {
        assert chain.value + [] == chain.value;
      }
      while current != start
        invariant PrevChain(previous, start, end, rank) == Extend(PrevChain(previous, start, current, rank), path)
        decreases if current in rank then rank[current] else 0
      {
        ghost var rest := path;
        path := [current] + path;
        if current !in previous {
          path := [];
          return;
        }
        ghost var before := PrevChain(previous, start, previous[current], rank);
        assert PrevChain(previous, start, current, rank) == Extend(before, [current]);
        if before.Some? {
          assert (before.value + [current]) + rest == before.value + path;
        }
        current := previous[current];
      }
      path := [start] + path;
    }

    /** The distance map before the search: infinity for every vertex, then 0 for start. */
    method InitDistances(start: int) returns (distances: map<int, Dist>)
      requires graph.Valid()
      ensures distances == InitialDistances(graph.adjacencyList, start)
    {
      var allVertices := graph.GetAllVertices();
      distances := map[];
      var i := 0;
      while i < |allVertices|
        invariant 0 <= i <= |allVertices|
        invariant forall v :: v in distances <==> v in allVertices[..i]
        invariant forall v :: v in distances ==> distances[v] == Infinity
      {
        distances := distances[allVertices[i] := Infinity];
        i := i + 1;
      }
      assert allVertices[..|allVertices|] == allVertices;
      forall v ensures v in distances <==> v in graph.adjacencyList {
        assert v in allVertices[..|allVertices|] <==> v in allVertices;
      }
      ghost var unreached := map v | v in graph.adjacencyList :: Infinity;
      assert distances.Keys == unreached.Keys;
      forall v | v in distances ensures distances[v] == unreached[v] {
        assert distances[v] == Infinity;
      }
      assert distances == unreached;
      distances := distances[start := Finite(0.0)];
    }

    /** The search loop shared by both queries. With stop = Some(end) it ends as soon as end is
      * visited; otherwise it runs until the queue is empty. */
    method Search(start: int, stop: Option<int>)
      returns (distances: map<int, Dist>, previous: map<int, int>, visited: set<int>, ghost walkTo: map<int, seq<Edge>>)
      requires graph.Valid() && start in graph.adjacencyList && NonNegativeCosts(graph.adjacencyList)
      ensures distances.Keys == graph.adjacencyList.Keys && distances[start] == Finite(0.0)
      ensures forall v :: v in visited ==>
        v in distances && distances[v].Finite? && IsShortest(graph.adjacencyList, start, v, distances[v].cost)
      ensures forall v :: v in distances && distances[v].Finite? ==> Reachable(graph.adjacencyList, start, v)
      ensures (stop.Some? && stop.value in visited) || forall v :: Reachable(graph.adjacencyList, start, v) ==> v in visited
      ensures Ranked(previous, WalkRank(walkTo))
      ensures forall v :: v in visited ==>
        && v in walkTo && IsWalk(graph.adjacencyList, start, walkTo[v], v) && WalkCost(walkTo[v]) == distances[v].cost
        && PrevChain(previous, start, v, WalkRank(walkTo)) == Some(PathVertices(start, walkTo[v]))
    {
      ghost var adj := graph.adjacencyList;
      var pq;
      ghost var Q;
      distances, previous, visited, walkTo, pq, Q := Begin(start);
      var found;
      distances, previous, visited, walkTo, Q, found := Drain(pq, start, adj, stop, distances, previous, visited, walkTo, Q);
      if !found {
        QueueEmptyClosure(adj, start, distances, previous, visited, walkTo);
      }
      ResultOfSearch(adj, start, distances, previous, visited, walkTo, Q);
    }

    /** The loop of the search: turns until the vertex searched for is visited or the queue is empty. */
    method Drain(pq: PriorityQueue<int>, ghost start: int, ghost adj: Adjacency, stop: Option<int>,
                 distances0: map<int, Dist>, previous0: map<int, int>, visited0: set<int>,
                 ghost walkTo0: map<int, seq<Edge>>, ghost Q0: multiset<Entry<int>>)
      returns (distances: map<int, Dist>, previous: map<int, int>, visited: set<int>,
               ghost walkTo: map<int, seq<Edge>>, ghost Q: multiset<Entry<int>>, found: bool)
      requires graph.adjacencyList == adj && graph !in pq.Repr
      requires pq.Valid() && multiset(pq.Entries()) == Q0
      requires SearchInv(adj, start, distances0, previous0, visited0, walkTo0, Q0) && AllRelaxed(adj, distances0, visited0)
      modifies pq.Repr
      ensures SearchInv(adj, start, distances, previous, visited, walkTo, Q)
      ensures found ==> stop.Some? && stop.value in visited
      ensures !found ==> Q == multiset{} && AllRelaxed(adj, distances, visited)
    {
      distances, previous, visited, walkTo, Q, found := distances0, previous0, visited0, walkTo0, Q0, false;
      var empty := pq.IsEmpty();
      while !empty
        invariant pq.Valid() && fresh(pq.Repr - old(pq.Repr)) && graph !in pq.Repr && multiset(pq.Entries()) == Q
        invariant empty <==> Q == multiset{}
        invariant SearchInv(adj, start, distances, previous, visited, walkTo, Q)
        invariant AllRelaxed(adj, distances, visited)
        decreases |adj.Keys - visited|, |Q|
      {
        distances, previous, visited, walkTo, Q, found :=
          Step(pq, start, adj, stop, distances, previous, visited, walkTo, Q);
        if found {
          return;
        }
        empty := pq.IsEmpty();
      }
    }

    /** The state before the first turn: the distances from InitDistances, no predecessors, nothing
      * visited, and a queue holding start at priority 0. */
    method Begin(start: int)
      returns (distances: map<int, Dist>, previous: map<int, int>, visited: set<int>,
               ghost walkTo: map<int, seq<Edge>>, pq: PriorityQueue<int>, ghost Q: multiset<Entry<int>>)
      requires graph.Valid() && start in graph.adjacencyList && NonNegativeCosts(graph.adjacencyList)
      ensures pq.Valid() && fresh(pq.Repr) && multiset(pq.Entries()) == Q
      ensures SearchInv(graph.adjacencyList, start, distances, previous, visited, walkTo, Q)
      ensures AllRelaxed(graph.adjacencyList, distances, visited)
    {
      distances := InitDistances(start);
      previous := map[];
      visited := {};
      walkTo := map[start := []];
      pq := new PriorityQueue<int>();
      pq.Enqueue(start, 0.0);
      Q := multiset(pq.Entries());
      SearchStart(graph.adjacencyList, start);
    }

    /** One turn of the search loop: pop the entry of least priority; skip it if its vertex is already
      * visited, otherwise visit the vertex and, unless it is the one searched for, relax its edges. */
    method Step(pq: PriorityQueue<int>, ghost start: int, ghost adj: Adjacency, stop: Option<int>,
                distances0: map<int, Dist>, previous0: map<int, int>, visited0: set<int>,
                ghost walkTo0: map<int, seq<Edge>>, ghost Q0: multiset<Entry<int>>)
      returns (distances: map<int, Dist>, previous: map<int, int>, visited: set<int>,
               ghost walkTo: map<int, seq<Edge>>, ghost Q: multiset<Entry<int>>, found: bool)
      requires graph.adjacencyList == adj && graph !in pq.Repr
      requires pq.Valid() && multiset(pq.Entries()) == Q0 && Q0 != multiset{}
      requires SearchInv(adj, start, distances0, previous0, visited0, walkTo0, Q0) && AllRelaxed(adj, distances0, visited0)
      modifies pq.Repr
      ensures pq.Valid() && fresh(pq.Repr - old(pq.Repr)) && multiset(pq.Entries()) == Q
      ensures SearchInv(adj, start, distances, previous, visited, walkTo, Q)
      ensures found ==> stop.Some? && stop.value in visited
      ensures !found ==> AllRelaxed(adj, distances, visited)
      ensures !found ==> |adj.Keys - visited| < |adj.Keys - visited0| || (visited == visited0 && |Q| < |Q0|)
    {
      var current, top := PopLeast(pq, Q0);
      found := false;
      if current in visited0 {
        StalePop(adj, start, distances0, previous0, visited0, walkTo0, Q0, top);
        distances, previous, visited, walkTo, Q := distances0, previous0, visited0, walkTo0, Q0 - multiset{top};
        return;
      }
      distances, previous, visited, walkTo, Q, found :=
        Visit(pq, current, top, start, adj, stop, distances0, previous0, visited0, walkTo0, Q0);
      assert adj.Keys - visited == (adj.Keys - visited0) - {current};
    }

    /** The popped entry is current's, at its distance, and current is not yet visited: visit it and,
      * unless it is the one searched for, relax its edges. */
    method Visit(pq: PriorityQueue<int>, current: int, ghost top: Entry<int>, ghost start: int, ghost adj: Adjacency,
                 stop: Option<int>, distances0: map<int, Dist>, previous0: map<int, int>, visited0: set<int>,
                 ghost walkTo0: map<int, seq<Edge>>, ghost Q0: multiset<Entry<int>>)
      returns (distances: map<int, Dist>, previous: map<int, int>, visited: set<int>,
               ghost walkTo: map<int, seq<Edge>>, ghost Q: multiset<Entry<int>>, found: bool)
      requires graph.adjacencyList == adj && graph !in pq.Repr
      requires pq.Valid() && multiset(pq.Entries()) == Q0 - multiset{top}
      requires SearchInv(adj, start, distances0, previous0, visited0, walkTo0, Q0) && AllRelaxed(adj, distances0, visited0)
      requires top in Q0 && top.item == current && current !in visited0
      requires forall e :: e in Q0 ==> top.priority <= e.priority
      modifies pq.Repr
      ensures pq.Valid() && fresh(pq.Repr - old(pq.Repr)) && multiset(pq.Entries()) == Q
      ensures SearchInv(adj, start, distances, previous, visited, walkTo, Q)
      ensures found ==> stop.Some? && stop.value in visited
      ensures !found ==> AllRelaxed(adj, distances, visited)
      ensures visited == visited0 + {current} && current in adj
    {
      VisitPop(adj, start, distances0, previous0, visited0, walkTo0, Q0, top);
      visited := visited0 + {current};
      found := false;
      if stop == Some(current) {
        distances, previous, walkTo, Q := distances0, previous0, walkTo0, Q0 - multiset{top};
        found := true;
        return;
      }
      distances, previous, walkTo, Q := Relax(current, start, adj, pq, distances0, previous0, visited, walkTo0, Q0 - multiset{top});
    }

    /** The loop over the edges of the vertex just visited: an edge whose target it brings closer
      * lowers the target's distance, makes current its predecessor and queues it at the new distance. */
    method Relax(current: int, ghost start: int, ghost adj: Adjacency, pq: PriorityQueue<int>,
                 distances0: map<int, Dist>, previous0: map<int, int>, visited: set<int>,
                 ghost walkTo0: map<int, seq<Edge>>, ghost Q0: multiset<Entry<int>>)
      returns (distances: map<int, Dist>, previous: map<int, int>, ghost walkTo: map<int, seq<Edge>>,
               ghost Q: multiset<Entry<int>>)
      requires graph.adjacencyList == adj && graph !in pq.Repr
      requires pq.Valid() && multiset(pq.Entries()) == Q0
      requires InnerInv(adj, start, distances0, previous0, visited, walkTo0, Q0, current, 0)
      modifies pq.Repr
      ensures pq.Valid() && fresh(pq.Repr - old(pq.Repr)) && multiset(pq.Entries()) == Q
      ensures SearchInv(adj, start, distances, previous, visited, walkTo, Q)
      ensures AllRelaxed(adj, distances, visited)
    {
      distances, previous, walkTo, Q := distances0, previous0, walkTo0, Q0;
      var edges := graph.GetEdges(current);
      var i := 0;
      while i < |edges.value|
        invariant pq.Valid() && fresh(pq.Repr - old(pq.Repr)) && multiset(pq.Entries()) == Q
        invariant edges.value == adj[current]
        invariant InnerInv(adj, start, distances, previous, visited, walkTo, Q, current, i)
      {
        distances, previous, walkTo, Q :=
          RelaxEdge(pq, edges.value[i], current, i, start, adj, distances, previous, visited, walkTo, Q);
        i := i + 1;
      }
      RelaxDone(adj, start, distances, previous, visited, walkTo, Q, current);
    }
  }
}
