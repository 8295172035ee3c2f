/** The values of the star graph (planets, edge data, edges) and a snapshot of the whole graph,
  * with one pure function per mutator saying what the graph becomes, or which exception it throws. */
module GraphModel {
  import opened Errors

  /** A planet: its name, its id and whether it holds an artifact. */
  datatype PlanetData = PlanetData(name: string, id: int, hasArtifact: bool)

  /** A hyperspace transition's physical distance and pirate risk. */
  datatype EdgeData = EdgeData(distance: real, riskFactor: real)

  datatype Edge = Edge(from: int, to: int, data: EdgeData)

  /** The cost of a transition: its distance scaled up by its risk. */
  function TotalCost(d: EdgeData): (c: real)
    ensures d.riskFactor == 0.0 ==> c == d.distance
    ensures d.distance >= 0.0 && d.riskFactor >= 0.0 ==> c >= d.distance
    ensures d.distance >= 0.0 && d.riskFactor >= -1.0 ==> c >= 0.0
  {
    d.distance * (1.0 + d.riskFactor)
  }

  /** The graph's fields: adjacency lists, planet data, the name index and the two counters. */
  datatype GraphState = GraphState(
    adj: map<int, seq<Edge>>,
    planets: map<int, PlanetData>,
    names: map<string, int>,
    vertexCount: int,
    nextId: int)

  /** The graph's invariant: the same vertices in both maps, ids below the id counter, names and ids
    * in one-to-one correspondence, every edge leaving the list it is in and ending at a vertex,
    * and the vertex counter equal to the number of vertices. */
  ghost predicate WellFormed(g: GraphState) {
    && g.adj.Keys == g.planets.Keys
    && g.nextId >= 0
    && (forall v :: v in g.planets ==> g.planets[v].id == v && 0 <= v < g.nextId)
    && (forall n :: n in g.names ==> g.names[n] in g.planets && g.planets[g.names[n]].name == n)
    && (forall v :: v in g.planets ==> g.planets[v].name in g.names && g.names[g.planets[v].name] == v)
    && (forall v, e :: v in g.adj && e in g.adj[v] ==> e.from == v && e.to in g.adj)
    && g.vertexCount == |g.adj.Keys|
  }

  /** Whether the list of from holds an edge to to. */
  ghost predicate HasEdge(g: GraphState, from: int, to: int) {
    from in g.adj && exists e :: e in g.adj[from] && e.to == to
  }

  /** The graph after Clear, or after construction. */
  function Empty(): (g: GraphState)
    ensures WellFormed(g) && g.adj == map[] && g.names == map[] && g.nextId == 0
  {
    GraphState(map[], map[], map[], 0, 0)
  }

  /** The edges of s that do not end at target, in their original order. */
  function WithoutTarget(s: seq<Edge>, target: int): (r: seq<Edge>)
    ensures forall e :: e in r <==> e in s && e.to != target
    ensures |r| <= |s|
    ensures (forall e :: e in s ==> e.to != target) ==> r == s
  {
    if s == [] then []
    else if s[|s| - 1].to != target then WithoutTarget(s[..|s| - 1], target) + [s[|s| - 1]]
    else WithoutTarget(s[..|s| - 1], target)
  }

  /** Every list of adj without its edges into target. */
  function DropTarget(adj: map<int, seq<Edge>>, target: int): (r: map<int, seq<Edge>>)
    ensures r.Keys == adj.Keys
    ensures forall u :: u in r ==> r[u] == WithoutTarget(adj[u], target)
  {
    map u | u in adj :: WithoutTarget(adj[u], target)
  }

  /** Filtering keeps relative order: it distributes over concatenation. */
  lemma {:induction false} WithoutTargetAppend(s: seq<Edge>, t: seq<Edge>, target: int)
    ensures WithoutTarget(s + t, target) == WithoutTarget(s, target) + WithoutTarget(t, target)
    decreases |t|
  {
    if t != [] {
      var t' := t[..|t| - 1];
      assert (s + t)[..|s + t| - 1] == s + t';
      WithoutTargetAppend(s, t', target);
    } else {
      assert s + t == s;
    }
  }

  /** The position of the first edge of s that ends at target, if any. */
  function FirstMatch(s: seq<Edge>, target: int): (r: Option<nat>)
    ensures r.Some? ==> r.value < |s| && s[r.value].to == target
    ensures r.Some? ==> forall k :: 0 <= k < r.value ==> s[k].to != target
    ensures r.None? ==> forall k :: 0 <= k < |s| ==> s[k].to != target
    decreases |s|
  {
    if s == [] then None
    else if s[0].to == target then Some(0)
    else match FirstMatch(s[1..], target) {
      case None => None
      case Some(i) => Some(i + 1)
    }
  }

  /** The distance UpdateEdgeDistance stores: never below 1. */
  function ClampDistance(d: real): (r: real)
    ensures r >= 1.0
    ensures d >= 1.0 ==> r == d
  {
    if d < 1.0 then 1.0 else d
  }

  /** s with the distance of the first edge to target replaced by d, and nothing else changed. */
  function UpdateFirst(s: seq<Edge>, target: int, d: real): (r: seq<Edge>)
    ensures |r| == |s|
    ensures FirstMatch(s, target).None? ==> r == s
    ensures FirstMatch(s, target).Some? ==>
      var i := FirstMatch(s, target).value;
      && r[i] == Edge(s[i].from, target, EdgeData(d, s[i].data.riskFactor))
      && forall k :: 0 <= k < |s| && k != i ==> r[k] == s[k]
  {
    match FirstMatch(s, target) {
      case None => s
      case Some(i) => s[i := s[i].(data := s[i].data.(distance := d))]
    }
  }

  /** AddVertex: a duplicate name throws; otherwise the counter's id names a new planet with no edges. */
  function AddVertexTo(g: GraphState, name: string): (r: Result<GraphState>)
    ensures r.Err? <==> name in g.names
    ensures r.Err? ==> r.error == DuplicateName(name)
    ensures r.Ok? ==>
      var id := g.nextId;
      && r.value.adj == g.adj[id := []]
      && r.value.planets == g.planets[id := PlanetData(name, id, false)]
      && r.value.names == g.names[name := id]
      && r.value.nextId == g.nextId + 1
      && r.value.vertexCount == g.vertexCount + 1
    ensures r.Ok? && WellFormed(g) ==> WellFormed(r.value) && g.nextId !in g.adj
  {
    if name in g.names then Err(DuplicateName(name))
    else
      var id := g.nextId;
      AdditionKeepsWellFormed(g, name);
      Ok(GraphState(g.adj[id := []], g.planets[id := PlanetData(name, id, false)],
        g.names[name := id], g.vertexCount + 1, g.nextId + 1))
  }

  /** A new name under the next id keeps a well-formed graph well-formed. */
  lemma AdditionKeepsWellFormed(g: GraphState, name: string)
    ensures var id := g.nextId;
      WellFormed(g) && name !in g.names ==>
        && WellFormed(GraphState(g.adj[id := []], g.planets[id := PlanetData(name, id, false)],
                                 g.names[name := id], g.vertexCount + 1, g.nextId + 1))
        && id !in g.adj
  {
    var id := g.nextId;
    if WellFormed(g) && name !in g.names {
      var g' := GraphState(g.adj[id := []], g.planets[id := PlanetData(name, id, false)],
                           g.names[name := id], g.vertexCount + 1, g.nextId + 1);
      assert id !in g.adj;
      assert g'.adj.Keys == g.adj.Keys + {id};
    }
  }

  /** AddEdge by ids: an unknown endpoint throws; otherwise one edge is appended to from's list. */
  function AddEdgeTo(g: GraphState, from: int, to: int, data: EdgeData): (r: Result<GraphState>)
    ensures r.Ok? <==> from in g.adj && to in g.adj
    ensures from !in g.adj ==> r == Err(VertexNotFound(Source, from))
    ensures from in g.adj && to !in g.adj ==> r == Err(VertexNotFound(Destination, to))
    ensures r.Ok? ==>
      && r.value.adj.Keys == g.adj.Keys
      && r.value.adj[from] == g.adj[from] + [Edge(from, to, data)]
      && (forall v :: v in g.adj && v != from ==> r.value.adj[v] == g.adj[v])
      && r.value == g.(adj := r.value.adj)
    ensures r.Ok? && WellFormed(g) ==> WellFormed(r.value) && HasEdge(r.value, from, to)
  {
    if from !in g.adj then Err(VertexNotFound(Source, from))
    else if to !in g.adj then Err(VertexNotFound(Destination, to))
    else
      var g' := g.(adj := g.adj[from := g.adj[from] + [Edge(from, to, data)]]);
      assert g'.adj[from][|g.adj[from]|] == Edge(from, to, data);
      Ok(g')
  }

  /** AddEdge by names: an unknown name throws; otherwise AddEdge on the ids the names index. */
  function AddEdgeByName(g: GraphState, fromName: string, toName: string, data: EdgeData): (r: Result<GraphState>)
    ensures fromName !in g.names ==> r == Err(PlanetNotFound(Source, fromName))
    ensures fromName in g.names && toName !in g.names ==> r == Err(PlanetNotFound(Destination, toName))
    ensures WellFormed(g) && fromName in g.names && toName in g.names ==>
      r == AddEdgeTo(g, g.names[fromName], g.names[toName], data) && r.Ok?
  {
    if fromName !in g.names then Err(PlanetNotFound(Source, fromName))
    else if toName !in g.names then Err(PlanetNotFound(Destination, toName))
    else AddEdgeTo(g, g.names[fromName], g.names[toName], data)
  }

  /** RemoveVertex by id: an unknown id throws; otherwise every edge into v is dropped from every
    * list, then v's own list, planet and name go. */
  function RemoveVertexFrom(g: GraphState, v: int): (r: Result<GraphState>)
    ensures r.Ok? <==> v in g.adj && v in g.planets
    ensures r.Err? ==> r.error == VertexNotFound(Vertex, v)
    ensures r.Ok? ==>
      && r.value.adj.Keys == g.adj.Keys - {v}
      && (forall u :: u in r.value.adj ==> r.value.adj[u] == WithoutTarget(g.adj[u], v))
      && r.value.planets == g.planets - {v}
      && r.value.vertexCount == g.vertexCount - 1
      && r.value.nextId == g.nextId
    ensures r.Ok? && WellFormed(g) ==>
      && WellFormed(r.value)
      && g.planets[v].name !in r.value.names
      && (forall u, e :: u in r.value.adj && e in r.value.adj[u] ==> e.to != v)
  {
    if v !in g.adj || v !in g.planets then Err(VertexNotFound(Vertex, v))
    else
      assert WellFormed(g) ==> WellFormed(Removal(g, v)) by {
        if WellFormed(g) { RemovalKeepsWellFormed(g, v); }
      }
      Ok(Removal(g, v))
  }

  /** The graph without v: its edges in, its list, its planet and its name dropped. */
  function Removal(g: GraphState, v: int): (g': GraphState)
    requires v in g.planets
    ensures g'.adj.Keys == g.adj.Keys - {v} && g'.planets.Keys == g.planets.Keys - {v}
    ensures forall u :: u in g'.adj ==> g'.adj[u] == WithoutTarget(g.adj[u], v)
  {
    GraphState(DropTarget(g.adj, v) - {v}, g.planets - {v}, g.names - {g.planets[v].name},
               g.vertexCount - 1, g.nextId)
  }

  /** Removing v keeps the names and the ids of the remaining planets in correspondence. */
  lemma RemovalKeepsNames(g: GraphState, v: int)
    requires WellFormed(g) && v in g.adj
    ensures var g' := Removal(g, v);
      && (forall n :: n in g'.names ==> g'.names[n] in g'.planets && g'.planets[g'.names[n]].name == n)
      && (forall u :: u in g'.planets ==> g'.planets[u].name in g'.names && g'.names[g'.planets[u].name] == u)
  {
    var g' := Removal(g, v);
    var name := g.planets[v].name;
    forall n | n in g'.names
      ensures g'.names[n] in g'.planets && g'.planets[g'.names[n]].name == n
    {
      assert g.names[n] != v;
    }
    forall u | u in g'.planets
      ensures g'.planets[u].name in g'.names && g'.names[g'.planets[u].name] == u
    {
      assert g.planets[u].name != name;
    }
  }

  /** Removing v leaves every remaining edge in its list and between remaining vertices. */
  lemma RemovalKeepsEdges(g: GraphState, v: int)
    requires WellFormed(g) && v in g.adj
    ensures var g' := Removal(g, v);
      forall u, e :: u in g'.adj && e in g'.adj[u] ==> e.from == u && e.to in g'.adj && e.to != v
  {
    var g' := Removal(g, v);
    forall u, e | u in g'.adj && e in g'.adj[u]
      ensures e.from == u && e.to in g'.adj && e.to != v
    {
      assert e in g.adj[u];
    }
  }

  /** Dropping v keeps a well-formed graph well-formed, and leaves no edge into v. */
  lemma RemovalKeepsWellFormed(g: GraphState, v: int)
    requires WellFormed(g) && v in g.adj
    ensures WellFormed(Removal(g, v))
    ensures forall u, e :: u in Removal(g, v).adj && e in Removal(g, v).adj[u] ==> e.to != v
  {
    var g' := Removal(g, v);
    assert |g'.adj.Keys| == |g.adj.Keys| - 1;
    RemovalKeepsNames(g, v);
    RemovalKeepsEdges(g, v);
  }

  /** RemoveVertex by name: an unknown name throws; otherwise RemoveVertex on its id. */
  function RemoveVertexByName(g: GraphState, name: string): (r: Result<GraphState>)
    ensures name !in g.names ==> r == Err(PlanetNotFound(Vertex, name))
    ensures WellFormed(g) && name in g.names ==> r == RemoveVertexFrom(g, g.names[name]) && r.Ok?
    ensures WellFormed(g) && r.Ok? ==> WellFormed(r.value) && name !in r.value.names
  {
    if name !in g.names then Err(PlanetNotFound(Vertex, name))
    else RemoveVertexFrom(g, g.names[name])
  }

  /** RemoveEdge by ids: an unknown endpoint throws; otherwise every edge from -> to goes,
    * the rest of from's list keeping its order. */
  function RemoveEdgeFrom(g: GraphState, from: int, to: int): (r: Result<GraphState>)
    ensures r.Ok? <==> from in g.adj && to in g.adj
    ensures from !in g.adj ==> r == Err(VertexNotFound(Source, from))
    ensures from in g.adj && to !in g.adj ==> r == Err(VertexNotFound(Destination, to))
    ensures r.Ok? ==>
      && r.value.adj.Keys == g.adj.Keys
      && r.value.adj[from] == WithoutTarget(g.adj[from], to)
      && (forall v :: v in g.adj && v != from ==> r.value.adj[v] == g.adj[v])
      && r.value == g.(adj := r.value.adj)
      && !HasEdge(r.value, from, to)
    ensures r.Ok? && !HasEdge(g, from, to) ==> r.value == g
    ensures r.Ok? && WellFormed(g) ==> WellFormed(r.value)
  {
    if from !in g.adj then Err(VertexNotFound(Source, from))
    else if to !in g.adj then Err(VertexNotFound(Destination, to))
    else
      var g' := g.(adj := g.adj[from := WithoutTarget(g.adj[from], to)]);
      assert !HasEdge(g, from, to) ==> g' == g by {
        if !HasEdge(g, from, to) {
          assert g'.adj == g.adj;
        }
      }
      Ok(g')
  }

  /** RemoveEdge by names: an unknown name throws; otherwise RemoveEdge on the ids. */
  function RemoveEdgeByName(g: GraphState, fromName: string, toName: string): (r: Result<GraphState>)
    ensures fromName !in g.names ==> r == Err(PlanetNotFound(Source, fromName))
    ensures fromName in g.names && toName !in g.names ==> r == Err(PlanetNotFound(Destination, toName))
    ensures WellFormed(g) && fromName in g.names && toName in g.names ==>
      r == RemoveEdgeFrom(g, g.names[fromName], g.names[toName]) && r.Ok?
  {
    if fromName !in g.names then Err(PlanetNotFound(Source, fromName))
    else if toName !in g.names then Err(PlanetNotFound(Destination, toName))
    else RemoveEdgeFrom(g, g.names[fromName], g.names[toName])
  }

  /** UpdateEdgeDistance: an unknown endpoint throws; otherwise the first edge from -> to, if there
    * is one, gets the clamped distance, and nothing else changes. */
  function UpdateDistanceIn(g: GraphState, from: int, to: int, newDistance: real): (r: Result<GraphState>)
    ensures r.Ok? <==> from in g.adj && to in g.adj
    ensures from !in g.adj ==> r == Err(VertexNotFound(Source, from))
    ensures from in g.adj && to !in g.adj ==> r == Err(VertexNotFound(Destination, to))
    ensures r.Ok? ==>
      && r.value.adj.Keys == g.adj.Keys
      && r.value.adj[from] == UpdateFirst(g.adj[from], to, ClampDistance(newDistance))
      && (forall v :: v in g.adj && v != from ==> r.value.adj[v] == g.adj[v])
      && r.value == g.(adj := r.value.adj)
    ensures r.Ok? && !HasEdge(g, from, to) ==> r.value == g
    ensures r.Ok? && WellFormed(g) ==> WellFormed(r.value)
  {
    if from !in g.adj then Err(VertexNotFound(Source, from))
    else if to !in g.adj then Err(VertexNotFound(Destination, to))
    else
      var s := g.adj[from];
      var g' := g.(adj := g.adj[from := UpdateFirst(s, to, ClampDistance(newDistance))]);
      assert !HasEdge(g, from, to) ==> g' == g by {
        if !HasEdge(g, from, to) {
          assert FirstMatch(s, to).None?;
          assert g'.adj == g.adj;
        }
      }
      assert WellFormed(g) ==> WellFormed(g') by {
        if WellFormed(g) {
          var s' := g'.adj[from];
          forall e | e in s' ensures e.from == from && e.to in g.adj {
            var k :| 0 <= k < |s'| && s'[k] == e;
            assert s[k] in s;
          }
        }
      }
      Ok(g')
  }

  /** SetArtifact: an unknown vertex throws; otherwise only that planet's flag changes. */
  function SetArtifactIn(g: GraphState, v: int, flag: bool): (r: Result<GraphState>)
    ensures r.Ok? <==> v in g.adj
    ensures r.Err? ==> r.error == VertexNotFound(Vertex, v)
    ensures r.Ok? ==> r.value == g.(planets := r.value.planets) && r.value.planets.Keys == g.planets.Keys + {v}
    ensures r.Ok? ==> r.value.planets[v].hasArtifact == flag
    ensures r.Ok? ==> forall u :: u in g.planets && u != v ==> r.value.planets[u] == g.planets[u]
    ensures r.Ok? && v in g.planets ==> r.value.planets[v] == g.planets[v].(hasArtifact := flag)
    ensures r.Ok? && WellFormed(g) ==> WellFormed(r.value)
  {
    if v !in g.adj then Err(VertexNotFound(Vertex, v))
    else
      // planetData[vertex] default-constructs a missing entry before setting its flag
      var p := if v in g.planets then g.planets[v] else PlanetData("", -1, false);
      Ok(g.(planets := g.planets[v := p.(hasArtifact := flag)]))
  }

  /** Ids are never reused before a Clear: a vertex added after another has a larger id. */
  lemma IdsIncrease(g: GraphState, a: string, b: string)
    requires WellFormed(g)
    requires AddVertexTo(g, a).Ok?
    requires AddVertexTo(AddVertexTo(g, a).value, b).Ok?
    ensures var g1 := AddVertexTo(g, a).value;
      && g1.nextId > g.nextId
      && g.nextId in g1.adj
      && AddVertexTo(g1, b).value.names[b] > g1.names[a]
  {
  }

  /** Removing a vertex and adding its name again gives a fresh id, never the old one. */
  lemma ReAddedNameGetsNewId(g: GraphState, name: string)
    requires WellFormed(g) && name in g.names
    ensures var g1 := RemoveVertexByName(g, name).value;
      && AddVertexTo(g1, name).Ok?
      && AddVertexTo(g1, name).value.names[name] != g.names[name]
  {
    var g1 := RemoveVertexByName(g, name).value;
    assert g.names[name] < g.nextId == g1.nextId;
  }
}
