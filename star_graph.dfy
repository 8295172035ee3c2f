/** The directed weighted graph of planets and hyperspace transitions, as a class whose methods
  * update its maps and counters in place. Each mutator is specified by the function of
  * GraphModel that says what the graph becomes. */
module StarGraphs {
  import opened Errors
  import opened GraphModel
  import opened GraphLoading
  import opened LineFormat

  /** The list-rebuilding loop of RemoveVertex and RemoveEdge: the edges not ending at target, in order. */
  method FilterEdges(edges: seq<Edge>, target: int) returns (newEdges: seq<Edge>)
    ensures newEdges == WithoutTarget(edges, target)
  {
    newEdges := [];
    var i := 0;
    while i < |edges|
      invariant 0 <= i <= |edges|
      invariant newEdges == WithoutTarget(edges[..i], target)
    {
      assert edges[..i + 1][..i] == edges[..i];
      if edges[i].to != target {
        newEdges := newEdges + [edges[i]];
      }
      i := i + 1;
    }
    assert edges[..|edges|] == edges;
  }

  /** An operation that returns nothing took effect as spec says: on Ok the graph became its
    * value, on Err the same error is reported and the graph is unchanged. */
  ghost predicate Applied(spec: Result<GraphState>, r: Outcome, before: GraphState, after: GraphState) {
    match spec
    case Ok(g) => r == Pass && after == g
    case Err(e) => r == Fail(e) && after == before
  }

  /** As Applied, for AddVertex, which returns the id the counter held before the call. */
  ghost predicate AppliedAdd(spec: Result<GraphState>, r: Result<int>, before: GraphState, after: GraphState) {
    match spec
    case Ok(g) => r == Ok(before.nextId) && after == g
    case Err(e) => r == Err(e) && after == before
  }

  /** As Applied, for one loader line, which also moves the loader to a section. */
  ghost predicate LineApplied(spec: Result<LoadState>, section: Section, r: Outcome, before: GraphState, after: GraphState) {
    match spec
    case Ok(st) => r == Pass && after == st.graph && section == st.section
    case Err(e) => r == Fail(e) && after == before
  }

  /** A non-empty set has an element. */
  lemma NonEmptyHasElement(s: set<int>)
    requires s != {}
    ensures exists x :: x in s
  {
    if forall x :: x !in s {
      assert false;
    }
  }

  class StarGraph {
    var adjacencyList: map<int, seq<Edge>>
    var planetData: map<int, PlanetData>
    var nameToIndex: map<string, int>
    var vertexCount: int
    var nextVertexId: int

    /** The fields as one value. */
    function State(): GraphState
      reads this
    {
      GraphState(adjacencyList, planetData, nameToIndex, vertexCount, nextVertexId)
    }

    ghost predicate Valid()
      reads this
    {
      WellFormed(State())
    }

    /** A new graph has no vertices and starts numbering at 0. */
    constructor ()
      ensures Valid() && State() == Empty()
    {
      adjacencyList, planetData, nameToIndex := map[], map[], map[];
      vertexCount, nextVertexId := 0, 0;
    }

    /** Adds a planet and returns its id, the id counter's value; DuplicateName if the name is taken. */
    method AddVertex(name: string) returns (r: Result<int>)
      requires Valid()
      modifies this
      ensures Valid()
      ensures AppliedAdd(AddVertexTo(old(State()), name), r, old(State()), State())
    {
      if name in nameToIndex {
        return Err(DuplicateName(name));
      }
      AdditionKeepsWellFormed(State(), name);
      var id := nextVertexId;
      Commit(GraphState(adjacencyList[id := []], planetData[id := PlanetData(name, id, false)],
                        nameToIndex[name := id], vertexCount + 1, nextVertexId + 1));
      return Ok(id);
    }

    /** Appends the edge from -> to to from's list; VertexNotFound for an unknown endpoint. */
    method AddEdge(from: int, to: int, data: EdgeData) returns (r: Outcome)
      requires Valid()
      modifies this
      ensures Valid()
      ensures Applied(AddEdgeTo(old(State()), from, to, data), r, old(State()), State())
    {
      if from !in adjacencyList {
        return Fail(VertexNotFound(Source, from));
      }
      if to !in adjacencyList {
        return Fail(VertexNotFound(Destination, to));
      }
      adjacencyList := adjacencyList[from := adjacencyList[from] + [Edge(from, to, data)]];
      return Pass;
    }

    /** AddEdge between the planets with these names; PlanetNotFound for an unknown name. */
    method AddEdgeByName(fromName: string, toName: string, data: EdgeData) returns (r: Outcome)
      requires Valid()
      modifies this
      ensures Valid()
      ensures Applied(GraphModel.AddEdgeByName(old(State()), fromName, toName, data), r, old(State()), State())
    {
      if fromName !in nameToIndex {
        return Fail(PlanetNotFound(Source, fromName));
      }
      if toName !in nameToIndex {
        return Fail(PlanetNotFound(Destination, toName));
      }
      r := AddEdge(nameToIndex[fromName], nameToIndex[toName], data);
    }

    /** Removes vertex v, its planet, its name and every edge into it; VertexNotFound if absent. */
    method RemoveVertex(v: int) returns (r: Outcome)
      requires Valid()
      modifies this
      ensures Valid()
      ensures Applied(RemoveVertexFrom(old(State()), v), r, old(State()), State())
    {
      if v !in adjacencyList || v !in planetData {
        return Fail(VertexNotFound(Vertex, v));
      }
      ghost var g0 := State();
      ghost var g1 := Removal(g0, v);
      assert RemoveVertexFrom(g0, v) == Ok(g1);
      RemovalKeepsWellFormed(g0, v);
      var name := planetData[v].name;
      DropEdgesTo(v);
      var g := GraphState(adjacencyList - {v}, planetData - {v}, nameToIndex - {name}, vertexCount - 1, nextVertexId);
      assert g == g1;
      Commit(g);
      return Pass;
    }

    /** Stores the five fields of g at once. */
    method Commit(g: GraphState)
      modifies this
      ensures State() == g
    {
      adjacencyList, planetData, nameToIndex, vertexCount, nextVertexId := g.adj, g.planets, g.names, g.vertexCount, g.nextId;
    }

    /** The loop of RemoveVertex over all lists: each one rebuilt without the edges into v. */
    method DropEdgesTo(v: int)
      modifies this
      ensures adjacencyList == DropTarget(old(adjacencyList), v)
      ensures planetData == old(planetData) && nameToIndex == old(nameToIndex)
      ensures vertexCount == old(vertexCount) && nextVertexId == old(nextVertexId)
    {
      ghost var adj0 := adjacencyList;
      var remaining := adjacencyList.Keys;
      while remaining != {}
        invariant remaining <= adj0.Keys && adjacencyList.Keys == adj0.Keys
        invariant forall u :: u in adj0 && u in remaining ==> adjacencyList[u] == adj0[u]
        invariant forall u :: u in adj0 && u !in remaining ==> adjacencyList[u] == WithoutTarget(adj0[u], v)
        invariant planetData == old(planetData) && nameToIndex == old(nameToIndex)
        invariant vertexCount == old(vertexCount) && nextVertexId == old(nextVertexId)
        decreases |remaining|
      {
        NonEmptyHasElement(remaining);
        var u :| u in remaining;
        var newEdges := FilterEdges(adjacencyList[u], v);
        adjacencyList := adjacencyList[u := newEdges];
        remaining := remaining - {u};
      }
      ghost var filtered := DropTarget(adj0, v);
      assert adjacencyList.Keys == filtered.Keys;
      assert forall u :: u in filtered ==> adjacencyList[u] == filtered[u];
    }

    /** RemoveVertex on the planet with this name; PlanetNotFound if absent. */
    method RemoveVertexByName(name: string) returns (r: Outcome)
      requires Valid()
      modifies this
      ensures Valid()
      ensures Applied(GraphModel.RemoveVertexByName(old(State()), name), r, old(State()), State())
    {
      if name !in nameToIndex {
        return Fail(PlanetNotFound(Vertex, name));
      }
      r := RemoveVertex(nameToIndex[name]);
    }

    /** Removes every edge from -> to; VertexNotFound for an unknown endpoint. */
    method RemoveEdge(from: int, to: int) returns (r: Outcome)
      requires Valid()
      modifies this
      ensures Valid()
      ensures Applied(RemoveEdgeFrom(old(State()), from, to), r, old(State()), State())
    {
      var fromPresent := HasVertex(from);
      if !fromPresent {
        return Fail(VertexNotFound(Source, from));
      }
      var toPresent := HasVertex(to);
      if !toPresent {
        return Fail(VertexNotFound(Destination, to));
      }
      var newEdges := FilterEdges(adjacencyList[from], to);
      adjacencyList := adjacencyList[from := newEdges];
      return Pass;
    }

    /** RemoveEdge between the planets with these names; PlanetNotFound for an unknown name. */
    method RemoveEdgeByName(fromName: string, toName: string) returns (r: Outcome)
      requires Valid()
      modifies this
      ensures Valid()
      ensures Applied(GraphModel.RemoveEdgeByName(old(State()), fromName, toName), r, old(State()), State())
    {
      var fromPresent := HasVertexByName(fromName);
      if !fromPresent {
        return Fail(PlanetNotFound(Source, fromName));
      }
      var toPresent := HasVertexByName(toName);
      if !toPresent {
        return Fail(PlanetNotFound(Destination, toName));
      }
      r := RemoveEdge(nameToIndex[fromName], nameToIndex[toName]);
    }

    /** Sets the distance of the first edge from -> to, clamped to at least 1; no edge, no change. */
    method UpdateEdgeDistance(from: int, to: int, newDistance: real) returns (r: Outcome)
      requires Valid()
      modifies this
      ensures Valid()
      ensures Applied(UpdateDistanceIn(old(State()), from, to, newDistance), r, old(State()), State())
    {
      if from !in adjacencyList {
        return Fail(VertexNotFound(Source, from));
      }
      if to !in adjacencyList {
        return Fail(VertexNotFound(Destination, to));
      }
      var distance := newDistance;
      if distance < 1.0 {
        distance := 1.0;
      }
      var edges := adjacencyList[from];
      var i := 0;
      while i < |edges|
        invariant 0 <= i <= |edges|
        invariant forall k :: 0 <= k < i ==> edges[k].to != to
      {
        if edges[i].to == to {
          assert FirstMatch(edges, to) == Some(i);
          adjacencyList := adjacencyList[from := edges[i := edges[i].(data := edges[i].data.(distance := distance))]];
          return Pass;
        }
        i := i + 1;
      }
      return Pass;
    }

    /** The outgoing edges of v; VertexNotFound if absent. */
    method GetEdges(v: int) returns (r: Result<seq<Edge>>)
      ensures r.Ok? <==> v in adjacencyList
      ensures r.Ok? ==> r.value == adjacencyList[v]
      ensures r.Err? ==> r.error == VertexNotFound(Vertex, v)
    {
      if v !in adjacencyList {
        return Err(VertexNotFound(Vertex, v));
      }
      return Ok(adjacencyList[v]);
    }

    /** The id of the planet with this name; PlanetNotFound if absent. */
    method GetVertexIndex(name: string) returns (r: Result<int>)
      requires Valid()
      ensures r.Ok? <==> name in nameToIndex
      ensures r.Ok? ==> r.value == nameToIndex[name]
      ensures r.Ok? ==> r.value in adjacencyList && planetData[r.value].name == name
      ensures r.Err? ==> r.error == PlanetNotFound(Vertex, name)
    {
      if name !in nameToIndex {
        return Err(PlanetNotFound(Vertex, name));
      }
      return Ok(nameToIndex[name]);
    }

    /** The name of vertex index; VertexNotFound if absent. */
    method GetVertexName(index: int) returns (r: Result<string>)
      requires Valid()
      ensures r.Ok? <==> index in planetData
      ensures r.Ok? ==> r.value == planetData[index].name
      ensures r.Ok? ==> r.value in nameToIndex && nameToIndex[r.value] == index
      ensures r.Err? ==> r.error == VertexNotFound(Vertex, index)
    {
      if index !in planetData {
        return Err(VertexNotFound(Vertex, index));
      }
      return Ok(planetData[index].name);
    }

    /** The planet record of vertex index; VertexNotFound if absent. */
    method GetPlanetData(index: int) returns (r: Result<PlanetData>)
      requires Valid()
      ensures r.Ok? <==> index in planetData
      ensures r.Ok? ==> r.value == planetData[index] && r.value.id == index
      ensures r.Err? ==> r.error == VertexNotFound(Vertex, index)
    {
      if index !in planetData {
        return Err(VertexNotFound(Vertex, index));
      }
      return Ok(planetData[index]);
    }

    /** Sets the artifact flag of vertex v; VertexNotFound if absent. */
    method SetArtifact(v: int, flag: bool) returns (r: Outcome)
      requires Valid()
      modifies this
      ensures Valid()
      ensures Applied(SetArtifactIn(old(State()), v, flag), r, old(State()), State())
    {
      var present := HasVertex(v);
      if !present {
        return Fail(VertexNotFound(Vertex, v));
      }
      var p := if v in planetData then planetData[v] else PlanetData("", -1, false);
      planetData := planetData[v := p.(hasArtifact := flag)];
      return Pass;
    }

    /** Whether vertex v holds an artifact: false for an unknown vertex. */
    method HasArtifact(v: int) returns (b: bool)
      requires Valid()
      ensures b <==> v in planetData && planetData[v].hasArtifact
    {
      if v !in planetData {
        return false;
      }
      return planetData[v].hasArtifact;
    }

    method HasVertex(v: int) returns (b: bool)
      requires Valid()
      ensures b <==> v in adjacencyList
      ensures b <==> v in planetData
    {
      return v in adjacencyList;
    }

    method HasVertexByName(name: string) returns (b: bool)
      requires Valid()
      ensures b <==> name in nameToIndex
      ensures b <==> exists v :: v in planetData && planetData[v].name == name
    {
      b := name in nameToIndex;
      if b {
        var v := nameToIndex[name];
        assert v in planetData && planetData[v].name == name;
      } else {
        forall v | v in planetData ensures planetData[v].name != name {
          assert planetData[v].name in nameToIndex;
        }
        assert !exists v :: v in planetData && planetData[v].name == name;
      }
    }

    method GetVertexCount() returns (n: int)
      requires Valid()
      ensures n == |adjacencyList.Keys|
    {
      return vertexCount;
    }

    /** Every vertex id exactly once, in an unspecified order. */
    method GetAllVertices() returns (vertices: seq<int>)
      requires Valid()
      ensures forall v :: v in vertices <==> v in adjacencyList
      ensures forall i, j :: 0 <= i < j < |vertices| ==> vertices[i] != vertices[j]
      ensures |vertices| == vertexCount
    {
      vertices := [];
      var remaining := adjacencyList.Keys;
      while remaining != {}
        invariant remaining <= adjacencyList.Keys
        invariant forall v :: v in vertices <==> v in adjacencyList && v !in remaining
        invariant forall i, j :: 0 <= i < j < |vertices| ==> vertices[i] != vertices[j]
        invariant |vertices| + |remaining| == |adjacencyList.Keys|
        decreases |remaining|
      {
        NonEmptyHasElement(remaining);
        var v :| v in remaining;
        vertices := vertices + [v];
        remaining := remaining - {v};
      }
    }

    /** Empties all three maps and resets both counters. */
    method Clear()
      modifies this
      ensures Valid() && State() == Empty()
    {
      adjacencyList, planetData, nameToIndex := map[], map[], map[];
      vertexCount, nextVertexId := 0, 0;
    }

    /** LoadFromFile on the file's lines: clears the graph, then loads line by line, stopping at
      * the first duplicate planet or unparsable number with the graph as far as it got. */
    method LoadFromLines(lines: seq<string>, parse: string -> Option<real>) returns (r: Outcome)
      modifies this
      ensures Valid()
      ensures State() == Load(lines, parse).graph && r == Load(lines, parse).outcome
    {
      Clear();
      var section := NoSection;
      var i := 0;
      while i < |lines|
        invariant 0 <= i <= |lines| && Valid()
        invariant LoadLines(LoadState(State(), section), lines[i..], parse)
               == LoadLines(LoadState(Empty(), NoSection), lines, parse)
      {
        LoadLinesStep(LoadState(State(), section), lines, i, parse);
        section, r := LoadOneLine(lines[i], section, parse);
        if r.Fail? {
          return;
        }
        i := i + 1;
      }
      assert lines[|lines|..] == [];
      return Pass;
    }

    /** The body of the loader loop: trims the line, then skips it, switches section, adds a
      * planet or adds an edge. */
    method LoadOneLine(raw: string, section: Section, parse: string -> Option<real>) returns (newSection: Section, r: Outcome)
      requires Valid()
      modifies this
      ensures Valid()
      ensures LineApplied(LoadLine(LoadState(old(State()), section), raw, parse), newSection, r, old(State()), State())
    {
      newSection := section;
      var line := Trim(raw);
      if IsSkipped(line) {
        return section, Pass;
      }
      if line == "[PLANETS]" {
        return Planets, Pass;
      } else if line == "[EDGES]" {
        return Edges, Pass;
      }
      if section == Planets {
        var added := AddVertex(line);
        if added.Err? {
          return section, Fail(added.error);
        }
      } else if section == Edges {
        r := LoadEdge(line, parse);
        return;
      }
      return section, Pass;
    }

    /** An edge line: tokenizes it, parses the two numbers, rebuilds the two names and adds the
      * edge, ignoring an unknown name. */
    method LoadEdge(line: string, parse: string -> Option<real>) returns (r: Outcome)
      requires Valid()
      modifies this
      ensures Valid()
      ensures Applied(LoadEdgeLine(old(State()), line, parse), r, old(State()), State())
    {
      var tokens := Tokenize(line);
      if |tokens| < 4 {
        return Pass;
      }
      var distance := parse(tokens[|tokens| - 2]);
      if distance.None? {
        return Fail(InvalidNumber(tokens[|tokens| - 2]));
      }
      var risk := parse(tokens[|tokens| - 1]);
      if risk.None? {
        return Fail(InvalidNumber(tokens[|tokens| - 1]));
      }
      var nameTokenCount := (|tokens| - 2) / 2;
      var fromName := JoinRange(tokens, 0, nameTokenCount);
      var toName := JoinRange(tokens, nameTokenCount, |tokens| - 2);
      assert (fromName, toName) == SplitNames(tokens);
      var _ := AddEdgeByName(fromName, toName, EdgeData(distance.value, risk.value));
      return Pass;
    }
  }

  /** One step of the loader fold: the rest of the load from line i is line i's step, then the rest. */
  lemma LoadLinesStep(st: LoadState, lines: seq<string>, i: nat, parse: string -> Option<real>)
    requires i < |lines|
    ensures LoadLine(st, lines[i], parse).Err? ==>
      LoadLines(st, lines[i..], parse) == (st, Fail(LoadLine(st, lines[i], parse).error))
    ensures LoadLine(st, lines[i], parse).Ok? ==>
      LoadLines(st, lines[i..], parse) == LoadLines(LoadLine(st, lines[i], parse).value, lines[i + 1..], parse)
  {
    assert lines[i..][0] == lines[i] && lines[i..][1..] == lines[i + 1..];
  }
}
