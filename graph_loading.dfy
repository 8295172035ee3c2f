/** The graph file loader on a sequence of lines: a "[PLANETS]" section of planet names, an
  * "[EDGES]" section of "from to distance risk" lines, '#' comments and blank lines. */
module GraphLoading {
  import opened Errors
  import opened GraphModel
  import opened LineFormat

  /** The section the loader is in: none before the first header. */
  datatype Section = NoSection | Planets | Edges

  datatype LoadState = LoadState(graph: GraphState, section: Section)

  /** What the loader leaves behind: the graph as far as it got, and whether it finished. */
  datatype LoadResult = LoadResult(graph: GraphState, outcome: Outcome)

  /** Whether a trimmed line is skipped as blank or as a comment. */
  predicate IsSkipped(line: string): (b: bool)
    ensures line == [] ==> b
    ensures |line| > 0 ==> (b <==> line[0] == '#')
    ensures line == "[PLANETS]" || line == "[EDGES]" ==> !b
  {
    line == [] || line[0] == '#'
  }

  /** A trimmed line that is neither skipped nor a section header: a planet or an edge. */
  predicate IsDataLine(line: string) {
    !IsSkipped(line) && line != "[PLANETS]" && line != "[EDGES]"
  }

  /** One iteration of the loader loop on one raw line. A duplicate planet and an unparsable number
    * end the load; an edge line of fewer than four tokens or with an unknown name is skipped.
    * `parse` stands for std::stod: None where it throws. */
  function LoadLine(st: LoadState, raw: string, parse: string -> Option<real>): (r: Result<LoadState>)
    ensures r.Err? ==> r.error.DuplicateName? || r.error.InvalidNumber?
    ensures r.Err? && r.error.DuplicateName? ==> st.section == Planets && r.error.name in st.graph.names
    ensures r.Ok? ==> st.graph.adj.Keys <= r.value.graph.adj.Keys
    ensures r.Ok? ==> forall n :: n in st.graph.names ==> n in r.value.graph.names && r.value.graph.names[n] == st.graph.names[n]
    ensures r.Ok? && WellFormed(st.graph) ==> WellFormed(r.value.graph)
    ensures IsSkipped(Trim(raw)) ==> r == Ok(st)
    ensures Trim(raw) == "[PLANETS]" ==> r == Ok(st.(section := Planets))
    ensures Trim(raw) == "[EDGES]" ==> r == Ok(st.(section := Edges))
    ensures r.Ok? && !IsDataLine(Trim(raw)) ==> r.value.graph == st.graph
    ensures IsDataLine(Trim(raw)) ==> r.Err? || r.value.section == st.section
    ensures st.section == NoSection && IsDataLine(Trim(raw)) ==> r == Ok(st)
    ensures st.section == Planets && IsDataLine(Trim(raw)) && Trim(raw) in st.graph.names ==>
      r == Err(DuplicateName(Trim(raw)))
    ensures st.section == Planets && IsDataLine(Trim(raw)) && Trim(raw) !in st.graph.names ==>
      r.Ok? && r.value.graph == AddVertexTo(st.graph, Trim(raw)).value
    ensures st.section == Edges && IsDataLine(Trim(raw)) ==>
      (r.Err? <==> LoadEdgeLine(st.graph, Trim(raw), parse).Err?) &&
      (r.Ok? ==> r.value.graph == LoadEdgeLine(st.graph, Trim(raw), parse).value)
  {
    var line := Trim(raw);
    if IsSkipped(line) then Ok(st)
    else if line == "[PLANETS]" then Ok(st.(section := Planets))
    else if line == "[EDGES]" then Ok(st.(section := Edges))
    else match st.section {
      case NoSection => Ok(st)
      case Planets =>
        match AddVertexTo(st.graph, line) {
          case Err(e) => Err(e)
          case Ok(g) => Ok(st.(graph := g))
        }
      case Edges =>
        match LoadEdgeLine(st.graph, line, parse) {
          case Err(e) => Err(e)
          case Ok(g) => Ok(st.(graph := g))
        }
    }
  }

  /** A trimmed data line in the edges section: at least four tokens, the last two the distance
    * and the risk, the rest split evenly into the two names. */
  function LoadEdgeLine(g: GraphState, line: string, parse: string -> Option<real>): (r: Result<GraphState>)
    ensures r.Err? ==> r.error.InvalidNumber?
    ensures r.Ok? ==> g.adj.Keys == r.value.adj.Keys && g.names == r.value.names
    ensures r.Ok? && WellFormed(g) ==> WellFormed(r.value)
    ensures |Tokens(line)| < 4 ==> r == Ok(g)
    ensures |Tokens(line)| >= 4 ==>
      (r.Err? <==> !NumberTokensParse(Tokens(line), parse))
    ensures NumberTokensParse(Tokens(line), parse) ==>
      (SplitNames(Tokens(line)).0 !in g.names || SplitNames(Tokens(line)).1 !in g.names) ==> r == Ok(g)
    ensures NumberTokensParse(Tokens(line), parse) && WellFormed(g) ==>
      SplitNames(Tokens(line)).0 in g.names && SplitNames(Tokens(line)).1 in g.names ==>
      && r.Ok? && r.value != g
      && r == AddEdgeByName(g, SplitNames(Tokens(line)).0, SplitNames(Tokens(line)).1, ParsedEdgeData(Tokens(line), parse))
    ensures r.Ok? && r.value != g ==>
      && NumberTokensParse(Tokens(line), parse)
      && AddEdgeByName(g, SplitNames(Tokens(line)).0, SplitNames(Tokens(line)).1, ParsedEdgeData(Tokens(line), parse)) == Ok(r.value)
  {
    var tokens := Tokens(line);
    if |tokens| < 4 then Ok(g)
    else
      match parse(tokens[|tokens| - 2]) {
        case None => Err(InvalidNumber(tokens[|tokens| - 2]))
        case Some(distance) =>
          match parse(tokens[|tokens| - 1]) {
            case None => Err(InvalidNumber(tokens[|tokens| - 1]))
            case Some(risk) =>
              var (fromName, toName) := SplitNames(tokens);
              match AddEdgeByName(g, fromName, toName, EdgeData(distance, risk)) {
                case Err(_) => Ok(g)
                case Ok(g') => Ok(g')
              }
          }
      }
  }

  /** Whether an edge line has at least four tokens and std::stod accepts its last two. */
  predicate NumberTokensParse(tokens: seq<string>, parse: string -> Option<real>) {
    |tokens| >= 4 && parse(tokens[|tokens| - 2]).Some? && parse(tokens[|tokens| - 1]).Some?
  }

  /** The distance and the risk of an edge line whose numbers parse. */
  function ParsedEdgeData(tokens: seq<string>, parse: string -> Option<real>): EdgeData
    requires NumberTokensParse(tokens, parse)
  {
    EdgeData(parse(tokens[|tokens| - 2]).value, parse(tokens[|tokens| - 1]).value)
  }

  /** The loader loop over lines, stopping at the first exception with the graph built so far. */
  function LoadLines(st: LoadState, lines: seq<string>, parse: string -> Option<real>): (r: (LoadState, Outcome))
    ensures r.1.Fail? ==> r.1.error.DuplicateName? || r.1.error.InvalidNumber?
    ensures st.graph.adj.Keys <= r.0.graph.adj.Keys
    ensures WellFormed(st.graph) ==> WellFormed(r.0.graph)
    decreases |lines|
  {
    if lines == [] then (st, Pass)
    else match LoadLine(st, lines[0], parse) {
      case Err(e) => (st, Fail(e))
      case Ok(st') => LoadLines(st', lines[1..], parse)
    }
  }

  /** LoadFromFile on the file's lines: the graph is cleared first, and no section is open. */
  function Load(lines: seq<string>, parse: string -> Option<real>): (r: LoadResult)
    ensures WellFormed(r.graph)
    ensures r.outcome.Fail? ==> r.outcome.error.DuplicateName? || r.outcome.error.InvalidNumber?
  {
    var (st, outcome) := LoadLines(LoadState(Empty(), NoSection), lines, parse);
    LoadResult(st.graph, outcome)
  }

  /** Data lines before the first section header change nothing. */
  lemma {:induction false} LinesBeforeSectionsIgnored(st: LoadState, lines: seq<string>, parse: string -> Option<real>)
    requires st.section == NoSection
    requires forall k :: 0 <= k < |lines| ==> Trim(lines[k]) != "[PLANETS]" && Trim(lines[k]) != "[EDGES]"
    ensures LoadLines(st, lines, parse) == (st, Pass)
    decreases |lines|
  {
    if lines != [] {
      assert LoadLine(st, lines[0], parse) == Ok(st);
      LinesBeforeSectionsIgnored(st, lines[1..], parse);
    }
  }

  /** A planet line as written: a non-empty name with no blank at either end, not a comment and not a header. */
  ghost predicate IsPlanetLine(name: string) {
    name != [] && !IsTrimChar(name[0]) && !IsTrimChar(name[|name| - 1])
    && name[0] != '#' && name != "[PLANETS]" && name != "[EDGES]"
  }

  /** In the planets section, distinct new names get consecutive ids from the counter, in order,
    * and the names already there keep theirs. */
  lemma {:induction false} PlanetLinesGetConsecutiveIds(st: LoadState, ns: seq<string>, parse: string -> Option<real>)
    requires st.section == Planets && WellFormed(st.graph)
    requires forall k :: 0 <= k < |ns| ==> IsPlanetLine(ns[k]) && ns[k] !in st.graph.names
    requires forall i, j :: 0 <= i < j < |ns| ==> ns[i] != ns[j]
    ensures var (st', outcome) := LoadLines(st, ns, parse);
      && outcome == Pass && st'.section == Planets
      && st'.graph.nextId == st.graph.nextId + |ns|
      && (forall k :: 0 <= k < |ns| ==> ns[k] in st'.graph.names && st'.graph.names[ns[k]] == st.graph.nextId + k)
      && (forall n :: n in st.graph.names ==> n in st'.graph.names && st'.graph.names[n] == st.graph.names[n])
    decreases |ns|
  {
    if ns != [] {
      var name := ns[0];
      var g1 := AddVertexTo(st.graph, name).value;
      var st1 := st.(graph := g1);
      PlanetLineAddsPlanet(st, name, parse);
      var rest := ns[1..];
      forall k | 0 <= k < |rest| ensures IsPlanetLine(rest[k]) && rest[k] !in g1.names {
        assert rest[k] == ns[k + 1];
      }
      PlanetLinesGetConsecutiveIds(st1, rest, parse);
      var (st', outcome) := LoadLines(st1, rest, parse);
      forall k | 0 <= k < |ns| ensures ns[k] in st'.graph.names && st'.graph.names[ns[k]] == st.graph.nextId + k {
        if k > 0 {
          assert ns[k] == rest[k - 1];
        }
      }
    }
  }

  /** In the planets section, a planet line with a new name adds that planet under the next id. */
  lemma PlanetLineAddsPlanet(st: LoadState, name: string, parse: string -> Option<real>)
    requires st.section == Planets && WellFormed(st.graph)
    requires IsPlanetLine(name) && name !in st.graph.names
    ensures AddVertexTo(st.graph, name).Ok?
    ensures LoadLine(st, name, parse) == Ok(st.(graph := AddVertexTo(st.graph, name).value))
  {
    TrimOfUnpadded(name);
  }

  /** An edge line in the format SaveToFile writes, with names of equal word count that both
    * resolve and numbers that parse, adds exactly that edge. */
  lemma EdgeLineAddsEdge(st: LoadState, from: seq<string>, to: seq<string>, distance: string, risk: string,
                         parse: string -> Option<real>)
    requires st.section == Edges && WellFormed(st.graph)
    requires |from| == |to| > 0
    requires forall k :: 0 <= k < |from| ==> IsWord(from[k])
    requires forall k :: 0 <= k < |to| ==> IsWord(to[k])
    requires IsWord(distance) && IsWord(risk) && parse(distance).Some? && parse(risk).Some?
    requires from[0] != [] && from[0][0] != '#'
    requires JoinWords(from) in st.graph.names && JoinWords(to) in st.graph.names
    ensures var line := JoinWords(from + to + [distance, risk]);
      var g := st.graph;
      LoadLine(st, line, parse) ==
        Ok(st.(graph := AddEdgeTo(g, g.names[JoinWords(from)], g.names[JoinWords(to)],
                                  EdgeData(parse(distance).value, parse(risk).value)).value))
  {
    var ts := from + to + [distance, risk];
    EdgeLineTokens(from, to, distance, risk);
    assert ts[|ts| - 2] == distance && ts[|ts| - 1] == risk;
  }

  /** Such an edge line is a data line whose tokens are the words it was joined from. */
  lemma EdgeLineTokens(from: seq<string>, to: seq<string>, distance: string, risk: string)
    requires |from| == |to| > 0
    requires forall k :: 0 <= k < |from| ==> IsWord(from[k])
    requires forall k :: 0 <= k < |to| ==> IsWord(to[k])
    requires IsWord(distance) && IsWord(risk)
    requires from[0] != [] && from[0][0] != '#'
    ensures var ts := from + to + [distance, risk];
      var line := JoinWords(ts);
      && Trim(line) == line && !IsSkipped(line)
      && line != "[PLANETS]" && line != "[EDGES]"
      && Tokens(line) == ts
      && SplitNames(ts) == (JoinWords(from), JoinWords(to))
  {
    var ts := from + to + [distance, risk];
    EdgeLineRoundTrip(from, to, distance, risk);
    EdgeLineIsData(ts);
    assert ts[0] == from[0];
  }

  /** A line of four or more words joined by spaces is kept whole by the trim and is not a header. */
  lemma EdgeLineIsData(ts: seq<string>)
    requires |ts| >= 4 && forall k :: 0 <= k < |ts| ==> IsWord(ts[k])
    ensures Trim(JoinWords(ts)) == JoinWords(ts)
    ensures JoinWords(ts) != [] && ts[0] != [] && JoinWords(ts)[0] == ts[0][0]
    ensures JoinWords(ts) != "[PLANETS]" && JoinWords(ts) != "[EDGES]"
  {
    var line := JoinWords(ts);
    JoinWordsEnds(ts);
    assert IsWord(ts[0]) && IsWord(ts[|ts| - 1]);
    TrimOfUnpadded(line);
    NotAHeader(ts);
  }

  lemma TrimOfUnpadded(line: string)
    requires line != [] && !IsTrimChar(line[0]) && !IsTrimChar(line[|line| - 1])
    ensures Trim(line) == line
  {
    TrimRecoversMiddle([], line, []);
    assert [] + line + [] == line;
  }

  lemma NotAHeader(ts: seq<string>)
    requires |ts| >= 4 && forall k :: 0 <= k < |ts| ==> IsWord(ts[k])
    ensures JoinWords(ts) != "[PLANETS]" && JoinWords(ts) != "[EDGES]"
  {
    TokensOfJoinWords(ts);
    HeaderIsOneToken();
  }

  lemma HeaderIsOneToken()
    ensures |Tokens("[PLANETS]")| == 1 && |Tokens("[EDGES]")| == 1
  {
    PlanetsHeaderIsOneToken();
    EdgesHeaderIsOneToken();
  }

  lemma PlanetsHeaderIsOneToken()
    ensures |Tokens("[PLANETS]")| == 1
  {
    WordIsOneToken("[PLANETS]");
  }

  lemma EdgesHeaderIsOneToken()
    ensures |Tokens("[EDGES]")| == 1
  {
    WordIsOneToken("[EDGES]");
  }
}
