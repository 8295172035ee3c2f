# Star-map route planner: a Dafny model of its core

The game keeps a directed, weighted graph of planets ("star graph") and finds the cheapest
hyperspace route between two planets with Dijkstra's algorithm. A transition costs its distance
scaled by its pirate risk, `distance * (1 + risk)`. The graph can be loaded from a text file
with a `[PLANETS]` section and an `[EDGES]` section. The player's trader stands on a planet and
keeps statistics of the routes it has flown.

This project models that core in Dafny, one module per concern:

| file | module | models |
|---|---|---|
| `errors.dfy` | `Errors` | the exceptions the core throws, as `Result`/`Outcome` error values |
| `dynamic_array.dfy` | `DynamicArrays` | `DynamicArray<T>`: a class over an `array<T>` buffer with doubling growth |
| `priority_queue.dfy` | `PriorityQueues` | `PriorityQueue<T, K>` with `K = double` and `std::less`: a binary min-heap class kept in a `DynamicArray` |
| `graph_model.dfy` | `GraphModel` | planets, edge data, edges, the graph as a value, and each graph operation as a function on that value |
| `star_graph.dfy` | `StarGraphs` | `StarGraph`: a class whose fields are the three maps and two counters of the source, each method proved against the function of `GraphModel` it implements |
| `line_format.dfy` | `LineFormat` | trimming, `>>` tokenizing and name re-joining of the file loader |
| `graph_loading.dfy` | `GraphLoading` | the loader loop as a fold over lines |
| `walks.dfy` | `Walks` | walks, their cost, reachability and least cost |
| `dijkstra_search.dfy` | `DijkstraSearch` | the invariant of the search loop and the lemmas that keep it |
| `dijkstra.dfy` | `ShortestPaths` | `Dijkstra`: the search loop, path reconstruction and the two queries |
| `trader.dfy` | `Traders` | `Trader`: position and route statistics |

Exceptions become error results. The four error kinds are an index out of range, an empty
array or queue, a missing vertex or planet name, and a duplicate planet name. `std::stod` on
the loader's numbers becomes a parameter `parse: string -> Option<real>`, where `None` is the
exception `stod` throws. The file itself becomes the sequence of its lines. `double` becomes
`real`, and an infinite distance becomes `Dist.Infinity`.

Four facts are proved, two about the solver and two about the queue:

- `FindShortestPath` answers exactly when the end planet is reachable. Its cost is the least cost
  of any walk, and its path is the vertex sequence of a walk of that cost, with matching planet
  names.
- `FindAllShortestPaths` gives every vertex its least cost, and infinity exactly for the vertices
  that cannot be reached.
- Dequeuing from a non-empty heap returns the item of an entry of least priority.
- Each queue operation changes the multiset of entries by exactly the entry it adds or removes, and
  keeps the heap order.

## Model

| member | source | states |
|---|---|---|
| DynamicArrays.GrownCapacity | include/core/DynamicArray.h:101-103 | a full array grows to 1 when it had no buffer, otherwise to twice its capacity, so growth always makes room |
| DynamicArrays.DynamicArray.constructor | include/core/DynamicArray.h:39 | a new array has no buffer, no elements and capacity 0 |
| DynamicArrays.DynamicArray.WithCapacity | include/core/DynamicArray.h:42-43 | a new array has no elements and the requested capacity |
| DynamicArrays.DynamicArray.Copy | include/core/DynamicArray.h:46-51 | the copy has equal contents, size and capacity, in a fresh buffer of its own |
| DynamicArrays.DynamicArray.Assign | include/core/DynamicArray.h:54-65 | after assignment the contents, size and capacity equal the other array's; the source array is unchanged; self-assignment keeps the buffer |
| DynamicArrays.DynamicArray.Resize | include/core/DynamicArray.h:20-28 | the contents survive the move to a fresh buffer of the new capacity |
| DynamicArrays.DynamicArray.Get | include/core/DynamicArray.h:73-76 | element index when 0 <= index < size, and IndexOutOfRange exactly otherwise (the checkIndex test, lines 31-35) |
| DynamicArrays.DynamicArray.GetFirst | include/core/DynamicArray.h:79-84 | the first element, or EmptyArray exactly when empty |
| DynamicArrays.DynamicArray.GetLast | include/core/DynamicArray.h:87-92 | the last element, or EmptyArray exactly when empty |
| DynamicArrays.DynamicArray.GetSize | include/core/DynamicArray.h:95-97 | the number of elements, never above the capacity |
| DynamicArrays.DynamicArray.Append | include/core/DynamicArray.h:100-105 | the contents gain item at the end, and the capacity grows exactly when the array was full |
| DynamicArrays.DynamicArray.InsertAt | include/core/DynamicArray.h:113-125 | for 0 <= index <= size, item sits at index with the old prefix before it and the old suffix after it; otherwise IndexOutOfRange and nothing changes |
| DynamicArrays.DynamicArray.ShiftRight | include/core/DynamicArray.h:120-122 | the shift loop moves each element from index on one slot right and leaves the prefix alone |
| DynamicArrays.DynamicArray.Prepend | include/core/DynamicArray.h:108-110 | the contents gain item at the front |
| DynamicArrays.DynamicArray.RemoveAt | include/core/DynamicArray.h:128-134 | for a valid index, exactly that element goes and the rest keep their order; otherwise IndexOutOfRange and nothing changes |
| DynamicArrays.DynamicArray.Set | include/core/DynamicArray.h:137-140 | a valid position gets the value and no other position changes; otherwise IndexOutOfRange and nothing changes |
| DynamicArrays.DynamicArray.Clear | include/core/DynamicArray.h:143-145 | the contents become empty while the buffer and capacity stay |
| PriorityQueues.Parent | include/core/PriorityQueue.h:20-22 | every position but the root has a parent before it, of which it is one of the two children |
| PriorityQueues.LeftChild | include/core/PriorityQueue.h:25-27 | the left child lies after its parent and has it as parent |
| PriorityQueues.RightChild | include/core/PriorityQueue.h:30-32 | the right child lies just after the left child and has the same parent |
| PriorityQueues.Swap | include/core/PriorityQueue.h:37-39 | exchanging two entries keeps the multiset of entries and changes no other position |
| PriorityQueues.RootIsMinimal | include/core/PriorityQueue.h:78-92 | in a heap, no entry has a smaller priority than the root |
| PriorityQueues.RootIsLeast | include/core/PriorityQueue.h:95-108 | the root's priority bounds every entry's, which is what Peek and PeekPriority rely on |
| PriorityQueues.SuccessiveDequeuesAreOrdered | include/core/PriorityQueue.h:78-92 | two dequeues with no enqueue between them return non-decreasing priorities |
| PriorityQueues.SiftUpStep | include/core/PriorityQueue.h:35-42 | one swap with a larger parent moves the only heap defect up to the parent |
| PriorityQueues.SiftDownStep | include/core/PriorityQueue.h:45-64 | one swap with the least child moves the only heap defect down to that child |
| PriorityQueues.AppendExceptUp | include/core/PriorityQueue.h:72-75 | appending to a heap breaks the order only at the new last position |
| PriorityQueues.RemoveRootExceptDown | include/core/PriorityQueue.h:83-85 | moving the last entry to the root and dropping the last slot removes exactly the root and breaks the order only at the root |
| PriorityQueues.LeastChildBound | include/core/PriorityQueue.h:46-56 | the least of a position's two children bounds all of its children |
| PriorityQueues.SiftDownDone | include/core/PriorityQueue.h:58 | sifting down stops with a whole heap once the position is no larger than its children |
| PriorityQueues.PriorityQueue.constructor | include/core/PriorityQueue.h:68-69 | a new queue is empty |
| PriorityQueues.PriorityQueue.SwapEntries | include/core/PriorityQueue.h:59-61 | the temp/Set/Set sequence exchanges two entries of the heap array |
| PriorityQueues.PriorityQueue.HeapifyUp | include/core/PriorityQueue.h:35-42 | from a heap defective only at index, the loop restores the heap order and keeps the same entries |
| PriorityQueues.PriorityQueue.LeastOfFamily | include/core/PriorityQueue.h:46-56 | the position among index and its children with the least priority, index itself on a tie and left before right |
| PriorityQueues.PriorityQueue.HeapifyDown | include/core/PriorityQueue.h:45-64 | from a heap defective only at index, the recursion restores the heap order and keeps the same entries |
| PriorityQueues.PriorityQueue.Enqueue | include/core/PriorityQueue.h:72-75 | the queue gains exactly the entry (item, priority) and stays a heap |
| PriorityQueues.PriorityQueue.Dequeue | include/core/PriorityQueue.h:78-92 | an empty queue gives EmptyQueue; otherwise it returns the item of an entry whose priority is least and loses exactly that entry |
| PriorityQueues.PriorityQueue.TakeRoot | include/core/PriorityQueue.h:83-89 | the root is removed, the rest of the entries stay, and the heap order is restored |
| PriorityQueues.PriorityQueue.Peek | include/core/PriorityQueue.h:95-100 | the root item, which is in the queue, or EmptyQueue when empty; nothing changes |
| PriorityQueues.PriorityQueue.PeekPriority | include/core/PriorityQueue.h:103-108 | the least priority in the queue, or EmptyQueue when empty |
| PriorityQueues.PriorityQueue.IsEmpty | include/core/PriorityQueue.h:111-113 | true exactly when there are no entries |
| PriorityQueues.PriorityQueue.GetSize | include/core/PriorityQueue.h:116-118 | the number of entries |
| PriorityQueues.PriorityQueue.Clear | include/core/PriorityQueue.h:121-123 | the queue becomes empty |
| GraphModel.TotalCost | src/graph/StarGraph.cpp:19-21 | a transition without risk costs its distance; non-negative risk never lowers the cost below the distance; risk at least -1 keeps the cost non-negative |
| GraphModel.Empty | src/graph/StarGraph.cpp:258-264 | the cleared graph has no vertices or names, numbers from 0 and satisfies the graph invariant |
| GraphModel.WithoutTarget | src/graph/StarGraph.cpp:128-132 | the edges kept are exactly those not ending at the target, never more than before, and all of them when none ends there |
| GraphModel.DropTarget | src/graph/StarGraph.cpp:90-100 | every list of the graph loses its edges into the target and no list appears or disappears |
| GraphModel.WithoutTargetAppend | src/graph/StarGraph.cpp:128-132 | filtering keeps the relative order of the edges (it distributes over concatenation) |
| GraphModel.FirstMatch | src/graph/StarGraph.cpp:163-168 | the position the update loop stops at: the first edge to the target, or none when no edge goes there |
| GraphModel.ClampDistance | src/graph/StarGraph.cpp:157-159 | the stored distance is never below 1.0, and a distance of at least 1.0 is kept as given |
| GraphModel.UpdateFirst | src/graph/StarGraph.cpp:162-168 | only the first edge to the target gets the new distance; its endpoints and risk and every other edge stay; no match changes nothing |
| GraphModel.AddVertexTo | src/graph/StarGraph.cpp:44-57 | a taken name gives DuplicateName exactly; otherwise the counter's id gets the planet, the name, an empty edge list and one more vertex, keeping the graph invariant |
| GraphModel.AdditionKeepsWellFormed | src/graph/StarGraph.cpp:50-54 | adding a fresh name under the next id keeps names and ids in one-to-one correspondence |
| GraphModel.AddEdgeTo | src/graph/StarGraph.cpp:59-68 | an unknown source or destination gives VertexNotFound, source first; otherwise the source's list gains exactly that edge at its end, keeping the invariant |
| GraphModel.AddEdgeByName | src/graph/StarGraph.cpp:70-79 | an unknown name gives PlanetNotFound, source first; otherwise it is AddEdgeTo on the ids the names index |
| GraphModel.RemoveVertexFrom | src/graph/StarGraph.cpp:81-107 | an unknown vertex gives VertexNotFound; otherwise the vertex, its planet, its name and every edge into it go and the vertex count drops by one, keeping the invariant |
| GraphModel.Removal | src/graph/StarGraph.cpp:90-106 | the graph without v has the other vertices and planets, each list filtered of edges into v |
| GraphModel.RemovalKeepsNames | src/graph/StarGraph.cpp:103-105 | after the removal, names and ids of the remaining planets still correspond both ways |
| GraphModel.RemovalKeepsEdges | src/graph/StarGraph.cpp:90-100 | after the removal, every remaining edge leaves its own list and ends at a remaining vertex other than v |
| GraphModel.RemovalKeepsWellFormed | src/graph/StarGraph.cpp:81-107 | removing a vertex keeps the graph invariant and leaves no edge into it |
| GraphModel.RemoveVertexByName | src/graph/StarGraph.cpp:109-114 | an unknown name gives PlanetNotFound; otherwise it is RemoveVertexFrom on the name's id, after which the name is free |
| GraphModel.RemoveEdgeFrom | src/graph/StarGraph.cpp:116-135 | an unknown endpoint gives VertexNotFound; otherwise the source's list loses every edge to the destination and nothing else changes, keeping the invariant |
| GraphModel.RemoveEdgeByName | src/graph/StarGraph.cpp:137-145 | an unknown name gives PlanetNotFound; otherwise it is RemoveEdgeFrom on the ids |
| GraphModel.UpdateDistanceIn | src/graph/StarGraph.cpp:147-171 | an unknown endpoint gives VertexNotFound; otherwise the first edge from -> to gets the clamped distance; a missing edge changes nothing; the invariant is kept |
| StarGraphs.StarGraph.Commit | src/graph/StarGraph.cpp:103-106 | the fields, all five at once, become the given graph value; the field updates of AddVertex (lines 50-54) and RemoveVertex go through it |
| GraphModel.SetArtifactIn | src/graph/StarGraph.cpp:213-218 | an unknown vertex gives VertexNotFound; otherwise only that planet's artifact flag changes |
| GraphModel.IdsIncrease | src/graph/StarGraph.cpp:50 | a planet added after another gets a larger id |
| GraphModel.ReAddedNameGetsNewId | src/graph/StarGraph.cpp:50 | removing a planet and adding its name again gives a new id, never the old one |
| StarGraphs.FilterEdges | src/graph/StarGraph.cpp:126-132 | the rebuilding loop keeps exactly the edges not ending at the target, in order |
| StarGraphs.StarGraph.constructor | src/graph/StarGraph.cpp:42 | a new graph is empty and numbers from 0 |
| StarGraphs.StarGraph.AddVertex | src/graph/StarGraph.cpp:44-57 | the fields change as AddVertexTo says and the id returned is the counter's old value; on DuplicateName nothing changes |
| StarGraphs.StarGraph.AddEdge | src/graph/StarGraph.cpp:59-68 | the fields change as AddEdgeTo says; on an error nothing changes |
| StarGraphs.StarGraph.AddEdgeByName | src/graph/StarGraph.cpp:70-79 | the fields change as AddEdgeByName says; on an error nothing changes |
| StarGraphs.StarGraph.RemoveVertex | src/graph/StarGraph.cpp:81-107 | the fields change as RemoveVertexFrom says; on an error nothing changes |
| StarGraphs.StarGraph.DropEdgesTo | src/graph/StarGraph.cpp:90-100 | the loop over all lists rebuilds each without its edges into v and touches no other field |
| StarGraphs.StarGraph.RemoveVertexByName | src/graph/StarGraph.cpp:109-114 | the fields change as RemoveVertexByName says; on an error nothing changes |
| StarGraphs.StarGraph.RemoveEdge | src/graph/StarGraph.cpp:116-135 | the fields change as RemoveEdgeFrom says; on an error nothing changes |
| StarGraphs.StarGraph.RemoveEdgeByName | src/graph/StarGraph.cpp:137-145 | the fields change as RemoveEdgeByName says; on an error nothing changes |
| StarGraphs.StarGraph.UpdateEdgeDistance | src/graph/StarGraph.cpp:147-171 | the fields change as UpdateDistanceIn says; on an error nothing changes |
| StarGraphs.StarGraph.GetEdges | src/graph/StarGraph.cpp:173-179 | the list of v exactly when v is a vertex, VertexNotFound exactly otherwise |
| StarGraphs.StarGraph.GetVertexIndex | src/graph/StarGraph.cpp:181-187 | the id of the name, whose planet bears that name, or PlanetNotFound exactly when the name is unknown |
| StarGraphs.StarGraph.GetVertexName | src/graph/StarGraph.cpp:189-195 | the planet's name, which indexes back to that id, or VertexNotFound exactly when there is no such planet |
| StarGraphs.StarGraph.GetPlanetData | src/graph/StarGraph.cpp:197-203 | the planet record, whose id is the index asked for, or VertexNotFound exactly when absent |
| StarGraphs.StarGraph.SetArtifact | src/graph/StarGraph.cpp:213-218 | the fields change as SetArtifactIn says; on an error nothing changes |
| StarGraphs.StarGraph.HasArtifact | src/graph/StarGraph.cpp:220-226 | true exactly when the planet exists and holds an artifact; false for an unknown vertex |
| StarGraphs.StarGraph.HasVertex | src/graph/StarGraph.cpp:228-230 | true exactly when v has an edge list, which is exactly when it has a planet |
| StarGraphs.StarGraph.HasVertexByName | src/graph/StarGraph.cpp:232-234 | true exactly when some planet bears the name |
| StarGraphs.StarGraph.GetVertexCount | src/graph/StarGraph.cpp:236-238 | the counter equals the number of vertices |
| StarGraphs.StarGraph.GetAllVertices | src/graph/StarGraph.cpp:240-246 | every vertex exactly once, as many as the vertex count |
| StarGraphs.StarGraph.Clear | src/graph/StarGraph.cpp:258-264 | the graph becomes the empty graph and numbering restarts at 0 |
| StarGraphs.StarGraph.LoadFromLines | src/graph/StarGraph.cpp:318-400 | the fields become the graph of Load on the lines, and the outcome is Load's: the first exception stops the load with the graph built so far |
| StarGraphs.StarGraph.LoadOneLine | src/graph/StarGraph.cpp:332-396 | one loop iteration changes the fields and the section as LoadLine says |
| StarGraphs.StarGraph.LoadEdge | src/graph/StarGraph.cpp:355-396 | an edge line changes the fields as LoadEdgeLine says |
| StarGraphs.LoadLinesStep | src/graph/StarGraph.cpp:331-397 | the loop's remaining lines are the current line's step followed by the rest, and an exception ends the loop |
| LineFormat.TrimCharsAre | src/graph/StarGraph.cpp:333-334 | the trimmed characters are exactly those of " \t\r\n" |
| LineFormat.SpaceCharsAre | src/graph/StarGraph.cpp:362 | the characters `>>` skips are exactly the C-locale whitespace, space, \t, \n, \v, \f and \r, which includes every trimmed character |
| LineFormat.FirstNonBlank | src/graph/StarGraph.cpp:333 | the position of the first character that is not blank, or the length when there is none |
| LineFormat.EndOfNonBlank | src/graph/StarGraph.cpp:334 | the length of the line without its trailing blanks |
| LineFormat.Trim | src/graph/StarGraph.cpp:333-334 | the trimmed line is a slice of the line with only blanks around it, starts and ends with a non-blank, and is empty exactly when the line is all blanks |
| LineFormat.TrimRecoversMiddle | src/graph/StarGraph.cpp:333-334 | trimming blanks + text + blanks gives the text back, when the text has no blank at either end |
| LineFormat.TrimIdempotent | src/graph/StarGraph.cpp:333-334 | trimming a trimmed line changes nothing |
| LineFormat.WordLength | src/graph/StarGraph.cpp:362 | the length of the non-space run at the front, stopping at the first space |
| LineFormat.Tokens | src/graph/StarGraph.cpp:358-364 | every token is a non-empty word without whitespace |
| LineFormat.WordIsOneToken | src/graph/StarGraph.cpp:362 | a single word reads as exactly one token |
| LineFormat.TokensSplitAtSpace | src/graph/StarGraph.cpp:362 | a space separates tokens: the tokens of a + " " + b are those of a, then those of b |
| LineFormat.TokensOfJoinWords | src/graph/StarGraph.cpp:358-364 | words joined by single spaces read back as the same words |
| LineFormat.JoinWordsAppend | src/graph/StarGraph.cpp:377-387 | joining a + b is joining a, a space, and joining b |
| LineFormat.NameTokenCount | src/graph/StarGraph.cpp:375 | each name gets (n - 2) / 2 tokens, rounded down, so the two names never take more than the n - 2 name tokens |
| LineFormat.SplitNames | src/graph/StarGraph.cpp:375-387 | the from-name is made of the first (n - 2) / 2 tokens and the to-name of the rest before the two numbers: re-tokenizing each name gives back exactly its tokens |
| LineFormat.EdgeLineRoundTrip | src/graph/StarGraph.cpp:358-387 | two names of equal word count written into one line with two numbers are tokenized and split back into the same two names |
| LineFormat.Tokenize | src/graph/StarGraph.cpp:358-364 | the `>>` loop yields exactly the tokens of the line |
| LineFormat.JoinRange | src/graph/StarGraph.cpp:377-387 | the name loops yield tokens lo..hi joined by single spaces |
| GraphLoading.IsSkipped | src/graph/StarGraph.cpp:337-339 | a trimmed line is skipped exactly when it is empty or starts with '#'; a section header is never skipped |
| GraphLoading.LoadLine | src/graph/StarGraph.cpp:332-396 | a blank or comment line changes nothing in any section; a header switches to its section and leaves the graph alone; a data line leaves the section alone, changes nothing before the first header, adds a new planet or fails with DuplicateName for a taken name in the planets section, and does what LoadEdgeLine does in the edges section; no other error occurs, and success keeps every vertex, every name and the graph invariant |
| GraphLoading.LoadEdgeLine | src/graph/StarGraph.cpp:358-395 | fewer than four tokens change nothing; with four or more, the line fails exactly when one of the two numbers does not parse; an unknown name changes nothing (the AddEdge error is caught); when both numbers parse and both split names are known in a well-formed graph, the edge is always added; any change is exactly the AddEdge of the two split names with the parsed distance and risk; vertices and names never change and the invariant is kept |
| GraphLoading.LoadLines | src/graph/StarGraph.cpp:331-397 | the loop fails only with DuplicateName or an unparsable number, never loses a vertex and keeps the invariant |
| GraphLoading.Load | src/graph/StarGraph.cpp:324-397 | loading starts from the cleared graph and always yields a graph satisfying the invariant |
| GraphLoading.LinesBeforeSectionsIgnored | src/graph/StarGraph.cpp:350-355 | data lines before the first header change nothing |
| GraphLoading.PlanetLinesGetConsecutiveIds | src/graph/StarGraph.cpp:351-353 | distinct new names in the planets section become planets with consecutive ids, in file order |
| GraphLoading.PlanetLineAddsPlanet | src/graph/StarGraph.cpp:351-353 | one planet line with a new name adds that planet under the next id |
| GraphLoading.EdgeLineAddsEdge | src/graph/StarGraph.cpp:355-395 | an edge line of two known names of equal word count and two parsable numbers appends exactly that edge |
| GraphLoading.EdgeLineIsData | src/graph/StarGraph.cpp:333-348 | such a line survives the trim and is neither a comment, a blank line nor a header |
| Walks.PathVertices | src/graph/Dijkstra.cpp:11-35 | a walk's vertex sequence starts at the start and has one vertex per edge more |
| Walks.WalkExtend | src/graph/Dijkstra.cpp:87-91 | a walk extended by one edge out of its end is a walk to the edge's target, costing the edge's cost more |
| Walks.WalkCostNonNegative | src/graph/StarGraph.cpp:19-21 | with non-negative transition costs no walk costs less than zero |
| Walks.WalkVerticesAreLinked | src/graph/Dijkstra.cpp:11-35 | consecutive vertices of a walk are joined by an edge of the graph |
| Walks.ShortestIsUnique | src/graph/Dijkstra.cpp:97-98 | the least cost of a route is unique |
| DijkstraSearch.InitialDistances | src/graph/Dijkstra.cpp:51-58 | every vertex at infinity, then start at 0 |
| DijkstraSearch.SearchStart | src/graph/Dijkstra.cpp:51-62 | the state before the loop satisfies the search invariant |
| DijkstraSearch.StalePop | src/graph/Dijkstra.cpp:67-70 | skipping a popped entry of a visited vertex keeps the invariant |
| DijkstraSearch.FrontierBound | src/graph/Dijkstra.cpp:64-94 | every walk from start ends at a visited vertex or passes a queued entry no dearer than the walk |
| DijkstraSearch.PoppedIsFinal | src/graph/Dijkstra.cpp:65-72 | the least entry of an unvisited vertex carries that vertex's distance, and no walk to it is cheaper |
| DijkstraSearch.VisitPop | src/graph/Dijkstra.cpp:72 | marking that vertex visited keeps the invariant |
| DijkstraSearch.ImprovedIsUnvisited | src/graph/Dijkstra.cpp:87-88 | an edge that improves its target's distance leads to an unvisited vertex other than start, through a walk of exactly the new cost |
| DijkstraSearch.RelaxImproves | src/graph/Dijkstra.cpp:87-91 | lowering the distance, recording the predecessor and enqueueing keeps the inner loop's invariant |
| DijkstraSearch.ImproveKeepsSearchInv | src/graph/Dijkstra.cpp:88-91 | the improvement keeps distances realized by walks, visited distances final, the queue in step and the predecessors linked |
| DijkstraSearch.ImproveKeepsWalks | src/graph/Dijkstra.cpp:89 | every finite distance stays the cost of its recorded walk |
| DijkstraSearch.ImproveKeepsFinal | src/graph/Dijkstra.cpp:89 | lowering an unvisited vertex's distance leaves visited distances final |
| DijkstraSearch.ImproveKeepsPrev | src/graph/Dijkstra.cpp:90 | the predecessor map stays linked to the walks, with visited predecessors |
| DijkstraSearch.RelaxedAfterImprove | src/graph/Dijkstra.cpp:88-89 | after the improvement, the edge just looked at is relaxed and earlier ones stay relaxed |
| DijkstraSearch.RelaxDone | src/graph/Dijkstra.cpp:81-93 | after the last edge, all edges out of visited vertices are relaxed |
| DijkstraSearch.QueueEmptyClosure | src/graph/Dijkstra.cpp:64 | when the queue runs empty, every vertex reachable from start has been visited |
| DijkstraSearch.SettledAreShortest | src/graph/Dijkstra.cpp:97-98 | visited distances are least costs, and a finite distance means the vertex is reachable |
| DijkstraSearch.ResultOfSearch | src/graph/Dijkstra.cpp:96-101 | at the end of the search, visited distances are least costs with walks of that cost, and the predecessors lead back along those walks |
| DijkstraSearch.PrevChainShape | src/graph/Dijkstra.cpp:21-32 | a predecessor chain starts at start, ends at the vertex and each vertex has the one before it as predecessor |
| DijkstraSearch.ChainIsSimple | src/graph/Dijkstra.cpp:21-32 | the path read back through the predecessors starts at start, ends at the vertex and repeats no vertex |
| DijkstraSearch.WalkRank | src/graph/Dijkstra.cpp:90 | each reached vertex is ranked, by the length of its walk |
| DijkstraSearch.ChainFollowsWalk | src/graph/Dijkstra.cpp:11-35 | following the predecessors back from a reached vertex retraces the vertices of its walk, and the predecessors have no cycle |
| ShortestPaths.PopLeast | src/graph/Dijkstra.cpp:65 | the dequeue yields an entry of least priority and removes exactly it |
| ShortestPaths.RelaxEdge | src/graph/Dijkstra.cpp:82-92 | one iteration of the edge loop keeps the inner invariant, one edge further |
| ShortestPaths.WalkStaysInGraph | src/graph/Dijkstra.cpp:104-106 | every vertex on a walk has a planet, so its name can be looked up |
| ShortestPaths.RouteToItself | src/graph/Dijkstra.cpp:16-32 | a solved route from a planet to itself is that planet alone, at cost 0, with its name |
| ShortestPaths.Dijkstra.constructor | src/graph/Dijkstra.cpp:9 | the solver reads the given graph |
| ShortestPaths.Dijkstra.FindShortestPath | src/graph/Dijkstra.cpp:37-110 | an unknown start or end gives the default result; otherwise a route exists exactly when end is reachable, at least cost, along the vertices of a walk of that cost, repeating no vertex, with their planet names; from a planet to itself the route is that planet alone at cost 0 |
| ShortestPaths.Dijkstra.PlanetNames | src/graph/Dijkstra.cpp:104-106 | each vertex of the path gets its planet's name, in order |
| ShortestPaths.Dijkstra.FindShortestPathByName | src/graph/Dijkstra.cpp:112-121 | an unknown name gives the default result; otherwise the route between the named planets' ids, with the same guarantees as FindShortestPath |
| ShortestPaths.Dijkstra.FindAllShortestPaths | src/graph/Dijkstra.cpp:123-166 | every vertex gets a distance: finite exactly when reachable, and then the least cost; an unknown start fails as GetEdges does |
| ShortestPaths.Dijkstra.ReconstructPath | src/graph/Dijkstra.cpp:11-35 | the predecessor chain from start to end, or empty when the predecessors do not lead back to start |
| ShortestPaths.Dijkstra.InitDistances | src/graph/Dijkstra.cpp:51-58 | the initialisation loop gives every vertex infinity, then start 0 |
| ShortestPaths.Dijkstra.Search | src/graph/Dijkstra.cpp:46-94 | start keeps distance 0; visited vertices have least costs with walks; every finite distance is reachable; the loop ends at the stop vertex or with every reachable vertex visited; predecessors retrace the walks |
| ShortestPaths.Dijkstra.Drain | src/graph/Dijkstra.cpp:64-94 | the outer loop keeps the search invariant and ends at the stop vertex or with an empty queue and all edges relaxed |
| ShortestPaths.Dijkstra.Begin | src/graph/Dijkstra.cpp:46-62 | the state before the loop satisfies the invariant, with start queued at 0 |
| ShortestPaths.Dijkstra.Step | src/graph/Dijkstra.cpp:65-93 | one turn keeps the invariant and either visits a new vertex or shrinks the queue |
| ShortestPaths.Dijkstra.Visit | src/graph/Dijkstra.cpp:72-93 | visiting the popped vertex keeps the invariant, stops at the end vertex or relaxes all its edges |
| ShortestPaths.Dijkstra.Relax | src/graph/Dijkstra.cpp:80-93 | the edge loop keeps the invariant and leaves every visited vertex's edges relaxed |
| Traders.Trader.constructor | src/game/Trader.cpp:7-9 | a new trader has the default name, is not placed (planet -1) and has no routes |
| Traders.Trader.Named | src/game/Trader.cpp:11-13 | a new trader has the given name, is not placed and has no routes |
| Traders.Trader.SetCurrentPlanet | src/game/Trader.cpp:15-20 | the planet becomes planetId; a non-negative id places an unplaced trader and a placed trader stays placed; the statistics are untouched |
| Traders.Trader.PlaceOnPlanet | src/game/Trader.cpp:22-25 | the planet becomes planetId and the trader is placed whatever the id |
| Traders.Trader.Reset | src/game/Trader.cpp:27-32 | back to the unplaced state with no routes, keeping the name |
| Traders.Trader.CompleteRoute | src/game/Trader.cpp:34-37 | one more route of that distance: the route count and total distance keep summarizing the routes flown |
| Traders.TotalBoundsEachRoute | src/game/Trader.cpp:34-37 | with non-negative routes the total distance is non-negative and no single route exceeds it |

## Left out

- The file system: `LoadFromFile` takes the file's lines, so failing to open a file is not modelled.
- `SaveToFile`, `GetAllPlanets`, `GetPlanetDataMutable` and the comparison operators of `EdgeData` are not part of this model.
- The user interface, `BlackHole` and `Analytics` are not part of this model.
- `std::stod` is the `parse` parameter, which may accept any subset of strings.
- Floating point: `double` is `real`, so rounding, NaN and overflow to infinity are not modelled.
- The 32-bit `int` of ids, counters and sizes is an unbounded integer.
- DynamicArrays.DynamicArray.WithCapacity: takes a `nat`. A negative capacity, for which `new T[n]` throws `std::bad_array_new_length`, is not modelled, because a Dafny constructor cannot fail.
- PriorityQueues.PriorityQueue: the priority type is fixed to `real` (the solver's `double`) and the comparator to `<` (the default `std::less`). No other instantiation is modelled.
- Traders.Trader.CompleteRoute: does not model 32-bit wrap-around of `completedRoutes` and `totalDistance`.
- StarGraphs.StarGraph.AddVertex: does not model 32-bit wrap-around of `nextVertexId`.
- Edge lists and paths inside the graph and the solver are sequences, not `DynamicArray` objects. The class is modelled on its own, and the priority queue does use it.
- The solver's `visited` map is a set, and its `distances` map holds `Dist` values.
- The order in which an `unordered_map` iterates is not modelled.
  - GetAllVertices promises each vertex once, in no particular order.
  - DropEdgesTo visits the lists in an arbitrary order; the result does not depend on it.
- ShortestPaths.Dijkstra.FindShortestPath: requires every transition cost to be non-negative, which the least-cost property needs. The loader does not check signs (src/graph/StarGraph.cpp:369-390), so a file can create a negative cost; the model says nothing about such graphs.
- ShortestPaths.Dijkstra.FindShortestPathByName: requires non-negative transition costs, as FindShortestPath.
- ShortestPaths.Dijkstra.FindAllShortestPaths: requires non-negative transition costs, as FindShortestPath.
- ShortestPaths.Dijkstra.ReconstructPath: takes a ghost rank showing that the predecessor map has no cycle. The search supplies it.
- FindAllShortestPaths shares the search loop of `FindShortestPath`, without a stop vertex.
  - That loop also records predecessors, which the source's copy does not; the result is the same.
  - It asks for the edges of `start` before the loop, which fails exactly where the source's first turn would.
- `operator[]` behaves as `Get` for reads and `Set` for writes; it has no member of its own.
- `checkIndex` is the range test inside Get, Set and RemoveAt.
- The getters of `Trader` and the simple field accessors are not methods; the fields are read directly.
- StarGraphs.StarGraph.Commit stores all five fields at once. The source assigns them one by one.

## Notes on the source

- `RemoveEdge` (src/graph/StarGraph.cpp:116-135) removes every edge from `from` to `to`, not only the first. The model follows the code.
- `UpdateEdgeDistance` changes only the first matching edge, and raises any distance below 1.0 to 1.0.
- In the planets section, a duplicate name throws out of `LoadFromFile` (nothing catches `AddVertex` there). The load stops with the planets read so far, and `Load` reports `DuplicateName`.
- An unparsable number also throws out of `LoadFromFile`, while an `AddEdge` error on an edge line is caught and the line is skipped.
- The loader splits the name tokens of an edge line in half, so a pair of names with different word counts is split at the wrong place. EdgeLineRoundTrip covers only names of equal word count, as the source's comment assumes.
- A negative transition cost, which a graph file can hold, can make `FindShortestPath` loop forever. Take edges s→a 1, a→b 1, b→a -5, b→c 10 and search from s to c:
  - visiting b improves the already visited a, because the relaxation (src/graph/Dijkstra.cpp:87-91) has no visited check;
  - that sets `previous[a] = b` while `previous[b] = a`;
  - `reconstructPath` (src/graph/Dijkstra.cpp:21-32) then walks c, b, a, b, a, … and prepends to the path forever.

  The solver's contracts require non-negative costs, so this case is outside the model.
