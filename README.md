# navigator-demo road graph, in Dafny

This project models `src/graph.ts` of navigator-demo, a small route planner.
That file holds a mutable directed road graph and an A* search over it.

- A `Node` has a position, a name, an optional traffic light, and an ordered list of outgoing edges.
- An `Edge` refers to its two endpoints and to an options record that carries the speed limit.
- An edge's travel cost is computed on demand: the straight-line distance over the speed limit, plus 20 when the target node has traffic lights.
- A `Graph` keeps a list of nodes. Its constructor takes any list as given, unchecked. `addNode` admits a node only when its name is non-empty and not yet taken, so it keeps the names distinct when they already were. The graph reports the bounding box of the node positions and the map size derived from it.
- `Graph.findPath` runs A* from one node to another. It returns the path found, or nothing.

The model follows the shape of the source:

- `geometry.dfy` (module `Geometry`) holds positions, the distance function, and the coordinates extended with the two infinities that seed the bounding-box fold.
- `graph.dfy` (module `RoadGraph`) holds the classes `EdgeOptions`, `Edge`, `Node` and `Graph`.
  - Fields the source updates in place are `var` fields. Methods change them under `modifies` clauses.
  - The search keeps its open set as a sequence in insertion order, which is the iteration order of a JavaScript `Set`. The closed set is a `set`, and the score and predecessor maps are `map`s, all keyed by object identity as in the source.
  - `ExpandNode`, `RelaxEdge`, `CloseAndExpand` and `FinishSearch` are the pieces of the body of `findPath`'s loop.
    - `CloseAndExpand` and `FinishSearch` are proved against the loop invariant `SearchOk`.
    - `ExpandNode` takes the state described by `Expandable` to the one described by `Expanded`.
    - Its edge loop keeps `Relaxing` (the open list, estimates and predecessors) `Offered` (the cost each neighbour of the expanded node ends up with), the open list as the old one followed by `NewTargets`, and `KeptPredecessors`.
    - `RelaxEdge` keeps `Relaxing` for one edge and states that edge's exact effect on the open list and maps (`RelaxedEdge`). From that effect, `OfferStep` derives `Offered`, `NewTargetsStep` the order of the open list and `PredecessorStep` the predecessor changes (`KeptPredecessors`), each one edge further.

Two points where a plausible reading of the program differs from what the code does. The model follows the code in both:

- **Tie-break.** One might expect ties on estimated cost to go to the open node inserted earliest. The code picks the one inserted LAST: `reduce` with a strict `<` hands every tie to the later element (`LatestMinimum`).
- **Shared options.** One might expect the two directions made by `connectNode` to get independent copies of the options. The code gives both the same record, so a speed limit set through one direction is seen through the other (`SharedSpeedLimit`).

`Math.hypot` is a parameter `h` of type `Hypot`. The model does not compute square roots. The search relies only on lengths being non-negative. The symmetry lemmas also require `Even(h)`: reversing a vector keeps its length.

## Model

| member | source | states |
|---|---|---|
| Geometry.Distance | src/graph.ts:59-68 | the distance between two positions is never negative |
| Geometry.DistanceSymmetric | src/graph.ts:59-68 | for a length function that ignores direction, the distance from p to q equals the distance from q to p |
| Geometry.Ceil | src/graph.ts:139-140 | `Math.ceil`: the result is the least integer not below r, so r <= c < r + 1 |
| Geometry.CeilPlusOne | src/graph.ts:139-140 | `Math.ceil(v + 1)` maps each infinity to itself, sign included; for a finite v the result is an integer in [v + 1, v + 2) |
| RoadGraph.EdgeOptions.constructor | src/graph.ts:7-9 | an options record holds the given speed limit and direction flag |
| RoadGraph.Edge.constructor | src/graph.ts:75-80 | an edge refers to the given endpoints and to the given options record itself, not a copy |
| RoadGraph.Edge.Weight | src/graph.ts:93-101 | the cost is recomputed from current positions and speed limit; with a positive speed limit it is at least the traffic-light penalty, hence never negative (the helper `Edge.Penalty` is the traffic-light term of line 98: 20 exactly when the target has traffic lights, else 0) |
| RoadGraph.Edge.SetSpeedLimit | src/graph.ts:103-105 | only the speed limit of the referenced options record changes, and it becomes n |
| RoadGraph.WeightDirectional | src/graph.ts:93-101 | two opposite edges with the same speed limit differ in cost only by their targets' traffic-light penalties |
| RoadGraph.DistanceToSymmetric | src/graph.ts:59-68 | node-to-node distance is the same in both directions |
| RoadGraph.WithoutTarget | src/graph.ts:25-29 | the filter keeps exactly the edges whose target has another name, and never lengthens the list |
| RoadGraph.WithoutTargetAppend | src/graph.ts:25-29 | filtering distributes over concatenation, so the surviving edges keep their order |
| RoadGraph.WithoutTargetAbsent | src/graph.ts:25-29 | removing a name no edge targets leaves the list unchanged |
| RoadGraph.WithoutTargetIdempotent | src/graph.ts:25-29 | removing the same target twice is the same as removing it once |
| RoadGraph.RemoveUndoesAppend | src/graph.ts:20-29 | removing a name after appending an edge to it gives what removing it beforehand gives |
| RoadGraph.DisconnectUndoesConnect | src/graph.ts:31-41 | after an edge to `to` is appended, removing `to`'s name gives the same list as removing it before the append, so edges to other nodes survive |
| RoadGraph.Node.constructor | src/graph.ts:13-18 | a new node has the given position, name and traffic-light flag, and no edges |
| RoadGraph.Node.AddEdge | src/graph.ts:20-23 | exactly one new edge this -> to, carrying the given options record, is appended; earlier edges are unchanged and in order |
| RoadGraph.Node.RemoveEdge | src/graph.ts:25-29 | the edge list becomes the name filter of the old one; no remaining edge targets `to`'s name |
| RoadGraph.Node.ConnectNode | src/graph.ts:31-36 | appends this -> node, and node -> this unless the connection is one-way, both with the same options record; the self-loop case appends twice to one list |
| RoadGraph.Node.DisconnectNode | src/graph.ts:38-41 | both edge lists are filtered by the other node's name; afterwards neither node has an edge naming the other |
| RoadGraph.Node.SetPosition | src/graph.ts:55-57 | only the position changes, and it becomes the given one |
| RoadGraph.Node.DistanceTo | src/graph.ts:59-68 | the straight-line distance between the two current positions is never negative |
| RoadGraph.SharedSpeedLimit | src/graph.ts:31-36 | after a two-way `connectNode`, setting the speed limit through the forward edge gives the backward edge the same speed limit |
| RoadGraph.Graph.constructor | src/graph.ts:109 | the graph takes the given node list as is |
| RoadGraph.Graph.AddNode | src/graph.ts:111-116 | the node is added exactly when its name is non-empty and not yet taken; a rejected node leaves the list unchanged; distinct names stay distinct (the helper `HasName` is the `some` test of line 113) |
| Geometry.Lower | src/graph.ts:125-127 | `Math.min` with an extended seed: the result is never above the new value nor above a finite seed, and is one of the two; a -infinity seed stays -infinity |
| Geometry.Upper | src/graph.ts:126-128 | `Math.max` with an extended seed: the result is never below the new value nor below a finite seed, and is one of the two; a +infinity seed stays +infinity |
| RoadGraph.BoundsStep | src/graph.ts:123-129 | one step of the min/max fold turns the least and greatest coordinate of the first i nodes into those of the first i + 1 |
| RoadGraph.Graph.MapCorners | src/graph.ts:118-134 | for a non-empty graph, the corners are the least and greatest x and y over all nodes, each attained by some node; an empty graph yields +infinity minima and -infinity maxima |
| RoadGraph.Graph.MapSize | src/graph.ts:136-142 | width and height are integers at least 1 above every node's coordinate and less than 2 above the greatest one; an empty graph yields -infinity |
| RoadGraph.Graph.ReconstructPath | src/graph.ts:148-158 | the walk back ends at `current`, starts at a node with no predecessor, each node is the recorded predecessor of the next, and no node repeats |
| RoadGraph.ClosingRank | src/graph.ts:148-158 | the rounds in which nodes were closed rank the predecessor map so that ranks strictly fall from a node to its predecessor, so the walk back terminates |
| RoadGraph.LatestMinimum | src/graph.ts:172-174 | the selected open node has minimal estimated cost, and it costs strictly less than every node after it, so ties go to the latest |
| RoadGraph.SearchStarts | src/graph.ts:161-169 | the initial state (nothing closed, only `start` open with cost 0 and estimate equal to its distance to `end`, no predecessors) satisfies the search invariant, which includes that every open node's estimate is its cost plus its distance to `end` |
| RoadGraph.RemoveAt | src/graph.ts:180 | deleting one position of a repetition-free list removes exactly that node and keeps the list repetition-free |
| RoadGraph.CloseKeepsOpenList | src/graph.ts:180-181 | moving the chosen node from open to closed keeps the open list repetition-free, scored and disjoint from the closed set |
| RoadGraph.CloseKeepsPredecessors | src/graph.ts:180-181 | closing the chosen node keeps the predecessor map consistent, and its predecessor was closed in an earlier round |
| RoadGraph.RemoveKeepsEstimates | src/graph.ts:180 | deleting one position of the open list keeps every remaining open node's estimate equal to its cost plus its distance to `end` |
| RoadGraph.CloseKeepsCoverage | src/graph.ts:180-181 | after closing the chosen node, every other closed node still has all its edges leading to closed or open nodes |
| RoadGraph.CloseStep | src/graph.ts:180-181 | closing a chosen node other than `end` leads from the loop invariant to a state ready for expansion, and shrinks the set of unclosed nodes |
| RoadGraph.RecordPredecessor | src/graph.ts:191-198 | making `current` the predecessor of an unclosed neighbour along a real edge, opening it if needed, keeps the predecessor map consistent |
| RoadGraph.CoveredGrows | src/graph.ts:191-192 | appending to the open list without reordering it keeps edges covered |
| RoadGraph.Graph.RelaxEdge | src/graph.ts:184-202 | one edge to n with offered cost t (cost of `current` plus the edge weight): if n is closed, or open with a cost at most t, nothing changes; otherwise n is appended to the open list unless already open, its predecessor becomes `current`, its cost t and its estimate t plus its distance to `end`; the expansion invariant then holds one edge further |
| RoadGraph.Graph.ExpandNode | src/graph.ts:183-203 | after expanding `current`, every edge of `current` leads to a closed or open node; the open list only grew at its end, with neighbours of `current`; no open node's cost rose; the open list and predecessor map stay consistent, and every open node's estimate is its cost plus its distance to `end`; every unclosed target of an edge of `current` costs at most the cost of `current` plus that edge's weight, and every cost that is new or changed is exactly that offer through some edge of `current`, recorded with predecessor `current` (`Offered`; the helper `Offers` lists these offers, one per edge, as computed at line 189); the new open list is exactly the old one followed by the `NewTargets` of `current`'s edges; no node loses its predecessor, and a node whose predecessor is new or changed now comes from `current` and, if it was open, costs strictly less than before (`KeptPredecessors`) |
| RoadGraph.OfferSkipped | src/graph.ts:185-194 | an edge whose offer is not taken (a closed target, or an open one no cheaper through this edge) keeps the recorded costs as `Offered` describes them, one edge further |
| RoadGraph.OfferTaken | src/graph.ts:191-198 | an edge whose offer is taken records it as the target's cost, with `current` as predecessor; an earlier edge to the same target had offered no less, since that target is already open |
| RoadGraph.OfferStep | src/graph.ts:183-203 | whichever way one pass of the edge loop goes, `Offered` holds one edge further |
| RoadGraph.NewTargetsMeaning | src/graph.ts:183-192 | the nodes an expansion appends (`NewTargets`, the targets of the edges taken in edge order, each at its first edge) hold no node twice, are neither closed nor already open, each is the target of some edge, and every target of an edge that is neither closed nor open is among them |
| RoadGraph.NewTargetsStep | src/graph.ts:183-192 | whichever way one pass of the edge loop goes, the open list is the list before the expansion followed by the `NewTargets` of the edges passed so far |
| RoadGraph.ExpansionStep | src/graph.ts:183-203 | one pass of the edge loop, with the effect `RelaxEdge` states, keeps `Offered`, the open list as the old one followed by the `NewTargets` of the edges passed so far, and `KeptPredecessors`, one edge further |
| RoadGraph.PredecessorStep | src/graph.ts:191-198 | whichever way one pass of the edge loop goes, `KeptPredecessors` holds one edge further: the predecessor of an open node changes only for a strictly lower cost, since an open node is skipped when the offer is not below its cost |
| RoadGraph.ScoreNode | src/graph.ts:191-202 | giving a node a cost and an estimate of that cost plus its distance to `end`, and opening it if needed, keeps the open list well formed and every estimate consistent |
| RoadGraph.GrowNeighbour | src/graph.ts:191-198 | opening a neighbour of `current` appends it at the end of the open list; lowering a cost never raises the cost of a node open before the expansion |
| RoadGraph.RelaxTaken | src/graph.ts:191-202 | taking an edge's offer (appending the target if new, recording predecessor, cost and estimate) keeps the expansion invariant one edge further |
| RoadGraph.RoundKeepsOrder | src/graph.ts:180-203 | deleting the chosen node and expanding leaves the other open nodes at the head of the new list, in their old order, none costing more |
| RoadGraph.FrontierAfterExpand | src/graph.ts:183-203 | once `current` is expanded, every closed node has all its edges leading to closed or open nodes |
| RoadGraph.AfterExpand | src/graph.ts:183-203 | a completed expansion re-establishes the loop invariant |
| RoadGraph.Graph.CloseAndExpand | src/graph.ts:180-203 | a round that does not reach `end` adds exactly the chosen node to the closed set, keeps the loop invariant, and closes a node never closed before, so the loop runs at most once per node; the new open list starts with the old one minus the chosen node, in the old order; no other open node's cost rose; the chosen node's neighbours end up with the costs and predecessor stated for `ExpandNode`; the new open list is exactly the old one minus the chosen node, followed by the `NewTargets` of the chosen node's edges; predecessors change only as `KeptPredecessors` allows |
| RoadGraph.FoundPath | src/graph.ts:176-177 | walking back along predecessors from an open node gives a walk along real edges that starts at `start` |
| RoadGraph.WalkBackIsPath | src/graph.ts:176-177 | when `end` is chosen, the walk back is a path from `start` to `end`, and it is `[start]` when `start` is `end` |
| RoadGraph.Graph.FinishSearch | src/graph.ts:176-178 | the answer returned on reaching `end` is a repetition-free path from `start` to `end` |
| RoadGraph.FrontierExhausted | src/graph.ts:171-206 | when the open list is empty, no edge leaves the closed set |
| RoadGraph.PathStaysWithin | src/graph.ts:171-206 | a walk that starts in a set closed under edges stays in it |
| RoadGraph.Graph.FindPath | src/graph.ts:160-207 | `findPath(n, n)` is `[n]`; a returned path starts at `start`, ends at `end`, follows outgoing edges and repeats no node; null is returned only when no walk from `start` reaches `end` |

## Left out

- `src/main.ts` (canvas drawing, mouse handlers, export to source text) is not part of this model. It is user-interface code over the graph API.
- `src/routes.ts` is not part of this model. It is a fixed map with no logic, and its concrete distances would need real square roots.
- The getters (`getEdges`, `getPosition`, `getName`, `getFrom`, `getTo`, `getOptions`) are field reads. `Node.getOptions`'s `|| {}` fallback never applies, because the options record is always present.
- A node's name and traffic-light flag are constant fields. The source never changes them after construction.
- Node.DistanceTo: `Math.hypot` and its rounding are not modelled. The length function is a parameter, constrained only to be non-negative (`Hypot`) and, where direction matters, to ignore direction (`Even`).
- Edge.Weight: IEEE-754 behaviour is not modelled. The model uses exact reals and requires a non-zero speed limit, because division by zero gives Infinity or NaN in the source. It promises a non-negative weight only for a positive speed limit.
- Graph.FindPath: it requires non-zero speed limits on every edge reachable from `start`, for the reason given for Edge.Weight.
- Graph.FindPath: it takes a ghost set `universe`, closed under edges and containing `start`, that bounds the number of rounds. In the source the set of reachable nodes plays this part.
- Graph.FindPath: it does not state that the path returned is a cheapest one. The estimate adds the plain distance to `end`, while an edge costs its length divided by its speed limit. The estimate is guaranteed to be admissible, and A* guaranteed to be optimal, only when every speed limit is in (0, 1]. The speed limits the program uses are far above that range: 80 to 130 in `src/routes.ts:37-60`, and 80 for new connections in `src/main.ts:92`. With them the estimate can overstate the remaining cost, unless traffic-light penalties happen to make up the difference, and the search then behaves close to a greedy best-first search, which need not find a cheapest path.
- Graph.ReconstructPath: it takes a ghost `rank` map that witnesses an acyclic predecessor map. On a cyclic map the source would loop forever; `findPath` never builds one (`ClosingRank`).
- Graph.MapCorners: JavaScript's `±Infinity` seeds are modelled exactly with the `Extended` datatype. NaN coordinates are not modelled.
- Graph.MapSize: it uses exact real arithmetic rather than floating-point `Math.ceil`.
- Aliasing of the edge and node lists is not modelled. In the source `getEdges` and `getNodes` hand out the live arrays, the `Graph` constructor keeps the caller's array, `addEdge` and `addNode` push in place, and `removeEdge` replaces the array. The model holds these lists as sequence values, so a change made through a shared array is not seen elsewhere. Nothing in `src/graph.ts` relies on such sharing.
