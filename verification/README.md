# diji_game in Dafny

A model of the logic core of *diji_game*, a browser puzzle. The player
clicks a path through a weighted undirected graph, and a bot answers with
Dijkstra's shortest path. The model covers two parts.

- **The shortest-path engine** (`dijkstra.js`):
  - the sorted-list `PriorityQueue` (`enqueue`, `dequeue`, `isEmpty`);
  - the `Graph` class (`addNode`, `addEdge`, `clear`);
  - `dijkstra` with its early exit, stale queue slots, and predecessor-walk path reconstruction.
- **The discrete game rules** (`script.js`):
  - the level formulas and the accept/retry test for a generated level;
  - the Fisher–Yates shuffle of grid positions;
  - the click state machine that builds the player's path, and `resetSelection`;
  - the player's path cost, the run-button rule and the victory test;
  - rebuilding a graph from its saved record.

Modules, one per file:

| file | module | models |
|---|---|---|
| `wrappers.dfy` | `Wrappers` | `Option` |
| `priority_queue.dfy` | `PriorityQueue` | `PriorityQueue` as an immutable sequence of slots |
| `graph.dfy` | `Graphs` | `Graph`, its invariant `Wf`, walks and their cost |
| `dijkstra.dfy` | `ShortestPath` | `Graph.dijkstra` |
| `level.dfy` | `Level` | the integer parts of `generateLevelGraph` |
| `game.dfy` | `Game` | click rules, path cost, victory, `rebuildFromData` |

Representation choices:
- JavaScript's `Infinity` distance is `Dist.Inf`; a finite distance is `Fin(d)` with `d` a natural number.
- The graph is an immutable value, and every mutating method becomes a function returning the new graph.
- `addEdge` throws a `TypeError` in JavaScript for an unknown `from`, or for an unknown `to` that `from` does not already list. Here it returns `UnknownNode(id)` with that id. When `from` already lists `to`, it returns without looking at `to`, and the model gives back the graph unchanged.

The graph invariant `Wf` states five things:
- node ids are dense, `0 .. n-1`;
- the adjacency map has exactly those keys;
- every edge joins two existing nodes;
- no two edges join the same unordered pair;
- each adjacency list equals the list obtained by replaying the edge list in order.

The search is proved against the walk semantics the game itself uses. The
cost of a walk adds, for each step, the weight that
`adjacencyList[u].find(e => e.node === v)` reports. That is how
`getCurrentUserDist` and the animation measure a path.

The proof of `dijkstra` follows the JavaScript loop exactly: it has no visited set, and a node may be expanded again after a stale queue slot. The proof uses ghost state:
- a stamp per node and a clock, so that (distance, stamp) strictly decreases along predecessor links, which also covers zero weights;
- the set of nodes expanded for good, which bounds the outer loop.

## Model

| member | source | states |
|---|---|---|
| PriorityQueue.InsertPos | dijkstra.js:9-16 | the splice position is the first slot with a strictly greater priority, or the end when there is none |
| PriorityQueue.Enqueue | dijkstra.js:6-17 | the queue grows by one, holds the old slots plus `{element, priority}` as a multiset, and stays sorted if it was sorted |
| PriorityQueue.EnqueueStable | dijkstra.js:10-16 | on a sorted queue the new slot sits after every slot of priority at most its own and before every strictly greater one, and removing it gives back the old queue (ties keep insertion order) |
| PriorityQueue.Dequeue | dijkstra.js:19-21 | nothing is handed out exactly when the queue is empty; otherwise head plus rest is the old queue, and on a sorted queue the head has the minimum priority and the rest stays sorted |
| PriorityQueue.IsEmpty | dijkstra.js:23-25 | holds exactly when `dequeue` has nothing to hand out |
| PriorityQueue.DrainSorted | dijkstra.js:19-21 | dequeuing a sorted queue to the end hands out its priorities in order, one per slot |
| PriorityQueue.DequeueOrder | dijkstra.js:6-25 | whatever the order of the `enqueue` calls, the queue is sorted, holds exactly the enqueued slots, and successive dequeues hand out non-decreasing priorities |
| Graphs.Clear | dijkstra.js:49-53 | the cleared graph has no nodes, edges or adjacency lists and is well formed |
| Graphs.FindIndex | dijkstra.js:42 | `find` stops at the first neighbour entry for the node, or runs off the end when there is none |
| Graphs.Find | dijkstra.js:42 | `some(e => e.node === v)` fails exactly when no entry names `v`; a hit reports the weight of a real entry |
| Graphs.AddNode | dijkstra.js:35-38 | one node record is appended, its id gets an empty adjacency list, and no other list changes |
| Graphs.AddNodeWf | dijkstra.js:35-38 | adding the next dense id keeps the graph well formed |
| Graphs.AddEdge | dijkstra.js:40-47 | an unknown `from` fails; an unknown `to` that `from` does not list fails with `to`; any failure names an id without an adjacency list; an existing neighbour of `from` leaves the graph unchanged; with both ids known and no such neighbour it succeeds, appends exactly one edge, appends `(to, w)` to `from`'s list and `(from, w)` to `to`'s list (both to the same list for a loop), keeps the nodes and ids, and changes no other list |
| Graphs.AddEdgeWf | dijkstra.js:40-47 | on a well-formed graph with both ids present, `addEdge` succeeds and keeps the graph well formed; it changes nothing when the pair is already joined and otherwise appends the edge |
| Graphs.AddEdgeTwice | dijkstra.js:41-42 | after adding a pair, adding it again in either direction with any weight changes nothing (the one-sided duplicate test suffices) |
| Graphs.WfFindIsJoined | dijkstra.js:42-46 | in a well-formed graph, `v` is in `u`'s adjacency list exactly when some edge joins `u` and `v` |
| Graphs.WfSymmetric | dijkstra.js:45-46 | adjacency is symmetric: `(v, w)` is in `u`'s list exactly when `(u, w)` is in `v`'s |
| Graphs.WfDetermined | dijkstra.js:40-47 | a well-formed graph's adjacency map is determined by its node and edge lists |
| ShortestPath.Dijkstra | dijkstra.js:55-93 | `dijkstra(s, s)` is `{0, [s]}`; the path is empty exactly when the distance is infinite, which happens exactly when no walk joins start and end; a non-empty path is a walk from start to end without repeated nodes whose cost is the distance, and no walk from start to end costs less |
| ShortestPath.Search | dijkstra.js:56-81 | the relaxation loop ends with sound predecessor links and a distance at `end` that no walk from the start undercuts (finite whenever `end` is reachable) |
| ShortestPath.Expand | dijkstra.js:69-80 | one dequeue and the relaxation of the node's neighbours keep the loop invariant, shrink the termination measure, and never raise any distance |
| ShortestPath.HeadOptimal | dijkstra.js:68-71 | the node at the head of the queue already has its shortest distance: no walk to it is cheaper, and some walk costs exactly that distance; so the early exit is sound |
| ShortestPath.ExhaustedOptimal | dijkstra.js:68-81 | once the queue is empty every distance is the shortest one: no walk is cheaper, a finite distance is the cost of some walk, and the distance is infinite exactly for unreachable nodes |
| ShortestPath.ChainWalk | dijkstra.js:76-77 | following the predecessor links back from any node with a finite distance reaches the start, which has no predecessor; read forwards, this chain (each node's predecessor is the node before it) is a walk from the start costing at most that distance |
| ShortestPath.FrontierBound | dijkstra.js:68-80 | any walk from the start either ends at a node whose distance is no greater than the walk's cost, or passes through a node that sits in a queued slot whose priority is no greater |
| ShortestPath.RelaxUpdate | dijkstra.js:74-78 | lowering a neighbour's distance, setting its predecessor and queueing it keeps the inner-loop invariant |
| ShortestPath.ChainUpdate | dijkstra.js:76-77 | the new predecessor link is sound and every other link stays sound |
| ShortestPath.QueueUpdate | dijkstra.js:78 | the queue stays sorted and never promises less than a node's distance |
| ShortestPath.Reconstruct | dijkstra.js:83-92 | the predecessor walk terminates; it yields a repeat-free walk ending at `end`; with a finite distance it starts at `start` and costs at most the distance; with an infinite one it is `[end]` |
| ShortestPath.TrailStep | dijkstra.js:85-87 | prepending a predecessor keeps the walk valid and strictly lowers its rank |
| Level.NodeCount | script.js:76 | the node count is at most 26, it pins down `floor(1.5 * level)` below the cap, and it is at least 4 from level 1 on |
| Level.NodeCountMonotone | script.js:76 | harder levels never get fewer nodes |
| Level.MinNodes | script.js:130 | the minimum path length never exceeds `nodeCount - 1`, pins down `floor(level / 4)` below the cap, and is at least 2 exactly when there are at least 3 nodes and the level is not negative |
| Level.Rejected | script.js:131 | an infinite distance always rejects; with a finite distance the candidate is rejected exactly when the bot path is shorter than `minNodes`; what an accepted candidate guarantees is `Level.CheckCandidate` |
| Level.CheckCandidate | script.js:126-134 | a candidate is accepted exactly when the bot path has at least `minNodes` nodes and the distance is finite; an accepted path is an optimal repeat-free walk from node 0 to node `n - 1`; the distance is infinite exactly when the target is unreachable |
| Level.Shuffle | script.js:97-100 | for any draws `j` in `[0, i]`, the result is a permutation of the positions (same length and multiset); with `j == i` at every step nothing moves |
| Level.Swap | script.js:99 | the two positions trade places and the rest stays put |
| Game.HandleNodeClick | script.js:231-244 | clicks are ignored while running or finished; clicking the last node of a path longer than one removes exactly that node; any other click appends the node exactly when it is adjacent to the last node and not on the path, and otherwise nothing changes |
| Game.ClickKeepsUserPath | script.js:231-244 | every click keeps the player's path starting at the source, repeat-free and moving only along edges |
| Game.ClickUndo | script.js:234-239 | clicking a node that was just appended removes it again |
| Game.ResetSelection | script.js:246-251 | outside a run the path becomes `[source]`; during a run it is left alone; what this means for the click invariant is `Game.ResetGivesUserPath` |
| Game.ResetGivesUserPath | script.js:246-251 | a reset path satisfies the click invariant |
| Game.CurrentUserDist | script.js:276-283 | the loop's sum is the walk cost of the whole path, and 0 for paths of at most one node |
| Game.RunEnabled | script.js:273 | the button is disabled during a run and for an empty path; otherwise it is enabled exactly when the last path node is the target; what an enabled run guarantees is `Game.EnabledRunIsWalk` |
| Game.EnabledRunIsWalk | script.js:273 | with the button enabled, a path kept valid by the click rules is a repeat-free walk from source to target |
| Game.IsVictory | script.js:340 | an infinite bot distance is never a victory; a finite one is a victory exactly when it equals the player's distance; that victory means the player's walk is a shortest one is `Game.VictoryMeansShortest` |
| Game.VictoryMeansShortest | script.js:334-348 | with the run button enabled (path ends at the target, no run in progress), the player's path is a walk from source to target that costs at least the optimal distance; the result is VICTORY exactly when no walk from source to target is cheaper |
| Game.AddNodes | script.js:57 | the node records are appended in order and no edge changes |
| Game.AddNodesKeys | script.js:57 | after the node loop exactly the recorded ids have been added to the adjacency map, and adjacency entries still name known ids |
| Game.AddEdgeNeighborsKnown | script.js:58 | when adjacency entries name only known ids, `addEdge` succeeds exactly when both ids are known, and keeps that property |
| Game.AddEdges | script.js:58 | a successful edge loop keeps the nodes and the ids and only appends edges (at most one per record); a failure names an id without an adjacency list |
| Game.AddEdgesOutcome | script.js:58 | when adjacency entries name only known ids, the edge loop succeeds exactly when every edge names two ids with adjacency lists |
| Game.RebuildFromData | script.js:55-63 | a successful rebuild has exactly the recorded nodes and copies source, target, optimal distance and bot path |
| Game.RebuildFails | script.js:55-63 | rebuilding fails (JavaScript throws) exactly when some edge names an id that no node record carries |
| Game.SaveLevel | script.js:137-145 | the record carries the board's node and edge lists and fields; for a well-formed board its node ids are dense, its edges join existing nodes, and no pair is joined twice; that rebuilding the record gives back the board is `Game.RebuildRoundTrip` |
| Game.ReplayNodes | script.js:57 | replaying dense node records onto the cleared graph gives a well-formed graph with exactly those nodes and no edges |
| Game.ReplayEdges | script.js:58 | replaying edges between existing nodes that never join a pair twice succeeds, appends every edge, and keeps the graph well formed |
| Game.FirstEdgeFresh | script.js:58 | in an edge list that joins no pair twice, each edge joins a pair that no earlier edge joins |
| Game.ReplayEdgeStep | script.js:58 | one more edge joining a new pair of existing nodes is appended |
| Game.ReplayRecord | script.js:55-58 | replaying dense node records, then an edge list between existing nodes without duplicates, onto the cleared graph gives a well-formed graph with exactly those lists |
| Game.RebuildRoundTrip | script.js:55-63 | saving a well-formed board and rebuilding it from the record gives back the same nodes, edges, adjacency, source, target, optimal distance and bot path |

## Left out

- DOM and SVG rendering, event listeners, `highlightPath`, and the text output of `updateUI`: presentation only.
- `runComparison`, `animatePath`, `applyMovement` and `celebrate`: asynchronous timers and animation. The victory test they feed is modelled.
- `localStorage`/`JSON` persistence, `confirm`, and the `window` exports: ambient I/O. Only the record-to-graph round trip is modelled, with the saved record as a value.
- Jittered grid placement, `calculateDistance` and the weight formula (`Math.round`, `Math.random`): floating-point geometry and randomness. Node coordinates are carried as `real` values and never computed with. Weights are arbitrary natural numbers, and the shuffle's random draws are an input.
- The recursive retry in `generateLevelGraph`: each rejection makes a recursive call followed by `return`, so a long run of rejections would exhaust the JavaScript stack. Whether some retry succeeds depends on the random draws and is not modelled. Only the accept/reject test of one candidate is modelled.
- The node field `label` is named `caption`, because `label` is a Dafny keyword.
- Weights are natural numbers. Negative or fractional weights, which the generator never produces, are outside the model. So are JavaScript's double-precision limits.
- Graphs.AddEdge: when `from` exists but `to` has no adjacency list, JavaScript has already pushed the edge and extended `from`'s list before it throws. The model reports `UnknownNode(to)` and keeps the graph as it was.
- Game.HandleNodeClick: it requires a non-empty path whose last node has an adjacency list, except for an undo click. Otherwise the JavaScript code throws, and that path is not modelled. Every path built from `[source]` by clicks meets this (`Game.ClickKeepsUserPath`).
- ShortestPath.Dijkstra: it requires a well-formed graph and both ids present. Graphs built only through `addNode` with dense ids and `addEdge` are well formed (`Graphs.AddNodeWf`, `Graphs.AddEdgeWf`). With an `end` that is not a node, the JavaScript predecessor walk never stops: `previous[end]` is `undefined`, which is not `null`, so the loop keeps prepending to `path`. That non-terminating call is not modelled. A `start` that is not a node is not modelled either.
- Game.CurrentUserDist: it requires every path node but the last to have an adjacency list. The JavaScript code throws a `TypeError` at script.js:279 otherwise, and that path is not modelled. Paths built by clicks always meet the requirement (`Game.ClickKeepsUserPath`).
- Level.CheckCandidate: it takes the candidate graph as an input. Building it from positions and nearest neighbours is geometry, and is left out as above.
- Level acceptance: the length test counts every node of the bot path, endpoints included.
