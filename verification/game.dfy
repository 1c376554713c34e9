/**
  The discrete rules of the `Game` class in `script.js`: the click state
  machine that builds the player's path, resetting the selection, the
  player's path cost, the run-button and victory tests, and restoring a
  level's graph from its saved record.
 */
module Game {
  import opened Wrappers
  import opened Graphs
  import opened ShortestPath

  /** `gameState`: `"IDLE"`, `"RUNNING"` or `"FINISHED"`. */
  datatype Phase = Idle | Running | Finished

  /** The player's path, as kept between clicks: it starts at the source,
      never repeats a node, follows edges, and names only graph nodes. */
  ghost predicate UserPathOk(g: Graph, source: nat, path: seq<nat>) {
    && |path| > 0 && path[0] == source
    && NoRepeats(path)
    && IsWalk(g, path)
    && forall i :: 0 <= i < |path| ==> path[i] in g.adj
  }

  /** The inputs on which `handleNodeClick` does not throw: outside the
      running and finished phases it reads the last path node and, unless
      that click is an undo, its adjacency list. */
  predicate ClickDefined(g: Graph, phase: Phase, path: seq<nat>, nodeId: nat) {
    || phase.Running? || phase.Finished?
    || (|path| > 0 && ((nodeId == path[|path| - 1] && |path| > 1) || path[|path| - 1] in g.adj))
  }

  /** `handleNodeClick(nodeId)`, returning the new `userPath`. Clicks are
      ignored while running or finished; clicking the last node of a path
      longer than one removes exactly that node; any other click appends
      the node when it is adjacent to the last one and not yet on the path,
      and otherwise changes nothing. */
  function HandleNodeClick(g: Graph, phase: Phase, path: seq<nat>, nodeId: nat): (r: seq<nat>)
    requires ClickDefined(g, phase, path, nodeId)
    ensures !phase.Idle? ==> r == path
    ensures |r| < |path| ==> |path| > 1 && nodeId == path[|path| - 1] && r == path[..|path| - 1]
    ensures |r| > |path| ==> && r == path + [nodeId] && nodeId !in path
                             && Find(g.adj[path[|path| - 1]], nodeId).Some?
    ensures |r| == |path| ==> r == path
    ensures phase.Idle? && |path| > 1 && nodeId == path[|path| - 1] ==> |r| < |path|
    ensures (phase.Idle? && nodeId != path[|path| - 1] && nodeId !in path
             && Find(g.adj[path[|path| - 1]], nodeId).Some?) ==> |r| > |path|
  {
    if phase.Running? || phase.Finished? then path
    else
      var lastNode := path[|path| - 1];
      if nodeId == lastNode && |path| > 1 then path[..|path| - 1]
      else if Find(g.adj[lastNode], nodeId).Some? && nodeId !in path then path + [nodeId]
      else path
  }

  /** `resetSelection()`: back to `[sourceNode]` unless a run is going on. */
  function ResetSelection(phase: Phase, path: seq<nat>, source: nat): (r: seq<nat>)
    ensures phase.Running? ==> r == path
    ensures !phase.Running? ==> r == [source]
  {
    if phase.Running? then path else [source]
  }

  /** A reset outside a run yields a valid player path. */
  lemma ResetGivesUserPath(g: Graph, phase: Phase, path: seq<nat>, source: nat)
    requires source in g.adj && !phase.Running?
    ensures UserPathOk(g, source, ResetSelection(phase, path, source))
  {
  }

  /** Every click keeps the player's path valid: it still starts at the
      source, has no repeated node and moves only along edges. */
  lemma ClickKeepsUserPath(g: Graph, phase: Phase, source: nat, path: seq<nat>, nodeId: nat)
    requires Wf(g)
    requires UserPathOk(g, source, path)
    ensures ClickDefined(g, phase, path, nodeId)
    ensures UserPathOk(g, source, HandleNodeClick(g, phase, path, nodeId))
  {
    var r := HandleNodeClick(g, phase, path, nodeId);
    if |r| > |path| {
      WfSearchReady(g);
      var last := path[|path| - 1];
      var k := FindIndex(g.adj[last], nodeId);
      assert g.adj[last][k].node == nodeId;
      assert nodeId < |g.nodes|;
      forall i | 0 <= i < |r| - 1
        ensures r[i] in g.adj && Find(g.adj[r[i]], r[i + 1]).Some?
      {
        if i < |path| - 1 {
          assert r[i] == path[i] && r[i + 1] == path[i + 1];
        }
      }
    } else if |r| < |path| {
      forall i | 0 <= i < |r| - 1
        ensures r[i] in g.adj && Find(g.adj[r[i]], r[i + 1]).Some?
      {
        assert r[i] == path[i] && r[i + 1] == path[i + 1];
      }
    }
  }

  /** Clicking a node that was just appended removes it again. */
  lemma ClickUndo(g: Graph, source: nat, path: seq<nat>, nodeId: nat)
    requires UserPathOk(g, source, path)
    requires |HandleNodeClick(g, Idle, path, nodeId)| > |path|
    ensures ClickDefined(g, Idle, HandleNodeClick(g, Idle, path, nodeId), nodeId)
    ensures HandleNodeClick(g, Idle, HandleNodeClick(g, Idle, path, nodeId), nodeId) == path
  {
  }

  /** `getCurrentUserDist()`: adds, for each consecutive pair of the path,
      the weight `find` reports (nothing when the pair is not adjacent).
      It is the path cost used throughout, 0 for paths of at most one node. */
  method CurrentUserDist(g: Graph, path: seq<nat>) returns (dist: nat)
    requires Traversable(g, path)
    ensures dist == PathCost(g, path)
    ensures |path| <= 1 ==> dist == 0
  {
    dist := 0;
    var i := 1;
    while i < |path|
      invariant 1 <= i <= |path| || (|path| == 0 && i == 1)
      invariant dist == PathCost(g, path[..if i <= |path| then i else |path|])
    {
      var p := path[..i + 1];
      assert p[..|p| - 1] == path[..i];
      match Find(g.adj[path[i - 1]], path[i]) {
        case Some(w) => dist := dist + w;
        case None =>
      }
      i := i + 1;
    }
    assert path[..if i <= |path| then i else |path|] == path;
  }

  /** The run button is enabled (`disabled` is false) exactly when the
      path ends at the target and no run is in progress. */
  predicate RunEnabled(phase: Phase, path: seq<nat>, target: nat)
    ensures phase.Running? ==> !RunEnabled(phase, path, target)
    ensures |path| == 0 ==> !RunEnabled(phase, path, target)
    ensures !phase.Running? && |path| > 0 ==> (RunEnabled(phase, path, target) <==> path[|path| - 1] == target)
  {
    |path| > 0 && path[|path| - 1] == target && !phase.Running?
  }

  /** With the button enabled, a valid player path is a walk from source to
      target without repeated nodes. */
  lemma EnabledRunIsWalk(g: Graph, phase: Phase, source: nat, target: nat, path: seq<nat>)
    requires UserPathOk(g, source, path) && RunEnabled(phase, path, target)
    ensures WalkBetween(g, path, source, target) && NoRepeats(path)
  {
  }

  /** `showResult`: victory exactly when the distances are equal. An
      infinite bot distance never equals the player's finite one. */
  predicate IsVictory(userDist: nat, botDist: Dist)
    ensures botDist.Inf? ==> !IsVictory(userDist, botDist)
    ensures botDist.Fin? ==> (IsVictory(userDist, botDist) <==> botDist.d == userDist)
  {
    botDist == Fin(userDist)
  }

  /** When the run button is enabled on a valid player path, the path is a
      walk from source to target; against the optimal distance found by the
      search (attained by the bot's walk), the player never does better, and
      wins exactly when no walk from source to target is cheaper than theirs. */
  lemma VictoryMeansShortest(g: Graph, phase: Phase, source: nat, target: nat, path: seq<nat>,
                             botPath: seq<nat>, optimal: Dist)
    requires UserPathOk(g, source, path) && RunEnabled(phase, path, target)
    requires WalkBetween(g, botPath, source, target) && optimal == Fin(PathCost(g, botPath))
    requires forall q :: WalkBetween(g, q, source, target) ==> optimal.Fin? && optimal.d <= PathCost(g, q)
    ensures WalkBetween(g, path, source, target)
    ensures optimal.Fin? && optimal.d <= PathCost(g, path)
    ensures IsVictory(PathCost(g, path), optimal) <==>
              forall q :: WalkBetween(g, q, source, target) ==> PathCost(g, path) <= PathCost(g, q)
  {
  }

  // ---------------------------------------------------------------------
  // Restoring a saved level
  // ---------------------------------------------------------------------

  /** The saved record `{ level, nodes, edges, source, target,
      optimalDistance, botPath }`. */
  datatype SavedLevel = SavedLevel(level: int, nodes: seq<Node>, edges: seq<Edge>, source: nat, target: nat,
                                   optimalDistance: Dist, botPath: seq<nat>)

  /** The fields of `Game` that `rebuildFromData` sets. */
  datatype Board = Board(graph: Graph, source: nat, target: nat, optimalDistance: Dist, botPath: seq<nat>)

  /** The ids named by a list of node records. */
  function NodeIds(nodes: seq<Node>): set<nat>
  {
    set i | 0 <= i < |nodes| :: nodes[i].id
  }

  /** Every adjacency entry names an id that has an adjacency list itself. */
  predicate NeighborsKnown(g: Graph) {
    forall u, k :: u in g.adj && 0 <= k < |g.adj[u]| ==> g.adj[u][k].node in g.adj
  }

  /** `addEdge` keeps every adjacency entry pointing at a known id, and on
      such a graph it succeeds exactly when both ids are known. */
  lemma AddEdgeNeighborsKnown(g: Graph, from: nat, to: nat, weight: nat)
    ensures NeighborsKnown(g) ==> (AddEdge(g, from, to, weight).Ok? <==> from in g.adj && to in g.adj)
    ensures NeighborsKnown(g) && AddEdge(g, from, to, weight).Ok? ==> NeighborsKnown(AddEdge(g, from, to, weight).graph)
  {
    if NeighborsKnown(g) && from in g.adj && Find(g.adj[from], to).Some? {
      var k :| 0 <= k < |g.adj[from]| && g.adj[from][k] == Neighbor(to, Find(g.adj[from], to).value);
    }
  }

  /** The node loop of `rebuildFromData`: `addNode` for each record, in
      order, so the records are appended as given. */
  function AddNodes(g: Graph, nodes: seq<Node>): (r: Graph)
    ensures r.nodes == g.nodes + nodes
    ensures r.edges == g.edges
  {
    if |nodes| == 0 then g
    else
      var n := nodes[|nodes| - 1];
      AddNode(AddNodes(g, nodes[..|nodes| - 1]), n.id, n.x, n.y, n.caption)
  }

  /** Replaying node records gives every named id an adjacency list and
      keeps adjacency entries pointing at known ids. */
  lemma {:induction false} AddNodesKeys(g: Graph, nodes: seq<Node>)
    ensures AddNodes(g, nodes).adj.Keys == g.adj.Keys + NodeIds(nodes)
    ensures NeighborsKnown(g) ==> NeighborsKnown(AddNodes(g, nodes))
  {
    if |nodes| > 0 {
      var front := nodes[..|nodes| - 1];
      var n := nodes[|nodes| - 1];
      AddNodesKeys(g, front);
      assert nodes == front + [n];
      assert NodeIds(nodes) == NodeIds(front) + {n.id};
    }
  }

  /** The edge loop of `rebuildFromData`: `addEdge` for each record, in
      order, stopping at the first edge that names an id without an
      adjacency list. On success the nodes and ids stay and edges are only
      appended; a failure names an id without an adjacency list. */
  function AddEdges(g: Graph, edges: seq<Edge>): (r: GraphResult)
    ensures r.Ok? ==> && r.graph.nodes == g.nodes && r.graph.adj.Keys == g.adj.Keys
                      && g.edges <= r.graph.edges && |r.graph.edges| <= |g.edges| + |edges|
    ensures r.UnknownNode? ==> r.id !in g.adj
    decreases |edges|
  {
    if |edges| == 0 then Ok(g)
    else
      match AddEdge(g, edges[0].from, edges[0].to, edges[0].weight)
      case UnknownNode(id) => UnknownNode(id)
      case Ok(g') => AddEdges(g', edges[1..])
  }

  /** When adjacency entries point only at known ids (as replaying from the
      cleared graph ensures), replaying edges succeeds exactly when every
      edge names two ids that have adjacency lists. */
  lemma {:induction false} AddEdgesOutcome(g: Graph, edges: seq<Edge>)
    requires NeighborsKnown(g)
    ensures AddEdges(g, edges).Ok? <==> forall i :: 0 <= i < |edges| ==> edges[i].from in g.adj && edges[i].to in g.adj
    decreases |edges|
  {
    if |edges| > 0 {
      var e := edges[0];
      AddEdgeNeighborsKnown(g, e.from, e.to, e.weight);
      if AddEdge(g, e.from, e.to, e.weight).Ok? {
        var g' := AddEdge(g, e.from, e.to, e.weight).graph;
        AddEdgesOutcome(g', edges[1..]);
        assert forall i :: 1 <= i < |edges| ==> edges[i] == edges[1..][i - 1];
      }
    }
  }

  /** `rebuildFromData(data)`: clear, replay nodes then edges, and copy the
      remaining fields; `None` where the replay throws. */
  function RebuildFromData(data: SavedLevel): (r: Option<Board>)
    ensures r.Some? ==> && r.value.graph.nodes == data.nodes
                        && r.value.source == data.source && r.value.target == data.target
                        && r.value.optimalDistance == data.optimalDistance && r.value.botPath == data.botPath
  {
    match AddEdges(AddNodes(Clear(), data.nodes), data.edges)
    case UnknownNode(_) => None
    case Ok(g) => Some(Board(g, data.source, data.target, data.optimalDistance, data.botPath))
  }

  /** Rebuilding fails (where JavaScript throws) exactly when some edge
      names an id that no node record carries. */
  lemma RebuildFails(data: SavedLevel)
    ensures RebuildFromData(data).None? <==>
              exists i :: 0 <= i < |data.edges| &&
                (data.edges[i].from !in NodeIds(data.nodes) || data.edges[i].to !in NodeIds(data.nodes))
  {
    var g0 := AddNodes(Clear(), data.nodes);
    AddNodesKeys(Clear(), data.nodes);
    AddEdgesOutcome(g0, data.edges);
  }

  /** The record `generateLevelGraph` saves for a board: the board's own
      lists and fields. A well-formed board saves dense node records and an
      edge list between existing nodes that never joins a pair twice, which
      is what replaying needs. */
  function SaveLevel(level: int, b: Board): (r: SavedLevel)
    ensures r.level == level && r.nodes == b.graph.nodes && r.edges == b.graph.edges
    ensures r.source == b.source && r.target == b.target
    ensures r.optimalDistance == b.optimalDistance && r.botPath == b.botPath
    ensures Wf(b.graph) ==> && (forall i :: 0 <= i < |r.nodes| ==> r.nodes[i].id == i)
                            && (forall i :: 0 <= i < |r.edges| ==> r.edges[i].from < |r.nodes| && r.edges[i].to < |r.nodes|)
                            && NoDuplicateEdges(r.edges)
  {
    SavedLevel(level, b.graph.nodes, b.graph.edges, b.source, b.target, b.optimalDistance, b.botPath)
  }

  /** Replaying dense node records onto the empty graph gives a well-formed
      graph with exactly those nodes and no edges. */
  lemma {:induction false} ReplayNodes(nodes: seq<Node>)
    requires forall i :: 0 <= i < |nodes| ==> nodes[i].id == i
    ensures Wf(AddNodes(Clear(), nodes))
    ensures AddNodes(Clear(), nodes).nodes == nodes
    ensures AddNodes(Clear(), nodes).edges == []
  {
    if |nodes| > 0 {
      var front := nodes[..|nodes| - 1];
      var n := nodes[|nodes| - 1];
      ReplayNodes(front);
      AddNodeWf(AddNodes(Clear(), front), n.id, n.x, n.y, n.caption);
      assert front + [n] == nodes;
    }
  }

  /** Replaying edges whose ends exist and which, after the graph's own
      edges, never join a pair twice, succeeds, appends every edge, and keeps
      the graph well formed. */
  lemma {:induction false} ReplayEdges(g: Graph, edges: seq<Edge>)
    requires Wf(g)
    requires forall i :: 0 <= i < |edges| ==> edges[i].from < |g.nodes| && edges[i].to < |g.nodes|
    requires NoDuplicateEdges(g.edges + edges)
    ensures AddEdges(g, edges).Ok?
    ensures Wf(AddEdges(g, edges).graph)
    ensures AddEdges(g, edges).graph.nodes == g.nodes
    ensures AddEdges(g, edges).graph.edges == g.edges + edges
    decreases |edges|
  {
    if |edges| > 0 {
      var e := edges[0];
      FirstEdgeFresh(g.edges, edges);
      ReplayEdgeStep(g, e);
      var g1 := AddEdge(g, e.from, e.to, e.weight).graph;
      ReplayEdges(g1, edges[1..]);
    }
  }

  /** When `a + b` joins no pair twice, the first edge of `b` joins a pair
      no edge of `a` joins, and moving it over to `a` changes nothing. */
  lemma FirstEdgeFresh(a: seq<Edge>, b: seq<Edge>)
    requires |b| > 0 && NoDuplicateEdges(a + b)
    ensures forall i :: 0 <= i < |a| ==> !Connects(a[i], b[0].from, b[0].to)
    ensures (a + [b[0]]) + b[1..] == a + b
    ensures NoDuplicateEdges((a + [b[0]]) + b[1..])
  {
    var s := a + b;
    forall i | 0 <= i < |a|
      ensures !Connects(a[i], b[0].from, b[0].to)
    {
      assert s[i] == a[i] && s[|a|] == b[0];
    }
    assert (a + [b[0]]) + b[1..] == s;
  }

  /** One more edge that joins a new pair of existing nodes is appended. */
  lemma ReplayEdgeStep(g: Graph, e: Edge)
    requires Wf(g) && e.from < |g.nodes| && e.to < |g.nodes|
    requires forall i :: 0 <= i < |g.edges| ==> !Connects(g.edges[i], e.from, e.to)
    ensures AddEdge(g, e.from, e.to, e.weight).Ok?
    ensures Wf(AddEdge(g, e.from, e.to, e.weight).graph)
    ensures AddEdge(g, e.from, e.to, e.weight).graph.nodes == g.nodes
    ensures AddEdge(g, e.from, e.to, e.weight).graph.edges == g.edges + [e]
  {
    AddEdgeWf(g, e.from, e.to, e.weight);
  }

  /** Saving a well-formed board and rebuilding it gives back the same
      board: same node list, edge list and adjacency, because a saved edge
      list never joins a pair twice. */
  lemma RebuildRoundTrip(level: int, b: Board)
    requires Wf(b.graph)
    ensures RebuildFromData(SaveLevel(level, b)) == Some(b)
  {
    var data := SaveLevel(level, b);
    ReplayRecord(data.nodes, data.edges);
    WfDetermined(AddEdges(AddNodes(Clear(), data.nodes), data.edges).graph, b.graph);
  }

  /** Replaying dense node records and then an edge list between existing
      nodes without duplicates onto the cleared graph gives a well-formed
      graph with exactly those lists. */
  lemma ReplayRecord(nodes: seq<Node>, edges: seq<Edge>)
    requires forall i :: 0 <= i < |nodes| ==> nodes[i].id == i
    requires forall i :: 0 <= i < |edges| ==> edges[i].from < |nodes| && edges[i].to < |nodes|
    requires NoDuplicateEdges(edges)
    ensures AddEdges(AddNodes(Clear(), nodes), edges).Ok?
    ensures Wf(AddEdges(AddNodes(Clear(), nodes), edges).graph)
    ensures AddEdges(AddNodes(Clear(), nodes), edges).graph.nodes == nodes
    ensures AddEdges(AddNodes(Clear(), nodes), edges).graph.edges == edges
  {
    ReplayNodes(nodes);
    var g0 := AddNodes(Clear(), nodes);
    assert g0.edges + edges == edges;
    ReplayEdges(g0, edges);
  }

}
