/**
  The `Graph` class of `dijkstra.js`: a node list with dense ids, an edge
  list, and an adjacency map from node id to `(neighbour, weight)` pairs.
  Edges are undirected and `addEdge` ignores a pair that is already joined.
 */
module Graphs {
  import opened Wrappers

  /** A node record `{ id, x, y, label }` (`label` is a Dafny keyword, hence
      `caption`); the coordinates are carried along but never computed
      with. */
  datatype Node = Node(id: nat, x: real, y: real, caption: string)

  /** An edge record `{ from, to, weight }`. */
  datatype Edge = Edge(from: nat, to: nat, weight: nat)

  /** An adjacency entry `{ node, weight }`. */
  datatype Neighbor = Neighbor(node: nat, weight: nat)

  datatype Graph = Graph(nodes: seq<Node>, edges: seq<Edge>, adj: map<nat, seq<Neighbor>>)

  /** Outcome of `addEdge`: the new graph, or the id whose adjacency list is
      missing (where the JavaScript code throws a `TypeError`). */
  datatype GraphResult = Ok(graph: Graph) | UnknownNode(id: nat)

  /** `constructor()` / `clear()`: the empty graph. */
  function Clear(): (r: Graph)
    ensures Wf(r)
    ensures |r.nodes| == 0 && |r.edges| == 0 && forall u :: u !in r.adj
  {
    var r := Graph([], [], map[]);
    assert forall u: nat :: u !in r.adj;
    r
  }

  /** The position `Array.prototype.find` stops at when looking for
      neighbour `v` in `s`: the first match, or `|s|` when there is none. */
  function FindIndex(s: seq<Neighbor>, v: nat): (i: nat)
    ensures i <= |s|
    ensures forall k :: 0 <= k < i ==> s[k].node != v
    ensures i < |s| ==> s[i].node == v
  {
    if |s| == 0 then 0
    else if s[0].node == v then 0
    else 1 + FindIndex(s[1..], v)
  }

  /** Looking up neighbour `v` in `s` with `find`, reduced to the weight of
      the first matching entry; `Some?` is the `some` test of `addEdge`. */
  function Find(s: seq<Neighbor>, v: nat): (r: Option<nat>)
    ensures r.None? <==> forall k :: 0 <= k < |s| ==> s[k].node != v
    ensures r.Some? ==> Neighbor(v, r.value) in s
  {
    var i := FindIndex(s, v);
    if i < |s| then Some(s[i].weight) else None
  }

  /** `addNode(id, x, y, caption)`: appends the record and (re)sets the
      adjacency list of `id` to empty. */
  function AddNode(g: Graph, id: nat, x: real, y: real, caption: string): (r: Graph)
    ensures r.nodes == g.nodes + [Node(id, x, y, caption)]
    ensures r.edges == g.edges
    ensures r.adj.Keys == g.adj.Keys + {id}
    ensures r.adj[id] == []
    ensures forall u :: u in g.adj && u != id ==> r.adj[u] == g.adj[u]
  {
    Graph(g.nodes + [Node(id, x, y, caption)], g.edges, g.adj[id := []])
  }

  /** `addEdge(from, to, weight)`. The duplicate test looks only in the
      adjacency list of `from`; both lists are then extended, `from`'s
      first (so a loop `from == to` lands twice in the same list). */
  function AddEdge(g: Graph, from: nat, to: nat, weight: nat): (r: GraphResult)
    ensures from !in g.adj ==> r == UnknownNode(from)
    ensures r.UnknownNode? ==> r.id !in g.adj && (r.id == from || r.id == to)
    ensures from in g.adj && Find(g.adj[from], to).Some? ==> r == Ok(g)
    ensures from in g.adj && to in g.adj ==> r.Ok?
    ensures from in g.adj && Find(g.adj[from], to).None? && to !in g.adj ==> r == UnknownNode(to)
    ensures from in g.adj && to in g.adj && Find(g.adj[from], to).None? ==>
              && r.Ok?
              && r.graph.nodes == g.nodes
              && r.graph.edges == g.edges + [Edge(from, to, weight)]
              && r.graph.adj.Keys == g.adj.Keys
              && (from != to ==> && r.graph.adj[from] == g.adj[from] + [Neighbor(to, weight)]
                                 && r.graph.adj[to] == g.adj[to] + [Neighbor(from, weight)])
              && (from == to ==> r.graph.adj[from] == g.adj[from] + [Neighbor(to, weight), Neighbor(from, weight)])
              && (forall u :: u in g.adj && u != from && u != to ==> r.graph.adj[u] == g.adj[u])
  {
    if from !in g.adj then UnknownNode(from)
    else if Find(g.adj[from], to).Some? then Ok(g)
    else if to !in g.adj then UnknownNode(to)
    else
      var adj1 := g.adj[from := g.adj[from] + [Neighbor(to, weight)]];
      var adj2 := adj1[to := adj1[to] + [Neighbor(from, weight)]];
      Ok(Graph(g.nodes, g.edges + [Edge(from, to, weight)], adj2))
  }

  /** Edge `e` joins `u` and `v`, in either direction. */
  predicate Connects(e: Edge, u: nat, v: nat) {
    (e.from == u && e.to == v) || (e.from == v && e.to == u)
  }

  /** No two edges join the same unordered pair. */
  predicate NoDuplicateEdges(edges: seq<Edge>) {
    forall i, j :: 0 <= i < j < |edges| ==> !Connects(edges[j], edges[i].from, edges[i].to)
  }

  /** The adjacency list of `u` that replaying `edges` through `addEdge`
      produces: each edge contributes `(to, w)` to `from`'s list and then
      `(from, w)` to `to`'s list. */
  function AdjacencyOf(edges: seq<Edge>, u: nat): seq<Neighbor>
  {
    if |edges| == 0 then []
    else
      var e := edges[|edges| - 1];
      AdjacencyOf(edges[..|edges| - 1], u)
        + (if e.from == u then [Neighbor(e.to, e.weight)] else [])
        + (if e.to == u then [Neighbor(e.from, e.weight)] else [])
  }

  /** The graph invariant that `addNode` with dense ids and `addEdge` keep:
      ids are array positions, the adjacency map has exactly those keys,
      edges join existing nodes, no pair is joined twice, and every
      adjacency list is the one the edge list implies. */
  ghost predicate Wf(g: Graph) {
    && (forall i :: 0 <= i < |g.nodes| ==> g.nodes[i].id == i)
    && (forall u: nat :: u in g.adj <==> u < |g.nodes|)
    && (forall i :: 0 <= i < |g.edges| ==> g.edges[i].from < |g.nodes| && g.edges[i].to < |g.nodes|)
    && NoDuplicateEdges(g.edges)
    && (forall u :: u in g.adj ==> g.adj[u] == AdjacencyOf(g.edges, u))
  }

  /** What the shortest-path search relies on: every id below the node
      count has a list, every neighbour is such an id, and all entries for
      one neighbour carry the weight `find` reports. */
  ghost predicate SearchReady(g: Graph) {
    && (forall u: nat :: u in g.adj <==> u < |g.nodes|)
    && (forall u, k :: u in g.adj && 0 <= k < |g.adj[u]| ==>
          && g.adj[u][k].node < |g.nodes|
          && Find(g.adj[u], g.adj[u][k].node) == Some(g.adj[u][k].weight))
  }

  // ---------------------------------------------------------------------
  // Facts about AdjacencyOf
  // ---------------------------------------------------------------------

  /** Every entry of an implied adjacency list comes from an edge. */
  lemma {:induction false} AdjacencyOfEntry(edges: seq<Edge>, u: nat, k: nat)
    requires k < |AdjacencyOf(edges, u)|
    ensures exists i :: 0 <= i < |edges| && Connects(edges[i], u, AdjacencyOf(edges, u)[k].node)
                        && edges[i].weight == AdjacencyOf(edges, u)[k].weight
  {
    var s := AdjacencyOf(edges, u);
    var n := |edges|;
    var e := edges[n - 1];
    var front := AdjacencyOf(edges[..n - 1], u);
    if k < |front| {
      AdjacencyOfEntry(edges[..n - 1], u, k);
      var i :| 0 <= i < n - 1 && Connects(edges[..n - 1][i], u, front[k].node)
               && edges[..n - 1][i].weight == front[k].weight;
      assert s[k] == front[k];
      assert edges[i] == edges[..n - 1][i];
    } else {
      assert Connects(edges[n - 1], u, s[k].node) && edges[n - 1].weight == s[k].weight;
    }
  }

  /** Every edge at `u` shows up in the implied adjacency list of `u`. */
  lemma {:induction false} AdjacencyOfHas(edges: seq<Edge>, u: nat, i: nat)
    requires i < |edges|
    requires edges[i].from == u || edges[i].to == u
    ensures var v := if edges[i].from == u then edges[i].to else edges[i].from;
            Neighbor(v, edges[i].weight) in AdjacencyOf(edges, u)
  {
    var n := |edges|;
    if i < n - 1 {
      AdjacencyOfHas(edges[..n - 1], u, i);
      assert edges[..n - 1][i] == edges[i];
    }
  }

  /** A node no edge touches has an empty implied list. */
  lemma {:induction false} AdjacencyOfUntouched(edges: seq<Edge>, u: nat)
    requires forall i :: 0 <= i < |edges| ==> edges[i].from != u && edges[i].to != u
    ensures AdjacencyOf(edges, u) == []
  {
    if |edges| > 0 {
      AdjacencyOfUntouched(edges[..|edges| - 1], u);
    }
  }

  /** `addEdge`'s duplicate test, on a well-formed graph, asks whether any
      edge already joins the pair. */
  lemma WfFindIsJoined(g: Graph, from: nat, to: nat)
    requires Wf(g)
    requires from in g.adj
    ensures Find(g.adj[from], to).Some? <==> exists i :: 0 <= i < |g.edges| && Connects(g.edges[i], from, to)
  {
    var s := g.adj[from];
    if Find(s, to).Some? {
      var k := FindIndex(s, to);
      AdjacencyOfEntry(g.edges, from, k);
    }
    if i :| 0 <= i < |g.edges| && Connects(g.edges[i], from, to) {
      AdjacencyOfHas(g.edges, from, i);
    }
  }

  /** A well-formed graph is ready for the search. */
  lemma WfSearchReady(g: Graph)
    requires Wf(g)
    ensures SearchReady(g)
  {
    forall u, k | u in g.adj && 0 <= k < |g.adj[u]|
      ensures g.adj[u][k].node < |g.nodes|
      ensures Find(g.adj[u], g.adj[u][k].node) == Some(g.adj[u][k].weight)
    {
      var s := g.adj[u];
      var v := s[k].node;
      AdjacencyOfEntry(g.edges, u, k);
      var i :| 0 <= i < |g.edges| && Connects(g.edges[i], u, v) && g.edges[i].weight == s[k].weight;
      var m := FindIndex(s, v);
      AdjacencyOfEntry(g.edges, u, m);
      var i' :| 0 <= i' < |g.edges| && Connects(g.edges[i'], u, v) && g.edges[i'].weight == s[m].weight;
    }
  }

  /** Adjacency is symmetric: `(v, w)` is in `u`'s list exactly when
      `(u, w)` is in `v`'s list. */
  lemma WfSymmetric(g: Graph, u: nat, v: nat, w: nat)
    requires Wf(g)
    requires u in g.adj && v in g.adj
    ensures Neighbor(v, w) in g.adj[u] <==> Neighbor(u, w) in g.adj[v]
  {
    if Neighbor(v, w) in g.adj[u] {
      var k :| 0 <= k < |g.adj[u]| && g.adj[u][k] == Neighbor(v, w);
      AdjacencyOfEntry(g.edges, u, k);
      var i :| 0 <= i < |g.edges| && Connects(g.edges[i], u, v) && g.edges[i].weight == w;
      AdjacencyOfHas(g.edges, v, i);
    }
    if Neighbor(u, w) in g.adj[v] {
      var k :| 0 <= k < |g.adj[v]| && g.adj[v][k] == Neighbor(u, w);
      AdjacencyOfEntry(g.edges, v, k);
      var i :| 0 <= i < |g.edges| && Connects(g.edges[i], v, u) && g.edges[i].weight == w;
      AdjacencyOfHas(g.edges, u, i);
    }
  }

  // ---------------------------------------------------------------------
  // The construction operations keep the invariant
  // ---------------------------------------------------------------------

  /** Adding the next dense id keeps the graph well formed, and its node
      starts with no neighbours. */
  lemma AddNodeWf(g: Graph, id: nat, x: real, y: real, caption: string)
    requires Wf(g)
    requires id == |g.nodes|
    ensures Wf(AddNode(g, id, x, y, caption))
  {
    var r := AddNode(g, id, x, y, caption);
    AdjacencyOfUntouched(g.edges, id);
  }

  /** On a well-formed graph with both ends present, `addEdge` succeeds and
      keeps the invariant; it leaves the graph alone exactly when some edge
      already joins the pair, and otherwise appends exactly that edge. */
  lemma AddEdgeWf(g: Graph, from: nat, to: nat, weight: nat)
    requires Wf(g)
    requires from < |g.nodes| && to < |g.nodes|
    ensures AddEdge(g, from, to, weight).Ok?
    ensures Wf(AddEdge(g, from, to, weight).graph)
    ensures (exists i :: 0 <= i < |g.edges| && Connects(g.edges[i], from, to)) ==>
              AddEdge(g, from, to, weight).graph == g
    ensures (forall i :: 0 <= i < |g.edges| ==> !Connects(g.edges[i], from, to)) ==>
              AddEdge(g, from, to, weight).graph == g.(edges := g.edges + [Edge(from, to, weight)],
                                                        adj := AddEdge(g, from, to, weight).graph.adj)
  {
    WfFindIsJoined(g, from, to);
    var r := AddEdge(g, from, to, weight).graph;
    if Find(g.adj[from], to).None? {
      var e := Edge(from, to, weight);
      var edges' := g.edges + [e];
      assert edges'[..|edges'| - 1] == g.edges;
      forall u | u in r.adj
        ensures r.adj[u] == AdjacencyOf(edges', u)
      {
      }
      forall i, j | 0 <= i < j < |edges'|
        ensures !Connects(edges'[j], edges'[i].from, edges'[i].to)
      {
        if j == |edges'| - 1 {
          assert !Connects(g.edges[i], from, to);
        }
      }
    }
  }

  /** Adding the same pair again, in either direction and with any weight,
      changes nothing: the first weight stays. */
  lemma AddEdgeTwice(g: Graph, a: nat, b: nat, w: nat, w2: nat)
    requires Wf(g)
    requires a < |g.nodes| && b < |g.nodes|
    ensures var g1 := AddEdge(g, a, b, w).graph;
            && AddEdge(g1, a, b, w2) == Ok(g1)
            && AddEdge(g1, b, a, w2) == Ok(g1)
  {
    AddEdgeWf(g, a, b, w);
    var g1 := AddEdge(g, a, b, w).graph;
    if forall i :: 0 <= i < |g.edges| ==> !Connects(g.edges[i], a, b) {
      assert Connects(g1.edges[|g.edges|], a, b);
    } else {
      assert g1 == g;
    }
    assert exists i :: 0 <= i < |g1.edges| && Connects(g1.edges[i], a, b);
    assert exists i :: 0 <= i < |g1.edges| && Connects(g1.edges[i], b, a);
    WfFindIsJoined(g1, a, b);
    WfFindIsJoined(g1, b, a);
  }

  /** Two well-formed graphs with the same node and edge lists are equal:
      the adjacency map is determined by them. */
  lemma WfDetermined(g1: Graph, g2: Graph)
    requires Wf(g1) && Wf(g2)
    requires g1.nodes == g2.nodes && g1.edges == g2.edges
    ensures g1 == g2
  {
  }

  // ---------------------------------------------------------------------
  // Walks and their cost
  // ---------------------------------------------------------------------

  /** The weight `find` reports for the step `u -> v`, or 0 when `v` is not
      a neighbour of `u` (the step then adds nothing, as in the game's sum). */
  function StepCost(g: Graph, u: nat, v: nat): nat
    requires u in g.adj
  {
    match Find(g.adj[u], v)
    case Some(w) => w
    case None => 0
  }

  /** Every node of `p` but the last has an adjacency list. */
  predicate Traversable(g: Graph, p: seq<nat>) {
    forall i :: 0 <= i < |p| - 1 ==> p[i] in g.adj
  }

  /** Sum of the step costs along `p`. */
  function PathCost(g: Graph, p: seq<nat>): nat
    requires Traversable(g, p)
  {
    if |p| <= 1 then 0
    else PathCost(g, p[..|p| - 1]) + StepCost(g, p[|p| - 2], p[|p| - 1])
  }

  /** Consecutive nodes of `p` are adjacent. */
  predicate IsWalk(g: Graph, p: seq<nat>) {
    forall i :: 0 <= i < |p| - 1 ==> p[i] in g.adj && Find(g.adj[p[i]], p[i + 1]).Some?
  }

  /** `p` is a walk from `s` to `t`. */
  predicate WalkBetween(g: Graph, p: seq<nat>, s: nat, t: nat) {
    |p| > 0 && p[0] == s && p[|p| - 1] == t && IsWalk(g, p)
  }

  /** No node occurs twice in `p`. */
  predicate NoRepeats(p: seq<nat>) {
    forall i, j :: 0 <= i < j < |p| ==> p[i] != p[j]
  }

  /** Prepending a step adds its cost. */
  lemma {:induction false} PathCostCons(g: Graph, u: nat, p: seq<nat>)
    requires u in g.adj && |p| > 0
    requires Traversable(g, p)
    ensures Traversable(g, [u] + p)
    ensures PathCost(g, [u] + p) == StepCost(g, u, p[0]) + PathCost(g, p)
    decreases |p|
  {
    var q := [u] + p;
    if |p| > 1 {
      var p' := p[..|p| - 1];
      assert q[..|q| - 1] == [u] + p';
      PathCostCons(g, u, p');
      assert q[|q| - 2] == p[|p| - 2];
    }
  }
}
