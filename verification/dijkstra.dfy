/**
  `Graph.dijkstra(startNodeId, endNodeId)` of `dijkstra.js`: single-target
  Dijkstra over the sorted-list priority queue, with no visited set (stale
  queue slots are dequeued and re-expanded harmlessly), early exit when the
  target is dequeued, and path reconstruction by following predecessors.
 */
module ShortestPath {
  import opened Wrappers
  import opened PriorityQueue
  import opened Graphs

  /** A distance; `Inf` is JavaScript's `Infinity`. */
  datatype Dist = Inf | Fin(d: nat)

  /** The query result `{ distance, path }`. */
  datatype Solution = Solution(distance: Dist, path: seq<nat>)

  /** `a + w`, where `Infinity + w` is `Infinity`. */
  function Plus(a: Dist, w: nat): Dist {
    if a.Inf? then Inf else Fin(a.d + w)
  }

  /** JavaScript's `a < b` on naturals and `Infinity`. */
  predicate Less(a: Dist, b: Dist) {
    a.Fin? && (b.Inf? || a.d < b.d)
  }

  /** `a <= b` on naturals and `Infinity`. */
  predicate AtMost(a: Dist, b: Dist) {
    b.Inf? || (a.Fin? && a.d <= b.d)
  }

  /** `d` is a lower bound on the cost of every walk from `s` to `t`; in
      particular `d` is finite as soon as `t` is reachable from `s`. */
  ghost predicate LowerBound(g: Graph, s: nat, t: nat, d: Dist) {
    forall q :: WalkBetween(g, q, s, t) ==> d.Fin? && d.d <= PathCost(g, q)
  }

  /** Some walk leads from `s` to `t`. */
  ghost predicate Reachable(g: Graph, s: nat, t: nat) {
    exists q :: WalkBetween(g, q, s, t)
  }

  // ---------------------------------------------------------------------
  // The search state and its invariants
  // ---------------------------------------------------------------------

  /** Relaxing the edges out of `v` once more would change no distance. */
  ghost predicate Relaxed(g: Graph, dist: seq<Dist>, v: nat) {
    && v < |dist| && v in g.adj
    && forall k :: 0 <= k < |g.adj[v]| ==>
         g.adj[v][k].node < |dist| && !Less(Plus(dist[v], g.adj[v][k].weight), dist[g.adj[v][k].node])
  }

  /** The queue is sorted, names only nodes with a finite distance, and a
      slot's priority is never below that node's current distance (slots
      become stale when the distance drops later). */
  ghost predicate QueueOk(pq: seq<Entry<nat>>, dist: seq<Dist>) {
    && Sorted(pq)
    && forall k :: 0 <= k < |pq| ==>
         pq[k].element < |dist| && dist[pq[k].element].Fin? && dist[pq[k].element].d <= pq[k].priority
  }

  /** Every node with a finite distance, apart from those in `except`, is
      either relaxed or waiting in the queue with its current distance. */
  ghost predicate Frontier(g: Graph, dist: seq<Dist>, pq: seq<Entry<nat>>, except: set<nat>) {
    forall v: nat :: v < |dist| && v !in except && dist[v].Fin? ==>
      Relaxed(g, dist, v) || Entry(v, dist[v].d) in pq
  }

  /** `u` is a sound predecessor of `v`: they are adjacent, and `v`'s
      distance is at least `u`'s plus the step, strictly so unless `u` was
      last lowered before `v` (the stamps `ord` order the updates). */
  ghost predicate LinkOk(g: Graph, dist: seq<Dist>, ord: seq<nat>, u: nat, v: nat) {
    && u < |dist| && v < |dist| && |ord| == |dist| && u in g.adj
    && dist[u].Fin? && dist[v].Fin? && Find(g.adj[u], v).Some?
    && dist[u].d + Find(g.adj[u], v).value <= dist[v].d
    && (dist[u].d + Find(g.adj[u], v).value < dist[v].d || ord[u] < ord[v])
  }

  ghost predicate PredOk(g: Graph, start: nat, dist: seq<Dist>, prev: seq<Option<nat>>, ord: seq<nat>, clock: nat, v: nat) {
    && v < |dist| && |prev| == |dist| && |ord| == |dist|
    && ord[v] < clock
    && (prev[v].None? && dist[v].Fin? ==> v == start)
    && (prev[v].Some? ==> LinkOk(g, dist, ord, prev[v].value, v))
  }

  /** The predecessor map: the start is at distance 0 with no predecessor,
      every other node with a finite distance has a sound predecessor. */
  ghost predicate Chain(g: Graph, start: nat, dist: seq<Dist>, prev: seq<Option<nat>>, ord: seq<nat>, clock: nat) {
    && |dist| == |g.nodes| && |prev| == |dist| && |ord| == |dist|
    && start < |dist| && dist[start] == Fin(0) && prev[start] == None
    && forall v: nat :: v < |dist| ==> PredOk(g, start, dist, prev, ord, clock, v)
  }

  /** The nodes in `done` have been expanded for good: their distance is at
      most `floor`, which bounds every queued priority from below. */
  ghost predicate Settled(g: Graph, dist: seq<Dist>, pq: seq<Entry<nat>>, done: set<nat>, floor: nat) {
    && (forall u :: u in done ==> u < |dist| && dist[u].Fin? && dist[u].d <= floor && Relaxed(g, dist, u))
    && (forall k :: 0 <= k < |pq| ==> floor <= pq[k].priority)
  }

  /** Invariant of the outer loop, which runs while the queue is not empty. */
  ghost predicate LoopInv(g: Graph, start: nat, dist: seq<Dist>, prev: seq<Option<nat>>, pq: seq<Entry<nat>>,
                          ord: seq<nat>, clock: nat, done: set<nat>, floor: nat) {
    && SearchReady(g)
    && Chain(g, start, dist, prev, ord, clock)
    && QueueOk(pq, dist)
    && Frontier(g, dist, pq, {})
    && Settled(g, dist, pq, done, floor)
  }

  /** Invariant of the inner `forEach` over the neighbours of `cur`, after
      the first `k` of them. */
  ghost predicate InnerInv(g: Graph, start: nat, cur: nat, k: nat, dist: seq<Dist>, prev: seq<Option<nat>>,
                           pq: seq<Entry<nat>>, ord: seq<nat>, clock: nat, done: set<nat>, floor: nat) {
    && SearchReady(g)
    && Chain(g, start, dist, prev, ord, clock)
    && QueueOk(pq, dist)
    && cur < |dist| && cur in g.adj && k <= |g.adj[cur]|
    && Frontier(g, dist, pq, {cur})
    && dist[cur] == Fin(floor)
    && (forall j :: 0 <= j < k ==>
          g.adj[cur][j].node < |dist| && !Less(Plus(dist[cur], g.adj[cur][j].weight), dist[g.adj[cur][j].node]))
    && Settled(g, dist, pq, done, floor)
    && cur !in done
  }

  // ---------------------------------------------------------------------
  // Optimality
  // ---------------------------------------------------------------------

  /** Along any walk from the start, either the walk's end already has a
      distance no greater than the walk's cost, or some queued priority is
      no greater than that cost. */
  lemma {:induction false} FrontierBound(g: Graph, start: nat, dist: seq<Dist>, pq: seq<Entry<nat>>, q: seq<nat>, t: nat)
    requires SearchReady(g) && |dist| == |g.nodes|
    requires start < |dist| && dist[start] == Fin(0)
    requires Frontier(g, dist, pq, {})
    requires WalkBetween(g, q, start, t)
    ensures t < |dist|
    ensures (dist[t].Fin? && dist[t].d <= PathCost(g, q)) ||
            exists k :: 0 <= k < |pq| && pq[k].element in q && pq[k].priority <= PathCost(g, q)
    decreases |q|
  {
    if |q| > 1 {
      var q' := q[..|q| - 1];
      var y := q[|q| - 2];
      assert q'[|q'| - 1] == y;
      assert WalkBetween(g, q', start, y) by {
        forall i | 0 <= i < |q'| - 1
          ensures q'[i] in g.adj && Find(g.adj[q'[i]], q'[i + 1]).Some?
        {
          assert q'[i] == q[i] && q'[i + 1] == q[i + 1];
        }
      }
      FrontierBound(g, start, dist, pq, q', y);
      assert y in g.adj && Find(g.adj[y], t).Some?;
      var j := FindIndex(g.adj[y], t);
      var w := g.adj[y][j].weight;
      assert t < |dist|;
      assert PathCost(g, q) == PathCost(g, q') + w;
      if dist[y].Fin? && dist[y].d <= PathCost(g, q') {
        if Relaxed(g, dist, y) {
          assert !Less(Plus(dist[y], w), dist[t]);
        } else {
          assert Entry(y, dist[y].d) in pq;
          var k :| 0 <= k < |pq| && pq[k] == Entry(y, dist[y].d);
          assert pq[k].element == q[|q| - 2];
        }
      } else {
        var k :| 0 <= k < |pq| && pq[k].element in q' && pq[k].priority <= PathCost(g, q');
        assert pq[k].element in q;
      }
    }
  }

  /** The node at the head of the queue has its final, shortest distance. */
  lemma HeadOptimal(g: Graph, start: nat, dist: seq<Dist>, prev: seq<Option<nat>>, pq: seq<Entry<nat>>,
                    ord: seq<nat>, clock: nat, done: set<nat>, floor: nat)
    requires LoopInv(g, start, dist, prev, pq, ord, clock, done, floor)
    requires |pq| > 0
    ensures LowerBound(g, start, pq[0].element, dist[pq[0].element])
    ensures exists q :: WalkBetween(g, q, start, pq[0].element) && PathCost(g, q) == dist[pq[0].element].d
  {
    var u := pq[0].element;
    var p := ChainWalk(g, start, dist, prev, ord, clock, u);
    forall q | WalkBetween(g, q, start, u)
      ensures dist[u].Fin? && dist[u].d <= PathCost(g, q)
    {
      FrontierBound(g, start, dist, pq, q, u);
    }
  }

  /** Following sound predecessor links back from a node with a finite
      distance reaches the start, and read forwards the links form a walk
      costing at most that distance. The rank (distance, stamp) strictly
      drops along each link, so the walk back is finite. */
  lemma {:induction false} ChainWalk(g: Graph, start: nat, dist: seq<Dist>, prev: seq<Option<nat>>, ord: seq<nat>,
                                     clock: nat, t: nat) returns (p: seq<nat>)
    requires Chain(g, start, dist, prev, ord, clock)
    requires t < |dist| && dist[t].Fin?
    ensures WalkBetween(g, p, start, t) && PathCost(g, p) <= dist[t].d
    ensures forall i :: 0 <= i < |p| ==> p[i] < |dist|
    ensures prev[p[0]] == None && forall i :: 0 < i < |p| ==> prev[p[i]] == Some(p[i - 1])
    decreases dist[t].d, ord[t]
  {
    assert PredOk(g, start, dist, prev, ord, clock, t);
    if prev[t].None? {
      p := [start];
    } else {
      var u := prev[t].value;
      assert LinkOk(g, dist, ord, u, t);
      var p' := ChainWalk(g, start, dist, prev, ord, clock, u);
      p := p' + [t];
      assert p[..|p| - 1] == p';
      assert p[0] == p'[0];
      forall i | 0 < i < |p|
        ensures prev[p[i]] == Some(p[i - 1])
      {
        if i < |p'| {
          assert p[i] == p'[i] && p[i - 1] == p'[i - 1];
        } else {
          assert p[i - 1] == p'[|p'| - 1] == u;
        }
      }
      assert IsWalk(g, p) by {
        forall i | 0 <= i < |p| - 1
          ensures p[i] in g.adj && Find(g.adj[p[i]], p[i + 1]).Some?
        {
          if i < |p'| - 1 {
            assert p[i] == p'[i] && p[i + 1] == p'[i + 1];
          }
        }
      }
    }
  }

  /** Expanding a node for the first time shrinks the set of ids still to
      expand. */
  lemma MeasureDrops(all: set<nat>, done: set<nat>, x: nat)
    requires done <= all && x in all && x !in done
    ensures done + {x} <= all
    ensures |all - (done + {x})| < |all - done|
  {
  }

  /** Once the queue is empty every distance is the shortest one: no walk
      is cheaper, a finite distance is the cost of some walk, and the
      distance is infinite exactly for unreachable nodes. */
  lemma ExhaustedOptimal(g: Graph, start: nat, dist: seq<Dist>, prev: seq<Option<nat>>, pq: seq<Entry<nat>>,
                         ord: seq<nat>, clock: nat, done: set<nat>, floor: nat, t: nat)
    requires LoopInv(g, start, dist, prev, pq, ord, clock, done, floor)
    requires |pq| == 0 && t < |dist|
    ensures LowerBound(g, start, t, dist[t])
    ensures dist[t].Fin? <==> Reachable(g, start, t)
    ensures dist[t].Fin? ==> exists q :: WalkBetween(g, q, start, t) && PathCost(g, q) == dist[t].d
  {
    if dist[t].Fin? {
      var p := ChainWalk(g, start, dist, prev, ord, clock, t);
    }
    forall q | WalkBetween(g, q, start, t)
      ensures dist[t].Fin? && dist[t].d <= PathCost(g, q)
    {
      FrontierBound(g, start, dist, pq, q, t);
    }
  }

  // ---------------------------------------------------------------------
  // One step of the search at a time
  // ---------------------------------------------------------------------

  /** The initial state, where only the start has a finite distance (zero)
      and the queue holds just the start, satisfies the loop invariant. */
  lemma InitInv(g: Graph, start: nat)
    requires SearchReady(g) && start < |g.nodes|
    ensures var n := |g.nodes|;
            LoopInv(g, start, seq(n, i => Inf)[start := Fin(0)], seq(n, i => None), Enqueue([], start, 0),
                    seq(n, i => 0), 1, {}, 0)
  {
  }

  /** A dequeued slot whose node is already relaxed changes nothing but the
      queue. */
  lemma DropRelaxedHead(g: Graph, start: nat, dist: seq<Dist>, prev: seq<Option<nat>>, pq: seq<Entry<nat>>,
                        ord: seq<nat>, clock: nat, done: set<nat>, floor: nat)
    requires LoopInv(g, start, dist, prev, pq, ord, clock, done, floor)
    requires |pq| > 0 && Relaxed(g, dist, pq[0].element)
    ensures LoopInv(g, start, dist, prev, pq[1..], ord, clock, done, floor)
  {
  }

  /** A dequeued slot whose node is not relaxed is fresh: its priority is
      the node's distance, and the node has not been expanded before. */
  lemma BeginExpand(g: Graph, start: nat, dist: seq<Dist>, prev: seq<Option<nat>>, pq: seq<Entry<nat>>,
                    ord: seq<nat>, clock: nat, done: set<nat>, floor: nat)
    requires LoopInv(g, start, dist, prev, pq, ord, clock, done, floor)
    requires |pq| > 0 && !Relaxed(g, dist, pq[0].element)
    ensures var cur := pq[0].element;
            && dist[cur] == Fin(pq[0].priority)
            && cur !in done
            && InnerInv(g, start, cur, 0, dist, prev, pq[1..], ord, clock, done, pq[0].priority)
  {
  }

  /** Relaxing the `k`-th neighbour when it does not improve: only the
      counter moves. */
  lemma RelaxSkip(g: Graph, start: nat, cur: nat, k: nat, dist: seq<Dist>, prev: seq<Option<nat>>,
                  pq: seq<Entry<nat>>, ord: seq<nat>, clock: nat, done: set<nat>, floor: nat)
    requires InnerInv(g, start, cur, k, dist, prev, pq, ord, clock, done, floor)
    requires k < |g.adj[cur]|
    requires g.adj[cur][k].node < |dist|
    requires !Less(Plus(dist[cur], g.adj[cur][k].weight), dist[g.adj[cur][k].node])
    ensures InnerInv(g, start, cur, k + 1, dist, prev, pq, ord, clock, done, floor)
  {
  }

  /** Lowering one distance keeps every other node's relaxedness. */
  lemma RelaxedMono(g: Graph, dist: seq<Dist>, dist': seq<Dist>, v: nat)
    requires Relaxed(g, dist, v)
    requires |dist'| == |dist| && dist'[v] == dist[v]
    requires forall y :: 0 <= y < |dist| ==> AtMost(dist'[y], dist[y])
    ensures Relaxed(g, dist', v)
  {
  }

  /** Relaxing the `k`-th neighbour `x` when it improves: the new distance,
      predecessor, stamp and queue slot keep the inner invariant. */
  lemma RelaxUpdate(g: Graph, start: nat, cur: nat, k: nat, dist: seq<Dist>, prev: seq<Option<nat>>,
                    pq: seq<Entry<nat>>, ord: seq<nat>, clock: nat, done: set<nat>, floor: nat)
    requires InnerInv(g, start, cur, k, dist, prev, pq, ord, clock, done, floor)
    requires k < |g.adj[cur]|
    requires g.adj[cur][k].node < |dist|
    requires Less(Plus(dist[cur], g.adj[cur][k].weight), dist[g.adj[cur][k].node])
    ensures var x := g.adj[cur][k].node;
            var alt := Plus(dist[cur], g.adj[cur][k].weight);
            InnerInv(g, start, cur, k + 1, dist[x := alt], prev[x := Some(cur)], Enqueue(pq, x, alt.d),
                     ord[x := clock], clock + 1, done, floor)
  {
    var x := g.adj[cur][k].node;
    var w := g.adj[cur][k].weight;
    var alt := Plus(dist[cur], w);
    var dist' := dist[x := alt];
    var prev' := prev[x := Some(cur)];
    var pq' := Enqueue(pq, x, alt.d);
    var ord' := ord[x := clock];
    assert x != cur && x != start && x !in done;
    ChainUpdate(g, start, cur, k, dist, prev, ord, clock);
    QueueUpdate(pq, dist, x, alt.d);
    FrontierUpdate(g, dist, pq, cur, x, alt.d);
    forall u | u in done
      ensures Relaxed(g, dist', u)
    {
      LowerOne(dist, x, alt.d);
      RelaxedMono(g, dist, dist', u);
    }
    forall j | 0 <= j < k + 1
      ensures g.adj[cur][j].node < |dist'| && !Less(Plus(dist'[cur], g.adj[cur][j].weight), dist'[g.adj[cur][j].node])
    {
      var y := g.adj[cur][j].node;
      LowerOne(dist, x, alt.d);
      assert AtMost(dist'[y], dist[y]);
    }
  }

  /** Lowering the distance of `x` lowers no distance above its old value. */
  lemma LowerOne(dist: seq<Dist>, x: nat, d: nat)
    requires x < |dist| && Less(Fin(d), dist[x])
    ensures forall y :: 0 <= y < |dist| ==> AtMost(dist[x := Fin(d)][y], dist[y])
  {
  }

  /** Lowering the distance of `x` and queueing it with the new distance
      keeps every other finite node relaxed or queued. */
  lemma FrontierUpdate(g: Graph, dist: seq<Dist>, pq: seq<Entry<nat>>, cur: nat, x: nat, d: nat)
    requires Frontier(g, dist, pq, {cur})
    requires x < |dist| && Less(Fin(d), dist[x])
    ensures Frontier(g, dist[x := Fin(d)], Enqueue(pq, x, d), {cur})
  {
  }

  lemma ChainUpdate(g: Graph, start: nat, cur: nat, k: nat, dist: seq<Dist>, prev: seq<Option<nat>>,
                    ord: seq<nat>, clock: nat)
    requires SearchReady(g) && Chain(g, start, dist, prev, ord, clock)
    requires cur < |dist| && cur in g.adj && k < |g.adj[cur]| && dist[cur].Fin?
    requires g.adj[cur][k].node < |dist|
    requires Less(Plus(dist[cur], g.adj[cur][k].weight), dist[g.adj[cur][k].node])
    ensures var x := g.adj[cur][k].node;
            var alt := Plus(dist[cur], g.adj[cur][k].weight);
            Chain(g, start, dist[x := alt], prev[x := Some(cur)], ord[x := clock], clock + 1)
  {
    var x := g.adj[cur][k].node;
    var w := g.adj[cur][k].weight;
    var alt := Plus(dist[cur], w);
    var dist' := dist[x := alt];
    var prev' := prev[x := Some(cur)];
    var ord' := ord[x := clock];
    var clock' := clock + 1;
    assert Find(g.adj[cur], x) == Some(w);
    assert x != cur && x != start;
    forall v: nat | v < |dist'|
      ensures PredOk(g, start, dist', prev', ord', clock', v)
    {
      assert PredOk(g, start, dist, prev, ord, clock, v);
      if v == x {
        assert PredOk(g, start, dist, prev, ord, clock, cur);
        assert LinkOk(g, dist', ord', cur, x);
      } else if prev[v].Some? {
        var u := prev[v].value;
        assert LinkOk(g, dist, ord, u, v);
        if u == x {
          assert LinkOk(g, dist', ord', u, v);
        } else {
          assert LinkOk(g, dist', ord', u, v);
        }
      }
    }
  }

  lemma QueueUpdate(pq: seq<Entry<nat>>, dist: seq<Dist>, x: nat, d: nat)
    requires QueueOk(pq, dist)
    requires x < |dist| && Less(Fin(d), dist[x])
    ensures QueueOk(Enqueue(pq, x, d), dist[x := Fin(d)])
  {
  }

  /** After the last neighbour the current node is relaxed and joins the
      expanded set. */
  lemma EndExpand(g: Graph, start: nat, cur: nat, dist: seq<Dist>, prev: seq<Option<nat>>,
                  pq: seq<Entry<nat>>, ord: seq<nat>, clock: nat, done: set<nat>, floor: nat)
    requires cur in g.adj
    requires InnerInv(g, start, cur, |g.adj[cur]|, dist, prev, pq, ord, clock, done, floor)
    ensures LoopInv(g, start, dist, prev, pq, ord, clock, done + {cur}, floor)
  {
  }

  // ---------------------------------------------------------------------
  // Path reconstruction
  // ---------------------------------------------------------------------

  /** `u` comes strictly before `v` in the order (distance, stamp), which
      every predecessor link descends. */
  ghost predicate RankBelow(dist: seq<Dist>, ord: seq<nat>, u: nat, v: nat) {
    && u < |dist| && v < |dist| && |ord| == |dist| && dist[u].Fin? && dist[v].Fin?
    && (dist[u].d < dist[v].d || (dist[u].d == dist[v].d && ord[u] < ord[v]))
  }

  /** The ids `0 .. n-1`. */
  ghost function Ids(n: nat): (s: set<nat>)
    ensures forall i: nat :: i in s <==> i < n
  {
    if n == 0 then {} else Ids(n - 1) + {n - 1}
  }

  ghost function RankDist(dist: seq<Dist>, c: Option<nat>): nat {
    if c.Some? && c.value < |dist| && dist[c.value].Fin? then dist[c.value].d else 0
  }

  ghost function RankOrd(ord: seq<nat>, c: Option<nat>): nat {
    if c.Some? && c.value < |ord| then ord[c.value] else 0
  }

  /** The search. With a well-formed graph and both ids present: the start
      alone is at distance 0; the path is empty exactly when the distance is
      infinite; a non-empty path is a walk from start to end without
      repeated nodes whose cost is the distance; and no walk from start to
      end costs less (so an infinite distance means no walk exists). */
  method Dijkstra(g: Graph, start: nat, end: nat) returns (r: Solution)
    requires Wf(g)
    requires start < |g.nodes| && end < |g.nodes|
    ensures start == end ==> r == Solution(Fin(0), [start])
    ensures r.distance.Inf? <==> r.path == []
    ensures r.path != [] ==> WalkBetween(g, r.path, start, end) && NoRepeats(r.path)
                             && r.distance == Fin(PathCost(g, r.path))
    ensures forall q :: WalkBetween(g, q, start, end) ==> r.distance.Fin? && r.distance.d <= PathCost(g, q)
    ensures r.distance.Inf? <==> !Reachable(g, start, end)
  {
    WfSearchReady(g);
    var dist, prev, ord, clock := Search(g, start, end);
    var path := Reconstruct(g, start, end, dist, prev, ord, clock);
    r := Solution(dist[end], if path[0] == start then path else []);
    if r.path != [] {
      assert PathCost(g, r.path) == dist[end].d;
    }
  }

  /** The distance loop: `distances` and `previous` when the loop stops,
      either because the target was dequeued or because the queue ran dry.
      The predecessor map is sound and the target's distance is shortest. */
  method Search(g: Graph, start: nat, end: nat)
    returns (dist: seq<Dist>, prev: seq<Option<nat>>, ghost ord: seq<nat>, ghost clock: nat)
    requires SearchReady(g)
    requires start < |g.nodes| && end < |g.nodes|
    ensures Chain(g, start, dist, prev, ord, clock)
    ensures LowerBound(g, start, end, dist[end])
  {
    var n := |g.nodes|;
    // `this.nodes.forEach(...)`: every id starts at Infinity with no predecessor.
    dist := seq(n, i => Inf);
    prev := seq(n, i => None);
    dist := dist[start := Fin(0)];
    var pq: seq<Entry<nat>> := Enqueue([], start, 0);
    ord := seq(n, i => 0);
    clock := 1;
    ghost var done: set<nat> := {};
    ghost var floor: nat := 0;
    ghost var reached := false;
    ghost var allIds: set<nat> := Ids(n);
    InitInv(g, start);

    while !IsEmpty(pq)
      invariant LoopInv(g, start, dist, prev, pq, ord, clock, done, floor)
      invariant done <= allIds
      invariant !reached
      decreases |allIds - done|, |pq|
    {
      var pq0 := pq;
      var (entry, rest) := Dequeue(pq).value;
      pq := rest;
      var cur := entry.element;
      if cur == end {
        HeadOptimal(g, start, dist, prev, pq0, ord, clock, done, floor);
        reached := true;
        break;
      }
      ghost var done0 := done;
      dist, prev, pq, ord, clock, done, floor := Expand(g, start, dist, prev, pq0, ord, clock, done, floor);
      if done != done0 {
        MeasureDrops(allIds, done0, cur);
      }
    }
    if !reached {
      ExhaustedOptimal(g, start, dist, prev, pq, ord, clock, done, floor, end);
    }
  }

  /** One pass of the loop body after the dequeue of the head slot of `pq0`
      (whose node is not the target): the `forEach` over its neighbours.
      Either the node was already relaxed and only the slot disappears, or
      the node is expanded for the first time and joins `done`. */
  method Expand(g: Graph, start: nat, dist: seq<Dist>, prev: seq<Option<nat>>, pq0: seq<Entry<nat>>,
                ghost ord: seq<nat>, ghost clock: nat, ghost done: set<nat>, ghost floor: nat)
    returns (dist': seq<Dist>, prev': seq<Option<nat>>, pq': seq<Entry<nat>>,
             ghost ord': seq<nat>, ghost clock': nat, ghost done': set<nat>, ghost floor': nat)
    requires LoopInv(g, start, dist, prev, pq0, ord, clock, done, floor)
    requires |pq0| > 0
    ensures LoopInv(g, start, dist', prev', pq', ord', clock', done', floor')
    ensures (done' == done && |pq'| < |pq0|) || (done' == done + {pq0[0].element} && pq0[0].element !in done)
    ensures |dist'| == |dist| && forall y :: 0 <= y < |dist| ==> AtMost(dist'[y], dist[y])
  {
    var cur := pq0[0].element;
    var pq := pq0[1..];
    ghost var wasRelaxed := Relaxed(g, dist, cur);
    if wasRelaxed {
      DropRelaxedHead(g, start, dist, prev, pq0, ord, clock, done, floor);
      floor' := floor;
    } else {
      BeginExpand(g, start, dist, prev, pq0, ord, clock, done, floor);
      floor' := pq0[0].priority;
    }
    dist', prev', pq', ord', clock' := dist, prev, pq, ord, clock;
    var neighbors := g.adj[cur];
    var k := 0;
    while k < |neighbors|
      invariant 0 <= k <= |neighbors|
      invariant wasRelaxed ==> dist' == dist && prev' == prev && pq' == pq && ord' == ord && clock' == clock
      invariant !wasRelaxed ==> InnerInv(g, start, cur, k, dist', prev', pq', ord', clock', done, floor')
      invariant |dist'| == |dist| && forall y :: 0 <= y < |dist| ==> AtMost(dist'[y], dist[y])
    {
      var neighbor := neighbors[k];
      var alt := Plus(dist'[cur], neighbor.weight);
      if Less(alt, dist'[neighbor.node]) {
        RelaxUpdate(g, start, cur, k, dist', prev', pq', ord', clock', done, floor');
        LowerOne(dist', neighbor.node, alt.d);
        dist' := dist'[neighbor.node := alt];
        prev' := prev'[neighbor.node := Some(cur)];
        pq' := Enqueue(pq', neighbor.node, alt.d);
        ord' := ord'[neighbor.node := clock'];
        clock' := clock' + 1;
      } else if !wasRelaxed {
        RelaxSkip(g, start, cur, k, dist', prev', pq', ord', clock', done, floor');
      }
      k := k + 1;
    }
    if wasRelaxed {
      done' := done;
    } else {
      EndExpand(g, start, cur, dist', prev', pq', ord', clock', done, floor');
      done' := done + {cur};
    }
  }

  /** The predecessor walk: starting from `end`, prepend the current node
      and step to its predecessor until there is none. It terminates
      because each predecessor is strictly lower in the order (distance,
      stamp). The result ends at `end`, is a walk without repeats, starts
      at `start` when `end` has a finite distance (with cost at most that
      distance), and is `[end]` otherwise. */
  method Reconstruct(g: Graph, start: nat, end: nat, dist: seq<Dist>, prev: seq<Option<nat>>,
                     ghost ord: seq<nat>, ghost clock: nat)
    returns (path: seq<nat>)
    requires SearchReady(g) && Chain(g, start, dist, prev, ord, clock)
    requires end < |dist|
    ensures |path| > 0 && path[|path| - 1] == end && IsWalk(g, path) && NoRepeats(path)
    ensures dist[end].Fin? ==> path[0] == start && PathCost(g, path) <= dist[end].d
    ensures dist[end].Inf? ==> path == [end]
  {
    path := [];
    var curr: Option<nat> := Some(end);
    while curr.Some?
      invariant Trail(g, end, dist, prev, ord, path, curr)
      decreases if curr.Some? then 1 else 0, RankDist(dist, curr), RankOrd(ord, curr)
    {
      var v := curr.value;
      TrailStep(g, start, end, dist, prev, ord, clock, path, v);
      path := [v] + path;
      curr := prev[v];
    }
    assert prev[path[0]] == None;
    assert PredOk(g, start, dist, prev, ord, clock, path[0]);
    assert NoRepeats(path) by {
      if dist[end].Fin? {
        forall i, j | 0 <= i < j < |path|
          ensures path[i] != path[j]
        {
          assert RankBelow(dist, ord, path[i], path[j]);
        }
      }
    }
  }

  /** The state of the predecessor walk: `path` is the part walked so far
      (ending at `end`), `curr` the next node to prepend. With a finite
      distance, the walked part costs at most what remains of `end`'s
      distance and climbs strictly in (distance, stamp) order. */
  ghost predicate Trail(g: Graph, end: nat, dist: seq<Dist>, prev: seq<Option<nat>>, ord: seq<nat>,
                        path: seq<nat>, curr: Option<nat>) {
    && end < |dist| && |prev| == |dist|
    && (curr.Some? ==> curr.value < |dist|)
    && (path == [] ==> curr == Some(end))
    && (forall i :: 0 <= i < |path| ==> path[i] < |dist|)
    && (path != [] ==> path[|path| - 1] == end && IsWalk(g, path) && curr == prev[path[0]])
    && (dist[end].Inf? && path != [] ==> path == [end])
    && (dist[end].Fin? && path != [] ==>
          && dist[path[0]].Fin? && Traversable(g, path)
          && dist[path[0]].d + PathCost(g, path) <= dist[end].d)
    && (dist[end].Fin? ==> forall i, j :: 0 <= i < j < |path| ==> RankBelow(dist, ord, path[i], path[j]))
  }

  /** Prepending the next node keeps the walk state, and the next node
      after it ranks strictly lower. */
  lemma TrailStep(g: Graph, start: nat, end: nat, dist: seq<Dist>, prev: seq<Option<nat>>, ord: seq<nat>,
                  clock: nat, path: seq<nat>, v: nat)
    requires SearchReady(g) && Chain(g, start, dist, prev, ord, clock)
    requires Trail(g, end, dist, prev, ord, path, Some(v))
    ensures Trail(g, end, dist, prev, ord, [v] + path, prev[v])
    ensures prev[v].Some? ==> RankBelow(dist, ord, prev[v].value, v)
  {
    assert PredOk(g, start, dist, prev, ord, clock, v);
    var p' := [v] + path;
    if path != [] {
      PathStep(g, start, dist, prev, ord, clock, path);
      if dist[end].Fin? {
        forall i, j | 0 <= i < j < |p'|
          ensures RankBelow(dist, ord, p'[i], p'[j])
        {
          if i == 0 && j > 1 {
            assert RankBelow(dist, ord, path[0], path[j - 1]);
          }
        }
      }
    }
  }

  lemma PathStep(g: Graph, start: nat, dist: seq<Dist>, prev: seq<Option<nat>>, ord: seq<nat>, clock: nat,
                 path: seq<nat>)
    requires SearchReady(g) && Chain(g, start, dist, prev, ord, clock)
    requires |path| > 0 && path[0] < |dist| && prev[path[0]].Some?
    requires IsWalk(g, path) && Traversable(g, path)
    requires forall i :: 0 <= i < |path| ==> path[i] < |dist|
    ensures var u := prev[path[0]].value;
            && u < |dist| && u in g.adj && LinkOk(g, dist, ord, u, path[0])
            && IsWalk(g, [u] + path) && Traversable(g, [u] + path)
            && PathCost(g, [u] + path) == StepCost(g, u, path[0]) + PathCost(g, path)
            && RankBelow(dist, ord, u, path[0])
  {
    var u := prev[path[0]].value;
    assert PredOk(g, start, dist, prev, ord, clock, path[0]);
    PathCostCons(g, u, path);
    var p' := [u] + path;
    forall i | 0 <= i < |p'| - 1
      ensures p'[i] in g.adj && Find(g.adj[p'[i]], p'[i + 1]).Some?
    {
      if i > 0 {
        assert p'[i] == path[i - 1] && p'[i + 1] == path[i];
      }
    }
  }
}
