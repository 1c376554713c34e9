/**
  The integer rules of `Game.generateLevelGraph` in `script.js`: how many
  nodes a level gets, how long the optimal path must be, the Fisher–Yates
  shuffle of the grid positions, and the test that accepts or rejects a
  generated candidate graph.
 */
module Level {
  import opened Graphs
  import opened ShortestPath

  function Min(a: int, b: int): int {
    if a <= b then a else b
  }

  /** The node count of a level: three plus one and a half per level,
      rounded down, capped at 26. For an integer level,
      `floor(1.5 * level)` is `(3 * level) / 2` under Dafny's division,
      which rounds down for a positive divisor. */
  function NodeCount(level: int): (r: int)
    ensures r <= 26
    ensures r < 26 ==> 2 * (r - 3) <= 3 * level < 2 * (r - 3) + 2
    ensures r == 26 ==> 3 * level >= 2 * 23
    ensures level >= 1 ==> 4 <= r
  {
    Min(26, 3 + (3 * level) / 2)
  }

  /** Harder levels never get fewer nodes. */
  lemma NodeCountMonotone(level: int, level': int)
    requires level <= level'
    ensures NodeCount(level) <= NodeCount(level')
  {
  }

  /** The minimum bot path length of a level: two plus a quarter of the
      level, rounded down, capped at one less than the node count. */
  function MinNodes(level: int, nodeCount: int): (r: int)
    ensures r <= nodeCount - 1
    ensures r < nodeCount - 1 ==> 4 * (r - 2) <= level < 4 * (r - 2) + 4
    ensures r == nodeCount - 1 ==> nodeCount - 1 <= 2 + level / 4
    ensures 2 <= r <==> 3 <= nodeCount && 0 <= level
  {
    Min(nodeCount - 1, 2 + level / 4)
  }

  /** The retry test: the bot path is shorter than the minimum, or the
      target is unreachable (infinite distance). */
  predicate Rejected(botPath: seq<nat>, optimalDistance: Dist, minNodes: int)
    ensures optimalDistance.Inf? ==> Rejected(botPath, optimalDistance, minNodes)
    ensures optimalDistance.Fin? ==> (Rejected(botPath, optimalDistance, minNodes) <==> |botPath| < minNodes)
  {
    |botPath| < minNodes || optimalDistance.Inf?
  }

  /** Query the candidate graph from node 0 to node `nodeCount - 1` and
      apply the retry test. An accepted candidate carries an optimal walk
      from source to target with at least `minNodes` nodes; from level 1 on
      the distance test adds nothing to the length test, since an infinite
      distance comes with an empty path. */
  method CheckCandidate(g: Graph, level: int) returns (accepted: bool, solution: Solution)
    requires Wf(g)
    requires |g.nodes| == NodeCount(level) && NodeCount(level) >= 1
    ensures accepted <==> !Rejected(solution.path, solution.distance, MinNodes(level, |g.nodes|))
    ensures accepted ==> && WalkBetween(g, solution.path, 0, |g.nodes| - 1)
                         && |solution.path| >= MinNodes(level, |g.nodes|)
                         && NoRepeats(solution.path)
                         && solution.distance == Fin(PathCost(g, solution.path))
    ensures accepted ==> forall q :: WalkBetween(g, q, 0, |g.nodes| - 1) ==> PathCost(g, solution.path) <= PathCost(g, q)
    ensures level >= 1 ==> (accepted <==> |solution.path| >= MinNodes(level, |g.nodes|))
    ensures solution.distance.Inf? <==> !Reachable(g, 0, |g.nodes| - 1)
  {
    var nodeCount := |g.nodes|;
    solution := Dijkstra(g, 0, nodeCount - 1);
    var minNodes := MinNodes(level, nodeCount);
    accepted := !(|solution.path| < minNodes || solution.distance.Inf?);
  }

  /** The Fisher–Yates loop over the positions, from the last index down
      to 1, swapping index `i` with a random index `j` in `[0, i]`;
      `draws[i]` is the `j` drawn at step `i`. Whatever the draws, the
      result is a permutation of the input; with `draws[i] == i`
      throughout, nothing moves. */
  method Shuffle<T>(positions: seq<T>, draws: seq<nat>) returns (r: seq<T>)
    requires |draws| == |positions|
    requires forall i :: 0 < i < |positions| ==> draws[i] <= i
    ensures |r| == |positions|
    ensures multiset(r) == multiset(positions)
    ensures (forall i :: 0 < i < |positions| ==> draws[i] == i) ==> r == positions
  {
    r := positions;
    var i := |r| - 1;
    while i > 0
      invariant -1 <= i < |r|
      invariant |r| == |positions|
      invariant multiset(r) == multiset(positions)
      invariant (forall k :: 0 < k < |positions| ==> draws[k] == k) ==> r == positions
    {
      var j := draws[i];
      r := Swap(r, i, j);
      i := i - 1;
    }
  }

  /** Exchanging the elements at `i` and `j`. */
  function Swap<T>(a: seq<T>, i: nat, j: nat): (r: seq<T>)
    requires i < |a| && j < |a|
    ensures |r| == |a| && r[i] == a[j] && r[j] == a[i]
    ensures forall k :: 0 <= k < |a| && k != i && k != j ==> r[k] == a[k]
    ensures multiset(r) == multiset(a)
  {
    a[i := a[j]][j := a[i]]
  }
}
