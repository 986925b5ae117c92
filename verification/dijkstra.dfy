/**
  Least-cost search with a priority queue (`Searcher.dijkstra` in A4/script.py).
  The heap is a sequence of entries; a pop takes an entry of least cost (the order among equal
  costs is the heap's and is not modelled). The "no path" answer `(inf, [])` is `None`.
 */
module ShortestPath {
  import opened Wrappers
  import opened Graph
  import opened SearchInvariant

  /** Index of an entry of least cost: the one `heapq.heappop` returns, up to ties. */
  function ArgMin(queue: seq<Entry>): (k: nat)
    requires |queue| > 0
    ensures k < |queue| && forall j :: 0 <= j < |queue| ==> queue[k].cost <= queue[j].cost
  {
    if |queue| == 1 then 0
    else
      var k := ArgMin(queue[1..]) + 1;
      assert forall j :: 1 <= j < |queue| ==> queue[j] == queue[1..][j - 1];
      if queue[0].cost <= queue[k].cost then 0 else k
  }

  /** Pops entry `k` and runs the loop `for neighbor, edge in graph.get(node, [])`, pushing one entry each. */
  method PushNeighbours(g: Graph, key: WeightKey, queue: seq<Entry>, k: nat) returns (next: seq<Entry>)
    requires k < |queue|
    ensures Expanded(g, key, queue, k, next)
  {
    var e := queue[k];
    var rest := queue[..k] + queue[k + 1..];
    var arcs := if e.node in g then g[e.node] else [];
    next := rest;
    for i := 0 to |arcs|
      invariant |next| == |rest| + i && next[..|rest|] == rest
      invariant forall j :: 0 <= j < i ==> next[|rest| + j] == Entry(e.cost + Weight(arcs[j].1, key), arcs[j].0, e.path + [e.node])
    {
      var (neighbor, edge) := arcs[i];
      next := next + [Entry(e.cost + Weight(edge, key), neighbor, e.path + [e.node])];
    }
  }

  /**
    One pass of the search loop for a popped least entry `k` whose node is not the goal: the entry is
    dropped when its node is already visited (the loop `continue`s), and its node is expanded otherwise.
   */
  method Settle(g: Graph, start: Node, goal: Node, key: WeightKey, visited: set<Node>, ghost dist: map<Node, nat>,
                queue: seq<Entry>, ghost expanded: seq<Node>, k: nat)
    returns (visited': set<Node>, ghost dist': map<Node, nat>, queue': seq<Entry>, ghost expanded': seq<Node>)
    requires SearchInv(g, start, goal, key, visited, dist, queue, expanded)
    requires k < |queue| && queue[k].node != goal
    requires forall j :: 0 <= j < |queue| ==> queue[k].cost <= queue[j].cost
    ensures queue[k].node !in visited ==>
              && visited' == visited + {queue[k].node} && expanded' == expanded + [queue[k].node]
              && Expanded(g, key, queue, k, queue')
    ensures queue[k].node in visited ==>
              visited' == visited && expanded' == expanded && queue' == queue[..k] + queue[k + 1..]
    ensures SearchInv(g, start, goal, key, visited', dist', queue', expanded')
    ensures |g.Keys - visited'| < |g.Keys - visited|
            || (|g.Keys - visited'| == |g.Keys - visited| && |queue'| < |queue|)
  {
    var e := queue[k];
    if e.node !in visited {
      queue' := PushNeighbours(g, key, queue, k);
      SearchInvExpand(g, start, goal, key, visited, dist, queue, expanded, k, queue');
      VisitShrinks(g.Keys, visited, e.node);
      visited' := visited + {e.node};
      dist' := dist[e.node := e.cost];
      expanded' := expanded + [e.node];
    } else {
      SearchInvDiscard(g, start, goal, key, visited, dist, queue, expanded, k);
      visited', dist', queue', expanded' := visited, dist, queue[..k] + queue[k + 1..], expanded;
    }
  }

  /**
    `dijkstra(start, goal, weight_key)`, with `key` the weight key; the default `weight_key="hops"` is `Hops`. `None` is the `(inf, [])` answer and is given exactly when no walk leads
    from `start` to `goal`. Otherwise the path is a walk from `start` to `goal` whose entries can be chosen
    to sum to the returned cost, and no walk from `start` to `goal` is cheaper (all weights are natural
    numbers). Each node is expanded at most once, and the goal never: `expanded` logs the nodes whose
    entries `Settle` pushed, one per expansion.
   */
  method Dijkstra(g: Graph, start: Node, goal: Node, key: WeightKey) returns (r: Option<(nat, seq<Node>)>, ghost expanded: seq<Node>)
    ensures r.None? ==> forall q :: !IsRoute(g, q, start, goal)
    ensures r.Some? ==> IsRoute(g, r.value.1, start, goal) && Realizes(g, r.value.1, key, r.value.0)
    ensures r.Some? ==> Settled(g, start, key, goal, r.value.0)
    ensures r.Some? ==> r.value.0 == WalkCost(g, r.value.1, key)
    ensures start == goal ==> r == Some((0, [start]))
    ensures IsSimple(expanded) && goal !in expanded
  {
    var queue := [Entry(0, start, [])];
    var visited: set<Node> := {};
    ghost var dist: map<Node, nat> := map[];
    expanded := [];
    SearchInvInit(g, start, goal, key);
    while queue != []
      invariant SearchInv(g, start, goal, key, visited, dist, queue, expanded)
      decreases |g.Keys - visited|, |queue|
    {
      var k := ArgMin(queue);
      var e := queue[k];
      if e.node == goal {
        SearchAnswer(g, start, goal, key, visited, dist, queue, expanded, k);
        return Some((e.cost, e.path + [e.node])), expanded;
      }
      visited, dist, queue, expanded := Settle(g, start, goal, key, visited, dist, queue, expanded, k);
    }
    SearchExhausted(g, start, goal, key, visited, dist, expanded);
    return None, expanded;
  }
}
