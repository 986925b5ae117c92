/**
  The costs of walks and the loop invariant of the least-cost search (`Searcher.dijkstra` in
  A4/script.py), with the lemmas showing that each pass of the loop keeps the invariant.
 */
module SearchInvariant {
  import opened Graph

  /** A queue entry `(cost, node, path)`: `path` holds the nodes before `node`. */
  datatype Entry = Entry(cost: nat, node: Node, path: seq<Node>)

  /** The least weight among the entries of `arcs` leading to `v`. */
  ghost function MinArcWeight(arcs: seq<Arc>, v: Node, key: WeightKey): (w: nat)
    requires exists i :: 0 <= i < |arcs| && arcs[i].0 == v
    ensures exists i :: 0 <= i < |arcs| && arcs[i].0 == v && Weight(arcs[i].1, key) == w
    ensures forall i :: 0 <= i < |arcs| && arcs[i].0 == v ==> w <= Weight(arcs[i].1, key)
  {
    var first := Weight(arcs[0].1, key);
    if arcs[0].0 == v && !(exists i :: 1 <= i < |arcs| && arcs[i].0 == v) then
      first
    else
      assert exists i :: 0 <= i < |arcs[1..]| && arcs[1..][i].0 == v by {
        var i :| 0 <= i < |arcs| && arcs[i].0 == v && (arcs[0].0 == v ==> 1 <= i);
        assert arcs[1..][i - 1] == arcs[i];
      }
      var rest := MinArcWeight(arcs[1..], v, key);
      assert forall i :: 1 <= i < |arcs| ==> arcs[i] == arcs[1..][i - 1];
      if arcs[0].0 == v && first < rest then first else rest
  }

  /** The cost of a walk when every step takes its cheapest entry. */
  ghost function WalkCost(g: Graph, p: seq<Node>, key: WeightKey): nat
    requires IsWalk(g, p)
    decreases |p|
  {
    if |p| <= 1 then 0
    else
      var front := p[..|p| - 1];
      WalkFront(g, p);
      assert HasArc(g, p[|p| - 2], p[|p| - 1]);
      WalkCost(g, front, key) + MinArcWeight(g[p[|p| - 2]], p[|p| - 1], key)
  }

  /** Some choice of one entry per step of `p` has weights summing to `c`. */
  ghost predicate Realizes(g: Graph, p: seq<Node>, key: WeightKey, c: nat)
    decreases |p|
  {
    if |p| == 0 then false
    else if |p| == 1 then c == 0
    else
      var u, v := p[|p| - 2], p[|p| - 1];
      u in g && exists i :: 0 <= i < |g[u]| && g[u][i].0 == v && Weight(g[u][i].1, key) <= c
                              && Realizes(g, p[..|p| - 1], key, c - Weight(g[u][i].1, key))
  }

  /** A realised path is a walk, and its realised cost is at least its cheapest cost. */
  lemma {:induction false} RealizesWalk(g: Graph, p: seq<Node>, key: WeightKey, c: nat)
    requires Realizes(g, p, key, c)
    ensures IsWalk(g, p) && WalkCost(g, p, key) <= c
    decreases |p|
  {
    if |p| > 1 {
      var u, v := p[|p| - 2], p[|p| - 1];
      var i :| 0 <= i < |g[u]| && g[u][i].0 == v && Weight(g[u][i].1, key) <= c
               && Realizes(g, p[..|p| - 1], key, c - Weight(g[u][i].1, key));
      var front := p[..|p| - 1];
      RealizesWalk(g, front, key, c - Weight(g[u][i].1, key));
      assert HasArc(g, u, v);
      forall k | 0 <= k < |p| - 1 ensures HasArc(g, p[k], p[k + 1]) {
        if k < |p| - 2 { assert p[k] == front[k] && p[k + 1] == front[k + 1]; }
      }
    }
  }

  /** Following entry `i` of `graph[u]` from a realised walk ending at `u` realises the extended walk. */
  lemma RealizesExtend(g: Graph, p: seq<Node>, key: WeightKey, c: nat, i: nat)
    requires |p| > 0 && Realizes(g, p, key, c)
    requires p[|p| - 1] in g && i < |g[p[|p| - 1]]|
    ensures Realizes(g, p + [g[p[|p| - 1]][i].0], key, c + Weight(g[p[|p| - 1]][i].1, key))
  {
    var q := p + [g[p[|p| - 1]][i].0];
    assert q[..|q| - 1] == p;
  }

  /** Some entry of the queue is at `u` with cost at most `c`. */
  ghost predicate Covered(queue: seq<Entry>, u: Node, c: nat) {
    exists k :: 0 <= k < |queue| && queue[k].node == u && queue[k].cost <= c
  }

  /** Some entry of the queue costs at most `c`. */
  ghost predicate CheapEntry(queue: seq<Entry>, c: nat) {
    exists k :: 0 <= k < |queue| && queue[k].cost <= c
  }

  /** The entry records a walk from `start` to its node that some choice of entries realises at its cost. */
  ghost predicate EntryOk(g: Graph, start: Node, key: WeightKey, e: Entry) {
    var w := e.path + [e.node];
    w[0] == start && Realizes(g, w, key, e.cost)
  }

  /** Every entry of the queue is a realised walk from `start`. */
  ghost predicate EntriesOk(g: Graph, start: Node, key: WeightKey, queue: seq<Entry>) {
    forall j :: 0 <= j < |queue| ==> EntryOk(g, start, key, queue[j])
  }

  /** `d` is no more than the cost of any walk from `start` to `v`. */
  ghost predicate Settled(g: Graph, start: Node, key: WeightKey, v: Node, d: nat) {
    forall q :: IsRoute(g, q, start, v) ==> d <= WalkCost(g, q, key)
  }

  /** Each visited node is recorded at a cost no more than that of any walk from `start` to it. */
  ghost predicate AllSettled(g: Graph, start: Node, key: WeightKey, dist: map<Node, nat>) {
    forall v :: v in dist ==> Settled(g, start, key, v, dist[v])
  }

  /**
    Every entry leaving a visited node reaches a visited node or has a queue entry no dearer than going
    through it, and the start is visited or still queued at cost 0.
   */
  ghost predicate Covers(g: Graph, start: Node, key: WeightKey, dist: map<Node, nat>, queue: seq<Entry>) {
    && (forall v, i :: v in dist && v in g && 0 <= i < |g[v]| ==>
          g[v][i].0 in dist || Covered(queue, g[v][i].0, dist[v] + Weight(g[v][i].1, key)))
    && (start in dist || Covered(queue, start, 0))
  }

  /** The search invariant on `dist` (each visited node with the cost it was expanded at) and the queue. */
  ghost predicate Frontier(g: Graph, start: Node, key: WeightKey, dist: map<Node, nat>, queue: seq<Entry>) {
    AllSettled(g, start, key, dist) && Covers(g, start, key, dist, queue)
  }

  /** Any walk from `start` to a node not yet visited is matched by a queue entry no dearer than it. */
  lemma {:induction false} FrontierEntry(g: Graph, start: Node, key: WeightKey, dist: map<Node, nat>, queue: seq<Entry>, q: seq<Node>, t: Node)
    requires Frontier(g, start, key, dist, queue)
    requires IsRoute(g, q, start, t) && t !in dist
    ensures CheapEntry(queue, WalkCost(g, q, key))
    decreases |q|
  {
    if |q| == 1 {
      assert q == [start];
      var k :| 0 <= k < |queue| && queue[k].node == start && queue[k].cost <= 0;
    } else {
      var front := q[..|q| - 1];
      var v, u := q[|q| - 2], q[|q| - 1];
      WalkFront(g, q);
      assert front[0] == start && front[|front| - 1] == v;
      assert WalkCost(g, q, key) == WalkCost(g, front, key) + MinArcWeight(g[v], u, key);
      if v !in dist {
        FrontierEntry(g, start, key, dist, queue, front, v);
      } else {
        var i :| 0 <= i < |g[v]| && g[v][i].0 == u && Weight(g[v][i].1, key) == MinArcWeight(g[v], u, key);
        assert Settled(g, start, key, v, dist[v]);
        assert dist[v] <= WalkCost(g, front, key);
        assert Covered(queue, u, dist[v] + Weight(g[v][i].1, key));
      }
    }
  }

  /** Taking out an entry at another node leaves a node's cover in place. */
  lemma CoveredRemove(queue: seq<Entry>, k: nat, u: Node, c: nat)
    requires k < |queue| && queue[k].node != u && Covered(queue, u, c)
    ensures Covered(queue[..k] + queue[k + 1..], u, c)
  {
    var j :| 0 <= j < |queue| && queue[j].node == u && queue[j].cost <= c;
    var rest := queue[..k] + queue[k + 1..];
    if j < k { assert rest[j] == queue[j]; } else { assert rest[j - 1] == queue[j]; }
  }

  /** Pushing entries leaves every cover in place. */
  lemma CoveredAppend(queue: seq<Entry>, more: seq<Entry>, u: Node, c: nat)
    requires Covered(queue, u, c)
    ensures Covered(queue + more, u, c)
  {
    var j :| 0 <= j < |queue| && queue[j].node == u && queue[j].cost <= c;
    assert (queue + more)[j] == queue[j];
  }

  /** Popping entry `k` at an already visited node keeps every cover. */
  lemma CoversDiscard(g: Graph, start: Node, key: WeightKey, dist: map<Node, nat>, queue: seq<Entry>, k: nat)
    requires Covers(g, start, key, dist, queue)
    requires k < |queue| && queue[k].node in dist
    ensures Covers(g, start, key, dist, queue[..k] + queue[k + 1..])
  {
    var rest := queue[..k] + queue[k + 1..];
    forall v, i | v in dist && v in g && 0 <= i < |g[v]| && g[v][i].0 !in dist
      ensures Covered(rest, g[v][i].0, dist[v] + Weight(g[v][i].1, key))
    {
      CoveredRemove(queue, k, g[v][i].0, dist[v] + Weight(g[v][i].1, key));
    }
    if start !in dist {
      CoveredRemove(queue, k, start, 0);
    }
  }

  /**
    `next` is the queue after popping entry `k` and pushing `(cost + edge[key], neighbor, path + [node])`
    for each entry of `graph.get(node, [])`, in order.
   */
  ghost predicate Expanded(g: Graph, key: WeightKey, queue: seq<Entry>, k: nat, next: seq<Entry>)
    requires k < |queue|
  {
    var e := queue[k];
    var arcs := if e.node in g then g[e.node] else [];
    && |next| == |queue| - 1 + |arcs|
    && next[..|queue| - 1] == queue[..k] + queue[k + 1..]
    && forall j :: 0 <= j < |arcs| ==>
         next[|queue| - 1 + j] == Entry(e.cost + Weight(arcs[j].1, key), arcs[j].0, e.path + [e.node])
  }

  /** Popping an entry keeps every remaining entry a realised walk from `start`. */
  lemma EntriesRemove(g: Graph, start: Node, key: WeightKey, queue: seq<Entry>, k: nat)
    requires k < |queue| && EntriesOk(g, start, key, queue)
    ensures EntriesOk(g, start, key, queue[..k] + queue[k + 1..])
  {
    var rest := queue[..k] + queue[k + 1..];
    forall j | 0 <= j < |rest| ensures EntryOk(g, start, key, rest[j]) {
      if j < k { assert rest[j] == queue[j]; } else { assert rest[j] == queue[j + 1]; }
    }
  }

  /** The pushed entries extend the popped entry's walk by one entry each, so they are realised walks too. */
  lemma EntriesExpand(g: Graph, start: Node, key: WeightKey, queue: seq<Entry>, k: nat, next: seq<Entry>)
    requires k < |queue| && EntriesOk(g, start, key, queue)
    requires Expanded(g, key, queue, k, next)
    ensures EntriesOk(g, start, key, next)
  {
    var e := queue[k];
    var n := |queue| - 1;
    EntriesRemove(g, start, key, queue, k);
    assert EntryOk(g, start, key, e);
    var rest := queue[..k] + queue[k + 1..];
    assert EntriesOk(g, start, key, rest);
    forall j | 0 <= j < |next| ensures EntryOk(g, start, key, next[j]) {
      if j < n {
        assert next[j] == rest[j];
      } else {
        var w := e.path + [e.node];
        RealizesExtend(g, w, key, e.cost, j - n);
        assert next[j].path + [next[j].node] == w + [g[e.node][j - n].0];
      }
    }
  }

  /** A popped least entry at the unvisited goal answers the search: a realised, cheapest walk. */
  lemma GoalReached(g: Graph, start: Node, goal: Node, key: WeightKey, dist: map<Node, nat>, queue: seq<Entry>, k: nat)
    requires Frontier(g, start, key, dist, queue) && goal !in dist
    requires EntriesOk(g, start, key, queue)
    requires k < |queue| && queue[k].node == goal
    requires forall j :: 0 <= j < |queue| ==> queue[k].cost <= queue[j].cost
    ensures var e := queue[k]; var path := e.path + [goal];
      && IsRoute(g, path, start, goal) && Realizes(g, path, key, e.cost)
      && Settled(g, start, key, goal, e.cost)
      && e.cost == WalkCost(g, path, key)
  {
    var e := queue[k];
    var path := e.path + [goal];
    assert EntryOk(g, start, key, e);
    RealizesWalk(g, path, key, e.cost);
    LeastSettled(g, start, key, dist, queue, k);
    assert IsRoute(g, path, start, goal);
  }

  /** A least entry at a node not yet visited costs no more than any walk from `start` to that node. */
  lemma LeastSettled(g: Graph, start: Node, key: WeightKey, dist: map<Node, nat>, queue: seq<Entry>, k: nat)
    requires Frontier(g, start, key, dist, queue)
    requires k < |queue| && queue[k].node !in dist
    requires forall j :: 0 <= j < |queue| ==> queue[k].cost <= queue[j].cost
    ensures Settled(g, start, key, queue[k].node, queue[k].cost)
  {
    forall q | IsRoute(g, q, start, queue[k].node) ensures queue[k].cost <= WalkCost(g, q, key) {
      FrontierEntry(g, start, key, dist, queue, q, queue[k].node);
    }
  }

  /**
    Expanding the popped entry's node at its cost and pushing one entry per outgoing entry keeps every
    cover: the pushed entries cover the new node's neighbours, and the other covers stay in the queue.
   */
  lemma CoversExpand(g: Graph, start: Node, key: WeightKey, dist: map<Node, nat>, queue: seq<Entry>, k: nat, next: seq<Entry>)
    requires Covers(g, start, key, dist, queue)
    requires k < |queue| && queue[k].node !in dist
    requires Expanded(g, key, queue, k, next)
    ensures Covers(g, start, key, dist[queue[k].node := queue[k].cost], next)
  {
    var x := queue[k].node;
    var dist' := dist[x := queue[k].cost];
    forall v, i | v in dist' && v in g && 0 <= i < |g[v]| && g[v][i].0 !in dist'
      ensures Covered(next, g[v][i].0, dist'[v] + Weight(g[v][i].1, key))
    {
      if v == x {
        CoversPushed(g, key, queue, k, next, i);
      } else {
        assert Covered(queue, g[v][i].0, dist[v] + Weight(g[v][i].1, key));
        CoversKept(g, key, queue, k, next, g[v][i].0, dist[v] + Weight(g[v][i].1, key));
      }
    }
    if start !in dist' {
      CoversKept(g, key, queue, k, next, start, 0);
    }
  }

  /** The entry pushed for outgoing entry `i` of the expanded node covers that neighbour. */
  lemma CoversPushed(g: Graph, key: WeightKey, queue: seq<Entry>, k: nat, next: seq<Entry>, i: nat)
    requires k < |queue| && Expanded(g, key, queue, k, next)
    requires queue[k].node in g && i < |g[queue[k].node]|
    ensures var arc := g[queue[k].node][i]; Covered(next, arc.0, queue[k].cost + Weight(arc.1, key))
  {
    var e := queue[k];
    assert next[|queue| - 1 + i] == Entry(e.cost + Weight(g[e.node][i].1, key), g[e.node][i].0, e.path + [e.node]);
  }

  /** A cover of a node other than the expanded one survives the pop and the pushes. */
  lemma CoversKept(g: Graph, key: WeightKey, queue: seq<Entry>, k: nat, next: seq<Entry>, u: Node, c: nat)
    requires k < |queue| && Expanded(g, key, queue, k, next)
    requires queue[k].node != u && Covered(queue, u, c)
    ensures Covered(next, u, c)
  {
    var rest := queue[..k] + queue[k + 1..];
    var n := |queue| - 1;
    assert next == rest + next[n..];
    CoveredRemove(queue, k, u, c);
    CoveredAppend(rest, next[n..], u, c);
  }

  /**
    Expanding the unvisited node of the popped least entry `e` at cost `e.cost` and pushing one entry per
    outgoing entry keeps the invariant.
   */
  lemma FrontierExpand(g: Graph, start: Node, key: WeightKey, dist: map<Node, nat>, queue: seq<Entry>, k: nat, next: seq<Entry>)
    requires Frontier(g, start, key, dist, queue)
    requires k < |queue| && queue[k].node !in dist
    requires forall j :: 0 <= j < |queue| ==> queue[k].cost <= queue[j].cost
    requires Expanded(g, key, queue, k, next)
    ensures Frontier(g, start, key, dist[queue[k].node := queue[k].cost], next)
  {
    var x := queue[k].node;
    var dist' := dist[x := queue[k].cost];
    LeastSettled(g, start, key, dist, queue, k);
    forall v | v in dist' ensures Settled(g, start, key, v, dist'[v]) {
      if v != x { assert Settled(g, start, key, v, dist[v]); }
    }
    CoversExpand(g, start, key, dist, queue, k, next);
  }

  /** Everything the search loop keeps true between two pops. */
  ghost predicate SearchInv(g: Graph, start: Node, goal: Node, key: WeightKey, visited: set<Node>,
                            dist: map<Node, nat>, queue: seq<Entry>, expanded: seq<Node>)
  {
    && visited == dist.Keys && goal !in visited
    && Frontier(g, start, key, dist, queue)
    && EntriesOk(g, start, key, queue)
    && (visited == {} ==> queue == [Entry(0, start, [])])
    && (start == goal ==> visited == {})
    && IsSimple(expanded) && (forall n :: n in expanded <==> n in visited)
  }

  lemma SearchInvInit(g: Graph, start: Node, goal: Node, key: WeightKey)
    ensures SearchInv(g, start, goal, key, {}, map[], [Entry(0, start, [])], [])
  {
    var queue := [Entry(0, start, [])];
    assert queue[0].node == start && queue[0].cost == 0;
    assert EntryOk(g, start, key, queue[0]);
  }

  /** Popping an entry at a visited node (`continue`) keeps the loop invariant. */
  lemma SearchInvDiscard(g: Graph, start: Node, goal: Node, key: WeightKey, visited: set<Node>,
                         dist: map<Node, nat>, queue: seq<Entry>, expanded: seq<Node>, k: nat)
    requires SearchInv(g, start, goal, key, visited, dist, queue, expanded)
    requires k < |queue| && queue[k].node in visited
    ensures SearchInv(g, start, goal, key, visited, dist, queue[..k] + queue[k + 1..], expanded)
  {
    CoversDiscard(g, start, key, dist, queue, k);
    EntriesRemove(g, start, key, queue, k);
  }

  /** Expanding the node of a least entry that is neither visited nor the goal keeps the loop invariant. */
  lemma SearchInvExpand(g: Graph, start: Node, goal: Node, key: WeightKey, visited: set<Node>,
                        dist: map<Node, nat>, queue: seq<Entry>, expanded: seq<Node>, k: nat, next: seq<Entry>)
    requires SearchInv(g, start, goal, key, visited, dist, queue, expanded)
    requires k < |queue| && queue[k].node !in visited && queue[k].node != goal
    requires forall j :: 0 <= j < |queue| ==> queue[k].cost <= queue[j].cost
    requires Expanded(g, key, queue, k, next)
    ensures var x := queue[k].node;
      SearchInv(g, start, goal, key, visited + {x}, dist[x := queue[k].cost], next, expanded + [x])
  {
    var x := queue[k].node;
    FrontierExpand(g, start, key, dist, queue, k, next);
    EntriesExpand(g, start, key, queue, k, next);
    if start == goal {
      assert false;
    }
    var e' := expanded + [x];
    forall i, j | 0 <= i < j < |e'| ensures e'[i] != e'[j] {
      if j == |e'| - 1 { assert e'[i] in expanded; }
    }
  }

  /** The search answers at a popped least entry for the goal: the answer the method promises. */
  lemma SearchAnswer(g: Graph, start: Node, goal: Node, key: WeightKey, visited: set<Node>,
                     dist: map<Node, nat>, queue: seq<Entry>, expanded: seq<Node>, k: nat)
    requires SearchInv(g, start, goal, key, visited, dist, queue, expanded)
    requires k < |queue| && queue[k].node == goal
    requires forall j :: 0 <= j < |queue| ==> queue[k].cost <= queue[j].cost
    ensures var e := queue[k]; var path := e.path + [goal];
      && IsRoute(g, path, start, goal) && Realizes(g, path, key, e.cost)
      && Settled(g, start, key, goal, e.cost)
      && e.cost == WalkCost(g, path, key)
      && (start == goal ==> e.cost == 0 && path == [start])
  {
    GoalReached(g, start, goal, key, dist, queue, k);
    if start == goal {
      assert |queue| == 1 && k == 0;
    }
  }

  /** An empty queue with the goal never reached means no walk leads to the goal. */
  lemma SearchExhausted(g: Graph, start: Node, goal: Node, key: WeightKey, visited: set<Node>,
                        dist: map<Node, nat>, expanded: seq<Node>)
    requires SearchInv(g, start, goal, key, visited, dist, [], expanded)
    ensures forall q :: !IsRoute(g, q, start, goal)
  {
    forall q ensures !IsRoute(g, q, start, goal) {
      if IsRoute(g, q, start, goal) {
        FrontierEntry(g, start, key, dist, [], q, goal);
      }
    }
  }

  /** Visiting a node never grows the set of unvisited keys, and visiting an unvisited key shrinks it. */
  lemma VisitShrinks(keys: set<Node>, visited: set<Node>, x: Node)
    requires x !in visited
    ensures |keys - (visited + {x})| <= |keys - visited|
    ensures x in keys ==> |keys - (visited + {x})| < |keys - visited|
  {
    if x in keys {
      assert keys - (visited + {x}) == (keys - visited) - {x};
    } else {
      assert keys - (visited + {x}) == keys - visited;
    }
  }
}
