/**
  The adjacency map of the route searcher (`Searcher.build_graph` in A4/script.py)
  and the vocabulary of walks over it shared by the search algorithms.
 */
module Graph {

  type Node = string

  /** One record of the edge table; every weight the searcher sums is a natural number. */
  datatype Edge = Edge(start: Node, end: Node, time: nat, dementors: nat, hops: nat, distance: nat)

  /** The record keys the searcher sums over. */
  datatype WeightKey = Time | Dementors | Hops | Distance

  /** `edge[key]` */
  function Weight(e: Edge, key: WeightKey): nat {
    match key
    case Time => e.time
    case Dementors => e.dementors
    case Hops => e.hops
    case Distance => e.distance
  }

  /** An adjacency entry `(end, edge)`. */
  type Arc = (Node, Edge)

  /** Source node to its outgoing entries; a node without outgoing edges is not a key. */
  type Graph = map<Node, seq<Arc>>

  /** The `start` values of the edge table. */
  function Starts(edges: seq<Edge>): set<Node> {
    set e | e in edges :: e.start
  }

  /** The entries `build_graph` appends to `graph[s]`, in table order. */
  function Outgoing(edges: seq<Edge>, s: Node): seq<Arc> {
    if edges == [] then []
    else
      var last := edges[|edges| - 1];
      Outgoing(edges[..|edges| - 1], s) + (if last.start == s then [(last.end, last)] else [])
  }

  lemma {:induction false} OutgoingEmpty(edges: seq<Edge>, s: Node)
    requires s !in Starts(edges)
    ensures Outgoing(edges, s) == []
  {
    if edges != [] {
      assert edges[|edges| - 1] in edges;
      OutgoingEmpty(edges[..|edges| - 1], s);
    }
  }

  /** Builds the adjacency map: one key per `start` value, each edge appended under its own start. */
  method BuildGraph(edges: seq<Edge>) returns (graph: Graph)
    ensures graph.Keys == Starts(edges)
    ensures forall s :: s in graph ==> graph[s] == Outgoing(edges, s)
  {
    graph := map[];
    for i := 0 to |edges|
      invariant graph.Keys == Starts(edges[..i])
      invariant forall s :: s in graph ==> graph[s] == Outgoing(edges[..i], s)
    {
      var edge := edges[i];
      var src := edge.start;
      var dst := edge.end;
      assert edges[..i + 1][..i] == edges[..i];
      if src !in graph {
        OutgoingEmpty(edges[..i], src);
        graph := graph[src := []];
      }
      graph := graph[src := graph[src] + [(dst, edge)]];
    }
    assert edges[..|edges|] == edges;
  }

  /** No entry is invented: an entry under `s` is `(e.end, e)` for an edge `e` of the table that starts at `s`, and every such edge has one. */
  lemma {:induction false} OutgoingMembers(edges: seq<Edge>, s: Node, a: Arc)
    ensures a in Outgoing(edges, s) <==> a.1 in edges && a.1.start == s && a.0 == a.1.end
  {
    if edges != [] {
      var front := edges[..|edges| - 1];
      OutgoingMembers(front, s, a);
      assert edges == front + [edges[|edges| - 1]];
    }
  }

  /** No edge is lost or duplicated: each edge occurs under its own start exactly as often as in the table. */
  lemma {:induction false} OutgoingCounts(edges: seq<Edge>, e: Edge)
    ensures multiset(Outgoing(edges, e.start))[(e.end, e)] == multiset(edges)[e]
  {
    if edges != [] {
      var front := edges[..|edges| - 1];
      OutgoingCounts(front, e);
      assert edges == front + [edges[|edges| - 1]];
    }
  }

  /** Table order is kept: the entries of a concatenated table are those of each part, in turn. */
  lemma {:induction false} OutgoingAppend(a: seq<Edge>, b: seq<Edge>, s: Node)
    ensures Outgoing(a + b, s) == Outgoing(a, s) + Outgoing(b, s)
    decreases |b|
  {
    if b == [] {
      assert a + b == a;
    } else {
      var front := b[..|b| - 1];
      assert (a + b)[..|a + b| - 1] == a + front;
      OutgoingAppend(a, front, s);
    }
  }

  /** `v in [n for (n, _) in graph[u]]` */
  ghost predicate HasArc(g: Graph, u: Node, v: Node) {
    u in g && exists i :: 0 <= i < |g[u]| && g[u][i].0 == v
  }

  /** Each consecutive pair of the path is joined by an entry of the graph. */
  ghost predicate IsWalk(g: Graph, p: seq<Node>) {
    forall i :: 0 <= i < |p| - 1 ==> HasArc(g, p[i], p[i + 1])
  }

  /** No node occurs twice. */
  ghost predicate IsSimple(p: seq<Node>) {
    forall i, j :: 0 <= i < j < |p| ==> p[i] != p[j]
  }

  /** Dropping the last node of a walk leaves a walk. */
  lemma WalkFront(g: Graph, p: seq<Node>)
    requires |p| > 0 && IsWalk(g, p)
    ensures IsWalk(g, p[..|p| - 1])
  {
    var front := p[..|p| - 1];
    forall i | 0 <= i < |front| - 1 ensures HasArc(g, front[i], front[i + 1]) {
      assert front[i] == p[i] && front[i + 1] == p[i + 1];
    }
  }

  /** A walk from `s` to `t`. */
  ghost predicate IsRoute(g: Graph, p: seq<Node>, s: Node, t: Node) {
    |p| > 0 && p[0] == s && p[|p| - 1] == t && IsWalk(g, p)
  }

  /** Cutting out a cycle: whenever `t` is reachable from `s`, it is reachable along a simple route. */
  lemma {:induction false} SimpleRouteExists(g: Graph, p: seq<Node>, s: Node, t: Node)
    requires IsRoute(g, p, s, t)
    ensures exists q :: IsRoute(g, q, s, t) && IsSimple(q)
    decreases |p|
  {
    if !IsSimple(p) {
      var i, j :| 0 <= i < j < |p| && p[i] == p[j];
      var q := p[..i] + p[j..];
      assert |q| == |p| - (j - i);
      assert q[0] == s by {
        if i == 0 { assert q[0] == p[j]; } else { assert q[0] == p[0]; }
      }
      assert q[|q| - 1] == p[|p| - 1];
      forall k | 0 <= k < |q| - 1 ensures HasArc(g, q[k], q[k + 1]) {
        if k < i - 1 {
          assert q[k] == p[k] && q[k + 1] == p[k + 1];
        } else if k == i - 1 {
          assert q[k] == p[k] && q[k + 1] == p[j] == p[k + 1];
        } else {
          assert q[k] == p[k + j - i] && q[k + 1] == p[k + j - i + 1];
        }
      }
      SimpleRouteExists(g, q, s, t);
    }
  }
}
