/**
  Least-cost choice among the enumerated paths (`Searcher.stp_dfs` and `Searcher.fdp_dfs` in A4/script.py).
  The two differ only in the record key they sum, so both are one method with the key as a parameter.
 */
module Selection {
  import opened Wrappers
  import opened Graph
  import opened Dfs

  /** The weight of the first entry of `arcs` that leads to `v`; nothing (0) when none does. */
  function FirstWeight(arcs: seq<Arc>, v: Node, key: WeightKey): nat {
    if arcs == [] then 0
    else if arcs[0].0 == v then Weight(arcs[0].1, key)
    else FirstWeight(arcs[1..], v, key)
  }

  /** `stp_dfs` and `fdp_dfs` look up `graph[path[i]]` for every node but the last; any other path raises `KeyError`. */
  ghost predicate InGraph(g: Graph, p: Path) {
    forall i :: 0 <= i < |p| - 1 ==> p[i] in g
  }

  /** The summed cost `stp_dfs` and `fdp_dfs` compute for a path: the first matching entry's weight per step. */
  function PathCost(g: Graph, p: Path, key: WeightKey): nat
    requires InGraph(g, p)
    decreases |p|
  {
    if |p| <= 1 then 0
    else PathCost(g, p[..|p| - 1], key) + FirstWeight(g[p[|p| - 2]], p[|p| - 1], key)
  }

  /** `FirstWeight` is the weight of the first entry of `arcs` leading to `v`, when there is one. */
  lemma {:induction false} FirstWeightIsFirstArc(arcs: seq<Arc>, v: Node, key: WeightKey, k: nat)
    requires k < |arcs| && arcs[k].0 == v
    requires forall j :: 0 <= j < k ==> arcs[j].0 != v
    ensures FirstWeight(arcs, v, key) == Weight(arcs[k].1, key)
  {
    if k > 0 {
      assert arcs[0].0 != v;
      assert forall j :: 0 <= j < k - 1 ==> arcs[1..][j] == arcs[j + 1];
      FirstWeightIsFirstArc(arcs[1..], v, key, k - 1);
    }
  }

  /** With no entry leading to `v`, `FirstWeight` is 0: the loop finds nothing to add. */
  lemma {:induction false} FirstWeightMissing(arcs: seq<Arc>, v: Node, key: WeightKey)
    requires forall j :: 0 <= j < |arcs| ==> arcs[j].0 != v
    ensures FirstWeight(arcs, v, key) == 0
  {
    if arcs != [] {
      assert forall j :: 0 <= j < |arcs| - 1 ==> arcs[1..][j] == arcs[j + 1];
      FirstWeightMissing(arcs[1..], v, key);
    }
  }

  /** Every node of a walk but the last has outgoing entries, so `stp_dfs` and `fdp_dfs` can cost it. */
  lemma WalkInGraph(g: Graph, p: Path)
    requires IsWalk(g, p)
    ensures InGraph(g, p)
  {
    forall i | 0 <= i < |p| - 1 ensures p[i] in g { assert HasArc(g, p[i], p[i + 1]); }
  }

  /** The inner loops of `stp_dfs`: the summed weight of a path. */
  method CostOf(g: Graph, p: Path, key: WeightKey) returns (total: nat)
    requires InGraph(g, p)
    ensures total == PathCost(g, p, key)
  {
    total := 0;
    var i := 0;
    while i < |p| - 1
      invariant 0 <= i <= if |p| == 0 then 0 else |p| - 1
      invariant |p| == 0 ==> total == 0
      invariant |p| > 0 ==> InGraph(g, p[..i + 1]) && total == PathCost(g, p[..i + 1], key)
    {
      ghost var before := total;
      var arcs := g[p[i]];
      for j := 0 to |arcs|
        invariant total == before
        invariant FirstWeight(arcs, p[i + 1], key) == FirstWeight(arcs[j..], p[i + 1], key)
      {
        var (neighbor, edge) := arcs[j];
        if neighbor == p[i + 1] {
          total := total + Weight(edge, key);
          break;
        }
        assert arcs[j..][1..] == arcs[j + 1..];
      }
      assert total == before + FirstWeight(arcs, p[i + 1], key);
      assert p[..i + 2][..i + 1] == p[..i + 1];
      i := i + 1;
    }
    if |p| > 0 {
      assert p[..i + 1] == p;
    }
  }

  /** Path `i` has the least cost among `paths`, and no earlier path has a cost as low (ties keep the first). */
  ghost predicate FirstCheapest(g: Graph, paths: seq<Path>, key: WeightKey, i: int)
    requires forall j :: 0 <= j < |paths| ==> InGraph(g, paths[j])
  {
    && 0 <= i < |paths|
    && (forall j :: 0 <= j < |paths| ==> PathCost(g, paths[i], key) <= PathCost(g, paths[j], key))
    && (forall j :: 0 <= j < i ==> PathCost(g, paths[i], key) < PathCost(g, paths[j], key))
  }

  /** The loop of `stp_dfs` over the yielded paths: the first path of least summed `key`, `None` when there is none. */
  method Cheapest(g: Graph, paths: seq<Path>, key: WeightKey) returns (best: Option<Path>)
    requires forall j :: 0 <= j < |paths| ==> InGraph(g, paths[j])
    ensures best.None? <==> paths == []
    ensures best.Some? ==> exists i :: FirstCheapest(g, paths, key, i) && paths[i] == best.value
  {
    best := None;
    var bestCost: Option<nat> := None;  // float('inf') until a path is seen
    ghost var at := 0;
    for k := 0 to |paths|
      invariant best.None? <==> k == 0
      invariant best.None? <==> bestCost.None?
      invariant best.Some? ==> 0 <= at < k && best.value == paths[at] && bestCost.value == PathCost(g, paths[at], key)
      invariant best.Some? ==> forall j :: 0 <= j < k ==> PathCost(g, paths[at], key) <= PathCost(g, paths[j], key)
      invariant best.Some? ==> forall j :: 0 <= j < at ==> PathCost(g, paths[at], key) < PathCost(g, paths[j], key)
    {
      var total := CostOf(g, paths[k], key);
      if bestCost.None? || total < bestCost.value {
        bestCost := Some(total);
        best := Some(paths[k]);
        at := k;
      }
    }
    if best.Some? {
      assert FirstCheapest(g, paths, key, at);
    }
  }

  /**
    The common body of `stp_dfs` and `fdp_dfs`: the first enumerated path of least summed `key`,
    or `None` when `dfs_paths` yields nothing, which is exactly when no walk leads to the goal.
   */
  method MinCostPath(g: Graph, start: Node, goal: Node, key: WeightKey) returns (best: Option<Path>)
    ensures best.None? <==> DfsPaths(g, start, goal) == []
    ensures best.None? <==> forall q :: !IsRoute(g, q, start, goal)
    ensures best.Some? ==> IsRoute(g, best.value, start, goal) && IsSimple(best.value)
    ensures best.Some? ==> InGraph(g, best.value)
    ensures best.Some? ==>
      var paths := DfsPaths(g, start, goal);
      (forall j :: 0 <= j < |paths| ==> InGraph(g, paths[j]))
      && exists i :: FirstCheapest(g, paths, key, i) && paths[i] == best.value
  {
    var paths := DfsPaths(g, start, goal);
    DfsPathsEmpty(g, start, goal);
    forall j | 0 <= j < |paths| ensures InGraph(g, paths[j]) && IsRoute(g, paths[j], start, goal) && IsSimple(paths[j]) {
      DfsPathsExactly(g, start, goal, paths[j]);
      WalkInGraph(g, paths[j]);
    }
    best := Cheapest(g, paths, key);
  }

  /** `stp_dfs`: the enumerated path of least total `time`. */
  method StpDfs(g: Graph, start: Node, goal: Node) returns (best: Option<Path>)
    ensures best.None? <==> forall q :: !IsRoute(g, q, start, goal)
    ensures best.Some? ==>
      var paths := DfsPaths(g, start, goal);
      (forall j :: 0 <= j < |paths| ==> InGraph(g, paths[j]))
      && exists i :: FirstCheapest(g, paths, Time, i) && paths[i] == best.value
  {
    best := MinCostPath(g, start, goal, Time);
  }

  /** `fdp_dfs`: the enumerated path of fewest total `dementors`. */
  method FdpDfs(g: Graph, start: Node, goal: Node) returns (best: Option<Path>)
    ensures best.None? <==> forall q :: !IsRoute(g, q, start, goal)
    ensures best.Some? ==>
      var paths := DfsPaths(g, start, goal);
      (forall j :: 0 <= j < |paths| ==> InGraph(g, paths[j]))
      && exists i :: FirstCheapest(g, paths, Dementors, i) && paths[i] == best.value
  {
    best := MinCostPath(g, start, goal, Dementors);
  }
}
