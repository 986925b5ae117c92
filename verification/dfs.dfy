/**
  Enumeration of cycle-free paths (`Searcher.dfs_paths` in A4/script.py).
  The generator is a pair of mutually recursive functions returning the yielded paths in yield order:
  `Paths` is one call of the generator, `Explore` its loop over `graph[start]` from entry `i` on.
 */
module Dfs {
  import opened Graph

  type Path = seq<Node>

  /** The nodes of a path. */
  function Nodes(p: Path): set<Node> {
    set n | n in p
  }

  /** Every node some adjacency entry leads to; a path extended by the search only ever gains such nodes. */
  ghost function Targets(g: Graph): set<Node> {
    set s, i | s in g && 0 <= i < |g[s]| :: g[s][i].0
  }

  /** What `dfs_paths(start, goal, path)` yields, in order; `start` is the last node of `path`. */
  function Paths(g: Graph, start: Node, goal: Node, path: Path): seq<Path>
    decreases |Targets(g) - Nodes(path)|, 1, 0
  {
    (if start == goal then [path] else [])
    + (if start !in g then [] else Explore(g, start, goal, path, 0))
  }

  /** What the loop `for (neighbor, _) in graph[start]` yields from its `i`-th entry on. */
  function Explore(g: Graph, start: Node, goal: Node, path: Path, i: nat): seq<Path>
    requires start in g && i <= |g[start]|
    decreases |Targets(g) - Nodes(path)|, 0, |g[start]| - i
  {
    if i == |g[start]| then []
    else
      var neighbor := g[start][i].0;
      (if neighbor !in path then
         ExtendShrinks(g, start, i, path);
         Paths(g, neighbor, goal, path + [neighbor])
       else [])
      + Explore(g, start, goal, path, i + 1)
  }

  lemma ExtendShrinks(g: Graph, start: Node, i: nat, path: Path)
    requires start in g && i < |g[start]| && g[start][i].0 !in path
    ensures |Targets(g) - Nodes(path + [g[start][i].0])| < |Targets(g) - Nodes(path)|
  {
    var n := g[start][i].0;
    assert n in Targets(g);
    assert Nodes(path + [n]) == Nodes(path) + {n};
    assert Targets(g) - Nodes(path + [n]) == (Targets(g) - Nodes(path)) - {n};
  }

  /** `dfs_paths(start, goal)`: the search starts from the one-node path `[start]`. */
  function DfsPaths(g: Graph, start: Node, goal: Node): seq<Path> {
    Paths(g, start, goal, [start])
  }

  /**
    Every path a call yields extends the path it was given, ends at the goal, follows graph entries
    and repeats no node; it is the given path itself only when `start` is the goal.
   */
  lemma {:induction false} PathsSound(g: Graph, start: Node, goal: Node, path: Path, p: Path)
    requires |path| > 0 && path[|path| - 1] == start && IsWalk(g, path) && IsSimple(path)
    requires p in Paths(g, start, goal, path)
    ensures |path| <= |p| && p[..|path|] == path
    ensures IsWalk(g, p) && IsSimple(p) && p[|p| - 1] == goal
    ensures |p| == |path| ==> start == goal
    decreases |Targets(g) - Nodes(path)|, 1, 0
  {
    if !(start == goal && p == path) {
      assert start in g && p in Explore(g, start, goal, path, 0);
      ExploreSound(g, start, goal, path, 0, p);
    }
  }

  lemma {:induction false} ExploreSound(g: Graph, start: Node, goal: Node, path: Path, i: nat, p: Path)
    requires start in g && i <= |g[start]|
    requires |path| > 0 && path[|path| - 1] == start && IsWalk(g, path) && IsSimple(path)
    requires p in Explore(g, start, goal, path, i)
    ensures |path| < |p| && p[..|path|] == path
    ensures IsWalk(g, p) && IsSimple(p) && p[|p| - 1] == goal
    decreases |Targets(g) - Nodes(path)|, 0, |g[start]| - i
  {
    assert i < |g[start]|;
    var neighbor := g[start][i].0;
    if neighbor !in path && p in Paths(g, neighbor, goal, path + [neighbor]) {
      var next := path + [neighbor];
      ExtendShrinks(g, start, i, path);
      WalkExtend(g, path, neighbor);
      PathsSound(g, neighbor, goal, next, p);
      assert p[..|path|] == p[..|next|][..|path|];
    } else {
      ExploreSound(g, start, goal, path, i + 1, p);
    }
  }

  /** Appending a neighbour of the last node keeps a walk a walk, and a new node keeps it simple. */
  lemma WalkExtend(g: Graph, path: Path, n: Node)
    requires |path| > 0 && IsWalk(g, path) && IsSimple(path)
    requires HasArc(g, path[|path| - 1], n) && n !in path
    ensures IsWalk(g, path + [n]) && IsSimple(path + [n])
  {
    var next := path + [n];
    forall k | 0 <= k < |next| - 1 ensures HasArc(g, next[k], next[k + 1]) {
      if k < |path| - 1 { assert next[k] == path[k] && next[k + 1] == path[k + 1]; }
    }
  }

  /** Every path through entry `j` of `graph[start]` (when that neighbour is new) is yielded by the loop from entry `i <= j` on. */
  lemma {:induction false} ExploreIncludes(g: Graph, start: Node, goal: Node, path: Path, i: nat, j: nat, p: Path)
    requires start in g && i <= j < |g[start]| && g[start][j].0 !in path
    requires p in Paths(g, g[start][j].0, goal, path + [g[start][j].0])
    ensures p in Explore(g, start, goal, path, i)
    decreases j - i
  {
    if i < j {
      ExploreIncludes(g, start, goal, path, i + 1, j, p);
    }
  }

  /** A simple walk ending at the goal is yielded by the call that holds any non-empty prefix of it. */
  lemma {:induction false} PathsComplete(g: Graph, goal: Node, p: Path, k: nat)
    requires IsWalk(g, p) && IsSimple(p) && 0 < k <= |p| && p[|p| - 1] == goal
    ensures p in Paths(g, p[k - 1], goal, p[..k])
    decreases |p| - k
  {
    if k == |p| {
      assert p[..k] == p;
    } else {
      assert HasArc(g, p[k - 1], p[k]);
      var j :| 0 <= j < |g[p[k - 1]]| && g[p[k - 1]][j].0 == p[k];
      assert p[k] !in p[..k];
      PathsComplete(g, goal, p, k + 1);
      assert p[..k + 1] == p[..k] + [p[k]];
      ExploreIncludes(g, p[k - 1], goal, p[..k], 0, j, p);
    }
  }

  /** `dfs_paths(start, goal)` yields exactly the simple routes from `start` to `goal`. */
  lemma DfsPathsExactly(g: Graph, start: Node, goal: Node, p: Path)
    ensures p in DfsPaths(g, start, goal) <==> IsRoute(g, p, start, goal) && IsSimple(p)
  {
    if p in DfsPaths(g, start, goal) {
      PathsSound(g, start, goal, [start], p);
      assert p[0] == p[..1][0];
    }
    if IsRoute(g, p, start, goal) && IsSimple(p) {
      PathsComplete(g, goal, p, 1);
      assert p[..1] == [start];
    }
  }

  /** Nothing is yielded exactly when the goal cannot be reached from `start` at all. */
  lemma DfsPathsEmpty(g: Graph, start: Node, goal: Node)
    ensures DfsPaths(g, start, goal) == [] <==> forall q :: !IsRoute(g, q, start, goal)
  {
    if DfsPaths(g, start, goal) == [] {
      forall q ensures !IsRoute(g, q, start, goal) {
        if IsRoute(g, q, start, goal) {
          SimpleRouteExists(g, q, start, goal);
          var r :| IsRoute(g, r, start, goal) && IsSimple(r);
          DfsPathsExactly(g, start, goal, r);
        }
      }
    } else {
      DfsPathsExactly(g, start, goal, DfsPaths(g, start, goal)[0]);
    }
  }

  /** When `start == goal` the only path yielded is `[start]`: the goal is on the path, so no extension can end there again. */
  lemma DfsPathsAtGoal(g: Graph, start: Node)
    ensures DfsPaths(g, start, start) == [[start]]
  {
    if start in g {
      var rest := Explore(g, start, start, [start], 0);
      if rest != [] {
        ExploreSound(g, start, start, [start], 0, rest[0]);
      }
    }
  }

  /** A start without outgoing edges yields nothing unless it is the goal. */
  lemma DfsPathsDeadEnd(g: Graph, start: Node, goal: Node)
    requires start !in g
    ensures DfsPaths(g, start, goal) == if start == goal then [[start]] else []
  {
  }
}
