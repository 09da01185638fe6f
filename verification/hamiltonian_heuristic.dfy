/**
 * The greedy Hamiltonian heuristic (Warnsdorff's rule): from the start
 * vertex, repeatedly move to the unvisited out-neighbour that itself has
 * the fewest unvisited out-neighbours, the first such neighbour in list
 * order (that is, the smallest id) on a tie. It gives up as soon as no
 * unvisited out-neighbour is left before every vertex has been visited.
 */
module HamiltonianHeuristic {
  import opened Wrappers
  import opened Graphs
  import opened Connectivity
  import opened HamiltonianExact

  /** The vertices on `q`, as the set of visited vertices. */
  function Elems(q: seq<nat>): set<nat> {
    set x | x in q
  }

  /** How many entries of `l` are not in `vis`. */
  function UnvisitedCount(l: seq<nat>, vis: set<nat>): (r: nat)
    ensures r <= |l|
    ensures r == 0 <==> forall x :: x in l ==> x in vis
  {
    if l == [] then 0
    else
      assert l == l[..|l| - 1] + [l[|l| - 1]];
      UnvisitedCount(l[..|l| - 1], vis) + (if l[|l| - 1] in vis then 0 else 1)
  }

  /** The number of onward options of `x`: its out-neighbours not yet visited. */
  function Options(g: Graph, vis: set<nat>, x: nat): nat
    requires x < |g.outs|
  {
    UnvisitedCount(g.outs[x], vis)
  }

  /**
   * `c` is the move the heuristic makes from `cur` with `vis` visited: an
   * unvisited out-neighbour with the fewest options, the smallest such on a tie.
   */
  predicate IsGreedy(g: Graph, vis: set<nat>, cur: nat, c: nat) {
    && cur < |g.outs| && c < |g.outs| && c in g.outs[cur] && c !in vis
    && forall x :: x in g.outs[cur] && x !in vis && x < |g.outs| ==>
         Options(g, vis, c) < Options(g, vis, x) || (Options(g, vis, c) == Options(g, vis, x) && c <= x)
  }

  /** At most one vertex is the greedy move. */
  lemma GreedyUnique(g: Graph, vis: set<nat>, cur: nat, c: nat, d: nat)
    requires IsGreedy(g, vis, cur, c) && IsGreedy(g, vis, cur, d)
    ensures c == d
  {
    assert Options(g, vis, c) <= Options(g, vis, d) && Options(g, vis, d) <= Options(g, vis, c);
  }

  /** `q` starts at `start` and each step is the greedy move given the vertices before it. */
  ghost predicate GreedyWalk(g: Graph, start: nat, q: seq<nat>) {
    && |q| >= 1 && q[0] == start
    && forall k :: 0 <= k < |q| - 1 ==> IsGreedy(g, Elems(q[..k + 1]), q[k], q[k + 1])
  }

  /** The walk cannot go on: every out-neighbour of its last vertex is already on it. */
  predicate Stuck(g: Graph, q: seq<nat>)
    requires |q| >= 1
  {
    q[|q| - 1] < |g.outs| && forall x :: x in g.outs[q[|q| - 1]] ==> x in Elems(q)
  }

  /** The adjacency lists of a built graph are increasing lists of vertex ids. */
  lemma OutListsWellFormed(g: Graph)
    requires Valid(g)
    ensures |g.outs| == g.size
    ensures forall u :: 0 <= u < g.size ==> StrictlyIncreasing(g.outs[u])
    ensures forall u, j :: 0 <= u < g.size && 0 <= j < |g.outs[u]| ==> g.outs[u][j] < g.size
  {
    BuildSpec(g.matrix);
    forall u, j | 0 <= u < g.size && 0 <= j < |g.outs[u]| ensures g.outs[u][j] < g.size {
      assert g.outs[u][j] in g.outs[u];
    }
  }

  /**
   * The scan over the out-neighbours of `cur`: the first unvisited neighbour
   * with strictly fewer options than every earlier candidate wins.
   */
  method SelectNext(g: Graph, vis: set<nat>, cur: nat) returns (next: Option<nat>)
    requires cur < |g.outs| && StrictlyIncreasing(g.outs[cur])
    requires forall j :: 0 <= j < |g.outs[cur]| ==> g.outs[cur][j] < |g.outs|
    ensures next.None? <==> forall x :: x in g.outs[cur] ==> x in vis
    ensures next.Some? ==> IsGreedy(g, vis, cur, next.value)
  {
    var l := g.outs[cur];
    next := None;
    var minOptions := 0;
    for i := 0 to |l|
      invariant next.None? <==> forall j :: 0 <= j < i ==> l[j] in vis
      invariant next.Some? ==> next.value in l[..i] && next.value !in vis && next.value < |g.outs|
      invariant next.Some? ==> minOptions == Options(g, vis, next.value)
      invariant next.Some? ==> forall j :: 0 <= j < i && l[j] !in vis ==>
        minOptions < Options(g, vis, l[j]) || (minOptions == Options(g, vis, l[j]) && next.value <= l[j])
    {
      var x := l[i];
      if x !in vis {
        var options := UnvisitedCount(g.outs[x], vis);
        if next.None? || options < minOptions {
          next := Some(x);
          minOptions := options;
        } else {
          var a :| 0 <= a < i && l[a] == next.value;
          assert next.value < x;
        }
      }
    }
    if next.Some? {
      forall y | y in l && y !in vis
        ensures minOptions < Options(g, vis, y) || (minOptions == Options(g, vis, y) && next.value <= y)
      {
        var j :| 0 <= j < |l| && l[j] == y;
      }
    }
  }

  lemma PrefixElems(q: seq<nat>, x: nat, k: nat)
    requires k < |q|
    ensures (q + [x])[..k + 1] == q[..k + 1]
  {
  }

  /** A greedy walk extended by the greedy move from its last vertex is a greedy walk. */
  lemma GreedyWalkExtend(g: Graph, start: nat, q: seq<nat>, c: nat)
    requires GreedyWalk(g, start, q) && IsGreedy(g, Elems(q), q[|q| - 1], c)
    ensures GreedyWalk(g, start, q + [c])
  {
    var q' := q + [c];
    forall k | 0 <= k < |q'| - 1 ensures IsGreedy(g, Elems(q'[..k + 1]), q'[k], q'[k + 1]) {
      PrefixElems(q, c, k);
      if k == |q| - 1 {
        assert q'[..k + 1] == q;
      } else {
        assert q'[k] == q[k] && q'[k + 1] == q[k + 1];
      }
    }
  }

  lemma GreedyWalkPrefix(g: Graph, start: nat, q: seq<nat>, m: nat)
    requires GreedyWalk(g, start, q) && 1 <= m <= |q|
    ensures GreedyWalk(g, start, q[..m])
  {
    var p := q[..m];
    forall k | 0 <= k < |p| - 1 ensures IsGreedy(g, Elems(p[..k + 1]), p[k], p[k + 1]) {
      assert p[..k + 1] == q[..k + 1];
    }
  }

  /** The greedy walk is determined by its start: of two greedy walks, the shorter is a prefix of the longer. */
  lemma {:induction false} GreedyWalkUnique(g: Graph, start: nat, p: seq<nat>, q: seq<nat>)
    requires GreedyWalk(g, start, p) && GreedyWalk(g, start, q) && |p| <= |q|
    ensures p == q[..|p|]
  {
    if |p| > 1 {
      var m := |p| - 1;
      GreedyWalkPrefix(g, start, p, m);
      GreedyWalkUnique(g, start, p[..m], q);
      assert p[..m] == q[..m];
      assert p[..m][..m] == p[..m] && q[..m][..m] == q[..m];
      assert IsGreedy(g, Elems(p[..m]), p[m - 1], p[m]);
      assert IsGreedy(g, Elems(q[..m]), q[m - 1], q[m]);
      GreedyUnique(g, Elems(p[..m]), p[m - 1], p[m], q[m]);
      assert p == p[..m] + [p[m]];
    }
  }

  /** The vertices of a greedy walk are distinct. */
  lemma GreedyWalkDistinct(g: Graph, start: nat, q: seq<nat>)
    requires GreedyWalk(g, start, q)
    ensures forall a, b :: 0 <= a < b < |q| ==> q[a] != q[b]
  {
    forall a, b | 0 <= a < b < |q| ensures q[a] != q[b] {
      assert IsGreedy(g, Elems(q[..b]), q[b - 1], q[b]);
      assert q[a] in q[..b];
    }
  }

  /** No greedy walk shorter than `p` is stuck, since `p` itself continues it. */
  lemma NotStuckBefore(g: Graph, start: nat, p: seq<nat>, q: seq<nat>)
    requires GreedyWalk(g, start, p) && GreedyWalk(g, start, q) && |q| < |p|
    ensures !Stuck(g, q)
  {
    GreedyWalkUnique(g, start, q, p);
    var m := |q|;
    assert IsGreedy(g, Elems(p[..m]), p[m - 1], p[m]);
  }

  lemma {:induction false} DistinctMultiplicity(p: seq<nat>, x: nat)
    requires forall a, b :: 0 <= a < b < |p| ==> p[a] != p[b]
    ensures multiset(p)[x] == if x in p then 1 else 0
  {
    if p != [] {
      var t := p[..|p| - 1];
      DistinctMultiplicity(t, x);
      assert p == t + [p[|p| - 1]];
      assert p[|p| - 1] !in t;
    }
  }

  lemma {:induction false} DistinctCard(p: seq<nat>)
    requires forall a, b :: 0 <= a < b < |p| ==> p[a] != p[b]
    ensures |Elems(p)| == |p|
  {
    if p != [] {
      var t := p[..|p| - 1];
      DistinctCard(t);
      assert p == t + [p[|p| - 1]];
      assert Elems(p) == Elems(t) + {p[|p| - 1]};
      assert p[|p| - 1] !in Elems(t);
    }
  }

  lemma {:induction false} AllVerticesCard(n: nat)
    ensures |AllVertices(n)| == n
  {
    if n > 0 {
      AllVerticesCard(n - 1);
      forall v ensures v in AllVertices(n) <==> v in AllVertices(n - 1) + {n - 1} {
        RangeMember(n, v);
        RangeMember(n - 1, v);
      }
      assert AllVertices(n) == AllVertices(n - 1) + {n - 1};
      RangeMember(n - 1, n - 1);
    }
  }

  /** `n` distinct vertices below `n` are an ordering of all the vertices. */
  lemma DistinctIsPermutation(p: seq<nat>, n: nat)
    requires |p| == n && forall k :: 0 <= k < |p| ==> p[k] < n
    requires forall a, b :: 0 <= a < b < |p| ==> p[a] != p[b]
    ensures multiset(p) == multiset(Range(n))
  {
    var s, all := Elems(p), AllVertices(n);
    assert s <= all by {
      forall x | x in s ensures x in all {
        RangeMember(n, x);
      }
    }
    DistinctCard(p);
    AllVerticesCard(n);
    assert |all - s| == 0;
    assert all == s;
    forall x: nat ensures multiset(p)[x] == multiset(Range(n))[x] {
      RangeMember(n, x);
      DistinctMultiplicity(Range(n), x);
      if x in p {
        assert x in s;
      } else {
        assert x !in all;
      }
      DistinctMultiplicity(p, x);
    }
  }

  /**
   * A greedy walk through all the vertices is a Hamiltonian path, and its
   * closed form is among the reports of the exact solver.
   */
  lemma GreedyAmongExact(g: Graph, start: nat, p: seq<nat>)
    requires Valid(g) && start < g.size && GreedyWalk(g, start, p) && |p| == g.size
    ensures IsHamiltonianPath(g, p)
    ensures Close(g, p) in HamiltonianExactPathfind(g)
  {
    BuildSpec(g.matrix);
    assert |g.outs| == g.size;
    GreedyWalkDistinct(g, start, p);
    forall k | 0 <= k < |p| ensures p[k] < g.size {
      if k > 0 {
        assert IsGreedy(g, Elems(p[..k]), p[k - 1], p[k]);
      }
    }
    DistinctIsPermutation(p, g.size);
    forall k | 0 <= k && k + 1 < |p| ensures Edge(g, p[k], p[k + 1]) {
      assert IsGreedy(g, Elems(p[..k + 1]), p[k], p[k + 1]);
    }
    ExactComplete(g, p);
  }

  /** One step of the main loop: the walk, its vertex set and its bounds all extend by the greedy move. */
  lemma WalkStep(g: Graph, start: nat, path: seq<nat>, c: nat)
    requires GreedyWalk(g, start, path) && IsGreedy(g, Elems(path), path[|path| - 1], c)
    requires |g.outs| == g.size && forall k :: 0 <= k < |path| ==> path[k] < g.size
    ensures GreedyWalk(g, start, path + [c])
    ensures Elems(path + [c]) == Elems(path) + {c}
    ensures forall k :: 0 <= k < |path + [c]| ==> (path + [c])[k] < g.size
    ensures (path + [c])[|path|] == c
  {
    GreedyWalkExtend(g, start, path, c);
    var p' := path + [c];
    forall k | 0 <= k < |p'| ensures p'[k] < g.size {
      if k < |path| {
        assert p'[k] == path[k];
      }
    }
  }

  /**
   * The main loop of the heuristic: the greedy walk from `start`, until it
   * has visited every vertex or is stuck.
   */
  method Walk(g: Graph, start: nat) returns (path: seq<nat>, complete: bool)
    requires Valid(g) && start < g.size
    ensures GreedyWalk(g, start, path) && |path| <= g.size
    ensures forall k :: 0 <= k < |path| ==> path[k] < g.size
    ensures complete <==> |path| == g.size
    ensures !complete ==> Stuck(g, path)
  {
    OutListsWellFormed(g);
    path := [start];
    var visited: set<nat> := {start};
    var current := start;
    while |path| < g.size
      invariant 1 <= |path| <= g.size && GreedyWalk(g, start, path)
      invariant visited == Elems(path) && current == path[|path| - 1]
      invariant forall k :: 0 <= k < |path| ==> path[k] < g.size
      decreases g.size - |path|
    {
      var next := SelectNext(g, visited, current);
      if next.None? {
        return path, false;
      }
      WalkStep(g, start, path, next.value);
      path := path + [next.value];
      visited := visited + {next.value};
      current := next.value;
    }
    complete := true;
  }

  /**
   * The heuristic: `None` exactly when the greedy walk from `start` gets
   * stuck before visiting every vertex; otherwise the greedy walk through
   * all the vertices, with `start` appended when the last vertex has an
   * edge back to it.
   */
  method HamiltonianHeuristicPathfind(g: Graph, start: nat) returns (r: Option<seq<nat>>)
    requires Valid(g) && start < g.size
    ensures r.None? <==> exists q :: GreedyWalk(g, start, q) && |q| < g.size && Stuck(g, q)
    ensures r.Some? ==> |r.value| >= g.size && GreedyWalk(g, start, r.value[..g.size])
    ensures r.Some? ==> r.value == Close(g, r.value[..g.size])
  {
    var path, complete := Walk(g, start);
    if !complete {
      return None;
    }
    assert path[..g.size] == path;
    forall q | GreedyWalk(g, start, q) && |q| < g.size ensures !Stuck(g, q) {
      NotStuckBefore(g, start, path, q);
    }
    if start in g.outs[path[g.size - 1]] {
      path := path + [start];
      assert path[..g.size] == path[..|path| - 1];
    }
    r := Some(path);
  }
}
