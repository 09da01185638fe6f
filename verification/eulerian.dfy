/**
 * The Eulerian solver: a degree-balance classification, a weak-connectivity
 * check over the vertices that have edges, and Hierholzer's construction.
 * The outcome is `None` (no Eulerian trail or circuit), `Some([])` (no
 * edges at all) or `Some(p)` with `p` the trail or circuit.
 */
module Eulerian {
  import opened Wrappers
  import opened Graphs
  import opened EdgeMultisets
  import opened Connectivity
  import opened Hierholzer

  /** Out-degree minus in-degree. */
  function Diff(g: Graph, i: nat): int
    requires i < |g.outs| && i < |g.ins|
  {
    |g.outs[i]| - |g.ins[i]|
  }

  /** The number of vertices below `k` whose degree difference is `d`. */
  function CountDiff(g: Graph, d: int, k: nat): nat
    requires k <= |g.outs| && k <= |g.ins|
  {
    if k == 0 then 0 else CountDiff(g, d, k - 1) + (if Diff(g, k - 1) == d then 1 else 0)
  }

  /** Every vertex has out-degree and in-degree at most one apart. */
  predicate DegreesOk(g: Graph)
    requires Valid(g)
  {
    forall i :: 0 <= i < g.size ==> -1 <= Diff(g, i) <= 1
  }

  /** No start or end candidate (a circuit), or exactly one of each (a trail). */
  predicate EndpointsOk(g: Graph)
    requires Valid(g)
  {
    || (CountDiff(g, 1, g.size) == 0 && CountDiff(g, -1, g.size) == 0)
    || (CountDiff(g, 1, g.size) == 1 && CountDiff(g, -1, g.size) == 1)
  }

  predicate HasEdges(g: Graph)
    requires Valid(g)
  {
    exists i :: 0 <= i < g.size && NonIsolated(g, i)
  }

  predicate IsFirstNonIsolated(g: Graph, f: nat)
    requires Valid(g)
  {
    && f < g.size
    && NonIsolated(g, f)
    && forall i :: 0 <= i < f ==> !NonIsolated(g, i)
  }

  /** Every vertex with an edge is reachable, ignoring direction, from the first such vertex. */
  ghost predicate ConnectedFromFirst(g: Graph)
    requires Valid(g)
  {
    forall f, v :: IsFirstNonIsolated(g, f) && 0 <= v < g.size && NonIsolated(g, v) ==> Reaches(g, f, v)
  }

  /** The start the solver uses: the one start candidate, or the first vertex with an edge. */
  predicate IsProperStart(g: Graph, s: nat)
    requires Valid(g)
  {
    s < g.size && if CountDiff(g, 1, g.size) == 1 then Diff(g, s) == 1 else IsFirstNonIsolated(g, s)
  }

  /** The end of the result: the one end candidate, or the start itself for a circuit. */
  predicate IsProperEnd(g: Graph, s: nat, t: nat)
    requires Valid(g)
  {
    t < g.size && if CountDiff(g, -1, g.size) == 1 then Diff(g, t) == -1 else t == s
  }

  /**
   * A walk along edges that uses every edge of the graph exactly once: its
   * consecutive pairs are edges, no pair repeats, there are as many pairs as
   * edges, and the pairs are exactly the edges.
   */
  predicate IsEulerianTrail(g: Graph, p: seq<nat>) {
    && |p| == EdgeCount(g) + 1
    && (forall k :: 0 <= k < |p| ==> p[k] < g.size)
    && (forall k :: 0 <= k && k + 1 < |p| ==> Edge(g, p[k], p[k + 1]))
    && (forall a, b :: 0 <= a < b && b + 1 < |p| ==> (p[a], p[a + 1]) != (p[b], p[b + 1]))
    && Pairs(p) == AllEdges(g)
  }

  lemma {:induction false} CountDiffWitness(g: Graph, d: int, k: nat)
    requires k <= |g.outs| && k <= |g.ins| && CountDiff(g, d, k) > 0
    ensures exists i :: 0 <= i < k && Diff(g, i) == d
  {
    if CountDiff(g, d, k - 1) > 0 {
      CountDiffWitness(g, d, k - 1);
    }
  }

  /** Each vertex with difference `d` adds one to the count. */
  lemma {:induction false} CountDiffAtLeast(g: Graph, d: int, k: nat, a: nat, b: nat)
    requires k <= |g.outs| && k <= |g.ins|
    requires a <= b < k && Diff(g, a) == d && Diff(g, b) == d
    ensures CountDiff(g, d, k) >= (if a == b then 1 else 2)
  {
    if b + 1 < k {
      CountDiffAtLeast(g, d, k - 1, a, b);
    } else if a < b {
      CountDiffAtLeast(g, d, k - 1, a, a);
    }
  }

  /**
   * Once the degree checks pass, out-degree minus in-degree is +1 at `s`, -1
   * at `t` and 0 elsewhere, where `t` is the end candidate or `s` itself.
   */
  lemma BalanceShape(g: Graph, s: nat, t: nat)
    requires Valid(g) && DegreesOk(g) && EndpointsOk(g)
    requires s < g.size && t < g.size
    requires CountDiff(g, 1, g.size) == 1 ==> Diff(g, s) == 1
    requires CountDiff(g, -1, g.size) == 1 ==> Diff(g, t) == -1
    requires CountDiff(g, 1, g.size) == 0 ==> t == s
    ensures forall x :: 0 <= x < g.size ==>
      |g.outs[x]| - |g.ins[x]| == (if x == s then 1 else 0) - (if x == t then 1 else 0)
  {
    forall x | 0 <= x < g.size
      ensures |g.outs[x]| - |g.ins[x]| == (if x == s then 1 else 0) - (if x == t then 1 else 0)
    {
      if Diff(g, x) == 1 {
        if CountDiff(g, 1, g.size) == 1 {
          if x < s { CountDiffAtLeast(g, 1, g.size, x, s); }
          if s < x { CountDiffAtLeast(g, 1, g.size, s, x); }
        } else {
          CountDiffAtLeast(g, 1, g.size, x, x);
        }
      } else if Diff(g, x) == -1 {
        if CountDiff(g, -1, g.size) == 1 {
          if x < t { CountDiffAtLeast(g, -1, g.size, x, t); }
          if t < x { CountDiffAtLeast(g, -1, g.size, t, x); }
        } else {
          CountDiffAtLeast(g, -1, g.size, x, x);
        }
      }
    }
  }

  /** A walk whose pairs are exactly the edges is an Eulerian trail. */
  lemma EulerianFromPairs(g: Graph, p: seq<nat>)
    requires Valid(g) && |p| >= 1 && (forall k :: 0 <= k < |p| ==> p[k] < g.size)
    requires Pairs(p) == AllEdges(g)
    ensures IsEulerianTrail(g, p)
  {
    PairsSize(p);
    ListedPairsSize(g.outs, |g.outs|);
    PairsAreEdges(g, p);
    forall e | true ensures Pairs(p)[e] <= 1 {
      AllEdgesSimple(g, e.0, e.1);
    }
    PairsDistinct(p);
  }

  /**
   * The classification loop: it stops at the first vertex whose degree
   * difference lies outside -1..1, and otherwise counts the start candidates
   * (+1) and end candidates (-1), remembering the last start candidate.
   */
  method ClassifyDegrees(g: Graph) returns (ok: bool, startNodes: nat, endNodes: nat, startId: nat)
    requires Valid(g)
    ensures ok <==> DegreesOk(g)
    ensures ok ==> startNodes == CountDiff(g, 1, g.size) && endNodes == CountDiff(g, -1, g.size)
    ensures ok && startNodes > 0 ==> startId < g.size && Diff(g, startId) == 1
  {
    startNodes, endNodes, startId := 0, 0, 0;
    for i := 0 to g.size
      invariant startNodes == CountDiff(g, 1, i) && endNodes == CountDiff(g, -1, i)
      invariant forall k :: 0 <= k < i ==> -1 <= Diff(g, k) <= 1
      invariant startNodes > 0 ==> startId < i && Diff(g, startId) == 1
    {
      var diff := |g.outs[i]| - |g.ins[i]|;
      if diff == 1 {
        startNodes := startNodes + 1;
        startId := i;
      } else if diff == -1 {
        endNodes := endNodes + 1;
      } else if diff != 0 {
        assert !(-1 <= Diff(g, i) <= 1);
        return false, startNodes, endNodes, startId;
      }
    }
    ok := true;
  }

  /** The first vertex with an edge in either direction, if any. */
  method FirstNonIsolated(g: Graph) returns (first: Option<nat>)
    requires Valid(g)
    ensures first.None? <==> !HasEdges(g)
    ensures first.Some? ==> IsFirstNonIsolated(g, first.value)
  {
    var i := 0;
    while i < g.size && |g.outs[i]| + |g.ins[i]| == 0
      invariant i <= g.size
      invariant forall k :: 0 <= k < i ==> !NonIsolated(g, k)
    {
      i := i + 1;
    }
    if i < g.size {
      assert NonIsolated(g, i);
      first := Some(i);
    } else {
      first := None;
    }
  }

  /** Whether every vertex with an edge is reached, ignoring direction, by the search from `first`. */
  method CheckConnected(g: Graph, first: nat) returns (ok: bool)
    requires Valid(g) && first < g.size
    ensures ok <==> forall v :: 0 <= v < g.size && NonIsolated(g, v) ==> Reaches(g, first, v)
  {
    var reachable := UndirectedReach(g, first);
    for i := 0 to g.size
      invariant forall k :: 0 <= k < i && NonIsolated(g, k) ==> k in reachable
    {
      if |g.outs[i]| + |g.ins[i]| > 0 && i !in reachable {
        assert !Reaches(g, first, i);
        return false;
      }
    }
    ok := true;
  }

  /** Connectivity from the first vertex with an edge is connectivity from `first`. */
  lemma ConnectedFromGiven(g: Graph, first: nat)
    requires Valid(g) && IsFirstNonIsolated(g, first)
    ensures ConnectedFromFirst(g) <==> forall v :: 0 <= v < g.size && NonIsolated(g, v) ==> Reaches(g, first, v)
  {
    forall f: nat | IsFirstNonIsolated(g, f)
      ensures f == first
    {
      FirstNonIsolatedUnique(g, f, first);
    }
  }

  lemma FirstNonIsolatedUnique(g: Graph, f: nat, h: nat)
    requires Valid(g) && IsFirstNonIsolated(g, f) && IsFirstNonIsolated(g, h)
    ensures f == h
  {
    assert !(f < h) && !(h < f);
  }

  /**
   * The solver. It returns `None` exactly when a degree difference lies
   * outside -1..1, the start and end candidates are not 0 and 0 or 1 and 1,
   * or a vertex with an edge is unreachable from the first such vertex; it
   * returns `Some([])` exactly when the checks pass and there is no edge;
   * otherwise it returns an Eulerian trail from the proper start to the
   * proper end.
   */
  method EulerianPathfind(g: Graph) returns (r: Option<seq<nat>>)
    requires Valid(g)
    ensures r.None? <==> !(DegreesOk(g) && EndpointsOk(g) && ConnectedFromFirst(g))
    ensures r == Some([]) <==> DegreesOk(g) && EndpointsOk(g) && !HasEdges(g)
    ensures r.Some? && r.value != [] ==>
      && IsEulerianTrail(g, r.value)
      && IsProperStart(g, r.value[0])
      && IsProperEnd(g, r.value[0], r.value[|r.value| - 1])
  {
    var ok, startNodes, endNodes, startId := ClassifyDegrees(g);
    if !ok {
      return None;
    }
    if !((startNodes == 0 && endNodes == 0) || (startNodes == 1 && endNodes == 1)) {
      return None;
    }
    var nonIsolatedStart := FirstNonIsolated(g);
    if nonIsolatedStart.None? {
      return Some([]);
    }
    var first := nonIsolatedStart.value;
    var connected := CheckConnected(g, first);
    ConnectedFromGiven(g, first);
    if !connected {
      return None;
    }
    if startNodes == 0 {
      startId := first;
    }
    ghost var endId := startId;
    if endNodes == 1 {
      CountDiffWitness(g, -1, g.size);
      endId :| 0 <= endId < g.size && Diff(g, endId) == -1;
    }
    BalanceShape(g, startId, endId);
    assert Reaches(g, first, startId);
    var path := Construct(g, startId, endId, first);
    EulerianFromPairs(g, path);
    r := Some(path);
  }

  /** An Eulerian trail traverses every edge of the graph. */
  lemma EveryEdgeTraversed(g: Graph, p: seq<nat>, u: nat, v: nat)
    requires Valid(g) && IsEulerianTrail(g, p) && Edge(g, u, v)
    ensures exists k :: 0 <= k && k + 1 < |p| && p[k] == u && p[k + 1] == v
  {
    AllEdgesSimple(g, u, v);
    PairsWitness(p, u, v);
  }
}
