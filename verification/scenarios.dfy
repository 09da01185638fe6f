/**
 * The sample adjacency matrices of the command-line script, passed to the
 * three solvers, with the results proved from the solvers' contracts.
 */
module Scenarios {
  import opened Wrappers
  import opened Graphs
  import opened EdgeMultisets
  import opened Connectivity
  import opened Eulerian
  import opened HamiltonianExact
  import opened HamiltonianHeuristic
  import opened Permutations

  /** A directed 5-cycle 0 -> 1 -> 3 -> 4 -> 2 -> 0. */
  function CycleMatrix(): Matrix {
    [[0, 1, 0, 0, 0],
     [0, 0, 0, 1, 0],
     [1, 0, 0, 0, 0],
     [0, 0, 0, 0, 1],
     [0, 0, 1, 0, 0]]
  }

  /** Vertices 0 and 4 both have one more out-edge than in-edges. */
  function TwoStartsMatrix(): Matrix {
    [[0, 1, 1, 0, 0],
     [0, 0, 1, 0, 0],
     [1, 0, 0, 1, 0],
     [0, 0, 0, 1, 0],
     [0, 1, 0, 0, 0]]
  }

  /** A strictly increasing list whose only member is `a` is `[a]`. */
  lemma IncreasingSingleton(l: seq<nat>, a: nat)
    requires StrictlyIncreasing(l) && a in l && forall x :: x in l ==> x == a
    ensures l == [a]
  {
    assert Elems(l) == {a};
    DistinctCard(l);
    assert l[0] in l;
  }

  /** A list without members is empty. */
  lemma NoMembers(l: seq<nat>)
    requires forall x :: x !in l
    ensures l == []
  {
    forall x ensures multiset(l)[x] == 0 {
      assert x !in l;
    }
    assert multiset(l) == multiset{};
  }

  /** Three empty lists. */
  lemma ThreeEmpty(l: seq<seq<nat>>)
    requires |l| == 3 && l[0] == [] && l[1] == [] && l[2] == []
    ensures l == [[], [], []]
  {
  }

  /** Five one-element lists. */
  lemma FiveSingletons(l: seq<seq<nat>>, a: nat, b: nat, c: nat, d: nat, e: nat)
    requires |l| == 5 && l[0] == [a] && l[1] == [b] && l[2] == [c] && l[3] == [d] && l[4] == [e]
    ensures l == [[a], [b], [c], [d], [e]]
  {
  }

  /** Row `u` holding exactly one positive cell, at column `a`, gives the out-list `[a]`. */
  lemma OutSingle(g: Graph, u: nat, a: nat)
    requires Valid(g) && u < g.size && a < g.size && g.matrix[u][a] > 0
    requires forall x :: 0 <= x < g.size && x != a ==> g.matrix[u][x] <= 0
    ensures g.outs[u] == [a]
  {
    BuildSpec(g.matrix);
    forall x: nat ensures x in g.outs[u] ==> x == a {
      if x < g.size && x != a {
        assert g.matrix[u][x] <= 0;
      }
    }
    IncreasingSingleton(g.outs[u], a);
  }

  /** Column `v` holding exactly one positive cell, at row `a`, gives the in-list `[a]`. */
  lemma InSingle(g: Graph, v: nat, a: nat)
    requires Valid(g) && v < g.size && a < g.size && g.matrix[a][v] > 0
    requires forall x :: 0 <= x < g.size && x != a ==> g.matrix[x][v] <= 0
    ensures g.ins[v] == [a]
  {
    BuildSpec(g.matrix);
    forall x: nat ensures x in g.ins[v] ==> x == a {
      if x < g.size && x != a {
        assert g.matrix[x][v] <= 0;
      }
    }
    IncreasingSingleton(g.ins[v], a);
  }

  /** A row without positive cells gives an empty out-list, a column without them an empty in-list. */
  lemma EmptyLine(g: Graph, u: nat)
    requires Valid(g) && u < g.size
    requires forall x :: 0 <= x < g.size ==> g.matrix[u][x] <= 0 && g.matrix[x][u] <= 0
    ensures g.outs[u] == [] && g.ins[u] == []
  {
    BuildSpec(g.matrix);
    forall x: nat ensures x !in g.outs[u] && x !in g.ins[u] {
      if x < g.size {
        assert g.matrix[u][x] <= 0 && g.matrix[x][u] <= 0;
      }
    }
    NoMembers(g.outs[u]);
    NoMembers(g.ins[u]);
  }

  /** The lists the construction derives from the cycle's matrix. */
  predicate CycleLists(g: Graph) {
    && g.size == 5
    && g.outs == [[1], [3], [0], [4], [2]]
    && g.ins == [[2], [0], [4], [1], [3]]
  }

  lemma CycleOuts(g: Graph)
    requires Valid(g) && g.matrix == CycleMatrix()
    ensures g.size == 5 && g.outs == [[1], [3], [0], [4], [2]]
  {
    OutSingle(g, 0, 1);
    OutSingle(g, 1, 3);
    OutSingle(g, 2, 0);
    OutSingle(g, 3, 4);
    OutSingle(g, 4, 2);
    FiveSingletons(g.outs, 1, 3, 0, 4, 2);
  }

  lemma CycleIns(g: Graph)
    requires Valid(g) && g.matrix == CycleMatrix()
    ensures g.size == 5 && g.ins == [[2], [0], [4], [1], [3]]
  {
    InSingle(g, 0, 2);
    InSingle(g, 1, 0);
    InSingle(g, 2, 4);
    InSingle(g, 3, 1);
    InSingle(g, 4, 3);
    FiveSingletons(g.ins, 2, 0, 4, 1, 3);
  }

  lemma CycleGraph(g: Graph)
    requires Valid(g) && g.matrix == CycleMatrix()
    ensures CycleLists(g)
  {
    CycleOuts(g);
    CycleIns(g);
  }

  /** The cycle is weakly connected: walking round it from 0 reaches every vertex. */
  lemma CycleConnected(g: Graph)
    requires Valid(g) && CycleLists(g)
    ensures IsFirstNonIsolated(g, 0) && ConnectedFromFirst(g)
  {
    var w: seq<nat> := [0, 1, 3, 4, 2];
    assert IsUndirectedPath(g, w) by {
      forall k | 0 <= k && k + 1 < |w| ensures Adjacent(g, w[k], w[k + 1]) {
        assert w[k + 1] in g.outs[w[k]];
      }
    }
    forall f, v | IsFirstNonIsolated(g, f) && 0 <= v < g.size && NonIsolated(g, v)
      ensures Reaches(g, f, v)
    {
      assert f == 0 by {
        assert NonIsolated(g, 0);
      }
      var k := if v == 0 then 0 else if v == 1 then 1 else if v == 3 then 2 else if v == 4 then 3 else 4;
      assert w[k] == v;
      var p := w[..k + 1];
      assert IsUndirectedPath(g, p) by {
        forall j | 0 <= j && j + 1 < |p| ensures Adjacent(g, p[j], p[j + 1]) {
          assert p[j] == w[j] && p[j + 1] == w[j + 1];
        }
      }
      assert p[0] == f && p[|p| - 1] == v;
    }
  }

  lemma CycleDegrees(g: Graph)
    requires Valid(g) && CycleLists(g)
    ensures DegreesOk(g) && EndpointsOk(g) && HasEdges(g)
    ensures CountDiff(g, 1, g.size) == 0 && CountDiff(g, -1, g.size) == 0
  {
    assert Diff(g, 0) == 0 && Diff(g, 1) == 0 && Diff(g, 2) == 0 && Diff(g, 3) == 0 && Diff(g, 4) == 0;
    assert CountDiff(g, 1, 0) == 0 && CountDiff(g, -1, 0) == 0;
    assert CountDiff(g, 1, 1) == 0 && CountDiff(g, -1, 1) == 0;
    assert CountDiff(g, 1, 2) == 0 && CountDiff(g, -1, 2) == 0;
    assert CountDiff(g, 1, 3) == 0 && CountDiff(g, -1, 3) == 0;
    assert CountDiff(g, 1, 4) == 0 && CountDiff(g, -1, 4) == 0;
    assert NonIsolated(g, 0);
  }

  /** The only Eulerian trail of the cycle that starts at 0 is the cycle itself. */
  lemma CycleTrail(g: Graph, p: seq<nat>)
    requires CycleLists(g) && IsEulerianTrail(g, p) && p[0] == 0
    ensures p == [0, 1, 3, 4, 2, 0]
  {
    CycleEdgeCount(g);
    assert |p| == 6;
    assert Edge(g, p[0], p[1]) && p[1] in [1];
    assert Edge(g, p[1], p[2]) && p[2] in [3];
    assert Edge(g, p[2], p[3]) && p[3] in [4];
    assert Edge(g, p[3], p[4]) && p[4] in [2];
    assert Edge(g, p[4], p[5]) && p[5] in [0];
  }

  lemma CycleEdgeCount(g: Graph)
    requires CycleLists(g)
    ensures EdgeCount(g) == 5
  {
    assert SumLengths(g.outs, 1) == 1;
    assert SumLengths(g.outs, 2) == 2;
    assert SumLengths(g.outs, 3) == 3;
    assert SumLengths(g.outs, 4) == 4;
  }

  /** On the cycle the Eulerian solver reports the circuit from vertex 0. */
  method CycleEulerian() returns (r: Option<seq<nat>>)
    ensures r == Some([0, 1, 3, 4, 2, 0])
  {
    var g := BuildGraph(CycleMatrix());
    CycleGraph(g);
    CycleConnected(g);
    CycleDegrees(g);
    r := EulerianPathfind(g);
    CycleTrail(g, r.value);
  }

  /** With two start candidates no Eulerian trail exists. */
  method TwoStartsEulerian() returns (r: Option<seq<nat>>)
    ensures r == None
  {
    var m := TwoStartsMatrix();
    var g := BuildGraph(m);
    assert RowTargets(m, 0, 5) == [1, 2];
    assert g.outs[4] == RowTargets(m, 4, 5) == [1];
    assert g.ins[0] == ColumnSources(m, 0, 5) == [2];
    assert g.ins[4] == ColumnSources(m, 4, 5) == [];
    assert Diff(g, 0) == 1 && Diff(g, 4) == 1;
    CountDiffAtLeast(g, 1, 5, 0, 4);
    r := EulerianPathfind(g);
  }

  /** Every step round the cycle from 0 is the greedy move, there being only one out-edge to take. */
  lemma CycleGreedyWalk(g: Graph)
    requires CycleLists(g)
    ensures GreedyWalk(g, 0, [0, 1, 3, 4, 2])
  {
    var w: seq<nat> := [0, 1, 3, 4, 2];
    forall k | 0 <= k < 4 ensures IsGreedy(g, Elems(w[..k + 1]), w[k], w[k + 1]) {
      assert g.outs[w[k]] == [w[k + 1]];
      assert w[k + 1] !in w[..k + 1];
    }
  }

  /** The greedy walk round the cycle never gets stuck early, and is the only full one. */
  lemma CycleGreedyOnly(g: Graph)
    requires CycleLists(g)
    ensures g.size == 5
    ensures !exists q :: GreedyWalk(g, 0, q) && |q| < g.size && Stuck(g, q)
    ensures forall q :: GreedyWalk(g, 0, q) && |q| == g.size ==> q == [0, 1, 3, 4, 2]
  {
    var w: seq<nat> := [0, 1, 3, 4, 2];
    CycleGreedyWalk(g);
    forall q | GreedyWalk(g, 0, q) && |q| < g.size ensures !Stuck(g, q) {
      NotStuckBefore(g, 0, w, q);
    }
    forall q | GreedyWalk(g, 0, q) && |q| == g.size ensures q == w {
      GreedyWalkUnique(g, 0, q, w);
    }
  }

  /** On the cycle the heuristic walks round from 0 and closes the cycle. */
  method CycleHeuristic() returns (r: Option<seq<nat>>)
    ensures r == Some([0, 1, 3, 4, 2, 0])
  {
    var g := BuildGraph(CycleMatrix());
    CycleGraph(g);
    CycleGreedyOnly(g);
    r := HamiltonianHeuristicPathfind(g, 0);
    CycleClose(g, r.value);
  }

  lemma CycleClose(g: Graph, p: seq<nat>)
    requires CycleLists(g) && |p| >= 5 && p[..5] == [0, 1, 3, 4, 2] && p == Close(g, p[..5])
    ensures p == [0, 1, 3, 4, 2, 0]
  {
    assert Edge(g, 2, 0);
  }

  /** The successor of each vertex on the 5-cycle. */
  function CycleNext(u: nat): nat
    requires u < 5
  {
    [1, 3, 0, 4, 2][u]
  }

  /** The ordering that follows the 5-cycle from `v`. */
  function Rotation(v: nat): (r: seq<nat>)
    requires v < 5
    ensures |r| == 5 && r[0] == v
  {
    [[0, 1, 3, 4, 2], [1, 3, 4, 2, 0], [2, 0, 1, 3, 4], [3, 4, 2, 0, 1], [4, 2, 0, 1, 3]][v]
  }

  /** Each rotation follows the successor from vertex to vertex, back to its start. */
  lemma RotationFollows(v: nat)
    requires v < 5
    ensures forall k :: 0 <= k < 5 ==> Rotation(v)[k] < 5
    ensures forall k :: 0 <= k < 4 ==> Rotation(v)[k + 1] == CycleNext(Rotation(v)[k])
    ensures CycleNext(Rotation(v)[4]) == v
  {
    var w := Rotation(v);
    if v == 0 {
      assert w == [0, 1, 3, 4, 2];
    } else if v == 1 {
      assert w == [1, 3, 4, 2, 0];
    } else if v == 2 {
      assert w == [2, 0, 1, 3, 4];
    } else if v == 3 {
      assert w == [3, 4, 2, 0, 1];
    } else {
      assert w == [4, 2, 0, 1, 3];
    }
  }

  /** The rotations closed back to their starts, written out. */
  lemma ClosedRotations()
    ensures Rotation(0) + [0] == [0, 1, 3, 4, 2, 0]
    ensures Rotation(1) + [1] == [1, 3, 4, 2, 0, 1]
    ensures Rotation(2) + [2] == [2, 0, 1, 3, 4, 2]
    ensures Rotation(3) + [3] == [3, 4, 2, 0, 1, 3]
    ensures Rotation(4) + [4] == [4, 2, 0, 1, 3, 4]
  {
  }

  /** Each rotation holds every vertex once. */
  lemma RotationPermutation(v: nat)
    requires v < 5
    ensures multiset(Rotation(v)) == multiset(Range(5))
  {
    var w := Rotation(v);
    RotationFollows(v);
    forall a, b | 0 <= a < b < |w| ensures w[a] != w[b] {
      if v == 0 {} else if v == 1 {} else if v == 2 {} else if v == 3 {} else {}
    }
    DistinctIsPermutation(w, 5);
  }

  /** On the 5-cycle the one edge out of `u` goes to its successor. */
  lemma CycleStep(g: Graph, u: nat, v: nat)
    requires CycleLists(g)
    ensures Edge(g, u, v) <==> u < 5 && v == CycleNext(u)
  {
    if u < 5 {
      assert g.outs[u] == [CycleNext(u)] by {
        if u == 0 {} else if u == 1 {} else if u == 2 {} else if u == 3 {} else {}
      }
    }
  }

  /** Each rotation is a Hamiltonian path, and it closes back to its start. */
  lemma RotationHamiltonian(g: Graph, v: nat)
    requires CycleLists(g) && v < 5
    ensures IsHamiltonianPath(g, Rotation(v))
    ensures Close(g, Rotation(v)) == Rotation(v) + [v]
  {
    var p := Rotation(v);
    RotationFollows(v);
    RotationPermutation(v);
    forall k | 0 <= k && k + 1 < |p| ensures Edge(g, p[k], p[k + 1]) {
      CycleStep(g, p[k], p[k + 1]);
    }
    CycleStep(g, p[4], v);
  }

  /** A Hamiltonian path of the 5-cycle has five vertices, the first one a vertex. */
  lemma CyclePathShape(g: Graph, p: seq<nat>)
    requires CycleLists(g) && IsHamiltonianPath(g, p)
    ensures |p| == 5 && p[0] < 5
  {
    assert |p| == |multiset(p)| == |multiset(Range(5))| == 5;
    assert p[0] in multiset(Range(5));
    RangeMember(5, p[0]);
  }

  /** Every Hamiltonian path of the 5-cycle is the rotation from its first vertex. */
  lemma CyclePathIsRotation(g: Graph, p: seq<nat>)
    requires CycleLists(g) && IsHamiltonianPath(g, p)
    ensures |p| == 5 && p[0] < 5 && p == Rotation(p[0])
  {
    CyclePathShape(g, p);
    var w := Rotation(p[0]);
    RotationFollows(p[0]);
    forall k | 0 <= k < 4 ensures p[k] < 5 && p[k + 1] == CycleNext(p[k]) {
      CycleStep(g, p[k], p[k + 1]);
    }
    assert p[1] == w[1];
    assert p[2] == w[2];
    assert p[3] == w[3];
    assert p[4] == w[4];
  }

  /** Every report of the exact solver on the 5-cycle is a rotation closed back to its start. */
  lemma CycleReports(g: Graph)
    requires CycleLists(g)
    ensures var r := HamiltonianExactPathfind(g);
      forall k :: 0 <= k < |r| ==> |r[k]| > 0 && r[k][0] < 5 && r[k] == Rotation(r[k][0]) + [r[k][0]]
  {
    ExactSound(g);
    var r := HamiltonianExactPathfind(g);
    forall k | 0 <= k < |r| ensures |r[k]| > 0 && r[k][0] < 5 && r[k] == Rotation(r[k][0]) + [r[k][0]] {
      var p := r[k][..5];
      CyclePathIsRotation(g, p);
      RotationHamiltonian(g, p[0]);
      assert r[k] == p + [r[k][5]];
    }
  }

  /** A strictly increasing sequence below `n` holding every value below `n` is `0, 1, ..., n - 1`. */
  lemma IncreasingCover(s: seq<nat>, n: nat)
    requires StrictlyIncreasing(s)
    requires forall k :: 0 <= k < |s| ==> s[k] < n
    requires forall v :: 0 <= v < n ==> v in s
    ensures s == Range(n)
  {
    IncreasingCoverUpTo(s, n, |s|);
    if n > 0 {
      assert n - 1 in s;
      var m :| 0 <= m < |s| && s[m] == n - 1;
    }
    if |s| > 0 {
      assert s[|s| - 1] == |s| - 1;
    }
  }

  lemma {:induction false} IncreasingCoverUpTo(s: seq<nat>, n: nat, i: nat)
    requires StrictlyIncreasing(s)
    requires forall k :: 0 <= k < |s| ==> s[k] < n
    requires forall v :: 0 <= v < n ==> v in s
    requires i <= |s|
    ensures forall k :: 0 <= k < i ==> s[k] == k
  {
    if i > 0 {
      IncreasingCoverUpTo(s, n, i - 1);
      var k := i - 1;
      if k > 0 {
        assert s[k - 1] == k - 1;
      }
      assert k <= s[k] < n;
      assert k in s;
      var m :| 0 <= m < |s| && s[m] == k;
      assert m >= k;
    }
  }

  /**
   * On the 5-cycle the exact solver reports the five rotations, each closed
   * back to its start, ordered by their first vertex.
   */
  lemma CycleExact(g: Graph)
    requires CycleLists(g)
    ensures HamiltonianExactPathfind(g) ==
      [[0, 1, 3, 4, 2, 0], [1, 3, 4, 2, 0, 1], [2, 0, 1, 3, 4, 2], [3, 4, 2, 0, 1, 3], [4, 2, 0, 1, 3, 4]]
  {
    var r := HamiltonianExactPathfind(g);
    CycleReports(g);
    ExactOrdered(g);
    var starts := seq(|r|, k requires 0 <= k < |r| => r[k][0]);
    forall a, b | 0 <= a < b < |starts| ensures starts[a] < starts[b] {
      assert r[a][..5] == Rotation(starts[a]) && r[b][..5] == Rotation(starts[b]);
      LexLessIrreflexive(Rotation(starts[a]));
    }
    forall v | 0 <= v < 5 ensures v in starts {
      RotationHamiltonian(g, v);
      ExactComplete(g, Rotation(v));
      var k :| 0 <= k < |r| && r[k] == Rotation(v) + [v];
      assert starts[k] == v;
    }
    IncreasingCover(starts, 5);
    assert |r| == |starts| == 5;
    forall k | 0 <= k < 5 ensures r[k] == Rotation(k) + [k] {
      assert starts[k] == k;
    }
    ClosedRotations();
    assert r == [r[0], r[1], r[2], r[3], r[4]];
  }

  /** Three vertices and no edges. */
  function EmptyMatrix(): Matrix {
    [[0, 0, 0], [0, 0, 0], [0, 0, 0]]
  }

  /** The lists the construction derives from the empty matrix. */
  predicate EmptyLists(g: Graph) {
    g.size == 3 && g.outs == [[], [], []] && g.ins == [[], [], []]
  }

  lemma EmptyGraph(g: Graph)
    requires Valid(g) && g.matrix == EmptyMatrix()
    ensures EmptyLists(g)
  {
    EmptyLine(g, 0);
    EmptyLine(g, 1);
    EmptyLine(g, 2);
    ThreeEmpty(g.outs);
    ThreeEmpty(g.ins);
  }

  lemma EmptyDegrees(g: Graph)
    requires Valid(g) && EmptyLists(g)
    ensures DegreesOk(g) && !HasEdges(g)
    ensures CountDiff(g, 1, g.size) == 0 && CountDiff(g, -1, g.size) == 0
  {
    assert Diff(g, 0) == 0 && Diff(g, 1) == 0 && Diff(g, 2) == 0;
    assert CountDiff(g, 1, 0) == 0 && CountDiff(g, -1, 0) == 0;
    assert CountDiff(g, 1, 1) == 0 && CountDiff(g, -1, 1) == 0;
    assert CountDiff(g, 1, 2) == 0 && CountDiff(g, -1, 2) == 0;
  }

  /** Without edges the Eulerian solver reports the empty trail, not failure. */
  method EmptyEulerian() returns (r: Option<seq<nat>>)
    ensures r == Some([])
  {
    var g := BuildGraph(EmptyMatrix());
    EmptyGraph(g);
    EmptyDegrees(g);
    r := EulerianPathfind(g);
  }

  /** Without edges the heuristic is stuck at its start. */
  method EmptyHeuristic() returns (r: Option<seq<nat>>)
    ensures r == None
  {
    var g := BuildGraph(EmptyMatrix());
    EmptyGraph(g);
    r := HamiltonianHeuristicPathfind(g, 0);
  }

  /** Without edges the exact solver reports no path at all. */
  lemma EmptyExact(g: Graph)
    requires EmptyLists(g)
    ensures g.size == 3 && HamiltonianExactPathfind(g) == []
  {
    forall p: seq<nat> | |p| >= 2 ensures !IsPath(g, p) {
      assert !Edge(g, p[0], p[1]);
    }
    forall p: seq<nat> | multiset(p) == multiset(Range(3)) ensures |p| == 3 {
      assert |p| == |multiset(p)|;
    }
    ExactEmptyIff(g);
  }
}
