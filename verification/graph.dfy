/**
 * The directed graph the solvers read: built once from a square adjacency
 * matrix, each vertex holding its ordered out-neighbour and in-neighbour
 * lists. Neighbours are vertex indices; an entry above zero is exactly one
 * edge, whatever its value.
 */
module Graphs {

  /** A row-major adjacency matrix. */
  type Matrix = seq<seq<int>>

  predicate IsSquare(m: Matrix) {
    forall i :: 0 <= i < |m| ==> |m[i]| == |m|
  }

  /** The vertex ids 0, 1, ..., n - 1 in order. */
  function Range(n: nat): (r: seq<nat>)
    ensures |r| == n
    ensures forall i :: 0 <= i < n ==> r[i] == i
  {
    seq(n, i requires 0 <= i => i)
  }

  lemma RangeMember(n: nat, v: int)
    ensures v in Range(n) <==> 0 <= v < n
  {
    if 0 <= v < n {
      assert Range(n)[v] == v;
    }
  }

  predicate StrictlyIncreasing(s: seq<nat>) {
    forall a, b :: 0 <= a < b < |s| ==> s[a] < s[b]
  }

  /** The columns below `j` of row `i` that hold a positive entry, in increasing order. */
  function RowTargets(m: Matrix, i: nat, j: nat): seq<nat>
    requires IsSquare(m) && i < |m| && j <= |m|
  {
    if j == 0 then [] else RowTargets(m, i, j - 1) + (if m[i][j - 1] > 0 then [j - 1] else [])
  }

  /** The rows below `r` of column `c` that hold a positive entry, in increasing order. */
  function ColumnSources(m: Matrix, c: nat, r: nat): seq<nat>
    requires IsSquare(m) && c < |m| && r <= |m|
  {
    if r == 0 then [] else ColumnSources(m, c, r - 1) + (if m[r - 1][c] > 0 then [r - 1] else [])
  }

  /** Vertex `v` has neighbour lists `outs[v]` and `ins[v]`; `matrix` is kept as given. */
  datatype Graph = Graph(size: nat, matrix: Matrix, outs: seq<seq<nat>>, ins: seq<seq<nat>>)

  /** The graph of a matrix: out-lists read along rows, in-lists down columns. */
  function Build(m: Matrix): Graph
    requires IsSquare(m)
  {
    Graph(|m|, m,
          seq(|m|, i requires 0 <= i < |m| => RowTargets(m, i, |m|)),
          seq(|m|, c requires 0 <= c < |m| => ColumnSources(m, c, |m|)))
  }

  /** A graph produced by construction from its own matrix. */
  predicate Valid(g: Graph) {
    IsSquare(g.matrix) && g == Build(g.matrix)
  }

  /** The directed edge u -> v: v is on u's out-list. */
  predicate Edge(g: Graph, u: nat, v: nat) {
    u < |g.outs| && v in g.outs[u]
  }

  /**
   * The construction loop: every cell is visited in row-major order and a
   * positive one appends `j` to the out-list of `i` and `i` to the in-list of `j`.
   */
  method BuildGraph(m: Matrix) returns (g: Graph)
    requires IsSquare(m)
    ensures g == Build(m)
    ensures Valid(g)
  {
    var n := |m|;
    var outs: seq<seq<nat>> := seq(n, _ => []);
    var ins: seq<seq<nat>> := seq(n, _ => []);
    for i := 0 to n
      invariant |outs| == n && |ins| == n
      invariant forall k :: 0 <= k < n ==> outs[k] == (if k < i then RowTargets(m, k, n) else [])
      invariant forall c :: 0 <= c < n ==> ins[c] == ColumnSources(m, c, i)
    {
      for j := 0 to n
        invariant |outs| == n && |ins| == n
        invariant forall k :: 0 <= k < n ==>
          outs[k] == (if k < i then RowTargets(m, k, n) else if k == i then RowTargets(m, i, j) else [])
        invariant forall c :: 0 <= c < n ==> ins[c] == ColumnSources(m, c, if c < j then i + 1 else i)
      {
        if m[i][j] > 0 {
          outs := outs[i := outs[i] + [j]];
          ins := ins[j := ins[j] + [i]];
        }
      }
    }
    g := Graph(n, m, outs, ins);
  }

  lemma {:induction false} RowTargetsSpec(m: Matrix, i: nat, j: nat)
    requires IsSquare(m) && i < |m| && j <= |m|
    ensures forall x: nat :: x in RowTargets(m, i, j) <==> x < j && m[i][x] > 0
    ensures StrictlyIncreasing(RowTargets(m, i, j))
  {
    if j > 0 {
      RowTargetsSpec(m, i, j - 1);
      var prev := RowTargets(m, i, j - 1);
      assert forall a :: 0 <= a < |prev| ==> prev[a] < j - 1 by {
        forall a | 0 <= a < |prev| ensures prev[a] < j - 1 {
          assert prev[a] in prev;
        }
      }
    }
  }

  lemma {:induction false} ColumnSourcesSpec(m: Matrix, c: nat, r: nat)
    requires IsSquare(m) && c < |m| && r <= |m|
    ensures forall x: nat :: x in ColumnSources(m, c, r) <==> x < r && m[x][c] > 0
    ensures StrictlyIncreasing(ColumnSources(m, c, r))
  {
    if r > 0 {
      ColumnSourcesSpec(m, c, r - 1);
      var prev := ColumnSources(m, c, r - 1);
      assert forall a :: 0 <= a < |prev| ==> prev[a] < r - 1 by {
        forall a | 0 <= a < |prev| ensures prev[a] < r - 1 {
          assert prev[a] in prev;
        }
      }
    }
  }

  /**
   * Construction reads the matrix exactly: v is on u's out-list iff
   * `m[u][v] > 0`, u is on v's in-list under the same condition, and both
   * lists are in increasing index order, so each edge is listed once.
   */
  lemma BuildSpec(m: Matrix)
    requires IsSquare(m)
    ensures var g := Build(m);
      && g.size == |m| == |g.outs| == |g.ins|
      && (forall u, v :: 0 <= u < |m| && 0 <= v < |m| ==> (v in g.outs[u] <==> m[u][v] > 0))
      && (forall u, v :: 0 <= u < |m| && 0 <= v < |m| ==> (u in g.ins[v] <==> m[u][v] > 0))
      && (forall u :: 0 <= u < |m| ==> StrictlyIncreasing(g.outs[u]) && StrictlyIncreasing(g.ins[u]))
      && (forall u, x :: 0 <= u < |m| && x in g.outs[u] ==> x < |m|)
      && (forall u, x :: 0 <= u < |m| && x in g.ins[u] ==> x < |m|)
  {
    var g := Build(m);
    forall u | 0 <= u < |m|
      ensures forall x: nat :: x in g.outs[u] <==> x < |m| && m[u][x] > 0
      ensures forall x: nat :: x in g.ins[u] <==> x < |m| && m[x][u] > 0
      ensures StrictlyIncreasing(g.outs[u]) && StrictlyIncreasing(g.ins[u])
    {
      RowTargetsSpec(m, u, |m|);
      ColumnSourcesSpec(m, u, |m|);
    }
  }

  /** A vertex with at least one incident edge, in either direction. */
  predicate NonIsolated(g: Graph, v: nat)
    requires v < |g.outs| && v < |g.ins|
  {
    |g.outs[v]| + |g.ins[v]| > 0
  }

  /** The in-lists are the transpose of the out-lists. */
  lemma EdgeInList(g: Graph, u: nat, v: nat)
    requires Valid(g) && u < g.size && v < g.size
    ensures Edge(g, u, v) <==> u in g.ins[v]
  {
    BuildSpec(g.matrix);
  }
}
