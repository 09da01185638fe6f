/**
 * The exact Hamiltonian solver: every ordering of the vertex ids, in
 * lexicographic order, is kept when each consecutive pair is an edge, and
 * is reported closed into a cycle when the last vertex also has an edge
 * back to the first. The result is the full list of what was kept.
 */
module HamiltonianExact {
  import opened Graphs
  import opened Permutations

  /** Every consecutive pair of `p` is an edge. */
  predicate IsPath(g: Graph, p: seq<nat>) {
    forall k :: 0 <= k && k + 1 < |p| ==> Edge(g, p[k], p[k + 1])
  }

  /** An ordering of all the vertices along edges. */
  predicate IsHamiltonianPath(g: Graph, p: seq<nat>) {
    multiset(p) == multiset(Range(g.size)) && IsPath(g, p)
  }

  /** The reported form of a kept ordering: its first vertex appended when the closing edge exists. */
  function Close(g: Graph, p: seq<nat>): seq<nat>
    requires |p| > 0
  {
    if Edge(g, p[|p| - 1], p[0]) then p + [p[0]] else p
  }

  /** The orderings of `ps` whose consecutive pairs are all edges, in their order in `ps`. */
  function Kept(g: Graph, ps: seq<seq<nat>>): seq<seq<nat>>
  {
    if ps == [] then [] else (if IsPath(g, ps[0]) then [ps[0]] else []) + Kept(g, ps[1..])
  }

  /** The loop over the orderings: each kept one is appended in its reported form. */
  function Collect(g: Graph, ps: seq<seq<nat>>): seq<seq<nat>>
    requires forall p :: p in ps ==> |p| > 0
  {
    if ps == [] then []
    else (if IsPath(g, ps[0]) then [Close(g, ps[0])] else []) + Collect(g, ps[1..])
  }

  lemma PermsOfRangeNonEmpty(n: nat)
    requires n >= 1
    ensures forall p :: p in Perms(Range(n)) ==> |p| == n
  {
    forall p | p in Perms(Range(n)) ensures |p| == n {
      PermsSound(Range(n), p);
      assert |p| == |multiset(p)| == |multiset(Range(n))|;
    }
  }

  /** Each report of orderings of length `n` has `n` entries, or `n + 1` once closed. */
  lemma {:induction false} CollectLengths(g: Graph, ps: seq<seq<nat>>, n: nat)
    requires n >= 1 && forall p :: p in ps ==> |p| == n
    ensures forall k :: 0 <= k < |Collect(g, ps)| ==> n <= |Collect(g, ps)[k]| <= n + 1
  {
    if ps != [] {
      CollectLengths(g, ps[1..], n);
    }
  }

  /**
   * All Hamiltonian paths and cycles, in lexicographic order of their vertex
   * orderings: each report lists the `n` vertices, plus the first again when
   * the path closes into a cycle.
   */
  function HamiltonianExactPathfind(g: Graph): (r: seq<seq<nat>>)
    requires g.size >= 1
    ensures forall k :: 0 <= k < |r| ==> g.size <= |r[k]| <= g.size + 1
  {
    PermsOfRangeNonEmpty(g.size);
    CollectLengths(g, Perms(Range(g.size)), g.size);
    Collect(g, Perms(Range(g.size)))
  }

  lemma {:induction false} CollectIsCloseOfKept(g: Graph, ps: seq<seq<nat>>)
    requires forall p :: p in ps ==> |p| > 0
    ensures |Collect(g, ps)| == |Kept(g, ps)|
    ensures forall k :: 0 <= k < |Kept(g, ps)| ==> Kept(g, ps)[k] in ps && |Kept(g, ps)[k]| > 0
    ensures forall k :: 0 <= k < |Kept(g, ps)| ==> Collect(g, ps)[k] == Close(g, Kept(g, ps)[k])
  {
    if ps != [] {
      CollectIsCloseOfKept(g, ps[1..]);
      forall k | 0 <= k < |Kept(g, ps[1..])| ensures Kept(g, ps[1..])[k] in ps {
        assert Kept(g, ps[1..])[k] in ps[1..];
      }
    }
  }

  /** `Kept` keeps exactly the orderings that are paths. */
  lemma {:induction false} KeptExact(g: Graph, ps: seq<seq<nat>>, p: seq<nat>)
    ensures p in Kept(g, ps) <==> p in ps && IsPath(g, p)
  {
    if ps != [] {
      KeptExact(g, ps[1..], p);
      assert ps == [ps[0]] + ps[1..];
    }
  }

  lemma {:induction false} KeptSorted(g: Graph, ps: seq<seq<nat>>)
    requires Sorted(ps)
    ensures Sorted(Kept(g, ps))
  {
    if ps != [] {
      KeptSorted(g, ps[1..]);
      var rest := Kept(g, ps[1..]);
      var all := Kept(g, ps);
      if IsPath(g, ps[0]) {
        forall a, b | 0 <= a < b < |all| ensures LexLess(all[a], all[b]) {
          if a == 0 {
            KeptExact(g, ps[1..], all[b]);
            var j :| 0 <= j < |ps[1..]| && ps[1..][j] == all[b];
            assert all[b] == ps[j + 1];
          } else {
            assert all[a] == rest[a - 1] && all[b] == rest[b - 1];
          }
        }
      }
    }
  }

  /**
   * Every reported list is a Hamiltonian path in its first `n` entries; it
   * has one more entry, equal to its first, exactly when the edge from its
   * last vertex back to its first exists.
   */
  lemma ExactSound(g: Graph)
    requires g.size >= 1
    ensures var r := HamiltonianExactPathfind(g);
      forall k :: 0 <= k < |r| ==>
        && |r[k]| >= g.size
        && IsHamiltonianPath(g, r[k][..g.size])
        && (|r[k]| == g.size + 1 <==> Edge(g, r[k][g.size - 1], r[k][0]))
        && (|r[k]| == g.size + 1 ==> r[k][g.size] == r[k][0])
        && |r[k]| <= g.size + 1
  {
    var n := g.size;
    var ps := Perms(Range(n));
    PermsOfRangeNonEmpty(n);
    CollectIsCloseOfKept(g, ps);
    var r := HamiltonianExactPathfind(g);
    forall k | 0 <= k < |r|
      ensures |r[k]| >= n && IsHamiltonianPath(g, r[k][..n])
      ensures |r[k]| == n + 1 <==> Edge(g, r[k][n - 1], r[k][0])
      ensures |r[k]| == n + 1 ==> r[k][n] == r[k][0]
      ensures |r[k]| <= n + 1
    {
      var p := Kept(g, ps)[k];
      KeptExact(g, ps, p);
      PermsSound(Range(n), p);
      assert r[k][..n] == p;
    }
  }

  /** Every Hamiltonian path is reported, in its closed form when the closing edge exists. */
  lemma ExactComplete(g: Graph, p: seq<nat>)
    requires g.size >= 1 && IsHamiltonianPath(g, p)
    ensures |p| == g.size
    ensures Close(g, p) in HamiltonianExactPathfind(g)
  {
    var n := g.size;
    var ps := Perms(Range(n));
    assert |p| == |multiset(p)| == |multiset(Range(n))| == n;
    PermsComplete(Range(n), p);
    KeptExact(g, ps, p);
    PermsOfRangeNonEmpty(n);
    CollectIsCloseOfKept(g, ps);
    var k :| 0 <= k < |Kept(g, ps)| && Kept(g, ps)[k] == p;
    assert HamiltonianExactPathfind(g)[k] == Close(g, p);
  }

  /** The reports come in strictly increasing lexicographic order of their vertex orderings. */
  lemma ExactOrdered(g: Graph)
    requires g.size >= 1
    ensures var r := HamiltonianExactPathfind(g);
      forall i, j :: 0 <= i < j < |r| ==> |r[i]| >= g.size && |r[j]| >= g.size && LexLess(r[i][..g.size], r[j][..g.size])
  {
    var n := g.size;
    var ps := Perms(Range(n));
    PermsOfRangeNonEmpty(n);
    CollectIsCloseOfKept(g, ps);
    PermsSorted(Range(n));
    KeptSorted(g, ps);
    var r := HamiltonianExactPathfind(g);
    forall i, j | 0 <= i < j < |r|
      ensures |r[i]| >= n && |r[j]| >= n && LexLess(r[i][..n], r[j][..n])
    {
      var a, b := Kept(g, ps)[i], Kept(g, ps)[j];
      assert r[i][..n] == a && r[j][..n] == b;
    }
  }

  /** Nothing is reported exactly when the graph has no Hamiltonian path: the result is empty, never absent. */
  lemma ExactEmptyIff(g: Graph)
    requires g.size >= 1
    ensures HamiltonianExactPathfind(g) == [] <==> forall p :: !IsHamiltonianPath(g, p)
  {
    var r := HamiltonianExactPathfind(g);
    if r != [] {
      ExactSound(g);
      assert IsHamiltonianPath(g, r[0][..g.size]);
    }
    forall p | IsHamiltonianPath(g, p) ensures r != [] {
      ExactComplete(g, p);
    }
  }
}
