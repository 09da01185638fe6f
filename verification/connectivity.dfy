/**
 * Weak connectivity: reachability when every edge may be followed in either
 * direction, and the breadth-first search the Eulerian solver runs over the
 * concatenated out- and in-lists of each vertex.
 */
module Connectivity {
  import opened Graphs

  /** The neighbours the search visits from `u`: its out-list, then its in-list. */
  function Neighbours(g: Graph, u: nat): seq<nat>
    requires u < |g.outs| && u < |g.ins|
  {
    g.outs[u] + g.ins[u]
  }

  predicate Adjacent(g: Graph, u: nat, v: nat) {
    u < |g.outs| && u < |g.ins| && v in Neighbours(g, u)
  }

  /** A vertex sequence in which consecutive vertices are adjacent ignoring direction. */
  ghost predicate IsUndirectedPath(g: Graph, p: seq<nat>) {
    && |p| >= 1
    && (forall k :: 0 <= k < |p| ==> p[k] < g.size)
    && (forall k :: 0 <= k && k + 1 < |p| ==> Adjacent(g, p[k], p[k + 1]))
  }

  ghost predicate Reaches(g: Graph, a: nat, b: nat) {
    exists p :: IsUndirectedPath(g, p) && p[0] == a && p[|p| - 1] == b
  }

  /** No adjacency leaves the set. */
  ghost predicate Closed(g: Graph, s: set<nat>) {
    forall u, v :: u in s && Adjacent(g, u, v) ==> v in s
  }

  function AllVertices(n: nat): set<nat> {
    set v | v in Range(n)
  }

  lemma AdjacentSymmetric(g: Graph, u: nat, v: nat)
    requires Valid(g) && Adjacent(g, u, v)
    ensures v < g.size && Adjacent(g, v, u)
  {
    BuildSpec(g.matrix);
  }

  /** On a built graph every vertex has both lists and every neighbour is a vertex. */
  lemma AdjacentInRange(g: Graph)
    requires Valid(g)
    ensures |g.outs| == |g.ins| == g.size
    ensures forall u: nat, v: nat :: Adjacent(g, u, v) ==> u < g.size && v < g.size
  {
    BuildSpec(g.matrix);
  }

  lemma ReachesStep(g: Graph, a: nat, u: nat, v: nat)
    requires Valid(g) && Reaches(g, a, u) && Adjacent(g, u, v)
    ensures Reaches(g, a, v)
  {
    var p :| IsUndirectedPath(g, p) && p[0] == a && p[|p| - 1] == u;
    var p' := p + [v];
    AdjacentSymmetric(g, u, v);
    forall k | 0 <= k < |p'| ensures p'[k] < g.size {
      if k < |p| {
        assert p'[k] == p[k];
      }
    }
    forall k | 0 <= k && k + 1 < |p'| ensures Adjacent(g, p'[k], p'[k + 1]) {
      if k + 1 < |p| {
        assert p'[k] == p[k] && p'[k + 1] == p[k + 1];
      } else {
        assert p'[k] == u && p'[k + 1] == v;
      }
    }
    assert IsUndirectedPath(g, p');
    assert p'[0] == a && p'[|p'| - 1] == v;
  }

  /** Along a path, membership in a closed set spreads from one vertex to all of them. */
  lemma ClosedPath(g: Graph, s: set<nat>, p: seq<nat>, i: nat)
    requires Valid(g) && Closed(g, s) && IsUndirectedPath(g, p)
    requires i < |p| && p[i] in s
    ensures forall k :: 0 <= k < |p| ==> p[k] in s
  {
    var k := i;
    while k + 1 < |p|
      invariant i <= k < |p|
      invariant forall j :: i <= j <= k ==> p[j] in s
    {
      assert Adjacent(g, p[k], p[k + 1]);
      k := k + 1;
    }
    k := i;
    while k > 0
      invariant 0 <= k <= i
      invariant forall j :: k <= j < |p| ==> p[j] in s
    {
      AdjacentSymmetric(g, p[k - 1], p[k]);
      k := k - 1;
    }
  }

  /** A closed set holding `a` holds everything `a` reaches. */
  lemma ClosedHoldsReached(g: Graph, s: set<nat>, a: nat, b: nat)
    requires Valid(g) && Closed(g, s) && a in s && Reaches(g, a, b)
    ensures b in s
  {
    var p :| IsUndirectedPath(g, p) && p[0] == a && p[|p| - 1] == b;
    ClosedPath(g, s, p, 0);
  }

  /**
   * The neighbours a scan enqueues, in neighbour order: each entry of `nbrs`
   * that is neither in `seen` nor an earlier entry.
   */
  function Fresh(nbrs: seq<nat>, seen: set<nat>): seq<nat> {
    if nbrs == [] then []
    else
      var init := nbrs[..|nbrs| - 1];
      var v := nbrs[|nbrs| - 1];
      if v in seen || v in init then Fresh(init, seen) else Fresh(init, seen) + [v]
  }

  /** The enqueued vertices are exactly the neighbours not already seen. */
  lemma {:induction false} FreshMembers(nbrs: seq<nat>, seen: set<nat>)
    ensures forall v :: v in Fresh(nbrs, seen) <==> v in nbrs && v !in seen
  {
    if nbrs != [] {
      var init := nbrs[..|nbrs| - 1];
      FreshMembers(init, seen);
      assert nbrs == init + [nbrs[|nbrs| - 1]];
    }
  }

  /** No vertex is enqueued twice. */
  lemma {:induction false} FreshDistinct(nbrs: seq<nat>, seen: set<nat>)
    ensures forall i, j :: 0 <= i < j < |Fresh(nbrs, seen)| ==> Fresh(nbrs, seen)[i] != Fresh(nbrs, seen)[j]
  {
    if nbrs != [] {
      var init := nbrs[..|nbrs| - 1];
      FreshDistinct(init, seen);
      FreshMembers(init, seen);
    }
  }

  /** When every neighbour has been seen, nothing is enqueued. */
  lemma {:induction false} FreshEmpty(nbrs: seq<nat>, seen: set<nat>)
    requires forall v :: v in nbrs ==> v in seen
    ensures Fresh(nbrs, seen) == []
  {
    if nbrs != [] {
      var init := nbrs[..|nbrs| - 1];
      assert forall v :: v in init ==> v in nbrs;
      FreshEmpty(init, seen);
    }
  }

  /**
   * One step of the search: every neighbour of `u` not yet seen is marked
   * seen and appended to the queue once, in neighbour order.
   */
  method ScanNeighbours(g: Graph, u: nat, seen: set<nat>, q: seq<nat>) returns (seen': set<nat>, q': seq<nat>)
    requires Valid(g) && u < g.size
    ensures forall v :: v in seen' <==> v in seen || Adjacent(g, u, v)
    ensures q' == q + Fresh(Neighbours(g, u), seen)
    ensures forall v :: v in q'[|q|..] <==> v in seen' && v !in seen
    ensures forall i, j :: |q| <= i < j < |q'| ==> q'[i] != q'[j]
  {
    seen', q' := seen, q;
    var nbrs := Neighbours(g, u);
    for j := 0 to |nbrs|
      invariant forall v :: v in seen' <==> v in seen || v in nbrs[..j]
      invariant q' == q + Fresh(nbrs[..j], seen)
    {
      var v := nbrs[j];
      assert nbrs[..j + 1][..j] == nbrs[..j] && nbrs[..j + 1][j] == v;
      if v !in seen' {
        seen' := seen' + {v};
        q' := q' + [v];
      }
    }
    assert nbrs[..|nbrs|] == nbrs;
    assert q'[|q|..] == Fresh(nbrs, seen);
    FreshMembers(nbrs, seen);
    FreshDistinct(nbrs, seen);
  }

  /**
   * The search started at `start`: the set it returns is exactly the set of
   * vertices reachable from `start` ignoring edge direction.
   */
  method UndirectedReach(g: Graph, start: nat) returns (seen: set<nat>)
    requires Valid(g) && start < g.size
    ensures forall v: nat :: v in seen <==> v < g.size && Reaches(g, start, v)
  {
    AdjacentInRange(g);
    assert IsUndirectedPath(g, [start]);
    seen := {start};
    var q := [start];
    while q != []
      invariant forall v :: v in seen ==> v < g.size && Reaches(g, start, v)
      invariant start in seen
      invariant forall v :: v in q ==> v in seen
      invariant forall u, v :: u in seen && u !in q && Adjacent(g, u, v) ==> v in seen
      decreases AllVertices(g.size) - seen, |q|
    {
      var u := q[0];
      assert u in seen;
      ghost var seen0, q0 := seen, q[1..];
      ghost var added := Fresh(Neighbours(g, u), seen0);
      FreshMembers(Neighbours(g, u), seen0);
      seen, q := ScanNeighbours(g, u, seen, q[1..]);
      assert forall v :: v in added <==> v in seen && v !in seen0;
      forall v | v in seen && v !in seen0 ensures v < g.size && Reaches(g, start, v) {
        AdjacentSymmetric(g, u, v);
        ReachesStep(g, start, u, v);
      }
      forall w, v | w in seen && w !in q && Adjacent(g, w, v) ensures v in seen {
        if w != u {
          assert w !in added && w !in q0;
        }
      }
      if seen != seen0 {
        var x :| x in seen && x !in seen0;
        RangeMember(g.size, x);
        assert x in AllVertices(g.size) - seen0;
      } else {
        FreshEmpty(Neighbours(g, u), seen0);
      }
    }
    forall v: nat | v < g.size && Reaches(g, start, v) ensures v in seen {
      ClosedHoldsReached(g, seen, start, v);
    }
  }
}
