/**
 * Edges as multisets of (source, target) pairs: the edges still listed in a
 * table of out-lists, and the consecutive pairs of a vertex sequence. These
 * are what "each edge used once" is stated with.
 */
module EdgeMultisets {
  import opened Graphs

  /** The pairs (u, v) for each v on the list `l`. */
  function RowPairs(u: nat, l: seq<nat>): multiset<(nat, nat)>
  {
    RowPairsUpTo(u, l, |l|)
  }

  /** The pairs (u, l[i]) for i below `k`. */
  function RowPairsUpTo(u: nat, l: seq<nat>, k: nat): multiset<(nat, nat)>
    requires k <= |l|
  {
    if k == 0 then multiset{} else RowPairsUpTo(u, l, k - 1) + multiset{(u, l[k - 1])}
  }

  /** The pairs listed by the first `k` out-lists of `lists`. */
  function ListedPairs(lists: seq<seq<nat>>, k: nat): multiset<(nat, nat)>
    requires k <= |lists|
  {
    if k == 0 then multiset{} else ListedPairs(lists, k - 1) + RowPairs(k - 1, lists[k - 1])
  }

  /** How many of the first `k` lists mention `x`, counting repeats: the in-degree of `x`. */
  function InCount(lists: seq<seq<nat>>, x: nat, k: nat): nat
    requires k <= |lists|
  {
    if k == 0 then 0 else InCount(lists, x, k - 1) + multiset(lists[k - 1])[x]
  }

  function SumLengths(lists: seq<seq<nat>>, k: nat): nat
    requires k <= |lists|
  {
    if k == 0 then 0 else SumLengths(lists, k - 1) + |lists[k - 1]|
  }

  /** Every edge of the graph, once per listing. */
  function AllEdges(g: Graph): multiset<(nat, nat)> {
    ListedPairs(g.outs, |g.outs|)
  }

  /** The number of edges: the sum of the out-degrees. */
  function EdgeCount(g: Graph): nat {
    SumLengths(g.outs, |g.outs|)
  }

  /** The consecutive pairs (p[k], p[k+1]) of a vertex sequence. */
  function Pairs(p: seq<nat>): multiset<(nat, nat)>
  {
    if |p| == 0 then multiset{} else PairsUpTo(p, |p| - 1)
  }

  /** The pairs (p[i], p[i+1]) for i below `k`. */
  function PairsUpTo(p: seq<nat>, k: nat): multiset<(nat, nat)>
    requires k < |p|
  {
    if k == 0 then multiset{} else PairsUpTo(p, k - 1) + multiset{(p[k - 1], p[k])}
  }

  lemma {:induction false} RowPairsUpToCount(u: nat, l: seq<nat>, k: nat, a: nat, b: nat)
    requires k <= |l|
    ensures RowPairsUpTo(u, l, k)[(a, b)] == if a == u then multiset(l[..k])[b] else 0
  {
    if k > 0 {
      RowPairsUpToCount(u, l, k - 1, a, b);
      assert l[..k] == l[..k - 1] + [l[k - 1]];
    }
  }

  lemma RowPairsCount(u: nat, l: seq<nat>, a: nat, b: nat)
    ensures RowPairs(u, l)[(a, b)] == if a == u then multiset(l)[b] else 0
  {
    RowPairsUpToCount(u, l, |l|, a, b);
    assert l[..|l|] == l;
  }

  lemma {:induction false} RowPairsUpToSize(u: nat, l: seq<nat>, k: nat)
    requires k <= |l|
    ensures |RowPairsUpTo(u, l, k)| == k
  {
    if k > 0 {
      RowPairsUpToSize(u, l, k - 1);
    }
  }

  lemma RowPairsSize(u: nat, l: seq<nat>)
    ensures |RowPairs(u, l)| == |l|
  {
    RowPairsUpToSize(u, l, |l|);
  }

  lemma {:induction false} RowPairsUpToDropHead(u: nat, l: seq<nat>, k: nat)
    requires 1 <= k <= |l|
    ensures RowPairsUpTo(u, l, k) == multiset{(u, l[0])} + RowPairsUpTo(u, l[1..], k - 1)
  {
    if k > 1 {
      RowPairsUpToDropHead(u, l, k - 1);
      assert l[1..][k - 2] == l[k - 1];
    }
  }

  lemma RowPairsDropHead(u: nat, l: seq<nat>)
    requires |l| >= 1
    ensures RowPairs(u, l) == multiset{(u, l[0])} + RowPairs(u, l[1..])
  {
    RowPairsUpToDropHead(u, l, |l|);
  }

  /** A pair is listed exactly as often as its target occurs on its source's list. */
  lemma {:induction false} ListedPairsCount(lists: seq<seq<nat>>, k: nat, a: nat, b: nat)
    requires k <= |lists|
    ensures ListedPairs(lists, k)[(a, b)] == if a < k then multiset(lists[a])[b] else 0
  {
    if k > 0 {
      var prev := ListedPairs(lists, k - 1);
      var row := RowPairs(k - 1, lists[k - 1]);
      assert ListedPairs(lists, k) == prev + row;
      ListedPairsCount(lists, k - 1, a, b);
      RowPairsCount(k - 1, lists[k - 1], a, b);
      if a + 1 == k {
        assert prev[(a, b)] == 0 && row[(a, b)] == multiset(lists[a])[b];
      } else {
        assert row[(a, b)] == 0;
      }
    }
  }

  lemma ListedPairsStep(lists: seq<seq<nat>>, k: nat)
    requires 0 < k <= |lists|
    ensures ListedPairs(lists, k) == ListedPairs(lists, k - 1) + RowPairs(k - 1, lists[k - 1])
  {
  }

  lemma SumLengthsStep(lists: seq<seq<nat>>, k: nat)
    requires 0 < k <= |lists|
    ensures SumLengths(lists, k) == SumLengths(lists, k - 1) + |lists[k - 1]|
  {
  }

  /**
   * Sizes add up over a multiset union. Stated apart, over abstract
   * multisets, only to keep the prover away from the definitions the
   * arguments come from.
   */
  lemma CardSum(a: multiset<(nat, nat)>, b: multiset<(nat, nat)>, total: multiset<(nat, nat)>, m: nat, n: nat)
    requires |a| == m && |b| == n && total == a + b
    ensures |total| == m + n
  {
  }

  lemma {:induction false} ListedPairsSize(lists: seq<seq<nat>>, k: nat)
    requires k <= |lists|
    ensures |ListedPairs(lists, k)| == SumLengths(lists, k)
  {
    if k > 0 {
      var l := lists[k - 1];
      ListedPairsSize(lists, k - 1);
      RowPairsSize(k - 1, l);
      ListedPairsStep(lists, k);
      SumLengthsStep(lists, k);
      CardSum(ListedPairs(lists, k - 1), RowPairs(k - 1, l), ListedPairs(lists, k), SumLengths(lists, k - 1), |l|);
    }
  }

  lemma ListedPairsMember(lists: seq<seq<nat>>, a: nat, b: nat)
    ensures (a, b) in ListedPairs(lists, |lists|) <==> a < |lists| && b in lists[a]
  {
    ListedPairsCount(lists, |lists|, a, b);
  }

  /**
   * Multiset union is associative. Stated apart, over abstract multisets,
   * only to keep the prover away from the definitions the arguments come
   * from.
   */
  lemma UnionAssoc(a: multiset<(nat, nat)>, b: multiset<(nat, nat)>, c: multiset<(nat, nat)>)
    ensures (a + b) + c == a + (b + c)
  {
  }

  /**
   * The step of `ListedPairsDropHead` at the shortened list, as multiset
   * algebra. Stated apart, over abstract multisets, only to keep the prover
   * away from the definitions the arguments come from.
   */
  lemma RegroupAtHead(now: multiset<(nat, nat)>, prev: multiset<(nat, nat)>, row: multiset<(nat, nat)>,
                      before: multiset<(nat, nat)>, none: multiset<(nat, nat)>, head: multiset<(nat, nat)>,
                      rest: multiset<(nat, nat)>, after: multiset<(nat, nat)>)
    requires now == prev + row && prev == before + none && none == multiset{}
    requires row == head + rest && after == before + rest
    ensures now == after + head
  {
  }

  /**
   * The step of `ListedPairsDropHead` at any other list, as multiset
   * algebra. Stated apart, over abstract multisets, only to keep the prover
   * away from the definitions the arguments come from.
   */
  lemma RegroupElsewhere(now: multiset<(nat, nat)>, prev: multiset<(nat, nat)>, row: multiset<(nat, nat)>,
                         before: multiset<(nat, nat)>, extra: multiset<(nat, nat)>, after: multiset<(nat, nat)>)
    requires now == prev + row && prev == before + extra && after == before + row
    ensures now == after + extra
  {
  }

  /** Taking the head off one list removes exactly that one pair. */
  lemma {:induction false} ListedPairsDropHead(lists: seq<seq<nat>>, u: nat, k: nat)
    requires u < |lists| && |lists[u]| > 0 && k <= |lists|
    ensures ListedPairs(lists, k)
      == ListedPairs(lists[u := lists[u][1..]], k) + (if u < k then multiset{(u, lists[u][0])} else multiset{})
  {
    if k > 0 {
      ListedPairsDropHead(lists, u, k - 1);
      var lists' := lists[u := lists[u][1..]];
      var head: multiset<(nat, nat)> := multiset{(u, lists[u][0])};
      var extra: multiset<(nat, nat)> := if u < k - 1 then head else multiset{};
      ListedPairsStep(lists, k);
      ListedPairsStep(lists', k);
      if k - 1 == u {
        assert lists'[k - 1] == lists[u][1..];
        RowPairsDropHead(u, lists[u]);
        RegroupAtHead(ListedPairs(lists, k), ListedPairs(lists, k - 1), RowPairs(u, lists[u]),
                      ListedPairs(lists', k - 1), extra, head, RowPairs(u, lists[u][1..]), ListedPairs(lists', k));
      } else {
        assert lists'[k - 1] == lists[k - 1];
        RegroupElsewhere(ListedPairs(lists, k), ListedPairs(lists, k - 1), RowPairs(k - 1, lists[k - 1]),
                         ListedPairs(lists', k - 1), extra, ListedPairs(lists', k));
      }
    }
  }

  /** Taking the head `y` off one list lowers the in-count of `y` alone, by one. */
  lemma {:induction false} InCountDropHead(lists: seq<seq<nat>>, u: nat, x: nat, k: nat)
    requires u < |lists| && |lists[u]| > 0 && k <= |lists|
    ensures InCount(lists, x, k)
      == InCount(lists[u := lists[u][1..]], x, k) + (if u < k && lists[u][0] == x then 1 else 0)
  {
    if k > 0 {
      InCountDropHead(lists, u, x, k - 1);
      if k - 1 == u {
        assert lists[u] == [lists[u][0]] + lists[u][1..];
      }
    }
  }

  /** A vertex with in-count zero is on no list. */
  lemma {:induction false} InCountZero(lists: seq<seq<nat>>, x: nat, k: nat)
    requires k <= |lists| && InCount(lists, x, k) == 0
    ensures forall u :: 0 <= u < k ==> x !in lists[u]
  {
    if k > 0 {
      InCountZero(lists, x, k - 1);
    }
  }

  lemma {:induction false} IncreasingCount(l: seq<nat>, x: nat)
    requires StrictlyIncreasing(l)
    ensures multiset(l)[x] == if x in l then 1 else 0
  {
    if |l| > 0 {
      IncreasingCount(l[1..], x);
      assert l == [l[0]] + l[1..];
      if x == l[0] {
        assert x !in l[1..];
      }
    }
  }

  /** Vertex `x` occurs on the out-list of `u` once when the cell `m[u][x]` is positive, otherwise not at all. */
  lemma OutRowCount(g: Graph, u: nat, x: nat)
    requires Valid(g) && u < g.size && x < g.size
    ensures multiset(g.outs[u])[x] == if g.matrix[u][x] > 0 then 1 else 0
  {
    var m := g.matrix;
    assert g.outs[u] == RowTargets(m, u, |m|);
    RowTargetsSpec(m, u, |m|);
    IncreasingCount(g.outs[u], x);
  }

  /** The in-count of `x` over the first `r` lists is the length of column `x`'s prefix, when each list holds `x` as its matrix row says. */
  lemma {:induction false} InCountColumn(lists: seq<seq<nat>>, m: Matrix, x: nat, r: nat)
    requires IsSquare(m) && x < |m| && r <= |m| == |lists|
    requires forall u :: 0 <= u < r ==> multiset(lists[u])[x] == if m[u][x] > 0 then 1 else 0
    ensures InCount(lists, x, r) == |ColumnSources(m, x, r)|
  {
    if r > 0 {
      InCountColumn(lists, m, x, r - 1);
      assert InCount(lists, x, r) == InCount(lists, x, r - 1) + multiset(lists[r - 1])[x];
      assert |ColumnSources(m, x, r)| == |ColumnSources(m, x, r - 1)| + (if m[r - 1][x] > 0 then 1 else 0);
    }
  }

  /** Before anything is consumed, the in-count of a vertex is its in-degree. */
  lemma InCountIsInDegree(g: Graph, x: nat)
    requires Valid(g) && x < g.size
    ensures InCount(g.outs, x, g.size) == |g.ins[x]|
  {
    forall u | 0 <= u < g.size ensures multiset(g.outs[u])[x] == if g.matrix[u][x] > 0 then 1 else 0 {
      OutRowCount(g, u, x);
    }
    InCountColumn(g.outs, g.matrix, x, g.size);
  }

  /** Every edge is listed exactly once. */
  lemma AllEdgesSimple(g: Graph, a: nat, b: nat)
    requires Valid(g)
    ensures AllEdges(g)[(a, b)] == if Edge(g, a, b) then 1 else 0
  {
    BuildSpec(g.matrix);
    ListedPairsCount(g.outs, |g.outs|, a, b);
    if a < |g.outs| {
      IncreasingCount(g.outs[a], b);
    }
  }

  lemma {:induction false} PairsUpToSize(p: seq<nat>, k: nat)
    requires k < |p|
    ensures |PairsUpTo(p, k)| == k
  {
    if k > 0 {
      PairsUpToSize(p, k - 1);
    }
  }

  lemma PairsSize(p: seq<nat>)
    requires |p| >= 1
    ensures |Pairs(p)| == |p| - 1
  {
    PairsUpToSize(p, |p| - 1);
  }

  /** Two sequences that agree up to index `k` have the same pairs below `k`. */
  lemma {:induction false} PairsUpToAgree(p: seq<nat>, q: seq<nat>, k: nat)
    requires k < |p| && k < |q| && forall i :: 0 <= i <= k ==> p[i] == q[i]
    ensures PairsUpTo(p, k) == PairsUpTo(q, k)
  {
    if k > 0 {
      PairsUpToAgree(p, q, k - 1);
      assert p[k - 1] == q[k - 1] && p[k] == q[k];
    }
  }

  lemma {:induction false} PairsUpToCons(x: nat, p: seq<nat>, k: nat)
    requires k < |p|
    ensures PairsUpTo([x] + p, k + 1) == multiset{(x, p[0])} + PairsUpTo(p, k)
  {
    var xp := [x] + p;
    var first: multiset<(nat, nat)> := multiset{(x, p[0])};
    if k > 0 {
      PairsUpToCons(x, p, k - 1);
      var e: multiset<(nat, nat)> := multiset{(p[k - 1], p[k])};
      assert xp[k] == p[k - 1] && xp[k + 1] == p[k];
      assert PairsUpTo(xp, k + 1) == (first + PairsUpTo(p, k - 1)) + e;
      UnionAssoc(first, PairsUpTo(p, k - 1), e);
    } else {
      assert xp[0] == x && xp[1] == p[0];
    }
  }

  lemma PairsCons(x: nat, p: seq<nat>)
    requires |p| >= 1
    ensures Pairs([x] + p) == multiset{(x, p[0])} + Pairs(p)
  {
    PairsUpToCons(x, p, |p| - 1);
  }

  lemma PairsSnoc(p: seq<nat>, v: nat)
    requires |p| >= 1
    ensures Pairs(p + [v]) == Pairs(p) + multiset{(p[|p| - 1], v)}
  {
    var pv := p + [v];
    PairsUpToAgree(p, pv, |p| - 1);
    assert pv[|p| - 1] == p[|p| - 1] && pv[|p|] == v;
  }

  /** Consuming the head of one list shrinks the listed pairs by exactly that pair. */
  lemma ConsumeHead(lists: seq<seq<nat>>, u: nat)
    requires u < |lists| && |lists[u]| > 0
    ensures ListedPairs(lists, |lists|) == ListedPairs(lists[u := lists[u][1..]], |lists|) + multiset{(u, lists[u][0])}
    ensures |ListedPairs(lists[u := lists[u][1..]], |lists|)| < |ListedPairs(lists, |lists|)|
  {
    ListedPairsDropHead(lists, u, |lists|);
  }

  lemma {:induction false} PairsUpToMember(p: seq<nat>, k: nat, i: nat)
    requires i < k < |p|
    ensures (p[i], p[i + 1]) in PairsUpTo(p, k)
  {
    if i + 1 < k {
      PairsUpToMember(p, k - 1, i);
    }
  }

  lemma PairsMember(p: seq<nat>, i: nat)
    requires i + 1 < |p|
    ensures (p[i], p[i + 1]) in Pairs(p)
  {
    PairsUpToMember(p, |p| - 1, i);
  }

  lemma {:induction false} PairsUpToWitness(p: seq<nat>, k: nat, a: nat, b: nat)
    requires k < |p| && (a, b) in PairsUpTo(p, k)
    ensures exists i :: 0 <= i < k && p[i] == a && p[i + 1] == b
  {
    if (a, b) != (p[k - 1], p[k]) {
      PairsUpToWitness(p, k - 1, a, b);
    }
  }

  /** Every pair of `p` is some consecutive pair of it. */
  lemma PairsWitness(p: seq<nat>, a: nat, b: nat)
    requires (a, b) in Pairs(p)
    ensures exists k :: 0 <= k && k + 1 < |p| && p[k] == a && p[k + 1] == b
  {
    PairsUpToWitness(p, |p| - 1, a, b);
  }

  /** A pair at two positions below `k` is counted at least twice. */
  lemma {:induction false} PairsUpToTwice(p: seq<nat>, k: nat, a: nat, b: nat)
    requires a < b < k < |p|
    ensures (p[a], p[a + 1]) == (p[b], p[b + 1]) ==> PairsUpTo(p, k)[(p[a], p[a + 1])] >= 2
  {
    if b + 1 < k {
      PairsUpToTwice(p, k - 1, a, b);
    } else {
      PairsUpToMember(p, k - 1, a);
    }
  }

  /** A sequence whose pairs repeat nothing has pairwise different consecutive pairs. */
  lemma PairsDistinct(p: seq<nat>)
    requires forall e :: Pairs(p)[e] <= 1
    ensures forall a, b :: 0 <= a < b && b + 1 < |p| ==> (p[a], p[a + 1]) != (p[b], p[b + 1])
  {
    forall a, b | 0 <= a < b && b + 1 < |p|
      ensures (p[a], p[a + 1]) != (p[b], p[b + 1])
    {
      assert Pairs(p) == PairsUpTo(p, |p| - 1);
      PairsUpToTwice(p, |p| - 1, a, b);
    }
  }

  /** A sequence whose pairs are all edges of the graph is a walk along edges. */
  lemma PairsAreEdges(g: Graph, p: seq<nat>)
    requires Pairs(p) <= AllEdges(g)
    ensures forall k :: 0 <= k && k + 1 < |p| ==> Edge(g, p[k], p[k + 1])
  {
    forall k | 0 <= k && k + 1 < |p|
      ensures Edge(g, p[k], p[k + 1])
    {
      PairsMember(p, k);
      ListedPairsMember(g.outs, p[k], p[k + 1]);
    }
  }
}
