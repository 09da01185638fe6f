/**
 * The construction phase of the Eulerian solver: Hierholzer's algorithm with
 * an explicit stack, consuming a private FIFO copy of every out-list and
 * collecting vertices in the order they are popped.
 */
module Hierholzer {
  import opened Graphs
  import opened EdgeMultisets
  import opened Connectivity

  /** `s` read back to front. */
  function Reverse(s: seq<nat>): (r: seq<nat>)
    ensures |r| == |s|
    ensures forall i :: 0 <= i < |s| ==> r[i] == s[|s| - 1 - i]
  {
    seq(|s|, i requires 0 <= i < |s| => s[|s| - 1 - i])
  }

  lemma ReverseAppend(s: seq<nat>, x: nat)
    ensures Reverse(s + [x]) == [x] + Reverse(s)
  {
  }

  /**
   * out-degree minus in-degree of the remaining edges, as the state of the
   * loop forces it: +1 at the top of the stack, -1 at the vertex the next
   * popped vertex must be, both cancelling when they coincide.
   */
  function Balance(stack: seq<nat>, tgt: nat, x: nat): int {
    if stack == [] then 0
    else (if x == stack[|stack| - 1] then 1 else 0) - (if x == tgt then 1 else 0)
  }

  /** The consumed edge that links the stack to the popped vertices. */
  function Anchor(stack: seq<nat>, circuit: seq<nat>, tgt: nat): multiset<(nat, nat)> {
    if stack != [] && circuit != [] then multiset{(tgt, circuit[|circuit| - 1])} else multiset{}
  }

  function Top(stack: seq<nat>): nat
    requires stack != []
  {
    stack[|stack| - 1]
  }

  /**
   * The loop invariant has five parts: `Shape`, `Accounted`, `Walks`,
   * `Balanced` and `Finished`, joined in `Inv`. `rem` holds the unconsumed
   * out-edges (the private queues), `stack` and `circuit` are the
   * algorithm's two lists, and `tgt` is the vertex the next popped vertex
   * must be. `Shape` bounds every vertex and fixes the two lists' ends.
   */
  ghost predicate Shape(g: Graph, s: nat, t: nat, rem: seq<seq<nat>>, stack: seq<nat>, circuit: seq<nat>, tgt: nat)
  {
    var n := g.size;
    && |rem| == n
    && (forall u, x :: 0 <= u < n && x in rem[u] ==> x < n)
    && (forall k :: 0 <= k < |stack| ==> stack[k] < n)
    && (forall k :: 0 <= k < |circuit| ==> circuit[k] < n)
    && tgt < n
    && (stack != [] ==> stack[0] == s)
    && (stack == [] ==> circuit != [] && circuit[|circuit| - 1] == s)
    && (circuit == [] ==> tgt == t && stack != [])
    && (circuit != [] ==> circuit[0] == t)
  }

  /** `used` holds the consumed edges: with the unconsumed ones they make up every edge. */
  ghost predicate Accounted(g: Graph, rem: seq<seq<nat>>, used: multiset<(nat, nat)>) {
    used + ListedPairs(rem, |rem|) == AllEdges(g)
  }

  /**
   * The consumed edges are exactly the walk on the stack, the anchor edge
   * from `tgt` to the last popped vertex, and the walk the popped vertices
   * form read backwards.
   */
  ghost predicate Walks(stack: seq<nat>, circuit: seq<nat>, tgt: nat, used: multiset<(nat, nat)>) {
    used == Pairs(stack) + Anchor(stack, circuit, tgt) + Pairs(Reverse(circuit))
  }

  /** The remaining edges are balanced everywhere except at the top of the stack and at `tgt`. */
  ghost predicate Balanced(rem: seq<seq<nat>>, stack: seq<nat>, tgt: nat) {
    forall x :: 0 <= x < |rem| ==> |rem[x]| - InCount(rem, x, |rem|) == Balance(stack, tgt, x)
  }

  /** A popped vertex has no unconsumed out-edge. */
  ghost predicate Finished(rem: seq<seq<nat>>, circuit: seq<nat>) {
    forall k :: 0 <= k < |circuit| ==> circuit[k] < |rem| && rem[circuit[k]] == []
  }

  /** The parts of the loop invariant together. */
  ghost predicate Inv(g: Graph, s: nat, t: nat, rem: seq<seq<nat>>, stack: seq<nat>, circuit: seq<nat>, tgt: nat,
                      used: multiset<(nat, nat)>)
  {
    && Shape(g, s, t, rem, stack, circuit, tgt)
    && Accounted(g, rem, used)
    && Walks(stack, circuit, tgt, used)
    && Balanced(rem, stack, tgt)
    && Finished(rem, circuit)
  }

  lemma InitInv(g: Graph, s: nat, t: nat)
    requires Valid(g) && s < g.size && t < g.size
    requires forall x :: 0 <= x < g.size ==>
      |g.outs[x]| - |g.ins[x]| == (if x == s then 1 else 0) - (if x == t then 1 else 0)
    ensures Inv(g, s, t, g.outs, [s], [], t, multiset{})
  {
    BuildSpec(g.matrix);
    forall x | 0 <= x < g.size
      ensures |g.outs[x]| - InCount(g.outs, x, g.size) == Balance([s], t, x)
    {
      InCountIsInDegree(g, x);
    }
  }

  /** The queue of `u` with its head consumed. */
  function Consume(rem: seq<seq<nat>>, u: nat): seq<seq<nat>>
    requires u < |rem| && rem[u] != []
  {
    rem[u := rem[u][1..]]
  }

  lemma PushShape(g: Graph, s: nat, t: nat, rem: seq<seq<nat>>, stack: seq<nat>, circuit: seq<nat>, tgt: nat)
    requires Shape(g, s, t, rem, stack, circuit, tgt)
    requires stack != [] && rem[Top(stack)] != []
    ensures Shape(g, s, t, Consume(rem, Top(stack)), stack + [rem[Top(stack)][0]], circuit, tgt)
  {
    var u := Top(stack);
    assert rem[u][0] in rem[u];
    forall u', x | 0 <= u' < g.size && x in Consume(rem, u)[u'] ensures x < g.size {
      if u' == u {
        assert x in rem[u];
      }
    }
  }

  /**
   * Moving one edge from the unconsumed to the consumed side keeps the sum.
   * Stated apart, over abstract multisets, only to keep the prover away from
   * the definitions the arguments come from.
   */
  lemma MoveOne(used: multiset<(nat, nat)>, listed: multiset<(nat, nat)>, listed': multiset<(nat, nat)>,
                e: multiset<(nat, nat)>, all: multiset<(nat, nat)>)
    requires used + listed == all && listed == listed' + e
    ensures (used + e) + listed' == all
  {
  }

  lemma PushAccounted(g: Graph, rem: seq<seq<nat>>, used: multiset<(nat, nat)>, u: nat)
    requires Accounted(g, rem, used) && u < |rem| && rem[u] != []
    ensures Accounted(g, Consume(rem, u), used + multiset{(u, rem[u][0])})
    ensures |ListedPairs(Consume(rem, u), |rem|)| < |ListedPairs(rem, |rem|)|
  {
    ConsumeHead(rem, u);
    MoveOne(used, ListedPairs(rem, |rem|), ListedPairs(Consume(rem, u), |rem|), multiset{(u, rem[u][0])}, AllEdges(g));
  }

  lemma PushWalks(stack: seq<nat>, circuit: seq<nat>, tgt: nat, used: multiset<(nat, nat)>, v: nat)
    requires Walks(stack, circuit, tgt, used) && stack != []
    ensures Walks(stack + [v], circuit, tgt, used + multiset{(Top(stack), v)})
  {
    PairsSnoc(stack, v);
    assert Anchor(stack + [v], circuit, tgt) == Anchor(stack, circuit, tgt);
  }

  lemma PushBalanced(rem: seq<seq<nat>>, stack: seq<nat>, tgt: nat)
    requires Balanced(rem, stack, tgt)
    requires stack != [] && Top(stack) < |rem| && rem[Top(stack)] != []
    ensures Balanced(Consume(rem, Top(stack)), stack + [rem[Top(stack)][0]], tgt)
  {
    var u := Top(stack);
    forall x | 0 <= x < |rem|
      ensures |Consume(rem, u)[x]| - InCount(Consume(rem, u), x, |rem|) == Balance(stack + [rem[u][0]], tgt, x)
    {
      InCountDropHead(rem, u, x, |rem|);
    }
  }

  lemma PushFinished(rem: seq<seq<nat>>, circuit: seq<nat>, u: nat)
    requires Finished(rem, circuit) && u < |rem| && rem[u] != []
    ensures Finished(Consume(rem, u), circuit)
  {
    forall k | 0 <= k < |circuit| ensures Consume(rem, u)[circuit[k]] == [] {
      assert circuit[k] != u;
    }
  }

  lemma PopFinished(rem: seq<seq<nat>>, circuit: seq<nat>, u: nat)
    requires Finished(rem, circuit) && u < |rem| && rem[u] == []
    ensures Finished(rem, circuit + [u])
  {
  }

  /** A top vertex with nothing left to consume is the vertex `tgt`. */
  lemma PopTarget(rem: seq<seq<nat>>, stack: seq<nat>, tgt: nat)
    requires Balanced(rem, stack, tgt)
    requires stack != [] && Top(stack) < |rem| && rem[Top(stack)] == []
    ensures Top(stack) == tgt
  {
    assert Balance(stack, tgt, Top(stack)) == 0 - InCount(rem, Top(stack), |rem|);
  }

  /** The vertex `tgt` becomes the top of the shortened stack, if any. */
  function NextTarget(stack: seq<nat>, tgt: nat): nat
    requires stack != []
  {
    if |stack| > 1 then stack[|stack| - 2] else tgt
  }

  lemma PopShape(g: Graph, s: nat, t: nat, rem: seq<seq<nat>>, stack: seq<nat>, circuit: seq<nat>, tgt: nat)
    requires Shape(g, s, t, rem, stack, circuit, tgt)
    requires stack != [] && Top(stack) == tgt
    ensures Shape(g, s, t, rem, stack[..|stack| - 1], circuit + [Top(stack)], NextTarget(stack, tgt))
  {
  }

  /** Popping the stack drops its last pair. */
  lemma PopStackPairs(stack: seq<nat>)
    requires stack != []
    ensures Pairs(stack) == Pairs(stack[..|stack| - 1])
      + (if |stack| > 1 then multiset{(stack[|stack| - 2], Top(stack))} else multiset{})
  {
    var stack' := stack[..|stack| - 1];
    if |stack| > 1 {
      assert stack == stack' + [Top(stack)];
      PairsSnoc(stack', Top(stack));
    } else {
      assert Pairs(stack) == PairsUpTo(stack, 0);
    }
  }

  /** Appending `u` to the popped vertices adds the pair from `u` to the previous one, read backwards. */
  lemma PushCircuitPairs(circuit: seq<nat>, u: nat)
    ensures Pairs(Reverse(circuit + [u]))
      == (if circuit != [] then multiset{(u, circuit[|circuit| - 1])} else multiset{}) + Pairs(Reverse(circuit))
  {
    ReverseAppend(circuit, u);
    if circuit != [] {
      PairsCons(u, Reverse(circuit));
    } else {
      assert Reverse(circuit + [u]) == [u];
      assert Pairs([u]) == PairsUpTo([u], 0);
      assert Pairs(Reverse(circuit)) == multiset{};
    }
  }

  /**
   * A regrouping of a multiset sum used by the pop step. Stated apart, over
   * abstract multisets, only to keep the prover away from the definitions
   * the arguments come from.
   */
  lemma Regroup(used: multiset<(nat, nat)>, p: multiset<(nat, nat)>, e: multiset<(nat, nat)>,
                f: multiset<(nat, nat)>, r: multiset<(nat, nat)>)
    requires used == (p + e) + f + r
    ensures used == p + e + (f + r)
  {
  }

  lemma PopWalks(stack: seq<nat>, circuit: seq<nat>, tgt: nat, used: multiset<(nat, nat)>)
    requires Walks(stack, circuit, tgt, used)
    requires stack != [] && Top(stack) == tgt
    ensures Walks(stack[..|stack| - 1], circuit + [Top(stack)], NextTarget(stack, tgt), used)
  {
    var u := Top(stack);
    var stack' := stack[..|stack| - 1];
    var tgt' := NextTarget(stack, tgt);
    var circuit' := circuit + [u];
    PopStackPairs(stack);
    PushCircuitPairs(circuit, u);
    var e := if |stack| > 1 then multiset{(stack[|stack| - 2], u)} else multiset{};
    var f := if circuit != [] then multiset{(u, circuit[|circuit| - 1])} else multiset{};
    assert Anchor(stack, circuit, tgt) == f;
    assert Anchor(stack', circuit', tgt') == e;
    Regroup(used, Pairs(stack'), e, f, Pairs(Reverse(circuit)));
  }

  lemma PopBalanced(rem: seq<seq<nat>>, stack: seq<nat>, tgt: nat)
    requires Balanced(rem, stack, tgt)
    requires stack != [] && Top(stack) == tgt
    ensures Balanced(rem, stack[..|stack| - 1], NextTarget(stack, tgt))
  {
    forall x | 0 <= x < |rem|
      ensures |rem[x]| - InCount(rem, x, |rem|) == Balance(stack[..|stack| - 1], NextTarget(stack, tgt), x)
    {
      assert Balance(stack, tgt, x) == 0;
    }
  }

  /**
   * When the loop ends every vertex on the result has no unconsumed edge in
   * either direction, so the vertices of the result are closed under
   * adjacency.
   */
  lemma PathClosed(g: Graph, rem: seq<seq<nat>>, path: seq<nat>, used: multiset<(nat, nat)>)
    requires Valid(g) && |rem| == g.size
    requires used + ListedPairs(rem, |rem|) == AllEdges(g)
    requires used == Pairs(path)
    requires forall x :: 0 <= x < |rem| ==> |rem[x]| == InCount(rem, x, |rem|)
    requires forall k :: 0 <= k < |path| ==> path[k] < |rem| && rem[path[k]] == []
    ensures Closed(g, set x | x in path)
  {
    var n := g.size;
    BuildSpec(g.matrix);
    var c := set x | x in path;
    forall u: nat, v: nat | u in c && Adjacent(g, u, v) ensures v in c {
      ListedPairsMember(g.outs, u, v);
      ListedPairsMember(rem, u, v);
      ListedPairsMember(g.outs, v, u);
      ListedPairsMember(rem, v, u);
      if v in g.outs[u] {
        assert (u, v) in used;
        PairsVertices(path, u, v);
      } else {
        assert u in g.outs[v];
        InCountZero(rem, u, n);
        assert (v, u) in used;
        PairsVertices(path, v, u);
      }
    }
  }

  /**
   * A closed set of vertices holding the start holds every vertex with an
   * edge, when all of those are connected to the start; so every remaining
   * out-edge, which would leave such a vertex, has been consumed.
   */
  lemma AllConsumed(g: Graph, s: nat, f: nat, rem: seq<seq<nat>>, c: set<nat>)
    requires Valid(g) && |rem| == g.size && Closed(g, c) && s in c
    requires ListedPairs(rem, |rem|) <= AllEdges(g)
    requires forall x :: x in c ==> x < |rem| && rem[x] == []
    requires Reaches(g, f, s) && forall v :: 0 <= v < g.size && NonIsolated(g, v) ==> Reaches(g, f, v)
    ensures ListedPairs(rem, |rem|) == multiset{}
  {
    var p :| IsUndirectedPath(g, p) && p[0] == f && p[|p| - 1] == s;
    ClosedPath(g, c, p, |p| - 1);
    if ListedPairs(rem, |rem|) != multiset{} {
      var e :| e in ListedPairs(rem, |rem|);
      ListedPairsMember(rem, e.0, e.1);
      ListedPairsMember(g.outs, e.0, e.1);
      BuildSpec(g.matrix);
      assert e.0 < g.size && NonIsolated(g, e.0);
      ClosedHoldsReached(g, c, f, e.0);
      assert false;
    }
  }

  /** The loop has ended: the result's pairs are all the edges of the graph. */
  lemma Complete(g: Graph, s: nat, t: nat, f: nat, rem: seq<seq<nat>>, circuit: seq<nat>, tgt: nat,
                 used: multiset<(nat, nat)>)
    requires Valid(g)
    requires Inv(g, s, t, rem, [], circuit, tgt, used)
    requires Reaches(g, f, s) && forall v :: 0 <= v < g.size && NonIsolated(g, v) ==> Reaches(g, f, v)
    ensures var path := Reverse(circuit);
      && |path| >= 1 && path[0] == s && path[|path| - 1] == t
      && (forall k :: 0 <= k < |path| ==> path[k] < g.size)
      && Pairs(path) == AllEdges(g)
  {
    var path := Reverse(circuit);
    assert used == Pairs(path);
    forall k | 0 <= k < |path| ensures path[k] < |rem| && rem[path[k]] == [] {
      assert path[k] == circuit[|circuit| - 1 - k];
    }
    PathClosed(g, rem, path, used);
    assert path[0] == s;
    var c := set x | x in path;
    AllConsumed(g, s, f, rem, c);
    forall k | 0 <= k < |path| ensures path[k] < g.size {
      assert path[k] == circuit[|circuit| - 1 - k];
    }
  }

  /** Both ends of a consecutive pair lie on the sequence. */
  lemma PairsVertices(p: seq<nat>, a: nat, b: nat)
    requires (a, b) in Pairs(p)
    ensures a in p && b in p
  {
    PairsWitness(p, a, b);
    var k :| 0 <= k && k + 1 < |p| && p[k] == a && p[k + 1] == b;
  }

  /** Taking the next unconsumed edge out of the top of the stack keeps the invariant and consumes an edge. */
  lemma PushInv(g: Graph, s: nat, t: nat, rem: seq<seq<nat>>, stack: seq<nat>, circuit: seq<nat>, tgt: nat,
                used: multiset<(nat, nat)>)
    requires Inv(g, s, t, rem, stack, circuit, tgt, used)
    requires stack != [] && Top(stack) < |rem| && rem[Top(stack)] != []
    ensures var u := Top(stack);
            var v := rem[u][0];
      && Inv(g, s, t, Consume(rem, u), stack + [v], circuit, tgt, used + multiset{(u, v)})
      && |ListedPairs(Consume(rem, u), |rem|)| < |ListedPairs(rem, |rem|)|
  {
    PushShape(g, s, t, rem, stack, circuit, tgt);
    PushAccounted(g, rem, used, Top(stack));
    PushWalks(stack, circuit, tgt, used, rem[Top(stack)][0]);
    PushBalanced(rem, stack, tgt);
    PushFinished(rem, circuit, Top(stack));
  }

  /** Popping a top with nothing left to consume keeps the invariant. */
  lemma PopInv(g: Graph, s: nat, t: nat, rem: seq<seq<nat>>, stack: seq<nat>, circuit: seq<nat>, tgt: nat,
               used: multiset<(nat, nat)>)
    requires Inv(g, s, t, rem, stack, circuit, tgt, used)
    requires stack != [] && Top(stack) < |rem| && rem[Top(stack)] == []
    ensures Inv(g, s, t, rem, stack[..|stack| - 1], circuit + [Top(stack)], NextTarget(stack, tgt), used)
  {
    PopTarget(rem, stack, tgt);
    PopShape(g, s, t, rem, stack, circuit, tgt);
    PopWalks(stack, circuit, tgt, used);
    PopBalanced(rem, stack, tgt);
    PopFinished(rem, circuit, Top(stack));
  }

  lemma InvTop(g: Graph, s: nat, t: nat, rem: seq<seq<nat>>, stack: seq<nat>, circuit: seq<nat>, tgt: nat,
               used: multiset<(nat, nat)>)
    requires Inv(g, s, t, rem, stack, circuit, tgt, used) && stack != []
    ensures Top(stack) < |rem|
  {
  }

  /**
   * One turn of the stack loop: follow the next unconsumed edge out of the
   * top of the stack, or move the top to the popped vertices when it has
   * none left. Either fewer edges remain, or as many remain and the stack
   * is lower.
   */
  method Step(g: Graph, s: nat, ghost t: nat, rem0: seq<seq<nat>>, stack0: seq<nat>, circuit0: seq<nat>,
              ghost tgt0: nat, ghost used0: multiset<(nat, nat)>)
    returns (rem: seq<seq<nat>>, stack: seq<nat>, circuit: seq<nat>, ghost tgt: nat, ghost used: multiset<(nat, nat)>)
    requires Inv(g, s, t, rem0, stack0, circuit0, tgt0, used0) && stack0 != []
    ensures Inv(g, s, t, rem, stack, circuit, tgt, used)
    ensures |rem| == |rem0|
    ensures || |ListedPairs(rem, |rem|)| < |ListedPairs(rem0, |rem0|)|
            || (ListedPairs(rem, |rem|) == ListedPairs(rem0, |rem0|) && |stack| < |stack0|)
  {
    InvTop(g, s, t, rem0, stack0, circuit0, tgt0, used0);
    var u := Top(stack0);
    if rem0[u] != [] {
      PushInv(g, s, t, rem0, stack0, circuit0, tgt0, used0);
      var v := rem0[u][0];
      rem, stack, circuit := Consume(rem0, u), stack0 + [v], circuit0;
      tgt, used := tgt0, used0 + multiset{(u, v)};
    } else {
      PopInv(g, s, t, rem0, stack0, circuit0, tgt0, used0);
      rem, stack, circuit := rem0, stack0[..|stack0| - 1], circuit0 + [u];
      tgt, used := NextTarget(stack0, tgt0), used0;
    }
  }

  /**
   * The stack loop: take a step while the stack is non-empty.
   */
  method Drain(g: Graph, s: nat, ghost t: nat, rem0: seq<seq<nat>>, stack0: seq<nat>, circuit0: seq<nat>,
               ghost tgt0: nat, ghost used0: multiset<(nat, nat)>)
    returns (rem: seq<seq<nat>>, circuit: seq<nat>, ghost tgt: nat, ghost used: multiset<(nat, nat)>)
    requires Inv(g, s, t, rem0, stack0, circuit0, tgt0, used0)
    ensures Inv(g, s, t, rem, [], circuit, tgt, used)
    ensures Drained(g, s, t, rem, circuit)
  {
    rem, circuit, tgt, used := rem0, circuit0, tgt0, used0;
    var stack := stack0;
    while stack != []
      invariant Inv(g, s, t, rem, stack, circuit, tgt, used)
      decreases |ListedPairs(rem, |rem|)|, |stack|
    {
      rem, stack, circuit, tgt, used := Step(g, s, t, rem, stack, circuit, tgt, used);
    }
    InvDone(g, s, t, rem, circuit, tgt, used);
  }

  /** The popped vertices run from `t` back to `s`, and none has an unconsumed out-edge. */
  predicate Drained(g: Graph, s: nat, t: nat, rem: seq<seq<nat>>, circuit: seq<nat>) {
    && |rem| == g.size && circuit != [] && circuit[0] == t && circuit[|circuit| - 1] == s
    && forall k :: 0 <= k < |circuit| ==> circuit[k] < g.size && rem[circuit[k]] == []
  }

  /** With the stack empty, the loop has drained. */
  lemma InvDone(g: Graph, s: nat, t: nat, rem: seq<seq<nat>>, circuit: seq<nat>, tgt: nat, used: multiset<(nat, nat)>)
    requires Inv(g, s, t, rem, [], circuit, tgt, used)
    ensures Drained(g, s, t, rem, circuit)
  {
  }

  /**
   * The construction. With out-degree minus in-degree +1 at `s`, -1 at `t` and
   * 0 elsewhere (all 0 when `s == t`), and every vertex with an edge
   * connected to `s`, the result is an Eulerian trail from `s` to `t`: its
   * consecutive pairs are exactly the edges of the graph.
   */
  method Construct(g: Graph, s: nat, ghost t: nat, ghost f: nat) returns (path: seq<nat>)
    requires Valid(g) && s < g.size && t < g.size
    requires forall x :: 0 <= x < g.size ==>
      |g.outs[x]| - |g.ins[x]| == (if x == s then 1 else 0) - (if x == t then 1 else 0)
    requires Reaches(g, f, s) && forall v :: 0 <= v < g.size && NonIsolated(g, v) ==> Reaches(g, f, v)
    ensures |path| >= 1 && path[0] == s && path[|path| - 1] == t
    ensures forall k :: 0 <= k < |path| ==> path[k] < g.size
    ensures Pairs(path) == AllEdges(g)
  {
    InitInv(g, s, t);
    var rem, circuit, tgt, used := Drain(g, s, t, g.outs, [s], [], t, multiset{});
    Complete(g, s, t, f, rem, circuit, tgt, used);
    path := Reverse(circuit);
  }
}
