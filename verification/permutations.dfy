/**
 * All orderings of a sequence, produced in the order the standard library's
 * permutation generator emits them: by position of the first element in the
 * input, then recursively on the rest. For an increasing input that is
 * lexicographic order.
 */
module Permutations {
  import opened Graphs

  function RemoveAt(xs: seq<nat>, i: nat): seq<nat>
    requires i < |xs|
  {
    xs[..i] + xs[i + 1..]
  }

  /** `x` put in front of every sequence of `ps`. */
  function Prepend(x: nat, ps: seq<seq<nat>>): (r: seq<seq<nat>>)
    ensures |r| == |ps|
    ensures forall k :: 0 <= k < |ps| ==> r[k] == [x] + ps[k]
  {
    seq(|ps|, k requires 0 <= k < |ps| => [x] + ps[k])
  }

  function Perms(xs: seq<nat>): seq<seq<nat>>
    decreases |xs|, 1, 0
  {
    if |xs| == 0 then [[]] else PermsFrom(xs, 0)
  }

  /** The orderings of `xs` that start with `xs[j]` for some `j >= i`, grouped by `j`. */
  function PermsFrom(xs: seq<nat>, i: nat): seq<seq<nat>>
    requires i <= |xs|
    decreases |xs|, 0, |xs| - i
  {
    if i == |xs| then [] else Prepend(xs[i], Perms(RemoveAt(xs, i))) + PermsFrom(xs, i + 1)
  }

  /** Lexicographic order on vertex sequences: the first difference decides. */
  predicate LexLess(a: seq<nat>, b: seq<nat>) {
    |a| > 0 && |b| > 0 && (a[0] < b[0] || (a[0] == b[0] && LexLess(a[1..], b[1..])))
  }

  predicate Sorted(ps: seq<seq<nat>>) {
    forall i, j :: 0 <= i < j < |ps| ==> LexLess(ps[i], ps[j])
  }

  lemma RemoveAtMultiset(xs: seq<nat>, i: nat)
    requires i < |xs|
    ensures multiset(xs) == multiset(RemoveAt(xs, i)) + multiset{xs[i]}
    ensures |RemoveAt(xs, i)| == |xs| - 1
  {
    assert xs == xs[..i] + [xs[i]] + xs[i + 1..];
  }

  lemma RemoveAtIncreasing(xs: seq<nat>, i: nat)
    requires i < |xs| && StrictlyIncreasing(xs)
    ensures StrictlyIncreasing(RemoveAt(xs, i))
  {
    var r := RemoveAt(xs, i);
    forall a, b | 0 <= a < b < |r| ensures r[a] < r[b] {
      var a' := if a < i then a else a + 1;
      var b' := if b < i then b else b + 1;
      assert r[a] == xs[a'] && r[b] == xs[b'];
    }
  }

  /** Everything `Perms` produces is a rearrangement of its input. */
  lemma {:induction false} PermsSound(xs: seq<nat>, p: seq<nat>)
    requires p in Perms(xs)
    ensures multiset(p) == multiset(xs)
    decreases |xs|, 1, 0
  {
    if |xs| > 0 {
      PermsFromSound(xs, 0, p);
    }
  }

  lemma {:induction false} PermsFromSound(xs: seq<nat>, i: nat, p: seq<nat>)
    requires i <= |xs| && p in PermsFrom(xs, i)
    ensures multiset(p) == multiset(xs)
    decreases |xs|, 0, |xs| - i
  {
    var block := Prepend(xs[i], Perms(RemoveAt(xs, i)));
    if p in block {
      var k :| 0 <= k < |block| && block[k] == p;
      RemoveAtMultiset(xs, i);
      PermsSound(RemoveAt(xs, i), Perms(RemoveAt(xs, i))[k]);
    } else {
      PermsFromSound(xs, i + 1, p);
    }
  }

  lemma {:induction false} PermsFromContains(xs: seq<nat>, j: nat, i: nat, q: seq<nat>)
    requires j <= i < |xs| && q in Perms(RemoveAt(xs, i))
    ensures [xs[i]] + q in PermsFrom(xs, j)
    decreases i - j
  {
    var block := Prepend(xs[j], Perms(RemoveAt(xs, j)));
    if j == i {
      var k :| 0 <= k < |Perms(RemoveAt(xs, i))| && Perms(RemoveAt(xs, i))[k] == q;
      assert block[k] == [xs[i]] + q;
    } else {
      PermsFromContains(xs, j + 1, i, q);
    }
  }

  /** Every rearrangement of the input is produced. */
  lemma {:induction false} PermsComplete(xs: seq<nat>, p: seq<nat>)
    requires multiset(p) == multiset(xs)
    ensures p in Perms(xs)
    decreases |xs|
  {
    if |xs| == 0 {
      assert |p| == |multiset(p)| == 0;
    } else {
      assert |p| == |multiset(p)| == |xs|;
      assert p[0] in multiset(xs);
      var i :| 0 <= i < |xs| && xs[i] == p[0];
      RemoveAtMultiset(xs, i);
      assert p == [p[0]] + p[1..];
      assert multiset(p) == multiset{p[0]} + multiset(p[1..]);
      assert multiset(p[1..]) == multiset(p) - multiset{p[0]};
      assert multiset(RemoveAt(xs, i)) == multiset(xs) - multiset{xs[i]};
      PermsComplete(RemoveAt(xs, i), p[1..]);
      PermsFromContains(xs, 0, i, p[1..]);
    }
  }

  /** `Perms` produces exactly the rearrangements of its input. */
  lemma PermsExact(xs: seq<nat>, p: seq<nat>)
    ensures p in Perms(xs) <==> multiset(p) == multiset(xs)
  {
    if p in Perms(xs) {
      PermsSound(xs, p);
    }
    if multiset(p) == multiset(xs) {
      PermsComplete(xs, p);
    }
  }

  lemma PrependSorted(x: nat, ps: seq<seq<nat>>)
    requires Sorted(ps)
    ensures Sorted(Prepend(x, ps))
  {
    var r := Prepend(x, ps);
    forall i, j | 0 <= i < j < |r| ensures LexLess(r[i], r[j]) {
      assert r[i][1..] == ps[i] && r[j][1..] == ps[j];
    }
  }

  /** For an increasing input the orderings come out in strictly increasing lexicographic order. */
  lemma {:induction false} PermsSorted(xs: seq<nat>)
    requires StrictlyIncreasing(xs)
    ensures Sorted(Perms(xs))
    decreases |xs|, 1, 0
  {
    if |xs| > 0 {
      PermsFromSorted(xs, 0);
    }
  }

  lemma {:induction false} PermsFromSorted(xs: seq<nat>, i: nat)
    requires StrictlyIncreasing(xs) && i <= |xs|
    ensures Sorted(PermsFrom(xs, i))
    ensures forall p :: p in PermsFrom(xs, i) ==> |p| > 0 && i < |xs| && p[0] >= xs[i]
    decreases |xs|, 0, |xs| - i
  {
    if i < |xs| {
      var rest := RemoveAt(xs, i);
      RemoveAtIncreasing(xs, i);
      PermsSorted(rest);
      var block := Prepend(xs[i], Perms(rest));
      PrependSorted(xs[i], Perms(rest));
      PermsFromSorted(xs, i + 1);
      var tail := PermsFrom(xs, i + 1);
      assert forall a, b :: a in block && b in tail ==> LexLess(a, b) by {
        forall a, b | a in block && b in tail ensures LexLess(a, b) {
          assert a[0] == xs[i] && b[0] >= xs[i + 1] > xs[i];
        }
      }
      SortedConcat(block, tail);
    }
  }

  /** Two sorted lists, every entry of the first below every entry of the second, concatenate sorted. */
  lemma SortedConcat(block: seq<seq<nat>>, tail: seq<seq<nat>>)
    requires Sorted(block) && Sorted(tail)
    requires forall a, b :: a in block && b in tail ==> LexLess(a, b)
    ensures Sorted(block + tail)
  {
    var all := block + tail;
    forall a, b | 0 <= a < b < |all| ensures LexLess(all[a], all[b]) {
      if b < |block| {
        assert all[a] == block[a] && all[b] == block[b];
      } else if a >= |block| {
        assert all[a] == tail[a - |block|] && all[b] == tail[b - |block|];
      } else {
        assert all[a] in block && all[b] in tail;
      }
    }
  }

  lemma {:induction false} LexLessIrreflexive(a: seq<nat>)
    ensures !LexLess(a, a)
  {
    if |a| > 0 {
      LexLessIrreflexive(a[1..]);
    }
  }
}
