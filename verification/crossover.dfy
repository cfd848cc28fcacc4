/**
 * Order-preserving crossover (executor.cpp, cross_over): a child keeps
 * the first half of its own parent and is completed with the missing
 * cities in the order the other parent visits them.
 */
module Crossover {
  import opened Permutation

  /** The elements of `q` that do not occur in `p`, in the order of `q`. */
  function Without(q: seq<int>, p: seq<int>): (r: seq<int>)
    ensures |r| <= |q|
  {
    if q == [] then []
    else
      var last := q[|q| - 1];
      Without(q[..|q| - 1], p) + (if last in p then [] else [last])
  }

  /**
   * The child that keeps the first n/2 cities of `p` and is filled from
   * `q`: it has n cities and starts with its own parent's first half
   * (CrossIsPerm shows it is again a permutation).
   */
  function Cross(p: seq<int>, q: seq<int>, n: nat): (r: seq<int>)
    requires IsPerm(p, n) && IsPerm(q, n)
    ensures |r| == n && r[..n / 2] == p[..n / 2]
  {
    WithoutLength(q, p[..n / 2], n);
    p[..n / 2] + Without(q, p[..n / 2])
  }

  lemma {:induction false} WithoutMembers(q: seq<int>, p: seq<int>)
    ensures forall x :: x in Without(q, p) <==> x in q && x !in p
  {
    if q != [] {
      var init := q[..|q| - 1];
      WithoutMembers(init, p);
      assert q == init + [q[|q| - 1]];
    }
  }

  /**
   * One step of the fill loop: scanning one more city of a repeat-free
   * donor appends it exactly when the prefix lacks it, and it was not
   * appended before.
   */
  lemma FillStep(q: seq<int>, p: seq<int>, i: nat)
    requires Distinct(q) && i < |q|
    ensures Without(q[..i + 1], p) == Without(q[..i], p) + (if q[i] in p then [] else [q[i]])
    ensures q[i] !in Without(q[..i], p)
  {
    assert q[..i + 1][..i] == q[..i];
    WithoutMembers(q[..i], p);
  }

  /**
   * Scanning a prefix of the donor yields part of the full fill; once it
   * is as long as the full fill, it is the full fill.
   */
  lemma FillPrefix(q: seq<int>, p: seq<int>, i: nat)
    requires i <= |q|
    ensures |Without(q[..i], p)| <= |Without(q, p)|
    ensures |Without(q[..i], p)| == |Without(q, p)| ==> Without(q[..i], p) == Without(q, p)
    ensures i == |q| ==> Without(q[..i], p) == Without(q, p)
  {
    assert q[..i] + q[i..] == q;
    WithoutAppend(q[..i], q[i..], p);
  }

  lemma {:induction false} WithoutAppend(a: seq<int>, b: seq<int>, p: seq<int>)
    ensures Without(a + b, p) == Without(a, p) + Without(b, p)
    decreases |b|
  {
    if b == [] {
      assert a + b == a;
    } else {
      var init := b[..|b| - 1];
      WithoutAppend(a, init, p);
      var last := b[|b| - 1];
      var tail := if last in p then [] else [last];
      assert (a + b)[..|a + b| - 1] == a + init;
      assert (a + b)[|a + b| - 1] == last;
      calc {
        Without(a + b, p);
        Without(a + init, p) + tail;
        Without(a, p) + Without(init, p) + tail;
        Without(a, p) + Without(b, p);
      }
    }
  }

  lemma {:induction false} WithoutDistinct(q: seq<int>, p: seq<int>)
    requires Distinct(q)
    ensures Distinct(Without(q, p))
  {
    if q != [] {
      var init := q[..|q| - 1];
      assert Distinct(init);
      WithoutDistinct(init, p);
      WithoutMembers(init, p);
    }
  }

  /**
   * Filling from a permutation of 0 .. n-1 adds exactly the ids that the
   * (repeat-free, in-range) prefix lacks.
   */
  lemma WithoutLength(q: seq<int>, p: seq<int>, n: nat)
    requires IsPerm(q, n) && Distinct(p) && InRange(p, n)
    ensures |Without(q, p)| == n - |p|
  {
    var w := Without(q, p);
    WithoutMembers(q, p);
    WithoutDistinct(q, p);
    PermElements(q, n);
    assert Elements(w) == Ids(n) - Elements(p);
    forall x | x in Elements(p) ensures x in Ids(n) {
      IdsMembers(n, x);
    }
    assert Ids(n) == (Ids(n) - Elements(p)) + Elements(p);
    IdsCardinality(n);
    DistinctCardinality(p);
    DistinctCardinality(w);
  }

  /** From two permutations of 0 .. n-1, each child is again a permutation of 0 .. n-1. */
  lemma CrossIsPerm(p: seq<int>, q: seq<int>, n: nat)
    requires IsPerm(p, n) && IsPerm(q, n)
    ensures IsPerm(Cross(p, q, n), n)
  {
    var prefix := p[..n / 2];
    var fill := Without(q, prefix);
    assert Distinct(prefix) && InRange(prefix, n);
    WithoutLength(q, prefix, n);
    WithoutMembers(q, prefix);
    WithoutDistinct(q, prefix);
    var c := prefix + fill;
    assert InRange(c, n) by {
      forall i | 0 <= i < |c| ensures 0 <= c[i] < n {
        if i >= |prefix| {
          assert c[i] in fill;
        }
      }
    }
    assert Distinct(c) by {
      forall i, j | 0 <= i < j < |c| ensures c[i] != c[j] {
        if i < |prefix| && j >= |prefix| {
          assert c[j] in fill && c[i] in prefix;
        }
      }
    }
  }
}
