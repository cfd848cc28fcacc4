/**
 * What it means for a tour to be valid: a permutation of the city ids
 * 0 .. n-1, written as "right length, every id in range, no repeats".
 */
module Permutation {

  /** No value occurs twice in `s`. */
  ghost predicate Distinct(s: seq<int>)
  {
    forall i, j :: 0 <= i < j < |s| ==> s[i] != s[j]
  }

  /** Every element of `s` is a city id below `n`. */
  ghost predicate InRange(s: seq<int>, n: int)
  {
    forall i :: 0 <= i < |s| ==> 0 <= s[i] < n
  }

  /** `s` is an ordering of all of the ids 0 .. n-1. */
  ghost predicate IsPerm(s: seq<int>, n: nat)
  {
    |s| == n && InRange(s, n) && Distinct(s)
  }

  /** The identity ordering 0, 1, .., n-1. */
  function Iota(n: nat): (r: seq<int>)
    ensures |r| == n
    ensures forall i :: 0 <= i < n ==> r[i] == i
  {
    seq(n, i => i)
  }

  /** The set of values that occur in `s`. */
  ghost function Elements(s: seq<int>): set<int>
  {
    set x | x in s
  }

  /** The set of ids 0 .. n-1. */
  ghost function Ids(n: nat): set<int>
  {
    Elements(Iota(n))
  }

  lemma IdsMembers(n: nat, x: int)
    ensures x in Ids(n) <==> 0 <= x < n
  {
    if 0 <= x < n {
      assert Iota(n)[x] == x;
    }
  }

  lemma IotaIsPerm(n: nat)
    ensures IsPerm(Iota(n), n)
  {
  }

  /** A sequence without repeats has as many distinct elements as positions. */
  lemma {:induction false} DistinctCardinality(s: seq<int>)
    requires Distinct(s)
    ensures |Elements(s)| == |s|
  {
    if s != [] {
      var init := s[..|s| - 1];
      assert Distinct(init);
      DistinctCardinality(init);
      assert Elements(s) == Elements(init) + {s[|s| - 1]};
      assert s[|s| - 1] !in Elements(init);
    }
  }

  /** There are exactly n ids below n. */
  lemma IdsCardinality(n: nat)
    ensures |Ids(n)| == n
  {
    IotaIsPerm(n);
    DistinctCardinality(Iota(n));
  }

  /** A permutation of 0 .. n-1 contains every id below n. */
  lemma PermElements(s: seq<int>, n: nat)
    requires IsPerm(s, n)
    ensures Elements(s) == Ids(n)
  {
    DistinctCardinality(s);
    IdsCardinality(n);
    forall x | x in Elements(s) ensures x in Ids(n) {
      IdsMembers(n, x);
    }
    SubsetOfSameSize(Elements(s), Ids(n));
  }

  /** A subset as large as its finite superset is the whole superset. */
  lemma SubsetOfSameSize(a: set<int>, b: set<int>)
    requires a <= b && |a| == |b|
    ensures a == b
  {
    assert b == a + (b - a);
  }

  lemma SubsetCardinality(a: set<int>, b: set<int>)
    requires a <= b
    ensures |a| <= |b|
  {
    assert b == a + (b - a);
  }

  /** Exchanging two positions keeps a permutation a permutation. */
  lemma SwapKeepsPerm(s: seq<int>, n: nat, a: int, b: int)
    requires IsPerm(s, n) && 0 <= a < |s| && 0 <= b < |s|
    ensures IsPerm(s[a := s[b]][b := s[a]], n)
  {
    var r := s[a := s[b]][b := s[a]];
    forall i, j | 0 <= i < j < |r| ensures r[i] != r[j] {
      var i' := if i == a then b else if i == b then a else i;
      var j' := if j == a then b else if j == b then a else j;
      assert r[i] == s[i'] && r[j] == s[j'] && i' != j';
    }
  }
}
