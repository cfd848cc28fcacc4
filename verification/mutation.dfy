/**
 * Swap mutation (executor.cpp, mutate): one draw per position of the
 * tour; when the draw's roll is strictly greater than the mutation
 * chance, the two drawn positions are exchanged.
 */
module Mutation {
  import opened Types
  import opened Permutation

  /** Every draw's two positions lie inside a tour of length `len`. */
  ghost predicate IndicesIn(draws: seq<MutationDraw>, len: nat)
  {
    forall k :: 0 <= k < |draws| ==>
      0 <= draws[k].indexA < len && 0 <= draws[k].indexB < len
  }

  /** The draws for mutating a tour of length `len`: one per position. */
  ghost predicate DrawsFit(draws: seq<MutationDraw>, len: nat)
  {
    |draws| == len && IndicesIn(draws, len)
  }

  /** The tour after exchanging positions `a` and `b`. */
  function Swap(s: seq<int>, a: int, b: int): (r: seq<int>)
    requires 0 <= a < |s| && 0 <= b < |s|
    ensures |r| == |s| && r[a] == s[b] && r[b] == s[a]
    ensures forall i :: 0 <= i < |s| && i != a && i != b ==> r[i] == s[i]
  {
    s[a := s[b]][b := s[a]]
  }

  /** One iteration of the mutation loop. */
  function Step(s: seq<int>, d: MutationDraw, chance: real): (r: seq<int>)
    requires 0 <= d.indexA < |s| && 0 <= d.indexB < |s|
    ensures |r| == |s|
  {
    if d.roll > chance then Swap(s, d.indexA, d.indexB) else s
  }

  /** The tour after the iterations that consumed `draws`, in order. */
  function Mutated(s: seq<int>, draws: seq<MutationDraw>, chance: real): (r: seq<int>)
    requires IndicesIn(draws, |s|)
    ensures |r| == |s|
  {
    if draws == [] then s
    else Step(Mutated(s, draws[..|draws| - 1], chance), draws[|draws| - 1], chance)
  }

  /** Mutation only rearranges: the multiset of cities is unchanged. */
  lemma {:induction false} MutatedMultiset(s: seq<int>, draws: seq<MutationDraw>, chance: real)
    requires IndicesIn(draws, |s|)
    ensures multiset(Mutated(s, draws, chance)) == multiset(s)
  {
    if draws != [] {
      var init := draws[..|draws| - 1];
      MutatedMultiset(s, init, chance);
      var t := Mutated(s, init, chance);
      var d := draws[|draws| - 1];
      if d.roll > chance {
        SwapMultiset(t, d.indexA, d.indexB);
      }
    }
  }

  lemma SwapMultiset(s: seq<int>, a: int, b: int)
    requires 0 <= a < |s| && 0 <= b < |s|
    ensures multiset(Swap(s, a, b)) == multiset(s)
  {
    var t := s[a := s[b]];
    assert multiset(t) == multiset(s) - multiset{s[a]} + multiset{s[b]};
  }

  /** A permutation of 0 .. n-1 stays one under mutation. */
  lemma {:induction false} MutatedPerm(s: seq<int>, n: nat, draws: seq<MutationDraw>, chance: real)
    requires IsPerm(s, n) && IndicesIn(draws, |s|)
    ensures IsPerm(Mutated(s, draws, chance), n)
  {
    if draws != [] {
      var init := draws[..|draws| - 1];
      MutatedPerm(s, n, init, chance);
      var t := Mutated(s, init, chance);
      var d := draws[|draws| - 1];
      if d.roll > chance {
        SwapKeepsPerm(t, n, d.indexA, d.indexB);
      }
    }
  }

  /**
   * A swap happens only on a roll strictly above the chance: when no
   * roll exceeds it the tour is left as it was.
   */
  lemma {:induction false} MutatedCalm(s: seq<int>, draws: seq<MutationDraw>, chance: real)
    requires IndicesIn(draws, |s|)
    requires forall k :: 0 <= k < |draws| ==> draws[k].roll <= chance
    ensures Mutated(s, draws, chance) == s
  {
    if draws != [] {
      MutatedCalm(s, draws[..|draws| - 1], chance);
    }
  }
}
