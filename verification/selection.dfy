/**
 * Elite selection (executor.cpp, find_two_best): the index of the
 * smallest fitness and the index of the smallest fitness among the
 * others, ties going to the earliest index. The running minima start at
 * DBL_MAX, so a fitness of DBL_MAX or more is never selected.
 */
module Selection {
  import opened Types

  /** Position j may be selected when position `ex` is set aside. */
  ghost predicate Eligible(fit: seq<real>, ex: int, j: int)
  {
    0 <= j < |fit| && j != ex && fit[j] < DblMax
  }

  /**
   * `k` is the earliest eligible position of minimum fitness, or -1
   * when no position is eligible.
   */
  ghost predicate IsEarliestMin(fit: seq<real>, ex: int, k: int)
  {
    (k == -1 && forall j :: 0 <= j < |fit| ==> !Eligible(fit, ex, j)) ||
    (Eligible(fit, ex, k) &&
     (forall j :: Eligible(fit, ex, j) ==> fit[k] <= fit[j]) &&
     (forall j :: 0 <= j < k && Eligible(fit, ex, j) ==> fit[k] < fit[j]))
  }

  /**
   * Reference definition of the selection: the earliest position of
   * minimum fitness among the eligible ones, or -1 if there is none.
   */
  function ArgMinExcept(fit: seq<real>, ex: int): (k: int)
    ensures k == -1 || (0 <= k < |fit| && k != ex && fit[k] < DblMax)
  {
    if fit == [] then -1
    else
      var last := |fit| - 1;
      var k := ArgMinExcept(fit[..last], ex);
      if last == ex || DblMax <= fit[last] then k
      else if k == -1 || fit[last] < fit[k] then last
      else k
  }

  /** The reference definition picks exactly the earliest minimum. */
  lemma {:induction false} ArgMinExceptIsEarliestMin(fit: seq<real>, ex: int)
    ensures IsEarliestMin(fit, ex, ArgMinExcept(fit, ex))
  {
    if fit != [] {
      var last := |fit| - 1;
      var init := fit[..last];
      ArgMinExceptIsEarliestMin(init, ex);
      var k := ArgMinExcept(init, ex);
      assert forall j :: 0 <= j < last ==> (Eligible(fit, ex, j) <==> Eligible(init, ex, j));
    }
  }

  /** At most one position is the earliest minimum. */
  lemma EarliestMinUnique(fit: seq<real>, ex: int, k1: int, k2: int)
    requires IsEarliestMin(fit, ex, k1) && IsEarliestMin(fit, ex, k2)
    ensures k1 == k2
  {
  }

  /** Setting aside a position outside the sequence sets aside nothing. */
  lemma {:induction false} ExcludeOutside(fit: seq<real>, ex: int)
    requires ex < 0 || |fit| <= ex
    ensures ArgMinExcept(fit, ex) == ArgMinExcept(fit, -1)
  {
    if fit != [] {
      ExcludeOutside(fit[..|fit| - 1], ex);
    }
  }

  /** At least two positions hold a fitness below DBL_MAX. */
  ghost predicate TwoSelectable(fit: seq<real>)
  {
    exists i, j :: 0 <= i < j < |fit| && fit[i] < DblMax && fit[j] < DblMax
  }

  /**
   * With two or more selectable fitnesses both indices are found and
   * they differ.
   */
  lemma TwoFound(fit: seq<real>)
    requires TwoSelectable(fit)
    ensures 0 <= ArgMinExcept(fit, -1) < |fit|
    ensures var first := ArgMinExcept(fit, -1);
      0 <= ArgMinExcept(fit, first) < |fit| && ArgMinExcept(fit, first) != first
  {
    var i, j :| 0 <= i < j < |fit| && fit[i] < DblMax && fit[j] < DblMax;
    ArgMinExceptIsEarliestMin(fit, -1);
    var first := ArgMinExcept(fit, -1);
    assert Eligible(fit, -1, i);
    ArgMinExceptIsEarliestMin(fit, first);
    assert Eligible(fit, first, if first == i then j else i);
  }

  /**
   * Fitnesses 5, 2, 2, 8 select (1, 2): the first 2 wins, and the
   * second 2, not strictly below the first, becomes the runner-up.
   */
  lemma TieExample()
    ensures ArgMinExcept([5.0, 2.0, 2.0, 8.0], -1) == 1
    ensures ArgMinExcept([5.0, 2.0, 2.0, 8.0], 1) == 2
  {
    var fit := [5.0, 2.0, 2.0, 8.0];
    ArgMinExceptIsEarliestMin(fit, -1);
    ArgMinExceptIsEarliestMin(fit, 1);
    assert IsEarliestMin(fit, -1, 1);
    assert IsEarliestMin(fit, 1, 2);
  }
}
