/**
 * Tour length and the best-tour bookkeeping of the fitness pass
 * (executor.cpp, get_way_length and calc_fitness).
 */
module Fitness {
  import opened Types
  import opened DistanceTable
  import opened Permutation

  /**
   * Every node names a city, and every pair of consecutive nodes has an
   * entry in the table under its canonical key.
   */
  ghost predicate Measurable(lut: Lut, cities: seq<Node>, nodes: seq<int>)
  {
    (forall i :: 0 <= i < |nodes| ==> 0 <= nodes[i] < |cities|) &&
    (forall i :: 1 <= i < |nodes| ==> EdgeKey(cities, nodes, i) in lut)
  }

  /** The table key of the edge from position i-1 to position i. */
  function EdgeKey(cities: seq<Node>, nodes: seq<int>, i: int): (int, int)
    requires 1 <= i < |nodes|
    requires 0 <= nodes[i - 1] < |cities| && 0 <= nodes[i] < |cities|
  {
    Key(cities[nodes[i - 1]].id, cities[nodes[i]].id)
  }

  /**
   * The length of the open path through `nodes`: the distances of the
   * consecutive pairs, with no closing edge from the last node back to
   * the first.
   */
  ghost function PathLength(lut: Lut, cities: seq<Node>, nodes: seq<int>): (r: real)
    requires Measurable(lut, cities, nodes)
    ensures (forall k :: k in lut ==> 0.0 <= lut[k]) ==> 0.0 <= r
  {
    if |nodes| <= 1 then 0.0
    else
      var init := nodes[..|nodes| - 1];
      assert Measurable(lut, cities, init) by {
        forall i | 1 <= i < |init| ensures EdgeKey(cities, init, i) in lut {
          assert EdgeKey(cities, init, i) == EdgeKey(cities, nodes, i);
        }
      }
      PathLength(lut, cities, init) + lut[EdgeKey(cities, nodes, |nodes| - 1)]
  }

  /** Every prefix of a measurable tour is measurable. */
  lemma MeasurablePrefix(lut: Lut, cities: seq<Node>, nodes: seq<int>, m: nat)
    requires Measurable(lut, cities, nodes) && m <= |nodes|
    ensures Measurable(lut, cities, nodes[..m])
  {
    forall i | 1 <= i < m ensures EdgeKey(cities, nodes[..m], i) in lut {
      assert EdgeKey(cities, nodes[..m], i) == EdgeKey(cities, nodes, i);
    }
  }

  /** A tour of at most one city has length 0. */
  lemma PathLengthShort(lut: Lut, cities: seq<Node>, nodes: seq<int>)
    requires Measurable(lut, cities, nodes) && |nodes| <= 1
    ensures PathLength(lut, cities, nodes) == 0.0
  {
  }

  /** Every distance in the table lies between 0 and `bound`. */
  ghost predicate EdgesAtMost(lut: Lut, bound: real)
  {
    forall k :: k in lut ==> 0.0 <= lut[k] <= bound
  }

  /** A path through m cities is at most m times the largest distance. */
  lemma {:induction false} PathLengthAtMost(lut: Lut, cities: seq<Node>, nodes: seq<int>, bound: real)
    requires Measurable(lut, cities, nodes) && 0.0 <= bound && EdgesAtMost(lut, bound)
    ensures PathLength(lut, cities, nodes) <= (|nodes| as real) * bound
  {
    if |nodes| > 1 {
      var init := nodes[..|nodes| - 1];
      assert Measurable(lut, cities, init) by {
        forall i | 1 <= i < |init| ensures EdgeKey(cities, init, i) in lut {
          assert EdgeKey(cities, init, i) == EdgeKey(cities, nodes, i);
        }
      }
      PathLengthAtMost(lut, cities, init, bound);
      var edge := EdgeKey(cities, nodes, |nodes| - 1);
      assert PathLength(lut, cities, nodes) == PathLength(lut, cities, init) + lut[edge];
      assert lut[edge] <= bound;
      Scale(|init|, bound);
    } else {
      assert PathLength(lut, cities, nodes) == 0.0;
      Scale(0, bound);
      assert |nodes| == 0 || |nodes| == 1;
    }
  }

  lemma Scale(m: nat, bound: real)
    requires 0.0 <= bound
    ensures ((m + 1) as real) * bound == (m as real) * bound + bound
    ensures (0 as real) * bound == 0.0 && (1 as real) * bound == bound
  {
  }

  /**
   * Over cities whose ids are their positions and a complete table,
   * every permutation of the ids can be measured.
   */
  lemma PermMeasurable(lut: Lut, cities: seq<Node>, nodes: seq<int>, n: nat)
    requires IdsAreIndices(cities, n) && |cities| == n && Complete(lut, n)
    requires IsPerm(nodes, n)
    ensures Measurable(lut, cities, nodes)
  {
    forall i | 1 <= i < |nodes| ensures EdgeKey(cities, nodes, i) in lut {
      var a, b := nodes[i - 1], nodes[i];
      assert a != b;
      assert EdgeKey(cities, nodes, i) == Key(a, b);
    }
  }

  /**
   * The three cities (0,0), (3,0), (0,4) have distances 3, 4 and 5;
   * the open tour 0, 1, 2 has length 3 + 5 = 8 (a closed tour would add 4).
   */
  lemma ThreeCityTour()
    ensures var cities := [Node(0, 0, 0), Node(1, 3, 0), Node(2, 0, 4)];
      var lut := map[(0, 1) := 3.0, (0, 2) := 4.0, (1, 2) := 5.0];
      Measurable(lut, cities, [0, 1, 2]) &&
      PathLength(lut, cities, [0, 1, 2]) == 8.0
  {
    var cities := [Node(0, 0, 0), Node(1, 3, 0), Node(2, 0, 4)];
    var lut := map[(0, 1) := 3.0, (0, 2) := 4.0, (1, 2) := 5.0];
    var tour := [0, 1, 2];
    assert EdgeKey(cities, tour, 1) == (0, 1);
    assert EdgeKey(cities, tour, 2) == (1, 2);
    assert tour[..2] == [0, 1] && [0, 1][..1] == [0];
  }

  /**
   * The best tour after a fitness pass over `ways` that started from
   * `best`: a member replaces the running best exactly when its fitness
   * is strictly smaller than the running best's.
   */
  function BestAfter(best: Way, ways: seq<Way>): (r: Way)
    ensures r == best || r in ways
    ensures r.fitness <= best.fitness
  {
    if ways == [] then best
    else
      var running := BestAfter(best, ways[..|ways| - 1]);
      var w := ways[|ways| - 1];
      if w.fitness < running.fitness then Way(w.nodes, w.fitness) else running
  }

  /** One more iteration of the fitness pass, at position i. */
  lemma BestAfterStep(best: Way, ways: seq<Way>, i: nat)
    requires i < |ways|
    ensures var running := BestAfter(best, ways[..i]);
      BestAfter(best, ways[..i + 1]) ==
        if ways[i].fitness < running.fitness then Way(ways[i].nodes, ways[i].fitness) else running
  {
    assert ways[..i + 1][..i] == ways[..i];
  }

  /** `ways[k]` has the smallest fitness, and no earlier member ties it. */
  ghost predicate EarliestMinimum(ways: seq<Way>, k: int)
  {
    0 <= k < |ways| &&
    (forall i :: 0 <= i < |ways| ==> ways[k].fitness <= ways[i].fitness) &&
    (forall i :: 0 <= i < k ==> ways[k].fitness < ways[i].fitness)
  }

  /** The best fitness never increases, and ends at or below every member's. */
  lemma {:induction false} BestAfterBound(best: Way, ways: seq<Way>)
    ensures BestAfter(best, ways).fitness <= best.fitness
    ensures forall i :: 0 <= i < |ways| ==> BestAfter(best, ways).fitness <= ways[i].fitness
  {
    if ways != [] {
      BestAfterBound(best, ways[..|ways| - 1]);
    }
  }

  /**
   * Who wins a fitness pass: if no member is strictly better than
   * `best`, `best` is kept unchanged (k == -1); otherwise the result is
   * a copy of the earliest member of minimum fitness (index k), which is
   * strictly better than `best`.
   */
  lemma {:induction false} BestAfterWinner(best: Way, ways: seq<Way>) returns (k: int)
    ensures k == -1 ==>
              BestAfter(best, ways) == best &&
              forall i :: 0 <= i < |ways| ==> best.fitness <= ways[i].fitness
    ensures k != -1 ==>
              EarliestMinimum(ways, k) && BestAfter(best, ways) == ways[k] &&
              ways[k].fitness < best.fitness
  {
    if ways == [] {
      k := -1;
    } else {
      var init := ways[..|ways| - 1];
      var k' := BestAfterWinner(best, init);
      BestAfterBound(best, init);
      var running := BestAfter(best, init);
      if ways[|ways| - 1].fitness < running.fitness {
        k := |ways| - 1;
      } else {
        k := k';
      }
    }
  }

  /** The fitness values of `ways`, in order. */
  function Fitnesses(ways: seq<Way>): (fit: seq<real>)
    ensures |fit| == |ways| && forall i :: 0 <= i < |ways| ==> fit[i] == ways[i].fitness
  {
    seq(|ways|, i requires 0 <= i < |ways| => ways[i].fitness)
  }
}
