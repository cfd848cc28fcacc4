/**
 * The genetic-algorithm engine (executor.h, executor.cpp): the Executor
 * object, its state, and the operations that build the distance table,
 * seed the population and breed one generation from the elite pair.
 */
module Engine {
  import opened Types
  import opened Permutation
  import opened DistanceTable
  import opened Fitness
  import opened Selection
  import opened Crossover
  import opened Mutation

  /** A fresh array holding the elements of `s`. */
  method NewArray(s: seq<int>) returns (a: array<int>)
    ensures fresh(a) && a[..] == s
  {
    a := new int[|s|](i requires 0 <= i < |s| => s[i]);
  }

  /** The tours of a list of ways, in order. */
  function Tours(ways: seq<Way>): (r: seq<seq<int>>)
    ensures |r| == |ways| && forall k :: 0 <= k < |ways| ==> r[k] == ways[k].nodes
  {
    seq(|ways|, k requires 0 <= k < |ways| => ways[k].nodes)
  }

  /** The draw lists serve mutations of tours of length `len`. */
  ghost predicate AllDrawsFit(draws: seq<seq<MutationDraw>>, len: nat)
  {
    forall k :: 0 <= k < |draws| ==> DrawsFit(draws[k], len)
  }

  /**
   * The first m tours of a new generation bred from the two crossover
   * children a and b of the elite pair: tour k is a (k even) or b
   * (k odd), mutated with the k-th list of draws.
   */
  ghost function Brood(a: seq<int>, b: seq<int>, draws: seq<seq<MutationDraw>>, chance: real, m: nat)
    : (r: seq<seq<int>>)
    requires |a| == |b| && m <= |draws| && AllDrawsFit(draws, |a|)
    ensures |r| == m
  {
    if m == 0 then []
    else Brood(a, b, draws, chance, m - 1) + [Mutated(if (m - 1) % 2 == 0 then a else b, draws[m - 1], chance)]
  }

  /** Tours 2j and 2j + 1 of a new generation are a and b, mutated. */
  lemma BroodPair(a: seq<int>, b: seq<int>, draws: seq<seq<MutationDraw>>, chance: real, j: nat)
    requires |a| == |b| && 2 * j + 2 <= |draws| && AllDrawsFit(draws, |a|)
    ensures Brood(a, b, draws, chance, 2 * j + 2) ==
            Brood(a, b, draws, chance, 2 * j) + [Mutated(a, draws[2 * j], chance), Mutated(b, draws[2 * j + 1], chance)]
  {
    assert (2 * j) % 2 == 0 && (2 * j + 1) % 2 == 1;
    assert Brood(a, b, draws, chance, 2 * j + 1) == Brood(a, b, draws, chance, 2 * j) + [Mutated(a, draws[2 * j], chance)];
  }

  /** Tour k of a new generation does not depend on how many follow it. */
  lemma {:induction false} BroodChild(a: seq<int>, b: seq<int>, draws: seq<seq<MutationDraw>>,
                                      chance: real, m: nat, k: nat)
    requires |a| == |b| && m <= |draws| && AllDrawsFit(draws, |a|)
    requires k < m
    ensures Brood(a, b, draws, chance, m)[k] == Mutated(if k % 2 == 0 then a else b, draws[k], chance)
  {
    if k < m - 1 {
      BroodChild(a, b, draws, chance, m - 1, k);
    }
  }

  /**
   * Bred from two permutations of 0 .. n-1, every tour of a new
   * generation visits each city exactly once.
   */
  lemma {:induction false} BroodPerms(a: seq<int>, b: seq<int>, n: nat, draws: seq<seq<MutationDraw>>,
                                      chance: real, m: nat)
    requires IsPerm(a, n) && IsPerm(b, n) && m <= |draws| && AllDrawsFit(draws, n)
    ensures forall k :: 0 <= k < m ==> IsPerm(Brood(a, b, draws, chance, m)[k], n)
  {
    if m > 0 {
      BroodPerms(a, b, n, draws, chance, m - 1);
      var last := m - 1;
      MutatedPerm(if last % 2 == 0 then a else b, n, draws[last], chance);
      var r := Brood(a, b, draws, chance, m);
      forall k | 0 <= k < m ensures IsPerm(r[k], n) {
        if k < last {
          assert r[k] == Brood(a, b, draws, chance, last)[k];
        }
      }
    }
  }

  /**
   * Every table distance is at most `bound`, and n such distances stay
   * below DBL_MAX.
   */
  ghost predicate ShortEdges(lut: Lut, n: nat, bound: real)
  {
    0.0 <= bound && (n as real) * bound < DblMax && EdgesAtMost(lut, bound)
  }

  /**
   * When the distances are short, a population of two or more measured
   * tours of n cities always offers an elite pair to the selection.
   */
  lemma ShortToursSelectable(lut: Lut, cities: seq<Node>, ways: seq<Way>, n: nat, bound: real)
    requires ShortEdges(lut, n, bound) && |ways| >= 2
    requires forall k :: 0 <= k < |ways| ==>
               |ways[k].nodes| == n && Measurable(lut, cities, ways[k].nodes) &&
               ways[k].fitness == PathLength(lut, cities, ways[k].nodes)
    ensures TwoSelectable(Fitnesses(ways))
  {
    var fit := Fitnesses(ways);
    PathLengthAtMost(lut, cities, ways[0].nodes, bound);
    PathLengthAtMost(lut, cities, ways[1].nodes, bound);
    assert fit[0] < DblMax && fit[1] < DblMax;
  }

  class Executor {
    var bestPopulation: Way
    var citiesCount: nat
    var populationCount: nat
    var mutationChance: real
    var cities: seq<Node>
    var population: seq<Way>
    var distLut: Lut

    /**
     * Stores both counts, starts with no cities, no tours and an empty
     * table, an empty best tour of fitness 0, and a mutation chance of 0.2.
     */
    constructor (citiesCount: nat, populationCount: nat)
      ensures this.citiesCount == citiesCount && this.populationCount == populationCount
      ensures cities == [] && population == [] && distLut == map[]
      ensures bestPopulation == EmptyWay && bestPopulation.nodes == [] && bestPopulation.fitness == 0.0
      ensures mutationChance == 0.2
    {
      bestPopulation := EmptyWay;
      this.citiesCount := citiesCount;
      this.populationCount := populationCount;
      mutationChance := 0.2;
      cities := [];
      population := [];
      distLut := map[];
    }

    /** Exactly `citiesCount` cities, each with its position as id. */
    ghost predicate CitiesReady()
      reads this
    {
      |cities| == citiesCount && IdsAreIndices(cities, citiesCount)
    }

    /** The cities are ready and the table covers every pair of them. */
    ghost predicate TableReady()
      reads this
    {
      CitiesReady() && Complete(distLut, citiesCount)
    }

    /** Every tour of the population visits each city exactly once. */
    /** Some bound keeps every table distance, times citiesCount, below DBL_MAX. */
    ghost predicate DistancesBounded()
      reads this
    {
      exists bound :: ShortEdges(distLut, citiesCount, bound)
    }

    ghost predicate ToursValid()
      reads this
    {
      forall k :: 0 <= k < |population| ==> IsPerm(population[k].nodes, citiesCount)
    }

    /**
     * Appends cities 0 .. citiesCount-1 whose coordinates are the given
     * draws from 1 .. ScreenWidth.
     */
    method GenerateCities(coords: seq<(int, int)>)
      requires |coords| == citiesCount
      requires forall k :: 0 <= k < |coords| ==>
                 1 <= coords[k].0 <= ScreenWidth && 1 <= coords[k].1 <= ScreenWidth
      modifies this`cities
      ensures |cities| == |old(cities)| + citiesCount
      ensures cities[..|old(cities)|] == old(cities)
      ensures forall i :: 0 <= i < citiesCount ==>
                cities[|old(cities)| + i] == Node(i, coords[i].0, coords[i].1)
      ensures old(cities) == [] ==> CitiesReady()
    {
      var i := 0;
      while i < citiesCount
        invariant 0 <= i <= citiesCount
        invariant |cities| == |old(cities)| + i
        invariant cities[..|old(cities)|] == old(cities)
        invariant forall j :: 0 <= j < i ==>
                    cities[|old(cities)| + j] == Node(j, coords[j].0, coords[j].1)
      {
        cities := cities + [Node(i, coords[i].0, coords[i].1)];
        i := i + 1;
      }
      if old(cities) == [] {
        forall j | 0 <= j < citiesCount ensures cities[j].id == j {
          assert |old(cities)| == 0;
          assert cities[|old(cities)| + j] == Node(j, coords[j].0, coords[j].1);
          assert cities[j] == cities[|old(cities)| + j];
        }
      }
    }

    /**
     * The inner loop of the table build: the distances from city i to
     * every later city are inserted under their keys, and a key already
     * present keeps its value.
     */
    method FillRowAt(i: nat, distanceTo: (Node, Node) -> real)
      requires i < citiesCount <= |cities|
      modifies this`distLut
      ensures distLut == FillRow(old(distLut), cities, distanceTo, i, i + 1, citiesCount)
    {
      var a := cities[i];
      var j := i + 1;
      while j < citiesCount
        invariant i < j <= citiesCount
        invariant FillRow(distLut, cities, distanceTo, i, j, citiesCount) ==
                  FillRow(old(distLut), cities, distanceTo, i, i + 1, citiesCount)
      {
        var b := cities[j];
        var data := distanceTo(a, b);
        var key := Key(a.id, b.id);
        ghost var before := distLut;
        if key !in distLut {
          distLut := distLut[key := data];
        }
        assert distLut == Insert(before, key, data);
        j := j + 1;
      }
    }

    /**
     * Inserts the distance of every pair i < j of the first
     * `citiesCount` cities under its canonical key, never overwriting an
     * entry already present. From an empty table over ready cities the
     * result covers every pair and has n(n-1)/2 entries.
     */
    method GenerateLut(distanceTo: (Node, Node) -> real)
      requires citiesCount <= |cities|
      modifies this`distLut
      ensures distLut == FillRows(old(distLut), cities, distanceTo, 0, citiesCount)
      ensures old(distLut) == map[] && CitiesReady() ==>
                TableReady() && |distLut| == citiesCount * (citiesCount - 1) / 2 &&
                forall i, j :: 0 <= i < j < citiesCount ==>
                  Distance(distLut, i, j) == distanceTo(cities[i], cities[j])
    {
      var i := 0;
      while i < citiesCount
        invariant 0 <= i <= citiesCount
        invariant FillRows(distLut, cities, distanceTo, i, citiesCount) ==
                  FillRows(old(distLut), cities, distanceTo, 0, citiesCount)
      {
        ghost var before := distLut;
        FillRowAt(i, distanceTo);
        assert FillRows(before, cities, distanceTo, i, citiesCount) ==
               FillRows(distLut, cities, distanceTo, i + 1, citiesCount);
        i := i + 1;
      }
      if old(distLut) == map[] && CitiesReady() {
        FreshTableLookup(cities, distanceTo, citiesCount);
      }
    }

    /**
     * The length of the open path through the tour's nodes: the table
     * distance of every consecutive pair, with no edge back to the start.
     */
    method GetWayLength(way: Way) returns (length: real)
      requires Measurable(distLut, cities, way.nodes)
      ensures length == PathLength(distLut, cities, way.nodes)
    {
      var nodes := way.nodes;
      forall m | 0 <= m <= |nodes| ensures Measurable(distLut, cities, nodes[..m]) {
        MeasurablePrefix(distLut, cities, nodes, m);
      }
      length := 0.0;
      var i := 1;
      while i < |nodes|
        invariant 1 <= i && (i <= |nodes| || |nodes| <= 1)
        invariant length == PathLength(distLut, cities, nodes[..if i <= |nodes| then i else |nodes|])
      {
        var a := cities[nodes[i - 1]];
        var b := cities[nodes[i]];
        var k := Key(a.id, b.id);
        assert nodes[..i + 1][..i] == nodes[..i];
        assert EdgeKey(cities, nodes[..i + 1], i) == k;
        length := length + distLut[k];
        i := i + 1;
      }
      assert nodes[..|nodes|] == nodes;
    }

    /**
     * Recomputes every tour's fitness as its path length; the best tour
     * is replaced, in scan order, by any tour strictly shorter than the
     * best so far.
     */
    method CalcFitness()
      requires forall k :: 0 <= k < |population| ==> Measurable(distLut, cities, population[k].nodes)
      modifies this`population, this`bestPopulation
      ensures |population| == |old(population)|
      ensures forall k :: 0 <= k < |population| ==>
                population[k].nodes == old(population)[k].nodes &&
                population[k].fitness == PathLength(distLut, cities, population[k].nodes)
      ensures bestPopulation == BestAfter(old(bestPopulation), population)
      ensures bestPopulation.fitness <= old(bestPopulation).fitness
      ensures forall k :: 0 <= k < |population| ==> bestPopulation.fitness <= population[k].fitness
    {
      var i := 0;
      while i < |population|
        invariant 0 <= i <= |population| == |old(population)|
        invariant forall k :: 0 <= k < |population| ==> population[k].nodes == old(population)[k].nodes
        invariant forall k :: 0 <= k < i ==>
                    population[k].fitness == PathLength(distLut, cities, population[k].nodes)
        invariant bestPopulation == BestAfter(old(bestPopulation), population[..i])
      {
        var length := GetWayLength(population[i]);
        ghost var before := population;
        population := population[i := population[i].(fitness := length)];
        assert population[..i] == before[..i];
        BestAfterStep(old(bestPopulation), population, i);
        if population[i].fitness < bestPopulation.fitness {
          bestPopulation := bestPopulation.(fitness := population[i].fitness, nodes := population[i].nodes);
        }
        i := i + 1;
      }
      assert population[..i] == population;
      BestAfterBound(old(bestPopulation), population);
    }

    /**
     * Indices of the two fittest tours: `first` is the earliest tour of
     * minimum fitness, `second` the earliest of minimum fitness among the
     * others; -1 where there is none (fitness DBL_MAX or above is never
     * chosen).
     */
    method FindTwoBest() returns (first: int, second: int)
      ensures first == ArgMinExcept(Fitnesses(population), -1)
      ensures second == ArgMinExcept(Fitnesses(population), first)
      ensures IsEarliestMin(Fitnesses(population), -1, first)
      ensures IsEarliestMin(Fitnesses(population), first, second)
    {
      ghost var fit := Fitnesses(population);
      var f := DblMax;
      var s := DblMax;
      first, second := -1, -1;
      var i := 0;
      while i < |population|
        invariant 0 <= i <= |population|
        invariant first == ArgMinExcept(fit[..i], -1)
        invariant second == ArgMinExcept(fit[..i], first)
        invariant f == if first == -1 then DblMax else fit[first]
        invariant s == if second == -1 then DblMax else fit[second]
      {
        assert fit[..i + 1][..i] == fit[..i];
        if population[i].fitness < f {
          ExcludeOutside(fit[..i], i);
          s := f;
          second := first;
          f := population[i].fitness;
          first := i;
        } else if population[i].fitness < s {
          s := population[i].fitness;
          second := i;
        }
        i := i + 1;
      }
      assert fit[..i] == fit;
      ArgMinExceptIsEarliestMin(fit, -1);
      ArgMinExceptIsEarliestMin(fit, first);
    }

    /**
     * Fills `child` up to `citiesCount` cities from `donor`, in the
     * donor's order, skipping every city the child already has.
     */
    method FillFrom(child: Way, donor: Way) returns (r: Way)
      requires |child.nodes| <= citiesCount && Distinct(child.nodes) && InRange(child.nodes, citiesCount)
      requires IsPerm(donor.nodes, citiesCount)
      ensures r.nodes == child.nodes + Without(donor.nodes, child.nodes)
      ensures |r.nodes| == citiesCount && r.fitness == child.fitness
    {
      var q := donor.nodes;
      WithoutLength(q, child.nodes, citiesCount);
      r := child;
      var i := 0;
      FillPrefix(q, child.nodes, i);
      while |r.nodes| < citiesCount
        invariant 0 <= i <= |q|
        invariant r.nodes == child.nodes + Without(q[..i], child.nodes) && r.fitness == child.fitness
        invariant |r.nodes| <= citiesCount
        invariant |r.nodes| < citiesCount ==> i < |q|
        decreases |q| - i
      {
        var v := q[i];
        FillStep(q, child.nodes, i);
        ghost var fill := Without(q[..i], child.nodes);
        assert v in r.nodes <==> v in child.nodes;
        i := i + 1;
        if v !in r.nodes {
          r := r.(nodes := r.nodes + [v]);
          assert r.nodes == child.nodes + (fill + [v]);
        }
        FillPrefix(q, child.nodes, i);
      }
      FillPrefix(q, child.nodes, i);
    }

    /**
     * Two children of `p1` and `p2`: each starts with the first
     * citiesCount/2 cities of its own parent and is completed from the
     * other parent; both are permutations, with fitness 0.
     */
    method CrossOver(p1: Way, p2: Way) returns (otf: Way, ots: Way)
      requires IsPerm(p1.nodes, citiesCount) && IsPerm(p2.nodes, citiesCount)
      ensures otf.nodes == Cross(p1.nodes, p2.nodes, citiesCount) && otf.fitness == 0.0
      ensures ots.nodes == Cross(p2.nodes, p1.nodes, citiesCount) && ots.fitness == 0.0
      ensures IsPerm(otf.nodes, citiesCount) && IsPerm(ots.nodes, citiesCount)
      ensures otf.nodes[..citiesCount / 2] == p1.nodes[..citiesCount / 2]
      ensures ots.nodes[..citiesCount / 2] == p2.nodes[..citiesCount / 2]
    {
      otf, ots := EmptyWay, EmptyWay;
      var i := 0;
      while i < citiesCount / 2
        invariant 0 <= i <= citiesCount / 2
        invariant otf == Way(p1.nodes[..i], 0.0) && ots == Way(p2.nodes[..i], 0.0)
      {
        otf := otf.(nodes := otf.nodes + [p1.nodes[i]]);
        ots := ots.(nodes := ots.nodes + [p2.nodes[i]]);
        assert p1.nodes[..i + 1] == p1.nodes[..i] + [p1.nodes[i]];
        assert p2.nodes[..i + 1] == p2.nodes[..i] + [p2.nodes[i]];
        i := i + 1;
      }
      otf := FillFrom(otf, p2);
      ots := FillFrom(ots, p1);
      CrossIsPerm(p1.nodes, p2.nodes, citiesCount);
      CrossIsPerm(p2.nodes, p1.nodes, citiesCount);
    }

    /**
     * One draw per position: when a draw's roll is strictly above the
     * mutation chance, the two drawn positions are exchanged in place.
     */
    method Mutate(nodes: array<int>, draws: seq<MutationDraw>)
      requires DrawsFit(draws, nodes.Length)
      modifies nodes
      ensures nodes[..] == Mutated(old(nodes[..]), draws, mutationChance)
    {
      var i := 0;
      while i < nodes.Length
        invariant 0 <= i <= nodes.Length
        invariant IndicesIn(draws[..i], nodes.Length)
        invariant nodes[..] == Mutated(old(nodes[..]), draws[..i], mutationChance)
      {
        var d := draws[i];
        assert draws[..i + 1][..i] == draws[..i];
        if d.roll > mutationChance {
          var indexA, indexB := d.indexA, d.indexB;
          nodes[indexA], nodes[indexB] := nodes[indexB], nodes[indexA];
        }
        i := i + 1;
      }
      assert draws[..i] == draws;
    }

    /**
     * Children k and k + 1 of the elite pair (one crossover), each
     * copied into a fresh array and mutated there with its own draws.
     */
    method BreedPair(p1: Way, p2: Way, k: nat, draws: seq<seq<MutationDraw>>)
      returns (first: Way, second: Way)
      requires IsPerm(p1.nodes, citiesCount) && IsPerm(p2.nodes, citiesCount)
      requires k + 1 < |draws|
      requires DrawsFit(draws[k], citiesCount) && DrawsFit(draws[k + 1], citiesCount)
      ensures first == Way(Mutated(Cross(p1.nodes, p2.nodes, citiesCount), draws[k], mutationChance), 0.0)
      ensures second == Way(Mutated(Cross(p2.nodes, p1.nodes, citiesCount), draws[k + 1], mutationChance), 0.0)
    {
      var crossedFirst, crossedSecond := CrossOver(p1, p2);
      var a := NewArray(crossedFirst.nodes);
      Mutate(a, draws[k]);
      var b := NewArray(crossedSecond.nodes);
      Mutate(b, draws[k + 1]);
      first, second := crossedFirst.(nodes := a[..]), crossedSecond.(nodes := b[..]);
    }

    /**
     * The breeding loop of a generation step: children of `p1` and `p2`
     * are made two at a time, each mutated with its own draws, until
     * there are at least `populationCount`; the surplus child of an odd
     * count is dropped, keeping the first `populationCount`.
     */
    method Breed(p1: Way, p2: Way, draws: seq<seq<MutationDraw>>) returns (nextGen: seq<Way>)
      requires IsPerm(p1.nodes, citiesCount) && IsPerm(p2.nodes, citiesCount)
      requires populationCount <= |draws| <= populationCount + 1 && |draws| % 2 == 0
      requires AllDrawsFit(draws, citiesCount)
      ensures |nextGen| == populationCount
      ensures Tours(nextGen) == Brood(Cross(p1.nodes, p2.nodes, citiesCount), Cross(p2.nodes, p1.nodes, citiesCount),
                                      draws, mutationChance, populationCount)
      ensures forall k :: 0 <= k < |nextGen| ==> nextGen[k].fitness == 0.0
    {
      nextGen := [];
      ghost var a, b := Cross(p1.nodes, p2.nodes, citiesCount), Cross(p2.nodes, p1.nodes, citiesCount);
      ghost var pairs := |draws| / 2;
      assert |draws| == 2 * pairs;
      ghost var made := 0;
      while |nextGen| < populationCount
        invariant |nextGen| == 2 * made && made <= pairs
        invariant Tours(nextGen) == Brood(a, b, draws, mutationChance, |nextGen|)
        invariant forall k :: 0 <= k < |nextGen| ==> nextGen[k].fitness == 0.0
        decreases populationCount - |nextGen|
      {
        var k := |nextGen|;
        var first, second := BreedPair(p1, p2, k, draws);
        BroodPair(a, b, draws, mutationChance, made);
        assert Tours(nextGen + [first, second]) == Tours(nextGen) + [first.nodes, second.nodes];
        nextGen := nextGen + [first, second];
        made := made + 1;
      }
      if |nextGen| > populationCount {
        assert Tours(nextGen[..populationCount]) == Tours(nextGen)[..populationCount];
        nextGen := nextGen[..populationCount];
      }
    }

    /**
     * The population is replaced by the `populationCount` children of
     * `p1` and `p2` (see Breed), followed by a fitness pass.
     */
    method Repopulate(p1: Way, p2: Way, draws: seq<seq<MutationDraw>>)
      requires TableReady()
      requires IsPerm(p1.nodes, citiesCount) && IsPerm(p2.nodes, citiesCount)
      requires populationCount <= |draws| <= populationCount + 1 && |draws| % 2 == 0
      requires AllDrawsFit(draws, citiesCount)
      modifies this`population, this`bestPopulation
      ensures |population| == populationCount
      ensures ToursValid()
      ensures Tours(population) ==
                Brood(Cross(p1.nodes, p2.nodes, citiesCount), Cross(p2.nodes, p1.nodes, citiesCount),
                      draws, mutationChance, populationCount)
      ensures forall k :: 0 <= k < |population| ==>
                Measurable(distLut, cities, population[k].nodes) &&
                population[k].fitness == PathLength(distLut, cities, population[k].nodes)
      ensures bestPopulation == BestAfter(old(bestPopulation), population)
      ensures bestPopulation.fitness <= old(bestPopulation).fitness
    {
      var nextGen := Breed(p1, p2, draws);
      var a, b := p1.nodes, p2.nodes;
      CrossIsPerm(a, b, citiesCount);
      CrossIsPerm(b, a, citiesCount);
      BroodPerms(Cross(a, b, citiesCount), Cross(b, a, citiesCount), citiesCount,
                 draws, mutationChance, populationCount);
      population := nextGen;
      forall k | 0 <= k < |population|
        ensures IsPerm(population[k].nodes, citiesCount) && Measurable(distLut, cities, population[k].nodes)
      {
        assert population[k].nodes == Tours(nextGen)[k];
        PermMeasurable(distLut, cities, population[k].nodes, citiesCount);
      }
      ghost var bred := population;
      CalcFitness();
      assert Tours(population) == Tours(bred);
    }

    /**
     * One generation: the elite pair is selected and the population is
     * replaced by `populationCount` children bred from it (see Breed),
     * with a fitness pass after. Draw list k serves the mutation of
     * child k.
     */
    method NextGeneration(draws: seq<seq<MutationDraw>>)
      requires TableReady() && ToursValid()
      requires TwoSelectable(Fitnesses(population))
      requires populationCount <= |draws| <= populationCount + 1 && |draws| % 2 == 0
      requires AllDrawsFit(draws, citiesCount)
      modifies this`population, this`bestPopulation
      ensures |population| == populationCount
      ensures ToursValid()
      ensures var fit := Fitnesses(old(population));
              var first := ArgMinExcept(fit, -1);
              var second := ArgMinExcept(fit, first);
              0 <= first < |old(population)| && 0 <= second < |old(population)| && first != second &&
              var elite1, elite2 := old(population)[first].nodes, old(population)[second].nodes;
              Tours(population) ==
                Brood(Cross(elite1, elite2, citiesCount), Cross(elite2, elite1, citiesCount),
                      draws, mutationChance, populationCount)
      ensures forall k :: 0 <= k < |population| ==>
                Measurable(distLut, cities, population[k].nodes) &&
                population[k].fitness == PathLength(distLut, cities, population[k].nodes)
      ensures bestPopulation == BestAfter(old(bestPopulation), population)
      ensures bestPopulation.fitness <= old(bestPopulation).fitness
      ensures populationCount >= 2 && DistancesBounded() ==> TwoSelectable(Fitnesses(population))
    {
      var top0, top1 := FindTwoBest();
      TwoFound(Fitnesses(population));
      Repopulate(population[top0], population[top1], draws);
      if populationCount >= 2 && DistancesBounded() {
        ghost var bound :| ShortEdges(distLut, citiesCount, bound);
        ShortToursSelectable(distLut, cities, population, citiesCount, bound);
      }
    }

    /**
     * One step of seeding: a shuffled copy of the best tour is appended
     * to the population and its fitness set to its path length.
     */
    method AppendShuffled(shuffled: seq<int>)
      requires TableReady() && IsPerm(shuffled, citiesCount)
      requires |population| >= 1
      modifies this`population
      ensures Measurable(distLut, cities, shuffled)
      ensures population == old(population) + [Way(shuffled, PathLength(distLut, cities, shuffled))]
    {
      population := population + [bestPopulation.(nodes := shuffled)];
      PermMeasurable(distLut, cities, shuffled, citiesCount);
      var i := |population| - 1;
      var len := GetWayLength(population[i]);
      population := population[i := population[i].(fitness := len)];
    }

    /**
     * The first step of seeding: the best tour becomes the city ids in
     * city order, with its path length as fitness.
     */
    method SeedBest()
      requires TableReady() && bestPopulation.nodes == []
      modifies this`bestPopulation
      ensures Measurable(distLut, cities, Iota(citiesCount))
      ensures bestPopulation == Way(Iota(citiesCount), PathLength(distLut, cities, Iota(citiesCount)))
    {
      var c := 0;
      while c < |cities|
        invariant 0 <= c <= |cities|
        invariant bestPopulation.nodes == Iota(c)
      {
        bestPopulation := bestPopulation.(nodes := bestPopulation.nodes + [cities[c].id]);
        c := c + 1;
      }
      IotaIsPerm(citiesCount);
      PermMeasurable(distLut, cities, bestPopulation.nodes, citiesCount);
      var length := GetWayLength(bestPopulation);
      bestPopulation := bestPopulation.(fitness := length);
    }

    /**
     * Seeds the population: the identity tour of the city ids becomes
     * the best tour and tour 0, followed by the given shuffles of it;
     * every fitness is its path length. At least one tour is created.
     */
    method GenerateFirstPopulation(shuffles: seq<seq<int>>)
      requires TableReady()
      requires population == [] && bestPopulation.nodes == []
      requires |shuffles| == if populationCount == 0 then 0 else populationCount - 1
      requires forall k :: 0 <= k < |shuffles| ==> IsPerm(shuffles[k], citiesCount)
      modifies this`population, this`bestPopulation
      ensures Measurable(distLut, cities, Iota(citiesCount)) &&
              bestPopulation == Way(Iota(citiesCount), PathLength(distLut, cities, Iota(citiesCount)))
      ensures |population| == if populationCount == 0 then 1 else populationCount
      ensures population[0] == bestPopulation
      ensures forall k :: 0 <= k < |shuffles| ==>
                Measurable(distLut, cities, shuffles[k]) &&
                population[k + 1] == Way(shuffles[k], PathLength(distLut, cities, shuffles[k]))
      ensures ToursValid()
    {
      SeedBest();
      population := population + [bestPopulation];
      var i := 1;
      while i < populationCount
        modifies this`population
        invariant 1 <= i <= if populationCount == 0 then 1 else populationCount
        invariant |population| == i && population[0] == bestPopulation
        invariant forall k :: 0 <= k && k + 1 < i ==>
                    Measurable(distLut, cities, shuffles[k]) &&
                    population[k + 1] == Way(shuffles[k], PathLength(distLut, cities, shuffles[k]))
        invariant forall k :: 0 <= k < i ==> IsPerm(population[k].nodes, citiesCount)
      {
        AppendShuffled(shuffles[i - 1]);
        i := i + 1;
      }
    }
  }
}
