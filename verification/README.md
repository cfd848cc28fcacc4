# GA-TSP executor, modelled in Dafny

The `nuworks::Executor` engine searches for a short travelling-salesman
tour with a genetic algorithm.
- It places `citiesCount` cities at random integer coordinates in
  1 .. 100.
- It fills a distance lookup table holding one entry per unordered pair
  of cities, under the key (smaller id, larger id).
- It seeds a population: the identity tour, then shuffled copies of it.
- Each generation does four things:
  - it selects the two fittest tours (the elite pair);
  - it breeds `populationCount` children from them by order-preserving
    crossover and swap mutation;
  - it replaces the population with the children;
  - it recomputes every fitness. A tour strictly shorter than the
    best-ever tour replaces it.

A tour's fitness is the length of the OPEN path through its cities. No
edge closes the path back to the start.

The model has eight modules, one file each:
- `Types` holds the value types of `executor.h`: a city (`Node`), a tour
  with its cached fitness (`Way`) and the lookup table (`Lut`). It also
  holds the `DBL_MAX` sentinel as an exact real.
- `Permutation` says what a valid tour is: a permutation of the ids
  0 .. n-1.
- `DistanceTable` covers `generate_lut`: canonical keys, insertion that
  never overwrites, and the table the two loops build.
- `Fitness` covers `get_way_length` and the best-tour bookkeeping of
  `calc_fitness`.
- `Selection` covers `find_two_best` through a reference definition, the
  earliest eligible minimum.
- `Crossover` covers `cross_over`: keep the first half, then fill from
  the other parent in its order.
- `Mutation` covers `mutate`: one draw per position, and a swap when the
  roll is strictly above the chance.
- `Engine` holds `class Executor`, with the source's fields and its
  operations as methods over that state. Each method is proved against
  the specification functions of the other modules.

Randomness and the Euclidean distance are inputs:
- the city coordinates are a parameter;
- the shuffled tours are a parameter;
- each mutation iteration's draws are a parameter: a roll, plus two
  positions that are used only when the roll exceeds the chance;
- `Node::distanceTo` is a function parameter.

Doubles are modelled as exact reals.

Ties in `find_two_best` go to the earlier index. For fitnesses
`[5, 2, 2, 8]`, index 2 fails `2 < 2` against the running first-best,
passes `2 < 5` against the running second, and becomes the second-best.
`Selection.TieExample` proves the outcome (1, 2).

Note that `mutationChance` is 0.2, but a swap happens when the roll is
strictly ABOVE it, so about 80% of the iterations swap. The model keeps
this comparison exactly as written (`Mutation.MutatedCalm`).

## Model

| member | source | states |
|---|---|---|
| Permutation.Iota | executor.cpp:66-68 | definition: the seed order, whose entry i is i, the id of city i |
| Permutation.IotaIsPerm | executor.cpp:66-68 | the seed tour of all city ids is a valid tour (a permutation of 0 .. n-1) |
| Permutation.PermElements | executor.cpp:244-249 | helper: a valid donor tour visits every city id below n, so the fill finds every missing city |
| Permutation.SwapKeepsPerm | executor.cpp:269 | exchanging two positions of a valid tour leaves a valid tour |
| DistanceTable.Key | executor.cpp:58 | the key of a pair is the pair ordered smaller-first, and it is one of the two orderings |
| DistanceTable.DistanceSymmetric | executor.cpp:58 | looking up (a, b) and (b, a) reaches the same entry |
| DistanceTable.Distance | executor.cpp:174-175 | the lookup of a pair through its canonical key; the key of the swapped pair is present too and gives the same value |
| DistanceTable.FillRow | executor.cpp:55-61 | the inner loop over j > i as a function: one insert per later city, in order; every entry already present is kept with its value |
| DistanceTable.FillRows | executor.cpp:52-62 | the outer loop over rows i .. n-1 as a function: one row after another; every entry already present is kept with its value |
| DistanceTable.Insert | executor.cpp:60 | map insert adds the key, keeps every existing entry unchanged (no overwrite) and stores the value only if the key was new |
| DistanceTable.PairKeysMembers | executor.cpp:51-63 | the key set of the full table is exactly the pairs 0 <= i < j < n |
| DistanceTable.PairKeysCardinality | executor.cpp:51-63 | there are n(n-1)/2 such pairs |
| DistanceTable.FillRowTable | executor.cpp:55-61 | the inner loop over j completes row i: afterwards the table holds exactly the pairs of rows before i and of row i, each with its distance |
| DistanceTable.RowStart | executor.cpp:55 | the inner loop starts at column i + 1, so the pairs (i, j <= i) never exist |
| DistanceTable.RowEnd | executor.cpp:52 | a finished row i is the starting state of row i + 1 |
| DistanceTable.FillRowsTable | executor.cpp:52-62 | the outer loop from row i on, over ids equal to positions, ends with exactly the pairs i < j < n and their distances |
| DistanceTable.FreshTable | executor.cpp:51-63 | built from empty, the table's keys are exactly the pairs i < j < n, each holding distanceTo(city i, city j); there are n(n-1)/2 of them |
| DistanceTable.FreshTableLookup | executor.cpp:51-63 | the fresh table is complete, and a lookup of i and j in either order gives their distance |
| Fitness.MeasurablePrefix | executor.cpp:170-176 | every prefix of a measurable tour is measurable, so the partial sums of the loop are defined |
| Fitness.PathLengthShort | executor.cpp:169-170 | a tour of at most one city has length 0.0 (the loop body never runs) |
| Fitness.PathLength | executor.cpp:169-176 | the open-path sum: the table distance of every consecutive pair, added from the first pair on, with no closing edge; non-negative when every distance is |
| Fitness.PathLengthAtMost | executor.cpp:169-176 | when every distance is at most `bound`, a tour of m cities has length at most m times `bound` |
| Fitness.PermMeasurable | executor.cpp:171-175 | over a complete table and cities whose ids are their positions, every valid tour's consecutive pairs have table entries |
| Fitness.ThreeCityTour | executor.cpp:168-178 | cities (0,0), (3,0), (0,4) with distances 3, 4, 5: the open tour 0, 1, 2 has length 8, with no closing edge |
| Fitness.BestAfter | executor.cpp:181-186 | the best-tracking scan as a function: a tour replaces the running best when strictly shorter; the result is the old best or one of the tours, and never worse than the old best |
| Fitness.BestAfterStep | executor.cpp:183-186 | one more iteration of the fitness pass: the tour replaces the running best exactly when it is strictly shorter |
| Fitness.BestAfterBound | executor.cpp:180-188 | after a fitness pass the best is no worse than before, and no worse than any tour of the pass |
| Fitness.BestAfterWinner | executor.cpp:180-188 | either no tour beats the old best and it is kept unchanged, or the new best is a copy of the earliest shortest tour, strictly better than the old best |
| Fitness.Fitnesses | executor.cpp:196-197 | definition: the fitness fields that the selection loop reads, in order |
| Selection.ArgMinExcept | executor.cpp:190-209 | the selected index is -1 or a position other than the excluded one whose fitness is below DBL_MAX |
| Selection.ArgMinExceptIsEarliestMin | executor.cpp:190-209 | the selection is exactly the earliest eligible position of minimum fitness, or -1 when none is eligible |
| Selection.EarliestMinUnique | executor.cpp:190-209 | at most one index is the earliest minimum, so the selection is well defined |
| Selection.ExcludeOutside | executor.cpp:198-199 | excluding a position not yet scanned excludes nothing; this is why the old first-best becomes the second-best |
| Selection.TwoFound | executor.cpp:215-217 | when at least two positions have fitness below DBL_MAX, both indices are valid and differ, so the elite lookups are in range |
| Selection.TieExample | executor.cpp:196-206 | fitnesses 5, 2, 2, 8 select (1, 2) |
| Crossover.Without | executor.cpp:244-249 | the fill as a function: the donor's cities that the prefix lacks, in the donor's order; never longer than the donor |
| Crossover.Cross | executor.cpp:233-260 | a child has n cities and starts with its own parent's first n/2 cities |
| Crossover.CrossIsPerm | executor.cpp:233-260 | from two valid tours each child is again a valid tour |
| Crossover.WithoutMembers | executor.cpp:244-249 | the fill adds exactly the donor's cities that are missing from the prefix |
| Crossover.FillStep | executor.cpp:245-248 | one scan step appends the donor's city exactly when the child lacks it, and that city was not appended before |
| Crossover.FillPrefix | executor.cpp:244-249 | scanning a prefix of the donor yields a prefix of the full fill; once it has the full length, it is the full fill |
| Crossover.WithoutAppend | executor.cpp:244-249 | filling from a concatenated donor is the fill from each part, in order |
| Crossover.WithoutDistinct | executor.cpp:246-247 | the fill never adds a city twice |
| Crossover.WithoutLength | executor.cpp:244-249 | the fill from a valid donor adds exactly n minus the prefix length cities, so the loop stops at n |
| Mutation.Swap | executor.cpp:269 | iter_swap exchanges the two positions and leaves every other position unchanged |
| Mutation.Step | executor.cpp:265-270 | one iteration as a function: a swap of the two drawn positions when the roll is strictly above the chance, otherwise no change; the length is kept (the multiset is kept too, see MutatedMultiset) |
| Mutation.Mutated | executor.cpp:262-272 | mutation keeps the tour's length |
| Mutation.MutatedMultiset | executor.cpp:262-272 | mutation only rearranges: the multiset of cities is unchanged |
| Mutation.SwapMultiset | executor.cpp:269 | a swap keeps the multiset of cities |
| Mutation.MutatedPerm | executor.cpp:262-272 | a valid tour stays valid under mutation |
| Mutation.MutatedCalm | executor.cpp:265 | no swap happens unless a roll is strictly above the mutation chance |
| Engine.Tours | executor.cpp:229 | definition: the node lists of the population, in order |
| Engine.Brood | executor.cpp:218-227 | the breeding loop as a function: the first m children, alternating the first and second crossover child, each mutated with its own draw list; exactly m of them |
| Engine.BroodPair | executor.cpp:219-223 | one loop iteration appends the mutated first child and then the mutated second child |
| Engine.BroodChild | executor.cpp:218-227 | child k of a generation is the first crossover child (k even) or the second (k odd), mutated with draw list k, whatever the population size |
| Engine.ShortToursSelectable | executor.cpp:215-217 | when every distance is at most `bound` and n times `bound` is below DBL_MAX, two or more measured tours of n cities offer two selectable fitnesses |
| Engine.BroodPerms | executor.cpp:218-227 | bred from two valid tours, every child of a generation is a valid tour |
| Engine.Executor.constructor | executor.h:23-40 | stores both counts; no cities, tours or table entries; an empty best tour with fitness 0.0; mutation chance 0.2 |
| Engine.Executor.GenerateCities | executor.cpp:43-49 | appends cities 0 .. citiesCount-1 with the drawn coordinates and keeps earlier cities; from empty, ids equal positions |
| Engine.Executor.FillRowAt | executor.cpp:53-61 | the inner loop leaves the table as the row specification FillRow says |
| Engine.Executor.GenerateLut | executor.cpp:51-63 | the table is the two-loop specification FillRows; from empty over fresh cities it is complete, has n(n-1)/2 entries, and gives distanceTo for every pair |
| Engine.Executor.GetWayLength | executor.cpp:168-178 | returns the open-path length of the tour |
| Engine.Executor.CalcFitness | executor.cpp:180-188 | every fitness becomes its path length with the tours unchanged; the best is the scan-order result BestAfter, no worse than before and no worse than any tour |
| Engine.Executor.FindTwoBest | executor.cpp:190-209 | the returned indices are the earliest minimum and the earliest minimum among the others (ArgMinExcept), -1 where none |
| Engine.Executor.FillFrom | executor.cpp:243-257 | the child is completed with the donor's missing cities, in the donor's order, to exactly citiesCount cities |
| Engine.Executor.CrossOver | executor.cpp:233-260 | both children are Cross of their parents, valid tours, with fitness 0 and their own parent's first half |
| Engine.Executor.Mutate | executor.cpp:262-272 | the array afterwards is the mutation specification Mutated of its old contents |
| Engine.Executor.BreedPair | executor.cpp:219-221 | one iteration's two children: the crossover children, each mutated with its own draws, fitness 0 |
| Engine.Executor.Breed | executor.cpp:212-227 | exactly populationCount children; the tours are the generation Brood; every fitness is 0 |
| Engine.Executor.Repopulate | executor.cpp:218-230 | the population is replaced by the bred generation: valid tours, fitness equal to path length, and the best updated by the scan, never worse |
| Engine.Executor.NextGeneration | executor.cpp:211-231 | the elite pair is the two distinct selected indices; the new population is the generation bred from them, of populationCount valid tours; fitnesses and best are as in CalcFitness; with bounded distances and populationCount >= 2 the next generation again has two selectable fitnesses |
| Engine.Executor.AppendShuffled | executor.cpp:72-73 | appends the shuffled tour with its path length as fitness |
| Engine.Executor.SeedBest | executor.cpp:66-69 | the best tour becomes the city ids in order, with its path length as fitness |
| Engine.Executor.GenerateFirstPopulation | executor.cpp:65-75 | tour 0 is the identity tour, which is also the best; then come the shuffles, each with its path length; there are populationCount tours, or 1 when the count is 0; all are valid |

## Left out

- `load_map`, `write_map`, `init`, `print_lut`, `print_stats`,
  `time_passed`, `print_vector`, the two getters and the driver program
  do console or file I/O and timing, and are not modelled.
- The table-build trace line inside `generate_lut` is console output and
  is not modelled.
- `Node::distanceTo` (a square root of doubles) is the parameter
  `distanceTo`. The model proves nothing about the Euclidean metric.
- The random engine, `int_dist`, `real_dist`, `len_dist` and
  `shuffle_way` are replaced by their results:
  - coordinates, which must lie in 1 .. 100;
  - shuffled tours, which must be permutations;
  - mutation draws, with positions inside the tour.
  
  The model says nothing about their distribution or about how many
  values the stream consumes.
- `double` is modelled as exact `real`. Rounding in the sums of
  `get_way_length` is not modelled.
- `int` overflow of the counts and ids is not modelled. Counts are `nat`,
  because a negative count makes `reserve` throw.
- OpenMP (included by the header) plays no part in the core.
- Engine.Executor.GetWayLength: requires every consecutive pair to be in
  the table. For a missing key, `operator[]` inserts 0.0 and adds 0.0;
  that path is not modelled.
- Engine.Executor.GenerateFirstPopulation: requires an empty population
  and an empty best tour. Otherwise `_population[i]` would address a
  tour other than the one just pushed.
- Engine.Executor.NextGeneration:
  - It requires at least two tours with fitness below DBL_MAX. Otherwise
    `find_two_best` returns -1 and the source indexes out of range.
  - It re-establishes that condition only when some bound keeps every
    table distance, times `citiesCount`, below DBL_MAX. Reals do not
    overflow, but a path longer than DBL_MAX would never be selected.
  - It requires exactly one draw list per child made, an even number,
    including the dropped surplus child.
- Engine.Executor.Breed: `mutate` works on the returned pair in place.
  The model copies each child into a fresh array and mutates it there.
  Aliasing between the children and the pair is not modelled.
- `Breed`, `BreedPair`, `Repopulate`, `FillRowAt`, `FillFrom`,
  `AppendShuffled` and `SeedBest` are parts of the source's functions.
  They are split out as methods so that each proof stays small.
