/**
 * Value types of the travelling-salesman engine (executor.h):
 * a city, a tour together with its cached length, and the distance
 * lookup table keyed by an ordered pair of city ids.
 */
module Types {

  /** A city: its id and its integer coordinates. */
  datatype Node = Node(id: int, x: int, y: int)

  /**
   * A tour: the visiting order of city ids and its cached length.
   * A tour built with no arguments has no nodes and fitness 0.0.
   */
  datatype Way = Way(nodes: seq<int>, fitness: real)

  /** The tour every default-constructed `Way` starts as. */
  const EmptyWay: Way := Way([], 0.0)

  /**
   * The distance lookup table: an ordered map from a pair of ids to a
   * distance. Nothing in the type makes the key unordered; callers
   * canonicalise it with `DistanceTable.Key`.
   */
  type Lut = map<(int, int), real>

  /**
   * One iteration's worth of random draws for the mutation step: a
   * uniform real `roll` in [0, 1) and two uniform positions in the tour.
   * The positions are only used when the roll exceeds the mutation chance.
   */
  datatype MutationDraw = MutationDraw(roll: real, indexA: int, indexB: int)

  /** Largest finite double, the running-minimum sentinel of elite selection. */
  const DblMax: real := 179769313486231570814527423731704356798070567525844996598917476803157260780028538760589558632766878171540458953514382464234321326889464182768467546703537516986049910576551282076245490090389328944075868508455133942304583236903222948165808559332123348274797826204144723168738177180919299881250404026184124858368.0

  /** Upper bound of the generated city coordinates (lower bound is 1). */
  const ScreenWidth: int := 100
}
