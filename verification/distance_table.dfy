/**
 * The distance lookup table (executor.cpp, generate_lut): one entry for
 * every unordered pair of distinct cities, stored under the key
 * (smaller id, larger id).
 */
module DistanceTable {
  import opened Types

  /** The canonical key of the pair {a, b}: the smaller id first. */
  function Key(a: int, b: int): (k: (int, int))
    ensures k.0 <= k.1
    ensures k == (a, b) || k == (b, a)
  {
    (if a <= b then a else b, if a <= b then b else a)
  }

  /** The stored distance between cities `a` and `b`. */
  function Distance(lut: Lut, a: int, b: int): (r: real)
    requires Key(a, b) in lut
    ensures Key(b, a) in lut && r == lut[Key(b, a)]
  {
    lut[Key(a, b)]
  }

  /** Lookup through the canonical key does not depend on argument order. */
  lemma DistanceSymmetric(lut: Lut, a: int, b: int)
    requires Key(a, b) in lut
    ensures Key(b, a) in lut && Distance(lut, a, b) == Distance(lut, b, a)
  {
  }

  /**
   * Insertion into an ordered map that already may hold the key: the
   * key is present afterwards, an existing entry is never overwritten,
   * and no other key appears.
   */
  function Insert(lut: Lut, k: (int, int), v: real): (r: Lut)
    ensures r.Keys == lut.Keys + {k}
    ensures forall k' :: k' in lut ==> r[k'] == lut[k']
    ensures k !in lut ==> r[k] == v
  {
    if k in lut then lut else lut[k := v]
  }

  /**
   * The inner loop of the table build: row `i` from column `j` on,
   * inserting the distance of cities[i] and cities[j] under their key.
   */
  function FillRow(lut: Lut, cities: seq<Node>, distanceTo: (Node, Node) -> real,
                   i: nat, j: nat, n: nat): (r: Lut)
    requires i < j <= n <= |cities|
    ensures lut.Items <= r.Items
    decreases n - j
  {
    if j == n then lut
    else
      var a, b := cities[i], cities[j];
      FillRow(Insert(lut, Key(a.id, b.id), distanceTo(a, b)), cities, distanceTo, i, j + 1, n)
  }

  /** The outer loop of the table build: rows `i` .. n-1. */
  function FillRows(lut: Lut, cities: seq<Node>, distanceTo: (Node, Node) -> real,
                    i: nat, n: nat): (r: Lut)
    requires i <= n <= |cities|
    ensures lut.Items <= r.Items
    decreases n - i
  {
    if i == n then lut
    else FillRows(FillRow(lut, cities, distanceTo, i, i + 1, n), cities, distanceTo, i + 1, n)
  }

  /** The first `n` cities carry the ids 0 .. n-1 in order. */
  ghost predicate IdsAreIndices(cities: seq<Node>, n: nat)
  {
    n <= |cities| && forall i :: 0 <= i < n ==> cities[i].id == i
  }

  /** The table covers every pair of distinct cities below `n`. */
  ghost predicate Complete(lut: Lut, n: nat)
  {
    forall i, j :: 0 <= i < j < n ==> (i, j) in lut
  }

  /** `k` is the key of a pair of distinct cities below `n`. */
  ghost predicate IsPairKey(k: (int, int), n: nat)
  {
    0 <= k.0 < k.1 < n
  }

  /** The keys of all pairs i < j < n. */
  ghost function PairKeys(n: nat): set<(int, int)>
  {
    if n == 0 then {} else PairKeys(n - 1) + Column(n - 1, n - 1)
  }

  /** The keys (0, c), .., (m-1, c). */
  ghost function Column(c: int, m: nat): set<(int, int)>
  {
    if m == 0 then {} else Column(c, m - 1) + {(m - 1, c)}
  }

  /** The pairs inserted once rows 0 .. i-1 and columns below `j` of row `i` are done. */
  ghost predicate Done(k: (int, int), n: nat, i: int, j: int)
  {
    IsPairKey(k, n) && (k.0 < i || (k.0 == i && k.1 < j))
  }

  /** `lut` holds exactly the pairs `Done(_, n, i, j)`, each with its distance. */
  ghost predicate PartialTable(lut: Lut, cities: seq<Node>, distanceTo: (Node, Node) -> real,
                               n: nat, i: int, j: int)
    requires n <= |cities|
  {
    (forall k :: k in lut <==> Done(k, n, i, j)) &&
    (forall k :: k in lut ==> lut[k] == distanceTo(cities[k.0], cities[k.1]))
  }

  lemma {:induction false} ColumnMembers(c: int, m: nat)
    ensures |Column(c, m)| == m
    ensures forall k :: k in Column(c, m) <==> k.1 == c && 0 <= k.0 < m
  {
    if m > 0 {
      ColumnMembers(c, m - 1);
    }
  }

  lemma {:induction false} PairKeysMembers(n: nat)
    ensures forall k :: k in PairKeys(n) <==> IsPairKey(k, n)
  {
    if n > 0 {
      PairKeysMembers(n - 1);
      ColumnMembers(n - 1, n - 1);
    }
  }

  lemma {:induction false} PairKeysCardinality(n: nat)
    ensures |PairKeys(n)| == n * (n - 1) / 2
  {
    if n > 0 {
      PairKeysCardinality(n - 1);
      PairKeysMembers(n - 1);
      ColumnMembers(n - 1, n - 1);
      var rest, col := PairKeys(n - 1), Column(n - 1, n - 1);
      assert rest !! col by {
        forall k | k in col ensures k !in rest {
          assert k.1 == n - 1;
        }
      }
      assert |rest + col| == |rest| + |col|;
      Triangle(n - 1);
    }
  }

  lemma Triangle(m: nat)
    ensures (m + 1) * m / 2 == m * (m - 1) / 2 + m
  {
    assert (m + 1) * m == m * (m - 1) + 2 * m;
  }

  lemma {:induction false} FillRowTable(lut: Lut, cities: seq<Node>, distanceTo: (Node, Node) -> real,
                                        i: nat, j: nat, n: nat)
    requires i < j <= n && IdsAreIndices(cities, n)
    requires PartialTable(lut, cities, distanceTo, n, i, j)
    ensures PartialTable(FillRow(lut, cities, distanceTo, i, j, n), cities, distanceTo, n, i, n)
    decreases n - j
  {
    if j < n {
      var a, b := cities[i], cities[j];
      var next := Insert(lut, Key(a.id, b.id), distanceTo(a, b));
      assert Key(a.id, b.id) == (i, j);
      assert PartialTable(next, cities, distanceTo, n, i, j + 1);
      FillRowTable(next, cities, distanceTo, i, j + 1, n);
    }
  }

  /** No pair key lies in row i before column i + 1. */
  lemma RowStart(lut: Lut, cities: seq<Node>, distanceTo: (Node, Node) -> real, n: nat, i: nat)
    requires n <= |cities| && PartialTable(lut, cities, distanceTo, n, i, 0)
    ensures PartialTable(lut, cities, distanceTo, n, i, i + 1)
  {
    assert forall k :: Done(k, n, i, 0) <==> Done(k, n, i, i + 1);
  }

  /** A finished row i is the start of row i + 1. */
  lemma RowEnd(lut: Lut, cities: seq<Node>, distanceTo: (Node, Node) -> real, n: nat, i: nat)
    requires n <= |cities| && PartialTable(lut, cities, distanceTo, n, i, n)
    ensures PartialTable(lut, cities, distanceTo, n, i + 1, 0)
  {
    assert forall k :: Done(k, n, i, n) <==> Done(k, n, i + 1, 0);
  }

  lemma {:induction false} FillRowsTable(lut: Lut, cities: seq<Node>, distanceTo: (Node, Node) -> real,
                                         i: nat, n: nat)
    requires i <= n && IdsAreIndices(cities, n)
    requires PartialTable(lut, cities, distanceTo, n, i, 0)
    ensures PartialTable(FillRows(lut, cities, distanceTo, i, n), cities, distanceTo, n, n, 0)
    decreases n - i
  {
    if i < n {
      RowStart(lut, cities, distanceTo, n, i);
      FillRowTable(lut, cities, distanceTo, i, i + 1, n);
      var next := FillRow(lut, cities, distanceTo, i, i + 1, n);
      RowEnd(next, cities, distanceTo, n, i);
      FillRowsTable(next, cities, distanceTo, i + 1, n);
    }
  }

  /**
   * Building the table from empty over cities whose ids are their
   * positions stores exactly one entry per pair i < j, under the key
   * (i, j), holding the distance of cities i and j: n(n-1)/2 entries.
   */
  lemma FreshTable(cities: seq<Node>, distanceTo: (Node, Node) -> real, n: nat)
    requires IdsAreIndices(cities, n)
    ensures var lut := FillRows(map[], cities, distanceTo, 0, n);
      (forall k :: k in lut <==> IsPairKey(k, n)) &&
      (forall i, j :: 0 <= i < j < n ==> lut[(i, j)] == distanceTo(cities[i], cities[j])) &&
      lut.Keys == PairKeys(n) &&
      |lut| == n * (n - 1) / 2
  {
    var lut := FillRows(map[], cities, distanceTo, 0, n);
    FillRowsTable(map[], cities, distanceTo, 0, n);
    PairKeysMembers(n);
    PairKeysCardinality(n);
    assert lut.Keys == PairKeys(n);
  }

  /**
   * The freshly built table covers every pair, and looking up cities i
   * and j, in either order, gives their distance.
   */
  lemma FreshTableLookup(cities: seq<Node>, distanceTo: (Node, Node) -> real, n: nat)
    requires IdsAreIndices(cities, n)
    ensures var lut := FillRows(map[], cities, distanceTo, 0, n);
      Complete(lut, n) && |lut| == n * (n - 1) / 2 &&
      forall i, j :: 0 <= i < j < n ==>
        Key(i, j) in lut && Key(j, i) in lut &&
        Distance(lut, i, j) == distanceTo(cities[i], cities[j]) &&
        Distance(lut, j, i) == distanceTo(cities[i], cities[j])
  {
    FreshTable(cities, distanceTo, n);
    var lut := FillRows(map[], cities, distanceTo, 0, n);
    forall i, j | 0 <= i < j < n
      ensures (i, j) in lut && Key(i, j) == Key(j, i) == (i, j)
    {
      assert IsPairKey((i, j), n);
    }
  }
}
