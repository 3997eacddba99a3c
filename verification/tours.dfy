/** Paths over the cities, their longest jump, and the tours the search is
    looking for. */
module Tours {
  import opened Sequences

  /** Python's two-argument `max`. */
  function Max(a: int, b: int): int {
    if a >= b then a else b
  }

  /** Every consecutive pair of `p` has an entry in the table. */
  predicate EdgesIn<T(==)>(dist: map<(T, T), int>, p: seq<T>) {
    forall k :: 0 <= k < |p| - 1 ==> (p[k], p[k + 1]) in dist
  }

  /** The longest jump of a path, computed the way the search accumulates it:
      a running maximum seeded with 0 and extended by one edge per appended
      city. */
  function Bottleneck<T(==)>(dist: map<(T, T), int>, p: seq<T>): int
    requires EdgesIn(dist, p)
    decreases |p|
  {
    if |p| < 2 then 0
    else Max(Bottleneck(dist, p[..|p| - 1]), dist[(p[|p| - 2], p[|p| - 1])])
  }

  /** The running maximum is the maximum of 0 and every consecutive-pair
      weight: it bounds each of them and is either 0 or one of them. */
  lemma {:induction false} BottleneckIsMax<T>(dist: map<(T, T), int>, p: seq<T>)
    requires EdgesIn(dist, p)
    ensures 0 <= Bottleneck(dist, p)
    ensures forall k :: 0 <= k < |p| - 1 ==> dist[(p[k], p[k + 1])] <= Bottleneck(dist, p)
    ensures Bottleneck(dist, p) == 0 || exists k :: 0 <= k < |p| - 1 && dist[(p[k], p[k + 1])] == Bottleneck(dist, p)
    decreases |p|
  {
    if |p| >= 2 {
      var init := p[..|p| - 1];
      assert EdgesIn(dist, init) by {
        forall k | 0 <= k < |init| - 1
          ensures (init[k], init[k + 1]) in dist
        {
          assert init[k] == p[k] && init[k + 1] == p[k + 1];
        }
      }
      BottleneckIsMax(dist, init);
      forall k | 0 <= k < |init| - 1
        ensures dist[(p[k], p[k + 1])] <= Bottleneck(dist, p)
      {
        assert init[k] == p[k] && init[k + 1] == p[k + 1];
      }
      if Bottleneck(dist, init) != 0 && Bottleneck(dist, p) == Bottleneck(dist, init) {
        var k :| 0 <= k < |init| - 1 && dist[(init[k], init[k + 1])] == Bottleneck(dist, init);
        assert init[k] == p[k] && init[k + 1] == p[k + 1];
      }
    }
  }

  /** `p` is a Hamiltonian cycle from the first city: it lists each of `n`
      pairwise different cities once, drawn from `cities`, starting at
      `cities[0]`, and then returns to it. */
  ghost predicate HamCycle<T>(cities: seq<T>, p: seq<T>) {
    && |cities| >= 1
    && |p| == |cities| + 1
    && p[0] == cities[0]
    && p[|cities|] == cities[0]
    && Distinct(p[..|cities|])
    && forall k :: 0 <= k < |p| ==> p[k] in cities
  }

  /** A Hamiltonian cycle visits every listed city, and so a city list with a
      repeated name has none. */
  lemma HamCycleVisitsAll<T>(cities: seq<T>, p: seq<T>)
    requires HamCycle(cities, p)
    ensures Distinct(cities)
    ensures forall x :: x in cities ==> x in p[..|cities|]
  {
    var n := |cities|;
    var front := p[..n];
    DistinctBound(front, cities);
    ElemsCard(cities);
    assert Elems(front) <= Elems(cities);
    ElemsCard(front);
    SubsetEqualCard(Elems(front), Elems(cities));
    forall x | x in cities
      ensures x in front
    {
      assert x in Elems(cities);
    }
  }

  /** Listing distinct cities in the given order and returning to the first is
      a Hamiltonian cycle, so one exists whenever the names are distinct. */
  lemma ListedOrderIsTour<T>(cities: seq<T>)
    requires |cities| >= 1 && Distinct(cities)
    ensures HamCycle(cities, cities + [cities[0]])
  {
    var p := cities + [cities[0]];
    assert p[..|cities|] == cities;
  }
}
