/** The distance table: a map from ordered pairs of city names to weights,
    built once from a matrix indexed like the list of names. */
module DistanceTable {
  import opened Sequences

  /** Every ordered pair of cities, self-pairs included, has a weight. */
  predicate Covers<T(==)>(cities: seq<T>, dist: map<(T, T), int>) {
    forall a, b :: a in cities && b in cities ==> (a, b) in dist
  }

  /** The table has a key for each ordered pair of names and for nothing else.
      Each pair is written once per pair of positions holding those names, rows
      in the outer loop, so a name listed twice keeps the weights of its last
      position. With distinct names the entry for `(names[i], names[j])` is
      exactly `matrix[i][j]`. */
  method LoadCityDistances<T(==)>(names: seq<T>, matrix: seq<seq<int>>) returns (dist: map<(T, T), int>)
    requires |matrix| >= |names|
    requires forall i :: 0 <= i < |names| ==> |matrix[i]| >= |names|
    ensures forall a, b :: (a, b) in dist <==> a in names && b in names
    ensures forall a, b :: a in names && b in names ==>
              dist[(a, b)] == matrix[LastIndex(names, a)][LastIndex(names, b)]
    ensures Distinct(names) ==>
              forall i, j :: 0 <= i < |names| && 0 <= j < |names| ==>
                dist[(names[i], names[j])] == matrix[i][j]
  {
    dist := map[];
    var i := 0;
    while i < |names|
      invariant 0 <= i <= |names|
      invariant forall a, b :: (a, b) in dist <==> a in names[..i] && b in names
      invariant forall a, b :: a in names[..i] && b in names ==>
                  dist[(a, b)] == matrix[LastIndex(names[..i], a)][LastIndex(names, b)]
    {
      var origin := names[i];
      dist := LoadRow(names, matrix, i, dist);
      assert names[..i + 1] == names[..i] + [origin];
      forall a, b | a in names[..i + 1] && b in names
        ensures dist[(a, b)] == matrix[LastIndex(names[..i + 1], a)][LastIndex(names, b)]
      {
        LastIndexSnoc(names[..i], origin, a);
      }
      i := i + 1;
    }
    assert names[..|names|] == names;
    if Distinct(names) {
      forall i, j | 0 <= i < |names| && 0 <= j < |names|
        ensures dist[(names[i], names[j])] == matrix[i][j]
      {
        LastIndexDistinct(names, i);
        LastIndexDistinct(names, j);
      }
    }
  }

  /** One pass of the inner loop: every pair `(names[i], b)` with `b` listed
      is written with the weight of `b`'s last column, and every other entry,
      including `(names[i], x)` for an unlisted `x`, is kept. */
  method LoadRow<T(==)>(names: seq<T>, matrix: seq<seq<int>>, i: nat, dist0: map<(T, T), int>)
    returns (dist: map<(T, T), int>)
    requires i < |names| <= |matrix|
    requires |matrix[i]| >= |names|
    ensures forall a, b :: (a, b) in dist <==> (a, b) in dist0 || (a == names[i] && b in names)
    ensures forall b :: b in names ==> dist[(names[i], b)] == matrix[i][LastIndex(names, b)]
    ensures forall a, b :: (a, b) in dist0 && !(a == names[i] && b in names) ==> dist[(a, b)] == dist0[(a, b)]
  {
    var origin := names[i];
    dist := dist0;
    var j := 0;
    while j < |names|
      invariant 0 <= j <= |names|
      invariant forall a, b :: (a, b) in dist <==> (a, b) in dist0 || (a == origin && b in names[..j])
      invariant forall b :: b in names[..j] ==> dist[(origin, b)] == matrix[i][LastIndex(names[..j], b)]
      invariant forall a, b :: (a, b) in dist0 && !(a == origin && b in names[..j]) ==> dist[(a, b)] == dist0[(a, b)]
    {
      var destination := names[j];
      assert names[..j + 1] == names[..j] + [destination];
      dist := dist[(origin, destination) := matrix[i][j]];
      forall b | b in names[..j + 1]
        ensures dist[(origin, b)] == matrix[i][LastIndex(names[..j + 1], b)]
      {
        LastIndexSnoc(names[..j], destination, b);
      }
      j := j + 1;
    }
    assert names[..|names|] == names;
  }
}
