/** Search states and how one state grows into its successors. */
module Expansion {
  import opened Sequences
  import opened DistanceTable
  import opened Tours

  /** A queue entry: the city the path ends at, the path so far, and the
      longest jump along it. */
  datatype State<T> = State(current: T, path: seq<T>, maxJump: int)

  /** The state the search starts from: the first city alone, no jump yet. */
  function Initial<T>(cities: seq<T>): State<T>
    requires |cities| >= 1
  {
    State(cities[0], [cities[0]], 0)
  }

  /** The goal test: one more entry than there are cities, ending where it
      started. */
  predicate IsGoal<T(==)>(n: nat, s: State<T>) {
    |s.path| == n + 1 && s.path[|s.path| - 1] == s.path[0]
  }

  /** The first candidate test: `c` is new to the path, or it is the start and
      the path already holds `n` different cities. */
  predicate Admits<T(==)>(n: nat, path: seq<T>, c: T)
    requires |path| >= 1
  {
    c !in path || (c == path[0] && |Elems(path)| == n)
  }

  /** The second candidate test rejects a return to the start while fewer
      than `n` different cities have been visited. */
  predicate ReturnsEarly<T(==)>(n: nat, path: seq<T>, c: T)
    requires |path| >= 1
  {
    c == path[0] && |Elems(path)| < n
  }

  /** The state reached by moving from `s` to `c`. */
  function Step<T(==)>(dist: map<(T, T), int>, s: State<T>, c: T): State<T>
    requires (s.current, c) in dist
  {
    State(c, s.path + [c], Max(s.maxJump, dist[(s.current, c)]))
  }

  /** The states enqueued when `s` is expanded over the candidates `cands`, in
      candidate order: a move to each candidate that passes both tests. */
  function Successors<T(==)>(n: nat, dist: map<(T, T), int>, s: State<T>, cands: seq<T>): seq<State<T>>
    requires |s.path| >= 1
    requires forall c :: c in cands ==> (s.current, c) in dist
    decreases |cands|
  {
    if cands == [] then []
    else
      var c := cands[|cands| - 1];
      var r := Successors(n, dist, s, cands[..|cands| - 1]);
      if Admits(n, s.path, c) && !ReturnsEarly(n, s.path, c) then r + [Step(dist, s, c)] else r
  }

  /** The successors are exactly the moves to the candidates the first test
      admits, at most one per candidate: the second test never rejects one of
      them. */
  lemma {:induction false} SuccessorsExactly<T>(n: nat, dist: map<(T, T), int>, s: State<T>, cands: seq<T>)
    requires |s.path| >= 1
    requires forall c :: c in cands ==> (s.current, c) in dist
    ensures |Successors(n, dist, s, cands)| <= |cands|
    ensures forall t :: t in Successors(n, dist, s, cands) ==>
              exists c :: c in cands && Admits(n, s.path, c) && t == Step(dist, s, c)
    ensures forall c :: c in cands && Admits(n, s.path, c) ==> Step(dist, s, c) in Successors(n, dist, s, cands)
    decreases |cands|
  {
    if cands != [] {
      var c := cands[|cands| - 1];
      var init := cands[..|cands| - 1];
      assert cands == init + [c];
      SuccessorsExactly(n, dist, s, init);
    }
  }

  /** The shape of every queued path: it starts at the first city, its last
      entry is the current city, its jump is its bottleneck, and it is either
      duplicate-free or a duplicate-free listing of `n` cities followed by a
      single return to the start. */
  ghost predicate Valid<T>(cities: seq<T>, dist: map<(T, T), int>, s: State<T>) {
    && |cities| >= 1
    && |s.path| >= 1
    && s.path[0] == cities[0]
    && s.current == s.path[|s.path| - 1]
    && (forall k :: 0 <= k < |s.path| ==> s.path[k] in cities)
    && EdgesIn(dist, s.path)
    && s.maxJump == Bottleneck(dist, s.path)
    && (|| Distinct(s.path)
        || (&& |s.path| == |cities| + 1
            && Distinct(s.path[..|cities|])
            && s.path[|cities|] == s.path[0]))
  }

  /** A queued path never exceeds `n + 1` entries; one that is not a goal is
      duplicate-free and has at most `n`. */
  lemma PathBounded<T>(cities: seq<T>, dist: map<(T, T), int>, s: State<T>)
    requires Valid(cities, dist, s)
    ensures |s.path| <= |cities| + 1
    ensures !IsGoal(|cities|, s) ==> Distinct(s.path) && |s.path| <= |cities|
  {
    if Distinct(s.path) {
      DistinctBound(s.path, cities);
    }
  }

  /** The first candidate test lets a queued non-goal path re-enter its start
      only once the path lists `n` different cities; that needs the `n` city
      names to be pairwise different, and the path to hold all of them. */
  lemma ReentryNeedsDistinct<T>(cities: seq<T>, dist: map<(T, T), int>, s: State<T>)
    requires Valid(cities, dist, s) && !IsGoal(|cities|, s)
    requires |Elems(s.path)| == |cities|
    ensures Distinct(cities)
    ensures |s.path| == |cities|
    ensures forall x :: x in cities ==> x in s.path
  {
    PathBounded(cities, dist, s);
    DistinctBound(s.path, cities);
    ElemsCard(s.path);
    ElemsCard(cities);
    assert Elems(s.path) <= Elems(cities);
    SubsetEqualCard(Elems(s.path), Elems(cities));
    forall x | x in cities
      ensures x in s.path
    {
      assert x in Elems(cities);
    }
  }

  /** For a queued state the goal test holds exactly when its path is a
      Hamiltonian cycle from the first city. */
  lemma GoalIsHamCycle<T>(cities: seq<T>, dist: map<(T, T), int>, s: State<T>)
    requires Valid(cities, dist, s)
    ensures IsGoal(|cities|, s) <==> HamCycle(cities, s.path)
  {
    PathBounded(cities, dist, s);
  }

  /** Expanding a queued non-goal state yields queued states one city longer
      that extend its path. */
  lemma SuccessorsValid<T>(cities: seq<T>, dist: map<(T, T), int>, s: State<T>)
    requires Covers(cities, dist)
    requires Valid(cities, dist, s) && !IsGoal(|cities|, s)
    ensures forall c :: c in cities ==> (s.current, c) in dist
    ensures forall t :: t in Successors(|cities|, dist, s, cities) ==>
              && Valid(cities, dist, t)
              && |t.path| == |s.path| + 1
              && t.path[..|s.path|] == s.path
  {
    var n := |cities|;
    PathBounded(cities, dist, s);
    SuccessorsExactly(n, dist, s, cities);
    forall t | t in Successors(n, dist, s, cities)
      ensures Valid(cities, dist, t) && |t.path| == |s.path| + 1 && t.path[..|s.path|] == s.path
    {
      var c :| c in cities && Admits(n, s.path, c) && t == Step(dist, s, c);
      StepValid(cities, dist, s, c);
    }
  }

  /** One admitted move from a duplicate-free queued path gives a well-formed
      state whose path extends the old one. */
  lemma StepValid<T>(cities: seq<T>, dist: map<(T, T), int>, s: State<T>, c: T)
    requires Covers(cities, dist)
    requires Valid(cities, dist, s) && Distinct(s.path) && |s.path| <= |cities|
    requires c in cities && Admits(|cities|, s.path, c)
    ensures (s.current, c) in dist
    ensures Valid(cities, dist, Step(dist, s, c))
    ensures Step(dist, s, c).path[..|s.path|] == s.path
  {
    var p := s.path + [c];
    assert p[..|s.path|] == s.path;
    assert p[..|p| - 1] == s.path;
    if c in s.path {
      ElemsCard(s.path);
      assert p[..|cities|] == s.path;
    } else {
      forall i, j | 0 <= i < j < |p|
        ensures p[i] != p[j]
      {
        if j == |p| - 1 {
          assert p[i] == s.path[i];
        }
      }
    }
  }
}
