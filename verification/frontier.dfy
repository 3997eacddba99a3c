/** The FIFO queue: one dequeue step, the order in which a queue is drained,
    and why draining ends. */
module Frontier {
  import opened DistanceTable
  import opened Expansion

  /** `b` to the power `e`. */
  ghost function Pow(b: nat, e: nat): (r: nat)
    ensures b >= 1 ==> r >= 1
  {
    if e == 0 then 1 else b * Pow(b, e - 1)
  }

  /** A path of length `L <= n + 1` weighs `(n + 1)^(n + 1 - L)`: more than
      the `n` states one city longer that can replace it. */
  ghost function Weight<T>(n: nat, s: State<T>): nat {
    if |s.path| <= n + 1 then Pow(n + 1, n + 1 - |s.path|) else 0
  }

  /** A state one entry longer than `len` weighs `(n + 1)^(n - len)`. */
  lemma WeightOfLength<T>(n: nat, t: State<T>, len: nat)
    requires |t.path| == len + 1 <= n + 1
    ensures Weight(n, t) == Pow(n + 1, n - len)
  {
  }

  /** The termination measure of the search loop. */
  ghost function Potential<T>(n: nat, q: seq<State<T>>): nat
    decreases |q|
  {
    if q == [] then 0 else Weight(n, q[0]) + Potential(n, q[1..])
  }

  /** The potential of a concatenation is the sum of the potentials. */
  lemma {:induction false} PotentialAppend<T>(n: nat, a: seq<State<T>>, b: seq<State<T>>)
    ensures Potential(n, a + b) == Potential(n, a) + Potential(n, b)
    decreases |a|
  {
    if a == [] {
      assert a + b == b;
    } else {
      assert (a + b)[1..] == a[1..] + b;
      PotentialAppend(n, a[1..], b);
    }
  }

  /** A queue whose states all weigh `w` has potential `|q| * w`. */
  lemma {:induction false} PotentialUniform<T>(n: nat, q: seq<State<T>>, w: nat)
    requires forall t :: t in q ==> Weight(n, t) == w
    ensures Potential(n, q) == |q| * w
    decreases |q|
  {
    if q != [] {
      assert q[0] in q;
      assert forall t :: t in q[1..] ==> t in q;
      PotentialUniform(n, q[1..], w);
      MulSucc(|q| - 1, w);
    }
  }

  /** One more factor adds one more `w`. */
  lemma MulSucc(k: nat, w: nat)
    ensures (k + 1) * w == k * w + w
  {
  }

  /** At most `n` copies of a positive `w` weigh less than `n + 1` copies. */
  lemma FewerIsLess(k: nat, n: nat, w: nat)
    requires k <= n && w >= 1
    ensures k * w < (n + 1) * w
  {
    MulSucc(n, w);
    assert k * w <= n * w;
  }

  /** Every state of the queue `q` has the shape of a queued state. */
  ghost predicate AllValid<T>(cities: seq<T>, dist: map<(T, T), int>, q: seq<State<T>>) {
    forall i :: 0 <= i < |q| ==> Valid(cities, dist, q[i])
  }

  /** Appending well-formed states to a well-formed queue keeps it well formed. */
  lemma AppendValid<T>(cities: seq<T>, dist: map<(T, T), int>, a: seq<State<T>>, b: seq<State<T>>)
    requires AllValid(cities, dist, a)
    requires forall t :: t in b ==> Valid(cities, dist, t)
    ensures AllValid(cities, dist, a + b)
  {
    forall i | 0 <= i < |a + b|
      ensures Valid(cities, dist, (a + b)[i])
    {
      if i >= |a| {
        assert (a + b)[i] == b[i - |a|];
      }
    }
  }

  /** The queue after one iteration of the search loop: the head is removed
      and, unless it is a goal, its successors are appended in city order. */
  ghost function Next<T>(cities: seq<T>, dist: map<(T, T), int>, q: seq<State<T>>): seq<State<T>>
    requires Covers(cities, dist)
    requires |q| >= 1 && Valid(cities, dist, q[0])
  {
    var s := q[0];
    if IsGoal(|cities|, s) then q[1..]
    else
      assert forall c :: c in cities ==> (s.current, c) in dist;
      q[1..] + Successors(|cities|, dist, s, cities)
  }

  /** A non-goal head is replaced by its successors at the back. */
  lemma NextExpands<T>(cities: seq<T>, dist: map<(T, T), int>, q: seq<State<T>>)
    requires Covers(cities, dist)
    requires |q| >= 1 && Valid(cities, dist, q[0]) && !IsGoal(|cities|, q[0])
    ensures forall x :: x in cities ==> (q[0].current, x) in dist
    ensures Next(cities, dist, q) == q[1..] + Successors(|cities|, dist, q[0], cities)
  {
  }

  /** One iteration keeps the rest of the queue in front, in order. */
  lemma NextKeepsQueue<T>(cities: seq<T>, dist: map<(T, T), int>, q: seq<State<T>>)
    requires Covers(cities, dist)
    requires |q| >= 1 && Valid(cities, dist, q[0])
    ensures |q| - 1 <= |Next(cities, dist, q)|
    ensures Next(cities, dist, q)[..|q| - 1] == q[1..]
  {
  }

  /** One iteration keeps every queued state well formed. */
  lemma NextValid<T>(cities: seq<T>, dist: map<(T, T), int>, q: seq<State<T>>)
    requires Covers(cities, dist)
    requires |q| >= 1 && AllValid(cities, dist, q)
    ensures AllValid(cities, dist, Next(cities, dist, q))
  {
    var s := q[0];
    var nq := Next(cities, dist, q);
    if !IsGoal(|cities|, s) {
      SuccessorsValid(cities, dist, s);
      NextExpands(cities, dist, q);
      var succ := Successors(|cities|, dist, s, cities);
      TailValid(cities, dist, q);
      AppendValid(cities, dist, q[1..], succ);
    } else {
      TailValid(cities, dist, q);
    }
  }

  /** Dropping the head keeps the rest of the queue well formed. */
  lemma TailValid<T>(cities: seq<T>, dist: map<(T, T), int>, q: seq<State<T>>)
    requires |q| >= 1 && AllValid(cities, dist, q)
    ensures AllValid(cities, dist, q[1..])
  {
    forall i | 0 <= i < |q| - 1
      ensures Valid(cities, dist, q[1..][i])
    {
      assert q[1..][i] == q[i + 1];
    }
  }

  /** The successors of a path with at most `n` entries weigh less than it. */
  lemma SuccessorsLighter<T>(n: nat, dist: map<(T, T), int>, s: State<T>, cands: seq<T>)
    requires 1 <= |s.path| <= n && |cands| <= n
    requires forall c :: c in cands ==> (s.current, c) in dist
    ensures Potential(n, Successors(n, dist, s, cands)) < Weight(n, s)
  {
    var succ := Successors(n, dist, s, cands);
    SuccessorsExactly(n, dist, s, cands);
    var w := Pow(n + 1, n - |s.path|);
    forall t | t in succ
      ensures Weight(n, t) == w
    {
      var c :| c in cands && Admits(n, s.path, c) && t == Step(dist, s, c);
      WeightOfLength(n, t, |s.path|);
    }
    PotentialUniform(n, succ, w);
    assert n + 1 - |s.path| == (n - |s.path|) + 1;
    assert Weight(n, s) == (n + 1) * w;
    FewerIsLess(|succ|, n, w);
  }

  /** One iteration strictly lowers the potential. */
  lemma NextDrops<T>(cities: seq<T>, dist: map<(T, T), int>, q: seq<State<T>>)
    requires Covers(cities, dist)
    requires |q| >= 1 && Valid(cities, dist, q[0])
    ensures Potential(|cities|, Next(cities, dist, q)) < Potential(|cities|, q)
  {
    var n := |cities|;
    var s := q[0];
    assert Potential(n, q) == Weight(n, s) + Potential(n, q[1..]);
    PathBounded(cities, dist, s);
    if !IsGoal(n, s) {
      NextExpands(cities, dist, q);
      SuccessorsLighter(n, dist, s, cities);
      PotentialAppend(n, q[1..], Successors(n, dist, s, cities));
    }
  }

  /** The states in the order the search dequeues them when it starts from
      queue `q`: the head, then the order for the queue one iteration later.
      Nothing queued is ever lost. */
  ghost function Trace<T>(cities: seq<T>, dist: map<(T, T), int>, q: seq<State<T>>): (r: seq<State<T>>)
    requires Covers(cities, dist)
    requires AllValid(cities, dist, q)
    ensures |q| <= |r|
    decreases Potential(|cities|, q)
  {
    if q == [] then []
    else
      NextValid(cities, dist, q);
      NextDrops(cities, dist, q);
      NextKeepsQueue(cities, dist, q);
      [q[0]] + Trace(cities, dist, Next(cities, dist, q))
  }

  /** The queue is first-in first-out: the states queued now are the first
      to come out, in their current order. */
  lemma {:induction false} TraceFifo<T>(cities: seq<T>, dist: map<(T, T), int>, q: seq<State<T>>)
    requires Covers(cities, dist)
    requires AllValid(cities, dist, q)
    ensures Trace(cities, dist, q)[..|q|] == q
    decreases Potential(|cities|, q)
  {
    if q != [] {
      NextValid(cities, dist, q);
      NextDrops(cities, dist, q);
      NextKeepsQueue(cities, dist, q);
      var nq := Next(cities, dist, q);
      TraceFifo(cities, dist, nq);
      var rest := Trace(cities, dist, nq);
      assert Trace(cities, dist, q) == [q[0]] + rest;
      PrefixOfCons(q, nq, rest);
    }
  }

  /** If `nq` starts with the tail of `q` and `rest` starts with `nq`, then
      the head of `q` followed by `rest` starts with `q`. */
  lemma PrefixOfCons<X>(q: seq<X>, nq: seq<X>, rest: seq<X>)
    requires |q| >= 1
    requires |q| - 1 <= |nq| && nq[..|q| - 1] == q[1..]
    requires |nq| <= |rest| && rest[..|nq|] == nq
    ensures ([q[0]] + rest)[..|q|] == q
  {
    assert rest[..|q| - 1] == rest[..|nq|][..|q| - 1];
    assert ([q[0]] + rest)[..|q|] == [q[0]] + rest[..|q| - 1];
    assert [q[0]] + q[1..] == q;
  }

  /** Every dequeued state is well formed. */
  lemma {:induction false} TraceValid<T>(cities: seq<T>, dist: map<(T, T), int>, q: seq<State<T>>)
    requires Covers(cities, dist)
    requires AllValid(cities, dist, q)
    ensures AllValid(cities, dist, Trace(cities, dist, q))
    decreases Potential(|cities|, q)
  {
    if q != [] {
      NextValid(cities, dist, q);
      NextDrops(cities, dist, q);
      var nq := Next(cities, dist, q);
      TraceValid(cities, dist, nq);
      var rest := Trace(cities, dist, nq);
      var r := Trace(cities, dist, q);
      assert r == [q[0]] + rest;
      forall j | 0 <= j < |r|
        ensures Valid(cities, dist, r[j])
      {
        if j > 0 {
          assert r[j] == rest[j - 1];
        }
      }
    }
  }
}
