/** The breadth-first search itself: the best-so-far record, the loop that
    drains the queue, and why its answer is an optimal bottleneck tour. */
module BfsSearch {
  import opened Sequences
  import opened DistanceTable
  import opened Tours
  import opened Expansion
  import opened Frontier

  /** `sys.maxsize` on a 64-bit CPython, the record's value before any tour
      has been scored. */
  const MaxSize: int := 0x7fff_ffff_ffff_ffff

  /** The conventional optional value; `None` stands for Python's `None`. */
  datatype Option<+T> = None | Some(value: T)

  /** The best tour found so far and its longest jump. */
  datatype Record<T> = Record(bestPath: Option<seq<T>>, minMaxJump: int)

  /** Scoring a dequeued state: a goal replaces the record only when its
      longest jump is strictly smaller. */
  ghost function Update<T>(n: nat, rec: Record<T>, s: State<T>): Record<T> {
    if IsGoal(n, s) && s.maxJump < rec.minMaxJump then Record(Some(s.path), s.maxJump) else rec
  }

  /** The record after scoring every state of `tr` in order. */
  ghost function Keep<T>(n: nat, tr: seq<State<T>>, rec: Record<T>): Record<T>
    decreases |tr|
  {
    if tr == [] then rec else Keep(n, tr[1..], Update(n, rec, tr[0]))
  }

  /** Entry `j` of `tr` is a goal scoring `m`, and every goal before it scores
      more than `m`. */
  ghost predicate FirstBest<T>(n: nat, tr: seq<State<T>>, j: int, m: int) {
    && 0 <= j < |tr|
    && IsGoal(n, tr[j])
    && tr[j].maxJump == m
    && forall i :: 0 <= i < j && IsGoal(n, tr[i]) ==> tr[i].maxJump > m
  }

  /** Scoring a sequence of states never raises the record, ends at or below
      every goal's score, and either leaves the record alone or ends holding
      the earliest goal that reaches the final score. */
  lemma {:induction false} KeepFacts<T>(n: nat, tr: seq<State<T>>, rec: Record<T>)
    ensures Keep(n, tr, rec).minMaxJump <= rec.minMaxJump
    ensures forall j :: 0 <= j < |tr| && IsGoal(n, tr[j]) ==> Keep(n, tr, rec).minMaxJump <= tr[j].maxJump
    ensures || Keep(n, tr, rec) == rec
            || (&& Keep(n, tr, rec).bestPath.Some?
                && Keep(n, tr, rec).minMaxJump < rec.minMaxJump
                && exists j :: FirstBest(n, tr, j, Keep(n, tr, rec).minMaxJump)
                               && tr[j].path == Keep(n, tr, rec).bestPath.value)
    decreases |tr|
  {
    if tr != [] {
      var rec' := Update(n, rec, tr[0]);
      var r := Keep(n, tr, rec);
      assert r == Keep(n, tr[1..], rec');
      KeepFacts(n, tr[1..], rec');
      forall j | 0 <= j < |tr| && IsGoal(n, tr[j])
        ensures r.minMaxJump <= tr[j].maxJump
      {
        if j > 0 {
          assert tr[j] == tr[1..][j - 1];
        }
      }
      if r == rec' {
        if rec' != rec {
          assert FirstBest(n, tr, 0, r.minMaxJump);
        }
      } else {
        var j :| FirstBest(n, tr[1..], j, r.minMaxJump) && tr[1..][j].path == r.bestPath.value;
        forall i | 0 <= i < j + 1 && IsGoal(n, tr[i])
          ensures tr[i].maxJump > r.minMaxJump
        {
          if i > 0 {
            assert tr[i] == tr[1..][i - 1];
          }
        }
        assert FirstBest(n, tr, j + 1, r.minMaxJump);
      }
    }
  }

  /** Some prefix of the tour `c` is still waiting in the queue. */
  ghost predicate Pending<T>(q: seq<State<T>>, c: seq<T>) {
    exists i, k :: 0 <= i < |q| && 1 <= k <= |c| && q[i].path == c[..k]
  }

  /** After a prefix of a tour, the first test admits the tour's next city. */
  lemma AdmitsTourCity<T>(cities: seq<T>, c: seq<T>, k: nat)
    requires HamCycle(cities, c) && 1 <= k <= |cities|
    ensures Admits(|cities|, c[..k], c[k])
  {
    var n := |cities|;
    if k < n {
      forall i | 0 <= i < k
        ensures c[..k][i] != c[k]
      {
        assert c[..k][i] == c[..n][i] && c[k] == c[..n][k];
      }
    } else {
      ElemsCard(c[..n]);
    }
  }

  /** One iteration keeps some prefix of a not yet dequeued tour queued. */
  lemma PendingAdvances<T>(cities: seq<T>, dist: map<(T, T), int>, q: seq<State<T>>, c: seq<T>)
    requires Covers(cities, dist)
    requires |q| >= 1 && Valid(cities, dist, q[0])
    requires HamCycle(cities, c) && Pending(q, c) && q[0].path != c
    ensures Pending(Next(cities, dist, q), c)
  {
    var n := |cities|;
    var i, k :| 0 <= i < |q| && 1 <= k <= |c| && q[i].path == c[..k];
    var nq := Next(cities, dist, q);
    NextKeepsQueue(cities, dist, q);
    if i > 0 {
      assert nq[i - 1] == q[1..][i - 1];
    } else {
      var s := q[0];
      assert k < |c|;
      assert !IsGoal(n, s);
      NextExpands(cities, dist, q);
      var succ := Successors(n, dist, s, cities);
      TourPrefixExpands(cities, dist, s, c, k);
      var m :| 0 <= m < |succ| && succ[m].path == c[..k + 1];
      assert nq[|q| - 1 + m] == succ[m];
    }
  }

  /** Expanding a proper prefix of a tour enqueues the prefix one city longer. */
  lemma TourPrefixExpands<T>(cities: seq<T>, dist: map<(T, T), int>, s: State<T>, c: seq<T>, k: nat)
    requires Valid(cities, dist, s) && !IsGoal(|cities|, s)
    requires forall x :: x in cities ==> (s.current, x) in dist
    requires HamCycle(cities, c) && 1 <= k < |c| && s.path == c[..k]
    ensures exists m :: 0 <= m < |Successors(|cities|, dist, s, cities)|
                        && Successors(|cities|, dist, s, cities)[m].path == c[..k + 1]
  {
    var succ := Successors(|cities|, dist, s, cities);
    SuccessorsExactly(|cities|, dist, s, cities);
    AdmitsTourCity(cities, c, k);
    var t := Step(dist, s, c[k]);
    PrefixSnoc(c, k);
    assert t.path == c[..k + 1];
    assert t in succ;
  }

  /** Every tour with a queued prefix is eventually dequeued. */
  lemma {:induction false} TraceComplete<T>(cities: seq<T>, dist: map<(T, T), int>, q: seq<State<T>>, c: seq<T>)
    requires Covers(cities, dist)
    requires AllValid(cities, dist, q)
    requires HamCycle(cities, c) && Pending(q, c)
    ensures exists j :: 0 <= j < |Trace(cities, dist, q)| && Trace(cities, dist, q)[j].path == c
    decreases Potential(|cities|, q)
  {
    var r := Trace(cities, dist, q);
    TraceFifo(cities, dist, q);
    if q[0].path == c {
      assert r[0] == r[..|q|][0] == q[0];
    } else {
      NextValid(cities, dist, q);
      NextDrops(cities, dist, q);
      PendingAdvances(cities, dist, q, c);
      var nq := Next(cities, dist, q);
      TraceComplete(cities, dist, nq, c);
      var rest := Trace(cities, dist, nq);
      assert r == [q[0]] + rest;
      var j :| 0 <= j < |rest| && rest[j].path == c;
      assert r[j + 1] == rest[j];
    }
  }

  /** The search started from the first city dequeues every Hamiltonian cycle
      from it, each as a goal state, and dequeues no other goal. */
  lemma GoalsAreTours<T>(cities: seq<T>, dist: map<(T, T), int>)
    requires |cities| >= 1 && Covers(cities, dist)
    ensures forall j :: 0 <= j < |Trace(cities, dist, [Initial(cities)])| ==>
              (IsGoal(|cities|, Trace(cities, dist, [Initial(cities)])[j])
               <==> HamCycle(cities, Trace(cities, dist, [Initial(cities)])[j].path))
    ensures forall c :: HamCycle(cities, c) ==>
              exists j :: && 0 <= j < |Trace(cities, dist, [Initial(cities)])|
                          && Trace(cities, dist, [Initial(cities)])[j].path == c
                          && IsGoal(|cities|, Trace(cities, dist, [Initial(cities)])[j])
                          && Trace(cities, dist, [Initial(cities)])[j].maxJump == Bottleneck(dist, c)
  {
    var q := [Initial(cities)];
    var tr := Trace(cities, dist, q);
    TraceValid(cities, dist, q);
    forall j | 0 <= j < |tr|
      ensures IsGoal(|cities|, tr[j]) <==> HamCycle(cities, tr[j].path)
    {
      GoalIsHamCycle(cities, dist, tr[j]);
    }
    forall c | HamCycle(cities, c)
      ensures exists j :: && 0 <= j < |tr| && tr[j].path == c && IsGoal(|cities|, tr[j])
                          && tr[j].maxJump == Bottleneck(dist, c)
    {
      assert q[0].path == c[..1];
      TraceComplete(cities, dist, q, c);
      var j :| 0 <= j < |tr| && tr[j].path == c;
      GoalIsHamCycle(cities, dist, tr[j]);
    }
  }

  /** The record the search ends with: every dequeued state scored in FIFO
      order, starting from no path and `MaxSize`. */
  ghost function Result<T>(cities: seq<T>, dist: map<(T, T), int>): Record<T>
    requires |cities| >= 1 && Covers(cities, dist)
  {
    Keep(|cities|, Trace(cities, dist, [Initial(cities)]), Record(None, MaxSize))
  }

  /** The search returns either no path and `MaxSize`, or a Hamiltonian cycle
      from the first city together with its longest jump, below `MaxSize`. */
  lemma ResultIsTour<T>(cities: seq<T>, dist: map<(T, T), int>)
    requires |cities| >= 1 && Covers(cities, dist)
    ensures Result(cities, dist).bestPath.None? ==> Result(cities, dist).minMaxJump == MaxSize
    ensures Result(cities, dist).bestPath.Some? ==>
              && HamCycle(cities, Result(cities, dist).bestPath.value)
              && Result(cities, dist).minMaxJump == Bottleneck(dist, Result(cities, dist).bestPath.value)
              && Result(cities, dist).minMaxJump < MaxSize
  {
    var n := |cities|;
    var tr := Trace(cities, dist, [Initial(cities)]);
    var r := Result(cities, dist);
    ResultIsEarliest(cities, dist);
    if r.bestPath.Some? {
      var j :| FirstBest(n, tr, j, r.minMaxJump) && tr[j].path == r.bestPath.value;
      DequeuedGoal(cities, dist, j);
    }
  }

  /** Ties go to the earliest: a returned tour is the first dequeued goal
      with the returned score, and every goal dequeued before it scores
      more. */
  lemma ResultIsEarliest<T>(cities: seq<T>, dist: map<(T, T), int>)
    requires |cities| >= 1 && Covers(cities, dist)
    ensures Result(cities, dist).bestPath.None? ==> Result(cities, dist).minMaxJump == MaxSize
    ensures Result(cities, dist).bestPath.Some? ==> Result(cities, dist).minMaxJump < MaxSize
    ensures Result(cities, dist).bestPath.Some? ==>
              exists j :: && FirstBest(|cities|, Trace(cities, dist, [Initial(cities)]), j, Result(cities, dist).minMaxJump)
                          && Trace(cities, dist, [Initial(cities)])[j].path == Result(cities, dist).bestPath.value
  {
    KeepFacts(|cities|, Trace(cities, dist, [Initial(cities)]), Record(None, MaxSize));
  }

  /** A goal dequeued by the search is a Hamiltonian cycle carrying its
      bottleneck. */
  lemma DequeuedGoal<T>(cities: seq<T>, dist: map<(T, T), int>, j: nat)
    requires |cities| >= 1 && Covers(cities, dist)
    requires j < |Trace(cities, dist, [Initial(cities)])|
    requires IsGoal(|cities|, Trace(cities, dist, [Initial(cities)])[j])
    ensures HamCycle(cities, Trace(cities, dist, [Initial(cities)])[j].path)
    ensures Trace(cities, dist, [Initial(cities)])[j].maxJump == Bottleneck(dist, Trace(cities, dist, [Initial(cities)])[j].path)
  {
    var tr := Trace(cities, dist, [Initial(cities)]);
    TraceValid(cities, dist, [Initial(cities)]);
    GoalIsHamCycle(cities, dist, tr[j]);
  }

  /** The returned score is at most the longest jump of every Hamiltonian
      cycle from the first city: the queue is drained, so every such tour was
      dequeued and scored. */
  lemma ResultIsOptimal<T>(cities: seq<T>, dist: map<(T, T), int>)
    requires |cities| >= 1 && Covers(cities, dist)
    ensures forall c :: HamCycle(cities, c) ==> Result(cities, dist).minMaxJump <= Bottleneck(dist, c)
  {
    var n := |cities|;
    var tr := Trace(cities, dist, [Initial(cities)]);
    KeepFacts(n, tr, Record(None, MaxSize));
    GoalsAreTours(cities, dist);
  }

  /** With a repeated name no tour exists, and the search returns no path. */
  lemma RepeatedNameNoTour<T>(cities: seq<T>, dist: map<(T, T), int>)
    requires |cities| >= 1 && Covers(cities, dist)
    requires !Distinct(cities)
    ensures Result(cities, dist).bestPath.None?
    ensures Result(cities, dist).minMaxJump == MaxSize
  {
    ResultIsTour(cities, dist);
    var r := Result(cities, dist);
    if r.bestPath.Some? {
      HamCycleVisitsAll(cities, r.bestPath.value);
    }
  }

  /** With distinct names and every weight below `MaxSize`, the search
      returns a tour. */
  lemma DistinctNamesTourFound<T>(cities: seq<T>, dist: map<(T, T), int>)
    requires |cities| >= 1 && Covers(cities, dist)
    requires Distinct(cities)
    requires forall a, b :: a in cities && b in cities ==> dist[(a, b)] < MaxSize
    ensures Result(cities, dist).bestPath.Some?
  {
    var c := cities + [cities[0]];
    ListedOrderIsTour(cities);
    assert EdgesIn(dist, c) by {
      forall k | 0 <= k < |c| - 1
        ensures (c[k], c[k + 1]) in dist
      {
        assert c[k] in cities && c[k + 1] in cities;
      }
    }
    var b := Bottleneck(dist, c);
    BottleneckIsMax(dist, c);
    if b != 0 {
      var k :| 0 <= k < |c| - 1 && dist[(c[k], c[k + 1])] == b;
      assert c[k] in cities && c[k + 1] in cities;
    }
    ResultIsOptimal(cities, dist);
    assert Result(cities, dist).minMaxJump <= b;
    ResultIsTour(cities, dist);
  }

  /** A single city: the only tour leaves the city and comes straight back,
      scoring the self-pair weight floored at 0. */
  lemma SingleCity<T>(a: T, dist: map<(T, T), int>)
    requires Covers([a], dist)
    requires dist[(a, a)] < MaxSize
    ensures Result([a], dist) == Record(Some([a, a]), Max(0, dist[(a, a)]))
  {
    DistinctNamesTourFound([a], dist);
    ResultIsTour([a], dist);
    var p := Result([a], dist).bestPath.value;
    assert p[1] in [a];
    assert p == [a, a];
  }

  /** Two distinct cities: the only tour goes there and back, scoring the
      larger of the two directed weights floored at 0. */
  lemma TwoCities<T>(a: T, b: T, dist: map<(T, T), int>)
    requires a != b && Covers([a, b], dist)
    requires forall x, y :: x in [a, b] && y in [a, b] ==> dist[(x, y)] < MaxSize
    ensures Result([a, b], dist) == Record(Some([a, b, a]), Max(Max(0, dist[(a, b)]), dist[(b, a)]))
  {
    DistinctNamesTourFound([a, b], dist);
    ResultIsTour([a, b], dist);
    var p := Result([a, b], dist).bestPath.value;
    assert p[1] in [a, b] && p[1] != p[0];
    assert p == [a, b, a];
    assert [a, b][..1] == [a] && [a, b, a][..2] == [a, b];
    assert Bottleneck(dist, [a, b]) == Max(0, dist[(a, b)]);
  }

  /** The breadth-first search from the first city. The result is the record
      left after scoring the dequeued states in FIFO order, and it is an
      optimal bottleneck tour whenever one is recorded. */
  method BfsTsp<T(==)>(cities: seq<T>, dist: map<(T, T), int>) returns (bestPath: Option<seq<T>>, minMaxJump: int)
    requires |cities| >= 1
    requires Covers(cities, dist)
    ensures Record(bestPath, minMaxJump) == Result(cities, dist)
    ensures bestPath.None? ==> minMaxJump == MaxSize
    ensures bestPath.Some? ==> HamCycle(cities, bestPath.value) && minMaxJump == Bottleneck(dist, bestPath.value)
    ensures forall c :: HamCycle(cities, c) ==> minMaxJump <= Bottleneck(dist, c)
  {
    var queue := [State(cities[0], [cities[0]], 0)];
    bestPath, minMaxJump := Drain(cities, dist, queue, None, MaxSize);
    ResultIsTour(cities, dist);
    ResultIsOptimal(cities, dist);
  }

  /** The search loop: dequeue the head, score it if it is a goal, and
      otherwise expand it, until the queue is empty. The record it ends with
      is the one obtained by scoring the FIFO dequeue order. */
  method Drain<T(==)>(cities: seq<T>, dist: map<(T, T), int>, queue0: seq<State<T>>,
                      bestPath0: Option<seq<T>>, minMaxJump0: int)
    returns (bestPath: Option<seq<T>>, minMaxJump: int)
    requires Covers(cities, dist)
    requires AllValid(cities, dist, queue0)
    ensures Record(bestPath, minMaxJump) == Keep(|cities|, Trace(cities, dist, queue0), Record(bestPath0, minMaxJump0))
  {
    var n := |cities|;
    ghost var final := Keep(n, Trace(cities, dist, queue0), Record(bestPath0, minMaxJump0));
    var queue := queue0;
    bestPath := bestPath0;
    minMaxJump := minMaxJump0;
    while |queue| > 0
      invariant AllValid(cities, dist, queue)
      invariant Keep(n, Trace(cities, dist, queue), Record(bestPath, minMaxJump)) == final
      decreases Potential(n, queue)
    {
      ghost var before := queue;
      ghost var rec := Record(bestPath, minMaxJump);
      var s := queue[0];
      queue := queue[1..];
      if |s.path| == n + 1 && s.path[|s.path| - 1] == s.path[0] {
        GoalStep(cities, dist, before, rec);
        if s.maxJump < minMaxJump {
          bestPath := Some(s.path);
          minMaxJump := s.maxJump;
        }
        continue;
      }
      ExpandStep(cities, dist, before, rec);
      queue := Expand(cities, dist, s, queue);
    }
  }

  /** The inner loop of the search: each city in order is appended as a move
      from `s` when both candidate tests let it through. */
  method Expand<T(==)>(cities: seq<T>, dist: map<(T, T), int>, s: State<T>, queue: seq<State<T>>)
    returns (queue': seq<State<T>>)
    requires |s.path| >= 1
    requires forall x :: x in cities ==> (s.current, x) in dist
    ensures queue' == queue + Successors(|cities|, dist, s, cities)
  {
    var n := |cities|;
    queue' := queue;
    var k := 0;
    while k < n
      invariant 0 <= k <= n
      invariant queue' == queue + Successors(n, dist, s, cities[..k])
    {
      var next := cities[k];
      assert cities[..k + 1] == cities[..k] + [next];
      if next !in s.path || (next == s.path[0] && |Elems(s.path)| == n) {
        var newPath := s.path + [next];
        var newJump := dist[(s.current, next)];
        var newMax := Max(s.maxJump, newJump);
        if !(next == s.path[0] && |Elems(s.path)| < n) {
          queue' := queue' + [State(next, newPath, newMax)];
        }
      }
      k := k + 1;
    }
    assert cities[..n] == cities;
  }

  /** One iteration of the search loop, from queue `q` and record `rec` to
      `q'` and `rec'`: dequeuing the head and scoring it leaves the final
      record unchanged. */
  lemma TraceStep<T>(cities: seq<T>, dist: map<(T, T), int>, q: seq<State<T>>, rec: Record<T>)
    requires Covers(cities, dist)
    requires |q| >= 1 && AllValid(cities, dist, q)
    ensures AllValid(cities, dist, Next(cities, dist, q))
    ensures Potential(|cities|, Next(cities, dist, q)) < Potential(|cities|, q)
    ensures Keep(|cities|, Trace(cities, dist, q), rec)
            == Keep(|cities|, Trace(cities, dist, Next(cities, dist, q)), Update(|cities|, rec, q[0]))
  {
    NextValid(cities, dist, q);
    NextDrops(cities, dist, q);
    var rest := Trace(cities, dist, Next(cities, dist, q));
    assert Trace(cities, dist, q) == [q[0]] + rest;
    assert ([q[0]] + rest)[1..] == rest;
  }

  /** An iteration that dequeues a goal: the goal is dropped, and it becomes
      the record exactly when its longest jump is strictly smaller. */
  lemma GoalStep<T>(cities: seq<T>, dist: map<(T, T), int>, q: seq<State<T>>, rec: Record<T>)
    requires Covers(cities, dist)
    requires |q| >= 1 && AllValid(cities, dist, q) && IsGoal(|cities|, q[0])
    ensures AllValid(cities, dist, q[1..])
    ensures Potential(|cities|, q[1..]) < Potential(|cities|, q)
    ensures q[0].maxJump < rec.minMaxJump ==>
              Keep(|cities|, Trace(cities, dist, q), rec)
              == Keep(|cities|, Trace(cities, dist, q[1..]), Record(Some(q[0].path), q[0].maxJump))
    ensures q[0].maxJump >= rec.minMaxJump ==>
              Keep(|cities|, Trace(cities, dist, q), rec) == Keep(|cities|, Trace(cities, dist, q[1..]), rec)
  {
    TraceStep(cities, dist, q, rec);
  }

  /** An iteration that dequeues a non-goal: it is replaced by its successors
      at the back, and the record is untouched. */
  lemma ExpandStep<T>(cities: seq<T>, dist: map<(T, T), int>, q: seq<State<T>>, rec: Record<T>)
    requires Covers(cities, dist)
    requires |q| >= 1 && AllValid(cities, dist, q) && !IsGoal(|cities|, q[0])
    ensures |q[0].path| >= 1 && forall x :: x in cities ==> (q[0].current, x) in dist
    ensures AllValid(cities, dist, q[1..] + Successors(|cities|, dist, q[0], cities))
    ensures Potential(|cities|, q[1..] + Successors(|cities|, dist, q[0], cities)) < Potential(|cities|, q)
    ensures Keep(|cities|, Trace(cities, dist, q), rec)
            == Keep(|cities|, Trace(cities, dist, q[1..] + Successors(|cities|, dist, q[0], cities)), rec)
  {
    NextExpands(cities, dist, q);
    TraceStep(cities, dist, q, rec);
  }
}
