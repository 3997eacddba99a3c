# Bottleneck TSP by breadth-first search — a Dafny model

The modelled program solves the bottleneck variant of the travelling-salesman
problem. It looks for a round trip that starts at the first listed city, visits
every city once and returns. Among all such trips it picks one whose longest
single jump is as short as possible. It has two parts:

- `load_city_distances` turns a list of city names and a matrix into a table
  keyed by ordered name pairs.
- `bfs_tsp` enumerates paths from the first city with a FIFO queue of
  `(current city, path, longest jump)` triples. A path grows by a city it has
  not visited yet. It can also grow by the start city once every city has been
  visited. A path of `n + 1` entries that ends at its start is scored and never
  expanded. The search keeps the first strictly best score and returns it when
  the queue is empty.

The model keeps city names abstract: a type `T` with equality. The table is a
`map<(T, T), int>`.

- `Sequences` holds the helpers: duplicate-freeness, the element set (Python's
  `set(path)`), the pigeonhole bound and the last-occurrence index.
- `DistanceTable` models the table builder as a nested loop (`LoadCityDistances`, `LoadRow`).
- `Tours` defines the longest jump of a path (`Bottleneck`) and Hamiltonian
  cycles (`HamCycle`).
- `Expansion` defines the queue entries (`State`), the goal test, the two
  candidate tests and `Successors`.
- `Frontier` defines one loop iteration (`Next`) and the order in which the
  queue is drained (`Trace`). Termination is shown with a potential: a path of
  length `L` weighs `(n + 1)^(n + 1 - L)`.
- `BfsSearch` has the best-so-far record (`Record`, with Python's `None` as
  `Option`; `Update`, `Keep`), the search result as a pure function
  (`Result`), the imperative search (`BfsTsp`, `Drain`, `Expand`) and the
  correctness theorems.

Python's `sys.maxsize` is the constant `MaxSize = 2^63 - 1`, its value on a
64-bit CPython. The strict `<` comparison against it is kept.

Points where the model follows the code closely:

- The table builder (`BFSHomework.py:6-14`) checks neither the shape of the
  matrix nor the sign of the weights. `LoadCityDistances` only requires the
  matrix to have enough rows and columns, and negative weights are allowed.
  Because the running maximum starts at 0 (line 20), scores are floored at 0.
- The goal test at line 28 checks only the length and the endpoints of a path.
  `GoalIsHamCycle` proves that on every queued state this test holds exactly
  when the path is a Hamiltonian cycle.
- Duplicate city names are not excluded by a precondition. With a repeated
  name the re-entry test at line 37 never admits the start again
  (`ReentryNeedsDistinct`), no tour exists, and the model proves that the
  search returns no path.
- The search loop of lines 24-42 is the method `Drain`, and its inner `for`
  loop (lines 35-42) is `Expand`. `BfsTsp` sets up the queue and the record
  (lines 20-22) and runs `Drain`. Likewise the inner loop of the table builder
  (lines 12-13) is `LoadRow`.

## Model

| member | source | states |
|---|---|---|
| DistanceTable.LoadRow | BFSHomework/BFSHomework/BFSHomework.py:12-13 | one pass of the inner loop writes every pair `(names[i], b)` with the weight in the last column holding `b`, and keeps every entry for another origin |
| DistanceTable.LoadCityDistances | BFSHomework/BFSHomework/BFSHomework.py:6-14 | the table's keys are exactly the ordered pairs of listed names, self-pairs included; each pair holds the matrix entry at the last positions of its two names; with distinct names, `(names[i], names[j])` maps to `matrix[i][j]` |
| Sequences.ElemsCard | BFSHomework/BFSHomework/BFSHomework.py:37 | `len(set(path))` is at most `len(path)`, and equal exactly when the path has no repeats |
| Tours.BottleneckIsMax | BFSHomework/BFSHomework/BFSHomework.py:39-40 | the running maximum, seeded with 0, is at least 0 and at least every consecutive-pair weight, and equals 0 or one of those weights |
| Tours.HamCycleVisitsAll | BFSHomework/BFSHomework/BFSHomework.py:28 | a Hamiltonian cycle lists every city in its first `n` entries, and so exists only when the names are pairwise different |
| Tours.ListedOrderIsTour | BFSHomework/BFSHomework/BFSHomework.py:44 | with distinct names, visiting the cities in list order and returning is a Hamiltonian cycle from `cities[0]`, so a tour for line 44 to return exists (used by `DistinctNamesTourFound`) |
| Expansion.SuccessorsExactly | BFSHomework/BFSHomework/BFSHomework.py:35-42 | the enqueued states are exactly the moves to the candidates admitted at line 37, at most one per city; the early-return guard at line 41 never rejects such a candidate |
| Expansion.ReentryNeedsDistinct | BFSHomework/BFSHomework/BFSHomework.py:37 | the start can be re-entered (`len(set(path)) == len(cities)`) from a queued non-goal path only when the city names are pairwise different and the path already lists all of them |
| Expansion.PathBounded | BFSHomework/BFSHomework/BFSHomework.py:35-38 | a queued path has at most `n + 1` entries; a non-goal one has no repeats and at most `n` entries |
| Expansion.GoalIsHamCycle | BFSHomework/BFSHomework/BFSHomework.py:28 | for a queued state, the length-and-endpoint goal test holds exactly when the path is a Hamiltonian cycle from `cities[0]` |
| Expansion.StepValid | BFSHomework/BFSHomework/BFSHomework.py:37-42 | moving from a non-goal queued state to an admitted city gives a queued state that extends its path: it starts at `cities[0]`, ends at the current city, its jump is its bottleneck, and it is duplicate-free or closes once |
| Expansion.SuccessorsValid | BFSHomework/BFSHomework/BFSHomework.py:35-42 | every successor of a queued non-goal state is well formed, one city longer, and extends the parent path |
| Frontier.NextValid | BFSHomework/BFSHomework/BFSHomework.py:24-42 | one loop iteration keeps every queued state well formed |
| Frontier.NextDrops | BFSHomework/BFSHomework/BFSHomework.py:24-42 | one loop iteration strictly lowers the potential, so the loop terminates |
| Frontier.NextKeepsQueue | BFSHomework/BFSHomework/BFSHomework.py:25 | after `popleft`, the rest of the queue stays in front, in order |
| Frontier.TraceFifo | BFSHomework/BFSHomework/BFSHomework.py:24-42 | FIFO: the states queued now are the first dequeued, in their current order |
| Frontier.TraceValid | BFSHomework/BFSHomework/BFSHomework.py:20-42 | every dequeued state starts at `cities[0]`, ends at its current city, carries its bottleneck, and has the duplicate-free or closed shape |
| BfsSearch.KeepFacts | BFSHomework/BFSHomework/BFSHomework.py:29-31 | strict-improvement scoring never raises the record and ends at or below every goal's score; it either leaves the record unchanged or holds the earliest goal with the final score |
| BfsSearch.AdmitsTourCity | BFSHomework/BFSHomework/BFSHomework.py:37 | after any proper prefix of a Hamiltonian cycle, the line-37 test admits the cycle's next city |
| BfsSearch.TourPrefixExpands | BFSHomework/BFSHomework/BFSHomework.py:35-42 | expanding a proper prefix of a tour enqueues that prefix extended by one city |
| BfsSearch.PendingAdvances | BFSHomework/BFSHomework/BFSHomework.py:24-42 | while a tour is not yet dequeued, some prefix of it stays queued after each iteration |
| BfsSearch.TraceComplete | BFSHomework/BFSHomework/BFSHomework.py:24-42 | every tour with a queued prefix is eventually dequeued |
| BfsSearch.GoalsAreTours | BFSHomework/BFSHomework/BFSHomework.py:24-32 | starting from `cities[0]`, every Hamiltonian cycle is dequeued as a goal carrying its bottleneck, and a dequeued state is a goal exactly when it is such a cycle |
| BfsSearch.DequeuedGoal | BFSHomework/BFSHomework/BFSHomework.py:28-31 | a scored goal's path is a Hamiltonian cycle and its jump is that cycle's bottleneck |
| BfsSearch.ResultIsTour | BFSHomework/BFSHomework/BFSHomework.py:21-44 | the result is either `(None, sys.maxsize)` or a Hamiltonian cycle from `cities[0]` with its bottleneck below `sys.maxsize` |
| BfsSearch.ResultIsEarliest | BFSHomework/BFSHomework/BFSHomework.py:28-31 | ties go to the earliest: a returned tour is the first dequeued goal with the returned score, every goal dequeued before it scores more, and the score is below `sys.maxsize` |
| BfsSearch.ResultIsOptimal | BFSHomework/BFSHomework/BFSHomework.py:24-44 | the returned score is at most the bottleneck of every Hamiltonian cycle from `cities[0]` |
| BfsSearch.RepeatedNameNoTour | BFSHomework/BFSHomework/BFSHomework.py:35-44 | with a repeated city name the search returns `(None, sys.maxsize)` |
| BfsSearch.DistinctNamesTourFound | BFSHomework/BFSHomework/BFSHomework.py:20-44 | with distinct names and every weight below `sys.maxsize`, the search returns a path |
| BfsSearch.SingleCity | BFSHomework/BFSHomework/BFSHomework.py:20-44 | one city yields the path `[a, a]` scored `max(0, d(a, a))` |
| BfsSearch.TwoCities | BFSHomework/BFSHomework/BFSHomework.py:20-44 | two distinct cities yield `[a, b, a]` scored `max(0, d(a, b), d(b, a))` |
| BfsSearch.BfsTsp | BFSHomework/BFSHomework/BFSHomework.py:16-44 | the search returns the record from scoring the FIFO dequeue order. It is `(None, sys.maxsize)` or a Hamiltonian cycle with its bottleneck, and its score is at most every tour's bottleneck |
| BfsSearch.Drain | BFSHomework/BFSHomework/BFSHomework.py:24-42 | the `while` loop ends holding the record obtained by scoring, in FIFO order, every state dequeued from the queue it starts with |
| BfsSearch.Expand | BFSHomework/BFSHomework/BFSHomework.py:35-42 | the inner `for` loop appends exactly `Successors` of the dequeued state, in city order |
| BfsSearch.TraceStep | BFSHomework/BFSHomework/BFSHomework.py:25-32 | dequeuing and scoring one state leaves the eventual record unchanged |
| BfsSearch.GoalStep | BFSHomework/BFSHomework/BFSHomework.py:28-32 | a dequeued goal is dropped without expansion and becomes the record exactly when its jump is strictly below the record's |
| BfsSearch.ExpandStep | BFSHomework/BFSHomework/BFSHomework.py:34-42 | a dequeued non-goal is replaced at the back by its successors, the queue stays well formed, the potential drops, and the record is untouched |

## Left out

- The `__main__` example and its `print` calls are demo glue.
- The uniform-cost and heuristic-guided solvers in the repository's other two directories use different queue orders. They are not part of this model.
- An empty city list makes line 20 raise `IndexError`. `BfsTsp` requires at least one city instead of modelling the error.
- Python's `KeyError` on a missing pair is not modelled. `BfsTsp` requires a table that covers every ordered pair of cities. Self-pairs are required too, although the search reads `(a, a)` only when there is one city. A table built by `LoadCityDistances` satisfies this.
- A matrix with too few rows or columns raises `IndexError`. `LoadCityDistances` requires enough of both instead of modelling the error.
- `sys.maxsize` is fixed at its 64-bit value. On other platforms it differs.
- A tour whose longest jump is at least `sys.maxsize` is never recorded. This matches the code, which is why `DistinctNamesTourFound` assumes every weight is below it.
- `deque` performance and the exponential memory use of the queue are not modelled. Only termination is proved.
