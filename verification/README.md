# TSP solvers: a verified model

This project models the four travelling-salesman solvers of the repository and proves
properties of them:

- the depth-first branch-and-bound search of `BNB.py`;
- the minimum-spanning-tree 2-approximation of `approx.py`, with Prim's algorithm, a
  pre-order walk of the tree and the closed tour length;
- the restarting first-improvement hill climber of `hillClimbing.py`, with its
  all-pairs swap neighbourhood and visited set;
- the simulated annealer of `simanneal.py`, with the swap move, the cyclic energy,
  accept/revert, best-state tracking and the final rotation to city 1.

All distances are integer matrices. Time and randomness are explicit inputs:

- The clock is a sequence of elapsed-time readings (`Common.Clock`). Every
  `time.time()` call of the source consumes one reading. Reads past the end of the
  sequence count as past the cutoff.
- Randomness is a sequence of draws. For hill climbing these are the results of the
  successive `random.shuffle` calls; for annealing, the two move positions plus the
  outcome of the Metropolis test for each step. An annealing run stops when its draws
  run out. A hill-climbing restart needs one draw for its start, and each pass of a
  descent needs two more for its pair orders.
- Trace files become sequences of `Event(time, cost)` values.

Files:

- `common.dfy`: numbers with +infinity, `Option` and `Result`, the clock, trace
  events, distinctness and counting lemmas.
- `tours.dfy`: permutations, the swap, and the two closed-tour sums the sources use.
  These are consecutive edges plus the closing edge, and the annealer's wrap-around
  energy. Also rotations.
- `bnb.dfy`: module `BranchBound`.
- `approx.dfy`: module `MstApprox`.
- `hill_climbing.dfy`: module `HillClimbing`: the neighbourhood, the scan of a pass, and
  the reference functions `PassOf`, `DescentOf`, `RestartOf` and `RestartsOf` for the
  loops.
- `hill_climber.dfy`: module `HillClimber`: the loops as methods, each proved to compute
  what its reference function describes.
- `simanneal.dfy`: module `Annealing`.

Branch-and-bound keeps its bound doubled, so every quantity stays an integer.
`cur_bound + cur_distance < final_res` is tested as `2*bound + 2*dist < 2*res`.
The search is a pair of mutually recursive functions, `Node` (one `TSP_BNB` call) and
`Branch` (its loop over the neighbour order). They thread `visited`, the path, the
incumbent and the clock through the calls. The source restores `cur_distance` and
`cur_bound` after each candidate; the model never changes them, since the loop passes
the same values to the next candidate.

## Model

| member | source | states |
|---|---|---|
| BranchBound.SecondSmallestSpec | BNB.py:11-18 | with fewer than two values the result is +infinity; otherwise it is the second value in ascending order, a repeated minimum counting twice; it is never below the minimum |
| BranchBound.SecondSmallestUnique | BNB.py:11-18 | the second-smallest value of a list is determined by the list, so the specification above pins the loop's result down |
| BranchBound.MinOfIsLeast | BNB.py:93 | `min` of a nonempty row is an entry of the row that no entry is below |
| BranchBound.BuildMatrix | BNB.py:54-63 | the matrix is (n+1)x(n+1); row 0, column 0 and the diagonal are +infinity; every other entry is the finite distance between the two cities |
| BranchBound.SortByDistance | BNB.py:86-88 | the sorted cities are exactly the input cities, same count, without duplicates when the input has none, in non-decreasing distance |
| BranchBound.NeighbourOrders | BNB.py:85-88 | for each city 1..n the order lists the cities 1..n once each by non-decreasing distance |
| BranchBound.NeighbourOrderFacts | BNB.py:125-129 | in city c's order, c comes last; the first city is at the row minimum and the second at the row's second-smallest value, the terms the initial bound adds up |
| BranchBound.InitialBoundFinite | BNB.py:91-94 | the initial bound is finite exactly when there are at least three cities |
| BranchBound.Node | BNB.py:100-115 | one search call: on return `visited` and the path are as on entry, the incumbent is no worse, the trace is only appended to and strictly improves, a new incumbent is a closed tour through the caller's path whose length is the result, and the clock moved on |
| BranchBound.Branch | BNB.py:117-120 | the candidate loop over the last city's neighbour order, skipping visited cities, keeps the same guarantee: state restored, incumbent never worse, trace appended only |
| BranchBound.Explore | BNB.py:120-138 | one unvisited candidate, pruned or explored and then undone, leaves `visited` and the path as they were, never worsens the incumbent and only appends to the trace |
| BranchBound.LeafReturns | BNB.py:105-115 | recording a full path that beats the incumbent gives a closed tour through that path whose length is the new result and the new trace line, which returns as the caller expects |
| BranchBound.PushPath | BNB.py:122-133 | appending a city off the path keeps the path duplicate-free and adds the finite edge from the last city to the path length |
| BranchBound.PushOk | BNB.py:131-133 | pushing an unvisited city keeps `visited` equal to the path's cities and the distance equal to the path length, and shrinks the unvisited set |
| BranchBound.PopOk | BNB.py:134-135 | undoing the push after the recursive call returns `visited` and the path to what they were before the candidate |
| BranchBound.SolveWith | BNB.py:83-98 | starting at city 1 with distance 0: the result is either +infinity with no tour and no trace, or a closed tour of cities 1..n from city 1 whose length is the result and the last trace line; the trace strictly improves |
| BranchBound.SolveAsWritten | BNB.py:83-98 | `TSP` as written ends with the path back at city 1 and either no tour (+infinity, no trace) or a closed tour through cities 1..n whose length is the result, with a strictly improving trace; from three cities on it gives exactly what the corrected `Solve` gives |
| BranchBound.Solve | BNB.py:83-98 | with the corrected root bound: no tour, +infinity and no trace, or a closed tour through cities 1..n whose length is the result and the last line of a strictly improving trace |
| BranchBound.StartBound | BNB.py:91-94 | the corrected root bound is finite, and equals the initial bound from three cities on |
| BranchBound.InfiniteBoundPrunes | BNB.py:130 | with an infinite bound every candidate is pruned and the incumbent is unchanged |
| BranchBound.TwoCitiesAsWritten | BNB.py:91-98 | as written, two cities end with +infinity, no tour and no trace, whatever the clock |
| BranchBound.TwoCitiesRecord | BNB.py:91-98 | with the corrected bound and two clock readings below the cutoff, two cities do record a tour |
| BranchBound.TwoCitiesCorrected | BNB.py:91-98 | with the corrected bound, two cities and two clock readings below the cutoff give the tour 1 -> 2 -> 1 and a trace line |
| MstApprox.CheapestCrossing | approx.py:34-42 | the scan returns a tree-to-outside pair whose cost no pair is below, and every pair scanned before it costs strictly more (strict `<` keeps the first minimum) |
| MstApprox.ScanRow | approx.py:37-42 | scanning the tree vertices against one outside vertex keeps the scan invariant: the kept pair is the first cheapest among all pairs scanned so far |
| MstApprox.CrossingIsRound | approx.py:35-46 | the pair the scan picks is a valid round: u in the tree, v outside, c its cost, minimal, ties resolved in scan order |
| MstApprox.RunRound | approx.py:34-46 | in a Prim run, edge k is the round choice on the tree of the vertices that joined before it |
| MstApprox.ExtendRun | approx.py:43-46 | appending a round's edge extends the run and moves its vertex into the tree |
| MstApprox.AllBut | approx.py:25-30 | `nodes` starts as every vertex except the root, in increasing order |
| MstApprox.Prim | approx.py:23-47 | n-1 edges, each a round choice; the vertices in joining order are a permutation of 0..n-1 starting at the root; no edge adds the root; each other vertex is added by exactly one edge |
| MstApprox.SpanningFacts | approx.py:29-46 | when the joining order is a permutation, the root is never added, no vertex is added twice, and every other vertex is added |
| MstApprox.PreorderSpec | approx.py:50-57 | the pre-order below a vertex lists each of its descendants exactly once |
| MstApprox.PreorderCoversAll | approx.py:50-57 | the pre-order from the root has one entry per vertex, no repeats, and lists every vertex of the tree |
| MstApprox.PreorderParents | approx.py:56 | in the pre-order every vertex after the first comes after its parent |
| MstApprox.NamesReached | approx.py:50-57 | each vertex of the walk after the first is reached by a tree edge from a vertex listed earlier |
| MstApprox.Dfs | approx.py:50-57 | no edge means the traversal fails; otherwise it starts at `edges[0][0]`, the root, lists every tree vertex exactly once, and reaches each vertex by a tree edge from an earlier one |
| MstApprox.PrimIsTreeShape | approx.py:92-93 | the edges Prim returns have the shape the traversal needs: each edge's first endpoint joined before its second |
| MstApprox.Approx | approx.py:69-94 | the edges are the n-1 round choices of Prim's run from the root, in tree shape; the tour is exactly their pre-order traversal, which fails exactly for a single vertex; the tour is a permutation of 0..n-1 starting at the root and the reported length is its closed length |
| Tours.TourLength | approx.py:60-66 | the loop sums consecutive edges and then the closing edge: the closed tour length |
| Tours.EnergyIsTourCost | simanneal.py:212-217 | the annealer's wrap-around energy equals the consecutive-edges-plus-closing-edge length of `calPathDistances` and `distance` |
| Tours.TourCostRotate | simanneal.py:271-272 | rotating a tour leaves its closed length unchanged |
| Tours.Swap | hillClimbing.py:70-72 | positions i and j exchange their cities and every other position is unchanged |
| Tours.SwapTwice | hillClimbing.py:70-72 | swapping the same positions again restores the path |
| Tours.SwapPerm | hillClimbing.py:65-73 | a swap of a permutation is a permutation |
| HillClimbing.Pairs | hillClimbing.py:55-63 | the generator yields |xs|*|ys| pairs, exactly the pairs of an x from xs and a y from ys, starting with the first of each |
| HillClimbing.PairsDistinct | hillClimbing.py:55-63 | when both shuffles are duplicate-free, no pair is yielded twice |
| HillClimbing.Moves | hillClimbing.py:67-69 | exactly the yielded pairs with i < j are kept |
| HillClimbing.Neighbours | hillClimbing.py:65-73 | neighbour k is the path with the positions of the k-th kept pair exchanged |
| HillClimbing.NeighbourhoodSpec | hillClimbing.py:65-73 | every neighbour of a permutation is a permutation, and every exchange of two positions i < j is among the neighbours |
| HillClimbing.NeighboursArePerms | hillClimbing.py:65-73 | every pair the generator yields for a permutation is a pair of positions of the path, and every neighbour is a permutation |
| HillClimbing.NeighbourIsExchange | hillClimbing.py:65-73 | each neighbour is the path with two positions i < j exchanged |
| HillClimbing.NoNeighboursOfOne | hillClimbing.py:65-73 | a one-city path has no neighbour |
| HillClimbing.FirstStop | hillClimbing.py:106-115 | the scan of a neighbourhood from position k stops at the first neighbour strictly below the local score and not yet visited, read before the cutoff; every neighbour it passed was read before the cutoff and rejected; without a hit it stops at the end or at the first clock reading past the cutoff |
| HillClimbing.Scan | hillClimbing.py:106-115 | the loop over the neighbours stops where `FirstStop` does, with the score of the neighbour it took, having read the clock once per neighbour it looked at |
| HillClimbing.RecordOk | hillClimbing.py:118-125 | recording a tour keeps the global best well formed, never raises it, extends the trace, and leaves it no higher than the tour |
| HillClimbing.MoveOk | hillClimbing.py:112-128 | taking a move and adding it to the visited set keeps the global best below every visited tour |
| HillClimbing.ScanStuck | hillClimbing.py:106-115 | a pass that rejects its whole neighbourhood leaves a tour none of whose two-position exchanges is both shorter and unvisited |
| HillClimbing.PassHalted | hillClimbing.py:106-132 | a pass that took no neighbour ended at the end of the neighbourhood, where the tour is stuck, or at a clock reading past the cutoff |
| HillClimbing.DescentStep | hillClimbing.py:112-128 | appending an accepted neighbour (an exchange of the last tour, strictly shorter, unvisited) extends the descent |
| HillClimbing.TakeKeeps | hillClimbing.py:112-128 | appending an accepted neighbour to the route, adding it to the visited set and recording it keeps the route a descent, the local score its last tour's length, the visited set the start's plus the moved-to tours, and the global best no higher and below every visited tour |
| HillClimbing.Take | hillClimbing.py:112-128 | taking an accepted neighbour appends it to the route and the visited set and records it in the global best, reading the clock for a new best; the descent's bookkeeping is kept |
| HillClimbing.LookOf | hillClimbing.py:106-115 | a neighbour the scan of a pass finds is a tour; the scan only reads the clock forward |
| HillClimbing.LookFacts | hillClimbing.py:106-132 | the neighbour the scan finds is a two-position exchange of the tour, strictly shorter and unvisited; without one the tour is stuck or a clock reading was past the cutoff; a single city has nothing to find |
| HillClimbing.ScanFrom | hillClimbing.py:106-115 | the scan of the neighbourhood in the order of the two shuffles yields what `LookOf` describes, with the score of the neighbour it took |
| HillClimbing.Look | hillClimbing.py:106-129 | the scan of a pass yields exactly what `LookOf` describes: either an exchange of the tour that is strictly shorter and unvisited, with its score, or nothing, and then the tour is stuck or a clock reading was past the cutoff; a single city has nothing to find |
| HillClimbing.PassOf | hillClimbing.py:112-132 | a pass moves exactly when its scan found a neighbour, and then that neighbour is appended to the route; it only reads the clock forward |
| HillClimber.Pass | hillClimbing.py:103-132 | one iteration of `while True` does exactly what `PassOf` describes for the scan `LookOf` describes: it moves to a strictly shorter tour and records it, or changes nothing but the clock, and then the tour is stuck or the cutoff passed |
| HillClimbing.DescentOf | hillClimbing.py:103-132 | the `while True` loop uses up at most the remaining draws and only reads the clock forward |
| HillClimber.DescendStep | hillClimbing.py:103-132 | one pass with the next two draws: after a move the rest of the descent from the new state is the rest of the descent from the old one; without a move the descent ends here, stuck or past the cutoff |
| HillClimber.Descend | hillClimbing.py:103-132 | the descent computes exactly what `DescentOf` describes and returns the route it moved through: it starts at the start tour; each later tour is a two-position exchange of the one before, strictly shorter and not visited before; exactly the moved-to tours join the visited set; the last tour is no longer than the start; it ends stuck, past the cutoff, or short of draws; the global best stays no higher and below every visited tour; nothing changes for a single city |
| HillClimbing.FirstFresh | hillClimbing.py:95-97 | the restart is the first drawn tour not already visited; every draw skipped was visited |
| HillClimbing.RestartOf | hillClimbing.py:95-132 | a corrected restart uses up at most the remaining draws and only reads the clock forward |
| HillClimber.Restart | hillClimbing.py:95-132 | a corrected restart computes exactly what `RestartOf` describes and leaves the global best no higher than its start and below every visited tour |
| HillClimbing.NextRestart | hillClimbing.py:92-132 | the restart from draw m leaves the next unused draw after m and keeps the clock's readings |
| HillClimbing.RestartsOf | hillClimbing.py:92-132 | the outer loop uses up at most the remaining draws and keeps the clock's readings |
| HillClimber.RestartsUnfold | hillClimbing.py:92-101 | a turn of the outer loop with the clock below the cutoff and a fresh draw hands the rest of the run to the state after that restart |
| HillClimber.RestartsStop | hillClimbing.py:92-97 | the outer loop ends only when the draws run out, when every draw left was visited, or at a clock reading not below the cutoff |
| HillClimber.RestartFromAsWritten | hillClimbing.py:95-132 | the restart as written, from the drawn tour, is the state `NextRestart` describes, and keeps the global best well formed and below every visited tour |
| HillClimber.TurnAsWritten | hillClimbing.py:92-132 | one turn of the outer loop as written: either the run goes on from a state with the same rest of the run, or it stops at the state where `RestartsOf` ends |
| HillClimber.HillClimbAsWritten | hillClimbing.py:76-136 | `hillClimbing` as written returns the global best and visited set `RestartsOf` describes; the global best is well formed and below every visited tour; for one city it is the sentinel 1e20 with no tour |
| HillClimber.RestartFrom | hillClimbing.py:95-132 | the corrected restart from the drawn tour is the state `NextRestart` describes, adds the start to the recorded starts, and keeps the global best no higher than any start or visited tour |
| HillClimber.ClimbTurn | hillClimbing.py:92-132 | one turn of the corrected outer loop: either the run goes on from a state with the same rest of the run, or it stops at the state where `RestartsOf` ends; the first turn with the clock below the cutoff makes a restart |
| HillClimber.HillClimb | hillClimbing.py:76-136 | corrected climber: returns the global best, visited set and starts `RestartsOf` describes; the global best is no higher than any start or visited tour, and once a restart has happened a tour is reported |
| Annealing.EnergyOf | simanneal.py:212-217 | the loop computes the cyclic energy; for a nonempty state that is the closed tour length, for an empty one 0 |
| Annealing.Move | simanneal.py:201-210 | the move exchanges the two drawn positions and returns exactly the energy after minus the energy before; equal positions change nothing and return 0 |
| Annealing.SwapIdPerm | simanneal.py:208 | swapping two positions of a list of distinct ids keeps it a list of the same distinct ids |
| Annealing.CopyState | simanneal.py:101-117 | copying succeeds exactly for the three known strategies, returns an equal state, and fails with a message otherwise |
| Annealing.Step | simanneal.py:150-168 | the move exchanges the two drawn positions; a move that does not go uphill is always accepted; it is rejected exactly when it goes uphill and the Metropolis test fails, and then the state and energy are the ones before the move; the state stays a rearrangement of the input and the energy is its energy |
| Annealing.Iterate | simanneal.py:147-173 | one pass of the loop: the state is the step's; a rejected step changes only the clock; an accepted one is appended to the accepted states; the best energy never rises, and when it falls the best is the new state with its energy; otherwise best and trace are unchanged |
| Annealing.Run | simanneal.py:147-179 | the loop run from a state ends with the current state set to the best, a best energy no higher than before, and the trace and accepted states only extended |
| Annealing.DownhillFirstAccepted | simanneal.py:158-168 | when the first move does not go uphill and the clock allows a step, that move is the first state the run accepts |
| Annealing.RejectedFirstRestores | simanneal.py:158-161 | when the first move goes uphill and is rejected, the run is the one from the same state, best and trace, one clock reading later |
| Annealing.AcceptKeepsBest | simanneal.py:162-173 | accepting a state keeps the best-state record; a strictly lower energy becomes the new best with one trace line |
| Annealing.IterateKeeps | simanneal.py:162-173 | one pass of the loop keeps the state a rearrangement of the initial one and keeps the best-state bookkeeping |
| Annealing.RunBestInv | simanneal.py:135-179 | whatever the draws and the clock, the run ends in a best state that is a rearrangement of the initial one, no higher than the initial energy, that no accepted state is below, and that the last line of a strictly improving trace reports |
| Annealing.AnnealStep | simanneal.py:148-173 | the loop body with its `prevState` and `prevEnergy` bookkeeping does exactly what `Iterate` describes, and afterwards `prevState` is the state and the energy is its energy |
| Annealing.Anneal | simanneal.py:119-188 | before the loop, fails exactly when `Tmin <= 0`, when `Tmax <= 0` (the logarithm of `Tmax / Tmin`) or when the copy strategy is unknown; otherwise it returns exactly the `Run` from the initial state: it ends in the best state, a rearrangement of the initial one whose energy no accepted state is below, no higher than the initial energy, with a strictly improving trace ending at it |
| Annealing.RotateToOne | simanneal.py:271-272 | the rotation stops at the first occurrence of city 1, which then leads, and is a rotation of the input |
| Annealing.EnergyRotate | simanneal.py:271-272 | rotating the state leaves its cyclic energy unchanged |
| Annealing.DecrementPerm | simanneal.py:273-274 | decrementing ids 1..n gives a permutation of 0..n-1 |
| Annealing.RunAnneal | simanneal.py:262-278 | the written tour starts at city 1, has the same ids as the input, its energy is the reported one and no greater than the initial tour's, and the route is that tour renumbered from 0 |

## Left out

- File reading and output writing, as I/O: `TSP_Read.read_file`'s reading loop, `read`, `getPosition`, the file handling of `mst_approx`, `runBranchAndBound`, `runHillClimbing` and `runAnneal`. Trace lines are values, not file writes.
- Euclidean distances with `sqrt` and `round`, as floating point. Distances are an integer matrix.
- Hill climbing's float distances truncated by `int()`. The model sums integer distances, so it does not model the truncation of a float sum.
- Python's float sentinels: `float('inf')` is the `Inf` case of `Ext`; `1e20` is the integer `InitialScore`.
- HillClimber.HillClimb: assumes every tour is shorter than the 1e20 sentinel, which real distance files satisfy; without it, a run could keep the sentinel.
- The cooling schedule, `math.exp` and the Metropolis comparison, as floating point. Each step's outcome is the `uphillRejected` flag of its draw.
- Annealing.Anneal: its "fails exactly when" covers only the checks before the loop. It does not model two floating-point errors inside the loop, because the Metropolis test is the `uphillRejected` flag and the temperature is not computed. One is the `ZeroDivisionError` of `-dE / T` (simanneal.py:158) once the temperature underflows to 0.0 in a long run. The other is the `OverflowError` of `math.exp` in the temperature (simanneal.py:149) when 0 < Tmax < Tmin: `Tfactor` (simanneal.py:133) is then positive, so the temperature grows with every step until `math.exp` overflows.
- Annealing.Run and HillClimber.Descend: a run also ends when its oracle draws run out, which the source, with an unbounded random generator, never does.
- The wall clock is a sequence of readings. The source's separate reads of the start time and the final duration are not modelled.
- `random.seed`, `random.shuffle`, `random.randint` and `random.random` are oracle inputs. Shuffles are permutations and positions are in range; nothing else is assumed about them.
- `numpy.argsort` is modelled by any order that sorts by distance, plus one concrete insertion sort. The search's contracts hold for every such order, so the unstable tie order does not matter.
- `networkx.dfs_preorder_nodes` is modelled as an explicit pre-order: the children of a vertex are visited in the order of their edges.
- Signal handling, pickle save and load, `deepcopy`, the `abc` machinery and the update-counter reset of `anneal`: none of them affects the results.
- `round_figures` and `time_string`: unused, and float arithmetic.
- `tsp_main.py`: command-line parsing and dispatch only. tsp_main.py is not part of this model.
- Annealing: the model uses city ids 1..n as numbers; the source uses the ids as strings and converts them with `int`.
- Annealing.RotateToOne: requires city 1 to be present, because the source loops forever without it.
- MstApprox.Prim and MstApprox.Approx: require every cost below `sys.maxsize`. The source would otherwise keep no edge in a round and fail.
- Inputs with no city at all are excluded. Every solver indexes its first city or path element.
- The 2-approximation ratio of the MST tour is not stated; it holds only for metric distances, which rounding does not preserve.

## Findings

| source | as written | input that shows it | evidently intended | confidence | as-written member | corrected member |
|---|---|---|---|---|---|---|
| hillClimbing.py:95-101 | the random start of each restart is never compared with the global best; only tours reached by a move are recorded | a single city: there is no move, so the result is the 1e20 sentinel with an empty tour | the start is a tour too and is recorded like any other | not executed | HillClimber.HillClimbAsWritten | HillClimber.HillClimb |
| BNB.py:91-98 | the initial bound adds each row's second-smallest entry, which is +infinity with only two cities, so every candidate at the root is pruned | two cities, both clock readings below the cutoff: the result stays +infinity with no tour | a finite lower bound, so the only tour 1 -> 2 -> 1 is found | not executed | BranchBound.TwoCitiesAsWritten | BranchBound.TwoCitiesCorrected |
