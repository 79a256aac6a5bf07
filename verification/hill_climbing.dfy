/** The restarting first-improvement hill climber of hillClimbing.py. The random
    generator is an oracle: `draws` lists, in order, the results of the successive
    `random.shuffle` calls on `range(n)` (one per random start, two per neighbourhood
    for the pair orders). A restart is made only while a draw remains for its start,
    and a descent pass only while two remain for its pair orders; a descent short of
    them ends where it stands. */
module HillClimbing {
  import opened Common
  import opened Tours

  /** `globalScore = 1e20`, the score reported when no tour was ever recorded. */
  const InitialScore: int := 100_000_000_000_000_000_000

  // ---------------------------------------------------------------------------
  // Neighbourhood

  /** The pairs (x, j) for j taken from `ys` in order. */
  function Row(x: nat, ys: seq<nat>): (r: seq<(nat, nat)>)
    ensures |r| == |ys|
    ensures forall b | 0 <= b < |ys| :: r[b] == (x, ys[b])
    ensures forall q: (nat, nat) :: q in r <==> q.0 == x && q.1 in ys
  {
    if ys == [] then [] else [(x, ys[0])] + Row(x, ys[1..])
  }

  lemma MulSucc(a: nat, b: nat)
    ensures (a + 1) * b == b + a * b
  {
  }

  /** `genRandomPairs`, with its two shuffles given: all pairs (i, j), i taken from
      `xs` in order and, for each, j taken from `ys` in order. */
  function Pairs(xs: seq<nat>, ys: seq<nat>): (r: seq<(nat, nat)>)
    ensures |r| == |xs| * |ys|
    ensures forall q: (nat, nat) :: q in r <==> q.0 in xs && q.1 in ys
    ensures xs != [] && ys != [] ==> r[0] == (xs[0], ys[0])
  {
    if xs == [] then []
    else
      var rest := Pairs(xs[1..], ys);
      assert xs == [xs[0]] + xs[1..];
      MulSucc(|xs[1..]|, |ys|);
      Row(xs[0], ys) + rest
  }

  /** Given duplicate-free shuffles, every pair occurs exactly once. */
  lemma {:induction false} PairsDistinct(xs: seq<nat>, ys: seq<nat>)
    requires Distinct(xs) && Distinct(ys)
    ensures Distinct(Pairs(xs, ys))
    decreases |xs|
  {
    if xs != [] {
      var r := Pairs(xs, ys);
      var row := Row(xs[0], ys);
      var rest := Pairs(xs[1..], ys);
      assert r == row + rest;
      PairsDistinct(xs[1..], ys);
      assert xs[0] !in xs[1..];
      DistinctConcat(row, rest);
    }
  }

  /** The pairs `genNeighbor` keeps: those with i < j, in the generated order. */
  function Moves(pairs: seq<(nat, nat)>): (r: seq<(nat, nat)>)
    ensures |r| <= |pairs|
    ensures forall q: (nat, nat) :: q in r <==> q in pairs && q.0 < q.1
    ensures forall k | 0 <= k < |r| :: r[k].0 < r[k].1
  {
    if pairs == [] then []
    else (if pairs[0].0 < pairs[0].1 then [pairs[0]] else []) + Moves(pairs[1..])
  }

  /** `genNeighbor(path)`: a copy of the path with positions i and j exchanged, for
      each kept pair in order. */
  function Neighbours(path: seq<nat>, pairs: seq<(nat, nat)>): (r: seq<seq<nat>>)
    requires forall q | q in pairs :: q.0 < |path| && q.1 < |path|
    ensures |r| == |Moves(pairs)|
    ensures forall k | 0 <= k < |r| :: r[k] == Swap(path, Moves(pairs)[k].0, Moves(pairs)[k].1)
  {
    var m := Moves(pairs);
    assert forall k | 0 <= k < |m| :: m[k] in pairs;
    seq(|m|, k requires 0 <= k < |m| => Swap(path, m[k].0, m[k].1))
  }

  /** The neighbours of a tour are tours, each obtained by one exchange i < j. */
  lemma NeighboursArePerms(n: nat, path: seq<nat>, xs: seq<nat>, ys: seq<nat>)
    requires IsPerm(path, n) && IsPerm(xs, n) && IsPerm(ys, n)
    ensures forall q | q in Pairs(xs, ys) :: q.0 < |path| && q.1 < |path|
    ensures forall k | 0 <= k < |Neighbours(path, Pairs(xs, ys))| ::
              IsPerm(Neighbours(path, Pairs(xs, ys))[k], n)
  {
    var pairs := Pairs(xs, ys);
    forall q | q in pairs ensures q.0 < |path| && q.1 < |path| {
      var a :| 0 <= a < |xs| && xs[a] == q.0;
      var b :| 0 <= b < |ys| && ys[b] == q.1;
    }
    var ns := Neighbours(path, pairs);
    var m := Moves(pairs);
    forall k | 0 <= k < |ns| ensures IsPerm(ns[k], n) {
      assert m[k] in m;
      SwapPerm(path, n, m[k].0, m[k].1);
    }
  }

  /** The neighbours of a tour are tours, each obtained by one exchange i < j, and with
      shuffles of all positions every exchange i < j is among them. */
  lemma NeighbourhoodSpec(n: nat, path: seq<nat>, xs: seq<nat>, ys: seq<nat>)
    requires IsPerm(path, n) && IsPerm(xs, n) && IsPerm(ys, n)
    ensures forall q | q in Pairs(xs, ys) :: q.0 < |path| && q.1 < |path|
    ensures forall k | 0 <= k < |Neighbours(path, Pairs(xs, ys))| ::
              IsPerm(Neighbours(path, Pairs(xs, ys))[k], n)
    ensures forall i, j | 0 <= i < j < n :: Swap(path, i, j) in Neighbours(path, Pairs(xs, ys))
  {
    NeighboursArePerms(n, path, xs, ys);
    PermCovers(xs, n);
    PermCovers(ys, n);
    var pairs := Pairs(xs, ys);
    var ns := Neighbours(path, pairs);
    var m := Moves(pairs);
    forall i, j | 0 <= i < j < n ensures Swap(path, i, j) in ns {
      assert (i, j) in m;
      var k :| 0 <= k < |m| && m[k] == (i, j);
      assert ns[k] == Swap(path, i, j);
    }
  }

  /** A single city has no exchange i < j, hence no neighbour. */
  lemma NoNeighboursOfOne(path: seq<nat>, xs: seq<nat>, ys: seq<nat>)
    requires |path| == 1 && IsPerm(xs, 1) && IsPerm(ys, 1)
    ensures forall q | q in Pairs(xs, ys) :: q.0 < |path| && q.1 < |path|
    ensures Neighbours(path, Pairs(xs, ys)) == []
  {
    NeighbourhoodSpec(1, [0], xs, ys);
  }

  // ---------------------------------------------------------------------------
  // One pass over the neighbourhood

  /** A neighbour is taken when it is strictly shorter and not visited before. */
  predicate Accepts(d: seq<seq<nat>>, nb: seq<nat>, localScore: int, seen: set<seq<nat>>)
    requires IsMatrix(d) && Within(nb, d) && |nb| >= 1
  {
    TourCost(d, nb) < localScore && nb !in seen
  }

  /** The clock after `k` more reads. */
  function After(c: Clock, k: nat): (r: Clock)
    ensures r.readings == c.readings && r.next == c.next + k
  {
    c.(next := c.next + k)
  }

  /** Where a pass over `ns` stops, from position `k` on, and whether it took the
      neighbour there. */
  datatype Stop = Stop(at: nat, found: bool)

  /** The stopping rule of the `for neighbor in genNeighbor(localPath)` loop: the clock
      is read before each neighbour, and the pass stops at the first reading past the
      cutoff, at the first acceptable neighbour, or at the end. */
  function FirstStop(d: seq<seq<nat>>, cutoff: nat, ns: seq<seq<nat>>, localScore: int,
                     seen: set<seq<nat>>, clock: Clock, k: nat): (r: Stop)
    requires IsMatrix(d) && k <= |ns| && forall m | 0 <= m < |ns| :: Within(ns[m], d) && |ns[m]| >= 1
    ensures k <= r.at <= |ns|
    ensures forall m | k <= m < r.at ::
              Now(After(clock, m), cutoff) <= cutoff && !Accepts(d, ns[m], localScore, seen)
    ensures r.found ==> r.at < |ns| && Now(After(clock, r.at), cutoff) <= cutoff
                        && Accepts(d, ns[r.at], localScore, seen)
    ensures !r.found && r.at < |ns| ==> Now(After(clock, r.at), cutoff) > cutoff
    decreases |ns| - k
  {
    if k == |ns| then Stop(k, false)
    else if Now(After(clock, k), cutoff) > cutoff then Stop(k, false)
    else if Accepts(d, ns[k], localScore, seen) then Stop(k, true)
    else FirstStop(d, cutoff, ns, localScore, seen, clock, k + 1)
  }

  /** The `for neighbor in genNeighbor(localPath)` loop: before each neighbour the clock
      is read and the pass stops once the reading exceeds the cutoff; otherwise the
      first acceptable neighbour ends the pass. Returns its position `k` (or where the
      pass stopped), whether one was found, and its score. */
  method Scan(d: seq<seq<nat>>, cutoff: nat, ns: seq<seq<nat>>, localScore: int,
              seen: set<seq<nat>>, clock: Clock)
    returns (k: nat, found: bool, score: nat, clock': Clock)
    requires IsMatrix(d) && forall m | 0 <= m < |ns| :: Within(ns[m], d) && |ns[m]| >= 1
    ensures k <= |ns|
    ensures forall m | 0 <= m < k ::
              Now(After(clock, m), cutoff) <= cutoff && !Accepts(d, ns[m], localScore, seen)
    ensures found ==> k < |ns| && Now(After(clock, k), cutoff) <= cutoff
                      && Accepts(d, ns[k], localScore, seen) && score == TourCost(d, ns[k])
    ensures !found && k < |ns| ==> Now(After(clock, k), cutoff) > cutoff
    ensures clock' == After(clock, if k < |ns| then k + 1 else k)
    ensures Stop(k, found) == FirstStop(d, cutoff, ns, localScore, seen, clock, 0)
  {
    k, found, score, clock' := 0, false, 0, clock;
    while k < |ns|
      invariant k <= |ns| && clock' == After(clock, k)
      invariant forall m | 0 <= m < k ::
                  Now(After(clock, m), cutoff) <= cutoff && !Accepts(d, ns[m], localScore, seen)
      invariant FirstStop(d, cutoff, ns, localScore, seen, clock, k)
                == FirstStop(d, cutoff, ns, localScore, seen, clock, 0)
    {
      var t := Now(clock', cutoff);
      clock' := Tick(clock');
      if t > cutoff {
        return;
      }
      var s := TourLength(d, ns[k]);
      if s < localScore && ns[k] !in seen {
        found, score := true, s;
        return;
      }
      k := k + 1;
    }
  }

  // ---------------------------------------------------------------------------
  // Descent and restarts

  /** The global best: score, tour and trace lines. */
  datatype Best = Best(score: int, path: seq<nat>, trace: seq<Event>)

  /** The global best is the initial sentinel with no tour and no trace, or the last
      trace line's score, which is the closed length of the recorded tour. */
  predicate BestOk(n: nat, d: seq<seq<nat>>, b: Best)
    requires IsMatrix(d) && |d| == n
  {
    && Improving(b.trace)
    && (b.trace == [] <==> b.path == [])
    && (b.trace == [] ==> b.score == InitialScore)
    && (b.trace != [] ==> IsPerm(b.path, n) && n >= 1 && b.score == TourCost(d, b.path)
                          && b.score == b.trace[|b.trace| - 1].cost)
    && (forall i | 0 <= i < |b.trace| :: b.score <= b.trace[i].cost < InitialScore)
  }

  /** The global best as `if localScore < globalScore` leaves it after a tour of
      score `s` was taken, with `t` the clock reading for the trace line. */
  function Record(b: Best, tour: seq<nat>, s: int, t: nat): (r: Best)
  {
    if s < b.score then Best(s, tour, b.trace + [Event(t, s)]) else b
  }

  /** Recording a tour keeps the global best well formed, never raises it, extends
      the trace, and leaves it no higher than the tour's score. */
  lemma RecordOk(n: nat, d: seq<seq<nat>>, b: Best, tour: seq<nat>, t: nat)
    requires IsMatrix(d) && |d| == n && BestOk(n, d, b) && IsPerm(tour, n) && n >= 1
    ensures BestOk(n, d, Record(b, tour, TourCost(d, tour), t))
    ensures Record(b, tour, TourCost(d, tour), t).score <= b.score
    ensures Record(b, tour, TourCost(d, tour), t).score <= TourCost(d, tour)
    ensures b.trace <= Record(b, tour, TourCost(d, tour), t).trace
  {
    var s := TourCost(d, tour);
    if s < b.score {
      var r := Record(b, tour, s, t);
      assert r.trace[|r.trace| - 1].cost == s;
      forall i, j | 0 <= i < j < |r.trace| ensures r.trace[j].cost < r.trace[i].cost {
        if j == |r.trace| - 1 {
          assert b.score <= b.trace[i].cost;
        }
      }
    }
  }

  predicate SeenOk(n: nat, seen: set<seq<nat>>) {
    forall p | p in seen :: IsPerm(p, n)
  }

  /** No visited tour is shorter than the global best. */
  predicate BelowSeen(d: seq<seq<nat>>, score: int, seen: set<seq<nat>>)
    requires IsMatrix(d)
  {
    forall p | p in seen :: Within(p, d) && |p| >= 1 && score <= TourCost(d, p)
  }

  /** Every draw is a shuffle of `range(n)`. */
  predicate DrawsOk(n: nat, draws: seq<seq<nat>>) {
    forall k | 0 <= k < |draws| :: IsPerm(draws[k], n)
  }

  /** Where a run stands relative to an earlier point: the global best is well formed,
      not above any visited tour, no higher than before and with the earlier trace as
      a prefix; the visited set only grew. */
  predicate Progress(n: nat, d: seq<seq<nat>>, best0: Best, seen0: set<seq<nat>>,
                     best: Best, seen: set<seq<nat>>)
    requires IsMatrix(d) && |d| == n
  {
    && BestOk(n, d, best) && SeenOk(n, seen) && BelowSeen(d, best.score, seen)
    && seen0 <= seen && best.score <= best0.score && best0.trace <= best.trace
  }

  /** Lowering the global best keeps it below every tour it was below. */
  lemma BelowSeenMono(d: seq<seq<nat>>, score: int, score': int, seen: set<seq<nat>>)
    requires IsMatrix(d) && BelowSeen(d, score, seen) && score' <= score
    ensures BelowSeen(d, score', seen)
  {
  }

  /** Taking a move to `tour`: record it as global best if it beats it, and add it to
      the visited set. */
  lemma MoveOk(n: nat, d: seq<seq<nat>>, best0: Best, seen0: set<seq<nat>>,
               best: Best, seen: set<seq<nat>>, tour: seq<nat>, t: nat)
    requires IsMatrix(d) && |d| == n && n >= 1 && IsPerm(tour, n)
    requires Progress(n, d, best0, seen0, best, seen)
    ensures Progress(n, d, best0, seen0, Record(best, tour, TourCost(d, tour), t), seen + {tour})
  {
    RecordOk(n, d, best, tour, t);
    var r := Record(best, tour, TourCost(d, tour), t);
    BelowSeenMono(d, best.score, r.score, seen);
  }

  /** `b` is `a` with two positions i < j exchanged. */
  predicate IsExchange(n: nat, a: seq<nat>, b: seq<nat>)
    requires |a| == n
  {
    exists i, j | 0 <= i < j < n :: b == Swap(a, i, j)
  }

  /** The tours a descent passes through: each later tour is an exchange of the one
      before, strictly shorter, and not visited before the descent. */
  predicate IsDescent(n: nat, d: seq<seq<nat>>, seen: set<seq<nat>>, route: seq<seq<nat>>)
    requires IsMatrix(d) && |d| == n
  {
    && |route| >= 1 && n >= 1
    && (forall k | 0 <= k < |route| :: IsPerm(route[k], n))
    && (forall k | 1 <= k < |route| ::
          && IsExchange(n, route[k - 1], route[k])
          && TourCost(d, route[k]) < TourCost(d, route[k - 1])
          && route[k] !in seen)
  }

  /** No exchange of two positions of `local` is both strictly shorter and unvisited:
      a full pass over its neighbourhood moves nowhere. */
  predicate Stuck(n: nat, d: seq<seq<nat>>, local: seq<nat>, seen: set<seq<nat>>)
    requires IsMatrix(d) && |d| == n && IsPerm(local, n) && n >= 1
  {
    forall i, j | 0 <= i < j < n ::
      Swap(local, i, j) in seen || TourCost(d, Swap(local, i, j)) >= TourCost(d, local)
  }

  /** Why a pass moved nowhere: the tour is stuck, or the clock reading taken last
      (the one before `clock.next`) was past the cutoff. */
  predicate Halted(n: nat, d: seq<seq<nat>>, cutoff: nat, local: seq<nat>, seen: set<seq<nat>>,
                   clock: Clock)
    requires IsMatrix(d) && |d| == n && IsPerm(local, n) && n >= 1
  {
    || Stuck(n, d, local, seen)
    || (clock.next >= 1 && Now(Clock(clock.readings, clock.next - 1), cutoff) > cutoff)
  }

  /** The neighbour at position m of the neighbourhood is an exchange of the tour. */
  lemma NeighbourIsExchange(n: nat, path: seq<nat>, xs: seq<nat>, ys: seq<nat>, m: nat)
    requires IsPerm(path, n) && IsPerm(xs, n) && IsPerm(ys, n)
    requires forall q | q in Pairs(xs, ys) :: q.0 < |path| && q.1 < |path|
    requires m < |Neighbours(path, Pairs(xs, ys))|
    ensures IsExchange(n, path, Neighbours(path, Pairs(xs, ys))[m])
  {
    var mv := Moves(Pairs(xs, ys));
    assert mv[m] in mv;
    var i, j := mv[m].0, mv[m].1;
    assert Neighbours(path, Pairs(xs, ys))[m] == Swap(path, i, j);
  }

  /** A pass that rejected every neighbour leaves the tour stuck. */
  lemma ScanStuck(n: nat, d: seq<seq<nat>>, path: seq<nat>, xs: seq<nat>, ys: seq<nat>,
                  seen: set<seq<nat>>)
    requires IsMatrix(d) && |d| == n && n >= 1
    requires IsPerm(path, n) && IsPerm(xs, n) && IsPerm(ys, n)
    requires forall q | q in Pairs(xs, ys) :: q.0 < |path| && q.1 < |path|
    requires forall m | 0 <= m < |Neighbours(path, Pairs(xs, ys))| ::
               IsPerm(Neighbours(path, Pairs(xs, ys))[m], n) &&
               !Accepts(d, Neighbours(path, Pairs(xs, ys))[m], TourCost(d, path), seen)
    ensures Stuck(n, d, path, seen)
  {
    var ns := Neighbours(path, Pairs(xs, ys));
    NeighbourhoodSpec(n, path, xs, ys);
    forall i, j | 0 <= i < j < n
      ensures Swap(path, i, j) in seen || TourCost(d, Swap(path, i, j)) >= TourCost(d, path)
    {
      var m :| 0 <= m < |ns| && ns[m] == Swap(path, i, j);
      assert !Accepts(d, ns[m], TourCost(d, path), seen);
    }
  }

  /** The tours a descent moved to, after its start. */
  function Moved(route: seq<seq<nat>>): set<seq<nat>>
    requires |route| >= 1
  {
    set p | p in route[1..]
  }

  /** Extending a descent by an accepted neighbour. */
  lemma DescentStep(n: nat, d: seq<seq<nat>>, seen: set<seq<nat>>, route: seq<seq<nat>>,
                    next: seq<nat>)
    requires IsMatrix(d) && |d| == n && IsDescent(n, d, seen, route)
    requires IsPerm(next, n) && IsExchange(n, route[|route| - 1], next)
    requires TourCost(d, next) < TourCost(d, route[|route| - 1]) && next !in seen
    ensures IsDescent(n, d, seen, route + [next])
  {
    var r := route + [next];
    forall k | 0 <= k < |r| ensures IsPerm(r[k], n) {
      if k < |route| {
        assert r[k] == route[k];
      }
    }
    forall k | 1 <= k < |r|
      ensures IsExchange(n, r[k - 1], r[k]) && TourCost(d, r[k]) < TourCost(d, r[k - 1]) && r[k] !in seen
    {
      if k < |route| {
        assert r[k] == route[k] && r[k - 1] == route[k - 1];
      } else {
        assert r[k] == next && r[k - 1] == route[|route| - 1];
      }
    }
  }

  lemma MovedSnoc(route: seq<seq<nat>>, next: seq<nat>)
    requires |route| >= 1
    ensures Moved(route + [next]) == Moved(route) + {next}
  {
    assert (route + [next])[1..] == route[1..] + [next];
  }

  /** Where a descent stands: the route so far is a descent from the visited set
      `seen0` it started with, `localScore` is the score of its last tour, the global
      best made progress since `best0`, and exactly the route's moves were added to
      the visited set. */
  predicate Climbing(n: nat, d: seq<seq<nat>>, seen0: set<seq<nat>>, best0: Best,
                     route: seq<seq<nat>>, localScore: nat, seen: set<seq<nat>>, best: Best)
    requires IsMatrix(d) && |d| == n
  {
    && IsDescent(n, d, seen0, route) && localScore == TourCost(d, route[|route| - 1])
    && Progress(n, d, best0, seen0, best, seen) && seen == seen0 + Moved(route)
  }

  /** Taking the accepted neighbour `tour`: it joins the route and the visited set,
      and becomes the global best when it beats it, with a trace line. */
  method Take(n: nat, d: seq<seq<nat>>, cutoff: nat, seen0: set<seq<nat>>, best0: Best,
              route: seq<seq<nat>>, localScore: nat, seen: set<seq<nat>>, best: Best,
              clock: Clock, tour: seq<nat>, s: nat)
    returns (route': seq<seq<nat>>, seen': set<seq<nat>>, best': Best, clock': Clock)
    requires IsMatrix(d) && |d| == n && Climbing(n, d, seen0, best0, route, localScore, seen, best)
    requires IsPerm(tour, n) && IsExchange(n, route[|route| - 1], tour)
    requires s == TourCost(d, tour) && s < localScore && tour !in seen
    ensures route' == route + [tour] && seen' == seen + {tour}
    ensures best' == Record(best, tour, s, Now(clock, cutoff))
    ensures clock' == if s < best.score then Tick(clock) else clock
    ensures Climbing(n, d, seen0, best0, route', s, seen', best')
    ensures clock'.readings == clock.readings && clock.next <= clock'.next
  {
    route' := route + [tour];
    var t := Now(clock, cutoff);
    clock' := clock;
    if s < best.score {
      clock' := Tick(clock');
    }
    TakeKeeps(n, d, seen0, best0, route, localScore, seen, best, tour, t);
    best' := Record(best, tour, s, t);
    seen' := seen + {tour};
  }

  /** Appending an accepted neighbour to the route, adding it to the visited set and
      recording it in the global best keeps the descent's bookkeeping. */
  lemma TakeKeeps(n: nat, d: seq<seq<nat>>, seen0: set<seq<nat>>, best0: Best, route: seq<seq<nat>>,
                  localScore: nat, seen: set<seq<nat>>, best: Best, tour: seq<nat>, t: nat)
    requires IsMatrix(d) && |d| == n && Climbing(n, d, seen0, best0, route, localScore, seen, best)
    requires IsPerm(tour, n) && IsExchange(n, route[|route| - 1], tour)
    requires TourCost(d, tour) < localScore && tour !in seen
    ensures Climbing(n, d, seen0, best0, route + [tour], TourCost(d, tour), seen + {tour},
                     Record(best, tour, TourCost(d, tour), t))
  {
    DescentStep(n, d, seen0, route, tour);
    MovedSnoc(route, tour);
    MoveOk(n, d, best0, seen0, best, seen, tour, t);
  }

  /** A pass that took no neighbour stopped at the end of the neighbourhood, where the
      tour is stuck, or at a clock reading past the cutoff. */
  lemma PassHalted(n: nat, d: seq<seq<nat>>, cutoff: nat, local: seq<nat>, xs: seq<nat>,
                   ys: seq<nat>, seen: set<seq<nat>>, clock: Clock, k: nat, c: Clock)
    requires IsMatrix(d) && |d| == n && n >= 1
    requires IsPerm(local, n) && IsPerm(xs, n) && IsPerm(ys, n)
    requires forall q | q in Pairs(xs, ys) :: q.0 < |local| && q.1 < |local|
    requires forall m | 0 <= m < |Neighbours(local, Pairs(xs, ys))| ::
               IsPerm(Neighbours(local, Pairs(xs, ys))[m], n)
    requires k <= |Neighbours(local, Pairs(xs, ys))|
    requires forall m | 0 <= m < k ::
               !Accepts(d, Neighbours(local, Pairs(xs, ys))[m], TourCost(d, local), seen)
    requires k < |Neighbours(local, Pairs(xs, ys))| ==> Now(After(clock, k), cutoff) > cutoff
    requires c == After(clock, if k < |Neighbours(local, Pairs(xs, ys))| then k + 1 else k)
    ensures Halted(n, d, cutoff, local, seen, c)
  {
    if k == |Neighbours(local, Pairs(xs, ys))| {
      ScanStuck(n, d, local, xs, ys, seen);
    } else {
      assert Clock(c.readings, c.next - 1) == After(clock, k);
    }
  }

  lemma PermsWithin(n: nat, d: seq<seq<nat>>, ns: seq<seq<nat>>)
    requires |d| == n && n >= 1 && forall m | 0 <= m < |ns| :: IsPerm(ns[m], n)
    ensures forall m | 0 <= m < |ns| :: Within(ns[m], d) && |ns[m]| >= 1
  {
    forall m | 0 <= m < |ns| ensures Within(ns[m], d) && |ns[m]| >= 1 {
      assert IsPerm(ns[m], n);
    }
  }

  /** What the scan of a pass yields: whether it took a neighbour, that neighbour (the
      tour itself when none), and the clock after its reads. */
  datatype Looked = Looked(found: bool, tour: seq<nat>, clock: Clock)

  /** The scan of one pass from `local`: its neighbourhood, in the order the two
      shuffles give, walked by `FirstStop` from the first neighbour. */
  function LookOf(n: nat, d: seq<seq<nat>>, cutoff: nat, xs: seq<nat>, ys: seq<nat>,
                  local: seq<nat>, seen: set<seq<nat>>, clock: Clock): (r: Looked)
    requires IsMatrix(d) && |d| == n && n >= 1 && IsPerm(xs, n) && IsPerm(ys, n) && IsPerm(local, n)
    ensures r.found ==> IsPerm(r.tour, n) && Within(r.tour, d) && |r.tour| >= 1
    ensures r.clock.readings == clock.readings && clock.next <= r.clock.next
  {
    NeighboursArePerms(n, local, xs, ys);
    var ns := Neighbours(local, Pairs(xs, ys));
    PermsWithin(n, d, ns);
    var st := FirstStop(d, cutoff, ns, TourCost(d, local), seen, clock, 0);
    if st.found then Looked(true, ns[st.at], After(clock, st.at + 1))
    else Looked(false, local, After(clock, if st.at < |ns| then st.at + 1 else st.at))
  }

  /** The scan of a pass finds an exchange of the tour that is strictly shorter and
      unvisited, or finds none, and then the tour is stuck or the clock passed the
      cutoff. A single city has nothing to find. */
  lemma LookFacts(n: nat, d: seq<seq<nat>>, cutoff: nat, xs: seq<nat>, ys: seq<nat>,
                  local: seq<nat>, seen: set<seq<nat>>, clock: Clock)
    requires IsMatrix(d) && |d| == n && n >= 1 && IsPerm(xs, n) && IsPerm(ys, n) && IsPerm(local, n)
    ensures var r := LookOf(n, d, cutoff, xs, ys, local, seen, clock);
            && (r.found ==> IsExchange(n, local, r.tour) && TourCost(d, r.tour) < TourCost(d, local))
            && (r.found ==> r.tour !in seen)
            && (!r.found ==> Halted(n, d, cutoff, local, seen, r.clock))
            && (n == 1 ==> !r.found)
  {
    NeighboursArePerms(n, local, xs, ys);
    var ns := Neighbours(local, Pairs(xs, ys));
    PermsWithin(n, d, ns);
    var st := FirstStop(d, cutoff, ns, TourCost(d, local), seen, clock, 0);
    if n == 1 {
      NoNeighboursOfOne(local, xs, ys);
    }
    if st.found {
      NeighbourIsExchange(n, local, xs, ys, st.at);
    } else {
      PassHalted(n, d, cutoff, local, xs, ys, seen, clock, st.at,
                 After(clock, if st.at < |ns| then st.at + 1 else st.at));
    }
  }

  /** The scan of one pass, by `Scan` over the neighbourhood of `local`: it does what
      `LookOf` describes, so the neighbour it takes is the first acceptable one in the
      order of the shuffles and the clock advances by exactly the reads made. */
  method Look(n: nat, d: seq<seq<nat>>, cutoff: nat, xs: seq<nat>, ys: seq<nat>,
              local: seq<nat>, localScore: nat, seen: set<seq<nat>>, clock: Clock)
    returns (found: bool, tour: seq<nat>, s: nat, clock': Clock)
    requires IsMatrix(d) && |d| == n && n >= 1 && IsPerm(xs, n) && IsPerm(ys, n)
    requires IsPerm(local, n) && localScore == TourCost(d, local)
    ensures Looked(found, tour, clock') == LookOf(n, d, cutoff, xs, ys, local, seen, clock)
    ensures found ==> IsPerm(tour, n) && IsExchange(n, local, tour)
    ensures found ==> s == TourCost(d, tour) && s < localScore && tour !in seen
    ensures !found ==> Halted(n, d, cutoff, local, seen, clock')
    ensures clock'.readings == clock.readings && clock.next <= clock'.next
    ensures n == 1 ==> !found
  {
    found, tour, s, clock' := ScanFrom(n, d, cutoff, xs, ys, local, seen, clock);
    LookFacts(n, d, cutoff, xs, ys, local, seen, clock);
  }

  /** `Scan` over the neighbourhood of `local` in the order of the shuffles, with the
      neighbour it stopped at (or `local` when it took none) and that tour's score. */
  method ScanFrom(n: nat, d: seq<seq<nat>>, cutoff: nat, xs: seq<nat>, ys: seq<nat>,
                  local: seq<nat>, seen: set<seq<nat>>, clock: Clock)
    returns (found: bool, tour: seq<nat>, s: nat, clock': Clock)
    requires IsMatrix(d) && |d| == n && n >= 1 && IsPerm(xs, n) && IsPerm(ys, n) && IsPerm(local, n)
    ensures Looked(found, tour, clock') == LookOf(n, d, cutoff, xs, ys, local, seen, clock)
    ensures found ==> Within(tour, d) && |tour| >= 1 && s == TourCost(d, tour)
  {
    NeighboursArePerms(n, local, xs, ys);
    var ns := Neighbours(local, Pairs(xs, ys));
    PermsWithin(n, d, ns);
    var localScore := TourLength(d, local);
    var k;
    k, found, s, clock' := Scan(d, cutoff, ns, localScore, seen, clock);
    tour := if found then ns[k] else local;
  }

  /** Where a descent stands after a pass: its route so far, the visited set, the
      global best and the clock. */
  datatype Climb = Climb(route: seq<seq<nat>>, seen: set<seq<nat>>, best: Best, clock: Clock)

  /** The outcome of a pass: whether it moved, and where the descent stands after it. */
  datatype Passed = Passed(moved: bool, climb: Climb)

  /** The outcome of a descent: where it stands, and the next unused draw. */
  datatype Descended = Descended(climb: Climb, next: nat)

  /** One pass of the `while True` loop, given what its scan `l` yielded: after a
      find the move, with the visited set and the global best updated (the clock is
      read for the trace line of a new best); otherwise only the scan's clock reads.
      The flag says whether it moved. */
  function PassOf(d: seq<seq<nat>>, cutoff: nat, c: Climb, l: Looked): (r: Passed)
    requires IsMatrix(d) && (l.found ==> Within(l.tour, d) && |l.tour| >= 1)
    ensures r.moved == l.found
    ensures r.climb.route == c.route + (if l.found then [l.tour] else [])
    ensures r.climb.clock.readings == l.clock.readings && l.clock.next <= r.climb.clock.next
  {
    if !l.found then Passed(false, c.(clock := l.clock))
    else Passed(true, Taken(d, cutoff, c, l.tour, l.clock))
  }

  /** The move to an accepted neighbour `tour`: it joins the route and the visited
      set, and is recorded in the global best; a new best costs one clock reading
      for its trace line. */
  function Taken(d: seq<seq<nat>>, cutoff: nat, c: Climb, tour: seq<nat>, clock: Clock): (r: Climb)
    requires IsMatrix(d) && Within(tour, d) && |tour| >= 1
    ensures r.route == c.route + [tour] && r.route[|r.route| - 1] == tour
    ensures r.clock.readings == clock.readings && clock.next <= r.clock.next
  {
    var s := TourCost(d, tour);
    Climb(c.route + [tour], c.seen + {tour}, Record(c.best, tour, s, Now(clock, cutoff)),
          if s < c.best.score then Tick(clock) else clock)
  }

  /** The `while True` loop from draw `next` on: passes, two shuffles each, until a
      pass moves nowhere or fewer than two draws remain. Returns where the descent
      stands and the next unused draw. */
  function DescentOf(n: nat, d: seq<seq<nat>>, cutoff: nat, draws: seq<seq<nat>>, next: nat, c: Climb)
    : (r: Descended)
    requires IsMatrix(d) && |d| == n && n >= 1 && DrawsOk(n, draws) && next <= |draws|
    requires |c.route| >= 1 && IsPerm(c.route[|c.route| - 1], n)
    ensures next <= r.next <= |draws|
    ensures r.climb.clock.readings == c.clock.readings && c.clock.next <= r.climb.clock.next
    decreases |draws| - next
  {
    if next + 2 > |draws| then Descended(c, next)
    else
      var p := PassOf(d, cutoff, c, LookOf(n, d, cutoff, draws[next], draws[next + 1],
                                           c.route[|c.route| - 1], c.seen, c.clock));
      if !p.moved then Descended(p.climb, next + 2) else DescentOf(n, d, cutoff, draws, next + 2, p.climb)
  }

  /** `genRandomPath` repeated while the drawn tour was visited before: the position
      of the first draw from `from` on that is not in `seen`, or `|draws|`. */
  function FirstFresh(draws: seq<seq<nat>>, from: nat, seen: set<seq<nat>>): (m: nat)
    requires from <= |draws|
    ensures from <= m <= |draws|
    ensures m < |draws| ==> draws[m] !in seen
    ensures forall k | from <= k < m :: draws[k] in seen
    decreases |draws| - from
  {
    if from == |draws| || draws[from] !in seen then from
    else FirstFresh(draws, from + 1, seen)
  }

  /** One restart: the descent from the drawn tour `start`, after recording `start`
      in the global best as a move's tour is (reading the clock for a new best). */
  function RestartOf(n: nat, d: seq<seq<nat>>, cutoff: nat, draws: seq<seq<nat>>, next: nat,
                     start: seq<nat>, seen: set<seq<nat>>, best: Best, clock: Clock): (r: Descended)
    requires IsMatrix(d) && |d| == n && n >= 1 && IsPerm(start, n) && DrawsOk(n, draws)
    requires next <= |draws|
    ensures next <= r.next <= |draws|
    ensures r.climb.clock.readings == clock.readings && clock.next <= r.climb.clock.next
  {
    var s := TourCost(d, start);
    DescentOf(n, d, cutoff, draws, next,
              Climb([start], seen, Record(best, start, s, Now(clock, cutoff)),
                    if s < best.score then Tick(clock) else clock))
  }

  /** The outer loop's state after the restart from draw `m`, with the clock `c`
      after the loop test's reading. */
  function NextRestart(n: nat, d: seq<seq<nat>>, cutoff: nat, draws: seq<seq<nat>>, recordStarts: bool,
                       m: nat, starts: set<seq<nat>>, seen: set<seq<nat>>, best: Best, c: Clock): (r: Restarts)
    requires IsMatrix(d) && |d| == n && n >= 1 && DrawsOk(n, draws) && m < |draws|
    ensures m < r.next <= |draws| && r.clock.readings == c.readings
  {
    var start := draws[m];
    var desc := if recordStarts then RestartOf(n, d, cutoff, draws, m + 1, start, seen, best, c)
                else DescentOf(n, d, cutoff, draws, m + 1, Climb([start], seen, best, c));
    Restarts(desc.climb.best, desc.climb.seen, starts + {start}, desc.climb.clock, desc.next)
  }

  /** What the outer loop carries: the global best, the visited set, the restart
      tours, the clock and the next unused draw. */
  datatype Restarts = Restarts(best: Best, seen: set<seq<nat>>, starts: set<seq<nat>>,
                               clock: Clock, next: nat)

  /** The state before the outer loop: the sentinel best `1e20` with no tour, nothing
      visited, no restart, the first clock reading and the first draw next. */
  function Start(readings: seq<nat>): Restarts {
    Restarts(Best(InitialScore, [], []), {}, {}, Clock(readings, 0), 0)
  }

  /** The outer `while` loop of `hillClimbing`: read the clock, stop at a reading not
      below the cutoff, otherwise draw the first tour not visited yet and descend
      from it. With `recordStarts` the drawn tour is first recorded in the global
      best, as in the corrected climber; without it, as written. The run also ends
      when the draws run out. */
  function RestartsOf(n: nat, d: seq<seq<nat>>, cutoff: nat, draws: seq<seq<nat>>,
                      recordStarts: bool, r: Restarts): (r': Restarts)
    requires IsMatrix(d) && |d| == n && n >= 1 && DrawsOk(n, draws) && r.next <= |draws|
    ensures r.next <= r'.next <= |draws|
    ensures r'.clock.readings == r.clock.readings
    decreases |draws| - r.next
  {
    if r.next >= |draws| then r
    else if !(Now(r.clock, cutoff) < cutoff) then r.(clock := Tick(r.clock))
    else
      var c := Tick(r.clock);
      var m := FirstFresh(draws, r.next, r.seen);
      if m == |draws| then r.(clock := c)
      else
        RestartsOf(n, d, cutoff, draws, recordStarts,
                   NextRestart(n, d, cutoff, draws, recordStarts, m, r.starts, r.seen, r.best, c))
  }

  /** Why the outer loop ended: the draws ran out, every draw left was visited
      before, or the clock reading taken last was not below the cutoff. */
  predicate Ended(cutoff: nat, draws: seq<seq<nat>>, w: Restarts)
    requires w.next <= |draws|
  {
    || w.next == |draws|
    || FirstFresh(draws, w.next, w.seen) == |draws|
    || (w.clock.next >= 1 && Now(Clock(w.clock.readings, w.clock.next - 1), cutoff) >= cutoff)
  }

  /** What the climber as written keeps true between turns of the outer loop; with a
      single city nothing is ever recorded. */
  predicate KeptAsWritten(n: nat, d: seq<seq<nat>>, r: Restarts)
    requires IsMatrix(d) && |d| == n
  {
    && BestOk(n, d, r.best) && SeenOk(n, r.seen) && BelowSeen(d, r.best.score, r.seen)
    && (n == 1 ==> r.best == Best(InitialScore, [], []))
  }

  /** What the corrected climber keeps true between turns of the outer loop. */
  predicate Kept(n: nat, d: seq<seq<nat>>, r: Restarts)
    requires IsMatrix(d) && |d| == n
  {
    && BestOk(n, d, r.best) && SeenOk(n, r.seen) && BelowSeen(d, r.best.score, r.seen)
    && SeenOk(n, r.starts) && BelowSeen(d, r.best.score, r.starts)
    && (r.starts != {} ==> r.best.path != [])
  }
}
