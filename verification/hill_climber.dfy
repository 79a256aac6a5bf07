/** The loops of hillClimbing.py as methods: one pass, the `while True` descent, one
    restart and the outer restart loop, both as written and corrected. Each is
    proved to compute what the matching reference function of `HillClimbing`
    describes (`PassOf`, `DescentOf`, `RestartOf`, `RestartsOf`), and to keep the
    global best well formed and below every visited tour. */
module HillClimber {
  import opened Common
  import opened Tours
  import opened HillClimbing

  /** One pass of the `while True` loop: `Look` for an acceptable neighbour of the
      current tour (the last of the route) and `Take` it, as `PassOf` describes.
      Without a move, the tour is stuck or the clock passed the cutoff during the
      pass. */
  method Pass(n: nat, d: seq<seq<nat>>, cutoff: nat, xs: seq<nat>, ys: seq<nat>,
              seen0: set<seq<nat>>, best0: Best, route: seq<seq<nat>>, localScore: nat,
              seen: set<seq<nat>>, best: Best, clock: Clock)
    returns (moved: bool, route': seq<seq<nat>>, localScore': nat,
             seen': set<seq<nat>>, best': Best, clock': Clock)
    requires IsMatrix(d) && |d| == n && n >= 1 && IsPerm(xs, n) && IsPerm(ys, n)
    requires Climbing(n, d, seen0, best0, route, localScore, seen, best)
    ensures Passed(moved, Climb(route', seen', best', clock'))
            == PassOf(d, cutoff, Climb(route, seen, best, clock),
                      LookOf(n, d, cutoff, xs, ys, route[|route| - 1], seen, clock))
    ensures Climbing(n, d, seen0, best0, route', localScore', seen', best') && route'[0] == route[0]
    ensures clock'.readings == clock.readings && clock.next <= clock'.next
    ensures moved ==> localScore' < localScore
    ensures !moved ==> route' == route && localScore' == localScore && seen' == seen && best' == best
    ensures !moved ==> Halted(n, d, cutoff, route'[|route'| - 1], seen', clock')
    ensures n == 1 ==> !moved
  {
    var tour, s, c;
    moved, tour, s, c := Look(n, d, cutoff, xs, ys, route[|route| - 1], localScore, seen, clock);
    if !moved {
      route', localScore', seen', best', clock' := route, localScore, seen, best, c;
    } else {
      localScore' := s;
      route', seen', best', clock' := Take(n, d, cutoff, seen0, best0, route, localScore, seen, best, c, tour, s);
    }
  }

  /** One turn of the `while True` loop: the `Pass` with the next two draws as its
      pair orders. It advances the descent as `DescentOf` does: after a move the rest
      of the descent goes on from the new state, and without one the descent ends. */
  method DescendStep(n: nat, d: seq<seq<nat>>, cutoff: nat, draws: seq<seq<nat>>, next: nat,
                     seen0: set<seq<nat>>, best0: Best, route: seq<seq<nat>>, localScore: nat,
                     seen: set<seq<nat>>, best: Best, clock: Clock)
    returns (moved: bool, route': seq<seq<nat>>, localScore': nat, seen': set<seq<nat>>,
             best': Best, clock': Clock, next': nat)
    requires IsMatrix(d) && |d| == n && n >= 1 && DrawsOk(n, draws) && next + 2 <= |draws|
    requires Climbing(n, d, seen0, best0, route, localScore, seen, best)
    ensures Climbing(n, d, seen0, best0, route', localScore', seen', best') && route'[0] == route[0]
    ensures next' == next + 2 && clock'.readings == clock.readings && clock.next <= clock'.next
    ensures moved ==> localScore' < localScore && |route'| == |route| + 1
    ensures moved ==> DescentOf(n, d, cutoff, draws, next', Climb(route', seen', best', clock'))
                      == DescentOf(n, d, cutoff, draws, next, Climb(route, seen, best, clock))
    ensures !moved ==> route' == route && localScore' == localScore && seen' == seen && best' == best
    ensures !moved ==> Halted(n, d, cutoff, route'[|route'| - 1], seen', clock')
    ensures !moved ==> Descended(Climb(route', seen', best', clock'), next')
                       == DescentOf(n, d, cutoff, draws, next, Climb(route, seen, best, clock))
    ensures n == 1 ==> !moved
  {
    next' := next + 2;
    moved, route', localScore', seen', best', clock' :=
      Pass(n, d, cutoff, draws[next], draws[next + 1], seen0, best0, route, localScore, seen, best, clock);
  }

  /** The `while True` loop: one `Pass` after another until a pass moves nowhere (or
      the draws for the pair orders run out), as `DescentOf` describes. Returns the
      route of tours it moved through, from `start`; each was added to the visited
      set. Every pass used two draws. */
  method Descend(n: nat, d: seq<seq<nat>>, cutoff: nat, start: seq<nat>,
                 seen: set<seq<nat>>, best: Best, clock: Clock, draws: seq<seq<nat>>, next: nat)
    returns (seen': set<seq<nat>>, best': Best, clock': Clock, next': nat, route: seq<seq<nat>>)
    requires IsMatrix(d) && |d| == n && n >= 1 && IsPerm(start, n) && DrawsOk(n, draws)
    requires next <= |draws|
    requires BestOk(n, d, best) && SeenOk(n, seen) && BelowSeen(d, best.score, seen)
    ensures Descended(Climb(route, seen', best', clock'), next')
            == DescentOf(n, d, cutoff, draws, next, Climb([start], seen, best, clock))
    ensures Progress(n, d, best, seen, best', seen')
    ensures next <= next' <= |draws| && clock'.readings == clock.readings && clock.next <= clock'.next
    ensures IsDescent(n, d, seen, route) && route[0] == start
    ensures seen' == seen + Moved(route)
    ensures TourCost(d, route[|route| - 1]) <= TourCost(d, start)
    ensures || (next' == next + 2 * |route| && Halted(n, d, cutoff, route[|route| - 1], seen', clock'))
            || (next' == next + 2 * (|route| - 1) && next' + 2 > |draws|)
    ensures n == 1 ==> seen' == seen && best' == best
  {
    var localScore := TourLength(d, start);
    var startScore := localScore;
    seen', best', clock', next' := seen, best, clock, next;
    route := [start];
    assert Moved(route) == {};
    ghost var whole := DescentOf(n, d, cutoff, draws, next, Climb([start], seen, best, clock));
    var moved := true;
    while moved && next' + 2 <= |draws|
      invariant Climbing(n, d, seen, best, route, localScore, seen', best')
      invariant route[0] == start && localScore <= startScore
      invariant next <= next' <= |draws| && clock'.readings == clock.readings && clock.next <= clock'.next
      invariant moved ==> next' == next + 2 * (|route| - 1)
      invariant moved ==> DescentOf(n, d, cutoff, draws, next', Climb(route, seen', best', clock')) == whole
      invariant !moved ==> next' == next + 2 * |route| && Halted(n, d, cutoff, route[|route| - 1], seen', clock')
      invariant !moved ==> Descended(Climb(route, seen', best', clock'), next') == whole
      invariant n == 1 ==> seen' == seen && best' == best
      decreases localScore, if moved then 1 else 0
    {
      moved, route, localScore, seen', best', clock', next' :=
        DescendStep(n, d, cutoff, draws, next', seen, best, route, localScore, seen', best', clock');
    }
  }

  /** A turn of the outer loop that draws a fresh tour hands the rest of the run to
      the state after that restart. */
  lemma RestartsUnfold(n: nat, d: seq<seq<nat>>, cutoff: nat, draws: seq<seq<nat>>,
                       recordStarts: bool, r: Restarts)
    requires IsMatrix(d) && |d| == n && n >= 1 && DrawsOk(n, draws) && r.next < |draws|
    requires Now(r.clock, cutoff) < cutoff && FirstFresh(draws, r.next, r.seen) < |draws|
    ensures RestartsOf(n, d, cutoff, draws, recordStarts, r)
            == RestartsOf(n, d, cutoff, draws, recordStarts,
                          NextRestart(n, d, cutoff, draws, recordStarts, FirstFresh(draws, r.next, r.seen),
                                      r.starts, r.seen, r.best, Tick(r.clock)))
  {
  }

  /** The outer loop ends only when the draws run out, when every draw left was
      visited before, or at a clock reading not below the cutoff. */
  lemma {:induction false} RestartsStop(n: nat, d: seq<seq<nat>>, cutoff: nat, draws: seq<seq<nat>>,
                                        recordStarts: bool, r: Restarts)
    requires IsMatrix(d) && |d| == n && n >= 1 && DrawsOk(n, draws) && r.next <= |draws|
    ensures Ended(cutoff, draws, RestartsOf(n, d, cutoff, draws, recordStarts, r))
    decreases |draws| - r.next
  {
    var w := RestartsOf(n, d, cutoff, draws, recordStarts, r);
    if r.next >= |draws| {
      assert w == r;
      assert w.next == |draws|;
    } else if !(Now(r.clock, cutoff) < cutoff) {
      assert w == r.(clock := Tick(r.clock));
      assert Clock(w.clock.readings, w.clock.next - 1) == r.clock;
      assert Now(Clock(w.clock.readings, w.clock.next - 1), cutoff) >= cutoff;
    } else {
      var c := Tick(r.clock);
      var m := FirstFresh(draws, r.next, r.seen);
      if m == |draws| {
        assert w == r.(clock := c);
        assert FirstFresh(draws, w.next, w.seen) == |draws|;
      } else {
        var r1 := NextRestart(n, d, cutoff, draws, recordStarts, m, r.starts, r.seen, r.best, c);
        RestartsStop(n, d, cutoff, draws, recordStarts, r1);
        assert w == RestartsOf(n, d, cutoff, draws, recordStarts, r1);
      }
    }
  }

  /** One turn of the outer loop as written: the loop goes on from a state with the
      same rest of the run, or stops at the state where `RestartsOf` ends. */
  method TurnAsWritten(n: nat, d: seq<seq<nat>>, cutoff: nat, draws: seq<seq<nat>>, r: Restarts)
    returns (go: bool, r': Restarts)
    requires IsMatrix(d) && |d| == n && n >= 1 && DrawsOk(n, draws) && r.next < |draws|
    requires KeptAsWritten(n, d, r)
    ensures KeptAsWritten(n, d, r') && r'.clock.readings == r.clock.readings
    ensures r.next <= r'.next <= |draws| && (go ==> r.next < r'.next)
    ensures go ==> RestartsOf(n, d, cutoff, draws, false, r') == RestartsOf(n, d, cutoff, draws, false, r)
    ensures !go ==> r' == RestartsOf(n, d, cutoff, draws, false, r)
  {
    var t := Now(r.clock, cutoff);
    var clock := Tick(r.clock);
    if !(t < cutoff) {
      return false, r.(clock := clock);
    }
    var m := FirstFresh(draws, r.next, r.seen);
    if m == |draws| {
      return false, r.(clock := clock);
    }
    go := true;
    r' := RestartFromAsWritten(n, d, cutoff, draws, m, r.(clock := clock));
    RestartsUnfold(n, d, cutoff, draws, false, r);
  }

  /** The restart from draw `m` inside a turn of the outer loop as written, as
      `NextRestart` describes it: the descent starts from the drawn tour without
      recording it. */
  method RestartFromAsWritten(n: nat, d: seq<seq<nat>>, cutoff: nat, draws: seq<seq<nat>>, m: nat,
                              r: Restarts)
    returns (r': Restarts)
    requires IsMatrix(d) && |d| == n && n >= 1 && DrawsOk(n, draws) && m < |draws|
    requires KeptAsWritten(n, d, r)
    ensures r' == NextRestart(n, d, cutoff, draws, false, m, r.starts, r.seen, r.best, r.clock)
    ensures KeptAsWritten(n, d, r') && r'.starts == r.starts + {draws[m]}
  {
    var seen, best, clock, next, route;
    seen, best, clock, next, route := Descend(n, d, cutoff, draws[m], r.seen, r.best, r.clock, draws, m + 1);
    r' := Restarts(best, seen, r.starts + {draws[m]}, clock, next);
  }

  /** `hillClimbing` as written: restarts from a fresh random tour while the clock
      reading is below the cutoff, as `RestartsOf` without recording the starts
      describes. The start of a restart is never compared with the global best; only
      tours reached by a move are. With a single city there is no move, so the run
      reports the sentinel score and an empty tour. */
  method HillClimbAsWritten(n: nat, d: seq<seq<nat>>, cutoff: nat, readings: seq<nat>,
                            draws: seq<seq<nat>>)
    returns (best: Best, seen: set<seq<nat>>)
    requires IsMatrix(d) && |d| == n && n >= 1 && DrawsOk(n, draws)
    ensures best == RestartsOf(n, d, cutoff, draws, false, Start(readings)).best
    ensures seen == RestartsOf(n, d, cutoff, draws, false, Start(readings)).seen
    ensures BestOk(n, d, best) && SeenOk(n, seen) && BelowSeen(d, best.score, seen)
    ensures n == 1 ==> best == Best(InitialScore, [], [])
  {
    var r := Start(readings);
    var go := true;
    ghost var whole := RestartsOf(n, d, cutoff, draws, false, r);
    while go && r.next < |draws|
      invariant r.next <= |draws| && KeptAsWritten(n, d, r)
      invariant go ==> RestartsOf(n, d, cutoff, draws, false, r) == whole
      invariant !go ==> r == whole
      decreases |draws| - r.next, if go then 1 else 0
    {
      go, r := TurnAsWritten(n, d, cutoff, draws, r);
    }
    best, seen := r.best, r.seen;
  }

  /** One restart of the corrected climber, as `RestartOf` describes: the start is
      recorded like a move's tour before the descent from it. */
  method Restart(n: nat, d: seq<seq<nat>>, cutoff: nat, start: seq<nat>,
                 seen: set<seq<nat>>, best: Best, clock: Clock, draws: seq<seq<nat>>, next: nat)
    returns (seen': set<seq<nat>>, best': Best, clock': Clock, next': nat, route: seq<seq<nat>>)
    requires IsMatrix(d) && |d| == n && n >= 1 && IsPerm(start, n) && DrawsOk(n, draws)
    requires next <= |draws|
    requires BestOk(n, d, best) && SeenOk(n, seen) && BelowSeen(d, best.score, seen)
    ensures Descended(Climb(route, seen', best', clock'), next')
            == RestartOf(n, d, cutoff, draws, next, start, seen, best, clock)
    ensures Progress(n, d, best, seen, best', seen')
    ensures best'.score <= TourCost(d, start)
    ensures next <= next' <= |draws| && clock'.readings == clock.readings && clock.next <= clock'.next
  {
    var s := TourLength(d, start);
    var t := Now(clock, cutoff);
    clock' := clock;
    if s < best.score {
      clock' := Tick(clock');
    }
    RecordOk(n, d, best, start, t);
    var b := Record(best, start, s, t);
    BelowSeenMono(d, best.score, b.score, seen);
    seen', best', clock', next', route := Descend(n, d, cutoff, start, seen, b, clock', draws, next);
  }

  /** One turn of the corrected climber's outer loop. Either the loop goes on, and the
      rest of the run from the new state is the rest of the run from the old one, or
      the loop stops here, and the new state is where `RestartsOf` ends. */
  method ClimbTurn(n: nat, d: seq<seq<nat>>, cutoff: nat, draws: seq<seq<nat>>, r: Restarts)
    returns (go: bool, r': Restarts)
    requires IsMatrix(d) && |d| == n && n >= 1 && DrawsOk(n, draws) && r.next < |draws|
    requires forall p | IsPerm(p, n) :: TourCost(d, p) < InitialScore
    requires Kept(n, d, r)
    ensures Kept(n, d, r') && r.starts <= r'.starts
    ensures r'.clock.readings == r.clock.readings && r.clock.next < r'.clock.next
    ensures r.next <= r'.next <= |draws| && (go ==> r.next < r'.next)
    ensures go ==> RestartsOf(n, d, cutoff, draws, true, r') == RestartsOf(n, d, cutoff, draws, true, r)
    ensures !go ==> r' == RestartsOf(n, d, cutoff, draws, true, r)
    ensures && r.next == 0 && r.seen == {} && r.clock.next == 0
            && r.clock.readings != [] && r.clock.readings[0] < cutoff
            ==> r'.starts != {}
  {
    var t := Now(r.clock, cutoff);
    var clock := Tick(r.clock);
    if !(t < cutoff) {
      return false, r.(clock := clock);
    }
    var m := FirstFresh(draws, r.next, r.seen);
    if m == |draws| {
      return false, r.(clock := clock);
    }
    go := true;
    r' := RestartFrom(n, d, cutoff, draws, m, r.(clock := clock));
    RestartsUnfold(n, d, cutoff, draws, true, r);
  }

  /** The restart from draw `m` inside a turn of the corrected climber's outer loop,
      as `NextRestart` describes it. */
  method RestartFrom(n: nat, d: seq<seq<nat>>, cutoff: nat, draws: seq<seq<nat>>, m: nat, r: Restarts)
    returns (r': Restarts)
    requires IsMatrix(d) && |d| == n && n >= 1 && DrawsOk(n, draws) && m < |draws|
    requires forall p | IsPerm(p, n) :: TourCost(d, p) < InitialScore
    requires Kept(n, d, r)
    ensures r' == NextRestart(n, d, cutoff, draws, true, m, r.starts, r.seen, r.best, r.clock)
    ensures Kept(n, d, r') && r'.starts == r.starts + {draws[m]}
    ensures r'.clock.next >= r.clock.next
  {
    var start := draws[m];
    var b, sn, clock, next, route;
    sn, b, clock, next, route := Restart(n, d, cutoff, start, r.seen, r.best, r.clock, draws, m + 1);
    BelowSeenMono(d, r.best.score, b.score, r.starts);
    assert b.score < InitialScore;
    r' := Restarts(b, sn, r.starts + {start}, clock, next);
  }

  /** `hillClimbing` with the start of every restart also compared with the global
      best, as `RestartsOf` with recorded starts describes. The reported tour is then
      no longer than any start or visited tour, and a run that makes at least one
      restart always reports a tour. */
  method HillClimb(n: nat, d: seq<seq<nat>>, cutoff: nat, readings: seq<nat>,
                   draws: seq<seq<nat>>)
    returns (best: Best, seen: set<seq<nat>>, starts: set<seq<nat>>)
    requires IsMatrix(d) && |d| == n && n >= 1 && DrawsOk(n, draws)
    requires forall p | IsPerm(p, n) :: TourCost(d, p) < InitialScore
    ensures best == RestartsOf(n, d, cutoff, draws, true, Start(readings)).best
    ensures seen == RestartsOf(n, d, cutoff, draws, true, Start(readings)).seen
    ensures starts == RestartsOf(n, d, cutoff, draws, true, Start(readings)).starts
    ensures BestOk(n, d, best) && SeenOk(n, seen) && BelowSeen(d, best.score, seen)
    ensures SeenOk(n, starts) && BelowSeen(d, best.score, starts)
    ensures starts != {} ==> best.path != []
    ensures readings != [] && readings[0] < cutoff && draws != [] ==> starts != {}
  {
    var r := Start(readings);
    var go := true;
    ghost var whole := RestartsOf(n, d, cutoff, draws, true, r);
    while go && r.next < |draws|
      invariant r.next <= |draws| && r.clock.readings == readings && Kept(n, d, r)
      invariant go ==> RestartsOf(n, d, cutoff, draws, true, r) == whole
      invariant !go ==> r == whole
      invariant r.clock.next == 0 ==> r == Start(readings) && go
      invariant readings != [] && readings[0] < cutoff && draws != [] && r.clock.next > 0 ==> r.starts != {}
      decreases |draws| - r.next, if go then 1 else 0
    {
      go, r := ClimbTurn(n, d, cutoff, draws, r);
    }
    best, seen, starts := r.best, r.seen, r.starts;
  }
}
