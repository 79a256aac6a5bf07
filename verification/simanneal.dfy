/** The simulated annealer of simanneal.py on the travelling salesman problem: the
    swap move with its exact energy change, the cyclic energy, the accept/revert
    bookkeeping of `anneal` with best-state tracking, and the final rotation of the
    best tour so that city 1 comes first.

    Cities are the ids 1..n of the input file; `d` is indexed by id (row and column 0
    are unused). The cooling schedule and the Metropolis test are not modelled: each
    step's random choices come from a `Draw`, whose `uphillRejected` says whether
    `math.exp(-dE / T) < random.random()` held (it is consulted only for dE > 0). */
module Annealing {
  import opened Common
  import opened Tours

  /** The class defaults `Tmax` and `Tmin`, which `runAnneal` leaves in place. */
  const DefaultTmax: real := 250000.0
  const DefaultTmin: real := 0.25

  /** The ids 1..n, each exactly once. */
  predicate IsIdPerm(s: seq<nat>, n: nat) {
    |s| == n && Distinct(s) && forall i | 0 <= i < |s| :: 1 <= s[i] <= n
  }

  /** A swap keeps a sequence of distinct ids distinct, with the same ids. */
  lemma SwapIdPerm(s: seq<nat>, n: nat, a: nat, b: nat)
    requires IsIdPerm(s, n) && a < n && b < n
    ensures IsIdPerm(Swap(s, a, b), n)
  {
    var r := Swap(s, a, b);
    forall i, j | 0 <= i < j < |r| ensures r[i] != r[j] {
      var i' := if i == a then b else if i == b then a else i;
      var j' := if j == a then b else if j == b then a else j;
      assert r[i] == s[i'] && r[j] == s[j'] && i' != j';
    }
  }

  // ---------------------------------------------------------------------------
  // energy and move

  /** `energy()`: the loop over `range(len(state))` adding the edge from
      `state[i-1]` (Python's index -1 is the last city) to `state[i]`. Its result is
      the closed length of the tour. */
  method EnergyOf(d: seq<seq<nat>>, s: seq<nat>) returns (e: nat)
    requires IsMatrix(d) && Within(s, d)
    ensures e == Energy(d, s)
    ensures |s| >= 1 ==> e == TourCost(d, s)
    ensures s == [] ==> e == 0
  {
    e := 0;
    var i := 0;
    while i < |s|
      invariant i <= |s| && e == EnergyUpTo(d, s, i)
    {
      var prev := if i == 0 then |s| - 1 else i - 1;
      e := e + d[s[prev]][s[i]];
      i := i + 1;
    }
    if |s| >= 1 {
      EnergyIsTourCost(d, s);
    }
  }

  /** `move()`: exchange the cities at positions a and b and return the energy after
      minus the energy before. Exchanging a position with itself changes nothing. */
  method Move(d: seq<seq<nat>>, s: seq<nat>, a: nat, b: nat) returns (s': seq<nat>, dE: int)
    requires IsMatrix(d) && Within(s, d) && a < |s| && b < |s|
    ensures s' == Swap(s, a, b) && Within(s', d)
    ensures dE == Energy(d, s') - Energy(d, s)
    ensures a == b ==> s' == s && dE == 0
  {
    var e0 := EnergyOf(d, s);
    s' := s[a := s[b]][b := s[a]];
    SwapWithin(s, a, b, d);
    var e1 := EnergyOf(d, s');
    dE := e1 as int - e0 as int;
  }

  // ---------------------------------------------------------------------------
  // copy_state and anneal

  /** `copy_state`: the three known strategies copy the state; any other raises. */
  function CopyState(strategy: string, s: seq<nat>): (r: Result<seq<nat>, string>)
    ensures r.Ok? <==> strategy == "deepcopy" || strategy == "slice" || strategy == "method"
    ensures r.Ok? ==> r.value == s
    ensures r.Err? ==> |r.error| > 0
  {
    if strategy == "deepcopy" || strategy == "slice" || strategy == "method" then Ok(s)
    else Err("No implementation found for the self.copy_strategy \"" + strategy + "\"")
  }

  /** The random choices of one annealing step: the two positions `move` draws, and
      the outcome of the Metropolis test for an uphill move. */
  datatype Draw = Draw(a: nat, b: nat, uphillRejected: bool)

  /** The state and energy after one step, and whether the move was accepted. */
  datatype Stepped = Stepped(state: seq<nat>, energy: nat, accepted: bool)

  /** One step of `anneal`'s loop: move, then keep the move unless it goes uphill
      and the Metropolis test rejects it, in which case state and energy go back to
      `prevState` and `prevEnergy`, which equal the state before the move. */
  function Step(d: seq<seq<nat>>, s: seq<nat>, dr: Draw): (r: Stepped)
    requires IsMatrix(d) && Within(s, d) && dr.a < |s| && dr.b < |s|
    ensures Within(r.state, d) && r.energy == Energy(d, r.state)
    ensures |r.state| == |s| && multiset(r.state) == multiset(s)
    ensures Energy(d, Swap(s, dr.a, dr.b)) <= Energy(d, s) ==> r.accepted
    ensures !r.accepted <==> Energy(d, Swap(s, dr.a, dr.b)) > Energy(d, s) && dr.uphillRejected
    ensures !r.accepted ==> r.state == s && r.energy == Energy(d, s)
    ensures r.accepted ==> r.state == Swap(s, dr.a, dr.b)
  {
    var moved := Swap(s, dr.a, dr.b);
    SwapWithin(s, dr.a, dr.b, d);
    if Energy(d, moved) > Energy(d, s) && dr.uphillRejected then Stepped(s, Energy(d, s), false)
    else Stepped(moved, Energy(d, moved), true)
  }

  /** What `anneal` leaves behind: the final state, the best state and energy, the
      trace lines, and the states accepted along the way (in order). */
  datatype Outcome = Outcome(state: seq<nat>, best: seq<nat>, bestEnergy: nat,
                             trace: seq<Event>, accepted: seq<seq<nat>>)

  /** The variables `anneal`'s loop carries: the clock, the current state (equal to
      `prevState`), the best state and energy, the trace lines and the accepted
      states. */
  datatype Loop = Loop(clock: Clock, state: seq<nat>, best: seq<nat>, bestE: nat,
                       trace: seq<Event>, accepted: seq<seq<nat>>)

  /** One pass of the loop body after the clock reading of the loop test: take a
      `Step`; after an accepted one record the state, and when its energy is strictly
      below the best, read the clock for a trace line and make it the best. */
  function Iterate(d: seq<seq<nat>>, cutoff: nat, dr: Draw, l: Loop): (l': Loop)
    requires IsMatrix(d) && Within(l.state, d) && dr.a < |l.state| && dr.b < |l.state|
    ensures l'.state == Step(d, l.state, dr).state
    ensures !Step(d, l.state, dr).accepted ==> l' == l.(clock := Tick(l.clock))
    ensures Step(d, l.state, dr).accepted ==> l'.accepted == l.accepted + [l'.state]
    ensures l'.bestE <= l.bestE && l.trace <= l'.trace && l.accepted <= l'.accepted
    ensures l'.bestE < l.bestE ==> l'.best == l'.state && l'.bestE == Energy(d, l'.state)
    ensures l'.bestE == l.bestE ==> l'.best == l.best && l'.trace == l.trace
  {
    var c1 := Tick(l.clock);
    var r := Step(d, l.state, dr);
    if !r.accepted then l.(clock := c1)
    else if r.energy < l.bestE then
      Loop(Tick(c1), r.state, r.state, r.energy,
           l.trace + [Event(Now(c1, cutoff), r.energy)], l.accepted + [r.state])
    else l.(clock := c1, state := r.state, accepted := l.accepted + [r.state])
  }

  /** The loop of `anneal` from draw k on: stop when the draws run out or a clock
      reading is not below the cutoff, otherwise `Iterate`. At the end the state is
      the best state. */
  function Run(d: seq<seq<nat>>, cutoff: nat, draws: seq<Draw>, k: nat, l: Loop): (o: Outcome)
    requires IsMatrix(d) && Within(l.state, d) && k <= |draws|
    requires forall j | 0 <= j < |draws| :: draws[j].a < |l.state| && draws[j].b < |l.state|
    ensures o.state == o.best && o.bestEnergy <= l.bestE
    ensures l.trace <= o.trace && l.accepted <= o.accepted
    decreases |draws| - k
  {
    if k == |draws| || !(Now(l.clock, cutoff) < cutoff) then
      Outcome(l.best, l.best, l.bestE, l.trace, l.accepted)
    else
      var l' := Iterate(d, cutoff, draws[k], l);
      StepKeepsShape(d, l.state, draws[k]);
      Run(d, cutoff, draws, k + 1, l')
  }

  lemma StepKeepsShape(d: seq<seq<nat>>, s: seq<nat>, dr: Draw)
    requires IsMatrix(d) && Within(s, d) && dr.a < |s| && dr.b < |s|
    ensures |Step(d, s, dr).state| == |s| && Within(Step(d, s, dr).state, d)
  {
  }

  /** The best-state bookkeeping of `anneal`, relative to the initial state `s0` of
      energy `e0`: the best is a rearrangement of `s0` whose energy is `bestE`, no
      accepted state is below it, and the trace has one line per strict improvement,
      ending at `bestE`. */
  predicate BestInv(d: seq<seq<nat>>, s0: seq<nat>, e0: nat, best: seq<nat>, bestE: nat,
                    trace: seq<Event>, accepted: seq<seq<nat>>)
    requires IsMatrix(d)
  {
    && |best| == |s0| && multiset(best) == multiset(s0) && Within(best, d)
    && bestE == Energy(d, best) && bestE <= e0
    && Improving(trace)
    && (forall i | 0 <= i < |trace| :: bestE <= trace[i].cost < e0)
    && (trace != [] ==> trace[|trace| - 1].cost == bestE)
    && (trace == [] ==> best == s0)
    && (forall k | 0 <= k < |accepted| :: Within(accepted[k], d) && bestE <= Energy(d, accepted[k]))
    && (best == s0 || best in accepted)
  }

  /** Accepting a state of energy `e`, which becomes the best when strictly lower. */
  lemma AcceptKeepsBest(d: seq<seq<nat>>, s0: seq<nat>, e0: nat, best: seq<nat>, bestE: nat,
                        trace: seq<Event>, accepted: seq<seq<nat>>, s: seq<nat>, t: nat)
    requires IsMatrix(d) && BestInv(d, s0, e0, best, bestE, trace, accepted)
    requires |s| == |s0| && multiset(s) == multiset(s0) && Within(s, d)
    ensures BestInv(d, s0, e0, best, bestE, trace, accepted + [s]) || Energy(d, s) < bestE
    ensures Energy(d, s) < bestE ==>
              BestInv(d, s0, e0, s, Energy(d, s), trace + [Event(t, Energy(d, s))], accepted + [s])
  {
    var e := Energy(d, s);
    var acc := accepted + [s];
    assert forall k | 0 <= k < |accepted| :: acc[k] == accepted[k];
    if e < bestE {
      var tr := trace + [Event(t, e)];
      forall i, j | 0 <= i < j < |tr| ensures tr[j].cost < tr[i].cost {
        if j == |tr| - 1 {
          assert bestE <= trace[i].cost;
        }
      }
      forall k | 0 <= k < |acc| ensures e <= Energy(d, acc[k]) {
      }
    }
  }

  /** A first move that does not go uphill is accepted: it is the first state the run
      records, so a run that never moves does not meet this. */
  lemma DownhillFirstAccepted(d: seq<seq<nat>>, cutoff: nat, draws: seq<Draw>, l: Loop)
    requires IsMatrix(d) && Within(l.state, d) && |draws| >= 1
    requires forall j | 0 <= j < |draws| :: draws[j].a < |l.state| && draws[j].b < |l.state|
    requires Now(l.clock, cutoff) < cutoff
    requires Energy(d, Swap(l.state, draws[0].a, draws[0].b)) <= Energy(d, l.state)
    ensures var o := Run(d, cutoff, draws, 0, l);
            |o.accepted| > |l.accepted| &&
            o.accepted[|l.accepted|] == Swap(l.state, draws[0].a, draws[0].b)
  {
    var l' := Iterate(d, cutoff, draws[0], l);
    StepKeepsShape(d, l.state, draws[0]);
    assert Run(d, cutoff, draws, 0, l) == Run(d, cutoff, draws, 1, l');
    assert l'.accepted[|l.accepted|] == l'.state;
  }

  /** A first move that goes uphill and is rejected leaves no trace: the run goes on
      from the same state, best, trace and accepted states, one clock reading later. */
  lemma RejectedFirstRestores(d: seq<seq<nat>>, cutoff: nat, draws: seq<Draw>, l: Loop)
    requires IsMatrix(d) && Within(l.state, d) && |draws| >= 1
    requires forall j | 0 <= j < |draws| :: draws[j].a < |l.state| && draws[j].b < |l.state|
    requires Now(l.clock, cutoff) < cutoff && draws[0].uphillRejected
    requires Energy(d, Swap(l.state, draws[0].a, draws[0].b)) > Energy(d, l.state)
    ensures Run(d, cutoff, draws, 0, l) == Run(d, cutoff, draws, 1, l.(clock := Tick(l.clock)))
  {
    var l' := Iterate(d, cutoff, draws[0], l);
    assert l' == l.(clock := Tick(l.clock));
  }

  /** What the loop keeps: the state is a rearrangement of the initial one, and the
      best-state bookkeeping holds. */
  predicate LoopInv(d: seq<seq<nat>>, s0: seq<nat>, e0: nat, l: Loop)
    requires IsMatrix(d)
  {
    && |l.state| == |s0| && multiset(l.state) == multiset(s0) && Within(l.state, d)
    && BestInv(d, s0, e0, l.best, l.bestE, l.trace, l.accepted)
  }

  /** One pass of the loop keeps its invariant. */
  lemma IterateKeeps(d: seq<seq<nat>>, s0: seq<nat>, e0: nat, cutoff: nat, dr: Draw, l: Loop)
    requires IsMatrix(d) && LoopInv(d, s0, e0, l) && dr.a < |l.state| && dr.b < |l.state|
    ensures LoopInv(d, s0, e0, Iterate(d, cutoff, dr, l))
  {
    var r := Step(d, l.state, dr);
    if r.accepted {
      var t' := Now(Tick(l.clock), cutoff);
      AcceptKeepsBest(d, s0, e0, l.best, l.bestE, l.trace, l.accepted, r.state, t');
    }
  }

  /** The run keeps the best-state bookkeeping: whatever the draws and the clock, it
      ends in a best state that is a rearrangement of the initial one, that no
      accepted state is below, and that the trace's last line reports. */
  lemma {:induction false} RunBestInv(d: seq<seq<nat>>, s0: seq<nat>, e0: nat, cutoff: nat,
                                      draws: seq<Draw>, k: nat, l: Loop)
    requires IsMatrix(d) && LoopInv(d, s0, e0, l) && k <= |draws|
    requires forall j | 0 <= j < |draws| :: draws[j].a < |l.state| && draws[j].b < |l.state|
    ensures var o := Run(d, cutoff, draws, k, l);
            BestInv(d, s0, e0, o.best, o.bestEnergy, o.trace, o.accepted)
    decreases |draws| - k
  {
    var o := Run(d, cutoff, draws, k, l);
    if k < |draws| && Now(l.clock, cutoff) < cutoff {
      var l' := Iterate(d, cutoff, draws[k], l);
      IterateKeeps(d, s0, e0, cutoff, draws[k], l);
      RunBestInv(d, s0, e0, cutoff, draws, k + 1, l');
      assert o == Run(d, cutoff, draws, k + 1, l');
    } else {
      assert o == Outcome(l.best, l.best, l.bestE, l.trace, l.accepted);
    }
  }

  /** `anneal`: raises before any step when `Tmin <= 0`, then when `Tmax / Tmin` is
      not positive (`math.log` of it), and on an unknown copy strategy at the first
      copy. Otherwise it is the `Run` from the initial state: the loop below follows it
      step by step. */
  method Anneal(d: seq<seq<nat>>, init: seq<nat>, strategy: string, tmax: real, tmin: real,
                cutoff: nat, readings: seq<nat>, draws: seq<Draw>)
    returns (r: Result<Outcome, string>)
    requires IsMatrix(d) && Within(init, d)
    requires forall k | 0 <= k < |draws| :: draws[k].a < |init| && draws[k].b < |init|
    ensures r.Err? <==> tmin <= 0.0 || tmax <= 0.0 || CopyState(strategy, init).Err?
    ensures r.Ok? ==> r.value == Run(d, cutoff, draws, 0,
                                     Loop(Clock(readings, 0), init, init, Energy(d, init), [], []))
    ensures r.Ok? ==> r.value.state == r.value.best
    ensures r.Ok? ==> BestInv(d, init, Energy(d, init), r.value.best, r.value.bestEnergy,
                              r.value.trace, r.value.accepted)
  {
    if tmin <= 0.0 {
      return Err("Exponential cooling requires a minimum temperature greater than zero.");
    }
    if tmax <= 0.0 {
      return Err("math domain error");
    }
    var copied := CopyState(strategy, init);
    if copied.Err? {
      return Err(copied.error);
    }
    var state := init;
    var e0 := EnergyOf(d, state);
    var e: int := e0;
    var prev, prevE := state, e;
    var best := state;
    var bestE: nat := e0;
    var trace: seq<Event> := [];
    var accepted: seq<seq<nat>> := [];
    var clock := Clock(readings, 0);
    var step := 0;
    ghost var whole := Run(d, cutoff, draws, 0, Loop(clock, init, init, e0, [], []));
    RunBestInv(d, init, e0, cutoff, draws, 0, Loop(clock, init, init, e0, [], []));
    while step < |draws|
      invariant step <= |draws| && |state| == |init| && Within(state, d)
      invariant e == Energy(d, state) && prev == state && prevE == e
      invariant Run(d, cutoff, draws, step, Loop(clock, state, best, bestE, trace, accepted)) == whole
      decreases |draws| - step
    {
      var t := Now(clock, cutoff);
      if !(t < cutoff) {
        break;
      }
      clock, state, e, prev, prevE, best, bestE, trace, accepted :=
        AnnealStep(d, cutoff, draws[step], clock, state, e, prev, prevE, best, bestE, trace, accepted);
      step := step + 1;
    }
    state := best;
    return Ok(Outcome(state, best, bestE, trace, accepted));
  }

  /** The body of `anneal`'s loop after its clock test: move, revert a rejected uphill
      move to `prevState` and `prevEnergy`, otherwise accept and compare with the best.
      It does what `Iterate` describes. */
  method AnnealStep(d: seq<seq<nat>>, cutoff: nat, dr: Draw, clock: Clock,
                    state: seq<nat>, e: int, prev: seq<nat>, prevE: int,
                    best: seq<nat>, bestE: nat, trace: seq<Event>, accepted: seq<seq<nat>>)
    returns (clock': Clock, state': seq<nat>, e': int, prev': seq<nat>, prevE': int,
             best': seq<nat>, bestE': nat, trace': seq<Event>, accepted': seq<seq<nat>>)
    requires IsMatrix(d) && Within(state, d) && dr.a < |state| && dr.b < |state|
    requires e == Energy(d, state) && prev == state && prevE == e
    ensures Loop(clock', state', best', bestE', trace', accepted')
            == Iterate(d, cutoff, dr, Loop(clock, state, best, bestE, trace, accepted))
    ensures e' == Energy(d, state') && prev' == state' && prevE' == e'
  {
    clock', best', bestE', trace', accepted' := Tick(clock), best, bestE, trace, accepted;
    prev', prevE' := prev, prevE;
    var moved, dE := Move(d, state, dr.a, dr.b);
    state', e' := moved, e + dE;
    if dE > 0 && dr.uphillRejected {
      state', e' := prev', prevE';
    } else {
      prev', prevE' := state', e';
      accepted' := accepted' + [state'];
      if e' < bestE' {
        var t' := Now(clock', cutoff);
        clock' := Tick(clock');
        trace' := trace' + [Event(t', e')];
        best', bestE' := state', e';
      }
    }
  }

  // ---------------------------------------------------------------------------
  // Rotation to city 1 and renumbering

  /** `while state[0] != '1': state = state[1:] + state[:1]`: rotates left by the
      position k of the first occurrence of city 1, which then leads. The source loops
      forever when city 1 is absent, so its presence is required. */
  method RotateToOne(s: seq<nat>) returns (r: seq<nat>, k: nat)
    requires 1 in s
    ensures k < |s| && s[k] == 1 && forall j | 0 <= j < k :: s[j] != 1
    ensures r == Rotate(s, k) && r[0] == 1
  {
    r, k := s, 0;
    while r[0] != 1
      invariant k < |s| && r == Rotate(s, k)
      invariant forall j | 0 <= j < k :: s[j] != 1
      invariant 1 in s[k..]
      decreases |s| - k
    {
      assert r[0] == s[k];
      assert s[k..] == [s[k]] + s[k + 1..];
      RotateStep(s, k + 1);
      r := r[1..] + r[..1];
      k := k + 1;
    }
  }

  /** Rotating leaves the cyclic energy unchanged. */
  lemma EnergyRotate(d: seq<seq<nat>>, s: seq<nat>, k: nat)
    requires IsMatrix(d) && Within(s, d) && k <= |s|
    ensures Within(Rotate(s, k), d)
    ensures Energy(d, Rotate(s, k)) == Energy(d, s)
  {
    RotateWithin(s, k, d);
    if |s| >= 1 {
      TourCostRotate(d, s, k);
      EnergyIsTourCost(d, s);
      EnergyIsTourCost(d, Rotate(s, k));
    }
  }

  /** `state[i] = str(int(state[i]) - 1)`: ids 1..n become city numbers 0..n-1. */
  function Decrement(s: seq<nat>): (r: seq<nat>)
    requires forall i | 0 <= i < |s| :: s[i] >= 1
    ensures |r| == |s| && forall i | 0 <= i < |s| :: r[i] + 1 == s[i]
  {
    seq(|s|, i requires 0 <= i < |s| => s[i] - 1)
  }

  /** Renumbering a permutation of the ids 1..n gives a permutation of 0..n-1. */
  lemma DecrementPerm(s: seq<nat>, n: nat)
    requires IsIdPerm(s, n)
    ensures IsPerm(Decrement(s), n)
  {
  }

  /** A rearrangement of distinct ids 1..n is again one. */
  lemma {:induction false} MultisetIdPerm(s: seq<nat>, s0: seq<nat>, n: nat)
    requires IsIdPerm(s0, n) && |s| == |s0| && multiset(s) == multiset(s0)
    ensures IsIdPerm(s, n)
  {
    forall i | 0 <= i < |s| ensures 1 <= s[i] <= n {
      assert s[i] in multiset(s);
    }
    forall i, j | 0 <= i < j < |s| ensures s[i] != s[j] {
      if s[i] == s[j] {
        MultisetTwice(s, i, j);
        DistinctOnce(s0, s[i]);
      }
    }
  }

  lemma MultisetTwice(s: seq<nat>, i: nat, j: nat)
    requires i < j < |s| && s[i] == s[j]
    ensures multiset(s)[s[i]] >= 2
  {
    var x := s[i];
    assert s == s[..i] + [x] + s[i + 1..j] + [x] + s[j + 1..];
    assert multiset(s) == multiset(s[..i]) + multiset{x} + multiset(s[i + 1..j]) + multiset{x} + multiset(s[j + 1..]);
  }

  lemma {:induction false} DistinctOnce(s: seq<nat>, x: nat)
    requires Distinct(s)
    ensures multiset(s)[x] <= 1
  {
    if s != [] {
      var p := s[..|s| - 1];
      assert s == p + [s[|s| - 1]];
      DistinctOnce(p, x);
      if x == s[|s| - 1] {
        assert x !in p;
      }
    }
  }

  /** The annealing part of `runAnneal`: anneal from a shuffled itinerary with the
      `slice` strategy and the default `Tmin`, rotate the best tour so city 1 leads,
      and renumber it. The written energy is the cyclic energy of the rotated tour,
      no greater than the initial itinerary's, and the route lists 0..n-1 from 0. */
  method RunAnneal(n: nat, d: seq<seq<nat>>, init: seq<nat>, cutoff: nat,
                   readings: seq<nat>, draws: seq<Draw>)
    returns (energy: nat, tour: seq<nat>, route: seq<nat>)
    requires n >= 1 && IsMatrix(d) && |d| == n + 1 && IsIdPerm(init, n)
    requires forall k | 0 <= k < |draws| :: draws[k].a < n && draws[k].b < n
    ensures IsIdPerm(tour, n) && tour[0] == 1 && energy == Energy(d, tour)
    ensures energy <= Energy(d, init)
    ensures IsPerm(route, n) && route[0] == 0
    ensures forall i | 0 <= i < n :: route[i] + 1 == tour[i]
  {
    var res := Anneal(d, init, "slice", DefaultTmax, DefaultTmin, cutoff, readings, draws);
    assert res.Ok?;
    var out := res.value;
    MultisetIdPerm(out.best, init, n);
    assert 1 in out.best by {
      DecrementPerm(out.best, n);
      Pigeonhole(Decrement(out.best), 0, n);
      assert 0 in Decrement(out.best);
    }
    var k;
    tour, k := RotateToOne(out.best);
    EnergyRotate(d, out.best, k);
    energy := out.bestEnergy;
    MultisetIdPerm(tour, init, n);
    route := Decrement(tour);
    DecrementPerm(tour, n);
  }
}
