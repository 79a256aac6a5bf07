/** Shared vocabulary of the four solvers: integers extended with +infinity, the
    wrappers used for error returns, the injected clock, trace events, and a few facts
    about duplicate-free sequences. */
module Common {

  /** A value that is either a finite integer or +infinity, as the solvers use
      `float('inf')` next to integer distances. */
  datatype Ext = Fin(v: int) | Inf

  /** Addition in which +infinity absorbs everything. */
  function Add(a: Ext, b: Ext): (r: Ext)
    ensures r.Inf? <==> a.Inf? || b.Inf?
    ensures r.Fin? ==> r.v == a.v + b.v
  {
    if a.Inf? || b.Inf? then Inf else Fin(a.v + b.v)
  }

  /** Subtraction of a term from a bound; an infinite bound stays infinite. */
  function Sub(a: Ext, b: Ext): (r: Ext)
    ensures a.Fin? && b.Fin? ==> r == Fin(a.v - b.v)
    ensures a.Inf? ==> r == Inf
  {
    if a.Inf? || b.Inf? then Inf else Fin(a.v - b.v)
  }

  /** Twice a value (the branch-and-bound keeps its halved bound doubled). */
  function Double(a: Ext): (r: Ext)
    ensures r.Inf? <==> a.Inf?
    ensures r.Fin? ==> r.v == 2 * a.v
  {
    if a.Inf? then Inf else Fin(2 * a.v)
  }

  /** Strict order with +infinity on top, as `<` on Python numbers with `inf`. */
  predicate Lt(a: Ext, b: Ext) {
    a.Fin? && (b.Inf? || a.v < b.v)
  }

  /** Non-strict order with +infinity on top (`inf <= inf` holds). */
  predicate Le(a: Ext, b: Ext) {
    b.Inf? || (a.Fin? && a.v <= b.v)
  }

  datatype Option<T> = None | Some(value: T)

  datatype Result<T, E> = Ok(value: T) | Err(error: E)

  /** The wall clock, injected: `readings[k]` is the elapsed time (in whole time units
      since the solver started) returned by the k-th clock read. Reads beyond the
      supplied readings are taken to be past any cutoff. */
  datatype Clock = Clock(readings: seq<nat>, next: nat)

  /** The reading the next clock read returns. */
  function Now(c: Clock, cutoff: nat): (t: nat)
    ensures c.next < |c.readings| ==> t == c.readings[c.next]
    ensures c.next >= |c.readings| ==> t > cutoff
  {
    if c.next < |c.readings| then c.readings[c.next] else cutoff + 1
  }

  /** The clock after one more read. */
  function Tick(c: Clock): (r: Clock)
    ensures r.readings == c.readings && r.next == c.next + 1
  {
    c.(next := c.next + 1)
  }

  /** One line of a solution trace: elapsed time and the new best objective value. */
  datatype Event = Event(time: nat, cost: int)

  /** The objective values of a trace strictly decrease: one line per strict improvement. */
  predicate Improving(trace: seq<Event>) {
    forall i, j | 0 <= i < j < |trace| :: trace[j].cost < trace[i].cost
  }

  predicate Distinct<T(==)>(s: seq<T>) {
    forall i, j | 0 <= i < j < |s| :: s[i] != s[j]
  }

  /** Two duplicate-free sequences with no common element concatenate to one. */
  lemma DistinctConcat<T>(a: seq<T>, b: seq<T>)
    requires Distinct(a) && Distinct(b) && forall x | x in a :: x !in b
    ensures Distinct(a + b)
  {
    var r := a + b;
    forall i, j | 0 <= i < j < |r| ensures r[i] != r[j] {
      if i < |a| && j >= |a| {
        assert r[i] in a && r[j] == b[j - |a|];
      }
    }
  }

  /** The integers of `[lo, hi)` as a set. */
  function Interval(lo: int, hi: int): (r: set<int>)
    ensures forall x :: x in r <==> lo <= x < hi
    decreases hi - lo
  {
    if lo >= hi then {} else Interval(lo, hi - 1) + {hi - 1}
  }

  lemma {:induction false} IntervalSize(lo: int, hi: int)
    requires lo <= hi
    ensures |Interval(lo, hi)| == hi - lo
    decreases hi - lo
  {
    if lo < hi {
      IntervalSize(lo, hi - 1);
      assert Interval(lo, hi) == Interval(lo, hi - 1) + {hi - 1};
    } else {
      assert Interval(lo, hi) == {};
    }
  }

  lemma {:induction false} DistinctSetSize(s: seq<int>)
    requires Distinct(s)
    ensures |set x | x in s| == |s|
  {
    if s != [] {
      var p := s[..|s| - 1];
      assert Distinct(p);
      DistinctSetSize(p);
      assert (set x | x in s) == (set x | x in p) + {s[|s| - 1]};
      assert s[|s| - 1] !in p;
    } else {
      assert (set x | x in s) == {};
    }
  }

  lemma SubsetSize(a: set<int>, b: set<int>)
    requires a <= b
    ensures |a| <= |b|
    ensures |a| == |b| ==> a == b
  {
    assert b == (b - a) + a;
    assert (b - a) * a == {};
    if |a| == |b| {
      assert |b - a| == 0;
    }
  }

  /** The converse: a duplicate-free sequence drawn from `[lo, hi)` that contains every
      value of that interval has exactly `hi - lo` entries. */
  lemma CoverSize(s: seq<int>, lo: int, hi: int)
    requires lo <= hi && Distinct(s)
    requires forall i | 0 <= i < |s| :: lo <= s[i] < hi
    requires forall x | lo <= x < hi :: x in s
    ensures |s| == hi - lo
  {
    assert (set x | x in s) == Interval(lo, hi);
    DistinctSetSize(s);
    IntervalSize(lo, hi);
  }

  /** Pigeonhole: a duplicate-free sequence of `hi - lo` values drawn from `[lo, hi)`
      contains every value of that interval. */
  lemma Pigeonhole(s: seq<int>, lo: int, hi: int)
    requires lo <= hi && |s| == hi - lo && Distinct(s)
    requires forall i | 0 <= i < |s| :: lo <= s[i] < hi
    ensures forall x | lo <= x < hi :: x in s
  {
    var elems := set x | x in s;
    assert elems <= Interval(lo, hi);
    DistinctSetSize(s);
    IntervalSize(lo, hi);
    SubsetSize(elems, Interval(lo, hi));
    forall x | lo <= x < hi ensures x in s {
      assert x in Interval(lo, hi);
    }
  }
}
