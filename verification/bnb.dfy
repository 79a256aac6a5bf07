/** The exact branch-and-bound solver of BNB.py: the second-smallest helper, the
    (n+1)x(n+1) matrix with its +infinity border, the per-city neighbour order, the
    initial lower bound, and the depth-first search with its push/recurse/undo
    discipline, pruning and best-so-far bookkeeping. Cities are 1..n; the search
    starts from city 1. */
module BranchBound {
  import opened Common

  // ---------------------------------------------------------------------------
  // second_smallest and min

  /** `y` is the least value of `xs`. */
  predicate IsLeast(xs: seq<Ext>, y: Ext) {
    (exists a | 0 <= a < |xs| :: xs[a] == y) && forall a | 0 <= a < |xs| :: Le(y, xs[a])
  }

  /** `y` is the second value of `xs` in ascending order, repeats counted: two
      different positions hold values <= y, and no two positions hold values < y. */
  predicate IsSecondSmallest(xs: seq<Ext>, y: Ext) {
    (exists a, b | 0 <= a < |xs| && 0 <= b < |xs| :: a != b && Le(xs[a], y) && Le(xs[b], y))
    && forall a, b | 0 <= a < |xs| && 0 <= b < |xs| && a != b :: !(Lt(xs[a], y) && Lt(xs[b], y))
  }

  /** Python's `min` over a row. */
  function MinOf(xs: seq<Ext>): Ext {
    if xs == [] then Inf
    else if Le(xs[0], MinOf(xs[1..])) then xs[0]
    else MinOf(xs[1..])
  }

  lemma {:induction false} MinOfIsLeast(xs: seq<Ext>)
    requires xs != []
    ensures IsLeast(xs, MinOf(xs))
  {
    if |xs| > 1 {
      MinOfIsLeast(xs[1..]);
      var a :| 0 <= a < |xs[1..]| && xs[1..][a] == MinOf(xs[1..]);
      if !Le(xs[0], MinOf(xs[1..])) {
        assert xs[a + 1] == MinOf(xs);
      }
      forall b | 0 <= b < |xs| ensures Le(MinOf(xs), xs[b]) {
        if b > 0 {
          assert xs[b] == xs[1..][b - 1];
        }
      }
    } else {
      assert xs[0] == MinOf(xs);
    }
  }

  /** The least value of a sequence is unique. */
  lemma LeastUnique(xs: seq<Ext>, y: Ext, z: Ext)
    requires IsLeast(xs, y) && IsLeast(xs, z)
    ensures y == z
  {
    var a :| 0 <= a < |xs| && xs[a] == y;
    var b :| 0 <= b < |xs| && xs[b] == z;
    assert Le(y, xs[b]) && Le(z, xs[a]);
  }

  /** One iteration of `second_smallest`'s loop on the pair (m1, m2). */
  function SecondStep(x: Ext, m: (Ext, Ext)): (Ext, Ext) {
    if Le(x, m.0) then (x, m.0)
    else if Lt(x, m.1) then (m.0, x)
    else m
  }

  /** The loop of `second_smallest` over the remaining values `xs`. */
  function SecondLoop(xs: seq<Ext>, m: (Ext, Ext)): (Ext, Ext)
    decreases |xs|
  {
    if xs == [] then m else SecondLoop(xs[1..], SecondStep(xs[0], m))
  }

  /** `second_smallest`: starts from (inf, inf) and returns m2. */
  function SecondSmallest(xs: seq<Ext>): Ext {
    SecondLoop(xs, (Inf, Inf)).1
  }

  /** What the pair (m1, m2) means after the loop has seen the prefix `p`. */
  predicate SecondInv(p: seq<Ext>, m: (Ext, Ext)) {
    && (p == [] ==> m.0 == Inf)
    && (p != [] ==> IsLeast(p, m.0))
    && (|p| < 2 ==> m.1 == Inf)
    && (|p| >= 2 ==> IsSecondSmallest(p, m.1))
    && Le(m.0, m.1)
  }

  lemma SecondStepInv(p: seq<Ext>, x: Ext, m: (Ext, Ext))
    requires SecondInv(p, m)
    ensures SecondInv(p + [x], SecondStep(x, m))
  {
    if Le(x, m.0) {
      StepNewLeast(p, x, m);
    } else if Lt(x, m.1) {
      StepNewSecond(p, x, m);
    } else {
      StepKeep(p, x, m);
    }
  }

  /** A value no greater than m1 becomes the least, and m1 the second. */
  lemma StepNewLeast(p: seq<Ext>, x: Ext, m: (Ext, Ext))
    requires SecondInv(p, m) && Le(x, m.0)
    ensures SecondInv(p + [x], (x, m.0))
  {
    var q := p + [x];
    assert q[|p|] == x;
    assert forall a | 0 <= a < |p| :: q[a] == p[a];
    forall a | 0 <= a < |q| ensures Le(x, q[a]) {
      if a < |p| {
        assert Le(m.0, p[a]);
      }
    }
    assert IsLeast(q, x);
    if |q| >= 2 {
      var a0 :| 0 <= a0 < |p| && p[a0] == m.0;
      assert Le(q[a0], m.0) && Le(q[|p|], m.0);
      forall a, b | 0 <= a < |q| && 0 <= b < |q| && a != b
        ensures !(Lt(q[a], m.0) && Lt(q[b], m.0))
      {
        if a < |p| {
          assert Le(m.0, p[a]);
        } else {
          assert Le(m.0, p[b]);
        }
      }
      assert IsSecondSmallest(q, m.0);
    }
  }

  /** A value above m1 and below m2 becomes the second. */
  lemma StepNewSecond(p: seq<Ext>, x: Ext, m: (Ext, Ext))
    requires SecondInv(p, m) && !Le(x, m.0) && Lt(x, m.1)
    ensures SecondInv(p + [x], (m.0, x))
  {
    var q := p + [x];
    assert q[|p|] == x;
    assert forall a | 0 <= a < |p| :: q[a] == p[a];
    var a0 :| 0 <= a0 < |p| && p[a0] == m.0;
    assert IsLeast(q, m.0) by {
      assert q[a0] == m.0;
    }
    assert Le(q[a0], x) && Le(q[|p|], x);
    forall a, b | 0 <= a < |q| && 0 <= b < |q| && a != b
      ensures !(Lt(q[a], x) && Lt(q[b], x))
    {
      if a < |p| && b < |p| && Lt(q[a], x) && Lt(q[b], x) {
        assert |p| >= 2;
        assert Lt(p[a], m.1) && Lt(p[b], m.1);
      }
    }
    assert IsSecondSmallest(q, x);
  }

  /** A value not below m2 (and above m1) changes neither. */
  lemma StepKeep(p: seq<Ext>, x: Ext, m: (Ext, Ext))
    requires SecondInv(p, m) && !Le(x, m.0) && !Lt(x, m.1)
    ensures SecondInv(p + [x], m)
  {
    var q := p + [x];
    assert q[|p|] == x;
    assert forall a | 0 <= a < |p| :: q[a] == p[a];
    var a0 :| 0 <= a0 < |p| && p[a0] == m.0;
    assert IsLeast(q, m.0) by {
      assert q[a0] == m.0;
    }
    if |p| >= 2 {
      var a, b :| 0 <= a < |p| && 0 <= b < |p| && a != b && Le(p[a], m.1) && Le(p[b], m.1);
      assert Le(q[a], m.1) && Le(q[b], m.1);
      assert IsSecondSmallest(q, m.1);
    } else {
      assert Le(q[0], m.1) && Le(q[1], m.1);
      assert IsSecondSmallest(q, m.1);
    }
  }

  lemma {:induction false} SecondLoopInv(p: seq<Ext>, xs: seq<Ext>, m: (Ext, Ext))
    requires SecondInv(p, m)
    ensures SecondInv(p + xs, SecondLoop(xs, m))
    decreases |xs|
  {
    if xs != [] {
      var q := p + [xs[0]];
      assert q + xs[1..] == p + xs;
      SecondStepInv(p, xs[0], m);
      SecondLoopInv(q, xs[1..], SecondStep(xs[0], m));
    } else {
      assert p + xs == p;
    }
  }

  /** `second_smallest` returns the second value in ascending order (the minimum again
      when it occurs twice), +infinity for fewer than two values, and never less than
      the minimum. */
  lemma SecondSmallestSpec(xs: seq<Ext>)
    ensures |xs| < 2 ==> SecondSmallest(xs) == Inf
    ensures |xs| >= 2 ==> IsSecondSmallest(xs, SecondSmallest(xs))
    ensures xs != [] ==> Le(MinOf(xs), SecondSmallest(xs))
  {
    assert SecondInv([], (Inf, Inf));
    SecondLoopInv([], xs, (Inf, Inf));
    assert [] + xs == xs;
    if xs != [] {
      MinOfIsLeast(xs);
      LeastUnique(xs, MinOf(xs), SecondLoop(xs, (Inf, Inf)).0);
    }
  }

  /** The second-smallest value is determined by the values alone. */
  lemma SecondSmallestUnique(xs: seq<Ext>, y: Ext, z: Ext)
    requires IsSecondSmallest(xs, y) && IsSecondSmallest(xs, z)
    ensures y == z
  {
    if Lt(y, z) {
      var a, b :| 0 <= a < |xs| && 0 <= b < |xs| && a != b && Le(xs[a], y) && Le(xs[b], y);
      assert Lt(xs[a], z) && Lt(xs[b], z);
    } else if Lt(z, y) {
      var a, b :| 0 <= a < |xs| && 0 <= b < |xs| && a != b && Le(xs[a], z) && Le(xs[b], z);
      assert Lt(xs[a], y) && Lt(xs[b], y);
    }
  }

  // ---------------------------------------------------------------------------
  // The distance matrix

  /** The matrix `TSP_Read.read_file` builds for n cities: (n+1)x(n+1), with row 0,
      column 0 and the diagonal +infinity and every other entry a finite distance. */
  predicate IsBnbMatrix(m: seq<seq<Ext>>, n: nat) {
    && |m| == n + 1
    && (forall i | 0 <= i < |m| :: |m[i]| == n + 1)
    && (forall i, j | 0 <= i <= n && 0 <= j <= n ::
          (m[i][j].Inf? <==> (i == j || i == 0 || j == 0)) && (m[i][j].Fin? ==> m[i][j].v >= 0))
  }

  /** The matrix of `read_file` from the rounded distances `w` between cities 1..n
      (`w` is indexed by city, its row and column 0 unused). */
  function BuildMatrix(n: nat, w: seq<seq<nat>>): (m: seq<seq<Ext>>)
    requires |w| == n + 1 && forall i | 0 <= i <= n :: |w[i]| == n + 1
    ensures IsBnbMatrix(m, n)
    ensures forall i, j | 1 <= i <= n && 1 <= j <= n && i != j :: m[i][j] == Fin(w[i][j])
  {
    seq(n + 1, i requires 0 <= i <= n =>
      seq(n + 1, j requires 0 <= j <= n =>
        if i == j then Inf else if i == 0 || j == 0 then Inf else Fin(w[i][j])))
  }

  // ---------------------------------------------------------------------------
  // Neighbour order (np.argsort of a row, shifted to city numbers)

  predicate Below(s: seq<nat>, bound: nat) {
    forall k | 0 <= k < |s| :: s[k] < bound
  }

  /** The cities of `s` are in non-decreasing distance along `row`. */
  predicate SortedBy(row: seq<Ext>, s: seq<nat>)
    requires Below(s, |row|)
  {
    forall k, l | 0 <= k < l < |s| :: Le(row[s[k]], row[s[l]])
  }

  /** What `np.argsort(matrix[c][1:]) + 1` may return for row c: the cities 1..n, each
      once, by non-decreasing distance from c. The sort numpy uses by default is not
      stable, so any such order is admitted. */
  predicate IsNeighbourOrder(row: seq<Ext>, n: nat, o: seq<nat>) {
    && |row| == n + 1
    && |o| == n
    && Distinct(o)
    && (forall k | 0 <= k < n :: 1 <= o[k] <= n)
    && SortedBy(row, o)
  }

  /** Insert city c into a list sorted by distance, before the first city not closer. */
  function Insert(row: seq<Ext>, c: nat, s: seq<nat>): (r: seq<nat>)
    requires c < |row| && Below(s, |row|)
    ensures |r| == |s| + 1 && Below(r, |row|)
    ensures forall x :: x in r <==> x == c || x in s
    ensures SortedBy(row, s) ==> SortedBy(row, r)
    ensures Distinct(s) && c !in s ==> Distinct(r)
  {
    if s == [] || Le(row[c], row[s[0]]) then [c] + s
    else
      var r' := Insert(row, c, s[1..]);
      InsertBehind(row, c, s, r');
      [s[0]] + r'
  }

  /** Keeping the head of `s` in front of the insertion into its tail keeps the list
      sorted and duplicate-free. */
  lemma InsertBehind(row: seq<Ext>, c: nat, s: seq<nat>, r': seq<nat>)
    requires c < |row| && Below(s, |row|) && s != [] && !Le(row[c], row[s[0]])
    requires Below(r', |row|) && forall x :: x in r' <==> x == c || x in s[1..]
    requires SortedBy(row, s[1..]) ==> SortedBy(row, r')
    requires Distinct(s[1..]) && c !in s[1..] ==> Distinct(r')
    ensures Below([s[0]] + r', |row|)
    ensures SortedBy(row, s) ==> SortedBy(row, [s[0]] + r')
    ensures Distinct(s) && c !in s ==> Distinct([s[0]] + r')
  {
    var r := [s[0]] + r';
    assert forall x :: x in s[1..] ==> x in s;
    if SortedBy(row, s) {
      forall l | 0 < l < |r| ensures Le(row[s[0]], row[r[l]]) {
        assert r[l] in r';
        if r[l] != c {
          var j :| 0 <= j < |s[1..]| && s[1..][j] == r[l];
          assert s[j + 1] == r[l];
        }
      }
    }
    if Distinct(s) && c !in s {
      assert s[0] !in s[1..];
      assert s[0] !in r';
    }
  }

  /** Insertion sort of the cities `cs` by distance along `row`. */
  function SortByDistance(row: seq<Ext>, cs: seq<nat>): (r: seq<nat>)
    requires Below(cs, |row|)
    ensures |r| == |cs| && Below(r, |row|) && SortedBy(row, r)
    ensures forall x :: x in r <==> x in cs
    ensures Distinct(cs) ==> Distinct(r)
  {
    if cs == [] then []
    else
      var r' := SortByDistance(row, cs[..|cs| - 1]);
      assert forall x :: x in cs <==> x in cs[..|cs| - 1] || x == cs[|cs| - 1];
      Insert(row, cs[|cs| - 1], r')
  }

  /** The cities 1..n in numeric order. */
  function Cities(n: nat): (r: seq<nat>)
    ensures |r| == n && Distinct(r) && forall k | 0 <= k < n :: r[k] == k + 1
  {
    seq(n, k requires 0 <= k < n => k + 1)
  }

  /** `sorted_indices` as built in `TSP`: entry 0 is a placeholder, entry c the
      neighbour order of city c. */
  function NeighbourOrders(m: seq<seq<Ext>>, n: nat): (order: seq<seq<nat>>)
    requires IsBnbMatrix(m, n)
    ensures |order| == n + 1
    ensures forall c | 1 <= c <= n :: IsNeighbourOrder(m[c], n, order[c])
  {
    var order := seq(n + 1, c requires 0 <= c <= n =>
      if c == 0 then [] else SortByDistance(m[c], Cities(n)));
    assert forall c | 1 <= c <= n :: IsNeighbourOrder(m[c], n, order[c]) by {
      forall c | 1 <= c <= n ensures IsNeighbourOrder(m[c], n, order[c]) {
        var o := order[c];
        forall k | 0 <= k < n ensures 1 <= o[k] <= n {
          assert o[k] in Cities(n);
        }
      }
    }
    order
  }

  /** Every city 1..n occurs in a neighbour order. */
  lemma NeighbourOrderCovers(row: seq<Ext>, n: nat, o: seq<nat>)
    requires IsNeighbourOrder(row, n, o)
    ensures forall c | 1 <= c <= n :: c in o
  {
    Pigeonhole(o, 1, n + 1);
  }

  /** In city c's neighbour order c itself comes last (its own entry is +infinity),
      the first city is at the row's minimum distance and the second at the row's
      second-smallest distance, so the bound updates of the search use exactly the
      values the initial bound adds up. */
  lemma NeighbourOrderFacts(m: seq<seq<Ext>>, n: nat, c: nat, o: seq<nat>)
    requires IsBnbMatrix(m, n) && 1 <= c <= n && IsNeighbourOrder(m[c], n, o)
    ensures o[n - 1] == c
    ensures m[c][o[0]] == MinOf(m[c])
    ensures n >= 2 ==> m[c][o[1]] == SecondSmallest(m[c])
  {
    var row := m[c];
    NeighbourOrderCovers(row, n, o);
    assert c in o;
    var kc :| 0 <= kc < n && o[kc] == c;
    forall j | 0 <= j < |row| ensures Le(row[o[0]], row[j]) {
      if j != 0 {
        assert j in o;
        var k :| 0 <= k < n && o[k] == j;
        if k != 0 {
          assert Le(row[o[0]], row[o[k]]);
        }
      }
    }
    assert IsLeast(row, row[o[0]]);
    MinOfIsLeast(row);
    LeastUnique(row, row[o[0]], MinOf(row));
    if n >= 2 {
      var y := row[o[1]];
      assert Le(row[o[0]], y) && Le(row[o[1]], y);
      forall a | 0 <= a < |row| && Lt(row[a], y) ensures a == o[0] {
        assert a != 0;
        assert a in o;
        var ka :| 0 <= ka < n && o[ka] == a;
      }
      assert IsSecondSmallest(row, y);
      SecondSmallestSpec(row);
      SecondSmallestUnique(row, y, SecondSmallest(row));
    }
  }

  // ---------------------------------------------------------------------------
  // The initial lower bound

  /** Twice the initial bound of `TSP`, over cities 1..c: the sum of each row's
      minimum and second-smallest entry. */
  function BoundSum(m: seq<seq<Ext>>, n: nat, c: nat): Ext
    requires IsBnbMatrix(m, n) && c <= n
  {
    if c == 0 then Fin(0)
    else Add(BoundSum(m, n, c - 1), Add(MinOf(m[c]), SecondSmallest(m[c])))
  }

  /** Twice `cur_bound` as `TSP` hands it to the root of the search (the source halves
      the sum; the model keeps the sum, and halves nothing). */
  function InitialBound(m: seq<seq<Ext>>, n: nat): Ext
    requires IsBnbMatrix(m, n)
  {
    BoundSum(m, n, n)
  }

  /** The bound is finite exactly when there are at least three cities: with one or two
      cities every row's second-smallest entry is +infinity. */
  lemma InitialBoundFinite(m: seq<seq<Ext>>, n: nat)
    requires IsBnbMatrix(m, n) && n >= 1
    ensures InitialBound(m, n).Fin? <==> n >= 3
  {
    var order := NeighbourOrders(m, n);
    if n >= 3 {
      BoundSumFinite(m, n, n, order);
    } else {
      BoundSumInfinite(m, n, n, order);
    }
  }

  lemma {:induction false} BoundSumFinite(m: seq<seq<Ext>>, n: nat, c: nat, order: seq<seq<nat>>)
    requires IsBnbMatrix(m, n) && n >= 3 && c <= n && |order| == n + 1
    requires forall c' | 1 <= c' <= n :: IsNeighbourOrder(m[c'], n, order[c'])
    ensures BoundSum(m, n, c).Fin?
  {
    if c > 0 {
      BoundSumFinite(m, n, c - 1, order);
      var o := order[c];
      NeighbourOrderFacts(m, n, c, o);
      assert o[0] != c && o[1] != c by {
        assert o[n - 1] == c;
      }
    }
  }

  lemma {:induction false} BoundSumInfinite(m: seq<seq<Ext>>, n: nat, c: nat, order: seq<seq<nat>>)
    requires IsBnbMatrix(m, n) && 1 <= n <= 2 && 1 <= c <= n && |order| == n + 1
    requires forall c' | 1 <= c' <= n :: IsNeighbourOrder(m[c'], n, order[c'])
    ensures BoundSum(m, n, c).Inf?
  {
    if c > 1 {
      BoundSumInfinite(m, n, c - 1, order);
    } else {
      var o := order[1];
      NeighbourOrderFacts(m, n, 1, o);
      SecondSmallestSpec(m[1]);
      if n == 2 {
        assert o[1] == 1;
      } else {
        assert m[1] == [Inf, Inf];
        assert SecondSmallest(m[1]) == Inf;
      }
    }
  }

  // ---------------------------------------------------------------------------
  // The search

  /** An instance of the search: n cities, the matrix, `sorted_indices`, and the cutoff. */
  datatype Instance = Instance(n: nat, m: seq<seq<Ext>>, order: seq<seq<nat>>, cutoff: nat)

  predicate Valid(inst: Instance) {
    && inst.n >= 1
    && IsBnbMatrix(inst.m, inst.n)
    && |inst.order| == inst.n + 1
    && forall c | 1 <= c <= inst.n :: IsNeighbourOrder(inst.m[c], inst.n, inst.order[c])
  }

  /** matrix[c][sorted_indices[c][0]]: the distance from c to its nearest neighbour. */
  function First(inst: Instance, c: nat): Ext
    requires Valid(inst) && 1 <= c <= inst.n
  {
    inst.m[c][inst.order[c][0]]
  }

  /** matrix[c][sorted_indices[c][1]]: the distance from c to its second neighbour. */
  function Second(inst: Instance, c: nat): Ext
    requires Valid(inst) && 1 <= c <= inst.n && inst.n >= 2
  {
    inst.m[c][inst.order[c][1]]
  }

  predicate Cityish(p: seq<nat>, n: nat) {
    forall k | 0 <= k < |p| :: 1 <= p[k] <= n
  }

  /** Length of the path p[0] -> ... -> p[|p|-1] along the matrix. */
  function PathLen(m: seq<seq<Ext>>, n: nat, p: seq<nat>): Ext
    requires IsBnbMatrix(m, n) && Cityish(p, n)
  {
    if |p| <= 1 then Fin(0)
    else Add(PathLen(m, n, p[..|p| - 1]), m[p[|p| - 2]][p[|p| - 1]])
  }

  /** A tour as `final_path[1:]` holds it: the cities 1..n once each, starting with
      city 1, then city 1 again. */
  predicate IsClosedTour(n: nat, t: seq<nat>) {
    && |t| == n + 1
    && t[0] == 1 && t[n] == 1
    && Distinct(t[..n])
    && Cityish(t, n)
  }

  /** The best tour so far (`final_res`, `final_path`) and the trace lines written. */
  datatype Incumbent = Incumbent(res: Ext, tour: seq<nat>, trace: seq<Event>)

  /** The incumbent is +infinity with no tour until the first trace line; afterwards it
      is the cost of its closed tour and of the last trace line, and the trace lines
      strictly improve. */
  predicate IncumbentOk(inst: Instance, b: Incumbent)
    requires Valid(inst)
  {
    && Improving(b.trace)
    && (b.trace == [] ==> b.res == Inf && b.tour == [])
    && (b.trace != [] ==>
          && b.res == Fin(b.trace[|b.trace| - 1].cost)
          && IsClosedTour(inst.n, b.tour)
          && PathLen(inst.m, inst.n, b.tour) == b.res)
  }

  /** The mutable state the search threads through its calls: `visited`, `cur_path`
      (without the source's leading placeholder), the incumbent and the clock. */
  datatype Search = Search(visited: seq<bool>, path: seq<nat>, best: Incumbent, clock: Clock)

  /** What holds at every node: the path starts at city 1 and lists distinct cities,
      `visited` flags exactly the cities on it, and `cur_distance` is its length. */
  predicate AtNode(inst: Instance, st: Search, dist: int) {
    && Valid(inst)
    && |st.visited| == inst.n + 1
    && |st.path| >= 1
    && st.path[0] == 1
    && Distinct(st.path)
    && Cityish(st.path, inst.n)
    && (forall c | 0 <= c <= inst.n :: st.visited[c] <==> c in st.path)
    && PathLen(inst.m, inst.n, st.path) == Fin(dist)
    && IncumbentOk(inst, st.best)
  }

  /** The cities not yet on the path; the search recurses only by shrinking it. */
  function Unvisited(n: nat, visited: seq<bool>): set<nat> {
    set c: nat | 1 <= c <= n && c < |visited| && !visited[c]
  }

  /** What every call of the search guarantees to its caller: `visited` and the path
      are exactly as on entry, the incumbent never gets worse, trace lines are only
      appended, the incumbent changes only together with its trace, and a new
      incumbent tour passes through the caller's path. */
  predicate Returns(inst: Instance, st: Search, r: Search)
    requires Valid(inst)
  {
    && r.visited == st.visited
    && r.path == st.path
    && IncumbentOk(inst, r.best)
    && Le(r.best.res, st.best.res)
    && st.best.trace <= r.best.trace
    && (r.best.res == st.best.res ==> r.best == st.best)
    && (r.best != st.best ==>
          |st.path| <= |r.best.tour| && r.best.tour[..|st.path|] == st.path)
    && r.clock.readings == st.clock.readings
    && r.clock.next >= st.clock.next
  }

  /** `TSP_BNB(cur_bound, cur_distance, level, cur_path)` with `bound` twice
      `cur_bound` and `level` the length of the path. A node is entered only at the
      root or when its bound plus distance beats the incumbent. */
  function Node(inst: Instance, bound: Ext, dist: int, st: Search): (r: Search)
    requires AtNode(inst, st, dist)
    requires |st.path| == 1 || Lt(Add(bound, Fin(2 * dist)), Double(st.best.res))
    ensures Returns(inst, st, r)
    ensures r.clock.next > st.clock.next
    decreases Unvisited(inst.n, st.visited), 1, 0, 0
  {
    var t := Now(st.clock, inst.cutoff);
    var st0 := st.(clock := Tick(st.clock));
    if t >= inst.cutoff then st0
    else
      var last := st.path[|st.path| - 1];
      var cost := Add(Fin(dist), inst.m[last][st.path[0]]);
      if |st.path| == inst.n && Lt(cost, st.best.res) then
        var best := Incumbent(cost, st.path + [st.path[0]], st.best.trace + [Event(t, cost.v)]);
        LeafReturns(inst, st, dist, t);
        st0.(best := best)
      else
        Branch(inst, bound, dist, 0, st0)
  }

  /** A full path whose closed length beats the incumbent becomes the incumbent, with
      one trace line: the call returns as its caller expects. */
  lemma LeafReturns(inst: Instance, st: Search, dist: int, t: nat)
    requires AtNode(inst, st, dist) && |st.path| == inst.n
    requires Lt(Add(Fin(dist), inst.m[st.path[|st.path| - 1]][st.path[0]]), st.best.res)
    ensures var cost := Add(Fin(dist), inst.m[st.path[|st.path| - 1]][st.path[0]]);
            var best := Incumbent(cost, st.path + [st.path[0]], st.best.trace + [Event(t, cost.v)]);
            Returns(inst, st, st.(clock := Tick(st.clock), best := best))
  {
    var cost := Add(Fin(dist), inst.m[st.path[|st.path| - 1]][st.path[0]]);
    var tour := st.path + [st.path[0]];
    assert tour[..|tour| - 1] == st.path;
    assert tour[..inst.n] == st.path;
    var best := Incumbent(cost, tour, st.best.trace + [Event(t, cost.v)]);
    assert IncumbentOk(inst, best) by {
      var tr := best.trace;
      forall i, j | 0 <= i < j < |tr| ensures tr[j].cost < tr[i].cost {
        if j == |tr| - 1 && i < |tr| - 2 {
          assert st.best.trace[|st.best.trace| - 1].cost < st.best.trace[i].cost;
        }
      }
    }
    assert tour[..|st.path|] == st.path;
  }

  /** The loop of `TSP_BNB` over `sorted_indices[last_city]` from position k on. */
  function Branch(inst: Instance, bound: Ext, dist: int, k: nat, st: Search): (r: Search)
    requires AtNode(inst, st, dist) && k <= inst.n
    ensures Returns(inst, st, r)
    decreases Unvisited(inst.n, st.visited), 0, inst.n - k, 1
  {
    var last := st.path[|st.path| - 1];
    var cands := inst.order[last];
    if k == |cands| then st
    else if st.visited[cands[k]] then Branch(inst, bound, dist, k + 1, st)
    else Explore(inst, bound, dist, k, st)
  }

  /** One unvisited candidate i: add its edge to the distance, lower the bound by half
      the two neighbour distances it now accounts for (nearest ones at level 1, the
      last city's second-nearest afterwards), and descend when bound plus distance still
      beats the incumbent; then undo and go on with the next candidate. */
  function Explore(inst: Instance, bound: Ext, dist: int, k: nat, st: Search): (r: Search)
    requires AtNode(inst, st, dist) && k < |inst.order[st.path[|st.path| - 1]]|
    requires !st.visited[inst.order[st.path[|st.path| - 1]][k]]
    ensures Returns(inst, st, r)
    decreases Unvisited(inst.n, st.visited), 0, inst.n - k, 0
  {
    var last := st.path[|st.path| - 1];
    var i := inst.order[last][k];
    CandidateOk(inst, st, dist, k);
    var e := inst.m[last][i].v;
    var dist' := dist + e;
    var term :=
      if |st.path| == 1 then Add(First(inst, last), First(inst, i))
      else Add(Second(inst, last), First(inst, i));
    var bound' := Sub(bound, term);
    if Lt(Add(bound', Fin(2 * dist')), Double(st.best.res)) then
      var st1 := Push(st, i);
      PushOk(inst, st, dist, i);
      var st2 := Node(inst, bound', dist', st1);
      PopOk(inst, st, i, st2);
      var st3 := Pop(st2);
      ReturnedAtNode(inst, st, dist, st3);
      var r := Branch(inst, bound, dist, k + 1, st3);
      ReturnsTrans(inst, st, st3, r);
      r
    else
      Branch(inst, bound, dist, k + 1, st)
  }

  /** The k-th candidate of the last city, when unvisited, is a city off the path at
      a finite distance; past the root the path has a second city, so n >= 2. */
  lemma CandidateOk(inst: Instance, st: Search, dist: int, k: nat)
    requires AtNode(inst, st, dist)
    requires k < |inst.order[st.path[|st.path| - 1]]|
    requires !st.visited[inst.order[st.path[|st.path| - 1]][k]]
    ensures var i := inst.order[st.path[|st.path| - 1]][k];
            1 <= i <= inst.n && i !in st.path && inst.m[st.path[|st.path| - 1]][i].Fin?
    ensures |st.path| > 1 ==> inst.n >= 2
    ensures k < inst.n
  {
    var last := st.path[|st.path| - 1];
    var i := inst.order[last][k];
    assert i !in st.path && last in st.path;
    if |st.path| > 1 {
      assert st.path[1] != 1 && st.path[1] <= inst.n;
    }
  }

  /** After a call returns, the caller's node invariant holds again. */
  lemma ReturnedAtNode(inst: Instance, st: Search, dist: int, st3: Search)
    requires AtNode(inst, st, dist) && Returns(inst, st, st3)
    ensures AtNode(inst, st3, dist)
  {
  }

  /** Appending city i to `cur_path` and setting `visited[i]`. */
  function Push(st: Search, i: nat): Search
    requires i < |st.visited|
  {
    st.(path := st.path + [i], visited := st.visited[i := true])
  }

  /** Clearing `visited` for the last city of the path and popping it. */
  function Pop(st: Search): Search
    requires |st.path| >= 1 && 1 <= st.path[|st.path| - 1] < |st.visited|
  {
    st.(path := st.path[..|st.path| - 1], visited := st.visited[st.path[|st.path| - 1] := false])
  }

  /** Pushing an unvisited city keeps the node invariant with the distance grown by
      the new edge, and strictly shrinks the set of unvisited cities. */
  lemma PushOk(inst: Instance, st: Search, dist: int, i: nat)
    requires AtNode(inst, st, dist) && 1 <= i <= inst.n && !st.visited[i]
    ensures inst.m[st.path[|st.path| - 1]][i].Fin?
    ensures AtNode(inst, Push(st, i), dist + inst.m[st.path[|st.path| - 1]][i].v)
    ensures Unvisited(inst.n, Push(st, i).visited) < Unvisited(inst.n, st.visited)
  {
    var last := st.path[|st.path| - 1];
    assert i !in st.path && last in st.path;
    PushPath(inst.m, inst.n, st.path, dist, i);
    PushVisited(inst.n, st.path, st.visited, i);
    PushShrinks(inst.n, st.visited, i);
  }

  /** `visited` marks the path's cities before the push exactly when it does after. */
  lemma PushVisited(n: nat, path: seq<nat>, visited: seq<bool>, i: nat)
    requires |visited| == n + 1 && 1 <= i <= n
    requires forall c | 0 <= c <= n :: visited[c] <==> c in path
    ensures forall c | 0 <= c <= n :: visited[i := true][c] <==> c in path + [i]
  {
    forall c | 0 <= c <= n ensures visited[i := true][c] <==> c in path + [i] {
      assert c in path + [i] <==> c in path || c == i;
    }
  }

  /** Appending a city off the path keeps the path distinct and adds one edge to its
      length. */
  lemma PushPath(m: seq<seq<Ext>>, n: nat, path: seq<nat>, dist: int, i: nat)
    requires IsBnbMatrix(m, n) && |path| >= 1 && Distinct(path) && Cityish(path, n)
    requires PathLen(m, n, path) == Fin(dist)
    requires 1 <= i <= n && i !in path
    ensures m[path[|path| - 1]][i].Fin?
    ensures Distinct(path + [i]) && Cityish(path + [i], n)
    ensures PathLen(m, n, path + [i]) == Fin(dist + m[path[|path| - 1]][i].v)
  {
    var last := path[|path| - 1];
    assert last in path;
    DistinctConcat(path, [i]);
    PathLenSnoc(m, n, path, i);
  }

  lemma PathLenSnoc(m: seq<seq<Ext>>, n: nat, path: seq<nat>, i: nat)
    requires IsBnbMatrix(m, n) && |path| >= 1 && Cityish(path, n) && 1 <= i <= n
    ensures Cityish(path + [i], n)
    ensures PathLen(m, n, path + [i]) == Add(PathLen(m, n, path), m[path[|path| - 1]][i])
  {
    CityishSnoc(path, n, i);
    var q := path + [i];
    PathLenUnfold(m, n, q);
    assert q[..|q| - 1] == path;
    assert q[|q| - 2] == path[|path| - 1] && q[|q| - 1] == i;
  }

  lemma PathLenUnfold(m: seq<seq<Ext>>, n: nat, q: seq<nat>)
    requires IsBnbMatrix(m, n) && Cityish(q, n) && |q| >= 2
    ensures PathLen(m, n, q) == Add(PathLen(m, n, q[..|q| - 1]), m[q[|q| - 2]][q[|q| - 1]])
  {
  }

  lemma CityishSnoc(path: seq<nat>, n: nat, i: nat)
    requires Cityish(path, n) && 1 <= i <= n
    ensures Cityish(path + [i], n)
  {
    var q := path + [i];
    forall k | 0 <= k < |q| ensures 1 <= q[k] <= n {
      if k < |path| { assert q[k] == path[k]; }
    }
  }

  /** Marking an unvisited city visited shrinks the unvisited set. */
  lemma PushShrinks(n: nat, visited: seq<bool>, i: nat)
    requires 1 <= i <= n && i < |visited| && !visited[i]
    ensures Unvisited(n, visited[i := true]) < Unvisited(n, visited)
  {
    assert i in Unvisited(n, visited);
    assert i !in Unvisited(n, visited[i := true]);
  }

  /** Undoing the push after the recursive call gives back exactly the caller's
      `visited` and path, so the call as a whole returns as the caller expects. */
  lemma PopOk(inst: Instance, st: Search, i: nat, st2: Search)
    requires Valid(inst) && 1 <= i < |st.visited| && !st.visited[i]
    requires Returns(inst, Push(st, i), st2)
    ensures |st2.path| >= 1 && 1 <= st2.path[|st2.path| - 1] < |st2.visited|
    ensures Returns(inst, st, Pop(st2))
  {
    var st1 := Push(st, i);
    var st3 := Pop(st2);
    assert st3.path == st.path;
    assert st3.visited == st.visited;
    if st2.best != st.best {
      assert st2.best.tour[..|st1.path|] == st1.path;
      assert st2.best.tour[..|st.path|] == st2.best.tour[..|st1.path|][..|st.path|];
    }
  }

  lemma ReturnsTrans(inst: Instance, a: Search, b: Search, c: Search)
    requires Valid(inst) && Returns(inst, a, b) && Returns(inst, b, c)
    ensures Returns(inst, a, c)
  {
    if c.best != a.best {
      if c.best == b.best {
      } else {
        assert c.best.tour[..|b.path|] == b.path;
      }
    }
  }

  /** The state `TSP` builds before the first call: city 1 on the path and visited. */
  function Root(n: nat, readings: seq<nat>): Search {
    Search(seq(n + 1, c requires 0 <= c <= n => c == 1), [1], Incumbent(Inf, [], []), Clock(readings, 0))
  }

  /** `TSP` from a given doubled root bound: neighbour orders, then the search from
      city 1 at level 1 with distance 0. The result is the last incumbent: either no
      tour at all (+infinity, no trace) or a closed tour whose length is the result and
      the last trace line; `visited` and the path are back to the root's. */
  function SolveWith(n: nat, m: seq<seq<Ext>>, cutoff: nat, readings: seq<nat>, bound: Ext): (r: Search)
    requires n >= 1 && IsBnbMatrix(m, n)
    ensures r.visited == Root(n, readings).visited && r.path == [1]
    ensures Improving(r.best.trace)
    ensures r.best.trace == [] <==> r.best.res == Inf
    ensures r.best.trace == [] ==> r.best.tour == []
    ensures r.best.trace != [] ==>
              && r.best.res == Fin(r.best.trace[|r.best.trace| - 1].cost)
              && IsClosedTour(n, r.best.tour)
              && PathLen(m, n, r.best.tour) == r.best.res
  {
    var inst := Instance(n, m, NeighbourOrders(m, n), cutoff);
    var st := Root(n, readings);
    RootAtNode(inst, readings);
    Node(inst, bound, 0, st)
  }

  lemma RootAtNode(inst: Instance, readings: seq<nat>)
    requires inst.n >= 1 && IsBnbMatrix(inst.m, inst.n) && inst.order == NeighbourOrders(inst.m, inst.n)
    ensures Valid(inst) && AtNode(inst, Root(inst.n, readings), 0)
  {
    var st := Root(inst.n, readings);
    forall c | 0 <= c <= inst.n ensures st.visited[c] <==> c in st.path {
    }
  }

  /** `TSP` as written: the search starts from the initial bound (doubled). It reports
      nothing, or a closed tour through cities 1..n whose length is the result and the
      last line of a strictly improving trace; from three cities on it agrees with the
      corrected `Solve`. */
  function SolveAsWritten(n: nat, m: seq<seq<Ext>>, cutoff: nat, readings: seq<nat>): (r: Search)
    requires n >= 1 && IsBnbMatrix(m, n)
    ensures r.path == [1] && Improving(r.best.trace)
    ensures r.best.trace == [] <==> r.best.res == Inf
    ensures r.best.trace == [] ==> r.best.tour == []
    ensures r.best.trace != [] ==>
              && r.best.res == Fin(r.best.trace[|r.best.trace| - 1].cost)
              && IsClosedTour(n, r.best.tour)
              && PathLen(m, n, r.best.tour) == r.best.res
    ensures n >= 3 ==> r == Solve(n, m, cutoff, readings)
  {
    SolveWith(n, m, cutoff, readings, InitialBound(m, n))
  }

  /** The root bound with an infinite initial bound (fewer than three cities, where
      rows have no finite second-smallest entry) replaced by 0, which is below twice
      the length of every tour; from three cities on it is the initial bound. */
  function StartBound(m: seq<seq<Ext>>, n: nat): (b: Ext)
    requires n >= 1 && IsBnbMatrix(m, n)
    ensures b.Fin?
    ensures n >= 3 ==> b == InitialBound(m, n)
  {
    InitialBoundFinite(m, n);
    var b := InitialBound(m, n);
    if b.Inf? then Fin(0) else b
  }

  /** `TSP` with the root bound of `StartBound`: nothing, or a closed tour through
      cities 1..n whose length is the result and the last line of a strictly
      improving trace. */
  function Solve(n: nat, m: seq<seq<Ext>>, cutoff: nat, readings: seq<nat>): (r: Search)
    requires n >= 1 && IsBnbMatrix(m, n)
    ensures r.path == [1] && Improving(r.best.trace)
    ensures r.best.trace == [] <==> r.best.res == Inf
    ensures r.best.trace == [] ==> r.best.tour == []
    ensures r.best.trace != [] ==>
              && r.best.res == Fin(r.best.trace[|r.best.trace| - 1].cost)
              && IsClosedTour(n, r.best.tour)
              && PathLen(m, n, r.best.tour) == r.best.res
  {
    SolveWith(n, m, cutoff, readings, StartBound(m, n))
  }

  /** With an infinite bound every candidate is pruned: the loop over the neighbour
      order leaves the incumbent as it was. */
  lemma {:induction false} InfiniteBoundPrunes(inst: Instance, dist: int, k: nat, st: Search)
    requires AtNode(inst, st, dist) && k <= inst.n
    ensures Branch(inst, Inf, dist, k, st).best == st.best
    decreases inst.n - k
  {
    var last := st.path[|st.path| - 1];
    if k < |inst.order[last]| {
      InfiniteBoundPrunes(inst, dist, k + 1, st);
    }
  }

  /** As written, two cities never give a tour: the initial bound is +infinity and the
      root prunes both candidates, whatever the clock says. */
  lemma TwoCitiesAsWritten(m: seq<seq<Ext>>, cutoff: nat, readings: seq<nat>)
    requires IsBnbMatrix(m, 2)
    ensures SolveAsWritten(2, m, cutoff, readings).best == Incumbent(Inf, [], [])
  {
    InitialBoundFinite(m, 2);
    var inst := Instance(2, m, NeighbourOrders(m, 2), cutoff);
    var st := Root(2, readings);
    RootAtNode(inst, readings);
    var st0 := st.(clock := Tick(st.clock));
    NodeAtRoot(inst, Inf, st);
    InfiniteBoundPrunes(inst, 0, 0, st0);
    assert SolveAsWritten(2, m, cutoff, readings) == Node(inst, Inf, 0, st);
  }

  /** The root call either stops at the first clock reading or runs the candidate
      loop: a single city on the path is never a full tour when n >= 2. */
  lemma NodeAtRoot(inst: Instance, b: Ext, st: Search)
    requires AtNode(inst, st, 0) && |st.path| == 1 && inst.n >= 2
    ensures var st0 := st.(clock := Tick(st.clock));
            Node(inst, b, 0, st) ==
              if Now(st.clock, inst.cutoff) >= inst.cutoff then st0 else Branch(inst, b, 0, 0, st0)
  {
  }

  /** A full path reached before the cutoff, with no incumbent yet, becomes the
      incumbent: its closing edge is finite and beats +infinity. */
  lemma FullPathRecords(inst: Instance, bound: Ext, dist: int, st: Search)
    requires AtNode(inst, st, dist) && inst.n >= 2 && |st.path| == inst.n
    requires st.best.res == Inf && bound.Fin?
    requires st.clock.next < |st.clock.readings| && st.clock.readings[st.clock.next] < inst.cutoff
    ensures Node(inst, bound, dist, st).best.trace != []
  {
    assert Lt(Add(bound, Fin(2 * dist)), Double(st.best.res));
    var last := st.path[|st.path| - 1];
    assert last != st.path[0];
    assert inst.m[last][st.path[0]].Fin?;
  }

  /** With two cities and a finite root bound, the root's first candidate is city 2,
      and the node below it records the tour. */
  lemma RootBranchRecords(inst: Instance, b: Ext, st0: Search)
    requires AtNode(inst, st0, 0) && inst.n == 2 && st0.path == [1] && st0.best.res == Inf
    requires b.Fin? && inst.order[1][0] == 2
    requires st0.clock.next < |st0.clock.readings|
    requires st0.clock.readings[st0.clock.next] < inst.cutoff
    ensures Branch(inst, b, 0, 0, st0).best.trace != []
  {
    var o2 := inst.order[2];
    NeighbourOrderFacts(inst.m, 2, 2, o2);
    assert o2[0] == 1;
    assert !st0.visited[2];
    var e := inst.m[1][2].v;
    var term := Add(First(inst, 1), First(inst, 2));
    assert term.Fin?;
    var bound' := Sub(b, term);
    assert bound'.Fin?;
    assert Lt(Add(bound', Fin(2 * (0 + e))), Double(st0.best.res));
    PushOk(inst, st0, 0, 2);
    var st1 := Push(st0, 2);
    assert st1.clock == st0.clock && |st1.path| == 2;
    var st2 := Node(inst, bound', 0 + e, st1);
    FullPathRecords(inst, bound', 0 + e, st1);
    PopOk(inst, st0, 2, st2);
    var st3 := Pop(st2);
    assert st3.best == st2.best;
    var r := Branch(inst, b, 0 + e - e, 1, st3);
    assert Branch(inst, b, 0, 0, st0) == r;
  }

  /** With the corrected root bound, two cities whose first two clock readings are
      below the cutoff give the tour 1 -> 2 -> 1. */
  lemma TwoCitiesCorrected(m: seq<seq<Ext>>, cutoff: nat, readings: seq<nat>)
    requires IsBnbMatrix(m, 2) && |readings| >= 2 && readings[0] < cutoff && readings[1] < cutoff
    ensures Solve(2, m, cutoff, readings).best.trace != []
    ensures Solve(2, m, cutoff, readings).best.tour == [1, 2, 1]
  {
    TwoCitiesRecord(m, cutoff, readings);
    var t := Solve(2, m, cutoff, readings).best.tour;
    assert IsClosedTour(2, t);
    assert t[1] != 1 by {
      assert t[..2][0] != t[..2][1];
    }
  }

  lemma TwoCitiesRecord(m: seq<seq<Ext>>, cutoff: nat, readings: seq<nat>)
    requires IsBnbMatrix(m, 2) && |readings| >= 2 && readings[0] < cutoff && readings[1] < cutoff
    ensures Solve(2, m, cutoff, readings).best.trace != []
  {
    var inst := Instance(2, m, NeighbourOrders(m, 2), cutoff);
    var b := StartBound(m, 2);
    var st := Root(2, readings);
    RootAtNode(inst, readings);
    var o := inst.order[1];
    NeighbourOrderFacts(m, 2, 1, o);
    assert o[0] == 2;
    var st0 := st.(clock := Tick(st.clock));
    assert AtNode(inst, st0, 0);
    assert st0.clock.next == 1 && st0.clock.readings == readings;
    RootBranchRecords(inst, b, st0);
    NodeAtRoot(inst, b, st);
    assert Solve(2, m, cutoff, readings) == Node(inst, b, 0, st);
  }
}
