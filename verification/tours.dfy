/** Tours over a square matrix of integer distances, shared by the approximation,
    hill-climbing and annealing solvers: permutations, the pairwise swap, and the
    two ways the sources add up a closed tour. */
module Tours {
  import opened Common

  /** A square matrix of non-negative integer distances. */
  predicate IsMatrix(d: seq<seq<nat>>) {
    forall i | 0 <= i < |d| :: |d[i]| == |d|
  }

  /** Every entry of `p` indexes a row (and column) of `d`. */
  predicate Within(p: seq<nat>, d: seq<seq<nat>>) {
    forall i | 0 <= i < |p| :: p[i] < |d|
  }

  /** `p` lists each of the cities 0..n-1 exactly once. */
  predicate IsPerm(p: seq<nat>, n: nat) {
    |p| == n && Distinct(p) && forall i | 0 <= i < |p| :: p[i] < n
  }

  lemma PermCovers(p: seq<nat>, n: nat)
    requires IsPerm(p, n)
    ensures forall c | 0 <= c < n :: c in p
  {
    Pigeonhole(p, 0, n);
  }

  /** Length of the open path p[0] -> p[1] -> ... -> p[|p|-1], summed front to back. */
  function PathCost(d: seq<seq<nat>>, p: seq<nat>): nat
    requires IsMatrix(d) && Within(p, d)
  {
    if |p| <= 1 then 0
    else PathCost(d, p[..|p| - 1]) + d[p[|p| - 2]][p[|p| - 1]]
  }

  /** Length of the closed tour: consecutive edges plus the edge from the last city
      back to the first (`calPathDistances` and approx's `distance`). */
  function TourCost(d: seq<seq<nat>>, p: seq<nat>): nat
    requires IsMatrix(d) && Within(p, d) && |p| >= 1
  {
    PathCost(d, p) + d[p[|p| - 1]][p[0]]
  }

  /** The closing-tour loop of approx's `distance` and hill climbing's
      `calPathDistances`: consecutive edges front to back, then the edge from the last
      city back to the first. An empty path has no last city and is not accepted. */
  method TourLength(d: seq<seq<nat>>, p: seq<nat>) returns (total: nat)
    requires IsMatrix(d) && Within(p, d) && |p| >= 1
    ensures total == TourCost(d, p)
  {
    total := 0;
    var i := 0;
    while i < |p| - 1
      invariant i <= |p| - 1
      invariant total == PathCost(d, p[..i + 1])
    {
      assert p[..i + 2][..i + 1] == p[..i + 1];
      total := total + d[p[i]][p[i + 1]];
      i := i + 1;
    }
    assert p[..|p|] == p;
    total := total + d[p[|p| - 1]][p[0]];
  }

  /** Sum over i < k of d[s[i-1]][s[i]], where index -1 wraps to the last city, in the
      order the annealer's `energy` loop adds them. */
  function EnergyUpTo(d: seq<seq<nat>>, s: seq<nat>, k: nat): nat
    requires IsMatrix(d) && Within(s, d) && k <= |s|
  {
    if k == 0 then 0
    else
      var prev := if k - 1 == 0 then |s| - 1 else k - 2;
      EnergyUpTo(d, s, k - 1) + d[s[prev]][s[k - 1]]
  }

  /** The annealer's energy: the wrap-around cycle length of the state. */
  function Energy(d: seq<seq<nat>>, s: seq<nat>): nat
    requires IsMatrix(d) && Within(s, d)
  {
    EnergyUpTo(d, s, |s|)
  }

  lemma {:induction false} EnergyUpToIsPath(d: seq<seq<nat>>, s: seq<nat>, k: nat)
    requires IsMatrix(d) && Within(s, d) && 1 <= k <= |s|
    ensures EnergyUpTo(d, s, k) == d[s[|s| - 1]][s[0]] + PathCost(d, s[..k])
  {
    if k > 1 {
      EnergyUpToIsPath(d, s, k - 1);
      assert s[..k][..k - 1] == s[..k - 1];
    }
  }

  /** The two closed-tour sums of the sources agree: the annealer's wrap-around energy
      is the hill climber's path-plus-closing-edge length. */
  lemma EnergyIsTourCost(d: seq<seq<nat>>, s: seq<nat>)
    requires IsMatrix(d) && Within(s, d) && |s| >= 1
    ensures Energy(d, s) == TourCost(d, s)
  {
    EnergyUpToIsPath(d, s, |s|);
    assert s[..|s|] == s;
  }

  /** The path cost can also be taken apart at the front. */
  lemma {:induction false} PathCostCons(d: seq<seq<nat>>, x: nat, p: seq<nat>)
    requires IsMatrix(d) && Within(p, d) && x < |d| && |p| >= 1
    ensures Within([x] + p, d)
    ensures PathCost(d, [x] + p) == d[x][p[0]] + PathCost(d, p)
    decreases |p|
  {
    var q := [x] + p;
    if |p| > 1 {
      var p' := p[..|p| - 1];
      PathCostCons(d, x, p');
      assert q[..|q| - 1] == [x] + p';
    } else {
      assert q[..|q| - 1] == [x];
    }
  }

  /** `s` rotated left by k places. */
  function Rotate(s: seq<nat>, k: nat): (r: seq<nat>)
    requires k <= |s|
    ensures |r| == |s| && multiset(r) == multiset(s)
  {
    assert s == s[..k] + s[k..];
    s[k..] + s[..k]
  }

  lemma RotateWithin(s: seq<nat>, k: nat, d: seq<seq<nat>>)
    requires k <= |s| && Within(s, d)
    ensures Within(Rotate(s, k), d)
  {
    var r := Rotate(s, k);
    forall i | 0 <= i < |r| ensures r[i] < |d| {
      if i < |s| - k {
        assert r[i] == s[k + i];
      } else {
        assert r[i] == s[i - (|s| - k)];
      }
    }
  }

  lemma TourCostRotateOne(d: seq<seq<nat>>, s: seq<nat>)
    requires IsMatrix(d) && Within(s, d) && |s| >= 1
    ensures Within(Rotate(s, 1), d)
    ensures TourCost(d, Rotate(s, 1)) == TourCost(d, s)
  {
    RotateWithin(s, 1, d);
    var x := s[0];
    var t := s[1..];
    if |t| >= 1 {
      var r := Rotate(s, 1);
      assert r == t + [x];
      assert r[..|r| - 1] == t;
      PathCostCons(d, x, t);
      assert [x] + t == s;
    }
  }

  lemma RotateStep(s: seq<nat>, k: nat)
    requires 1 <= k <= |s|
    ensures Rotate(Rotate(s, k - 1), 1) == Rotate(s, k)
  {
    var r := Rotate(s, k - 1);
    assert r[..1] == [s[k - 1]];
    assert r[1..] == s[k..] + s[..k - 1];
    assert s[..k] == s[..k - 1] + [s[k - 1]];
  }

  /** Rotating a tour leaves its closed length unchanged. */
  lemma {:induction false} TourCostRotate(d: seq<seq<nat>>, s: seq<nat>, k: nat)
    requires IsMatrix(d) && Within(s, d) && |s| >= 1 && k <= |s|
    ensures Within(Rotate(s, k), d)
    ensures TourCost(d, Rotate(s, k)) == TourCost(d, s)
  {
    RotateWithin(s, k, d);
    if k > 0 {
      TourCostRotate(d, s, k - 1);
      var r := Rotate(s, k - 1);
      RotateWithin(s, k - 1, d);
      TourCostRotateOne(d, r);
      RotateStep(s, k);
    } else {
      assert Rotate(s, 0) == s;
    }
  }

  /** `p` with the cities at positions i and j exchanged. */
  function Swap(p: seq<nat>, i: nat, j: nat): (r: seq<nat>)
    requires i < |p| && j < |p|
    ensures |r| == |p| && r[i] == p[j] && r[j] == p[i]
    ensures forall k | 0 <= k < |p| && k != i && k != j :: r[k] == p[k]
    ensures multiset(r) == multiset(p)
  {
    p[i := p[j]][j := p[i]]
  }

  /** Exchanging the same two positions again restores the tour. */
  lemma SwapTwice(p: seq<nat>, i: nat, j: nat)
    requires i < |p| && j < |p|
    ensures Swap(Swap(p, i, j), i, j) == p
  {
  }

  lemma SwapWithin(p: seq<nat>, i: nat, j: nat, d: seq<seq<nat>>)
    requires i < |p| && j < |p| && Within(p, d)
    ensures Within(Swap(p, i, j), d)
  {
  }

  /** A swap of a permutation is a permutation. */
  lemma SwapPerm(p: seq<nat>, n: nat, i: nat, j: nat)
    requires IsPerm(p, n) && i < n && j < n
    ensures IsPerm(Swap(p, i, j), n)
  {
    var r := Swap(p, i, j);
    forall a, b | 0 <= a < b < |r| ensures r[a] != r[b] {
      var a' := if a == i then j else if a == j then i else a;
      var b' := if b == i then j else if b == j then i else b;
      assert r[a] == p[a'] && r[b] == p[b'] && a' != b';
    }
  }
}
