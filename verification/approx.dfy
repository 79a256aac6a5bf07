/** The MST 2-approximation of approx.py: Prim's algorithm from a chosen root, the
    pre-order traversal of the tree it returns, and the closed length of that tour.
    Vertices are 0..n-1 and `cost[u][v]` is the rounded distance. */
module MstApprox {
  import opened Common
  import opened Tours

  /** `sys.maxsize` on a 64-bit interpreter, the initial `cost_min` of each round. */
  const MaxSize: nat := 0x7fff_ffff_ffff_ffff

  /** One tree edge `(u, v, c)` as `Prim` records it: u was in the tree, v joins. */
  datatype Edge = Edge(u: nat, v: nat, c: nat)

  /** The vertices in the order they joined: the root, then each edge's second endpoint. */
  function TreeOrder(root: nat, edges: seq<Edge>): (r: seq<nat>)
    ensures |r| == |edges| + 1 && r[0] == root
    ensures forall k | 0 <= k < |edges| :: r[k + 1] == edges[k].v
  {
    if edges == [] then [root]
    else TreeOrder(root, edges[..|edges| - 1]) + [edges[|edges| - 1].v]
  }

  /** The second endpoints of the edges, in edge order. */
  function Joined(edges: seq<Edge>): (r: seq<nat>)
    ensures |r| == |edges| && forall k | 0 <= k < |edges| :: r[k] == edges[k].v
  {
    seq(|edges|, k requires 0 <= k < |edges| => edges[k].v)
  }

  /** Pair (i', j') is scanned before pair (i, j): `for v in nodes: for u in new_nodes`. */
  predicate LexBefore(i': int, j': int, i: int, j: int) {
    i' < i || (i' == i && j' < j)
  }

  /** The two scan loops of one round have looked at every pair before (a, b): `cm` is
      `cost_min`, (i, j) the positions of `v_min` in `nodes` and `u_min` in `new_nodes`. */
  predicate ScanInv(cost: seq<seq<nat>>, nodes: seq<nat>, tree: seq<nat>,
                    a: nat, b: nat, i: nat, j: nat, cm: nat)
    requires IsMatrix(cost) && Within(nodes, cost) && Within(tree, cost)
  {
    && (LexBefore(0, 0, a, b) ==>
          i < |nodes| && j < |tree| && LexBefore(i, j, a, b) && cm == cost[tree[j]][nodes[i]])
    && (!LexBefore(0, 0, a, b) ==> cm == MaxSize)
    && (forall i', j' | 0 <= i' < |nodes| && 0 <= j' < |tree| && LexBefore(i', j', a, b) ::
          cost[tree[j']][nodes[i']] >= cm)
    && (forall i', j' | 0 <= i' < |nodes| && 0 <= j' < |tree| && LexBefore(i', j', i, j) ::
          cost[tree[j']][nodes[i']] > cm)
  }

  /** One round's search for the cheapest edge from the tree to a vertex outside it:
      the strict `<` keeps the first pair in scan order among equal costs. */
  method CheapestCrossing(cost: seq<seq<nat>>, nodes: seq<nat>, tree: seq<nat>)
    returns (i: nat, j: nat, c: nat)
    requires IsMatrix(cost) && Within(nodes, cost) && Within(tree, cost)
    requires |nodes| >= 1 && |tree| >= 1
    requires forall x, y | 0 <= x < |cost| && 0 <= y < |cost| :: cost[x][y] < MaxSize
    ensures i < |nodes| && j < |tree| && c == cost[tree[j]][nodes[i]]
    ensures forall i', j' | 0 <= i' < |nodes| && 0 <= j' < |tree| :: cost[tree[j']][nodes[i']] >= c
    ensures forall i', j' | 0 <= i' < |nodes| && 0 <= j' < |tree| && LexBefore(i', j', i, j) ::
              cost[tree[j']][nodes[i']] > c
  {
    var cm := MaxSize;
    i, j := 0, 0;
    var a := 0;
    while a < |nodes|
      invariant a <= |nodes|
      invariant ScanInv(cost, nodes, tree, a, 0, i, j, cm)
    {
      i, j, cm := ScanRow(cost, nodes, tree, a, i, j, cm);
      a := a + 1;
    }
    ScanDone(cost, nodes, tree, i, j, cm);
    c := cm;
  }

  /** The inner loop `for u in new_nodes` for the vertex at position a of `nodes`. */
  method ScanRow(cost: seq<seq<nat>>, nodes: seq<nat>, tree: seq<nat>, a: nat, i: nat, j: nat, cm: nat)
    returns (i': nat, j': nat, cm': nat)
    requires IsMatrix(cost) && Within(nodes, cost) && Within(tree, cost)
    requires a < |nodes| && |tree| >= 1
    requires forall x, y | 0 <= x < |cost| && 0 <= y < |cost| :: cost[x][y] < MaxSize
    requires ScanInv(cost, nodes, tree, a, 0, i, j, cm)
    ensures ScanInv(cost, nodes, tree, a + 1, 0, i', j', cm')
  {
    i', j', cm' := i, j, cm;
    var b := 0;
    while b < |tree|
      invariant b <= |tree|
      invariant ScanInv(cost, nodes, tree, a, b, i', j', cm')
    {
      var cur := cost[tree[b]][nodes[a]];
      ScanStep(cost, nodes, tree, a, b, i', j', cm');
      if cur < cm' {
        i', j', cm' := a, b, cur;
      }
      b := b + 1;
    }
    ScanRowDone(cost, nodes, tree, a, i', j', cm');
  }

  /** One comparison of the inner scan loop keeps `ScanInv`. */
  lemma ScanStep(cost: seq<seq<nat>>, nodes: seq<nat>, tree: seq<nat>,
                 a: nat, b: nat, i: nat, j: nat, cm: nat)
    requires IsMatrix(cost) && Within(nodes, cost) && Within(tree, cost)
    requires a < |nodes| && b < |tree|
    requires forall x, y | 0 <= x < |cost| && 0 <= y < |cost| :: cost[x][y] < MaxSize
    requires ScanInv(cost, nodes, tree, a, b, i, j, cm)
    ensures cost[tree[b]][nodes[a]] < cm ==> ScanInv(cost, nodes, tree, a, b + 1, a, b, cost[tree[b]][nodes[a]])
    ensures cost[tree[b]][nodes[a]] >= cm ==> ScanInv(cost, nodes, tree, a, b + 1, i, j, cm)
  {
    var cur := cost[tree[b]][nodes[a]];
    assert LexBefore(0, 0, a, b + 1);
    if cur >= cm {
      assert LexBefore(0, 0, a, b);
    }
  }

  /** Finishing a row of the scan moves `ScanInv` on to the next row. */
  lemma ScanRowDone(cost: seq<seq<nat>>, nodes: seq<nat>, tree: seq<nat>,
                    a: nat, i: nat, j: nat, cm: nat)
    requires IsMatrix(cost) && Within(nodes, cost) && Within(tree, cost)
    requires a < |nodes| && |tree| >= 1
    requires ScanInv(cost, nodes, tree, a, |tree|, i, j, cm)
    ensures ScanInv(cost, nodes, tree, a + 1, 0, i, j, cm)
  {
    assert LexBefore(0, 0, a, |tree|);
  }

  /** After the last row, `ScanInv` is the scan's contract. */
  lemma ScanDone(cost: seq<seq<nat>>, nodes: seq<nat>, tree: seq<nat>, i: nat, j: nat, cm: nat)
    requires IsMatrix(cost) && Within(nodes, cost) && Within(tree, cost)
    requires |nodes| >= 1 && |tree| >= 1
    requires ScanInv(cost, nodes, tree, |nodes|, 0, i, j, cm)
    ensures i < |nodes| && j < |tree| && cm == cost[tree[j]][nodes[i]]
    ensures forall i', j' | 0 <= i' < |nodes| && 0 <= j' < |tree| :: cost[tree[j']][nodes[i']] >= cm
    ensures forall i', j' | 0 <= i' < |nodes| && 0 <= j' < |tree| && LexBefore(i', j', i, j) ::
              cost[tree[j']][nodes[i']] > cm
  {
    assert LexBefore(0, 0, |nodes|, 0);
  }

  /** Round k of Prim on the tree `tree` built so far chose edge `e`: u inside, v
      outside, c its cost, no crossing edge cheaper, and every crossing edge of equal
      cost comes later in the scan (larger v, or same v and u later in the tree). */
  predicate PrimRound(n: nat, cost: seq<seq<nat>>, tree: seq<nat>, e: Edge)
    requires IsMatrix(cost) && |cost| == n && Within(tree, cost)
  {
    && e.u in tree && e.v < n && e.v !in tree && e.c == cost[e.u][e.v]
    && (forall j', v' | 0 <= j' < |tree| && 0 <= v' < n && v' !in tree :: cost[tree[j']][v'] >= e.c)
    && (forall j, j', v' | 0 <= j < |tree| && tree[j] == e.u && 0 <= j' < |tree| && 0 <= v' < n
          && v' !in tree && LexBefore(v', j', e.v, j) :: cost[tree[j']][v'] > e.c)
  }

  /** Every recorded edge is the choice of its round, given the edges before it. */
  predicate IsPrimRun(n: nat, cost: seq<seq<nat>>, root: nat, edges: seq<Edge>)
    requires IsMatrix(cost) && |cost| == n && root < n
    decreases |edges|
  {
    edges == [] ||
    var before := edges[..|edges| - 1];
    && IsPrimRun(n, cost, root, before)
    && Within(TreeOrder(root, before), cost)
    && PrimRound(n, cost, TreeOrder(root, before), edges[|edges| - 1])
  }

  /** Round k of a Prim run chose edge k on the tree of the first k edges. */
  lemma {:induction false} RunRound(n: nat, cost: seq<seq<nat>>, root: nat, edges: seq<Edge>, k: nat)
    requires IsMatrix(cost) && |cost| == n && root < n
    requires IsPrimRun(n, cost, root, edges) && k < |edges|
    ensures Within(TreeOrder(root, edges[..k]), cost)
    ensures PrimRound(n, cost, TreeOrder(root, edges[..k]), edges[k])
    decreases |edges|
  {
    var before := edges[..|edges| - 1];
    if k < |edges| - 1 {
      RunRound(n, cost, root, before, k);
      assert before[..k] == edges[..k];
    }
  }

  predicate Increasing(s: seq<nat>) {
    forall a, b | 0 <= a < b < |s| :: s[a] < s[b]
  }

  /** Translates the positions `CheapestCrossing` returns into the round property,
      using that `nodes` lists the vertices outside the tree in increasing order. */
  lemma CrossingIsRound(n: nat, cost: seq<seq<nat>>, nodes: seq<nat>, tree: seq<nat>,
                        i: nat, j: nat, c: nat)
    requires IsMatrix(cost) && |cost| == n && Within(nodes, cost) && Within(tree, cost)
    requires Increasing(nodes) && forall x | 0 <= x < n :: x in nodes <==> x !in tree
    requires Distinct(tree)
    requires i < |nodes| && j < |tree| && c == cost[tree[j]][nodes[i]]
    requires forall i', j' | 0 <= i' < |nodes| && 0 <= j' < |tree| :: cost[tree[j']][nodes[i']] >= c
    requires forall i', j' | 0 <= i' < |nodes| && 0 <= j' < |tree| && LexBefore(i', j', i, j) ::
               cost[tree[j']][nodes[i']] > c
    ensures PrimRound(n, cost, tree, Edge(tree[j], nodes[i], c))
  {
    var e := Edge(tree[j], nodes[i], c);
    forall j', v' | 0 <= j' < |tree| && 0 <= v' < n && v' !in tree
      ensures cost[tree[j']][v'] >= e.c
    {
      var i' :| 0 <= i' < |nodes| && nodes[i'] == v';
    }
    forall j0, j', v' | 0 <= j0 < |tree| && tree[j0] == e.u && 0 <= j' < |tree| && 0 <= v' < n
      && v' !in tree && LexBefore(v', j', e.v, j0)
      ensures cost[tree[j']][v'] > e.c
    {
      assert j0 == j;
      var i' :| 0 <= i' < |nodes| && nodes[i'] == v';
      assert LexBefore(i', j', i, j);
    }
  }

  /** Appending the choice of the next round keeps the run a Prim run. */
  lemma ExtendRun(n: nat, cost: seq<seq<nat>>, root: nat, edges: seq<Edge>, e: Edge)
    requires IsMatrix(cost) && |cost| == n && root < n
    requires IsPrimRun(n, cost, root, edges) && Within(TreeOrder(root, edges), cost)
    requires PrimRound(n, cost, TreeOrder(root, edges), e)
    ensures TreeOrder(root, edges + [e]) == TreeOrder(root, edges) + [e.v]
    ensures IsPrimRun(n, cost, root, edges + [e])
  {
    assert (edges + [e])[..|edges|] == edges;
  }

  /** `nodes.remove(v)` on the increasing list of outside vertices. */
  lemma RemoveAt(nodes: seq<nat>, i: nat)
    requires i < |nodes| && Increasing(nodes)
    ensures Increasing(nodes[..i] + nodes[i + 1..])
    ensures forall x :: x in nodes[..i] + nodes[i + 1..] <==> x in nodes && x != nodes[i]
  {
    var r := nodes[..i] + nodes[i + 1..];
    forall x ensures x in r <==> x in nodes && x != nodes[i] {
      if x in nodes && x != nodes[i] {
        var a :| 0 <= a < |nodes| && nodes[a] == x;
        if a < i {
          assert r[a] == x;
        } else {
          assert r[a - 1] == x;
        }
      }
    }
  }

  /** The loop state of `Prim`: `new_nodes` is the joining order of the edges so far,
      `nodes` lists the other vertices in increasing order. */
  predicate PrimState(n: nat, cost: seq<seq<nat>>, root: nat, edges: seq<Edge>,
                      tree: seq<nat>, nodes: seq<nat>)
    requires IsMatrix(cost) && |cost| == n && root < n
  {
    && tree == TreeOrder(root, edges)
    && |tree| + |nodes| == n
    && Within(tree, cost) && Within(nodes, cost) && Distinct(tree)
    && Increasing(nodes)
    && (forall x | 0 <= x < n :: x in nodes <==> x !in tree)
    && IsPrimRun(n, cost, root, edges)
  }

  /** One round of `Prim` keeps its loop state. */
  lemma PrimStep(n: nat, cost: seq<seq<nat>>, root: nat, edges: seq<Edge>,
                 tree: seq<nat>, nodes: seq<nat>, i: nat, j: nat, c: nat)
    requires IsMatrix(cost) && |cost| == n && root < n
    requires PrimState(n, cost, root, edges, tree, nodes)
    requires i < |nodes| && j < |tree| && c == cost[tree[j]][nodes[i]]
    requires forall i', j' | 0 <= i' < |nodes| && 0 <= j' < |tree| :: cost[tree[j']][nodes[i']] >= c
    requires forall i', j' | 0 <= i' < |nodes| && 0 <= j' < |tree| && LexBefore(i', j', i, j) ::
               cost[tree[j']][nodes[i']] > c
    ensures PrimState(n, cost, root, edges + [Edge(tree[j], nodes[i], c)],
                      tree + [nodes[i]], nodes[..i] + nodes[i + 1..])
  {
    CrossingIsRound(n, cost, nodes, tree, i, j, c);
    ExtendRun(n, cost, root, edges, Edge(tree[j], nodes[i], c));
    RemoveAt(nodes, i);
  }

  /** `Prim(vertices, root)`: n-1 rounds, each moving the chosen vertex from `nodes` to
      `new_nodes` and recording the edge. The result is a spanning tree rooted at
      `root`: every other vertex is the second endpoint of exactly one edge, the root of
      none. */
  method Prim(n: nat, cost: seq<seq<nat>>, root: nat) returns (edges: seq<Edge>)
    requires IsMatrix(cost) && |cost| == n && root < n
    requires forall x, y | 0 <= x < n && 0 <= y < n :: cost[x][y] < MaxSize
    ensures |edges| == n - 1
    ensures IsPrimRun(n, cost, root, edges)
    ensures IsPerm(TreeOrder(root, edges), n)
    ensures forall k | 0 <= k < |edges| :: edges[k].v != root
    ensures forall k, l | 0 <= k < l < |edges| :: edges[k].v != edges[l].v
    ensures forall x | 0 <= x < n && x != root :: x in Joined(edges)
  {
    var nodes := AllBut(n, root);
    var tree := [root];
    edges := [];
    while |nodes| != 0
      invariant PrimState(n, cost, root, edges, tree, nodes)
      decreases |nodes|
    {
      var i, j, c := CheapestCrossing(cost, nodes, tree);
      var e := Edge(tree[j], nodes[i], c);
      PrimStep(n, cost, root, edges, tree, nodes, i, j, c);
      tree := tree + [e.v];
      nodes := nodes[..i] + nodes[i + 1..];
      edges := edges + [e];
    }
    SpanningFacts(n, root, edges);
  }

  /** The list `nodes` starts as every vertex but the root, in increasing order. */
  function AllBut(n: nat, root: nat): (r: seq<nat>)
    requires root < n
    ensures |r| == n - 1 && Increasing(r)
    ensures forall k | 0 <= k < |r| :: r[k] < n
    ensures forall x | 0 <= x < n :: x in r <==> x != root
  {
    var all: seq<nat> := seq(n, x requires 0 <= x < n => x);
    var r := all[..root] + all[root + 1..];
    assert forall x | 0 <= x < n :: x in r <==> x != root by {
      forall x | 0 <= x < n ensures x in r <==> x != root {
        if x < root {
          assert r[x] == x;
        } else if x > root {
          assert r[x - 1] == x;
        }
      }
    }
    r
  }

  /** A joining order that is a permutation puts every vertex but the root at the end
      of exactly one edge. */
  lemma SpanningFacts(n: nat, root: nat, edges: seq<Edge>)
    requires IsPerm(TreeOrder(root, edges), n)
    ensures forall k | 0 <= k < |edges| :: edges[k].v != root
    ensures forall k, l | 0 <= k < l < |edges| :: edges[k].v != edges[l].v
    ensures forall x | 0 <= x < n && x != root :: x in Joined(edges)
  {
    var tree := TreeOrder(root, edges);
    PermCovers(tree, n);
    forall x | 0 <= x < n && x != root
      ensures x in Joined(edges)
    {
      assert x in tree;
      var a :| 0 <= a < |tree| && tree[a] == x;
      assert Joined(edges)[a - 1] == x;
    }
    forall k | 0 <= k < |edges| ensures edges[k].v != root {
      assert tree[k + 1] != tree[0];
    }
    forall k, l | 0 <= k < l < |edges| ensures edges[k].v != edges[l].v {
      assert tree[k + 1] != tree[l + 1];
    }
  }

  // ---------------------------------------------------------------------------
  // Pre-order traversal of the tree

  /** The edge list has the shape `Prim` returns: the vertices in joining order are
      distinct, and each edge's first endpoint joined before its second. */
  predicate IsTreeShape(tree: seq<nat>, edges: seq<Edge>) {
    && |tree| == |edges| + 1
    && Distinct(tree)
    && forall k | 0 <= k < |edges| :: edges[k].u in tree[..k + 1] && tree[k + 1] == edges[k].v
  }

  /** The joining time of a vertex of the tree. */
  function TimeOf(tree: seq<nat>, x: nat): (t: nat)
    requires x in tree
    ensures t < |tree| && tree[t] == x
  {
    if tree[0] == x then 0 else 1 + TimeOf(tree[1..], x)
  }

  /** The joining time of the parent of the vertex that joined at time s >= 1. */
  function Parent(tree: seq<nat>, edges: seq<Edge>, s: nat): (p: nat)
    requires IsTreeShape(tree, edges) && 1 <= s <= |edges|
    ensures p < s
  {
    var u := edges[s - 1].u;
    var k :| 0 <= k < s && tree[k] == u;
    assert TimeOf(tree, u) == k;
    TimeOf(tree, u)
  }

  /** The vertex that joined at time a is the one that joined at time s, or one of its
      ancestors. */
  predicate AncOrSelf(tree: seq<nat>, edges: seq<Edge>, a: nat, s: nat)
    requires IsTreeShape(tree, edges) && s <= |edges|
    decreases s
  {
    s == a || (s > a && AncOrSelf(tree, edges, a, Parent(tree, edges, s)))
  }

  /** The child of time t on the way down to its descendant x. */
  function Top(tree: seq<nat>, edges: seq<Edge>, t: nat, x: nat): (c: nat)
    requires IsTreeShape(tree, edges) && x <= |edges| && AncOrSelf(tree, edges, t, x) && x != t
    ensures t < c <= x
    decreases x
  {
    var p := Parent(tree, edges, x);
    if p == t then x else Top(tree, edges, t, p)
  }

  /** `networkx.dfs_preorder_nodes` on the tree, as joining times: the vertex of time t,
      then the subtrees of its children in the order of their edges. Edges at indices
      below t cannot name this vertex as their first endpoint (it had not joined). */
  function Preorder(tree: seq<nat>, edges: seq<Edge>, t: nat): seq<nat>
    requires IsTreeShape(tree, edges) && t <= |edges|
    decreases |edges| - t, 1, 0
  {
    [t] + Subtrees(tree, edges, t, t)
  }

  /** The pre-order of the children of time t whose edges are at index k or later. */
  function Subtrees(tree: seq<nat>, edges: seq<Edge>, t: nat, k: nat): seq<nat>
    requires IsTreeShape(tree, edges) && t <= k <= |edges|
    decreases |edges| - t, 0, |edges| - k
  {
    if k == |edges| then []
    else if edges[k].u == tree[t] then Preorder(tree, edges, k + 1) + Subtrees(tree, edges, t, k + 1)
    else Subtrees(tree, edges, t, k + 1)
  }

  lemma {:induction false} AncBelow(tree: seq<nat>, edges: seq<Edge>, a: nat, x: nat)
    requires IsTreeShape(tree, edges) && x <= |edges| && AncOrSelf(tree, edges, a, x)
    ensures a <= x
    decreases x
  {
    if x != a {
      AncBelow(tree, edges, a, Parent(tree, edges, x));
    }
  }

  /** Below a child c of t, every descendant of c descends from t through c. */
  lemma {:induction false} ThroughChild(tree: seq<nat>, edges: seq<Edge>, t: nat, c: nat, x: nat)
    requires IsTreeShape(tree, edges) && 1 <= c <= x <= |edges|
    requires Parent(tree, edges, c) == t && AncOrSelf(tree, edges, c, x)
    ensures AncOrSelf(tree, edges, t, x) && x != t && Top(tree, edges, t, x) == c
    decreases x
  {
    if x != c {
      var p := Parent(tree, edges, x);
      AncBelow(tree, edges, c, p);
      ThroughChild(tree, edges, t, c, p);
    }
  }

  /** A proper descendant of t lies below the child `Top` names. */
  lemma {:induction false} TopIsChild(tree: seq<nat>, edges: seq<Edge>, t: nat, x: nat)
    requires IsTreeShape(tree, edges) && x <= |edges| && AncOrSelf(tree, edges, t, x) && x != t
    ensures Parent(tree, edges, Top(tree, edges, t, x)) == t
    ensures AncOrSelf(tree, edges, Top(tree, edges, t, x), x)
    decreases x
  {
    var p := Parent(tree, edges, x);
    if p != t {
      TopIsChild(tree, edges, t, p);
    }
  }

  /** An edge names the vertex of time t as first endpoint exactly when the vertex it
      adds has t as parent. */
  lemma ChildEdge(tree: seq<nat>, edges: seq<Edge>, t: nat, k: nat)
    requires IsTreeShape(tree, edges) && t <= |edges| && k < |edges|
    ensures edges[k].u == tree[t] <==> Parent(tree, edges, k + 1) == t
  {
    var p := Parent(tree, edges, k + 1);
    assert tree[p] == edges[k].u;
  }

  /** The pre-order below time t lists each descendant of t exactly once. */
  lemma {:induction false} PreorderSpec(tree: seq<nat>, edges: seq<Edge>, t: nat)
    requires IsTreeShape(tree, edges) && t <= |edges|
    ensures Distinct(Preorder(tree, edges, t))
    ensures forall x: nat :: x in Preorder(tree, edges, t) <==> x <= |edges| && AncOrSelf(tree, edges, t, x)
    decreases |edges| - t, 1, 0
  {
    var sub := Subtrees(tree, edges, t, t);
    SubtreesSpec(tree, edges, t, t);
    var r := Preorder(tree, edges, t);
    assert r == [t] + sub;
    forall a, b | 0 <= a < b < |r| ensures r[a] != r[b] {
      if a == 0 {
        assert r[b] in sub;
      } else {
        assert r[a] == sub[a - 1] && r[b] == sub[b - 1];
      }
    }
    forall x: nat ensures x in r <==> x <= |edges| && AncOrSelf(tree, edges, t, x) {
      if x <= |edges| && AncOrSelf(tree, edges, t, x) && x != t {
        TopIsChild(tree, edges, t, x);
      }
    }
  }

  /** The children subtrees from edge index k on: distinct, and holding exactly the
      proper descendants of t whose child on the way down joined after time k. */
  lemma {:induction false} SubtreesSpec(tree: seq<nat>, edges: seq<Edge>, t: nat, k: nat)
    requires IsTreeShape(tree, edges) && t <= k <= |edges|
    ensures Distinct(Subtrees(tree, edges, t, k))
    ensures forall x: nat :: x in Subtrees(tree, edges, t, k) <==>
              x <= |edges| && AncOrSelf(tree, edges, t, x) && x != t && Top(tree, edges, t, x) > k
    decreases |edges| - t, 0, |edges| - k
  {
    var r := Subtrees(tree, edges, t, k);
    if k == |edges| {
      forall x: nat | x <= |edges| && AncOrSelf(tree, edges, t, x) && x != t
        ensures Top(tree, edges, t, x) <= k
      {
      }
    } else {
      SubtreesSpec(tree, edges, t, k + 1);
      ChildEdge(tree, edges, t, k);
      var rest := Subtrees(tree, edges, t, k + 1);
      if edges[k].u == tree[t] {
        var pre := Preorder(tree, edges, k + 1);
        PreorderSpec(tree, edges, k + 1);
        assert r == pre + rest;
        ChildSubtree(tree, edges, t, k, pre, rest);
      } else {
        assert r == rest;
        forall x: nat | x <= |edges| && AncOrSelf(tree, edges, t, x) && x != t
          ensures Top(tree, edges, t, x) != k + 1
        {
          TopIsChild(tree, edges, t, x);
        }
      }
    }
  }

  /** The child case of `SubtreesSpec`: the pre-order below child k+1 of t, followed
      by the later children's subtrees. */
  lemma ChildSubtree(tree: seq<nat>, edges: seq<Edge>, t: nat, k: nat, pre: seq<nat>, rest: seq<nat>)
    requires IsTreeShape(tree, edges) && t <= k < |edges|
    requires Parent(tree, edges, k + 1) == t
    requires Distinct(pre)
    requires forall x: nat :: x in pre <==> x <= |edges| && AncOrSelf(tree, edges, k + 1, x)
    requires Distinct(rest)
    requires forall x: nat :: x in rest <==>
               x <= |edges| && AncOrSelf(tree, edges, t, x) && x != t && Top(tree, edges, t, x) > k + 1
    ensures Distinct(pre + rest)
    ensures forall x: nat :: x in pre + rest <==>
              x <= |edges| && AncOrSelf(tree, edges, t, x) && x != t && Top(tree, edges, t, x) > k
  {
    var r := pre + rest;
    forall x: nat | x in pre ensures x <= |edges| && AncOrSelf(tree, edges, t, x) && x != t
      && Top(tree, edges, t, x) == k + 1
    {
      AncBelow(tree, edges, k + 1, x);
      ThroughChild(tree, edges, t, k + 1, x);
    }
    forall x: nat | x <= |edges| && AncOrSelf(tree, edges, t, x) && x != t && Top(tree, edges, t, x) == k + 1
      ensures x in pre
    {
      TopIsChild(tree, edges, t, x);
    }
    forall a, b | 0 <= a < b < |r| ensures r[a] != r[b] {
      if a < |pre| && b >= |pre| {
        assert r[a] in pre && r[b] in rest;
      }
    }
  }

  /** Every entry of `s` is a proper joining time whose parent is t or is listed
      earlier in `s`. */
  predicate ParentsFirst(tree: seq<nat>, edges: seq<Edge>, t: nat, s: seq<nat>)
    requires IsTreeShape(tree, edges)
  {
    forall i | 0 <= i < |s| ::
      1 <= s[i] <= |edges| && (Parent(tree, edges, s[i]) == t || Parent(tree, edges, s[i]) in s[..i])
  }

  /** In the pre-order below t, each vertex after the first comes after its parent. */
  lemma {:induction false} PreorderParents(tree: seq<nat>, edges: seq<Edge>, t: nat)
    requires IsTreeShape(tree, edges) && t <= |edges|
    ensures forall i | 0 < i < |Preorder(tree, edges, t)| ::
              var x := Preorder(tree, edges, t)[i];
              1 <= x <= |edges| && Parent(tree, edges, x) in Preorder(tree, edges, t)[..i]
    decreases |edges| - t, 1, 0
  {
    var sub := Subtrees(tree, edges, t, t);
    SubtreesParents(tree, edges, t, t);
    var r := Preorder(tree, edges, t);
    forall i | 0 < i < |r|
      ensures 1 <= r[i] <= |edges| && Parent(tree, edges, r[i]) in r[..i]
    {
      assert r[i] == sub[i - 1] && r[..i] == [t] + sub[..i - 1];
    }
  }

  /** The children subtrees from edge index k on list parents before children. */
  lemma {:induction false} SubtreesParents(tree: seq<nat>, edges: seq<Edge>, t: nat, k: nat)
    requires IsTreeShape(tree, edges) && t <= k <= |edges|
    ensures ParentsFirst(tree, edges, t, Subtrees(tree, edges, t, k))
    decreases |edges| - t, 0, |edges| - k
  {
    if k < |edges| {
      SubtreesParents(tree, edges, t, k + 1);
      var rest := Subtrees(tree, edges, t, k + 1);
      if edges[k].u == tree[t] {
        ChildEdge(tree, edges, t, k);
        var pre := Preorder(tree, edges, k + 1);
        PreorderParents(tree, edges, k + 1);
        assert Subtrees(tree, edges, t, k) == pre + rest && pre[0] == k + 1;
        ParentsFirstAppend(tree, edges, t, pre, rest);
      }
    }
  }

  /** A child's pre-order followed by later children's subtrees lists parents first. */
  lemma ParentsFirstAppend(tree: seq<nat>, edges: seq<Edge>, t: nat, pre: seq<nat>, rest: seq<nat>)
    requires IsTreeShape(tree, edges) && |pre| >= 1
    requires 1 <= pre[0] <= |edges| && Parent(tree, edges, pre[0]) == t
    requires forall i | 0 < i < |pre| ::
               1 <= pre[i] <= |edges| && Parent(tree, edges, pre[i]) in pre[..i]
    requires ParentsFirst(tree, edges, t, rest)
    ensures ParentsFirst(tree, edges, t, pre + rest)
  {
    var r := pre + rest;
    forall i | 0 <= i < |pre|
      ensures 1 <= r[i] <= |edges|
      ensures Parent(tree, edges, r[i]) == t || Parent(tree, edges, r[i]) in r[..i]
    {
      assert r[i] == pre[i];
      if i > 0 {
        assert r[..i] == pre[..i];
      }
    }
    forall i | |pre| <= i < |r|
      ensures 1 <= r[i] <= |edges|
      ensures Parent(tree, edges, r[i]) == t || Parent(tree, edges, r[i]) in r[..i]
    {
      assert r[i] == rest[i - |pre|];
      assert r[..i] == pre + rest[..i - |pre|];
    }
  }

  /** Every vertex descends from the root. */
  lemma {:induction false} AllFromRoot(tree: seq<nat>, edges: seq<Edge>, x: nat)
    requires IsTreeShape(tree, edges) && x <= |edges|
    ensures AncOrSelf(tree, edges, 0, x)
    decreases x
  {
    if x > 0 {
      AllFromRoot(tree, edges, Parent(tree, edges, x));
    }
  }

  /** The pre-order from the root lists every joining time exactly once. */
  lemma PreorderCoversAll(tree: seq<nat>, edges: seq<Edge>)
    requires IsTreeShape(tree, edges)
    ensures |Preorder(tree, edges, 0)| == |edges| + 1 && Distinct(Preorder(tree, edges, 0))
    ensures forall k | 0 <= k < |Preorder(tree, edges, 0)| :: Preorder(tree, edges, 0)[k] <= |edges|
    ensures forall x | 0 <= x <= |edges| :: x in Preorder(tree, edges, 0)
  {
    var pre := Preorder(tree, edges, 0);
    PreorderSpec(tree, edges, 0);
    assert forall k | 0 <= k < |pre| :: pre[k] in pre;
    PreorderReachesAll(tree, edges);
    CoverSize(pre, 0, |edges| + 1);
  }

  /** Every vertex joins below the root, so the pre-order from the root reaches it. */
  lemma PreorderReachesAll(tree: seq<nat>, edges: seq<Edge>)
    requires IsTreeShape(tree, edges)
    ensures forall x | 0 <= x <= |edges| :: x in Preorder(tree, edges, 0)
  {
    PreorderSpec(tree, edges, 0);
    forall x | 0 <= x <= |edges| ensures x in Preorder(tree, edges, 0) {
      AllFromRoot(tree, edges, x);
    }
  }

  /** `DFS(edges)`: the pre-order of the tree from `edges[0][0]`, or an error (Python's
      IndexError) when there is no edge, as for a single vertex. The order lists every
      vertex of the tree exactly once and starts at the root. */
  function Dfs(root: nat, edges: seq<Edge>): (r: Option<seq<nat>>)
    requires IsTreeShape(TreeOrder(root, edges), edges)
    ensures r.None? <==> edges == []
    ensures r.Some? ==> |r.value| == |edges| + 1 && r.value[0] == edges[0].u && r.value[0] == root
    ensures r.Some? ==> Distinct(r.value)
    ensures r.Some? ==> forall x :: x in r.value <==> x in TreeOrder(root, edges)
    ensures r.Some? ==> forall i | 0 < i < |r.value| ::
              exists k | 0 <= k < |edges| :: edges[k].v == r.value[i] && edges[k].u in r.value[..i]
  {
    if edges == [] then None
    else
      var tree := TreeOrder(root, edges);
      var pre := Preorder(tree, edges, 0);
      PreorderCoversAll(tree, edges);
      var names := seq(|pre|, k requires 0 <= k < |pre| => tree[pre[k]]);
      assert edges[0].u in tree[..1];
      forall x | x in tree ensures x in names {
        var s :| 0 <= s < |tree| && tree[s] == x;
        assert s in pre;
        var k :| 0 <= k < |pre| && pre[k] == s;
        assert names[k] == x;
      }
      assert forall a, b | 0 <= a < b < |names| :: pre[a] != pre[b];
      NamesReached(tree, edges, names);
      Some(names)
  }

  /** Each vertex of the pre-order after the first is reached by a tree edge from a
      vertex listed before it. */
  lemma NamesReached(tree: seq<nat>, edges: seq<Edge>, names: seq<nat>)
    requires IsTreeShape(tree, edges)
    requires |names| == |Preorder(tree, edges, 0)|
    requires forall k | 0 <= k < |names| :: Preorder(tree, edges, 0)[k] <= |edges|
    requires forall k | 0 <= k < |names| :: names[k] == tree[Preorder(tree, edges, 0)[k]]
    ensures forall i | 0 < i < |names| ::
              exists k | 0 <= k < |edges| :: edges[k].v == names[i] && edges[k].u in names[..i]
  {
    var pre := Preorder(tree, edges, 0);
    PreorderParents(tree, edges, 0);
    forall i | 0 < i < |names|
      ensures exists k | 0 <= k < |edges| :: edges[k].v == names[i] && edges[k].u in names[..i]
    {
      var x := pre[i];
      var p := Parent(tree, edges, x);
      assert p in pre[..i];
      var j :| 0 <= j < i && pre[j] == p;
      assert names[j] == tree[p] == edges[x - 1].u;
      assert names[..i][j] == names[j];
      assert edges[x - 1].v == names[i];
    }
  }

  /** The edge list `Prim` returns has the tree shape the traversal expects. */
  lemma PrimIsTreeShape(n: nat, cost: seq<seq<nat>>, root: nat, edges: seq<Edge>)
    requires IsMatrix(cost) && |cost| == n && root < n
    requires IsPrimRun(n, cost, root, edges) && IsPerm(TreeOrder(root, edges), n)
    ensures IsTreeShape(TreeOrder(root, edges), edges)
  {
    var tree := TreeOrder(root, edges);
    forall k | 0 <= k < |edges| ensures edges[k].u in tree[..k + 1] {
      RunRound(n, cost, root, edges, k);
      PrefixTreeOrder(root, edges, k);
    }
  }

  lemma {:induction false} PrefixTreeOrder(root: nat, edges: seq<Edge>, k: nat)
    requires k <= |edges|
    ensures TreeOrder(root, edges[..k]) == TreeOrder(root, edges)[..k + 1]
    decreases |edges| - k
  {
    if k < |edges| {
      PrefixTreeOrder(root, edges, k + 1);
      assert edges[..k + 1][..k] == edges[..k];
    } else {
      assert edges[..k] == edges;
    }
  }

  /** `mst_approx` without its file handling: Prim from the chosen root, the pre-order
      tour and its closed length, with the tree's edges alongside. The edges are the
      ones Prim's rounds choose, and the tour is their pre-order traversal. A single
      vertex has no edge and the traversal fails as the source's does. Otherwise the
      tour visits every vertex once, starting at the root, and the reported length is
      the tour's closed length. */
  method Approx(n: nat, cost: seq<seq<nat>>, root: nat)
    returns (r: Result<(seq<nat>, nat), string>, edges: seq<Edge>)
    requires IsMatrix(cost) && |cost| == n && root < n
    requires forall x, y | 0 <= x < n && 0 <= y < n :: cost[x][y] < MaxSize
    ensures |edges| == n - 1 && IsPrimRun(n, cost, root, edges)
    ensures IsTreeShape(TreeOrder(root, edges), edges)
    ensures r.Ok? ==> Dfs(root, edges) == Some(r.value.0)
    ensures r.Err? ==> Dfs(root, edges) == None
    ensures r.Err? <==> n == 1
    ensures r.Ok? ==> IsPerm(r.value.0, n) && r.value.0[0] == root
    ensures r.Ok? ==> r.value.1 == TourCost(cost, r.value.0)
  {
    edges := Prim(n, cost, root);
    PrimIsTreeShape(n, cost, root, edges);
    var tour := Dfs(root, edges);
    if tour.None? {
      r := Err("IndexError: no edge to start the traversal from");
      return;
    }
    var p := tour.value;
    var tree := TreeOrder(root, edges);
    assert forall k | 0 <= k < |p| :: p[k] < n by {
      forall k | 0 <= k < |p| ensures p[k] < n {
        assert p[k] in tree;
      }
    }
    var dist := TourLength(cost, p);
    r := Ok((p, dist));
  }
}
