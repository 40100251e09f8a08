/**
 * The undirected multigraph the program works on (LEMON's `ListGraph` with an
 * `EdgeMap<int>` of weights), and connectivity.
 *
 * Nodes are the indices 0 .. nodeCount-1; an edge records its two end nodes
 * and the value of the weight (or flow) map on it. Node and edge iteration
 * visit indices in increasing order.
 */
module Graphs {

  datatype Edge = Edge(u: int, v: int, w: int)

  predicate IsLoop(e: Edge) { e.u == e.v }

  predicate Incident(e: Edge, n: int) { e.u == n || e.v == n }

  /** The end of `e` that is not `n`, decided as `preprocess_graph` does: swap when `v == n`. */
  function Other(e: Edge, n: int): int { if e.v == n then e.u else e.v }

  /** The two edges join the same unordered pair of nodes. */
  predicate SamePair(e: Edge, f: Edge) {
    (e.u == f.u && e.v == f.v) || (e.u == f.v && e.v == f.u)
  }

  predicate Joins(e: Edge, a: int, b: int) {
    (e.u == a && e.v == b) || (e.u == b && e.v == a)
  }

  /** Every edge joins two nodes of a graph with `n` nodes. */
  predicate InRange(edges: seq<Edge>, n: nat) {
    forall i | 0 <= i < |edges| :: 0 <= edges[i].u < n && 0 <= edges[i].v < n
  }

  /** No edge is a self-loop. */
  predicate LoopFree(edges: seq<Edge>) {
    forall i | 0 <= i < |edges| :: !IsLoop(edges[i])
  }

  /** No two edges join the same unordered pair of nodes. */
  predicate ParallelFree(edges: seq<Edge>) {
    forall i, j | 0 <= i < j < |edges| :: !SamePair(edges[i], edges[j])
  }

  // ---------------------------------------------------------------------------
  // Erasing edges
  // ---------------------------------------------------------------------------

  /** The edge list after `erase` of the edges at the positions in `drop`, in order. */
  function Without(s: seq<Edge>, drop: set<nat>): (r: seq<Edge>)
    ensures |r| <= |s|
  {
    if |s| == 0 then []
    else Without(s[..|s| - 1], drop) + (if |s| - 1 in drop then [] else [s[|s| - 1]])
  }

  /** The positions of `drop` that name an edge of a list of length `len`. */
  function DropBelow(drop: set<nat>, len: nat): set<nat>
  {
    set i | i in drop && i < len
  }

  lemma {:induction false} WithoutSubset(s: seq<Edge>, drop: set<nat>)
    ensures forall x | x in Without(s, drop) :: x in s
  {
    if |s| > 0 {
      WithoutSubset(s[..|s| - 1], drop);
    }
  }

  lemma {:induction false} WithoutKeeps(s: seq<Edge>, drop: set<nat>, i: nat)
    requires i < |s| && i !in drop
    ensures s[i] in Without(s, drop)
  {
    if i < |s| - 1 {
      WithoutKeeps(s[..|s| - 1], drop, i);
    }
  }

  /** `x` is an edge of `s` and no edge before it joins the same pair of nodes. */
  predicate FirstOfPair(s: seq<Edge>, x: Edge) {
    exists i | 0 <= i < |s| :: s[i] == x && forall j | 0 <= j < i :: !SamePair(s[j], x)
  }

  /** Every edge has a first edge joining its pair, at or before its own position. */
  lemma {:induction false} FirstOfPairExists(s: seq<Edge>, i: nat) returns (k: nat)
    requires i < |s|
    ensures k <= i && SamePair(s[k], s[i]) && FirstOfPair(s, s[k])
  {
    k := 0;
    while !SamePair(s[k], s[i])
      invariant k <= i
      invariant forall j | 0 <= j < k :: !SamePair(s[j], s[i])
      decreases i - k
    {
      k := k + 1;
    }
    assert forall j | 0 <= j < k :: !SamePair(s[j], s[k]);
  }

  /** Erasing edges other than it keeps an edge first of its pair. */
  lemma {:induction false} WithoutKeepsFirst(s: seq<Edge>, drop: set<nat>, i: nat)
    requires i < |s| && i !in drop
    requires forall j | 0 <= j < i :: !SamePair(s[j], s[i])
    ensures FirstOfPair(Without(s, drop), s[i])
  {
    var k := |s| - 1;
    var r := Without(s[..k], drop);
    if i < k {
      WithoutKeepsFirst(s[..k], drop, i);
      var m :| 0 <= m < |r| && r[m] == s[i] && forall j | 0 <= j < m :: !SamePair(r[j], s[i]);
      assert Without(s, drop)[m] == s[i];
      assert forall j | 0 <= j < m :: Without(s, drop)[j] == r[j];
    } else {
      WithoutSubset(s[..k], drop);
      forall j | 0 <= j < |r| ensures !SamePair(r[j], s[i]) {
        assert r[j] in s[..k];
      }
      assert Without(s, drop)[|r|] == s[i];
      assert forall j | 0 <= j < |r| :: Without(s, drop)[j] == r[j];
    }
  }

  /** Erasing removes exactly the edges named in `drop`. */
  lemma {:induction false} WithoutLength(s: seq<Edge>, drop: set<nat>)
    ensures |Without(s, drop)| + |DropBelow(drop, |s|)| == |s|
  {
    if |s| == 0 {
      assert DropBelow(drop, 0) == {};
    } else {
      var k := |s| - 1;
      WithoutLength(s[..k], drop);
      if k in drop {
        assert DropBelow(drop, |s|) == DropBelow(drop, k) + {k};
      } else {
        assert DropBelow(drop, |s|) == DropBelow(drop, k);
      }
    }
  }

  /** Erasing edges cannot create a parallel pair. */
  lemma {:induction false} WithoutParallelFree(s: seq<Edge>, drop: set<nat>)
    requires ParallelFree(s)
    ensures ParallelFree(Without(s, drop))
  {
    if |s| > 0 {
      var k := |s| - 1;
      var r := Without(s[..k], drop);
      WithoutParallelFree(s[..k], drop);
      WithoutSubset(s[..k], drop);
      if k !in drop {
        forall i | 0 <= i < |r| ensures !SamePair(r[i], s[k]) {
          assert r[i] in r;
          assert r[i] in s[..k];
          var j :| 0 <= j < k && s[..k][j] == r[i];
          assert s[j] == r[i];
        }
      }
    }
  }

  lemma {:induction false} WithoutLoopFree(s: seq<Edge>, drop: set<nat>)
    requires LoopFree(s)
    ensures LoopFree(Without(s, drop))
  {
    WithoutSubset(s, drop);
    var r := Without(s, drop);
    forall i | 0 <= i < |r| ensures !IsLoop(r[i]) {
      assert r[i] in r;
      assert r[i] in s;
      var j :| 0 <= j < |s| && s[j] == r[i];
    }
  }

  // ---------------------------------------------------------------------------
  // The graph object
  // ---------------------------------------------------------------------------

  /** LEMON's `ListGraph` together with the `EdgeMap<int>` that goes with it. */
  class ListGraph {
    var nodeCount: nat
    var edges: seq<Edge>

    constructor ()
      ensures nodeCount == 0 && edges == []
    {
      nodeCount := 0;
      edges := [];
    }

    /** A `GraphCopy` of a graph with `n` nodes and the given edges. */
    constructor Copy(n: nat, es: seq<Edge>)
      ensures nodeCount == n && edges == es
    {
      nodeCount := n;
      edges := es;
    }

    method Clear()
      modifies this
      ensures nodeCount == 0 && edges == []
    {
      nodeCount := 0;
      edges := [];
    }

    method AddNode() returns (id: nat)
      modifies this
      ensures id == old(nodeCount) && nodeCount == old(nodeCount) + 1
      ensures edges == old(edges)
    {
      id := nodeCount;
      nodeCount := nodeCount + 1;
    }

    /** `addEdge(u, v)` followed by `weights[e] = w`. */
    method AddEdge(u: int, v: int, w: int) returns (id: nat)
      modifies this
      ensures id == |old(edges)| && edges == old(edges) + [Edge(u, v, w)]
      ensures nodeCount == old(nodeCount)
    {
      id := |edges|;
      edges := edges + [Edge(u, v, w)];
    }

    /** `erase(e)` for every edge `e` whose position is in `drop`. */
    method Erase(drop: set<nat>)
      modifies this
      ensures edges == Without(old(edges), drop) && nodeCount == old(nodeCount)
    {
      edges := Without(edges, drop);
    }
  }

  // ---------------------------------------------------------------------------
  // Connectivity
  // ---------------------------------------------------------------------------

  predicate Adjacent(edges: seq<Edge>, a: int, b: int) {
    exists i | 0 <= i < |edges| :: Joins(edges[i], a, b)
  }

  ghost predicate IsPath(edges: seq<Edge>, p: seq<int>) {
    forall i | 0 <= i < |p| - 1 :: Adjacent(edges, p[i], p[i + 1])
  }

  /** `b` can be reached from `a` along edges of the graph. */
  ghost predicate Connected(edges: seq<Edge>, a: int, b: int) {
    exists p :: IsPath(edges, p) && |p| > 0 && p[0] == a && p[|p| - 1] == b
  }

  lemma {:induction false} ConnectedRefl(edges: seq<Edge>, a: int)
    ensures Connected(edges, a, a)
  {
    assert IsPath(edges, [a]);
  }

  lemma {:induction false} ConnectedStep(edges: seq<Edge>, a: int, b: int, c: int)
    requires Connected(edges, a, b) && Adjacent(edges, b, c)
    ensures Connected(edges, a, c)
  {
    var p :| IsPath(edges, p) && |p| > 0 && p[0] == a && p[|p| - 1] == b;
    var q := p + [c];
    assert forall i | 0 <= i < |q| - 1 :: q[i] == p[i];
    assert IsPath(edges, q);
  }

  lemma {:induction false} ConnectedSym(edges: seq<Edge>, a: int, b: int)
    requires Connected(edges, a, b)
    ensures Connected(edges, b, a)
  {
    var p :| IsPath(edges, p) && |p| > 0 && p[0] == a && p[|p| - 1] == b;
    var q := seq(|p|, i requires 0 <= i < |p| => p[|p| - 1 - i]);
    forall i | 0 <= i < |q| - 1 ensures Adjacent(edges, q[i], q[i + 1]) {
      var k := |p| - 2 - i;
      assert Adjacent(edges, p[k], p[k + 1]);
      var j :| 0 <= j < |edges| && Joins(edges[j], p[k], p[k + 1]);
      assert Joins(edges[j], q[i], q[i + 1]);
    }
    assert IsPath(edges, q) && q[0] == b && q[|q| - 1] == a;
  }

  lemma {:induction false} ConnectedTrans(edges: seq<Edge>, a: int, b: int, c: int)
    requires Connected(edges, a, b) && Connected(edges, b, c)
    ensures Connected(edges, a, c)
  {
    var p :| IsPath(edges, p) && |p| > 0 && p[0] == a && p[|p| - 1] == b;
    var q :| IsPath(edges, q) && |q| > 0 && q[0] == b && q[|q| - 1] == c;
    var r := p + q[1..];
    forall i | 0 <= i < |r| - 1 ensures Adjacent(edges, r[i], r[i + 1]) {
      if i < |p| - 1 {
        assert r[i] == p[i] && r[i + 1] == p[i + 1];
      } else {
        var k := i - (|p| - 1);
        assert r[i] == q[k] && r[i + 1] == q[k + 1];
      }
    }
    assert IsPath(edges, r);
  }

  /** A path stays a path when edges are added. */
  lemma {:induction false} ConnectedMono(edges: seq<Edge>, more: seq<Edge>, a: int, b: int)
    requires Connected(edges, a, b)
    ensures Connected(edges + more, a, b)
  {
    var p :| IsPath(edges, p) && |p| > 0 && p[0] == a && p[|p| - 1] == b;
    forall i | 0 <= i < |p| - 1 ensures Adjacent(edges + more, p[i], p[i + 1]) {
      var j :| 0 <= j < |edges| && Joins(edges[j], p[i], p[i + 1]);
      assert (edges + more)[j] == edges[j];
    }
    assert IsPath(edges + more, p);
  }

  /** A path along edges of a subgraph is a path of the whole graph. */
  lemma {:induction false} ConnectedSub(small: seq<Edge>, big: seq<Edge>, a: int, b: int)
    requires forall x | x in small :: x in big
    requires Connected(small, a, b)
    ensures Connected(big, a, b)
  {
    var p :| IsPath(small, p) && |p| > 0 && p[0] == a && p[|p| - 1] == b;
    forall i | 0 <= i < |p| - 1 ensures Adjacent(big, p[i], p[i + 1]) {
      var j :| 0 <= j < |small| && Joins(small[j], p[i], p[i + 1]);
      assert small[j] in big;
      var m :| 0 <= m < |big| && big[m] == small[j];
    }
    assert IsPath(big, p);
  }

  /** A set of nodes that no edge leaves contains everything reachable from its members. */
  lemma {:induction false} ClosedSetContains(edges: seq<Edge>, S: set<int>, a: int, b: int)
    requires forall i | 0 <= i < |edges| :: (edges[i].u in S <==> edges[i].v in S)
    requires a in S && Connected(edges, a, b)
    ensures b in S
  {
    var p :| IsPath(edges, p) && |p| > 0 && p[0] == a && p[|p| - 1] == b;
    var k := 0;
    while k < |p| - 1
      invariant 0 <= k <= |p| - 1 && p[k] in S
    {
      var j :| 0 <= j < |edges| && Joins(edges[j], p[k], p[k + 1]);
      k := k + 1;
    }
  }

  /**
   * When every edge joins two nodes of the same colour, nodes that are
   * connected have the same colour.
   */
  lemma {:induction false} ConnectedSameColour(edges: seq<Edge>, colour: seq<nat>, a: int, b: int)
    requires InRange(edges, |colour|)
    requires forall i | 0 <= i < |edges| :: colour[edges[i].u] == colour[edges[i].v]
    requires 0 <= a < |colour| && Connected(edges, a, b)
    ensures 0 <= b < |colour| && colour[a] == colour[b]
  {
    var S := set x | 0 <= x < |colour| && colour[x] == colour[a];
    ClosedSetContains(edges, S, a, b);
  }

  /** No node with a smaller index is connected to `x`: `x` is the first node of its component. */
  ghost predicate FirstOfComponent(edges: seq<Edge>, x: int) {
    forall y | 0 <= y < x :: !Connected(edges, y, x)
  }

  /** The components of the graph, each counted once through its first node. */
  ghost function ComponentCount(edges: seq<Edge>, n: nat): nat
  {
    |set x | 0 <= x < n && FirstOfComponent(edges, x)|
  }

  // ---------------------------------------------------------------------------
  // Breadth-first reachability, as a function
  // ---------------------------------------------------------------------------

  /** The nodes 0 .. n-1. */
  function Range(n: nat): (r: set<int>)
    ensures forall x :: x in r <==> 0 <= x < n
  {
    if n == 0 then {} else Range(n - 1) + {n - 1}
  }

  lemma {:induction false} RangeSize(n: nat)
    ensures |Range(n)| == n
  {
    if n > 0 {
      RangeSize(n - 1);
    }
  }

  lemma {:induction false} SubsetSize(A: set<int>, B: set<int>)
    requires A <= B
    ensures |A| <= |B| && (A != B ==> |A| < |B|)
    decreases A
  {
    if |A| > 0 {
      if forall x :: x !in A { assert false; }
      var x :| x in A;
      SubsetSize(A - {x}, B - {x});
    } else if |B| > 0 {
      if forall y :: y !in B { assert false; }
      var y :| y in B;
      assert y in B - A;
    }
  }

  /** The nodes of `S` together with every node one edge away from a node of `S`. */
  function Expand(edges: seq<Edge>, S: set<int>): set<int>
  {
    S + (set i | 0 <= i < |edges| && edges[i].u in S :: edges[i].v)
      + (set i | 0 <= i < |edges| && edges[i].v in S :: edges[i].u)
  }

  lemma {:induction false} ExpandGrows(edges: seq<Edge>, n: nat, S: set<int>)
    requires InRange(edges, n) && S <= Range(n)
    ensures S <= Expand(edges, S) <= Range(n)
    ensures Expand(edges, S) != S ==> |S| < |Expand(edges, S)| <= n
  {
    RangeSize(n);
    SubsetSize(S, Expand(edges, S));
    SubsetSize(Expand(edges, S), Range(n));
  }

  /** The nodes a breadth-first search started from the nodes of `S` reaches. */
  function Closure(edges: seq<Edge>, n: nat, S: set<int>): (C: set<int>)
    requires InRange(edges, n) && S <= Range(n)
    ensures S <= C <= Range(n)
    decreases n - |S|
  {
    var S' := Expand(edges, S);
    if S' == S then S
    else
      ExpandGrows(edges, n, S);
      Closure(edges, n, S')
  }

  /** Nodes `Closure` adds are connected to `root` when the seeds are. */
  lemma {:induction false} ClosureSound(edges: seq<Edge>, n: nat, S: set<int>, root: int)
    requires InRange(edges, n) && S <= Range(n)
    requires forall y | y in S :: Connected(edges, root, y)
    ensures forall x | x in Closure(edges, n, S) :: Connected(edges, root, x)
    decreases n - |S|
  {
    var S' := Expand(edges, S);
    if S' != S {
      forall x | x in S' ensures Connected(edges, root, x) {
        if x !in S {
          var i :| 0 <= i < |edges| && ((edges[i].u in S && edges[i].v == x) || (edges[i].v in S && edges[i].u == x));
          var y := if edges[i].u in S && edges[i].v == x then edges[i].u else edges[i].v;
          assert Joins(edges[i], y, x);
          ConnectedStep(edges, root, y, x);
        }
      }
      ExpandGrows(edges, n, S);
      ClosureSound(edges, n, S', root);
    }
  }

  /** `Closure` returns a set that no edge leaves. */
  lemma {:induction false} ClosureClosed(edges: seq<Edge>, n: nat, S: set<int>)
    requires InRange(edges, n) && S <= Range(n)
    ensures Expand(edges, Closure(edges, n, S)) == Closure(edges, n, S)
    decreases n - |S|
  {
    var S' := Expand(edges, S);
    if S' != S {
      ExpandGrows(edges, n, S);
      ClosureClosed(edges, n, S');
    }
  }

  /** The nodes reached by a breadth-first search from `root`. */
  function Reached(edges: seq<Edge>, n: nat, root: nat): set<int>
    requires InRange(edges, n) && root < n
  {
    Closure(edges, n, {root})
  }

  /** Breadth-first search from `root` reaches exactly the nodes connected to `root`. */
  lemma {:induction false} ReachedIff(edges: seq<Edge>, n: nat, root: nat, x: int)
    requires InRange(edges, n) && root < n
    ensures x in Reached(edges, n, root) <==> Connected(edges, root, x)
  {
    ConnectedRefl(edges, root);
    ClosureSound(edges, n, {root}, root);
    if Connected(edges, root, x) {
      var C := Reached(edges, n, root);
      ClosureClosed(edges, n, {root});
      forall i | 0 <= i < |edges| ensures (edges[i].u in C <==> edges[i].v in C) {
        if edges[i].u in C { assert edges[i].v in Expand(edges, C); }
        if edges[i].v in C { assert edges[i].u in Expand(edges, C); }
      }
      ClosedSetContains(edges, C, root, x);
    }
  }

  // ---------------------------------------------------------------------------
  // Sequences without repetition
  // ---------------------------------------------------------------------------

  /** No value occurs twice. */
  predicate Distinct(s: seq<int>) {
    forall i, j | 0 <= i < j < |s| :: s[i] != s[j]
  }

  /** A sequence without repetitions has as many values as positions. */
  lemma {:induction false} DistinctCard(s: seq<int>)
    requires Distinct(s)
    ensures |set x | x in s| == |s|
  {
    if |s| > 0 {
      var k := |s| - 1;
      DistinctCard(s[..k]);
      assert (set x | x in s) == (set x | x in s[..k]) + {s[k]};
      assert s[k] !in s[..k];
    } else {
      assert (set x | x in s) == {};
    }
  }

  /** In a sequence without repetitions every value occurs at most once. */
  lemma {:induction false} DistinctMultiplicity(s: seq<int>)
    requires Distinct(s)
    ensures forall x :: multiset(s)[x] <= 1
  {
    if |s| > 0 {
      var k := |s| - 1;
      DistinctMultiplicity(s[..k]);
      assert s == s[..k] + [s[k]];
      assert s[k] !in s[..k];
    }
  }

  /** A sequence in which every value occurs at most once has no repetitions. */
  lemma {:induction false} MultiplicityDistinct(s: seq<int>)
    requires forall x :: multiset(s)[x] <= 1
    ensures Distinct(s)
  {
    if |s| > 0 {
      var k := |s| - 1;
      assert s == s[..k] + [s[k]];
      assert multiset(s) == multiset(s[..k]) + multiset{s[k]};
      forall x ensures multiset(s[..k])[x] <= 1 {
        assert multiset(s)[x] == multiset(s[..k])[x] + (if x == s[k] then 1 else 0);
      }
      MultiplicityDistinct(s[..k]);
      assert multiset(s)[s[k]] == multiset(s[..k])[s[k]] + 1;
      forall i | 0 <= i < k ensures s[i] != s[k] {
        assert s[i] == s[..k][i];
        assert s[..k][i] in multiset(s[..k]);
      }
    }
  }

  /** Erasing edges keeps every remaining edge within the nodes. */
  lemma {:induction false} WithoutInRange(s: seq<Edge>, drop: set<nat>, n: nat)
    requires InRange(s, n)
    ensures InRange(Without(s, drop), n)
  {
    WithoutSubset(s, drop);
    var r := Without(s, drop);
    forall i | 0 <= i < |r| ensures 0 <= r[i].u < n && 0 <= r[i].v < n {
      assert r[i] in r;
      var j :| 0 <= j < |s| && s[j] == r[i];
    }
  }
}
