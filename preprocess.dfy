/**
 * `preprocess_graph` (src/main.cpp): removes self-loops and parallel edges,
 * then joins every part of the graph that node 0 cannot reach to node 0 with
 * an edge of weight 42, so that the min-cut code sees a simple connected
 * graph.
 */
module Preprocess {
  import opened Graphs

  /** The weight of every edge added to make the graph connected. */
  const CONNECT_WEIGHT: int := 42

  // ---------------------------------------------------------------------------
  // Pass one: self-loops and parallel edges
  // ---------------------------------------------------------------------------

  /**
   * Edge `i` is one that the scan of node `n`'s incidence list puts on the
   * removal list: a self-loop at `n`, or an edge to a neighbour already met
   * earlier in the list.
   */
  predicate Redundant(edges: seq<Edge>, n: int, i: nat)
    requires i < |edges|
  {
    Incident(edges[i], n) &&
    (IsLoop(edges[i]) ||
     exists j | 0 <= j < i :: Incident(edges[j], n) && !IsLoop(edges[j]) && Other(edges[j], n) == Other(edges[i], n))
  }

  /** The neighbours of `n` the scan has met before position `i` (the `visited` set). */
  function Met(edges: seq<Edge>, n: int, i: nat): set<int>
    requires i <= |edges|
  {
    set j | 0 <= j < i && Incident(edges[j], n) && !IsLoop(edges[j]) :: Other(edges[j], n)
  }

  /** The removal list after the scan has looked at the first `i` edges. */
  function RedundantBelow(edges: seq<Edge>, n: int, i: nat): set<nat>
    requires i <= |edges|
  {
    set j: nat | j < i && Redundant(edges, n, j)
  }

  /** The edge list after node `n`'s scan and the erasure of its removal list. */
  function Scan(edges: seq<Edge>, n: int): seq<Edge>
  {
    Without(edges, RedundantBelow(edges, n, |edges|))
  }

  /** The edge list after the scans of nodes 0 .. k-1, in that order. */
  function ScanUpTo(edges: seq<Edge>, k: nat): seq<Edge>
  {
    if k == 0 then edges else Scan(ScanUpTo(edges, k - 1), k - 1)
  }

  /** No edge at `n` is a self-loop and no two edges at `n` go to the same neighbour. */
  predicate CleanAt(edges: seq<Edge>, n: int) {
    (forall i | 0 <= i < |edges| :: Incident(edges[i], n) ==> !IsLoop(edges[i])) &&
    (forall i, j | 0 <= i < j < |edges| :: Incident(edges[i], n) ==> !SamePair(edges[i], edges[j]))
  }

  /** After its scan, node `n` has no self-loop and no parallel edge. */
  lemma {:induction false} ScanCleans(edges: seq<Edge>, n: int)
    ensures CleanAt(Scan(edges, n), n)
  {
    var R := RedundantBelow(edges, n, |edges|);
    ScanCleansPrefix(edges, n, R, |edges|);
    assert edges[..|edges|] == edges;
  }

  lemma {:induction false} ScanCleansPrefix(edges: seq<Edge>, n: int, R: set<nat>, k: nat)
    requires k <= |edges| && R == RedundantBelow(edges, n, |edges|)
    ensures CleanAt(Without(edges[..k], R), n)
  {
    if k > 0 {
      var p := edges[..k];
      assert p[..k - 1] == edges[..k - 1];
      ScanCleansPrefix(edges, n, R, k - 1);
      var r := Without(edges[..k - 1], R);
      WithoutSubset(edges[..k - 1], R);
      var e := edges[k - 1];
      if k - 1 !in R {
        assert !Redundant(edges, n, k - 1);
        forall i | 0 <= i < |r| && Incident(r[i], n) ensures !SamePair(r[i], e) {
          assert r[i] in r;
          assert r[i] in edges[..k - 1];
          var j :| 0 <= j < k - 1 && edges[..k - 1][j] == r[i];
          assert edges[j] == r[i];
          assert Incident(edges[j], n) && !IsLoop(edges[j]);
        }
      }
    }
  }

  /** Erasing edges keeps a node clean. */
  lemma {:induction false} WithoutCleanAt(s: seq<Edge>, drop: set<nat>, n: int)
    requires CleanAt(s, n)
    ensures CleanAt(Without(s, drop), n)
  {
    if |s| > 0 {
      var k := |s| - 1;
      assert CleanAt(s[..k], n);
      WithoutCleanAt(s[..k], drop, n);
      WithoutSubset(s[..k], drop);
      var r := Without(s[..k], drop);
      if k !in drop {
        forall i | 0 <= i < |r| && Incident(r[i], n) ensures !SamePair(r[i], s[k]) {
          assert r[i] in r;
          assert r[i] in s[..k];
          var j :| 0 <= j < k && s[..k][j] == r[i];
          assert s[j] == r[i];
        }
      }
    }
  }

  /**
   * The scan keeps, for each neighbour of `n`, the first edge met that goes
   * there, with its own weight; every edge left was in the list before.
   */
  lemma {:induction false} ScanKeepsFirst(edges: seq<Edge>, n: int, i: nat)
    requires i < |edges| && !Redundant(edges, n, i)
    ensures edges[i] in Scan(edges, n)
    ensures forall x | x in Scan(edges, n) :: x in edges
  {
    WithoutKeeps(edges, RedundantBelow(edges, n, |edges|), i);
    WithoutSubset(edges, RedundantBelow(edges, n, |edges|));
  }

  lemma {:induction false} ScanUpToSubset(edges: seq<Edge>, k: nat)
    ensures forall x | x in ScanUpTo(edges, k) :: x in edges
  {
    if k > 0 {
      ScanUpToSubset(edges, k - 1);
      WithoutSubset(ScanUpTo(edges, k - 1), RedundantBelow(ScanUpTo(edges, k - 1), k - 1, |ScanUpTo(edges, k - 1)|));
    }
  }

  /** A scan keeps the first edge that joins each pair of distinct nodes. */
  lemma {:induction false} ScanKeepsFirstOfPair(edges: seq<Edge>, n: int, x: Edge)
    requires FirstOfPair(edges, x) && !IsLoop(x)
    ensures FirstOfPair(Scan(edges, n), x)
  {
    var i :| 0 <= i < |edges| && edges[i] == x && forall j | 0 <= j < i :: !SamePair(edges[j], x);
    if Redundant(edges, n, i) {
      var j :| 0 <= j < i && Incident(edges[j], n) && !IsLoop(edges[j]) && Other(edges[j], n) == Other(x, n);
      assert SamePair(edges[j], x);
      assert false;
    }
    WithoutKeepsFirst(edges, RedundantBelow(edges, n, |edges|), i);
  }

  /**
   * Pass one keeps, for every pair of distinct nodes joined in the input, the
   * first edge that joins them, with its own weight.
   */
  lemma {:induction false} ScanUpToKeepsFirstOfPair(edges: seq<Edge>, k: nat, x: Edge)
    requires FirstOfPair(edges, x) && !IsLoop(x)
    ensures FirstOfPair(ScanUpTo(edges, k), x) && x in ScanUpTo(edges, k)
  {
    if k > 0 {
      ScanUpToKeepsFirstOfPair(edges, k - 1, x);
      ScanKeepsFirstOfPair(ScanUpTo(edges, k - 1), k - 1, x);
    }
  }

  /** Pass one keeps every two distinct adjacent nodes adjacent. */
  lemma {:induction false} ScanUpToKeepsAdjacent(edges: seq<Edge>, k: nat, a: int, b: int)
    requires a != b && Adjacent(edges, a, b)
    ensures Adjacent(ScanUpTo(edges, k), a, b)
  {
    var i :| 0 <= i < |edges| && Joins(edges[i], a, b);
    var f := FirstOfPairExists(edges, i);
    ScanUpToKeepsFirstOfPair(edges, k, edges[f]);
    var r := ScanUpTo(edges, k);
    var m :| 0 <= m < |r| && r[m] == edges[f];
    assert Joins(r[m], a, b);
  }

  /** Pass one keeps every two connected nodes connected. */
  lemma {:induction false} ScanUpToKeepsConnected(edges: seq<Edge>, k: nat, a: int, b: int)
    requires Connected(edges, a, b)
    ensures Connected(ScanUpTo(edges, k), a, b)
  {
    var r := ScanUpTo(edges, k);
    var p :| IsPath(edges, p) && |p| > 0 && p[0] == a && p[|p| - 1] == b;
    ConnectedRefl(r, a);
    var i := 0;
    while i < |p| - 1
      invariant 0 <= i <= |p| - 1 && Connected(r, a, p[i])
    {
      if p[i] != p[i + 1] {
        assert Adjacent(edges, p[i], p[i + 1]);
        ScanUpToKeepsAdjacent(edges, k, p[i], p[i + 1]);
        ConnectedStep(r, a, p[i], p[i + 1]);
      }
      i := i + 1;
    }
  }

  /** Pass one leaves the components of the graph as they were. */
  lemma {:induction false} ScanUpToSameComponents(edges: seq<Edge>, k: nat, n: nat)
    ensures ComponentCount(ScanUpTo(edges, k), n) == ComponentCount(edges, n)
  {
    var r := ScanUpTo(edges, k);
    ScanUpToSubset(edges, k);
    forall a, b ensures Connected(r, a, b) <==> Connected(edges, a, b) {
      if Connected(r, a, b) {
        ConnectedSub(r, edges, a, b);
      }
      if Connected(edges, a, b) {
        ScanUpToKeepsConnected(edges, k, a, b);
      }
    }
    assert (set x | 0 <= x < n && FirstOfComponent(r, x)) == (set x | 0 <= x < n && FirstOfComponent(edges, x));
  }

  /** After the scans of nodes 0 .. k-1 each of those nodes is clean. */
  lemma {:induction false} ScanUpToClean(edges: seq<Edge>, k: nat)
    ensures forall m | 0 <= m < k :: CleanAt(ScanUpTo(edges, k), m)
  {
    if k > 0 {
      var prev := ScanUpTo(edges, k - 1);
      ScanUpToClean(edges, k - 1);
      forall m | 0 <= m < k ensures CleanAt(ScanUpTo(edges, k), m) {
        if m == k - 1 {
          ScanCleans(prev, m);
        } else {
          WithoutCleanAt(prev, RedundantBelow(prev, k - 1, |prev|), m);
        }
      }
    }
  }

  /** Once every node of a graph is clean, the graph has no self-loop and no parallel edge. */
  lemma {:induction false} AllCleanSimple(edges: seq<Edge>, n: nat)
    requires InRange(edges, n)
    requires forall m | 0 <= m < n :: CleanAt(edges, m)
    ensures LoopFree(edges) && ParallelFree(edges)
  {
    forall i | 0 <= i < |edges| ensures !IsLoop(edges[i]) {
      assert CleanAt(edges, edges[i].u);
    }
    forall i, j | 0 <= i < j < |edges| ensures !SamePair(edges[i], edges[j]) {
      assert CleanAt(edges, edges[i].u);
    }
  }

  /** The number of self-loops at `n` among the first `i` edges. */
  function LoopsBelow(edges: seq<Edge>, n: int, i: nat): nat
    requires i <= |edges|
  {
    if i == 0 then 0
    else LoopsBelow(edges, n, i - 1) + (if Incident(edges[i - 1], n) && IsLoop(edges[i - 1]) then 1 else 0)
  }

  /**
   * The list `edges_to_remove` after the scan has looked at the first `i`
   * edges. The incidence list of `n` meets a self-loop once per arc, that is
   * twice, so the position of a self-loop is pushed twice; any other redundant
   * edge is pushed once. The list names exactly the redundant edges.
   */
  function RemovalListBelow(edges: seq<Edge>, n: int, i: nat): (r: seq<nat>)
    requires i <= |edges|
    ensures forall j | j in r :: j in RedundantBelow(edges, n, i)
    ensures forall j | j in RedundantBelow(edges, n, i) :: j in r
  {
    if i == 0 then []
    else
      var prev := RemovalListBelow(edges, n, i - 1);
      assert RedundantBelow(edges, n, i) == RedundantBelow(edges, n, i - 1) + (if Redundant(edges, n, i - 1) then {i - 1} else {});
      if !Redundant(edges, n, i - 1) then prev
      else if IsLoop(edges[i - 1]) then prev + [i - 1, i - 1]
      else prev + [i - 1]
  }

  /** The whole removal list of node `n`'s scan. */
  function RemovalList(edges: seq<Edge>, n: int): seq<nat>
  {
    RemovalListBelow(edges, n, |edges|)
  }

  /**
   * The removal list is one entry longer than the set of redundant edges for
   * every self-loop at `n`: that many more `erase` calls and increments of the
   * erased-edge counter than edges actually leave the graph.
   */
  lemma {:induction false} RemovalListLength(edges: seq<Edge>, n: int, i: nat)
    requires i <= |edges|
    ensures |RemovalListBelow(edges, n, i)| == |RedundantBelow(edges, n, i)| + LoopsBelow(edges, n, i)
  {
    if i > 0 {
      RemovalListLength(edges, n, i - 1);
      assert i - 1 !in RedundantBelow(edges, n, i - 1);
      assert RedundantBelow(edges, n, i) == RedundantBelow(edges, n, i - 1) + (if Redundant(edges, n, i - 1) then {i - 1} else {});
    }
  }

  /**
   * One node with one self-loop: its scan pushes the loop twice, so the loop
   * is erased twice and counted as two erased edges, while only one edge
   * leaves the graph.
   */
  lemma LoopListedTwice()
    ensures RemovalList([Edge(0, 0, 1)], 0) == [0, 0]
    ensures Scan([Edge(0, 0, 1)], 0) == []
  {
    var es := [Edge(0, 0, 1)];
    assert Redundant(es, 0, 0);
    assert RedundantBelow(es, 0, 1) == {0};
    assert es[..0] == [];
  }

  /**
   * The scan of one node (the body of the outer loop of pass one): walks the
   * incidence list of `n` with a `visited` set, builds the removal list, and
   * erases its edges only once the whole list has been scanned. Each listed
   * edge is erased, and counted, once.
   */
  method ScanNode(g: ListGraph, n: int) returns (erased: nat)
    modifies g
    ensures g.nodeCount == old(g.nodeCount)
    ensures g.edges == Scan(old(g.edges), n)
    ensures erased == |old(g.edges)| - |g.edges|
    ensures |RemovalList(old(g.edges), n)| == erased + LoopsBelow(old(g.edges), n, |old(g.edges)|)
  {
    var edges := g.edges;
    var toRemove: seq<nat> := [];
    var visited: set<int> := {};
    for i := 0 to |edges|
      invariant toRemove == RemovalListBelow(edges, n, i)
      invariant visited == Met(edges, n, i)
    {
      var e := edges[i];
      if Incident(e, n) {
        var u, v := e.u, e.v;
        if v == n {
          u, v := v, u;
        }
        assert v == Other(e, n) && (u == v <==> IsLoop(e));
        if u == v {
          toRemove := toRemove + [i, i];
        } else if v in visited {
          toRemove := toRemove + [i];
        } else {
          visited := visited + {v};
        }
      }
      assert Redundant(edges, n, i) <==> Incident(e, n) && (IsLoop(e) || Other(e, n) in Met(edges, n, i));
      assert Met(edges, n, i + 1) == Met(edges, n, i) + (if Incident(e, n) && !IsLoop(e) then {Other(e, n)} else {});
    }
    var drop := set j | j in toRemove;
    assert drop == RedundantBelow(edges, n, |edges|);
    g.Erase(drop);
    WithoutLength(edges, drop);
    assert DropBelow(drop, |edges|) == drop;
    RemovalListLength(edges, n, |edges|);
    erased := |drop|;
  }

  /** Pass one: every node's incidence list is scanned in turn. */
  method RemoveLoopsAndParallelEdges(g: ListGraph) returns (erased: nat)
    requires InRange(g.edges, g.nodeCount)
    modifies g
    ensures g.nodeCount == old(g.nodeCount)
    ensures g.edges == ScanUpTo(old(g.edges), g.nodeCount)
    ensures LoopFree(g.edges) && ParallelFree(g.edges) && InRange(g.edges, g.nodeCount)
    ensures forall x | x in g.edges :: x in old(g.edges)
    ensures forall x | FirstOfPair(old(g.edges), x) && !IsLoop(x) :: x in g.edges
    ensures forall a, b | Connected(old(g.edges), a, b) :: Connected(g.edges, a, b)
    ensures erased == |old(g.edges)| - |g.edges|
  {
    erased := 0;
    for n := 0 to g.nodeCount
      invariant g.nodeCount == old(g.nodeCount)
      invariant g.edges == ScanUpTo(old(g.edges), n)
      invariant erased == |old(g.edges)| - |g.edges|
    {
      var k := ScanNode(g, n);
      erased := erased + k;
    }
    ScanUpToClean(old(g.edges), g.nodeCount);
    ScanUpToSubset(old(g.edges), g.nodeCount);
    assert InRange(g.edges, g.nodeCount) by {
      forall i | 0 <= i < |g.edges| ensures 0 <= g.edges[i].u < g.nodeCount && 0 <= g.edges[i].v < g.nodeCount {
        assert g.edges[i] in g.edges;
        var j :| 0 <= j < |old(g.edges)| && old(g.edges)[j] == g.edges[i];
      }
    }
    AllCleanSimple(g.edges, g.nodeCount);
    forall x | FirstOfPair(old(g.edges), x) && !IsLoop(x) ensures x in g.edges {
      ScanUpToKeepsFirstOfPair(old(g.edges), g.nodeCount, x);
    }
    forall a, b | Connected(old(g.edges), a, b) ensures Connected(g.edges, a, b) {
      ScanUpToKeepsConnected(old(g.edges), g.nodeCount, a, b);
    }
  }

  // ---------------------------------------------------------------------------
  // Pass two: connecting the graph to node 0
  // ---------------------------------------------------------------------------

  /** The first nodes of components, other than node 0, below `k`. */
  ghost function FirstNodesBelow(edges: seq<Edge>, k: nat): set<int>
  {
    set x | 0 < x < k && FirstOfComponent(edges, x)
  }

  /** The edges pass two adds for the nodes of `joined`. */
  function RootEdges(joined: seq<int>): (r: seq<Edge>)
    ensures |r| == |joined|
    ensures forall k | 0 <= k < |r| :: r[k] == Edge(0, joined[k], CONNECT_WEIGHT)
  {
    if |joined| == 0 then [] else RootEdges(joined[..|joined| - 1]) + [Edge(0, joined[|joined| - 1], CONNECT_WEIGHT)]
  }

  /** Some node below `n` is connected to `x`. */
  ghost predicate AttachedBelow(edges: seq<Edge>, n: int, x: int) {
    exists y | 0 <= y < n :: Connected(edges, y, x)
  }

  /**
   * While pass two is at node `n`, after it has joined to node 0 the first
   * node of every component that starts below `n`: node `n` is not reached
   * from node 0 exactly when it is the first node of a component other than
   * node 0's.
   */
  lemma {:induction false} UnreachedIffFirst(orig: seq<Edge>, count: nat, n: nat, joined: seq<int>)
    requires n < count && InRange(orig, count)
    requires forall x | x in joined :: 0 < x < n && FirstOfComponent(orig, x)
    requires forall x | 0 <= x < n :: Connected(orig + RootEdges(joined), 0, x)
    ensures !Connected(orig + RootEdges(joined), 0, n) <==> (n > 0 && FirstOfComponent(orig, n))
  {
    var E := orig + RootEdges(joined);
    if n == 0 {
      ConnectedRefl(E, 0);
    } else if !FirstOfComponent(orig, n) {
      var y :| 0 <= y < n && Connected(orig, y, n);
      ConnectedMono(orig, RootEdges(joined), y, n);
      ConnectedTrans(E, 0, y, n);
    } else {
      var A := set x | 0 <= x < count && AttachedBelow(orig, n, x);
      ConnectedRefl(orig, 0);
      assert AttachedBelow(orig, n, 0);
      forall i | 0 <= i < |E| ensures (E[i].u in A <==> E[i].v in A) {
        if i < |orig| {
          var e := orig[i];
          assert E[i] == e;
          assert Joins(e, e.u, e.v) && Joins(e, e.v, e.u);
          if e.u in A {
            assert AttachedBelow(orig, n, e.u);
            var y :| 0 <= y < n && Connected(orig, y, e.u);
            ConnectedStep(orig, y, e.u, e.v);
          }
          if e.v in A {
            assert AttachedBelow(orig, n, e.v);
            var y :| 0 <= y < n && Connected(orig, y, e.v);
            ConnectedStep(orig, y, e.v, e.u);
          }
        } else {
          var r := joined[i - |orig|];
          assert E[i] == Edge(0, r, CONNECT_WEIGHT);
          assert r in joined;
          ConnectedRefl(orig, r);
          assert AttachedBelow(orig, n, r);
        }
      }
      if Connected(E, 0, n) {
        ClosedSetContains(E, A, 0, n);
        assert false;
      }
    }
  }

  /**
   * Joining an unreached node to node 0 brings in no self-loop and no
   * parallel edge, and keeps every node below it reached.
   */
  lemma {:induction false} AddRootEdge(before: seq<Edge>, n: int)
    requires n != 0 && !Connected(before, 0, n)
    ensures LoopFree(before) ==> LoopFree(before + [Edge(0, n, CONNECT_WEIGHT)])
    ensures ParallelFree(before) ==> ParallelFree(before + [Edge(0, n, CONNECT_WEIGHT)])
    ensures forall x | 0 <= x < n && Connected(before, 0, x) :: Connected(before + [Edge(0, n, CONNECT_WEIGHT)], 0, x)
    ensures Connected(before + [Edge(0, n, CONNECT_WEIGHT)], 0, n)
  {
    var e := Edge(0, n, CONNECT_WEIGHT);
    var after := before + [e];
    ConnectedRefl(before, 0);
    forall i | 0 <= i < |before| ensures !SamePair(before[i], e) {
      if SamePair(before[i], e) {
        assert Joins(before[i], 0, n);
        ConnectedStep(before, 0, 0, n);
      }
    }
    forall x | 0 <= x < n && Connected(before, 0, x) ensures Connected(after, 0, x) {
      ConnectedMono(before, [e], 0, x);
    }
    assert Joins(after[|before|], 0, n);
    ConnectedRefl(after, 0);
    ConnectedStep(after, 0, 0, n);
  }

  lemma {:induction false} RootEdgesAppend(joined: seq<int>, n: int)
    ensures RootEdges(joined + [n]) == RootEdges(joined) + [Edge(0, n, CONNECT_WEIGHT)]
  {
    assert (joined + [n])[..|joined|] == joined;
  }

  /** The first nodes of components below `k + 1` are those below `k`, and `k` when it is one. */
  lemma {:induction false} FirstNodesStep(edges: seq<Edge>, k: nat)
    ensures k > 0 && FirstOfComponent(edges, k) ==> FirstNodesBelow(edges, k + 1) == FirstNodesBelow(edges, k) + {k}
    ensures !(k > 0 && FirstOfComponent(edges, k)) ==> FirstNodesBelow(edges, k + 1) == FirstNodesBelow(edges, k)
    ensures k !in FirstNodesBelow(edges, k)
  {
  }

  /** With every node reached from node 0, node 0 is the only first node of a component. */
  lemma {:induction false} ComponentCountOfConnected(edges: seq<Edge>, count: nat)
    requires count > 0
    ensures ComponentCount(edges, count) == |FirstNodesBelow(edges, count)| + 1
    ensures (forall x | 0 <= x < count :: Connected(edges, 0, x)) ==> FirstNodesBelow(edges, count) == {}
  {
    ConnectedRefl(edges, 0);
    assert FirstOfComponent(edges, 0);
    assert (set x | 0 <= x < count && FirstOfComponent(edges, x)) == FirstNodesBelow(edges, count) + {0};
    if forall x | 0 <= x < count :: Connected(edges, 0, x) {
      forall x | 0 < x < count ensures !FirstOfComponent(edges, x) {
        assert Connected(edges, 0, x);
      }
    }
  }

  /**
   * What pass two has established once it has looked at nodes 0 .. n-1:
   * the edges added so far join node 0 to exactly the first nodes of the
   * components that start below `n` (other than node 0's), and every node
   * below `n` is reached from node 0.
   */
  ghost predicate JoinedUpTo(orig: seq<Edge>, edges: seq<Edge>, joined: seq<int>, n: nat) {
    edges == orig + RootEdges(joined) &&
    (forall x | x in joined :: 0 < x < n && FirstOfComponent(orig, x)) &&
    (forall x | 0 < x < n && FirstOfComponent(orig, x) :: x in joined) &&
    (forall x | 0 <= x < n :: Connected(edges, 0, x)) &&
    |joined| == |FirstNodesBelow(orig, n)| &&
    (LoopFree(orig) ==> LoopFree(edges)) &&
    (ParallelFree(orig) ==> ParallelFree(edges))
  }

  /** An iteration of pass two at a node already reached from node 0 adds nothing and keeps `JoinedUpTo`. */
  lemma {:induction false} JoinedUpToSkip(orig: seq<Edge>, edges: seq<Edge>, joined: seq<int>, n: nat, count: nat)
    requires n < count && InRange(orig, count) && JoinedUpTo(orig, edges, joined, n)
    requires Connected(edges, 0, n)
    ensures JoinedUpTo(orig, edges, joined, n + 1)
  {
    UnreachedIffFirst(orig, count, n, joined);
    FirstNodesStep(orig, n);
  }

  /** An edge from node 0 to a node of the graph keeps every edge within the graph. */
  lemma {:induction false} RootEdgeInRange(edges: seq<Edge>, n: int, count: nat)
    requires 0 <= n < count && InRange(edges, count)
    ensures InRange(edges + [Edge(0, n, CONNECT_WEIGHT)], count)
  {
    var after := edges + [Edge(0, n, CONNECT_WEIGHT)];
    forall i | 0 <= i < |after| ensures 0 <= after[i].u < count && 0 <= after[i].v < count {
      if i < |edges| {
        assert after[i] == edges[i];
      }
    }
  }

  /** An iteration of pass two at a node not reached from node 0 joins it to node 0 and keeps `JoinedUpTo`. */
  lemma {:induction false} JoinedUpToJoin(orig: seq<Edge>, edges: seq<Edge>, joined: seq<int>, n: nat, count: nat)
    requires n < count && InRange(orig, count) && JoinedUpTo(orig, edges, joined, n)
    requires InRange(edges, count) && !Connected(edges, 0, n)
    ensures JoinedUpTo(orig, edges + [Edge(0, n, CONNECT_WEIGHT)], joined + [n], n + 1)
  {
    UnreachedIffFirst(orig, count, n, joined);
    FirstNodesStep(orig, n);
    AddRootEdge(edges, n);
    RootEdgesAppend(joined, n);
    assert edges + [Edge(0, n, CONNECT_WEIGHT)] == orig + (RootEdges(joined) + [Edge(0, n, CONNECT_WEIGHT)]);
  }

  /**
   * Pass two: a breadth-first search from node 0; every node it has not
   * reached is joined to node 0 by a new edge of weight 42, and the search
   * is continued from there.
   */
  method ConnectToRoot(g: ListGraph) returns (added: nat, ghost joined: seq<int>)
    requires g.nodeCount > 0 && InRange(g.edges, g.nodeCount)
    modifies g
    ensures g.nodeCount == old(g.nodeCount) && InRange(g.edges, g.nodeCount)
    ensures g.edges == old(g.edges) + RootEdges(joined)
    ensures forall k | 0 <= k < |joined| :: 0 < joined[k] < g.nodeCount && FirstOfComponent(old(g.edges), joined[k])
    ensures forall x | 0 < x < g.nodeCount :: (x in joined <==> FirstOfComponent(old(g.edges), x))
    ensures forall x | 0 <= x < g.nodeCount :: Connected(g.edges, 0, x)
    ensures added == |joined| && added + 1 == ComponentCount(old(g.edges), g.nodeCount)
    ensures (forall x | 0 <= x < g.nodeCount :: Connected(old(g.edges), 0, x)) ==> added == 0
    ensures LoopFree(old(g.edges)) ==> LoopFree(g.edges)
    ensures ParallelFree(old(g.edges)) ==> ParallelFree(g.edges)
  {
    ghost var orig := g.edges;
    var count := g.nodeCount;
    added := 0;
    joined := [];
    assert FirstNodesBelow(orig, 0) == {};
    for n := 0 to count
      invariant g.nodeCount == count && InRange(g.edges, count)
      invariant JoinedUpTo(orig, g.edges, joined, n) && added == |joined|
    {
      var edges := g.edges;
      ReachedIff(edges, count, 0, n);
      if n !in Reached(edges, count, 0) {
        JoinedUpToJoin(orig, edges, joined, n, count);
        RootEdgeInRange(edges, n, count);
        var _ := g.AddEdge(0, n, CONNECT_WEIGHT);
        joined := joined + [n];
        added := added + 1;
      } else {
        JoinedUpToSkip(orig, edges, joined, n, count);
      }
    }
    ComponentCountOfConnected(orig, count);
    forall k | 0 <= k < |joined| ensures 0 < joined[k] < count && FirstOfComponent(orig, joined[k]) {
      assert joined[k] in joined;
    }
  }

  /**
   * `preprocess_graph`: pass one, then pass two. Returns the numbers of edges
   * erased and added (which the source prints).
   */
  method PreprocessGraph(g: ListGraph) returns (erased: nat, added: nat, ghost cleaned: seq<Edge>)
    requires g.nodeCount > 0 && InRange(g.edges, g.nodeCount)
    modifies g
    ensures g.nodeCount == old(g.nodeCount) && InRange(g.edges, g.nodeCount)
    ensures cleaned == ScanUpTo(old(g.edges), g.nodeCount)
    ensures erased == |old(g.edges)| - |cleaned|
    ensures forall x | x in cleaned :: x in old(g.edges)
    ensures forall x | FirstOfPair(old(g.edges), x) && !IsLoop(x) :: x in cleaned
    ensures LoopFree(g.edges) && ParallelFree(g.edges)
    ensures forall x | 0 <= x < g.nodeCount :: Connected(g.edges, 0, x)
    ensures |g.edges| == |cleaned| + added && g.edges[..|cleaned|] == cleaned
    ensures forall k | |cleaned| <= k < |g.edges| ::
              g.edges[k].u == 0 && g.edges[k].w == CONNECT_WEIGHT && FirstOfComponent(cleaned, g.edges[k].v)
    ensures added + 1 == ComponentCount(cleaned, g.nodeCount) == ComponentCount(old(g.edges), g.nodeCount)
  {
    erased := RemoveLoopsAndParallelEdges(g);
    cleaned := g.edges;
    ghost var joined;
    added, joined := ConnectToRoot(g);
    assert g.edges == cleaned + RootEdges(joined);
    forall k | |cleaned| <= k < |g.edges|
      ensures g.edges[k].u == 0 && g.edges[k].w == CONNECT_WEIGHT && FirstOfComponent(cleaned, g.edges[k].v)
    {
      assert g.edges[k] == RootEdges(joined)[k - |cleaned|];
    }
    ScanUpToSameComponents(old(g.edges), g.nodeCount, g.nodeCount);
  }
}
