/**
 * Gusfield's variant of the Gomory-Hu construction (`run_gomory_hu` in
 * src/include/k_min_cut.hpp), as functions on the predecessor map `p` and
 * the flow map `fl`. The minimum s-t cut is an oracle: for a source `s` and
 * a sink `t` it returns the maximum flow value and the set of nodes on the
 * source side of a minimum cut.
 */
module GusfieldSpec {
  import opened Text
  import opened Graphs
  import opened Components

  /** LEMON's `INVALID` node, the predecessor of the root. */
  const INVALID: int := -1
  /** The root is the first node of the iteration: node 0. */
  const ROOT: nat := 0

  /** What a minimum s-t cut computation reports. */
  datatype Cut = Cut(flow: int, side: set<int>)

  /** The predecessor map `p` and the min-flow map `fl`, node by node. */
  datatype Parents = Parents(p: seq<int>, fl: seq<int>)

  /**
   * Both maps cover the same nodes, the root's predecessor is `INVALID` and
   * every other node's predecessor is a node: the root is the only node
   * without a predecessor.
   */
  predicate WellFormed(st: Parents) {
    |st.p| == |st.fl| > 0 && st.p[ROOT] == INVALID &&
    forall i | 0 <= i < |st.p| && i != ROOT :: 0 <= st.p[i] < |st.p|
  }

  /**
   * The state before the first iteration: every node's predecessor is the
   * root, the root has none, and `fl[root]` is `INT_MAX`; the other flow
   * entries keep what the map held.
   */
  function Initial(fl0: seq<int>): (r: Parents)
    requires |fl0| > 0
    ensures WellFormed(r) && |r.p| == |fl0|
    ensures forall i | 0 <= i < |fl0| && i != ROOT :: r.p[i] == ROOT && r.fl[i] == fl0[i]
    ensures r.fl[ROOT] == INT_MAX
  {
    Parents(seq(|fl0|, i => if i == ROOT then INVALID else ROOT),
            seq(|fl0|, i requires 0 <= i < |fl0| => if i == ROOT then INT_MAX else fl0[i]))
  }

  /** Every node `i != s` on the source side whose predecessor is `t` is re-parented to `s`. */
  function Relabel(p: seq<int>, side: set<int>, s: int, t: int): seq<int>
  {
    seq(|p|, i requires 0 <= i < |p| => if i != s && i in side && p[i] == t then s else p[i])
  }

  /** Whether the iteration swaps `s` and `t`: after relabelling, `p[t]` lies on the source side. */
  predicate Swaps(p: seq<int>, cut: Cut, s: int)
    requires 0 <= s < |p| && 0 <= p[s] < |p|
  {
    var t := p[s];
    var p1 := Relabel(p, cut.side, s, t);
    p1[t] != INVALID && p1[t] in cut.side
  }

  /** One iteration of the main loop, for source `s` and sink `t := p[s]`. */
  function Step(st: Parents, s: nat, cut: Cut): (r: Parents)
    requires WellFormed(st) && ROOT < s < |st.p|
    ensures WellFormed(r) && |r.p| == |st.p|
    ensures r.fl[ROOT] == st.fl[ROOT]
  {
    var t := st.p[s];
    var p1 := Relabel(st.p, cut.side, s, t);
    var fl1 := st.fl[s := cut.flow];
    if Swaps(st.p, cut, s) then
      Parents(p1[s := p1[t]][t := s], fl1[s := fl1[t]][t := cut.flow])
    else
      Parents(p1, fl1)
  }

  /**
   * What one iteration changes: apart from `s` and `t`, only nodes on the
   * source side whose predecessor was `t` change, and only to `s`, and no
   * flow entry changes. Without the swap, `s` keeps `t` as its predecessor
   * and gets the cut value, and `t` keeps its flow and its relabelled
   * predecessor; with it, `s` takes over `t`'s predecessor and
   * flow and `t` hangs below `s` with the cut value.
   */
  lemma {:induction false} StepChanges(st: Parents, s: nat, cut: Cut)
    requires WellFormed(st) && ROOT < s < |st.p|
    ensures var t := st.p[s]; var r := Step(st, s, cut);
      (forall i | 0 <= i < |st.p| && i != s && i != t ::
         r.fl[i] == st.fl[i] &&
         (r.p[i] != st.p[i] ==> i in cut.side && st.p[i] == t && r.p[i] == s)) &&
      (!Swaps(st.p, cut, s) ==> r.p[s] == t && r.fl[s] == cut.flow) &&
      (!Swaps(st.p, cut, s) && s != t ==>
         r.fl[t] == st.fl[t] && r.p[t] == Relabel(st.p, cut.side, s, t)[t]) &&
      (Swaps(st.p, cut, s) && s != t ==>
         t != ROOT && r.p[t] == s && r.fl[t] == cut.flow && r.fl[s] == st.fl[t] &&
         r.p[s] == Relabel(st.p, cut.side, s, t)[t])
  {
  }

  /** The state after the iterations for the sources 0 .. k-1 (the root's is skipped). */
  function RunUpTo(fl0: seq<int>, minCut: (int, int) -> Cut, k: nat): (r: Parents)
    requires 0 < |fl0| && k <= |fl0|
    ensures WellFormed(r) && |r.p| == |fl0|
    ensures r.fl[ROOT] == INT_MAX
  {
    if k == 0 then Initial(fl0)
    else
      var prev := RunUpTo(fl0, minCut, k - 1);
      var s := k - 1;
      if s == ROOT then prev else Step(prev, s, minCut(s, prev.p[s]))
  }

  /**
   * The tree edges of the nodes below `k`: one edge `(n, p[n])` carrying
   * `fl[n]` per node that has a predecessor, in node order.
   */
  function TreeEdgesBelow(st: Parents, k: nat): (r: seq<Edge>)
    requires WellFormed(st) && k <= |st.p|
    ensures |r| == if k == 0 then 0 else k - 1
    ensures forall n | ROOT < n < k :: r[n - 1] == Edge(n, st.p[n], st.fl[n])
    ensures InRange(r, |st.p|)
  {
    if k == 0 then []
    else
      var n := k - 1;
      var prev := TreeEdgesBelow(st, n);
      if st.p[n] != INVALID then prev + [Edge(n, st.p[n], st.fl[n])] else prev
  }

  /** The Gomory-Hu tree as `run_gomory_hu` builds it: nodes - 1 edges, one per non-root node. */
  function TreeEdges(st: Parents): (r: seq<Edge>)
    requires WellFormed(st)
    ensures |r| == |st.p| - 1 && InRange(r, |st.p|)
    ensures forall n | ROOT < n < |st.p| :: r[n - 1] == Edge(n, st.p[n], st.fl[n])
  {
    TreeEdgesBelow(st, |st.p|)
  }

  // ---------------------------------------------------------------------------
  // The predecessor map stays a tree
  // ---------------------------------------------------------------------------

  /** Following predecessors from `x` reaches the root in exactly `d` steps. */
  ghost predicate ReachesRoot(p: seq<int>, x: int, d: nat)
    decreases d
  {
    0 <= x < |p| && if d == 0 then x == ROOT else x != ROOT && ReachesRoot(p, p[x], d - 1)
  }

  /** The chain of predecessors from `x` ends at the root. */
  ghost predicate HasDepth(p: seq<int>, x: int) {
    exists d: nat :: ReachesRoot(p, x, d)
  }

  /** Every node's chain of predecessors ends at the root: `p` is a tree hanging from the root. */
  ghost predicate Rooted(p: seq<int>) {
    forall x | 0 <= x < |p| :: HasDepth(p, x)
  }

  /** The chain from a node has one length. */
  lemma {:induction false} DepthUnique(p: seq<int>, x: int, d1: nat, d2: nat)
    requires ReachesRoot(p, x, d1) && ReachesRoot(p, x, d2)
    ensures d1 == d2
    decreases d1
  {
    if d1 > 0 && d2 > 0 {
      DepthUnique(p, p[x], d1 - 1, d2 - 1);
    }
  }

  /** In a tree no node other than the root is its own predecessor. */
  lemma {:induction false} NoSelfParent(p: seq<int>, x: int, d: nat)
    requires ReachesRoot(p, x, d) && x != ROOT
    ensures p[x] != x
  {
    if p[x] == x {
      DepthUnique(p, x, d, d - 1);
    }
  }

  lemma {:induction false} InitialRooted(fl0: seq<int>)
    requires |fl0| > 0
    ensures Rooted(Initial(fl0).p)
  {
    var p := Initial(fl0).p;
    forall x | 0 <= x < |p| ensures HasDepth(p, x) {
      if x == ROOT {
        assert ReachesRoot(p, x, 0);
      } else {
        assert ReachesRoot(p, p[x], 0);
        assert ReachesRoot(p, x, 1);
      }
    }
  }

  /**
   * What an iteration does to the predecessor map, as far as the tree shape
   * goes: `q` differs from `p` only in nodes re-parented from `t` to `s`, and
   * in `s` and `t` themselves; without the swap `s` stays below `t`, with it
   * `t` goes below `s` and `s` below `t`'s old predecessor.
   */
  ghost predicate ReParented(p: seq<int>, q: seq<int>, s: int, t: int, swap: bool) {
    |q| == |p| && 0 <= s < |p| && s != ROOT && t == p[s] && 0 <= t < |p| &&
    (forall y | 0 <= y < |p| && y != s && y != t :: q[y] == p[y] || (q[y] == s && p[y] == t)) &&
    (!swap ==> q[s] == t && q[t] == p[t]) &&
    (swap ==> t != ROOT && q[s] == p[t] && q[t] == s)
  }

  /**
   * After an iteration every node still reaches the root. A node re-parented
   * to `s` reaches it through `s`, whose chain goes on through `t` (or, after
   * a swap, through `t`'s old predecessor), and those chains are shorter.
   */
  lemma {:induction false} ReParentedReaches(p: seq<int>, q: seq<int>, s: int, t: int, swap: bool, ds: nat, x: int, d: nat)
    returns (e: nat)
    requires ReParented(p, q, s, t, swap) && ReachesRoot(p, s, ds)
    requires ReachesRoot(p, x, d)
    ensures ReachesRoot(q, x, e)
    decreases d
  {
    if x == ROOT {
      return 0;
    }
    var dt := ds - 1;
    assert ReachesRoot(p, t, dt);
    if x != s && x != t && q[x] == p[x] {
      var e1 := ReParentedReaches(p, q, s, t, swap, ds, p[x], d - 1);
      return e1 + 1;
    }
    // Here x is s, t or a node moved from t to s: its depth is dt, dt + 1 or dt + 1.
    if x == s {
      DepthUnique(p, s, d, ds);
    } else if x == t {
      DepthUnique(p, t, d, dt);
    } else {
      assert ReachesRoot(p, x, dt + 1);
      DepthUnique(p, x, d, dt + 1);
    }
    if !swap {
      // s hangs below t, and t keeps its chain
      var et := 0;
      if t != ROOT {
        NoSelfParent(p, t, dt);
        var e1 := ReParentedReaches(p, q, s, t, swap, ds, p[t], dt - 1);
        et := e1 + 1;
      }
      if x == t {
        return et;
      }
      assert ReachesRoot(q, s, et + 1);
      if x == s {
        return et + 1;
      }
      return et + 2;
    } else {
      // t hangs below s, and s takes over t's old predecessor
      var e1 := ReParentedReaches(p, q, s, t, swap, ds, p[t], dt - 1);
      assert ReachesRoot(q, s, e1 + 1);
      if x == s {
        return e1 + 1;
      }
      return e1 + 2;
    }
  }

  lemma {:induction false} StepRooted(st: Parents, s: nat, cut: Cut)
    requires WellFormed(st) && ROOT < s < |st.p| && Rooted(st.p)
    ensures Rooted(Step(st, s, cut).p)
  {
    var p := st.p;
    var t := p[s];
    var q := Step(st, s, cut).p;
    StepChanges(st, s, cut);
    assert HasDepth(p, s);
    var ds: nat :| ReachesRoot(p, s, ds);
    NoSelfParent(p, s, ds);
    if t != ROOT {
      assert ReachesRoot(p, t, ds - 1);
      NoSelfParent(p, t, ds - 1);
    }
    assert Relabel(p, cut.side, s, t)[t] == p[t];
    var swap := Swaps(p, cut, s);
    assert ReParented(p, q, s, t, swap);
    forall x | 0 <= x < |q| ensures HasDepth(q, x) {
      assert HasDepth(p, x);
      var d: nat :| ReachesRoot(p, x, d);
      var e := ReParentedReaches(p, q, s, t, swap, ds, x, d);
    }
  }

  /** Every iteration keeps the predecessor map a tree. */
  lemma {:induction false} RunUpToRooted(fl0: seq<int>, minCut: (int, int) -> Cut, k: nat)
    requires 0 < |fl0| && k <= |fl0|
    ensures Rooted(RunUpTo(fl0, minCut, k).p)
  {
    if k == 0 {
      InitialRooted(fl0);
    } else {
      var prev := RunUpTo(fl0, minCut, k - 1);
      RunUpToRooted(fl0, minCut, k - 1);
      if k - 1 != ROOT {
        StepRooted(prev, k - 1, minCut(k - 1, prev.p[k - 1]));
      }
    }
  }

  /** The edges of a predecessor tree connect every node to the root. */
  lemma {:induction false} TreeEdgesConnect(st: Parents, x: int, d: nat)
    requires WellFormed(st) && ReachesRoot(st.p, x, d)
    ensures Connected(TreeEdges(st), ROOT, x)
    decreases d
  {
    var E := TreeEdges(st);
    if d == 0 {
      ConnectedRefl(E, ROOT);
    } else {
      TreeEdgesConnect(st, st.p[x], d - 1);
      assert Joins(E[x - 1], st.p[x], x);
      ConnectedStep(E, ROOT, st.p[x], x);
    }
  }

  /** The Gomory-Hu tree of `run_gomory_hu` spans the graph. */
  lemma {:induction false} TreeEdgesSpan(st: Parents)
    requires WellFormed(st) && Rooted(st.p)
    ensures SpanningTree(TreeEdges(st), |st.p|)
  {
    forall x | 0 <= x < |st.p| ensures Connected(TreeEdges(st), 0, x) {
      assert HasDepth(st.p, x);
      var d: nat :| ReachesRoot(st.p, x, d);
      TreeEdgesConnect(st, x, d);
    }
  }

  /** The tree `run_gomory_hu` builds spans the graph: a spanning tree on the graph's nodes. */
  lemma {:induction false} GusfieldTreeSpans(fl0: seq<int>, minCut: (int, int) -> Cut)
    requires 0 < |fl0|
    ensures SpanningTree(TreeEdges(RunUpTo(fl0, minCut, |fl0|)), |fl0|)
  {
    RunUpToRooted(fl0, minCut, |fl0|);
    TreeEdgesSpan(RunUpTo(fl0, minCut, |fl0|));
  }
}
