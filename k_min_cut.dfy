/**
 * The `k_min_cut` class (src/include/k_min_cut.hpp): it holds the input
 * graph with its weights, the predecessor map `_p` and the flow map `_fl`
 * of Gusfield's construction, and the Gomory-Hu tree `_tree` with its flow
 * map and its node labels. The maximum-flow computations are oracles.
 */
module GomoryHu {
  import opened Text
  import opened Graphs
  import opened GusfieldSpec
  import opened SupernodeSpec
  import opened Lightest
  import opened Colouring
  import opened Components

  /** The largest `unsigned int`: what `k - 1` becomes for `k == 0`. */
  const UINT_MAX: int := 0xFFFF_FFFF

  /** The flow values on the edges, in edge order. */
  function Flows(edges: seq<Edge>): (r: seq<int>)
    ensures |r| == |edges| && forall i | 0 <= i < |edges| :: r[i] == edges[i].w
  {
    seq(|edges|, i requires 0 <= i < |edges| => edges[i].w)
  }

  /**
   * The distribution loop of `run_gomory_hu_2`: the members of the split
   * supernode on the source side go to the first new supernode and the
   * others to the second, each in the order they were held.
   */
  method Distribute(ms: seq<int>, side: set<int>) returns (m1: seq<int>, m2: seq<int>)
    ensures m1 == SideOf(ms, side, true) && m2 == SideOf(ms, side, false)
  {
    m1, m2 := [], [];
    for i := 0 to |ms|
      invariant m1 == SideOf(ms[..i], side, true) && m2 == SideOf(ms[..i], side, false)
    {
      assert ms[..i + 1][..i] == ms[..i];
      if ms[i] in side {
        m1 := m1 + [ms[i]];
      } else {
        m2 := m2 + [ms[i]];
      }
    }
    assert ms[..|ms|] == ms;
  }

  /**
   * The reconnection loop of `run_gomory_hu_2`: every neighbour of the split
   * supernode other than the two new ones is joined to the new supernode on
   * its side of the cut, with the value of the edge it was joined by.
   */
  method ReconnectNeighbours(edges: seq<Edge>, sn: int, sn1: int, sn2: int, superSide: set<int>) returns (added: seq<Edge>)
    ensures added == Reconnect(edges, sn, sn1, sn2, superSide)
  {
    added := [];
    for i := 0 to |edges|
      invariant added == Reconnect(edges[..i], sn, sn1, sn2, superSide)
    {
      assert edges[..i + 1][..i] == edges[..i];
      var e := edges[i];
      if Incident(e, sn) {
        var other := Other(e, sn);
        if other != sn1 && other != sn2 {
          added := added + [Edge(other, if other in superSide then sn1 else sn2, e.w)];
        }
      }
    }
    assert edges[..|edges|] == edges;
  }

  /**
   * One iteration of the splitting loop: pops supernode `sn`, lets two new
   * supernodes receive its members on either side of the cut, joins them
   * by an edge carrying the cut value, reconnects the neighbours of `sn` to
   * them, pushes each one that has more than one member, and erases `sn`
   * together with its edges.
   */
  method SplitTop(t: SuperTree, stack: seq<int>, cut: SplitCut) returns (next: SuperTree, stack': seq<int>)
    requires |stack| > 0 && 0 <= stack[|stack| - 1] < |t.members|
    ensures next == Split(t, stack[|stack| - 1], cut)
    ensures stack' == PushHalves(stack[..|stack| - 1], next)
  {
    var sn := stack[|stack| - 1];
    var base := stack[..|stack| - 1];
    var sn1 := |t.members|;
    var sn2 := sn1 + 1;
    var m1, m2 := Distribute(t.members[sn], cut.side);
    var edges := t.edges + [Edge(sn1, sn2, cut.flow)];
    var added := ReconnectNeighbours(edges, sn, sn1, sn2, cut.superSide);
    next := SuperTree(t.members + [m1, m2], t.alive - {sn} + {sn1, sn2}, EraseNode(edges + added, sn));
    stack' := PushNewHalves(base, next);
  }

  /** The pushes of the two new supernodes, each only when it has more than one member. */
  method PushNewHalves(base: seq<int>, r: SuperTree) returns (stack': seq<int>)
    requires |r.members| >= 2
    ensures stack' == PushHalves(base, r)
  {
    var sn1 := |r.members| - 2;
    var sn2 := sn1 + 1;
    PushHalvesCases(base, r, r.members[sn1], r.members[sn2]);
    stack' := base;
    if |r.members[sn1]| > 1 {
      stack' := stack' + [sn1];
    }
    if |r.members[sn2]| > 1 {
      stack' := stack' + [sn2];
    }
  }

  /** `PushHalves` as the two conditional pushes of `run_gomory_hu_2`. */
  lemma {:induction false} PushHalvesCases(base: seq<int>, r: SuperTree, m1: seq<int>, m2: seq<int>)
    requires |r.members| >= 2 && r.members[|r.members| - 2] == m1 && r.members[|r.members| - 1] == m2
    ensures var sn1 := |r.members| - 2;
      PushHalves(base, r) ==
        if |m1| > 1 && |m2| > 1 then base + [sn1] + [sn1 + 1]
        else if |m1| > 1 then base + [sn1]
        else if |m2| > 1 then base + [sn1 + 1]
        else base
  {
    var sn1 := |r.members| - 2;
    var a: seq<int> := if |m1| > 1 then [sn1] else [];
    var b: seq<int> := if |m2| > 1 then [sn1 + 1] else [];
    assert PushHalves(base, r) == base + a + b;
    if |m1| <= 1 {
      assert base + a == base;
    }
    if |m2| <= 1 {
      assert base + a + b == base + a;
    }
  }

  class KMinCut {
    /** The input graph `_graph` and its weights `_weights`, which the class only reads. */
    const nodeCount: nat
    const graphEdges: seq<Edge>
    /** The predecessor map `_p`. */
    const p: array<int>
    /** The min flow map `_fl`. */
    const fl: array<int>
    /** The Gomory-Hu tree `_tree` with its flows `_tree_flows`. */
    const tree: ListGraph
    /** The tree labels `_tree_labels`: the graph node each tree node stands for. */
    var treeLabels: seq<int>

    ghost predicate Valid()
      reads this, tree
    {
      p != fl && p.Length == nodeCount && fl.Length == nodeCount &&
      |treeLabels| == tree.nodeCount && InRange(tree.edges, tree.nodeCount)
    }

    constructor (n: nat, edges: seq<Edge>)
      ensures Valid() && fresh(p) && fresh(fl) && fresh(tree)
      ensures nodeCount == n && graphEdges == edges
      ensures tree.nodeCount == 0 && tree.edges == [] && treeLabels == []
      ensures forall i | 0 <= i < n :: fl[i] == 0
    {
      nodeCount := n;
      graphEdges := edges;
      p := new int[n](i => INVALID);
      fl := new int[n](i => 0);
      tree := new ListGraph();
      treeLabels := [];
    }

    /**
     * Gusfield's construction: initialises the maps, runs one iteration per
     * non-root node in node order, and builds the tree with one node per
     * graph node, labelled with its id, and one edge `(n, p[n])` carrying
     * `fl[n]` per node that has a predecessor.
     */
    method RunGomoryHu(minCut: (int, int) -> Cut)
      requires Valid() && nodeCount > 0
      modifies this, p, fl, tree
      ensures Valid()
      ensures Parents(p[..], fl[..]) == RunUpTo(old(fl[..]), minCut, nodeCount)
      ensures tree.nodeCount == nodeCount && treeLabels == seq(nodeCount, i => i)
      ensures tree.edges == TreeEdges(Parents(p[..], fl[..]))
      ensures SpanningTree(tree.edges, tree.nodeCount)
    {
      ghost var fl0 := fl[..];
      Initialise();
      IterateAll(fl0, minCut);
      BuildTree();
      assert |fl0| == nodeCount == tree.nodeCount;
      assert tree.edges == TreeEdges(RunUpTo(fl0, minCut, |fl0|));
      GusfieldTreeSpans(fl0, minCut);
    }

    /** The main loop: one iteration per non-root node, in node order. */
    method IterateAll(ghost fl0: seq<int>, minCut: (int, int) -> Cut)
      requires Valid() && nodeCount > 0 && |fl0| == nodeCount
      requires Parents(p[..], fl[..]) == RunUpTo(fl0, minCut, 0)
      modifies p, fl
      ensures Parents(p[..], fl[..]) == RunUpTo(fl0, minCut, nodeCount)
    {
      for s := 0 to nodeCount
        invariant Parents(p[..], fl[..]) == RunUpTo(fl0, minCut, s)
      {
        if s != ROOT {
          Iterate(s, minCut);
        }
      }
    }

    /** Every node's predecessor becomes the root, the root's becomes `INVALID`, and `fl[root]` becomes `INT_MAX`. */
    method Initialise()
      requires Valid() && nodeCount > 0
      modifies p, fl
      ensures Parents(p[..], fl[..]) == Initial(old(fl[..]))
    {
      ghost var fl0 := fl[..];
      for n := 0 to nodeCount
        invariant forall i | 0 <= i < n :: p[i] == ROOT
        invariant fl[..] == fl0
      {
        p[n] := ROOT;
      }
      p[ROOT] := INVALID;
      fl[ROOT] := INT_MAX;
    }

    /** One iteration of the main loop, for source `s` and sink `t := p[s]`. */
    method Iterate(s: nat, minCut: (int, int) -> Cut)
      requires Valid() && WellFormed(Parents(p[..], fl[..])) && ROOT < s < nodeCount
      modifies p, fl
      ensures Parents(p[..], fl[..]) == Step(old(Parents(p[..], fl[..])), s, minCut(s, old(p[s])))
    {
      ghost var prev := Parents(p[..], fl[..]);
      var t := p[s];
      var cut := minCut(s, t);
      fl[s] := cut.flow;
      RelabelSide(s, t, cut.side);
      assert p[..] == Relabel(prev.p, cut.side, s, t);
      if p[t] != INVALID && p[t] in cut.side {
        p[s] := p[t];
        p[t] := s;
        fl[s] := fl[t];
        fl[t] := cut.flow;
      }
    }

    /**
     * The splitting loop of `run_gomory_hu_2`: starting from one supernode
     * holding every node, pops a supernode, splits it along the minimum cut
     * between its first two members, and pushes each half that has more
     * than one member, until the stack is empty. `cutOf(t, sn)` is the
     * minimum cut computed on the graph contracted around supernode `sn`;
     * it puts the first member of `sn` on the source side and the second
     * on the sink side.
     */
    method SplitAll(cutOf: (SuperTree, int) -> SplitCut) returns (t: SuperTree, ghost owner: seq<int>, ghost cuts: seq<SplitCut>)
      requires nodeCount >= 2
      requires forall t': SuperTree, sn: int | 0 <= sn < |t'.members| && |t'.members[sn]| >= 2 ::
                 t'.members[sn][0] in cutOf(t', sn).side && t'.members[sn][1] !in cutOf(t', sn).side
      ensures Consistent(t, owner, nodeCount)
      ensures forall sn | sn in t.alive :: |t.members[sn]| == 1
      ensures AliveConnected(t)
      ensures |cuts| + 1 == |t.alive| && forall i | 0 <= i < |t.edges| :: t.edges[i].w in FlowsOf(cuts)
    {
      var all := seq(nodeCount, x => x);
      t := SuperTree([all], {0}, []);
      var stack := [0];
      owner := seq(nodeCount, x => 0);
      cuts := [];
      InitialConsistent(all, nodeCount);
      ConnectedRefl([], 0);
      while |stack| > 0
        invariant Consistent(t, owner, nodeCount) && |t.alive| <= nodeCount
        invariant StackOk(t, stack)
        invariant AliveConnected(t)
        invariant |cuts| + 1 == |t.alive| && forall i | 0 <= i < |t.edges| :: t.edges[i].w in FlowsOf(cuts)
        decreases nodeCount - |t.alive|
      {
        var sn := stack[|stack| - 1];
        var cut := cutOf(t, sn);
        SplitShape(t, sn, cut);
        var next, stack' := SplitTop(t, stack, cut);
        StackStep(t, next, stack);
        SplitConsistent(t, owner, nodeCount, sn, cut);
        SplitKeepsTree(t, sn, cut, cuts);
        cuts := cuts + [cut];
        owner := SplitOwner(owner, sn, |t.members|, |t.members| + 1, cut.side);
        AliveBound(next, owner, nodeCount);
        stack := stack';
        t := next;
      }
      forall sn | sn in t.alive ensures |t.members[sn]| == 1 {
        assert !(|t.members[sn]| >= 2);
      }
    }

    /**
     * The original Gomory-Hu construction: splits supernodes until each
     * holds one node, then copies the tree of supernodes into `_tree`.
     */
    method RunGomoryHu2(cutOf: (SuperTree, int) -> SplitCut) returns (ghost final: SuperTree, ghost cuts: seq<SplitCut>)
      requires Valid() && nodeCount >= 2
      requires forall t': SuperTree, sn: int | 0 <= sn < |t'.members| && |t'.members[sn]| >= 2 ::
                 t'.members[sn][0] in cutOf(t', sn).side && t'.members[sn][1] !in cutOf(t', sn).side
      modifies this, tree
      ensures Valid()
      ensures tree.nodeCount == nodeCount && |tree.edges| == nodeCount - 1
      ensures Distinct(treeLabels) && forall i | 0 <= i < |treeLabels| :: 0 <= treeLabels[i] < nodeCount
      ensures forall x | 0 <= x < nodeCount :: x in treeLabels
      ensures forall sn | sn in final.alive :: 0 <= sn < |final.members| && |final.members[sn]| == 1
      ensures forall i | 0 <= i < |final.edges| :: final.edges[i].u in final.alive && final.edges[i].v in final.alive
      ensures |tree.edges| == |final.edges| && forall i | 0 <= i < |tree.edges| ::
                treeLabels[tree.edges[i].u] == final.members[final.edges[i].u][0] &&
                treeLabels[tree.edges[i].v] == final.members[final.edges[i].v][0] &&
                tree.edges[i].w == final.edges[i].w
      ensures SpanningTree(tree.edges, tree.nodeCount)
      ensures |cuts| == nodeCount - 1 && forall i | 0 <= i < |tree.edges| :: tree.edges[i].w in FlowsOf(cuts)
    {
      var t;
      ghost var owner;
      t, owner, cuts := SplitAll(cutOf);
      final := t;
      CopySupernodeTree(t, owner);
    }

    /**
     * The last part of `run_gomory_hu_2`: one tree node per live supernode,
     * in order, labelled with the id of its single member, and one tree edge
     * per supernode edge with the same value.
     */
    method CopySupernodeTree(t: SuperTree, ghost owner: seq<int>)
      requires Valid() && Consistent(t, owner, nodeCount) && AliveConnected(t)
      requires forall sn | sn in t.alive :: |t.members[sn]| == 1
      modifies this, tree
      ensures Valid()
      ensures tree.nodeCount == nodeCount && |tree.edges| + 1 == nodeCount
      ensures SpanningTree(tree.edges, tree.nodeCount)
      ensures Distinct(treeLabels) && forall i | 0 <= i < |treeLabels| :: 0 <= treeLabels[i] < nodeCount
      ensures forall x | 0 <= x < nodeCount :: x in treeLabels
      ensures |tree.edges| == |t.edges| && forall i | 0 <= i < |tree.edges| ::
                treeLabels[tree.edges[i].u] == t.members[t.edges[i].u][0] &&
                treeLabels[tree.edges[i].v] == t.members[t.edges[i].v][0] &&
                tree.edges[i].w == t.edges[i].w
    {
      var pos, sns := AddSupernodes(t);
      AddSupernodeEdges(t, pos);
      assert tree.edges == Renamed(t.edges, pos);
      CopiedTree(t, owner, nodeCount, pos, sns, treeLabels);
    }

    /** One tree node per live supernode, in order, labelled with the id of its first member. */
    method AddSupernodes(t: SuperTree) returns (pos: map<int, int>, ghost sns: seq<int>)
      requires MembersOk(t)
      modifies this, tree
      ensures tree.nodeCount == |treeLabels| == |sns| && tree.edges == []
      ensures forall x :: x in pos <==> x in t.alive
      ensures forall x | x in pos :: 0 <= pos[x] < |sns| && sns[pos[x]] == x
      ensures forall i | 0 <= i < |sns| :: sns[i] in t.alive && treeLabels[i] == t.members[sns[i]][0]
      ensures Increasing(sns)
    {
      tree.Clear();
      treeLabels := [];
      pos := map[];
      sns := [];
      for s := 0 to |t.members|
        invariant tree.nodeCount == |treeLabels| == |sns| && tree.edges == []
        invariant forall x :: x in pos <==> x in t.alive && x < s
        invariant forall x | x in pos :: 0 <= pos[x] < |sns| && sns[pos[x]] == x
        invariant forall i | 0 <= i < |sns| :: sns[i] in t.alive && sns[i] < s && treeLabels[i] == t.members[sns[i]][0]
        invariant Increasing(sns)
      {
        if s in t.alive {
          var n := tree.AddNode();
          treeLabels := treeLabels + [t.members[s][0]];
          pos := pos[s := n];
          sns := sns + [s];
        }
      }
    }

    /** One tree edge per supernode edge, between the tree nodes of its ends, with the same value. */
    method AddSupernodeEdges(t: SuperTree, pos: map<int, int>)
      requires forall i | 0 <= i < |t.edges| :: t.edges[i].u in pos && t.edges[i].v in pos
      modifies tree
      ensures tree.nodeCount == old(tree.nodeCount)
      ensures tree.edges == old(tree.edges) + Renamed(t.edges, pos)
    {
      ghost var before := tree.edges;
      for i := 0 to |t.edges|
        invariant tree.nodeCount == old(tree.nodeCount)
        invariant tree.edges == before + seq(i, j requires 0 <= j < i =>
                    Edge(pos[t.edges[j].u], pos[t.edges[j].v], t.edges[j].w))
      {
        var e := tree.AddEdge(pos[t.edges[i].u], pos[t.edges[i].v], t.edges[i].w);
      }
      assert tree.edges[|before|..] == Renamed(t.edges, pos);
    }

    /**
     * The sum of the `k - 1` smallest tree flows, kept in a bounded max-heap
     * while the tree edges are visited. The flows are non-negative and the
     * sum of the `k - 1` smallest fits an `int`, so no partial sum overflows.
     */
    method MinKCutValue(k: nat) returns (sum: int, ghost heap: seq<int>)
      requires 1 <= k && k - 1 <= |tree.edges|
      requires forall i | 0 <= i < |tree.edges| :: 0 <= tree.edges[i].w
      requires forall h: seq<int> | IsLightest(multiset(h), multiset(Flows(tree.edges)), Identity, k - 1) ::
                 SeqSum(h) <= INT_MAX
      ensures IsLightest(multiset(heap), multiset(Flows(tree.edges)), Identity, k - 1)
      ensures sum == SeqSum(heap) && 0 <= sum <= INT_MAX
      ensures k == 1 ==> sum == 0
    {
      var nCuts := k - 1;
      var flows := Flows(tree.edges);
      var h := SelectLightest(flows, Identity, nCuts);
      heap := h;
      forall i | 0 <= i < |h| ensures 0 <= h[i] {
        assert h[i] in multiset(flows);
      }
      sum := 0;
      for i := 0 to nCuts
        invariant sum == SeqSum(h[..i])
      {
        assert h[..i + 1][..i] == h[..i];
        SeqSumPrefix(h, i + 1);
        sum := sum + h[i];
      }
      assert h[..nCuts] == h;
      SeqSumPrefix(h, nCuts);
    }

    /**
     * The map of a minimum k-cut: erases the `k - 1` lightest tree edges
     * (every edge when `k == 0`, for which the unsigned `k - 1` wraps round)
     * from a copy of the tree and colours the components left. `removed`
     * names the erased edges by position. When the tree spans the graph,
     * `k` colours are used for `1 <= k <= n`.
     */
    method MinKCutMap(k: nat, cutMap: array<int>) returns (ghost removed: set<nat>, ghost colours: nat, ghost starts: seq<int>)
      requires Valid() && k <= UINT_MAX && cutMap.Length == tree.nodeCount
      requires forall x | 0 <= x < cutMap.Length :: cutMap[x] == 0
      modifies cutMap
      ensures forall i | i in removed :: i < |tree.edges|
      ensures |removed| == Min(|tree.edges|, if k == 0 then UINT_MAX else k - 1)
      ensures |Without(tree.edges, removed)| + |removed| == |tree.edges|
      ensures forall i, j | i in removed && 0 <= j < |tree.edges| && j !in removed ::
                tree.edges[i].w <= tree.edges[j].w
      ensures colours == |starts| && ComponentColouring(Without(tree.edges, removed), cutMap[..], starts)
      ensures SpanningTree(tree.edges, tree.nodeCount) ==> colours == |removed| + 1
      ensures SpanningTree(tree.edges, tree.nodeCount) && 1 <= k <= tree.nodeCount ==> colours == k
    {
      var edges := tree.edges;
      var nCuts := if k == 0 then UINT_MAX else k - 1;
      var ids: seq<nat> := seq(|edges|, i => i);
      var h := SelectLightest(ids, (i: nat) => if i < |edges| then edges[i].w else 0, nCuts);
      var drop := set i | i in h;
      LightestIndices(edges, ids, h, nCuts, drop);
      removed := drop;
      var copy := new ListGraph.Copy(tree.nodeCount, edges);
      copy.Erase(drop);
      WithoutInRange(edges, drop, tree.nodeCount);
      WithoutLength(edges, drop);
      assert DropBelow(drop, |edges|) == drop;
      colours, starts := ColourComponents(copy, cutMap);
      if SpanningTree(edges, tree.nodeCount) {
        CutSpanningTree(edges, tree.nodeCount, drop);
      }
    }

    /** The relabelling loop: every node `i != s` on the source side whose predecessor is `t` gets `s`. */
    method RelabelSide(s: int, t: int, side: set<int>)
      requires p.Length == nodeCount
      modifies p
      ensures p[..] == Relabel(old(p[..]), side, s, t)
    {
      ghost var p0 := p[..];
      for i := 0 to nodeCount
        invariant forall j | 0 <= j < nodeCount :: p[j] == if j < i then Relabel(p0, side, s, t)[j] else p0[j]
      {
        if i != s && i in side && p[i] == t {
          p[i] := s;
        }
      }
    }

    /** Builds `_tree` from the maps: one node per graph node, one edge per node with a predecessor. */
    method BuildTree()
      requires Valid() && WellFormed(Parents(p[..], fl[..]))
      modifies this, tree
      ensures Valid()
      ensures tree.nodeCount == nodeCount && treeLabels == seq(nodeCount, i => i)
      ensures tree.edges == TreeEdges(Parents(p[..], fl[..]))
    {
      var count := nodeCount;
      ghost var st := Parents(p[..], fl[..]);
      tree.Clear();
      treeLabels := [];
      for n := 0 to count
        invariant tree.nodeCount == n && tree.edges == [] && treeLabels == seq(n, i => i)
      {
        var m := tree.AddNode();
        treeLabels := treeLabels + [n];
      }
      for n := 0 to count
        invariant tree.nodeCount == count && treeLabels == seq(count, i => i)
        invariant tree.edges == TreeEdgesBelow(st, n)
      {
        if p[n] != INVALID {
          var e := tree.AddEdge(n, p[n], fl[n]);
        }
      }
    }
  }

  /**
   * What the bounded heap keeps when it selects positions of the tree edges
   * by flow: distinct positions of edges, as many as asked for (or all of
   * them), none of whose flows is larger than that of an edge left out.
   */
  lemma {:induction false} LightestIndices(edges: seq<Edge>, ids: seq<nat>, h: seq<nat>, count: nat, drop: set<nat>)
    requires ids == seq(|edges|, i => i) && drop == set i | i in h
    requires |h| == Min(|ids|, count)
    requires IsLightest(multiset(h), multiset(ids), (i: nat) => if i < |edges| then edges[i].w else 0, |h|)
    ensures forall i | i in h :: i < |edges|
    ensures |drop| == Min(|edges|, count)
    ensures forall i, j | i in h && 0 <= j < |edges| && j !in h :: edges[i].w <= edges[j].w
  {
    var key := (i: nat) => if i < |edges| then edges[i].w else 0;
    assert Distinct(ids);
    DistinctMultiplicity(ids);
    forall x ensures multiset(h)[x] <= 1 {
      assert multiset(h)[x] <= multiset(ids)[x];
    }
    MultiplicityDistinct(h);
    DistinctCard(h);
    assert drop == set x: int | x in h;
    forall i | i in h ensures i < |edges| {
      assert i in multiset(ids);
    }
    forall i, j | i in h && 0 <= j < |edges| && j !in h ensures edges[i].w <= edges[j].w {
      assert ids[j] == j;
      assert j in multiset(ids) - multiset(h);
      assert key(i) <= key(j);
    }
  }
}
