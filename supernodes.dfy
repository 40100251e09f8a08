/**
 * The bookkeeping of the original Gomory-Hu construction
 * (`run_gomory_hu_2` in src/include/k_min_cut.hpp): a tree of supernodes,
 * each holding some of the graph's nodes, in which a supernode with at least
 * two members is split in two along a minimum cut. Supernodes are named by
 * the index at which they were created; erased ones stay in `members` but
 * leave `alive`.
 */
module SupernodeSpec {
  import opened Graphs
  import opened Components

  /**
   * What the minimum cut on the contracted graph reports: its value, the
   * graph nodes on the source side, and the other supernodes whose
   * contracted node lies on the source side.
   */
  datatype SplitCut = SplitCut(flow: int, side: set<int>, superSide: set<int>)

  /** The tree of supernodes: the members of each supernode, the live ones, and the tree edges. */
  datatype SuperTree = SuperTree(members: seq<seq<int>>, alive: set<int>, edges: seq<Edge>)

  predicate Increasing(s: seq<int>) {
    forall i, j | 0 <= i < j < |s| :: s[i] < s[j]
  }

  /** The members of `s` on the source side (`onSide`) or on the sink side (`!onSide`), in order. */
  function SideOf(s: seq<int>, side: set<int>, onSide: bool): (r: seq<int>)
    ensures forall x :: x in r <==> x in s && (x in side <==> onSide)
    ensures |r| <= |s|
    ensures Increasing(s) ==> Increasing(r)
  {
    if |s| == 0 then []
    else
      var prev := SideOf(s[..|s| - 1], side, onSide);
      var x := s[|s| - 1];
      assert Increasing(s) ==> forall y | y in prev :: y < x by {
        if Increasing(s) {
          forall y | y in prev ensures y < x {
            var i :| 0 <= i < |s| - 1 && s[..|s| - 1][i] == y;
          }
        }
      }
      if (x in side) == onSide then
        AppendIncreasing(prev, x);
        prev + [x]
      else prev
  }

  lemma {:induction false} AppendIncreasing(s: seq<int>, x: int)
    ensures Increasing(s) && (forall y | y in s :: y < x) ==> Increasing(s + [x])
  {
    if Increasing(s) && (forall y | y in s :: y < x) {
      forall i, j | 0 <= i < j < |s| + 1 ensures (s + [x])[i] < (s + [x])[j] {
        assert s[i] in s;
      }
    }
  }

  /** The two sides of a split together hold exactly the members that were split. */
  lemma {:induction false} SideOfSplits(s: seq<int>, side: set<int>)
    ensures multiset(SideOf(s, side, true)) + multiset(SideOf(s, side, false)) == multiset(s)
  {
    if |s| > 0 {
      SideOfSplits(s[..|s| - 1], side);
      assert s == s[..|s| - 1] + [s[|s| - 1]];
    }
  }

  /** The number of edges at `sn`. */
  function Degree(edges: seq<Edge>, sn: int): nat
  {
    if |edges| == 0 then 0
    else Degree(edges[..|edges| - 1], sn) + (if Incident(edges[|edges| - 1], sn) then 1 else 0)
  }

  /** The edges left after erasing supernode `sn` (and with it every edge at `sn`), in order. */
  function EraseNode(edges: seq<Edge>, sn: int): (r: seq<Edge>)
    ensures forall e | e in r :: e in edges && !Incident(e, sn)
    ensures |r| + Degree(edges, sn) == |edges|
  {
    if |edges| == 0 then []
    else
      var prev := EraseNode(edges[..|edges| - 1], sn);
      var e := edges[|edges| - 1];
      if Incident(e, sn) then prev else prev + [e]
  }

  /**
   * The edges that reattach each neighbour of `sn` to `sn1` when its
   * contracted node is on the source side and to `sn2` otherwise, with the
   * value of the edge they replace, in the order of `sn`'s edges.
   */
  function Reconnect(edges: seq<Edge>, sn: int, sn1: int, sn2: int, superSide: set<int>): (r: seq<Edge>)
    ensures |r| <= Degree(edges, sn)
  {
    if |edges| == 0 then []
    else
      var prev := Reconnect(edges[..|edges| - 1], sn, sn1, sn2, superSide);
      var e := edges[|edges| - 1];
      if !Incident(e, sn) then prev
      else
        var other := Other(e, sn);
        if other == sn1 || other == sn2 then prev
        else prev + [Edge(other, if other in superSide then sn1 else sn2, e.w)]
  }

  /**
   * Every edge at `sn` is replaced by one edge from the same neighbour to
   * `sn1` or `sn2`, with the same value, when no edge touches `sn1` or
   * `sn2` and none is a self-loop.
   */
  lemma {:induction false} ReconnectReplaces(edges: seq<Edge>, sn: int, sn1: int, sn2: int, superSide: set<int>)
    requires forall i | 0 <= i < |edges| ::
               !Incident(edges[i], sn1) && !Incident(edges[i], sn2) && !IsLoop(edges[i])
    ensures var r := Reconnect(edges, sn, sn1, sn2, superSide);
      |r| == Degree(edges, sn) &&
      forall i | 0 <= i < |r| ::
        r[i].u != sn && (r[i].v == sn1 || r[i].v == sn2) &&
        exists j | 0 <= j < |edges| :: Incident(edges[j], sn) && r[i].u == Other(edges[j], sn) && r[i].w == edges[j].w
  {
    if |edges| > 0 {
      var k := |edges| - 1;
      ReconnectReplaces(edges[..k], sn, sn1, sn2, superSide);
      var prev := Reconnect(edges[..k], sn, sn1, sn2, superSide);
      var r := Reconnect(edges, sn, sn1, sn2, superSide);
      forall i | 0 <= i < |r|
        ensures exists j | 0 <= j < |edges| :: Incident(edges[j], sn) && r[i].u == Other(edges[j], sn) && r[i].w == edges[j].w
      {
        if i < |prev| {
          var j :| 0 <= j < k && Incident(edges[..k][j], sn) && prev[i].u == Other(edges[..k][j], sn) && prev[i].w == edges[..k][j].w;
          assert edges[j] == edges[..k][j];
        } else {
          assert Incident(edges[k], sn);
        }
      }
    }
  }

  /** The tree after supernode `sn` is split along `cut` and erased. */
  function Split(t: SuperTree, sn: int, cut: SplitCut): (r: SuperTree)
    requires 0 <= sn < |t.members|
    ensures |r.members| == |t.members| + 2 && r.members[..|t.members|] == t.members
  {
    var sn1 := |t.members|;
    var sn2 := sn1 + 1;
    var m1 := SideOf(t.members[sn], cut.side, true);
    var m2 := SideOf(t.members[sn], cut.side, false);
    SuperTree(t.members + [m1, m2], t.alive - {sn} + {sn1, sn2}, SplitEdgeList(t.edges, sn, sn1, sn2, cut.flow, cut.superSide))
  }

  /**
   * The tree edges after `sn` is split into `sn1` and `sn2`: the edge
   * between the halves is added, each edge at `sn` is reattached to a half,
   * and `sn` is erased with its edges.
   */
  function SplitEdgeList(edges: seq<Edge>, sn: int, sn1: int, sn2: int, flow: int, superSide: set<int>): seq<Edge>
  {
    var es := edges + [Edge(sn1, sn2, flow)];
    EraseNode(es + Reconnect(es, sn, sn1, sn2, superSide), sn)
  }

  /** Which supernode each graph node belongs to after the split. */
  function SplitOwner(owner: seq<int>, sn: int, sn1: int, sn2: int, side: set<int>): (r: seq<int>)
    ensures |r| == |owner|
    ensures forall x | 0 <= x < |owner| :: r[x] == if owner[x] == sn then (if x in side then sn1 else sn2) else owner[x]
  {
    if |owner| == 0 then []
    else
      var x := |owner| - 1;
      SplitOwner(owner[..x], sn, sn1, sn2, side) + [if owner[x] == sn then (if x in side then sn1 else sn2) else owner[x]]
  }

  /** Live supernodes are ones already created, each with a non-empty increasing member list. */
  ghost predicate MembersOk(t: SuperTree) {
    forall sn | sn in t.alive :: 0 <= sn < |t.members| && |t.members[sn]| > 0 && Increasing(t.members[sn])
  }

  /**
   * `owner[x]` is the live supernode that holds graph node `x`, and live
   * supernodes hold nothing but graph nodes 0 .. n-1 they own.
   */
  ghost predicate Owns(t: SuperTree, owner: seq<int>, n: nat) {
    |owner| == n && OwnerHolds(t, owner, n) &&
    (forall sn, i | sn in t.alive && 0 <= sn < |t.members| && 0 <= i < |t.members[sn]| ::
       0 <= t.members[sn][i] < n && owner[t.members[sn][i]] == sn)
  }

  /** Every graph node 0 .. n-1 lies in the live supernode `owner` names. */
  ghost predicate OwnerHolds(t: SuperTree, owner: seq<int>, n: nat)
    requires |owner| == n
  {
    forall x | 0 <= x < n :: owner[x] in t.alive && 0 <= owner[x] < |t.members| && x in t.members[owner[x]]
  }

  /** Tree edges join two different live supernodes, and there is one edge fewer than supernodes. */
  ghost predicate EdgesOk(t: SuperTree) {
    (forall i | 0 <= i < |t.edges| :: t.edges[i].u in t.alive && t.edges[i].v in t.alive && !IsLoop(t.edges[i])) &&
    |t.edges| + 1 == |t.alive|
  }

  /**
   * The invariant of the construction: the live supernodes partition the
   * nodes 0 .. n-1 and are joined by one edge fewer than there are of them.
   */
  ghost predicate Consistent(t: SuperTree, owner: seq<int>, n: nat) {
    MembersOk(t) && Owns(t, owner, n) && EdgesOk(t)
  }

  /** The single supernode the construction starts from, holding every node. */
  lemma {:induction false} InitialConsistent(all: seq<int>, n: nat)
    requires n > 0 && all == seq(n, x => x)
    ensures Consistent(SuperTree([all], {0}, []), seq(n, x => 0), n)
  {
    var t := SuperTree([all], {0}, []);
    forall x | 0 <= x < n ensures x in t.members[0] {
      assert all[x] == x;
    }
    forall sn, i | sn in t.alive && 0 <= sn < 1 && 0 <= i < |t.members[sn]|
      ensures 0 <= t.members[sn][i] < n && seq(n, x => 0)[t.members[sn][i]] == sn
    {
      assert t.members[sn][i] == all[i] == i;
    }
  }

  /**
   * Splitting a supernode whose first member `s` is on the source side and
   * whose second member `t` is not distributes its members exactly over the
   * two new supernodes, `s` in the first and `t` in the second, each
   * non-empty and smaller than the one split.
   */
  lemma {:induction false} SplitSides(t: SuperTree, sn: int, cut: SplitCut)
    requires MembersOk(t) && sn in t.alive && |t.members[sn]| >= 2
    requires t.members[sn][0] in cut.side && t.members[sn][1] !in cut.side
    ensures var r := Split(t, sn, cut);
      var sn1 := |t.members|;
      var sn2 := sn1 + 1;
      MembersOk(r) && |r.alive| == |t.alive| + 1 &&
      multiset(r.members[sn1]) + multiset(r.members[sn2]) == multiset(t.members[sn]) &&
      t.members[sn][0] in r.members[sn1] && t.members[sn][1] in r.members[sn2] &&
      0 < |r.members[sn1]| < |t.members[sn]| && 0 < |r.members[sn2]| < |t.members[sn]|
  {
    var sn1 := |t.members|;
    var sn2 := sn1 + 1;
    var r := Split(t, sn, cut);
    SplitHalves(t.members[sn], cut.side);
    assert r.members[sn1] == SideOf(t.members[sn], cut.side, true);
    assert r.members[sn2] == SideOf(t.members[sn], cut.side, false);
    assert sn1 !in t.alive && sn2 !in t.alive;
    assert r.alive == t.alive - {sn} + {sn1, sn2};
    forall sn' | sn' in r.alive ensures 0 <= sn' < |r.members| && |r.members[sn']| > 0 && Increasing(r.members[sn']) {
      if sn' != sn1 && sn' != sn2 {
        assert r.members[sn'] == t.members[sn'];
      }
    }
  }

  /**
   * Splitting an increasing member list whose first member is on the source
   * side and whose second is not: both halves are increasing, non-empty and
   * shorter, and together they hold exactly the members split.
   */
  lemma {:induction false} SplitHalves(ms: seq<int>, side: set<int>)
    requires Increasing(ms) && |ms| >= 2 && ms[0] in side && ms[1] !in side
    ensures var m1 := SideOf(ms, side, true);
      var m2 := SideOf(ms, side, false);
      multiset(m1) + multiset(m2) == multiset(ms) && ms[0] in m1 && ms[1] in m2 &&
      0 < |m1| < |ms| && 0 < |m2| < |ms| && Increasing(m1) && Increasing(m2)
  {
    var m1 := SideOf(ms, side, true);
    var m2 := SideOf(ms, side, false);
    SideOfSplits(ms, side);
    assert ms[0] in m1 && ms[1] in m2;
    assert |m1| + |m2| == |ms| by {
      assert |multiset(m1)| + |multiset(m2)| == |multiset(ms)|;
    }
  }

  /** After a split the new owner map describes the new tree. */
  lemma {:induction false} SplitOwns(t: SuperTree, owner: seq<int>, n: nat, sn: int, cut: SplitCut)
    requires MembersOk(t) && Owns(t, owner, n) && sn in t.alive
    ensures Owns(Split(t, sn, cut), SplitOwner(owner, sn, |t.members|, |t.members| + 1, cut.side), n)
  {
    SplitOwnerHolds(t, owner, n, sn, cut);
    SplitMembersOwned(t, owner, n, sn, cut);
  }

  /** Every graph node lies in the supernode the new owner map names. */
  lemma {:induction false} SplitOwnerHolds(t: SuperTree, owner: seq<int>, n: nat, sn: int, cut: SplitCut)
    requires MembersOk(t) && Owns(t, owner, n) && sn in t.alive
    ensures OwnerHolds(Split(t, sn, cut), SplitOwner(owner, sn, |t.members|, |t.members| + 1, cut.side), n)
  {
    OwnerAfterSplit(t.members, t.alive, owner, n, sn, cut.side);
  }

  /** `SplitOwnerHolds`, on the members and live supernodes themselves. */
  lemma {:induction false} OwnerAfterSplit(members: seq<seq<int>>, alive: set<int>, owner: seq<int>, n: nat, sn: int, side: set<int>)
    requires |owner| == n && sn in alive && 0 <= sn < |members|
    requires forall x | 0 <= x < n :: owner[x] in alive && 0 <= owner[x] < |members| && x in members[owner[x]]
    ensures var sn1 := |members|;
      var members' := members + [SideOf(members[sn], side, true), SideOf(members[sn], side, false)];
      var alive' := alive - {sn} + {sn1, sn1 + 1};
      var owner' := SplitOwner(owner, sn, sn1, sn1 + 1, side);
      forall x | 0 <= x < n :: owner'[x] in alive' && 0 <= owner'[x] < |members'| && x in members'[owner'[x]]
  {
    var sn1 := |members|;
    var members' := members + [SideOf(members[sn], side, true), SideOf(members[sn], side, false)];
    var owner' := SplitOwner(owner, sn, sn1, sn1 + 1, side);
    forall x | 0 <= x < n
      ensures owner'[x] in alive - {sn} + {sn1, sn1 + 1} && 0 <= owner'[x] < |members'| && x in members'[owner'[x]]
    {
      if owner[x] != sn {
        assert members'[owner[x]] == members[owner[x]];
      }
    }
  }

  /** Every member of a live supernode is owned by it under the new owner map. */
  lemma {:induction false} SplitMembersOwned(t: SuperTree, owner: seq<int>, n: nat, sn: int, cut: SplitCut)
    requires MembersOk(t) && Owns(t, owner, n) && sn in t.alive
    ensures var r := Split(t, sn, cut);
      var owner' := SplitOwner(owner, sn, |t.members|, |t.members| + 1, cut.side);
      forall sn', i | sn' in r.alive && 0 <= sn' < |r.members| && 0 <= i < |r.members[sn']| ::
        0 <= r.members[sn'][i] < n && owner'[r.members[sn'][i]] == sn'
  {
    var sn1 := |t.members|;
    var sn2 := sn1 + 1;
    var r := Split(t, sn, cut);
    var owner' := SplitOwner(owner, sn, sn1, sn2, cut.side);
    var ms := t.members[sn];
    var members := t.members + [SideOf(ms, cut.side, true), SideOf(ms, cut.side, false)];
    var alive := t.alive - {sn} + {sn1, sn2};
    assert r.members == members && r.alive == alive;
    assert sn1 !in t.alive && sn2 !in t.alive;
    forall sn', i | sn' in alive && 0 <= sn' < |members| && 0 <= i < |members[sn']|
      ensures 0 <= members[sn'][i] < n && owner'[members[sn'][i]] == sn'
    {
      var x := members[sn'][i];
      if sn' == sn1 || sn' == sn2 {
        assert x in members[sn'];
        var j :| 0 <= j < |ms| && ms[j] == x;
        assert 0 <= x < n && owner[x] == sn;
      } else {
        assert members[sn'] == t.members[sn'];
      }
    }
  }

  /**
   * After a split the tree edges still join two different live supernodes,
   * and the tree has gained one edge: the one between the two halves. The
   * edges at the split supernode are replaced one for one.
   */
  lemma {:induction false} SplitEdges(t: SuperTree, sn: int, cut: SplitCut)
    requires MembersOk(t) && EdgesOk(t) && sn in t.alive
    ensures EdgesOk(Split(t, sn, cut))
  {
    var sn1 := |t.members|;
    assert sn1 !in t.alive && sn1 + 1 !in t.alive;
    assert |t.alive - {sn} + {sn1, sn1 + 1}| == |t.alive| + 1;
    SplitEdgeListOk(t.edges, t.alive, sn, sn1, sn1 + 1, cut.flow, cut.superSide);
  }

  /** The edges of the halves' tree: one more than before, each joining two different live supernodes. */
  lemma {:induction false} SplitEdgeListOk(edges: seq<Edge>, alive: set<int>, sn: int, sn1: int, sn2: int, flow: int, superSide: set<int>)
    requires sn in alive && sn1 !in alive && sn2 !in alive && sn1 != sn2
    requires forall i | 0 <= i < |edges| :: edges[i].u in alive && edges[i].v in alive && !IsLoop(edges[i])
    ensures var r := SplitEdgeList(edges, sn, sn1, sn2, flow, superSide);
      |r| == |edges| + 1 &&
      forall i | 0 <= i < |r| :: r[i].u in alive - {sn} + {sn1, sn2} && r[i].v in alive - {sn} + {sn1, sn2} && !IsLoop(r[i])
  {
    var es := edges + [Edge(sn1, sn2, flow)];
    var added := Reconnect(es, sn, sn1, sn2, superSide);
    ReconnectOfSplit(edges, sn, sn1, sn2, flow, superSide);
    var r := SplitEdgeList(edges, sn, sn1, sn2, flow, superSide);
    var es' := es + added;
    forall i | 0 <= i < |r| ensures r[i].u in alive - {sn} + {sn1, sn2} && r[i].v in alive - {sn} + {sn1, sn2} && !IsLoop(r[i]) {
      var e := r[i];
      assert e in r;
      assert e in es' && !Incident(e, sn);
      var k :| 0 <= k < |es'| && es'[k] == e;
      if k < |edges| {
        assert e == edges[k];
      } else if k > |edges| {
        assert e == added[k - |es|];
      }
    }
  }

  /** The reattached edges: one per edge at `sn`, from a neighbour of `sn` other than the halves to a half. */
  lemma {:induction false} ReconnectOfSplit(edges: seq<Edge>, sn: int, sn1: int, sn2: int, flow: int, superSide: set<int>)
    requires sn1 != sn2 && sn != sn1 && sn != sn2
    requires forall i | 0 <= i < |edges| :: !Incident(edges[i], sn1) && !Incident(edges[i], sn2) && !IsLoop(edges[i])
    ensures var es := edges + [Edge(sn1, sn2, flow)];
      var added := Reconnect(es, sn, sn1, sn2, superSide);
      |added| == Degree(es, sn) && Degree(es + added, sn) == Degree(es, sn) &&
      forall i | 0 <= i < |added| ::
        added[i].u != sn && (added[i].v == sn1 || added[i].v == sn2) &&
        exists j | 0 <= j < |edges| :: Incident(edges[j], sn) && added[i].u == Other(edges[j], sn)
  {
    var es := edges + [Edge(sn1, sn2, flow)];
    assert es[..|es| - 1] == edges;
    ReconnectReplaces(edges, sn, sn1, sn2, superSide);
    DegreeOfUntouched(es, Reconnect(es, sn, sn1, sn2, superSide), sn);
  }

  /** Splitting keeps the tree consistent and adds one supernode. */
  lemma {:induction false} SplitConsistent(t: SuperTree, owner: seq<int>, n: nat, sn: int, cut: SplitCut)
    requires Consistent(t, owner, n) && sn in t.alive && |t.members[sn]| >= 2
    requires t.members[sn][0] in cut.side && t.members[sn][1] !in cut.side
    ensures Consistent(Split(t, sn, cut), SplitOwner(owner, sn, |t.members|, |t.members| + 1, cut.side), n)
    ensures |Split(t, sn, cut).alive| == |t.alive| + 1
  {
    SplitSides(t, sn, cut);
    SplitOwns(t, owner, n, sn, cut);
    SplitEdges(t, sn, cut);
  }

  /** Appending edges none of which touches `sn` leaves the degree of `sn` alone. */
  lemma {:induction false} DegreeOfUntouched(es: seq<Edge>, more: seq<Edge>, sn: int)
    requires forall i | 0 <= i < |more| :: !Incident(more[i], sn)
    ensures Degree(es + more, sn) == Degree(es, sn)
  {
    if |more| > 0 {
      var k := |more| - 1;
      assert (es + more)[..|es + more| - 1] == es + more[..k];
      DegreeOfUntouched(es, more[..k], sn);
    } else {
      assert es + more == es;
    }
  }

  /** The supernodes that hold some node are at most as many as the nodes. */
  lemma {:induction false} ImageSize(owner: seq<int>, n: nat)
    requires n <= |owner|
    ensures |set x | 0 <= x < n :: owner[x]| <= n
  {
    if n > 0 {
      ImageSize(owner, n - 1);
      assert (set x | 0 <= x < n :: owner[x]) == (set x | 0 <= x < n - 1 :: owner[x]) + {owner[n - 1]};
    }
  }

  /** A consistent tree has at most one supernode per graph node. */
  lemma {:induction false} AliveBound(t: SuperTree, owner: seq<int>, n: nat)
    requires Consistent(t, owner, n)
    ensures |t.alive| <= n
  {
    forall sn | sn in t.alive ensures sn in (set x | 0 <= x < n :: owner[x]) {
      var x := t.members[sn][0];
      assert 0 <= x < n && owner[x] == sn;
    }
    ImageSize(owner, n);
    SubsetSize(t.alive, set x | 0 <= x < n :: owner[x]);
  }

  /**
   * The work stack holds, once each, exactly the live supernodes that still
   * have more than one member.
   */
  ghost predicate StackOk(t: SuperTree, stack: seq<int>) {
    (forall i | 0 <= i < |stack| ::
       stack[i] in t.alive && 0 <= stack[i] < |t.members| && |t.members[stack[i]]| >= 2) &&
    Distinct(stack) &&
    (forall sn | sn in t.alive && 0 <= sn < |t.members| && |t.members[sn]| >= 2 :: sn in stack)
  }

  /** The stack after a split: each new supernode with more than one member is pushed, the first one first. */
  function PushHalves(base: seq<int>, r: SuperTree): seq<int>
    requires |r.members| >= 2
  {
    var sn1 := |r.members| - 2;
    var sn2 := sn1 + 1;
    base + (if |r.members[sn1]| > 1 then [sn1] else []) + (if |r.members[sn2]| > 1 then [sn2] else [])
  }

  /** The members and live supernodes after a split, and the bounds of the two halves. */
  lemma {:induction false} SplitShape(t: SuperTree, sn: int, cut: SplitCut)
    requires MembersOk(t) && sn in t.alive && |t.members[sn]| >= 2
    requires t.members[sn][0] in cut.side && t.members[sn][1] !in cut.side
    ensures var r := Split(t, sn, cut);
      r.alive == t.alive - {sn} + {|t.members|, |t.members| + 1} &&
      |t.members| !in t.alive && |t.members| + 1 !in t.alive &&
      |r.members| == |t.members| + 2 &&
      (forall x | 0 <= x < |t.members| :: r.members[x] == t.members[x]) &&
      MembersOk(r)
  {
    SplitSides(t, sn, cut);
  }

  /**
   * Popping the top supernode `sn` and pushing the halves that need it keeps
   * the stack right for a tree whose live supernodes are those of `t`
   * without `sn` and with the two halves.
   */
  lemma {:induction false} StackStep(t: SuperTree, r: SuperTree, stack: seq<int>)
    requires StackOk(t, stack) && |stack| > 0
    requires var sn := stack[|stack| - 1];
      r.alive == t.alive - {sn} + {|t.members|, |t.members| + 1} &&
      |t.members| !in t.alive && |t.members| + 1 !in t.alive &&
      |r.members| == |t.members| + 2 &&
      (forall x | 0 <= x < |t.members| :: r.members[x] == t.members[x])
    ensures StackOk(r, PushHalves(stack[..|stack| - 1], r))
  {
    var sn := stack[|stack| - 1];
    var base := stack[..|stack| - 1];
    var sn1 := |t.members|;
    var sn2 := sn1 + 1;
    assert stack == base + [sn];
    assert sn !in base;
    var st := PushHalves(base, r);
    forall i | 0 <= i < |st| ensures st[i] in r.alive && 0 <= st[i] < |r.members| && |r.members[st[i]]| >= 2 {
      if i < |base| {
        assert st[i] == base[i] && base[i] != sn;
        assert r.members[base[i]] == t.members[base[i]];
      }
    }
    forall i, j | 0 <= i < j < |st| ensures st[i] != st[j] {
      if j >= |base| && i < |base| {
        assert base[i] in t.alive;
      }
    }
    forall sn' | sn' in r.alive && 0 <= sn' < |r.members| && |r.members[sn']| >= 2 ensures sn' in st {
      if sn' != sn1 && sn' != sn2 {
        assert r.members[sn'] == t.members[sn'];
        assert sn' in stack && sn' != sn;
        assert sn' in base;
      }
    }
  }

  /**
   * When every live supernode holds a single graph node, listing the live
   * supernodes in increasing order and taking each one's member lists every
   * graph node exactly once: there are as many live supernodes as nodes.
   */
  lemma {:induction false} SingletonLabels(t: SuperTree, owner: seq<int>, n: nat, sns: seq<int>, labels: seq<int>)
    requires Consistent(t, owner, n) && forall sn | sn in t.alive :: |t.members[sn]| == 1
    requires Increasing(sns) && (forall i | 0 <= i < |sns| :: sns[i] in t.alive) && (forall sn | sn in t.alive :: sn in sns)
    requires |labels| == |sns| && forall i | 0 <= i < |sns| :: labels[i] == t.members[sns[i]][0]
    ensures Distinct(labels) && (forall i | 0 <= i < |labels| :: 0 <= labels[i] < n)
    ensures forall x | 0 <= x < n :: x in labels
    ensures |labels| == n == |t.alive|
  {
    SingletonLabelsOwned(t, owner, n, sns, labels);
    SingletonLabelsCover(t, owner, n, sns, labels);
    assert (set x | x in labels) == Range(n);
    DistinctCard(labels);
    RangeSize(n);
    assert (set x | x in sns) == t.alive;
    DistinctCard(sns);
  }

  lemma {:induction false} SingletonLabelsOwned(t: SuperTree, owner: seq<int>, n: nat, sns: seq<int>, labels: seq<int>)
    requires Consistent(t, owner, n) && forall sn | sn in t.alive :: |t.members[sn]| == 1
    requires Increasing(sns) && (forall i | 0 <= i < |sns| :: sns[i] in t.alive)
    requires |labels| == |sns| && forall i | 0 <= i < |sns| :: labels[i] == t.members[sns[i]][0]
    ensures Distinct(labels) && (forall i | 0 <= i < |labels| :: 0 <= labels[i] < n)
  {
    forall i | 0 <= i < |labels| ensures 0 <= labels[i] < n && owner[labels[i]] == sns[i] {
      assert 0 <= 0 < |t.members[sns[i]]|;
    }
  }

  lemma {:induction false} SingletonLabelsCover(t: SuperTree, owner: seq<int>, n: nat, sns: seq<int>, labels: seq<int>)
    requires Consistent(t, owner, n) && forall sn | sn in t.alive :: |t.members[sn]| == 1
    requires (forall i | 0 <= i < |sns| :: sns[i] in t.alive) && forall sn | sn in t.alive :: sn in sns
    requires |labels| == |sns| && forall i | 0 <= i < |sns| :: labels[i] == t.members[sns[i]][0]
    ensures forall x | 0 <= x < n :: x in labels
  {
    forall x | 0 <= x < n ensures x in labels {
      var sn := owner[x];
      assert x in t.members[sn];
      var j :| 0 <= j < |t.members[sn]| && t.members[sn][j] == x;
      var i :| 0 <= i < |sns| && sns[i] == sn;
      assert labels[i] == x;
    }
  }

  // ---------------------------------------------------------------------------
  // The supernodes stay connected, and edge values come from cuts
  // ---------------------------------------------------------------------------

  /** Every two live supernodes are joined by a path of tree edges. */
  ghost predicate AliveConnected(t: SuperTree) {
    forall a, b | a in t.alive && b in t.alive :: Connected(t.edges, a, b)
  }

  /** Erasing a supernode keeps every edge that does not touch it. */
  lemma {:induction false} EraseNodeKeeps(edges: seq<Edge>, sn: int, e: Edge)
    requires e in edges && !Incident(e, sn)
    ensures e in EraseNode(edges, sn)
  {
    var k := |edges| - 1;
    if e != edges[k] {
      assert e in edges[..k];
      EraseNodeKeeps(edges[..k], sn, e);
    }
  }

  /** Every edge at `sn` to a supernode other than the halves is reattached to one of the halves. */
  lemma {:induction false} ReconnectCovers(edges: seq<Edge>, sn: int, sn1: int, sn2: int, superSide: set<int>, j: nat)
    returns (x: Edge)
    requires j < |edges| && Incident(edges[j], sn)
    requires Other(edges[j], sn) != sn1 && Other(edges[j], sn) != sn2
    ensures x in Reconnect(edges, sn, sn1, sn2, superSide)
    ensures x.u == Other(edges[j], sn) && (x.v == sn1 || x.v == sn2)
  {
    var k := |edges| - 1;
    if j < k {
      x := ReconnectCovers(edges[..k], sn, sn1, sn2, superSide, j);
    } else {
      var other := Other(edges[k], sn);
      x := Edge(other, if other in superSide then sn1 else sn2, edges[k].w);
    }
  }

  /**
   * Where a supernode ends up after the split of `sn`: in the first half if
   * it was `sn`, else itself.
   */
  function Moved(x: int, sn: int, sn1: int): int {
    if x == sn then sn1 else x
  }

  /** The two halves are joined by the edge between them. */
  lemma {:induction false} HalvesJoined(edges: seq<Edge>, sn: int, sn1: int, sn2: int, flow: int, superSide: set<int>)
    requires sn != sn1 && sn != sn2
    ensures Connected(SplitEdgeList(edges, sn, sn1, sn2, flow, superSide), sn1, sn2)
    ensures Connected(SplitEdgeList(edges, sn, sn1, sn2, flow, superSide), sn2, sn1)
  {
    var es := edges + [Edge(sn1, sn2, flow)];
    var all := es + Reconnect(es, sn, sn1, sn2, superSide);
    var r := SplitEdgeList(edges, sn, sn1, sn2, flow, superSide);
    var half := Edge(sn1, sn2, flow);
    assert all[|edges|] == half;
    EraseNodeKeeps(all, sn, half);
    var h :| 0 <= h < |r| && r[h] == half;
    assert Joins(r[h], sn1, sn2) && Joins(r[h], sn2, sn1);
    ConnectedRefl(r, sn1);
    ConnectedStep(r, sn1, sn1, sn2);
    ConnectedRefl(r, sn2);
    ConnectedStep(r, sn2, sn2, sn1);
  }

  /** An edge of `all` that does not touch `sn` gives adjacency after `sn` is erased. */
  lemma {:induction false} KeptAdjacent(all: seq<Edge>, sn: int, e: Edge, a: int, b: int)
    requires e in all && !Incident(e, sn) && Joins(e, a, b)
    ensures Connected(EraseNode(all, sn), a, b)
  {
    var r := EraseNode(all, sn);
    EraseNodeKeeps(all, sn, e);
    var m :| 0 <= m < |r| && r[m] == e;
    assert Joins(r[m], a, b);
    ConnectedRefl(r, a);
    ConnectedStep(r, a, a, b);
  }

  /** An edge at `sn` to `y` is reattached: `y` reaches the first half after the split. */
  lemma {:induction false} ReattachedReaches(edges: seq<Edge>, sn: int, sn1: int, sn2: int, flow: int, superSide: set<int>, j: nat)
    requires sn != sn1 && sn != sn2 && j < |edges| && Incident(edges[j], sn) && !IsLoop(edges[j])
    requires Other(edges[j], sn) != sn1 && Other(edges[j], sn) != sn2
    ensures Connected(SplitEdgeList(edges, sn, sn1, sn2, flow, superSide), Other(edges[j], sn), sn1)
  {
    var es := edges + [Edge(sn1, sn2, flow)];
    var added := Reconnect(es, sn, sn1, sn2, superSide);
    var r := SplitEdgeList(edges, sn, sn1, sn2, flow, superSide);
    var y := Other(edges[j], sn);
    assert es[j] == edges[j];
    var x := ReconnectCovers(es, sn, sn1, sn2, superSide, j);
    assert y != sn;
    KeptAdjacent(es + added, sn, x, y, x.v);
    if x.v == sn2 {
      HalvesJoined(edges, sn, sn1, sn2, flow, superSide);
      ConnectedTrans(r, y, sn2, sn1);
    }
  }

  /** Two supernodes joined before the split are connected after it, `sn` standing for its halves. */
  lemma {:induction false} SplitListKeepsAdjacent(edges: seq<Edge>, alive: set<int>, sn: int, sn1: int, sn2: int, flow: int, superSide: set<int>, a: int, b: int)
    requires sn in alive && sn1 !in alive && sn2 !in alive
    requires forall i | 0 <= i < |edges| :: edges[i].u in alive && edges[i].v in alive && !IsLoop(edges[i])
    requires Adjacent(edges, a, b)
    ensures Connected(SplitEdgeList(edges, sn, sn1, sn2, flow, superSide), Moved(a, sn, sn1), Moved(b, sn, sn1))
  {
    var es := edges + [Edge(sn1, sn2, flow)];
    var all := es + Reconnect(es, sn, sn1, sn2, superSide);
    var r := SplitEdgeList(edges, sn, sn1, sn2, flow, superSide);
    var j :| 0 <= j < |edges| && Joins(edges[j], a, b);
    var e := edges[j];
    if !Incident(e, sn) {
      assert all[j] == e;
      KeptAdjacent(all, sn, e, a, b);
    } else {
      ReattachedReaches(edges, sn, sn1, sn2, flow, superSide, j);
      if a == sn {
        ConnectedSym(r, b, sn1);
      }
    }
  }

  /** A path before the split gives a path after it, `sn` standing for its halves. */
  lemma {:induction false} SplitListKeepsConnected(edges: seq<Edge>, alive: set<int>, sn: int, sn1: int, sn2: int, flow: int, superSide: set<int>, a: int, b: int)
    requires sn in alive && sn1 !in alive && sn2 !in alive
    requires forall i | 0 <= i < |edges| :: edges[i].u in alive && edges[i].v in alive && !IsLoop(edges[i])
    requires Connected(edges, a, b)
    ensures Connected(SplitEdgeList(edges, sn, sn1, sn2, flow, superSide), Moved(a, sn, sn1), Moved(b, sn, sn1))
  {
    var r := SplitEdgeList(edges, sn, sn1, sn2, flow, superSide);
    var p :| IsPath(edges, p) && |p| > 0 && p[0] == a && p[|p| - 1] == b;
    ConnectedRefl(r, Moved(a, sn, sn1));
    var k := 0;
    while k < |p| - 1
      invariant 0 <= k <= |p| - 1 && Connected(r, Moved(a, sn, sn1), Moved(p[k], sn, sn1))
    {
      SplitListKeepsAdjacent(edges, alive, sn, sn1, sn2, flow, superSide, p[k], p[k + 1]);
      ConnectedTrans(r, Moved(a, sn, sn1), Moved(p[k], sn, sn1), Moved(p[k + 1], sn, sn1));
      k := k + 1;
    }
  }

  /** Splitting `sn` keeps every two live supernodes connected, the halves taking the place of `sn`. */
  lemma {:induction false} SplitListAliveConnected(edges: seq<Edge>, alive: set<int>, sn: int, sn1: int, sn2: int, flow: int, superSide: set<int>)
    requires sn in alive && sn1 !in alive && sn2 !in alive && sn1 != sn2
    requires forall i | 0 <= i < |edges| :: edges[i].u in alive && edges[i].v in alive && !IsLoop(edges[i])
    requires forall a, b | a in alive && b in alive :: Connected(edges, a, b)
    ensures forall a, b | a in alive - {sn} + {sn1, sn2} && b in alive - {sn} + {sn1, sn2} ::
      Connected(SplitEdgeList(edges, sn, sn1, sn2, flow, superSide), a, b)
  {
    var r := SplitEdgeList(edges, sn, sn1, sn2, flow, superSide);
    HalvesJoined(edges, sn, sn1, sn2, flow, superSide);
    forall a, b | a in alive - {sn} + {sn1, sn2} && b in alive - {sn} + {sn1, sn2} ensures Connected(r, a, b) {
      var a0 := if a == sn1 || a == sn2 then sn else a;
      var b0 := if b == sn1 || b == sn2 then sn else b;
      SplitListKeepsConnected(edges, alive, sn, sn1, sn2, flow, superSide, a0, b0);
      if a == sn2 {
        ConnectedTrans(r, sn2, sn1, Moved(b0, sn, sn1));
      }
      if b == sn2 {
        ConnectedTrans(r, a, sn1, sn2);
      }
    }
  }

  /** Splitting keeps the live supernodes connected. */
  lemma {:induction false} SplitAliveConnected(t: SuperTree, sn: int, cut: SplitCut)
    requires EdgesOk(t) && MembersOk(t) && sn in t.alive && AliveConnected(t)
    ensures AliveConnected(Split(t, sn, cut))
  {
    var sn1 := |t.members|;
    var r := Split(t, sn, cut);
    assert sn1 !in t.alive && sn1 + 1 !in t.alive;
    assert r.alive == t.alive - {sn} + {sn1, sn1 + 1};
    assert r.edges == SplitEdgeList(t.edges, sn, sn1, sn1 + 1, cut.flow, cut.superSide);
    SplitListAliveConnected(t.edges, t.alive, sn, sn1, sn1 + 1, cut.flow, cut.superSide);
  }

  /**
   * Every edge value after a split is the flow of this cut or the value of
   * an edge before it: reattached edges keep the value of the edge they
   * replace.
   */
  lemma {:induction false} SplitListValues(edges: seq<Edge>, sn: int, sn1: int, sn2: int, flow: int, superSide: set<int>, flows: set<int>)
    requires sn1 != sn2 && sn != sn1 && sn != sn2
    requires forall i | 0 <= i < |edges| :: !Incident(edges[i], sn1) && !Incident(edges[i], sn2) && !IsLoop(edges[i])
    requires forall i | 0 <= i < |edges| :: edges[i].w in flows
    ensures var r := SplitEdgeList(edges, sn, sn1, sn2, flow, superSide);
      forall i | 0 <= i < |r| :: r[i].w in flows + {flow}
  {
    var es := edges + [Edge(sn1, sn2, flow)];
    var added := Reconnect(es, sn, sn1, sn2, superSide);
    var all := es + added;
    var r := SplitEdgeList(edges, sn, sn1, sn2, flow, superSide);
    assert es[..|es| - 1] == edges;
    ReconnectReplaces(edges, sn, sn1, sn2, superSide);
    forall i | 0 <= i < |r| ensures r[i].w in flows + {flow} {
      assert r[i] in r;
      var k :| 0 <= k < |all| && all[k] == r[i];
      if k < |edges| {
        assert r[i] == edges[k];
      } else if k > |edges| {
        assert all[k] == added[k - |es|];
      }
    }
  }

  /** `SplitListValues` for a split of the tree. */
  lemma {:induction false} SplitEdgeValues(t: SuperTree, sn: int, cut: SplitCut, flows: set<int>)
    requires MembersOk(t) && EdgesOk(t) && sn in t.alive
    requires forall i | 0 <= i < |t.edges| :: t.edges[i].w in flows
    ensures var r := Split(t, sn, cut).edges;
      forall i | 0 <= i < |r| :: r[i].w in flows + {cut.flow}
  {
    var sn1 := |t.members|;
    assert sn1 !in t.alive && sn1 + 1 !in t.alive;
    SplitListValues(t.edges, sn, sn1, sn1 + 1, cut.flow, cut.superSide, flows);
  }

  /** The edges with their ends renamed through `pos`, values kept. */
  function Renamed(edges: seq<Edge>, pos: map<int, int>): (r: seq<Edge>)
    requires forall i | 0 <= i < |edges| :: edges[i].u in pos && edges[i].v in pos
    ensures |r| == |edges|
    ensures forall i | 0 <= i < |edges| :: r[i] == Edge(pos[edges[i].u], pos[edges[i].v], edges[i].w)
  {
    seq(|edges|, i requires 0 <= i < |edges| => Edge(pos[edges[i].u], pos[edges[i].v], edges[i].w))
  }

  /** Renaming the ends of the edges keeps what is connected, under the new names. */
  lemma {:induction false} RenamedConnected(edges: seq<Edge>, pos: map<int, int>, a: int, b: int)
    requires forall i | 0 <= i < |edges| :: edges[i].u in pos && edges[i].v in pos
    requires a in pos && Connected(edges, a, b)
    ensures b in pos && Connected(Renamed(edges, pos), pos[a], pos[b])
  {
    var r := Renamed(edges, pos);
    var p :| IsPath(edges, p) && |p| > 0 && p[0] == a && p[|p| - 1] == b;
    ConnectedRefl(r, pos[a]);
    var k := 0;
    while k < |p| - 1
      invariant 0 <= k <= |p| - 1 && p[k] in pos && Connected(r, pos[a], pos[p[k]])
    {
      var j :| 0 <= j < |edges| && Joins(edges[j], p[k], p[k + 1]);
      assert Joins(r[j], pos[p[k]], pos[p[k + 1]]);
      ConnectedStep(r, pos[a], pos[p[k]], pos[p[k + 1]]);
      k := k + 1;
    }
  }

  /** The flow values of the cuts computed. */
  function FlowsOf(cuts: seq<SplitCut>): set<int>
  {
    set c | c in cuts :: c.flow
  }

  /**
   * Numbering the live supernodes `0, 1, ...` in increasing order turns a
   * connected supernode tree into a spanning tree on those numbers.
   */
  lemma {:induction false} RenamedSpans(t: SuperTree, pos: map<int, int>, sns: seq<int>)
    requires AliveConnected(t)
    requires forall i | 0 <= i < |t.edges| :: t.edges[i].u in pos && t.edges[i].v in pos
    requires forall x | x in pos :: 0 <= pos[x] < |sns| && sns[pos[x]] == x
    requires forall i | 0 <= i < |sns| :: sns[i] in t.alive && sns[i] in pos
    requires Increasing(sns) && |t.edges| + 1 == |sns|
    ensures SpanningTree(Renamed(t.edges, pos), |sns|)
  {
    forall i | 0 <= i < |sns| ensures pos[sns[i]] == i {
      var j := pos[sns[i]];
      assert sns[j] == sns[i];
    }
    forall x | 0 <= x < |sns| ensures Connected(Renamed(t.edges, pos), 0, x) {
      RenamedConnected(t.edges, pos, sns[0], sns[x]);
    }
  }

  /**
   * One split keeps the live supernodes connected, and every edge value is
   * the flow of one of the cuts computed so far, the new one included.
   */
  lemma {:induction false} SplitKeepsTree(t: SuperTree, sn: int, cut: SplitCut, cuts: seq<SplitCut>)
    requires MembersOk(t) && EdgesOk(t) && sn in t.alive && AliveConnected(t)
    requires forall i | 0 <= i < |t.edges| :: t.edges[i].w in FlowsOf(cuts)
    ensures AliveConnected(Split(t, sn, cut))
    ensures var r := Split(t, sn, cut).edges;
      forall i | 0 <= i < |r| :: r[i].w in FlowsOf(cuts + [cut])
  {
    SplitAliveConnected(t, sn, cut);
    SplitEdgeValues(t, sn, cut, FlowsOf(cuts));
    assert FlowsOf(cuts + [cut]) == FlowsOf(cuts) + {cut.flow};
  }

  /** The renamed edges join the labels of the supernodes the original edges join, with the same values. */
  lemma {:induction false} RenamedLabels(t: SuperTree, pos: map<int, int>, sns: seq<int>, labels: seq<int>)
    requires forall i | 0 <= i < |t.edges| :: t.edges[i].u in pos && t.edges[i].v in pos
    requires forall x | x in pos :: 0 <= pos[x] < |sns| && sns[pos[x]] == x
    requires |labels| == |sns| && forall i | 0 <= i < |sns| ::
               0 <= sns[i] < |t.members| && |t.members[sns[i]]| > 0 && labels[i] == t.members[sns[i]][0]
    ensures var r := Renamed(t.edges, pos);
      |r| == |t.edges| && forall i | 0 <= i < |r| ::
        labels[r[i].u] == t.members[t.edges[i].u][0] &&
        labels[r[i].v] == t.members[t.edges[i].v][0] &&
        r[i].w == t.edges[i].w
  {
  }

  /**
   * Numbering the live singleton supernodes `0, 1, ...` in increasing order
   * and labelling each number with the single member gives every graph node
   * one label, and the renamed edges a spanning tree between the labels.
   */
  lemma {:induction false} CopiedTree(t: SuperTree, owner: seq<int>, n: nat, pos: map<int, int>, sns: seq<int>, labels: seq<int>)
    requires Consistent(t, owner, n) && AliveConnected(t)
    requires forall sn | sn in t.alive :: |t.members[sn]| == 1
    requires forall x :: x in pos <==> x in t.alive
    requires forall x | x in pos :: 0 <= pos[x] < |sns| && sns[pos[x]] == x
    requires |labels| == |sns| && forall i | 0 <= i < |sns| :: sns[i] in t.alive && labels[i] == t.members[sns[i]][0]
    requires Increasing(sns)
    ensures |labels| == n && Distinct(labels) && (forall i | 0 <= i < |labels| :: 0 <= labels[i] < n)
    ensures forall x | 0 <= x < n :: x in labels
    ensures SpanningTree(Renamed(t.edges, pos), n)
    ensures var r := Renamed(t.edges, pos);
      |r| == |t.edges| && forall i | 0 <= i < |r| ::
        labels[r[i].u] == t.members[t.edges[i].u][0] &&
        labels[r[i].v] == t.members[t.edges[i].v][0] &&
        r[i].w == t.edges[i].w
  {
    forall sn | sn in t.alive ensures sn in sns {
      assert sn in pos;
    }
    SingletonLabels(t, owner, n, sns, labels);
    RenamedSpans(t, pos, sns);
    RenamedLabels(t, pos, sns, labels);
  }
}
