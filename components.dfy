/**
 * How the number of connected components changes as edges come and go, and
 * what that means for a spanning tree: erasing `r` of its edges leaves
 * exactly `r + 1` components. This is the fact `min_k_cut_map`
 * (src/include/k_min_cut.hpp) relies on to colour a minimum k-cut with `k`
 * colours.
 */
module Components {
  import opened Graphs

  /** Every node of a graph with `n` nodes is reached from node 0, along `n - 1` edges. */
  ghost predicate SpanningTree(edges: seq<Edge>, n: nat) {
    n > 0 && |edges| + 1 == n && forall x | 0 <= x < n :: Connected(edges, 0, x)
  }

  /** Without edges a node reaches only itself. */
  lemma {:induction false} ConnectedEmpty(a: int, b: int)
    requires Connected([], a, b)
    ensures a == b
  {
    ClosedSetContains([], {a}, a, b);
  }

  /** Without edges every node is a component of its own. */
  lemma {:induction false} ComponentCountEmpty(n: nat)
    ensures ComponentCount([], n) == n
  {
    forall x | 0 <= x < n ensures FirstOfComponent([], x) {
      forall y | 0 <= y < x ensures !Connected([], y, x) {
        if Connected([], y, x) {
          ConnectedEmpty(y, x);
        }
      }
    }
    assert (set x | 0 <= x < n && FirstOfComponent([], x)) == Range(n);
    RangeSize(n);
  }

  /**
   * A path that may use the new edge `e` either avoids it, or runs from
   * `a` to one end of `e` and on from the other end to `b`.
   */
  ghost predicate ViaEdge(edges: seq<Edge>, e: Edge, a: int, b: int) {
    Connected(edges, a, b) ||
    (Connected(edges, a, e.u) && Connected(edges, e.v, b)) ||
    (Connected(edges, a, e.v) && Connected(edges, e.u, b))
  }

  /** One step along an edge of the graph keeps `ViaEdge`. */
  lemma {:induction false} ViaEdgeStep(edges: seq<Edge>, e: Edge, a: int, b: int, c: int)
    requires ViaEdge(edges, e, a, b) && Adjacent(edges, b, c)
    ensures ViaEdge(edges, e, a, c)
  {
    if Connected(edges, a, b) {
      ConnectedStep(edges, a, b, c);
    } else if Connected(edges, a, e.u) && Connected(edges, e.v, b) {
      ConnectedStep(edges, e.v, b, c);
    } else {
      ConnectedStep(edges, e.u, b, c);
    }
  }

  /** One step along the new edge keeps `ViaEdge`. */
  lemma {:induction false} ViaEdgeCross(edges: seq<Edge>, e: Edge, a: int, b: int, c: int)
    requires ViaEdge(edges, e, a, b) && Joins(e, b, c)
    ensures ViaEdge(edges, e, a, c)
  {
    ConnectedRefl(edges, c);
    if Connected(edges, a, b) {
    } else if Connected(edges, a, e.u) && Connected(edges, e.v, b) {
      if b == e.u {
        ConnectedTrans(edges, a, e.u, b);
      } else {
        ConnectedSym(edges, e.v, b);
        ConnectedTrans(edges, a, e.u, c);
      }
    } else {
      if b == e.v {
        ConnectedTrans(edges, a, e.v, b);
      } else {
        ConnectedSym(edges, e.u, b);
        ConnectedTrans(edges, a, e.v, c);
      }
    }
  }

  /** Adding an edge connects only what goes through it. */
  lemma {:induction false} ConnectedAddedEdge(edges: seq<Edge>, e: Edge, a: int, b: int)
    requires Connected(edges + [e], a, b)
    ensures ViaEdge(edges, e, a, b)
  {
    var E := edges + [e];
    var p :| IsPath(E, p) && |p| > 0 && p[0] == a && p[|p| - 1] == b;
    ConnectedRefl(edges, a);
    var k := 0;
    while k < |p| - 1
      invariant 0 <= k <= |p| - 1 && ViaEdge(edges, e, a, p[k])
    {
      var j :| 0 <= j < |E| && Joins(E[j], p[k], p[k + 1]);
      if j < |edges| {
        assert E[j] == edges[j];
        ViaEdgeStep(edges, e, a, p[k], p[k + 1]);
      } else {
        ViaEdgeCross(edges, e, a, p[k], p[k + 1]);
      }
      k := k + 1;
    }
  }

  /**
   * A node `x` that starts a component without `e` but not with it is
   * reached through `e` from a smaller node `y`: `y` is connected to one end
   * `c` of `e` and `x` to the other end `d`.
   */
  lemma {:induction false} MergedFirst(edges: seq<Edge>, e: Edge, x: int) returns (y: int, c: int, d: int)
    requires FirstOfComponent(edges, x) && !FirstOfComponent(edges + [e], x)
    ensures 0 <= y < x && ((c == e.u && d == e.v) || (c == e.v && d == e.u))
    ensures Connected(edges, y, c) && Connected(edges, d, x)
  {
    y :| 0 <= y < x && Connected(edges + [e], y, x);
    ConnectedAddedEdge(edges, e, y, x);
    if Connected(edges, y, e.u) && Connected(edges, e.v, x) {
      c, d := e.u, e.v;
    } else {
      c, d := e.v, e.u;
    }
  }

  /** A node that starts a component with the new edge started one without it. */
  lemma {:induction false} AddEdgeFirst(edges: seq<Edge>, e: Edge, x: int)
    requires FirstOfComponent(edges + [e], x)
    ensures FirstOfComponent(edges, x)
  {
    forall y | 0 <= y < x ensures !Connected(edges, y, x) {
      if Connected(edges, y, x) {
        ConnectedMono(edges, [e], y, x);
      }
    }
  }

  /** Adding one edge merges at most two components into one. */
  lemma {:induction false} AddEdgeCount(edges: seq<Edge>, e: Edge, n: nat)
    ensures ComponentCount(edges + [e], n) + 1 >= ComponentCount(edges, n)
  {
    var F := set x | 0 <= x < n && FirstOfComponent(edges, x);
    var G := set x | 0 <= x < n && FirstOfComponent(edges + [e], x);
    forall x | x in G ensures x in F {
      AddEdgeFirst(edges, e, x);
    }
    var D := F - G;
    AtMostOneMerged(edges, e, D);
    assert F == G + D;
  }

  /** A set of nodes each of which stops starting a component when `e` is added has at most one member. */
  lemma {:induction false} AtMostOneMerged(edges: seq<Edge>, e: Edge, D: set<int>)
    requires forall x | x in D :: FirstOfComponent(edges, x) && !FirstOfComponent(edges + [e], x)
    ensures |D| <= 1
  {
    if |D| >= 2 {
      if forall x :: x !in D { assert false; }
      var x1 :| x1 in D;
      assert |D - {x1}| == |D| - 1;
      if forall x :: x !in D - {x1} { assert false; }
      var x2 :| x2 in D - {x1};
      if x2 < x1 {
        x1, x2 := x2, x1;
      }
      MergedUnique(edges, e, x1, x2);
    }
  }

  /** At most one node stops starting a component when `e` is added. */
  lemma {:induction false} MergedUnique(edges: seq<Edge>, e: Edge, x1: int, x2: int)
    requires x1 <= x2
    requires FirstOfComponent(edges, x1) && !FirstOfComponent(edges + [e], x1)
    requires FirstOfComponent(edges, x2) && !FirstOfComponent(edges + [e], x2)
    ensures x1 == x2
  {
    if x1 < x2 {
      var y1, c1, d1 := MergedFirst(edges, e, x1);
      var y2, c2, d2 := MergedFirst(edges, e, x2);
      if d1 == d2 {
        ConnectedSym(edges, d1, x1);
        ConnectedTrans(edges, x1, d1, x2);
        assert false;
      } else {
        assert c1 == d2;
        ConnectedTrans(edges, y1, c1, x2);
        assert false;
      }
    }
  }

  /** Each edge lowers the number of components by at most one. */
  lemma {:induction false} CountLowerBound(edges: seq<Edge>, n: nat)
    ensures ComponentCount(edges, n) + |edges| >= n
  {
    if |edges| == 0 {
      ComponentCountEmpty(n);
      assert edges == [];
    } else {
      var k := |edges| - 1;
      CountLowerBound(edges[..k], n);
      AddEdgeCount(edges[..k], edges[k], n);
      assert edges[..k] + [edges[k]] == edges;
    }
  }

  /** The components depend only on which edges there are, not on their order or repetition. */
  lemma {:induction false} SameEdgesSameCount(edges: seq<Edge>, other: seq<Edge>, n: nat)
    requires forall x | x in edges :: x in other
    requires forall x | x in other :: x in edges
    ensures ComponentCount(edges, n) == ComponentCount(other, n)
  {
    forall a, b ensures Connected(edges, a, b) <==> Connected(other, a, b) {
      if Connected(edges, a, b) {
        ConnectedSub(edges, other, a, b);
      }
      if Connected(other, a, b) {
        ConnectedSub(other, edges, a, b);
      }
    }
    assert (set x | 0 <= x < n && FirstOfComponent(edges, x)) == (set x | 0 <= x < n && FirstOfComponent(other, x));
  }

  /** Adding `|more|` edges lowers the number of components by at most `|more|`. */
  lemma {:induction false} AppendCount(edges: seq<Edge>, more: seq<Edge>, n: nat)
    ensures ComponentCount(edges + more, n) + |more| >= ComponentCount(edges, n)
  {
    if |more| == 0 {
      assert edges + more == edges;
    } else {
      var k := |more| - 1;
      AppendCount(edges, more[..k], n);
      AddEdgeCount(edges + more[..k], more[k], n);
      assert (edges + more[..k]) + [more[k]] == edges + more;
    }
  }

  /** The edges at the positions of `drop`, in order: what `Without` leaves out. */
  function Picked(s: seq<Edge>, drop: set<nat>): (r: seq<Edge>)
    ensures |r| <= |s|
  {
    if |s| == 0 then []
    else Picked(s[..|s| - 1], drop) + (if |s| - 1 in drop then [s[|s| - 1]] else [])
  }

  /** What is erased and what is left make up the list again, one edge each. */
  lemma {:induction false} PickedSplits(s: seq<Edge>, drop: set<nat>)
    ensures |Picked(s, drop)| + |Without(s, drop)| == |s|
    ensures forall x | x in Picked(s, drop) :: x in s
    ensures forall x | x in Without(s, drop) :: x in s
    ensures forall x | x in s :: x in Picked(s, drop) || x in Without(s, drop)
  {
    if |s| > 0 {
      var k := |s| - 1;
      PickedSplits(s[..k], drop);
      assert s == s[..k] + [s[k]];
      forall x | x in s ensures x in Picked(s, drop) || x in Without(s, drop) {
        if x != s[k] {
          assert x in s[..k];
        }
      }
    }
  }

  /**
   * Erasing `r` edges of a spanning tree leaves `r + 1` components: at
   * least that many, since each of the `n - 1 - r` edges left merges at most
   * two; at most that many, since putting the `r` edges back gives the
   * single component of the tree.
   */
  lemma {:induction false} CutSpanningTree(edges: seq<Edge>, n: nat, drop: set<nat>)
    requires SpanningTree(edges, n)
    requires forall i | i in drop :: i < |edges|
    ensures ComponentCount(Without(edges, drop), n) == |drop| + 1
  {
    var left := Without(edges, drop);
    WithoutLength(edges, drop);
    assert DropBelow(drop, |edges|) == drop;
    CountLowerBound(left, n);
    TreeOneComponent(edges, n);
    var back := left + Picked(edges, drop);
    PickedSplits(edges, drop);
    SameEdgesSameCount(back, edges, n);
    AppendCount(left, Picked(edges, drop), n);
  }

  /** A spanning tree has one component. */
  lemma {:induction false} TreeOneComponent(edges: seq<Edge>, n: nat)
    requires SpanningTree(edges, n)
    ensures ComponentCount(edges, n) == 1
  {
    ConnectedRefl(edges, 0);
    forall x | 0 < x < n ensures !FirstOfComponent(edges, x) {
      assert Connected(edges, 0, x);
    }
    assert (set x | 0 <= x < n && FirstOfComponent(edges, x)) == {0};
  }
}
