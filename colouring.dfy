/**
 * The last part of `min_k_cut_map` (src/include/k_min_cut.hpp): colouring
 * the connected components of the tree left after the lightest edges are
 * erased. Nodes are visited in order; an uncoloured node opens a new colour,
 * and a depth-first search with an explicit stack gives that colour to every
 * node it reaches.
 */
module Colouring {
  import opened Graphs

  predicate Uncoloured(c: seq<int>, x: int) {
    0 <= x < |c| && c[x] == 0
  }

  /** The number of uncoloured nodes. */
  function ZeroCount(c: seq<int>): nat
  {
    if |c| == 0 then 0 else ZeroCount(c[..|c| - 1]) + (if c[|c| - 1] == 0 then 1 else 0)
  }

  lemma {:induction false} ZeroCountUpdate(c: seq<int>, i: nat, v: int)
    requires i < |c| && v != 0
    ensures c[i] == 0 ==> ZeroCount(c[i := v]) + 1 == ZeroCount(c)
    ensures c[i] != 0 ==> ZeroCount(c[i := v]) == ZeroCount(c)
  {
    var k := |c| - 1;
    if i < k {
      assert c[i := v][..k] == c[..k][i := v];
      ZeroCountUpdate(c[..k], i, v);
    } else {
      assert c[i := v][..k] == c[..k];
    }
  }

  /** The arcs out of `m` whose target is still uncoloured: what a visit of `m` pushes. */
  function ZeroArcs(edges: seq<Edge>, c: seq<int>, m: int): nat
  {
    if |edges| == 0 then 0
    else
      var e := edges[|edges| - 1];
      ZeroArcs(edges[..|edges| - 1], c, m)
        + (if e.u == m && Uncoloured(c, e.v) then 1 else 0)
        + (if e.v == m && Uncoloured(c, e.u) then 1 else 0)
  }

  /**
   * A stack entry for an uncoloured node weighs 1; one for a coloured node
   * weighs 1 more than what its next visit pushes. Visiting a coloured node
   * again lowers the total weight while the colouring stays the same.
   */
  function StackWeight(edges: seq<Edge>, c: seq<int>, stack: seq<int>): nat
  {
    if |stack| == 0 then 0
    else
      var x := stack[|stack| - 1];
      StackWeight(edges, c, stack[..|stack| - 1]) + (if Uncoloured(c, x) then 1 else 1 + ZeroArcs(edges, c, x))
  }

  lemma {:induction false} StackWeightOfUncoloured(edges: seq<Edge>, c: seq<int>, base: seq<int>, pushed: seq<int>)
    requires forall i | 0 <= i < |pushed| :: Uncoloured(c, pushed[i])
    ensures StackWeight(edges, c, base + pushed) == StackWeight(edges, c, base) + |pushed|
  {
    if |pushed| > 0 {
      var k := |pushed| - 1;
      assert (base + pushed)[..|base + pushed| - 1] == base + pushed[..k];
      StackWeightOfUncoloured(edges, c, base, pushed[..k]);
    } else {
      assert base + pushed == base;
    }
  }

  /** Every edge with one end of colour `colour` has its other end of that colour or on the stack. */
  ghost predicate Closed(edges: seq<Edge>, c: seq<int>, colour: int, stack: seq<int>)
    requires InRange(edges, |c|)
  {
    forall j | 0 <= j < |edges| ::
      (c[edges[j].u] == colour ==> c[edges[j].v] == colour || edges[j].v in stack) &&
      (c[edges[j].v] == colour ==> c[edges[j].u] == colour || edges[j].u in stack)
  }

  /**
   * The scan of `m`'s outgoing arcs (the `OutArcIt` loop): the neighbours
   * pushed onto the stack, in order. Every neighbour that is still
   * uncoloured is pushed, once per arc, and nothing else.
   */
  method UncolouredNeighbours(g: ListGraph, cutMap: array<int>, m: int) returns (pushed: seq<int>)
    requires InRange(g.edges, cutMap.Length)
    ensures |pushed| == ZeroArcs(g.edges, cutMap[..], m)
    ensures forall i | 0 <= i < |pushed| :: Uncoloured(cutMap[..], pushed[i]) && Adjacent(g.edges, m, pushed[i])
    ensures forall j | 0 <= j < |g.edges| ::
              (g.edges[j].u == m && Uncoloured(cutMap[..], g.edges[j].v) ==> g.edges[j].v in pushed) &&
              (g.edges[j].v == m && Uncoloured(cutMap[..], g.edges[j].u) ==> g.edges[j].u in pushed)
  {
    var edges := g.edges;
    ghost var c := cutMap[..];
    pushed := [];
    for j := 0 to |edges|
      invariant |pushed| == ZeroArcs(edges[..j], c, m)
      invariant forall i | 0 <= i < |pushed| :: Uncoloured(c, pushed[i]) && Adjacent(edges, m, pushed[i])
      invariant forall j' | 0 <= j' < j ::
                  (edges[j'].u == m && Uncoloured(c, edges[j'].v) ==> edges[j'].v in pushed) &&
                  (edges[j'].v == m && Uncoloured(c, edges[j'].u) ==> edges[j'].u in pushed)
    {
      var e := edges[j];
      assert edges[..j + 1][..j] == edges[..j];
      assert Joins(e, e.u, e.v) && Joins(e, e.v, e.u);
      if e.u == m && cutMap[e.v] == 0 {
        pushed := pushed + [e.v];
      }
      if e.v == m && cutMap[e.u] == 0 {
        pushed := pushed + [e.u];
      }
    }
    assert edges[..|edges|] == edges;
  }

  /**
   * Colouring `m` and pushing its uncoloured neighbours keeps every edge
   * closed, when every node connected to the search's start is uncoloured
   * or already of colour `colour`.
   */
  lemma {:induction false} VisitKeepsClosed(edges: seq<Edge>, c0: seq<int>, colour: int, base: seq<int>, m: int, pushed: seq<int>, n: int)
    requires InRange(edges, |c0|) && 0 <= m < |c0| && Connected(edges, n, m)
    requires Closed(edges, c0, colour, base + [m])
    requires forall x | 0 <= x < |c0| && Connected(edges, n, x) :: c0[x] == 0 || c0[x] == colour
    requires forall j | 0 <= j < |edges| ::
               (edges[j].u == m && Uncoloured(c0[m := colour], edges[j].v) ==> edges[j].v in pushed) &&
               (edges[j].v == m && Uncoloured(c0[m := colour], edges[j].u) ==> edges[j].u in pushed)
    ensures Closed(edges, c0[m := colour], colour, base + pushed)
  {
    var c := c0[m := colour];
    forall j | 0 <= j < |edges|
      ensures (c[edges[j].u] == colour ==> c[edges[j].v] == colour || edges[j].v in base + pushed)
      ensures (c[edges[j].v] == colour ==> c[edges[j].u] == colour || edges[j].u in base + pushed)
    {
      var e := edges[j];
      assert Joins(e, e.u, e.v) && Joins(e, e.v, e.u);
      if e.u == m {
        ConnectedStep(edges, n, m, e.v);
      }
      if e.v == m {
        ConnectedStep(edges, n, m, e.u);
      }
      if !Incident(e, m) {
        assert e.u in base + [m] ==> e.u in base;
        assert e.v in base + [m] ==> e.v in base;
      }
    }
  }

  /** `c` is the colouring `c0` with every node connected to `n` given `colour`. */
  ghost predicate Flooded(edges: seq<Edge>, c0: seq<int>, c: seq<int>, n: int, colour: int) {
    |c| == |c0| && forall x | 0 <= x < |c| :: c[x] == if Connected(edges, n, x) then colour else c0[x]
  }

  /**
   * The loop invariant of the search from `n`, on the colouring `c` that
   * started as `c0`: only nodes connected to `n` have changed, and to
   * `colour`; the stack holds nodes connected to `n`; `n` is coloured or
   * waiting; and every edge leaving a node of colour `colour` leads to a node
   * of that colour or on the stack.
   */
  ghost predicate FloodInvariant(edges: seq<Edge>, c0: seq<int>, c: seq<int>, colour: int, n: int, stack: seq<int>) {
    InRange(edges, |c|) && |c| == |c0| && 0 <= n < |c| &&
    (forall x | 0 <= x < |c| :: c[x] == c0[x] || (c[x] == colour && Connected(edges, n, x))) &&
    (forall i | 0 <= i < |stack| :: 0 <= stack[i] < |c| && Connected(edges, n, stack[i])) &&
    (c[n] == colour || n in stack) &&
    Closed(edges, c, colour, stack)
  }

  /** The search starts with `n` alone on the stack. */
  lemma {:induction false} FloodInit(edges: seq<Edge>, c0: seq<int>, colour: int, n: int)
    requires InRange(edges, |c0|) && 0 <= n < |c0|
    requires colour !in c0
    ensures FloodInvariant(edges, c0, c0, colour, n, [n])
  {
    ConnectedRefl(edges, n);
    forall j | 0 <= j < |edges| ensures c0[edges[j].u] != colour && c0[edges[j].v] != colour {
      assert c0[edges[j].u] in c0 && c0[edges[j].v] in c0;
    }
  }

  /**
   * One iteration: popping `m`, colouring it and pushing its uncoloured
   * neighbours keeps the invariant.
   */
  lemma {:induction false} FloodStep(edges: seq<Edge>, c0: seq<int>, c: seq<int>, colour: int, n: int,
                                     base: seq<int>, m: int, pushed: seq<int>)
    requires FloodInvariant(edges, c0, c, colour, n, base + [m]) && 0 <= m < |c|
    requires forall x | 0 <= x < |c0| && Connected(edges, n, x) :: c0[x] == 0
    requires forall i | 0 <= i < |pushed| :: Adjacent(edges, m, pushed[i])
    requires forall j | 0 <= j < |edges| ::
               (edges[j].u == m && Uncoloured(c[m := colour], edges[j].v) ==> edges[j].v in pushed) &&
               (edges[j].v == m && Uncoloured(c[m := colour], edges[j].u) ==> edges[j].u in pushed)
    ensures FloodInvariant(edges, c0, c[m := colour], colour, n, base + pushed)
    ensures c[m] == 0 || c[m] == colour
  {
    var c' := c[m := colour];
    var stack := base + [m];
    assert stack[|stack| - 1] == m && Connected(edges, n, m);
    assert forall i | 0 <= i < |base| :: base[i] == stack[i];
    forall i | 0 <= i < |pushed| ensures 0 <= pushed[i] < |c| && Connected(edges, n, pushed[i]) {
      ConnectedStep(edges, n, m, pushed[i]);
    }
    forall x | 0 <= x < |c| && Connected(edges, n, x) ensures c[x] == 0 || c[x] == colour {
      assert c[x] == c0[x] || c[x] == colour;
    }
    VisitKeepsClosed(edges, c, colour, base, m, pushed, n);
    if c'[n] != colour {
      assert n != m && n in stack;
      assert n in base;
      assert n in base + pushed;
    }
  }

  /**
   * One iteration either colours one more node or leaves the colouring
   * unchanged with a lighter stack: the search terminates.
   */
  lemma {:induction false} FloodStepLighter(edges: seq<Edge>, c: seq<int>, colour: int,
                                            base: seq<int>, m: int, pushed: seq<int>)
    requires 0 <= m < |c| && colour >= 1 && (c[m] == 0 || c[m] == colour)
    requires |pushed| == ZeroArcs(edges, c[m := colour], m)
    requires forall i | 0 <= i < |pushed| :: Uncoloured(c[m := colour], pushed[i])
    ensures ZeroCount(c[m := colour]) < ZeroCount(c) ||
            (ZeroCount(c[m := colour]) == ZeroCount(c) &&
             StackWeight(edges, c[m := colour], base + pushed) < StackWeight(edges, c, base + [m]))
  {
    ZeroCountUpdate(c, m, colour);
    if c[m] != 0 {
      var stack := base + [m];
      assert c[m := colour] == c;
      assert stack[..|stack| - 1] == base;
      StackWeightOfUncoloured(edges, c, base, pushed);
    }
  }

  /** When the stack is empty, exactly the nodes connected to `n` have been given `colour`. */
  lemma {:induction false} FloodDone(edges: seq<Edge>, c0: seq<int>, c: seq<int>, colour: int, n: int)
    requires FloodInvariant(edges, c0, c, colour, n, []) && colour !in c0
    ensures Flooded(edges, c0, c, n, colour)
  {
    var S := set x | 0 <= x < |c| && c[x] == colour;
    forall i | 0 <= i < |edges| ensures (edges[i].u in S <==> edges[i].v in S) {
    }
    forall x | 0 <= x < |c| ensures c[x] == if Connected(edges, n, x) then colour else c0[x] {
      if Connected(edges, n, x) {
        ClosedSetContains(edges, S, n, x);
      } else {
        assert c[x] == c0[x];
      }
    }
  }

  /**
   * The depth-first search from `n` (the body of the `if` in the colouring
   * loop): pops a node, colours it, and pushes every neighbour that is still
   * uncoloured, until the stack is empty. It gives `colour` to exactly the
   * nodes connected to `n` and changes nothing else.
   */
  method Flood(g: ListGraph, cutMap: array<int>, n: int, colour: int)
    requires InRange(g.edges, g.nodeCount) && cutMap.Length == g.nodeCount
    requires 0 <= n < g.nodeCount && colour >= 1 && colour !in cutMap[..]
    requires forall x | 0 <= x < cutMap.Length && Connected(g.edges, n, x) :: cutMap[x] == 0
    modifies cutMap
    ensures Flooded(g.edges, old(cutMap[..]), cutMap[..], n, colour)
  {
    var edges := g.edges;
    ghost var c0 := cutMap[..];
    assert forall x | 0 <= x < |c0| && Connected(edges, n, x) :: c0[x] == 0;
    var stack := [n];
    FloodInit(edges, c0, colour, n);
    while |stack| > 0
      invariant FloodInvariant(edges, c0, cutMap[..], colour, n, stack)
      decreases ZeroCount(cutMap[..]), StackWeight(edges, cutMap[..], stack)
    {
      ghost var c := cutMap[..];
      var m := stack[|stack| - 1];
      var base := stack[..|stack| - 1];
      assert stack == base + [m] && 0 <= m < |c|;
      cutMap[m] := colour;
      assert cutMap[..] == c[m := colour];
      var pushed := UncolouredNeighbours(g, cutMap, m);
      FloodStep(edges, c0, c, colour, n, base, m, pushed);
      FloodStepLighter(edges, c, colour, base, m, pushed);
      stack := base + pushed;
    }
    FloodDone(edges, c0, cutMap[..], colour, n);
  }

  /** Counting components one node further adds one exactly when that node opens a component. */
  lemma {:induction false} ComponentCountStep(edges: seq<Edge>, n: nat)
    ensures ComponentCount(edges, n + 1) == ComponentCount(edges, n) + (if FirstOfComponent(edges, n) then 1 else 0)
  {
    var A := set x | 0 <= x < n && FirstOfComponent(edges, x);
    var B := set x | 0 <= x < n + 1 && FirstOfComponent(edges, x);
    if FirstOfComponent(edges, n) {
      assert B == A + {n};
    } else {
      assert B == A;
    }
  }

  /**
   * The colours opened so far: colour k+1 was opened at `starts[k]`, the
   * first node of a component, in increasing node order; every first node
   * below `n` opened one, so there is one colour per component that starts
   * below `n`.
   */
  ghost predicate StartsUpTo(edges: seq<Edge>, starts: seq<int>, n: nat) {
    (forall k | 0 <= k < |starts| :: 0 <= starts[k] < n && FirstOfComponent(edges, starts[k])) &&
    (forall k, l | 0 <= k < l < |starts| :: starts[k] < starts[l]) &&
    (forall x | 0 <= x < n && FirstOfComponent(edges, x) :: x in starts) &&
    |starts| == ComponentCount(edges, n)
  }

  /**
   * The colouring so far: a node has colour k+1 exactly when it is connected
   * to `starts[k]` and is uncoloured otherwise, and every node below `n` is
   * coloured.
   */
  ghost predicate ColoursUpTo(edges: seq<Edge>, c: seq<int>, starts: seq<int>, n: nat) {
    (forall x | 0 <= x < |c| :: 0 <= c[x] <= |starts|) &&
    (forall x | 0 <= x < |c| && c[x] != 0 :: Connected(edges, starts[c[x] - 1], x)) &&
    (forall k, x | 0 <= k < |starts| && 0 <= x < |c| && Connected(edges, starts[k], x) :: c[x] == k + 1) &&
    (forall x | 0 <= x < n && x < |c| :: c[x] != 0)
  }

  /** Colours spread along edges: everything connected to a coloured node has its colour. */
  lemma {:induction false} ColourSpreads(edges: seq<Edge>, c: seq<int>, starts: seq<int>, n: nat, x: int)
    requires ColoursUpTo(edges, c, starts, n) && 0 <= x < |c|
    ensures c[x] != 0 ==> forall y | 0 <= y < |c| && Connected(edges, x, y) :: c[y] == c[x]
  {
    if c[x] != 0 {
      var k := c[x] - 1;
      forall y | 0 <= y < |c| && Connected(edges, x, y) ensures c[y] == c[x] {
        ConnectedTrans(edges, starts[k], x, y);
      }
    }
  }

  /** Two nodes connected to a common node are connected. */
  lemma {:induction false} ConnectedVia(edges: seq<Edge>, a: int, x: int, b: int)
    requires Connected(edges, a, x)
    ensures Connected(edges, b, x) ==> Connected(edges, a, b)
  {
    if Connected(edges, b, x) {
      ConnectedSym(edges, b, x);
      ConnectedTrans(edges, a, x, b);
    }
  }

  /**
   * An uncoloured node reached by the loop opens a component, nothing
   * connected to it is coloured yet, and no node has the next colour.
   */
  lemma {:induction false} UncolouredOpens(edges: seq<Edge>, c: seq<int>, starts: seq<int>, n: nat)
    requires n < |c| && ColoursUpTo(edges, c, starts, n) && c[n] == 0
    ensures FirstOfComponent(edges, n)
    ensures forall x | 0 <= x < |c| && Connected(edges, n, x) :: c[x] == 0
    ensures |starts| + 1 !in c
  {
    forall y | 0 <= y < n ensures !Connected(edges, y, n) {
      ColourSpreads(edges, c, starts, n, y);
    }
    forall x | 0 <= x < |c| && Connected(edges, n, x) ensures c[x] == 0 {
      ConnectedSym(edges, n, x);
      ColourSpreads(edges, c, starts, n, x);
    }
  }

  /** After the search from an uncoloured node `n`, `n` has opened the next colour. */
  lemma {:induction false} FloodStarts(edges: seq<Edge>, c: seq<int>, starts: seq<int>, n: nat)
    requires n < |c| && ColoursUpTo(edges, c, starts, n) && StartsUpTo(edges, starts, n) && c[n] == 0
    ensures StartsUpTo(edges, starts + [n], n + 1)
  {
    UncolouredOpens(edges, c, starts, n);
    var starts' := starts + [n];
    forall x | 0 <= x < n + 1 && FirstOfComponent(edges, x) ensures x in starts' {
      if x < n {
        assert x in starts;
      }
    }
    ComponentCountStep(edges, n);
  }

  /** After the search from an uncoloured node `n`, its component has the next colour. */
  lemma {:induction false} FloodColours(edges: seq<Edge>, c: seq<int>, c': seq<int>, starts: seq<int>, n: nat)
    requires n < |c| && ColoursUpTo(edges, c, starts, n) && c[n] == 0
    requires Flooded(edges, c, c', n, |starts| + 1)
    ensures ColoursUpTo(edges, c', starts + [n], n + 1)
  {
    var starts' := starts + [n];
    ConnectedRefl(edges, n);
    forall x | 0 <= x < |c| && c'[x] != 0 ensures Connected(edges, starts'[c'[x] - 1], x) {
      if !Connected(edges, n, x) {
        assert starts'[c[x] - 1] == starts[c[x] - 1];
      }
    }
    forall k, x | 0 <= k < |starts'| && 0 <= x < |c| && Connected(edges, starts'[k], x)
      ensures c'[x] == k + 1
    {
      if k < |starts| {
        assert starts'[k] == starts[k];
        ConnectedVia(edges, starts[k], x, n);
      }
    }
  }

  /** A node that is already coloured does not open a component. */
  lemma {:induction false} SkipStep(edges: seq<Edge>, c: seq<int>, starts: seq<int>, n: nat)
    requires n < |c| && ColoursUpTo(edges, c, starts, n) && StartsUpTo(edges, starts, n) && c[n] != 0
    ensures ColoursUpTo(edges, c, starts, n + 1) && StartsUpTo(edges, starts, n + 1)
  {
    var k := c[n] - 1;
    assert Connected(edges, starts[k], n) && starts[k] < n;
    assert !FirstOfComponent(edges, n);
    ComponentCountStep(edges, n);
  }

  /**
   * `c` colours the nodes by connected component: every node has a colour in
   * 1 .. |starts|, and |starts| is the number of components; two nodes share
   * a colour exactly when they are connected; colour k+1 is the colour of
   * `starts[k]`, the first node of its component; and the first nodes of the
   * components, in increasing order, are exactly `starts`.
   */
  ghost predicate ComponentColouring(edges: seq<Edge>, c: seq<int>, starts: seq<int>) {
    |starts| == ComponentCount(edges, |c|) &&
    (forall x | 0 <= x < |c| :: 1 <= c[x] <= |starts|) &&
    (forall x, y | 0 <= x < |c| && 0 <= y < |c| :: c[x] == c[y] <==> Connected(edges, x, y)) &&
    (forall k | 0 <= k < |starts| :: 0 <= starts[k] < |c| && c[starts[k]] == k + 1 && FirstOfComponent(edges, starts[k])) &&
    (forall k, l | 0 <= k < l < |starts| :: starts[k] < starts[l]) &&
    (forall x | 0 <= x < |c| && FirstOfComponent(edges, x) :: x in starts)
  }

  /** Once every node has been looked at, colours and components match one to one. */
  lemma {:induction false} ColouredAll(edges: seq<Edge>, c: seq<int>, starts: seq<int>)
    requires ColoursUpTo(edges, c, starts, |c|) && StartsUpTo(edges, starts, |c|)
    ensures ComponentColouring(edges, c, starts)
  {
    forall x, y | 0 <= x < |c| && 0 <= y < |c| ensures c[x] == c[y] <==> Connected(edges, x, y) {
      var k := c[x] - 1;
      assert Connected(edges, starts[k], x);
      if c[x] == c[y] {
        assert Connected(edges, starts[k], y);
        ConnectedSym(edges, starts[k], x);
        ConnectedTrans(edges, x, starts[k], y);
      }
      ColourSpreads(edges, c, starts, |c|, x);
    }
    forall k | 0 <= k < |starts| ensures c[starts[k]] == k + 1 {
      ConnectedRefl(edges, starts[k]);
    }
  }

  /**
   * One iteration of the colouring loop at node `n`: an uncoloured node opens
   * colour `color + 1` and floods its component with it; a coloured node is
   * passed over. Either way the colouring then covers the nodes up to `n`.
   */
  method VisitNode(g: ListGraph, cutMap: array<int>, n: nat, color: int, ghost starts: seq<int>)
    returns (color': int, ghost starts': seq<int>)
    requires InRange(g.edges, g.nodeCount) && cutMap.Length == g.nodeCount && n < g.nodeCount
    requires color == |starts|
    requires ColoursUpTo(g.edges, cutMap[..], starts, n) && StartsUpTo(g.edges, starts, n)
    modifies cutMap
    ensures color' == |starts'|
    ensures ColoursUpTo(g.edges, cutMap[..], starts', n + 1) && StartsUpTo(g.edges, starts', n + 1)
  {
    var edges := g.edges;
    ghost var c := cutMap[..];
    if cutMap[n] == 0 {
      UncolouredOpens(edges, c, starts, n);
      FloodStarts(edges, c, starts, n);
      color' := color + 1;
      Flood(g, cutMap, n, color');
      FloodColours(edges, c, cutMap[..], starts, n);
      starts' := starts + [n];
    } else {
      SkipStep(edges, c, starts, n);
      color', starts' := color, starts;
    }
  }

  /**
   * The colouring loop of `min_k_cut_map`: visits the nodes in order and
   * opens colour `color + 1` at every node still uncoloured, flooding its
   * component. Starting from an all-zero map, it gives every node a colour
   * in 1 .. c, where c is the number of connected components; two nodes
   * share a colour exactly when they are connected; and colour k is opened
   * at the k-th first node of a component in node order.
   */
  method ColourComponents(g: ListGraph, cutMap: array<int>) returns (ghost colours: nat, ghost starts: seq<int>)
    requires InRange(g.edges, g.nodeCount) && cutMap.Length == g.nodeCount
    requires forall x | 0 <= x < cutMap.Length :: cutMap[x] == 0
    modifies cutMap
    ensures colours == |starts| && ComponentColouring(g.edges, cutMap[..], starts)
  {
    var edges := g.edges;
    var count := g.nodeCount;
    var color := 0;
    starts := [];
    assert (set x | 0 <= x < 0 && FirstOfComponent(edges, x)) == {};
    for n := 0 to count
      invariant color == |starts|
      invariant ColoursUpTo(edges, cutMap[..], starts, n) && StartsUpTo(edges, starts, n)
    {
      color, starts := VisitNode(g, cutMap, n, color, starts);
    }
    colours := color;
    ColouredAll(edges, cutMap[..], starts);
  }
}
