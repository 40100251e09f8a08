/**
 * The Graphviz writers of src/include/dot_writer.hpp: an undirected graph
 * `graph G { ... }` with one statement line per node, then one per edge
 * (edge operator `--`), each optionally carrying a `label` attribute.
 *
 * Nodes are written with their ids `0 .. nodeCount - 1` and edges in the
 * order of `ListGraph.edges`. A label is the text `os << value` writes for
 * the map's value type; the maps `main` passes hold `int`s, whose text is
 * `IntToString`. Labels are written as they are, without escaping.
 */
module DotWriter {
  import opened Text
  import opened Graphs

  const HEAD: string := "graph G {"
  const TAIL: string := "}"
  /** The four spaces that indent every statement. */
  const INDENT: string := "    "

  /**
   * A statement line: the indentation, the statement's `body`, the `label`
   * attribute when a value is given, and `;`.
   */
  function Statement(body: string, value: Option<string>): string
  {
    INDENT + (body + (Attribute(value) + ";"))
  }

  /** ` [label="<value>"]`, or nothing when no value is given. */
  function Attribute(value: Option<string>): string
  {
    match value
    case None => ""
    case Some(v) => " [label=\"" + v + "\"]"
  }

  /** The body of an edge statement: `<id(u)> -- <id(v)>`. */
  function EdgeBody(e: Edge): string
  {
    IntToString(e.u) + (" -- " + IntToString(e.v))
  }

  /** The map's value for item `i`, when a map is given. */
  function LabelAt(labels: Option<seq<string>>, i: nat): Option<string>
    requires labels.Some? ==> i < |labels.value|
  {
    match labels
    case None => None
    case Some(ls) => Some(ls[i])
  }

  /** The line for node `id`: `    <id>;`, or `    <id> [label="<value>"];` given a node map. */
  function NodeLineOf(id: nat, labels: Option<seq<string>>): string
    requires labels.Some? ==> id < |labels.value|
  {
    Statement(IntToString(id), LabelAt(labels, id))
  }

  /**
   * The line for edge `k` of `edges`: `    <id(u)> -- <id(v)>;`, or with
   * ` [label="<value>"]` before the `;` given an edge map.
   */
  function EdgeLineOf(edges: seq<Edge>, k: nat, labels: Option<seq<string>>): string
    requires k < |edges| && (labels.Some? ==> k < |labels.value|)
  {
    Statement(EdgeBody(edges[k]), LabelAt(labels, k))
  }

  /** A node map, when given, has a value for each of the `n` nodes. */
  predicate Fits(n: nat, labels: Option<seq<string>>) {
    labels.Some? ==> |labels.value| == n
  }

  /** Node `id`'s line as a function of `id`. */
  function NodeLineFn(labels: Option<seq<string>>): nat --> string
  {
    (id: nat) requires labels.Some? ==> id < |labels.value| => NodeLineOf(id, labels)
  }

  /** Edge `k`'s line as a function of `k`. */
  function EdgeLineFn(edges: seq<Edge>, labels: Option<seq<string>>): nat --> string
  {
    (k: nat) requires k < |edges| && (labels.Some? ==> k < |labels.value|) => EdgeLineOf(edges, k, labels)
  }

  /** The node lines for the nodes below `n`, in id order. */
  function NodeLines(n: nat, labels: Option<seq<string>>): (r: seq<string>)
    requires labels.Some? ==> n <= |labels.value|
    ensures |r| == n
  {
    Numbered(n, NodeLineFn(labels))
  }

  /** The edge lines for the first `k` edges, in order. */
  function EdgeLines(edges: seq<Edge>, k: nat, labels: Option<seq<string>>): (r: seq<string>)
    requires k <= |edges| && (labels.Some? ==> k <= |labels.value|)
    ensures |r| == k
  {
    Numbered(k, EdgeLineFn(edges, labels))
  }

  /** Node line `id` is the line for node `id`. */
  lemma {:induction false} NodeLineAt(n: nat, labels: Option<seq<string>>, id: nat)
    requires id < n && (labels.Some? ==> n <= |labels.value|)
    ensures NodeLines(n, labels)[id] == NodeLineOf(id, labels)
  {
    NumberedAt(n, NodeLineFn(labels), id);
  }

  /** Edge line `k` is the line for edge `k`. */
  lemma {:induction false} EdgeLineAt(edges: seq<Edge>, n: nat, labels: Option<seq<string>>, k: nat)
    requires k < n <= |edges| && (labels.Some? ==> n <= |labels.value|)
    ensures EdgeLines(edges, n, labels)[k] == EdgeLineOf(edges, k, labels)
  {
    NumberedAt(n, EdgeLineFn(edges, labels), k);
  }

  /** The lines of the whole graph: the head, the node lines, the edge lines and the tail. */
  function DotLines(n: nat, edges: seq<Edge>, nodeLabels: Option<seq<string>>, edgeLabels: Option<seq<string>>): (r: seq<string>)
    requires Fits(n, nodeLabels) && Fits(|edges|, edgeLabels)
    ensures |r| == n + |edges| + 2
  {
    [HEAD] + NodeLines(n, nodeLabels) + EdgeLines(edges, |edges|, edgeLabels) + [TAIL]
  }

  /**
   * `detail::writeDotNodes(graph, os)` and, given a node map,
   * `detail::writeDotNodes(graph, node_map, os)`.
   */
  method WriteDotNodes(g: ListGraph, labels: Option<seq<string>>, os: OutStream)
    requires Fits(g.nodeCount, labels)
    modifies os
    ensures os.text == old(os.text) + Unlines(NodeLines(g.nodeCount, labels))
  {
    for id := 0 to g.nodeCount
      invariant os.text == old(os.text) + Unlines(NodeLines(id, labels))
    {
      var line := NodeLineOf(id, labels);
      os.Write(line + "\n");
      AppendLine(old(os.text), NodeLines(id, labels), line);
    }
  }

  /**
   * `detail::writeDotEdges(graph, os)` and, given an edge map,
   * `detail::writeDotEdges(graph, edge_map, os)`.
   */
  method WriteDotEdges(g: ListGraph, labels: Option<seq<string>>, os: OutStream)
    requires Fits(|g.edges|, labels)
    modifies os
    ensures os.text == old(os.text) + Unlines(EdgeLines(g.edges, |g.edges|, labels))
  {
    var edges := g.edges;
    for k := 0 to |edges|
      invariant os.text == old(os.text) + Unlines(EdgeLines(edges, k, labels))
    {
      var line := EdgeLineOf(edges, k, labels);
      os.Write(line + "\n");
      AppendLine(old(os.text), EdgeLines(edges, k, labels), line);
    }
  }

  /**
   * The body shared by the four `writeDotGraph` overloads: the head line,
   * the nodes, the edges and the closing brace, on the stream `os`.
   */
  method WriteDotGraphWith(g: ListGraph, nodeLabels: Option<seq<string>>, edgeLabels: Option<seq<string>>, os: OutStream)
    requires Fits(g.nodeCount, nodeLabels) && Fits(|g.edges|, edgeLabels)
    modifies os
    ensures os.text == old(os.text) + Unlines(DotLines(g.nodeCount, g.edges, nodeLabels, edgeLabels))
  {
    os.Write(HEAD + "\n");
    WriteDotNodes(g, nodeLabels, os);
    WriteDotEdges(g, edgeLabels, os);
    os.Write(TAIL + "\n");
    Framed(old(os.text), HEAD, NodeLines(g.nodeCount, nodeLabels), EdgeLines(g.edges, |g.edges|, edgeLabels), TAIL);
  }

  /** `writeDotGraph(graph, os)`: no labels. */
  method WriteDotGraph(g: ListGraph, os: OutStream)
    modifies os
    ensures os.text == old(os.text) + Unlines(DotLines(g.nodeCount, g.edges, None, None))
  {
    WriteDotGraphWith(g, None, None, os);
  }

  /** `writeDotGraph(graph, edge_map, os)`: edges labelled. */
  method WriteDotGraphEdgeMap(g: ListGraph, edgeLabels: seq<string>, os: OutStream)
    requires |edgeLabels| == |g.edges|
    modifies os
    ensures os.text == old(os.text) + Unlines(DotLines(g.nodeCount, g.edges, None, Some(edgeLabels)))
  {
    WriteDotGraphWith(g, None, Some(edgeLabels), os);
  }

  /** `writeDotGraph(graph, node_map, os)`: nodes labelled. */
  method WriteDotGraphNodeMap(g: ListGraph, nodeLabels: seq<string>, os: OutStream)
    requires |nodeLabels| == g.nodeCount
    modifies os
    ensures os.text == old(os.text) + Unlines(DotLines(g.nodeCount, g.edges, Some(nodeLabels), None))
  {
    WriteDotGraphWith(g, Some(nodeLabels), None, os);
  }

  /** `writeDotGraph(graph, edge_map, node_map, os)`: nodes and edges labelled. */
  method WriteDotGraphMaps(g: ListGraph, edgeLabels: seq<string>, nodeLabels: seq<string>, os: OutStream)
    requires |edgeLabels| == |g.edges| && |nodeLabels| == g.nodeCount
    modifies os
    ensures os.text == old(os.text) + Unlines(DotLines(g.nodeCount, g.edges, Some(nodeLabels), Some(edgeLabels)))
  {
    WriteDotGraphWith(g, Some(nodeLabels), Some(edgeLabels), os);
  }

  // ---------------------------------------------------------------------------
  // The text written
  // ---------------------------------------------------------------------------

  /** Writing one more line after the lines `ls`. */
  lemma {:induction false} AppendLine(prefix: string, ls: seq<string>, line: string)
    ensures prefix + Unlines(ls) + (line + "\n") == prefix + Unlines(ls + [line])
  {
    UnlinesAppend(ls, [line]);
    assert Unlines([line]) == line + "\n" + "";
  }

  /** A head line, two runs of lines and a tail line, written one after another. */
  lemma {:induction false} Framed(prefix: string, head: string, a: seq<string>, b: seq<string>, tail: string)
    ensures prefix + (head + "\n") + Unlines(a) + Unlines(b) + (tail + "\n") == prefix + Unlines([head] + a + b + [tail])
  {
    UnlinesAppend([head] + a + b, [tail]);
    UnlinesAppend([head] + a, b);
    UnlinesAppend([head], a);
    assert Unlines([head]) == head + "\n" + "";
    assert Unlines([tail]) == tail + "\n" + "";
  }

  /** Labels that hold no line break. */
  predicate OneLineLabels(labels: Option<seq<string>>) {
    labels.Some? ==> forall k | 0 <= k < |labels.value| :: '\n' !in labels.value[k]
  }

  /**
   * Read back line by line, the text written is the head line `graph G {`,
   * then the node lines, then the edge lines, then `}`: no label or id
   * spills over a line break.
   */
  lemma {:induction false} DotLayout(n: nat, edges: seq<Edge>, nodeLabels: Option<seq<string>>, edgeLabels: Option<seq<string>>)
    requires Fits(n, nodeLabels) && Fits(|edges|, edgeLabels)
    requires OneLineLabels(nodeLabels) && OneLineLabels(edgeLabels)
    ensures Lines(Unlines(DotLines(n, edges, nodeLabels, edgeLabels))) == DotLines(n, edges, nodeLabels, edgeLabels)
  {
    NodeLinesOneLine(n, nodeLabels);
    EdgeLinesOneLine(edges, |edges|, edgeLabels);
    FramedNoBreaks(HEAD, NodeLines(n, nodeLabels), EdgeLines(edges, |edges|, edgeLabels), TAIL);
    LinesOfUnlines(DotLines(n, edges, nodeLabels, edgeLabels));
  }

  /** No line of a head line, two runs of lines and a tail line holds a line break when none of the parts does. */
  lemma {:induction false} FramedNoBreaks(head: string, a: seq<string>, b: seq<string>, tail: string)
    requires '\n' !in head && '\n' !in tail
    requires forall i | 0 <= i < |a| :: '\n' !in a[i]
    requires forall i | 0 <= i < |b| :: '\n' !in b[i]
    ensures var ls := [head] + a + b + [tail];
      forall j | 0 <= j < |ls| :: '\n' !in ls[j]
  {
    var ls := [head] + a + b + [tail];
    forall j | 0 <= j < |ls| ensures '\n' !in ls[j] {
      if 1 <= j <= |a| {
        assert ls[j] == a[j - 1];
      } else if |a| < j <= |a| + |b| {
        assert ls[j] == b[j - 1 - |a|];
      }
    }
  }

  /** No node line holds a line break. */
  lemma {:induction false} NodeLinesOneLine(n: nat, labels: Option<seq<string>>)
    requires (labels.Some? ==> n <= |labels.value|) && OneLineLabels(labels)
    ensures forall id | 0 <= id < n :: '\n' !in NodeLines(n, labels)[id]
  {
    forall id | 0 <= id < n ensures '\n' !in NodeLineFn(labels)(id) {
      NodeLineOneLine(id, labels);
    }
    NumberedOneLine(n, NodeLineFn(labels));
  }

  /** No edge line holds a line break. */
  lemma {:induction false} EdgeLinesOneLine(edges: seq<Edge>, n: nat, labels: Option<seq<string>>)
    requires n <= |edges| && (labels.Some? ==> n <= |labels.value|) && OneLineLabels(labels)
    ensures forall k | 0 <= k < n :: '\n' !in EdgeLines(edges, n, labels)[k]
  {
    forall k | 0 <= k < n ensures '\n' !in EdgeLineFn(edges, labels)(k) {
      EdgeLineOneLine(edges, k, labels);
    }
    NumberedOneLine(n, EdgeLineFn(edges, labels));
  }

  /** A statement line holds no line break when its body and value hold none. */
  lemma {:induction false} StatementOneLine(body: string, value: Option<string>)
    requires '\n' !in body && (value.Some? ==> '\n' !in value.value)
    ensures '\n' !in Statement(body, value)
  {
    assert '\n' !in Attribute(value);
  }

  lemma {:induction false} NodeLineOneLine(id: nat, labels: Option<seq<string>>)
    requires (labels.Some? ==> id < |labels.value|) && OneLineLabels(labels)
    ensures '\n' !in NodeLineOf(id, labels)
  {
    StatementOneLine(IntToString(id), LabelAt(labels, id));
  }

  lemma {:induction false} EdgeLineOneLine(edges: seq<Edge>, k: nat, labels: Option<seq<string>>)
    requires k < |edges| && (labels.Some? ==> k < |labels.value|) && OneLineLabels(labels)
    ensures '\n' !in EdgeLineOf(edges, k, labels)
  {
    StatementOneLine(EdgeBody(edges[k]), LabelAt(labels, k));
  }

  /** `is >> x` on a statement line skips the indentation and reads the start of the body. */
  lemma {:induction false} StatementRead(body: string, value: Option<string>)
    ensures ReadInt(Statement(body, value)) == ReadInt(body + (Attribute(value) + ";"))
  {
    SkipIndent(body + (Attribute(value) + ";"));
  }

  /** The id at the start of a node line reads back with `is >> id`. */
  lemma {:induction false} NodeLineId(id: int, labels: Option<seq<string>>)
    requires 0 <= id <= INT_MAX && (labels.Some? ==> id < |labels.value|)
    ensures var line := NodeLineOf(id, labels);
      ReadInt(line).Some? && ReadInt(line).value.0 == id
  {
    var value := LabelAt(labels, id);
    StatementRead(IntToString(id), value);
    ReadIntOfIntToString(id, Attribute(value) + ";");
  }

  /**
   * The two node ids of an edge line read back: `is >> u`, then, past the
   * ` --` of the edge operator, `is >> v`.
   */
  lemma {:induction false} EdgeLineIds(edges: seq<Edge>, k: nat, labels: Option<seq<string>>)
    requires k < |edges| && (labels.Some? ==> k < |labels.value|)
    requires InInt32(edges[k].u) && InInt32(edges[k].v)
    ensures var line := EdgeLineOf(edges, k, labels);
      var first := ReadInt(line);
      first.Some? && first.value.0 == edges[k].u &&
      |first.value.1| >= 3 && first.value.1[..3] == " --" &&
      ReadInt(first.value.1[3..]).Some? && ReadInt(first.value.1[3..]).value.0 == edges[k].v
  {
    var e := edges[k];
    var tail := Attribute(LabelAt(labels, k)) + ";";
    StatementRead(EdgeBody(e), LabelAt(labels, k));
    EdgeBodyThen(e, tail);
    EdgeBodyIds(e.u, e.v, tail);
  }

  /** An edge body followed by more text. */
  lemma {:induction false} EdgeBodyThen(e: Edge, tail: string)
    ensures EdgeBody(e) + tail == IntToString(e.u) + (" -- " + (IntToString(e.v) + tail))
  {
  }

  /** `is >> u`, then ` --` skipped, then `is >> v` on an edge body followed by more text. */
  lemma {:induction false} EdgeBodyIds(u: int, v: int, tail: string)
    requires InInt32(u) && InInt32(v) && NoDigitFirst(tail)
    ensures var first := ReadInt(IntToString(u) + (" -- " + (IntToString(v) + tail)));
      first.Some? && first.value.0 == u &&
      |first.value.1| >= 3 && first.value.1[..3] == " --" &&
      ReadInt(first.value.1[3..]).Some? && ReadInt(first.value.1[3..]).value.0 == v
  {
    var second := IntToString(v) + tail;
    ReadIntOfIntToString(u, " -- " + second);
    EdgeOperator(second);
    ReadIntAfterSpace(" ", second);
    ReadIntOfIntToString(v, tail);
  }

  /** The edge operator ` --` and the space after it. */
  lemma {:induction false} EdgeOperator(s: string)
    ensures (" -- " + s)[..3] == " --" && (" -- " + s)[3..] == " " + s
  {
    assert (" -- " + s)[3..] == " " + s;
  }

  /** `is >> x` skips the indentation. */
  lemma {:induction false} SkipIndent(s: string)
    ensures ReadInt(INDENT + s) == ReadInt(s)
  {
    ReadIntAfterSpace(INDENT, s);
  }
}
