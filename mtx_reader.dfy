/**
 * `readMtxGraph` (src/include/mtx_reader.hpp): reads a graph in Matrix
 * Market coordinate format. The first line must start with the banner
 * `%%MatrixMarket matrix coordinate`; lines starting with `%` follow; the
 * size line `rows cols entries` gives the number of nodes (its second
 * number) and of edges (its third); each entry line `u v [w]` adds the edge
 * between the 1-based nodes `u` and `v` with weight `w`, or 1 when no weight
 * can be read.
 */
module MtxReader {
  import opened Text
  import opened Graphs
  import opened Parsing

  const BANNER: string := "%%MatrixMarket matrix coordinate"

  /** The diagnostic written to `std::cerr`, if any. */
  datatype Report = Clean | InvalidHeader | InvalidData

  /** `line.substr(0, 32) == "%%MatrixMarket matrix coordinate"`. */
  predicate HeaderOk(line: string)
  {
    PrefixEquals(line, 32, BANNER)
  }

  /** The banner test accepts exactly the lines that start with the banner. */
  lemma {:induction false} HeaderOkIff(line: string)
    ensures HeaderOk(line) <==> |line| >= |BANNER| && line[..|BANNER|] == BANNER
  {
    if |line| < |BANNER| {
      assert |line| != |BANNER|;
    }
  }

  /** A line made of the banner and anything after it passes the banner test. */
  lemma {:induction false} BannerHeaderOk(kind: string)
    ensures HeaderOk(BANNER + kind)
  {
    HeaderOkIff(BANNER + kind);
    assert (BANNER + kind)[..|BANNER|] == BANNER;
  }

  /**
   * One entry line: `line_is >> u >> v` must succeed; the weight is the next
   * integer, or 1 when that extraction fails. Node ids are shifted from 1-based
   * to 0-based.
   */
  function EntryEdge(line: string): (r: Option<Edge>)
    ensures r.Some? <==> ReadInts(line, 2).Some?
  {
    match ReadInts(line, 2)
    case None => None
    case Some((uv, rest)) =>
      var w := match ReadInt(rest) case None => 1 case Some((x, _)) => x;
      Some(Edge(uv[0] - 1, uv[1] - 1, w))
  }

  /** What `readMtxGraph` does with a text whose lines are `ls`. */
  function MtxRead(ls: seq<string>): (r: Parsed<Report>)
    ensures r.report == InvalidHeader ==> r.nodes == 0 && r.edges == []
    ensures (|ls| == 0 || !HeaderOk(ls[0])) ==> r.report == InvalidHeader
    ensures r.report == Clean ==> |r.edges| < |ls|
  {
    if |ls| == 0 || !HeaderOk(ls[0]) then Parsed(InvalidHeader, 0, [])
    else
      var j := SkipLines(ls, 1, '%');
      if j == |ls| then Parsed(InvalidHeader, 0, [])
      else match ReadInts(ls[j], 3)
        case None => Parsed(InvalidHeader, 0, [])
        case Some((size, _)) =>
          var entries := Entries(ls[j + 1..], Iterations(size[2]), EntryEdge);
          Parsed(if entries.0 then Clean else InvalidData, Iterations(size[1]), entries.1)
  }

  /**
   * `readMtxGraph(graph, arc_map, is)`: clears `g`, then reads the text
   * line by line as described above, leaving in `g` what was read before
   * any error.
   */
  method ReadMtxGraph(g: ListGraph, text: string) returns (report: Report)
    modifies g
    ensures MtxRead(Lines(text)) == Parsed(report, g.nodeCount, g.edges)
  {
    ghost var ls := Lines(text);
    g.Clear();
    var input := text;
    var first := GetLine(input);
    if first.None? || !HeaderOk(first.value.0) {
      return InvalidHeader;
    }
    input := first.value.1;
    LinesStep(text, ls, 0, first.value.0, input);
    var found, line;
    found, line, input := SkipComments(input, ls, 1, '%');
    ghost var j := SkipLines(ls, 1, '%');
    // When the text runs out here, `line` is left empty or holding a comment
    // line, and the size read below fails on either.
    if !found {
      return InvalidHeader;
    }

    // Read the size line: rows, then the node count over it, then the edge count.
    var size := ReadInts(line, 3);
    if size.None? {
      return InvalidHeader;
    }
    var n := size.value.0[1];
    var m := size.value.0[2];

    AddNodes(g, Iterations(n));
    var complete := ReadEdges(g, input, ls[j + 1..], Iterations(m), EntryEdge);
    report := if complete then Clean else InvalidData;
  }

  // ---------------------------------------------------------------------------
  // Reading back a graph written in the format
  // ---------------------------------------------------------------------------

  /** An entry line for `e`, with 1-based node ids, with or without its weight. */
  function EntryLine(e: Edge, weighted: bool): (r: string)
    requires InInt32(e.u + 1) && InInt32(e.v + 1) && InInt32(e.w)
    ensures '\n' !in r
  {
    if weighted then Spaced([e.u + 1, e.v + 1, e.w]) else Spaced([e.u + 1, e.v + 1])
  }

  /** Every edge's ids and weight can be written as `int`s, and without weights every weight is 1. */
  predicate Writable(es: seq<Edge>, weighted: bool) {
    forall k | 0 <= k < |es| ::
      InInt32(es[k].u + 1) && InInt32(es[k].v + 1) && InInt32(es[k].w) && (weighted || es[k].w == 1)
  }

  /**
   * The lines of a Matrix Market file: the `header` line (the banner and
   * what follows it), the comment lines, the size line and one entry line
   * per edge.
   */
  function MtxLines(header: string, comments: seq<string>, rows: int, n: nat, es: seq<Edge>, weighted: bool): (ls: seq<string>)
    requires Writable(es, weighted) && InInt32(rows) && n <= INT_MAX && |es| <= INT_MAX
    ensures |ls| == |comments| + |es| + 2
  {
    [header] + comments + ([Spaced([rows, n, |es|])] + EntryLines(es, weighted))
  }

  /** Edge `k`'s entry line as a function of `k`. */
  function EntryLineFn(es: seq<Edge>, weighted: bool): nat --> string
  {
    (k: nat) requires k < |es| && InInt32(es[k].u + 1) && InInt32(es[k].v + 1) && InInt32(es[k].w) =>
      EntryLine(es[k], weighted)
  }

  /** One entry line per edge, in order. */
  function EntryLines(es: seq<Edge>, weighted: bool): (ls: seq<string>)
    requires Writable(es, weighted)
    ensures |ls| == |es|
  {
    Numbered(|es|, EntryLineFn(es, weighted))
  }

  /** Entry line `k` is the line for edge `k`. */
  lemma {:induction false} EntryLineAt(es: seq<Edge>, weighted: bool, k: nat)
    requires Writable(es, weighted) && k < |es|
    ensures EntryLines(es, weighted)[k] == EntryLine(es[k], weighted)
  {
    NumberedAt(|es|, EntryLineFn(es, weighted), k);
  }

  /** An entry line whose two ids read, followed by a weight that reads. */
  lemma {:induction false} EntryEdgeOf(line: string, uv: seq<int>, rest: string, w: int, after: string)
    requires ReadInts(line, 2) == Some((uv, rest)) && ReadInt(rest) == Some((w, after))
    ensures EntryEdge(line) == Some(Edge(uv[0] - 1, uv[1] - 1, w))
  {
  }

  /** An entry line whose two ids read, followed by no weight that reads. */
  lemma {:induction false} EntryEdgeDefault(line: string, uv: seq<int>, rest: string)
    requires ReadInts(line, 2) == Some((uv, rest)) && ReadInt(rest).None?
    ensures EntryEdge(line) == Some(Edge(uv[0] - 1, uv[1] - 1, 1))
  {
  }

  /** A weighted entry line reads back as its edge. */
  lemma {:induction false} EntryEdgeWeighted(a: int, b: int, w: int)
    requires InInt32(a) && InInt32(b) && InInt32(w)
    ensures EntryEdge(Spaced([a, b, w])) == Some(Edge(a - 1, b - 1, w))
  {
    var line := Spaced([a, b, w]);
    var head := Spaced([a, b]);
    var digits := IntToString(w);
    var tail := " " + digits;
    assert [a, b] + [w] == [a, b, w];
    SpacedSnoc([a, b], w);
    assert line == head + tail;
    assert NoDigitFirst(tail);
    ReadIntsSpaced([a, b], tail);
    assert ReadInts(line, 2) == Some(([a, b], tail));
    SpacedLastInt(w);
    EntryEdgeOf(line, [a, b], tail, w, "");
  }

  /** The last number of an entry line, after its space, reads back whole. */
  lemma {:induction false} SpacedLastInt(w: int)
    requires InInt32(w)
    ensures ReadInt(" " + IntToString(w)) == Some((w, ""))
  {
    var digits := IntToString(w);
    ReadIntAfterSpace(" ", digits);
    assert digits + "" == digits;
    ReadIntOfIntToString(w, "");
  }

  /** An entry line without a weight reads back with weight 1. */
  lemma {:induction false} EntryEdgeUnweighted(a: int, b: int)
    requires InInt32(a) && InInt32(b)
    ensures EntryEdge(Spaced([a, b])) == Some(Edge(a - 1, b - 1, 1))
  {
    var line := Spaced([a, b]);
    assert line + "" == line;
    ReadIntsSpaced([a, b], "");
    assert ReadInts(line, 2) == Some(([a, b], ""));
    ReadIntOfEmpty();
  }

  lemma {:induction false} EntryEdgeOfLine(e: Edge, weighted: bool)
    requires InInt32(e.u + 1) && InInt32(e.v + 1) && InInt32(e.w) && (weighted || e.w == 1)
    ensures EntryEdge(EntryLine(e, weighted)) == Some(e)
  {
    var line := EntryLine(e, weighted);
    if weighted {
      assert line == Spaced([e.u + 1, e.v + 1, e.w]);
      EntryEdgeWeighted(e.u + 1, e.v + 1, e.w);
    } else {
      assert line == Spaced([e.u + 1, e.v + 1]);
      EntryEdgeUnweighted(e.u + 1, e.v + 1);
    }
    assert Edge(e.u + 1 - 1, e.v + 1 - 1, e.w) == e;
  }

  /** `MtxRead` on lines with a banner, comments, a size line and well-formed entries. */
  lemma {:induction false} MtxReadClean(ls: seq<string>, j: nat, size: seq<int>, rest: string, es: seq<Edge>)
    requires |ls| > 0 && HeaderOk(ls[0]) && 1 <= j < |ls| && SkipLines(ls, 1, '%') == j
    requires ReadInts(ls[j], 3) == Some((size, rest))
    requires Entries(ls[j + 1..], Iterations(size[2]), EntryEdge) == (true, es)
    ensures MtxRead(ls) == Parsed(Clean, Iterations(size[1]), es)
  {
  }

  /**
   * A first line, comment lines, a line that is not a comment and further
   * lines: the comment loop started after the first line stops at that line.
   */
  lemma {:induction false} CommentsSkipped(first: string, comments: seq<string>, line: string, rest: seq<string>)
    requires CommentLines(comments, '%') && FirstChar(line) != '%'
    ensures var ls := [first] + comments + ([line] + rest);
      var j := |comments| + 1;
      ls[0] == first && SkipLines(ls, 1, '%') == j && ls[j] == line && ls[j + 1..] == rest
  {
    var ls := [first] + comments + ([line] + rest);
    var j := |comments| + 1;
    assert ls[j..] == [line] + rest;
    forall k | 1 <= k < j ensures FirstChar(ls[k]) == '%' {
      assert ls[k] == comments[k - 1];
    }
    SkipLinesAt(ls, 1, '%', j);
  }

  /** The same lines hold no line break when none of the parts does. */
  lemma {:induction false} NoBreaksConcat(first: string, comments: seq<string>, line: string, rest: seq<string>)
    requires '\n' !in first && CommentLines(comments, '%') && '\n' !in line
    requires forall k | 0 <= k < |rest| :: '\n' !in rest[k]
    ensures var ls := [first] + comments + ([line] + rest);
      forall k | 0 <= k < |ls| :: '\n' !in ls[k]
  {
    var ls := [first] + comments + ([line] + rest);
    forall k | 0 <= k < |ls| ensures '\n' !in ls[k] {
      if k == 0 {
      } else if k <= |comments| {
        assert ls[k] == comments[k - 1];
      } else if k == |comments| + 1 {
      } else {
        assert ls[k] == rest[k - |comments| - 2];
      }
    }
  }

  /**
   * The lines of a written file, read back with `std::getline`, are the
   * lines written: the header line, the comments, which the comment loop
   * skips, the size line and the entry lines.
   */
  lemma {:induction false} MtxLinesShape(header: string, comments: seq<string>, rows: int, n: nat, es: seq<Edge>, weighted: bool)
    requires '\n' !in header && CommentLines(comments, '%')
    requires Writable(es, weighted) && InInt32(rows) && n <= INT_MAX && |es| <= INT_MAX
    ensures var ls := MtxLines(header, comments, rows, n, es, weighted);
      var j := |comments| + 1;
      Lines(Unlines(ls)) == ls && ls[0] == header && SkipLines(ls, 1, '%') == j &&
      ls[j] == Spaced([rows, n, |es|]) && ls[j + 1..] == EntryLines(es, weighted)
  {
    var sizeLine := Spaced([rows, n, |es|]);
    var entryLines := EntryLines(es, weighted);
    NumberedOneLine(|es|, EntryLineFn(es, weighted));
    NoBreaksConcat(header, comments, sizeLine, entryLines);
    LinesOfUnlines(MtxLines(header, comments, rows, n, es, weighted));
    CommentsSkipped(header, comments, sizeLine, entryLines);
  }

  /** The entry lines written for `es` read back as `es`, all of them. */
  lemma {:induction false} EntryLinesRead(es: seq<Edge>, weighted: bool)
    requires Writable(es, weighted)
    ensures Entries(EntryLines(es, weighted), |es|, EntryEdge) == (true, es)
  {
    var entryLines := EntryLines(es, weighted);
    forall k | 0 <= k < |es| ensures EntryEdge(entryLines[k]) == Some(es[k]) {
      EntryLineAt(es, weighted, k);
      EntryEdgeOfLine(es[k], weighted);
    }
    EntriesOf(entryLines, es, EntryEdge);
  }

  /** The size line written reads back as its three numbers. */
  lemma {:induction false} SizeLineRead(rows: int, n: int, m: int)
    requires InInt32(rows) && InInt32(n) && InInt32(m)
    ensures ReadInts(Spaced([rows, n, m]), 3) == Some(([rows, n, m], ""))
  {
    assert Spaced([rows, n, m]) + "" == Spaced([rows, n, m]);
    ReadIntsSpaced([rows, n, m], "");
  }

  /**
   * Round trip: a well-formed file reads back as the graph it was written
   * from, with no diagnostic.
   */
  lemma {:induction false} MtxRoundTrip(header: string, comments: seq<string>, rows: int, n: nat, es: seq<Edge>, weighted: bool)
    requires '\n' !in header && HeaderOk(header) && CommentLines(comments, '%')
    requires Writable(es, weighted) && InInt32(rows) && n <= INT_MAX && |es| <= INT_MAX
    ensures MtxRead(Lines(Unlines(MtxLines(header, comments, rows, n, es, weighted)))) == Parsed(Clean, n, es)
  {
    var ls := MtxLines(header, comments, rows, n, es, weighted);
    var j := |comments| + 1;
    MtxLinesShape(header, comments, rows, n, es, weighted);
    SizeLineRead(rows, n, |es|);
    EntryLinesRead(es, weighted);
    MtxReadClean(ls, j, [rows, n, |es|], "", es);
  }
}
