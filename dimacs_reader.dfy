/**
 * `readDimacsGraph` (src/include/dimacs_reader.hpp): reads a graph in the
 * `.gr` format of the 9th DIMACS Implementation Challenge (shortest paths).
 * Lines starting with `c` are comments; the first other line is the problem
 * line `p sp n m`; then each of `m` lines is an arc `a u v w`, which becomes
 * an edge between the 1-based nodes `u` and `v` with weight `w`.
 */
module DimacsReader {
  import opened Text
  import opened Graphs
  import opened Parsing

  /** The problem line's designator, `p` and the problem type `sp`. */
  const PROBLEM: string := "p sp"

  /** The diagnostic written to `std::cerr`, if any. */
  datatype Report =
    | Clean
      /** "Invalid or unsupported Dimacs file": no `p sp` problem line. */
    | Unsupported
      /** "Error reading Dimacs file": the problem line's counts do not read. */
    | ReadError
      /** "Invalid Dimacs data": an arc line is missing or does not read. */
    | InvalidData

  /** `line.substr(0, 4) == "p sp"`. */
  predicate ProblemOk(line: string)
  {
    PrefixEquals(line, 4, PROBLEM)
  }

  /**
   * One arc line: it must start with `a`, and `line_is >> u >> v >> w` on the
   * rest of it must succeed. Node ids are shifted from 1-based to 0-based.
   */
  function ArcEdge(line: string): (r: Option<Edge>)
    ensures r.Some? ==> FirstChar(line) == 'a' && ReadInts(line[1..], 3).Some?
    ensures r.Some? ==> var uvw := ReadInts(line[1..], 3).value.0;
      r.value == Edge(uvw[0] - 1, uvw[1] - 1, uvw[2])
    ensures FirstChar(line) == 'a' && ReadInts(line[1..], 3).Some? ==> r.Some?
  {
    if FirstChar(line) != 'a' then None
    else match ReadInts(line[1..], 3)
      case None => None
      case Some((uvw, _)) => Some(Edge(uvw[0] - 1, uvw[1] - 1, uvw[2]))
  }

  /** What `readDimacsGraph` does with a text whose lines are `ls`. */
  function DimacsRead(ls: seq<string>): (r: Parsed<Report>)
    ensures r.report in {Unsupported, ReadError} ==> r.nodes == 0 && r.edges == []
    ensures r.report == Unsupported <==> (SkipLines(ls, 0, 'c') == |ls| || !ProblemOk(ls[SkipLines(ls, 0, 'c')]))
  {
    var j := SkipLines(ls, 0, 'c');
    // When the text runs out here, `line` is left empty or holding a comment
    // line, and neither starts with `p sp`.
    if j == |ls| || !ProblemOk(ls[j]) then Parsed(Unsupported, 0, [])
    else match ReadInts(Substr(ls[j], 4), 2)
      case None => Parsed(ReadError, 0, [])
      case Some((nm, _)) =>
        var arcs := Entries(ls[j + 1..], Iterations(nm[1]), ArcEdge);
        Parsed(if arcs.0 then Clean else InvalidData, Iterations(nm[0]), arcs.1)
  }

  /**
   * `readDimacsGraph(graph, arc_map, is)`: clears `g`, then reads the text
   * line by line as described above, leaving in `g` what was read before
   * any error.
   */
  method ReadDimacsGraph(g: ListGraph, text: string) returns (report: Report)
    modifies g
    ensures DimacsRead(Lines(text)) == Parsed(report, g.nodeCount, g.edges)
  {
    ghost var ls := Lines(text);
    g.Clear();
    assert ls[0..] == ls;
    var found, line, input := SkipComments(text, ls, 0, 'c');
    ghost var j := SkipLines(ls, 0, 'c');
    if !found || !ProblemOk(line) {
      return Unsupported;
    }
    var nm := ReadInts(Substr(line, 4), 2);
    if nm.None? {
      return ReadError;
    }
    AddNodes(g, Iterations(nm.value.0[0]));
    var complete := ReadEdges(g, input, ls[j + 1..], Iterations(nm.value.0[1]), ArcEdge);
    report := if complete then Clean else InvalidData;
  }

  // ---------------------------------------------------------------------------
  // Reading back a graph written in the format
  // ---------------------------------------------------------------------------

  /** The problem line `p sp n m`. */
  function ProblemLine(n: int, m: int): (r: string)
    ensures '\n' !in r
  {
    TokensNoNewline([n, m]);
    PROBLEM + Tokens([n, m])
  }

  /** The arc line `a u v w` for `e`, with 1-based node ids. */
  function ArcLine(e: Edge): (r: string)
    ensures '\n' !in r
  {
    TokensNoNewline([e.u + 1, e.v + 1, e.w]);
    "a" + Tokens([e.u + 1, e.v + 1, e.w])
  }

  /** Edge `k`'s arc line as a function of `k`. */
  function ArcLineFn(es: seq<Edge>): nat --> string
  {
    (k: nat) requires k < |es| => ArcLine(es[k])
  }

  /** One arc line per edge, in order. */
  function ArcLines(es: seq<Edge>): (ls: seq<string>)
    ensures |ls| == |es|
  {
    Numbered(|es|, ArcLineFn(es))
  }

  /** Arc line `k` is the line for edge `k`. */
  lemma {:induction false} ArcLineAt(es: seq<Edge>, k: nat)
    requires k < |es|
    ensures ArcLines(es)[k] == ArcLine(es[k])
  {
    NumberedAt(|es|, ArcLineFn(es), k);
  }

  /** The lines of a `.gr` file: comments, the problem line and one arc line per edge. */
  function DimacsLines(comments: seq<string>, n: int, es: seq<Edge>): (ls: seq<string>)
    ensures |ls| == |comments| + |es| + 1
  {
    comments + ([ProblemLine(n, |es|)] + ArcLines(es))
  }

  /** Every edge's ids and weight can be written as `int`s. */
  predicate Writable(es: seq<Edge>) {
    forall k | 0 <= k < |es| :: InInt32(es[k].u + 1) && InInt32(es[k].v + 1) && InInt32(es[k].w)
  }

  /** The problem line written passes the `p sp` test and its counts read back. */
  lemma {:induction false} ProblemLineRead(n: int, m: int)
    requires InInt32(n) && InInt32(m)
    ensures ProblemOk(ProblemLine(n, m)) && FirstChar(ProblemLine(n, m)) == 'p'
    ensures |ProblemLine(n, m)| >= 4 && ReadInts(Substr(ProblemLine(n, m), 4), 2) == Some(([n, m], ""))
  {
    var line := ProblemLine(n, m);
    var tokens := Tokens([n, m]);
    assert line[..4] == PROBLEM && line[4..] == tokens;
    assert tokens + "" == tokens;
    ReadIntsTokens([n, m], "");
  }

  /** An arc line written for `e` reads back as `e`. */
  lemma {:induction false} ArcEdgeOfLine(e: Edge)
    requires InInt32(e.u + 1) && InInt32(e.v + 1) && InInt32(e.w)
    ensures ArcEdge(ArcLine(e)) == Some(e)
  {
    var xs := [e.u + 1, e.v + 1, e.w];
    var tokens := Tokens(xs);
    assert ArcLine(e)[1..] == tokens;
    assert tokens + "" == tokens;
    ReadIntsTokens(xs, "");
  }

  /** The arc lines written for `es` read back as `es`, all of them. */
  lemma {:induction false} ArcLinesRead(es: seq<Edge>)
    requires Writable(es)
    ensures Entries(ArcLines(es), |es|, ArcEdge) == (true, es)
  {
    var arcs := ArcLines(es);
    forall k | 0 <= k < |es| ensures ArcEdge(arcs[k]) == Some(es[k]) {
      ArcLineAt(es, k);
      ArcEdgeOfLine(es[k]);
    }
    EntriesOf(arcs, es, ArcEdge);
  }

  /**
   * Comment lines, a line that is not a comment and further lines: the
   * comment loop stops at that line.
   */
  lemma {:induction false} CommentsThenLine(comments: seq<string>, line: string, rest: seq<string>)
    requires CommentLines(comments, 'c') && FirstChar(line) != 'c'
    ensures var ls := comments + ([line] + rest);
      SkipLines(ls, 0, 'c') == |comments| && ls[|comments|] == line && ls[|comments| + 1..] == rest
  {
    var ls := comments + ([line] + rest);
    assert ls[|comments|..] == [line] + rest;
    forall k | 0 <= k < |comments| ensures FirstChar(ls[k]) == 'c' {
      assert ls[k] == comments[k];
    }
    SkipLinesAt(ls, 0, 'c', |comments|);
  }

  /** The same lines hold no line break when none of the parts does. */
  lemma {:induction false} NoBreaks(comments: seq<string>, line: string, rest: seq<string>)
    requires CommentLines(comments, 'c') && '\n' !in line
    requires forall k | 0 <= k < |rest| :: '\n' !in rest[k]
    ensures var ls := comments + ([line] + rest);
      forall k | 0 <= k < |ls| :: '\n' !in ls[k]
  {
    var ls := comments + ([line] + rest);
    forall k | 0 <= k < |ls| ensures '\n' !in ls[k] {
      if k < |comments| {
        assert ls[k] == comments[k];
      } else if k > |comments| {
        assert ls[k] == rest[k - |comments| - 1];
      }
    }
  }

  /** `DimacsRead` on comments, a problem line and well-formed arcs. */
  lemma {:induction false} DimacsReadClean(ls: seq<string>, j: nat, nm: seq<int>, es: seq<Edge>)
    requires j < |ls| && SkipLines(ls, 0, 'c') == j && ProblemOk(ls[j]) && |ls[j]| >= 4
    requires ReadInts(Substr(ls[j], 4), 2) == Some((nm, ""))
    requires Entries(ls[j + 1..], Iterations(nm[1]), ArcEdge) == (true, es)
    ensures DimacsRead(ls) == Parsed(Clean, Iterations(nm[0]), es)
  {
  }

  /**
   * Round trip: a well-formed `.gr` file reads back as the graph it was
   * written from, with no diagnostic.
   */
  lemma {:induction false} DimacsRoundTrip(comments: seq<string>, n: nat, es: seq<Edge>)
    requires CommentLines(comments, 'c') && Writable(es) && n <= INT_MAX && |es| <= INT_MAX
    ensures DimacsRead(Lines(Unlines(DimacsLines(comments, n, es)))) == Parsed(Clean, n, es)
  {
    var line := ProblemLine(n, |es|);
    var arcs := ArcLines(es);
    var ls := DimacsLines(comments, n, es);
    ProblemLineRead(n, |es|);
    NumberedOneLine(|es|, ArcLineFn(es));
    NoBreaks(comments, line, arcs);
    LinesOfUnlines(ls);
    CommentsThenLine(comments, line, arcs);
    ArcLinesRead(es);
    DimacsReadClean(ls, |comments|, [n, |es|], es);
  }
}
