/**
 * What the graph readers (src/include/mtx_reader.hpp,
 * src/include/dimacs_reader.hpp) have in common: they skip a run of comment
 * lines with `std::getline`, read a size line, add the nodes, and then read
 * one edge per line until the declared number of edges has been read or a
 * line does not parse. The text arrives as the lines that repeated
 * `std::getline` calls return (`Text.Lines`).
 */
module Parsing {
  import opened Text
  import opened Graphs

  /**
   * What a reader leaves behind: the diagnostic it wrote to `std::cerr` (or
   * none), and the nodes and weighted edges it added to the cleared graph.
   */
  datatype Parsed<R> = Parsed(report: R, nodes: nat, edges: seq<Edge>)

  /**
   * The comment-skipping loop `while (getline(is, line)) if (line[0] != skip) break;`
   * started at line `i`: the index of the line it stops at, or `|ls|` when
   * the text runs out first.
   */
  function SkipLines(ls: seq<string>, i: nat, skip: char): (j: nat)
    requires i <= |ls|
    ensures i <= j <= |ls|
    ensures forall k | i <= k < j :: FirstChar(ls[k]) == skip
    ensures j < |ls| ==> FirstChar(ls[j]) != skip
    decreases |ls| - i
  {
    if i == |ls| || FirstChar(ls[i]) != skip then i else SkipLines(ls, i + 1, skip)
  }

  /** Comment lines, as a writer would emit them: each starts with `skip` and holds no line break. */
  predicate CommentLines(comments: seq<string>, skip: char) {
    forall k | 0 <= k < |comments| :: FirstChar(comments[k]) == skip && '\n' !in comments[k]
  }

  /** Any index that satisfies the description of `SkipLines` is the one it returns. */
  lemma {:induction false} SkipLinesAt(ls: seq<string>, i: nat, skip: char, j: nat)
    requires i <= j <= |ls|
    requires forall k | i <= k < j :: FirstChar(ls[k]) == skip
    requires j < |ls| ==> FirstChar(ls[j]) != skip
    ensures SkipLines(ls, i, skip) == j
  {
  }

  /**
   * The comment-skipping loop, run on a stream whose lines are `ls[i..]`:
   * whether it found a line that does not start with `skip`, that line, and
   * the stream after it.
   */
  method SkipComments(input: string, ghost ls: seq<string>, ghost i: nat, skip: char)
    returns (found: bool, line: string, rest: string)
    requires i <= |ls| && Lines(input) == ls[i..]
    ensures var j := SkipLines(ls, i, skip);
      (found <==> j < |ls|) && (found ==> line == ls[j] && Lines(rest) == ls[j + 1..])
  {
    rest := input;
    ghost var idx := i;
    var next := GetLine(rest);
    while next.Some? && FirstChar(next.value.0) == skip
      invariant i <= idx <= |ls| && Lines(rest) == ls[idx..] && next == GetLine(rest)
      invariant forall k | i <= k < idx :: FirstChar(ls[k]) == skip
      decreases |rest|
    {
      LinesStep(rest, ls, idx, next.value.0, next.value.1);
      rest := next.value.1;
      idx := idx + 1;
      next := GetLine(rest);
    }
    SkipStops(rest, ls, i, idx, skip);
    if next.None? {
      found, line := false, "";
    } else {
      found, line, rest := true, next.value.0, next.value.1;
    }
  }

  /** Where the comment-skipping loop stops: at the end of the text, or at a line not starting with `skip`. */
  lemma {:induction false} SkipStops(rest: string, ls: seq<string>, i: nat, idx: nat, skip: char)
    requires i <= idx <= |ls| && Lines(rest) == ls[idx..]
    requires forall k | i <= k < idx :: FirstChar(ls[k]) == skip
    requires GetLine(rest).None? || FirstChar(GetLine(rest).value.0) != skip
    ensures var j := SkipLines(ls, i, skip);
      match GetLine(rest)
      case None => j == |ls|
      case Some((line, after)) => j < |ls| && line == ls[j] && Lines(after) == ls[j + 1..]
  {
    match GetLine(rest)
    case None =>
      LinesEnd(rest, ls, idx);
      SkipLinesAt(ls, i, skip, idx);
    case Some((line, after)) =>
      LinesStep(rest, ls, idx, line, after);
      SkipLinesAt(ls, i, skip, idx);
  }

  /** The node loop `for (int i = 0; i < n; ++i) graph.addNode();`, run `count` times. */
  method AddNodes(g: ListGraph, count: nat)
    modifies g
    ensures g.nodeCount == old(g.nodeCount) + count && g.edges == old(g.edges)
  {
    for i := 0 to count
      invariant g.nodeCount == old(g.nodeCount) + i && g.edges == old(g.edges)
    {
      var _ := g.AddNode();
    }
  }

  /**
   * The edge loop over the stream left after the size line, whose lines are
   * `ls`: each iteration reads a line with `std::getline` and adds the edge
   * that `parse` finds in it; the loop returns early, with `complete` false,
   * when no line is left or `parse` rejects the line.
   */
  method ReadEdges(g: ListGraph, input: string, ghost ls: seq<string>, m: nat, parse: string -> Option<Edge>)
    returns (complete: bool)
    requires Lines(input) == ls && g.edges == []
    modifies g
    ensures complete == Entries(ls, m, parse).0 && g.edges == Entries(ls, m, parse).1
    ensures g.nodeCount == old(g.nodeCount)
  {
    ghost var entries := Entries(ls, m, parse);
    var input := input;
    for i := 0 to m
      invariant i <= |ls| && Lines(input) == ls[i..]
      invariant i <= |entries.1| && g.edges == entries.1[..i]
      invariant g.nodeCount == old(g.nodeCount)
    {
      var next := GetLine(input);
      if next.None? {
        LinesEnd(input, ls, i);
        EntriesStop(ls, m, parse, i);
        return false;
      }
      var line := next.value.0;
      LinesStep(input, ls, i, line, next.value.1);
      input := next.value.1;
      var entry := parse(line);
      if entry.None? {
        EntriesStop(ls, m, parse, i);
        return false;
      }
      var e := entry.value;
      var _ := g.AddEdge(e.u, e.v, e.w);
      EntriesNext(ls, m, parse, i, e);
    }
    return true;
  }

  /**
   * The edge loop `for (int i = 0; i < m; ++i)` over the lines `ls` that
   * follow the size line: each iteration needs a line that `parse` accepts.
   * Returns whether all `m` iterations completed and the edges added; the
   * loop stops at the first line missing or rejected.
   */
  function Entries(ls: seq<string>, m: nat, parse: string -> Option<Edge>): (r: (bool, seq<Edge>))
    ensures |r.1| <= m && |r.1| <= |ls|
    ensures forall k | 0 <= k < |r.1| :: parse(ls[k]) == Some(r.1[k])
    ensures r.0 <==> |r.1| == m
    ensures !r.0 ==> |r.1| == |ls| || parse(ls[|r.1|]).None?
    decreases m
  {
    if m == 0 then (true, [])
    else if |ls| == 0 then (false, [])
    else match parse(ls[0])
      case None => (false, [])
      case Some(e) =>
        var rest := Entries(ls[1..], m - 1, parse);
        (rest.0, [e] + rest.1)
  }

  /** An iteration that finds a line `parse` accepts adds that line's edge. */
  lemma {:induction false} EntriesNext(ls: seq<string>, m: nat, parse: string -> Option<Edge>, i: nat, e: Edge)
    requires i < m && i < |ls| && i <= |Entries(ls, m, parse).1|
    requires parse(ls[i]) == Some(e)
    ensures i < |Entries(ls, m, parse).1| && Entries(ls, m, parse).1[i] == e
    ensures Entries(ls, m, parse).1[..i + 1] == Entries(ls, m, parse).1[..i] + [e]
  {
    var r := Entries(ls, m, parse).1;
    assert r[..i + 1] == r[..i] + [r[i]];
  }

  /** An iteration that finds no line, or one `parse` rejects, ends the loop unfinished. */
  lemma {:induction false} EntriesStop(ls: seq<string>, m: nat, parse: string -> Option<Edge>, i: nat)
    requires i < m && i <= |ls| && i <= |Entries(ls, m, parse).1|
    requires i == |ls| || parse(ls[i]).None?
    ensures !Entries(ls, m, parse).0 && Entries(ls, m, parse).1[..i] == Entries(ls, m, parse).1
  {
    var r := Entries(ls, m, parse).1;
    assert |r| == i && r[..i] == r;
  }

  /** Lines that all parse, at least `|es|` of them, give exactly the edges `es`. */
  lemma {:induction false} EntriesOf(ls: seq<string>, es: seq<Edge>, parse: string -> Option<Edge>)
    requires |es| <= |ls|
    requires forall k | 0 <= k < |es| :: parse(ls[k]) == Some(es[k])
    ensures Entries(ls, |es|, parse) == (true, es)
  {
    var r := Entries(ls, |es|, parse);
    assert |r.1| == |es|;
    forall k | 0 <= k < |es| ensures r.1[k] == es[k] {
      assert parse(ls[k]) == Some(r.1[k]);
    }
    assert r.1 == es;
  }
}
