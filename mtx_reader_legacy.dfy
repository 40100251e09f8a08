/**
 * The older `readMtxGraph` (src/mtx_reader.hpp). Unlike the reader in
 * src/include/mtx_reader.hpp it reads everything after the comment loop
 * from one stream of tokens: the size integers and the entries are taken
 * with `is >> x` wherever they are, not line by line, and a failed
 * extraction leaves the stream failed for every later one.
 *
 * Two differences from the newer reader are kept as written: the banner
 * test compares a 33-character prefix with the 32-character banner, so only
 * a first line that is exactly the banner passes; and the comment loop
 * consumes the first line that is not a comment, so the size integers are
 * read from the text after that line.
 */
module LegacyMtxReader {
  import opened Text
  import opened Graphs
  import opened Parsing
  import MtxReader

  /** The diagnostic written to `std::cerr`: the header one, or none at all. */
  datatype Report = Done | InvalidHeader

  /** `line.substr(0, 33) == "%%MatrixMarket matrix coordinate"`. */
  predicate HeaderOk(line: string)
  {
    PrefixEquals(line, 33, MtxReader.BANNER)
  }

  /** The 33-character test accepts the banner itself and nothing else. */
  lemma {:induction false} HeaderOkIff(line: string)
    ensures HeaderOk(line) <==> line == MtxReader.BANNER
  {
    if |line| > 33 {
      assert |line[..33]| != |MtxReader.BANNER|;
    }
  }

  /**
   * A banner line that goes on to name the field and the symmetry, as Matrix
   * Market files do, passes the newer reader's banner test and fails this one.
   */
  lemma {:induction false} QualifiedBannerRejected()
    ensures var line := MtxReader.BANNER + " real general";
      !HeaderOk(line) && MtxReader.HeaderOk(line)
  {
    var line := MtxReader.BANNER + " real general";
    MtxReader.BannerHeaderOk(" real general");
    HeaderOkIff(line);
    assert |line| != |MtxReader.BANNER|;
  }

  /**
   * The comment loop `while (getline(is, line)) if (line[0] != '%') break;`
   * on the text `s`: the text after the first line that does not start with
   * `%`, or `None` when `getline` runs out first and fails the stream.
   */
  function AfterComments(s: string): (r: Option<string>)
    ensures r.Some? ==> |r.value| < |s|
    decreases |s|
  {
    match GetLine(s)
    case None => None
    case Some((line, rest)) => if FirstChar(line) == '%' then AfterComments(rest) else Some(rest)
  }

  /**
   * One entry: `is >> u >> v` has read `uv` and left `rest`; then `is >> w`
   * either reads the weight or fails, in which case the weight is 1 and the
   * stream stays failed (`None`).
   */
  function EntryOf(uv: seq<int>, rest: string): (r: (Edge, Option<string>))
    requires |uv| == 2
    ensures r.0.u == uv[0] - 1 && r.0.v == uv[1] - 1
    ensures r.1.None? <==> ReadInt(rest).None?
    ensures r.1.None? ==> r.0.w == 1
  {
    match ReadInt(rest)
    case None => (Edge(uv[0] - 1, uv[1] - 1, 1), None)
    case Some((w, after)) => (Edge(uv[0] - 1, uv[1] - 1, w), Some(after))
  }

  /**
   * The edge loop `for (int i = 0; i < m; ++i)` on the stream `st` (`None`
   * once failed): each iteration needs `is >> u >> v` to succeed, else the
   * reader returns with no diagnostic.
   */
  function LegacyEntries(st: Option<string>, m: nat): (r: seq<Edge>)
    ensures |r| <= m
    decreases m
  {
    if m == 0 || st.None? then []
    else match ReadInts(st.value, 2)
      case None => []
      case Some((uv, rest)) =>
        var (e, next) := EntryOf(uv, rest);
        [e] + LegacyEntries(next, m - 1)
  }

  /** What follows the comment loop, on the text `s` after the discarded line. */
  function LegacyFrom(s: string): (r: Parsed<Report>)
    ensures r.report == InvalidHeader <==> ReadInts(s, 3).None?
    ensures r.report == InvalidHeader ==> r.nodes == 0 && r.edges == []
  {
    match ReadInts(s, 3)
    case None => Parsed(InvalidHeader, 0, [])
    case Some((size, after)) => Parsed(Done, Iterations(size[1]), LegacyEntries(Some(after), Iterations(size[2])))
  }

  /** What the older `readMtxGraph` does with the text `text`. */
  function LegacyRead(text: string): (r: Parsed<Report>)
    ensures r.report == InvalidHeader ==> r.nodes == 0 && r.edges == []
    ensures (GetLine(text).None? || !HeaderOk(GetLine(text).value.0)) ==> r.report == InvalidHeader
  {
    match GetLine(text)
    case None => Parsed(InvalidHeader, 0, [])
    case Some((first, rest)) =>
      if !HeaderOk(first) then Parsed(InvalidHeader, 0, [])
      else match AfterComments(rest)
        case None => Parsed(InvalidHeader, 0, [])
        case Some(s) => LegacyFrom(s)
  }

  /** The comment loop, as a loop over `std::getline`. */
  method SkipCommentLines(input: string) returns (st: Option<string>)
    ensures st == AfterComments(input)
  {
    var rest := input;
    var next := GetLine(rest);
    while next.Some? && FirstChar(next.value.0) == '%'
      invariant AfterComments(rest) == AfterComments(input) && next == GetLine(rest)
      decreases |rest|
    {
      rest := next.value.1;
      next := GetLine(rest);
    }
    st := if next.None? then None else Some(next.value.1);
  }

  /**
   * `readMtxGraph(graph, arc_map, is)` of src/mtx_reader.hpp: clears `g`
   * and reads the text as described above, leaving in `g` what was read.
   */
  method ReadLegacyMtxGraph(g: ListGraph, text: string) returns (report: Report)
    modifies g
    ensures LegacyRead(text) == Parsed(report, g.nodeCount, g.edges)
  {
    g.Clear();
    var first := GetLine(text);
    if first.None? || !HeaderOk(first.value.0) {
      return InvalidHeader;
    }
    var st := SkipCommentLines(first.value.1);
    if st.None? {
      return InvalidHeader;
    }
    // `is >> n >> n >> m`: the second integer overwrites the first.
    var size := ReadInts(st.value, 3);
    if size.None? {
      return InvalidHeader;
    }
    AddNodes(g, Iterations(size.value.0[1]));
    ReadLegacyEntries(g, size.value.1, Iterations(size.value.0[2]));
    return Done;
  }

  /** The edge loop of the older `readMtxGraph`, with the stream's fail state as `None`. */
  method ReadLegacyEntries(g: ListGraph, input: string, m: nat)
    requires g.edges == []
    modifies g
    ensures g.edges == LegacyEntries(Some(input), m) && g.nodeCount == old(g.nodeCount)
  {
    ghost var all := LegacyEntries(Some(input), m);
    var st := Some(input);
    for i := 0 to m
      invariant g.edges + LegacyEntries(st, m - i) == all
      invariant g.nodeCount == old(g.nodeCount)
    {
      if st.None? {
        // `is >> u >> v` on a failed stream fails.
        EntriesStopped(g.edges, st, m - i);
        return;
      }
      var uv := ReadInts(st.value, 2);
      if uv.None? {
        EntriesStopped(g.edges, st, m - i);
        return;
      }
      var e, next := ReadWeight(uv.value.0, uv.value.1);
      EntriesAdvance(g.edges, st, m - i, e, next);
      var _ := g.AddEdge(e.u, e.v, e.w);
      st := next;
    }
    EntriesStopped(g.edges, st, 0);
  }

  /**
   * The rest of an iteration once `is >> u >> v` has read `uv`: `is >> w`,
   * with the weight 1 when it fails.
   */
  method ReadWeight(uv: seq<int>, rest: string) returns (e: Edge, next: Option<string>)
    requires |uv| == 2
    ensures (e, next) == EntryOf(uv, rest)
  {
    var w: int;
    var weight := ReadInt(rest);
    if weight.Some? {
      w, next := weight.value.0, Some(weight.value.1);
    } else {
      // Default weight to 1; the stream stays failed.
      w, next := 1, None;
    }
    e := Edge(uv[0] - 1, uv[1] - 1, w);
  }

  /** An iteration that reads an entry moves it from the entries still to read to the edges read. */
  lemma {:induction false} EntriesAdvance(done: seq<Edge>, st: Option<string>, k: nat, e: Edge, next: Option<string>)
    requires k > 0 && st.Some? && ReadInts(st.value, 2).Some?
    requires (e, next) == EntryOf(ReadInts(st.value, 2).value.0, ReadInts(st.value, 2).value.1)
    ensures done + LegacyEntries(st, k) == (done + [e]) + LegacyEntries(next, k - 1)
  {
    assert LegacyEntries(st, k) == [e] + LegacyEntries(next, k - 1);
  }

  /** A failed stream, an entry that does not read, or no iterations left: no more entries. */
  lemma {:induction false} EntriesStopped(done: seq<Edge>, st: Option<string>, k: nat)
    requires k == 0 || st.None? || ReadInts(st.value, 2).None?
    ensures done + LegacyEntries(st, k) == done
  {
    assert LegacyEntries(st, k) == [];
  }

  /**
   * Once a weight does not read, no further entry is read: the edge before
   * it is the last one, with weight 1.
   */
  lemma {:induction false} FailedWeightEndsEntries(s: string, m: nat)
    requires m > 0 && ReadInts(s, 2).Some? && ReadInt(ReadInts(s, 2).value.1).None?
    ensures var uv := ReadInts(s, 2).value.0;
      LegacyEntries(Some(s), m) == [Edge(uv[0] - 1, uv[1] - 1, 1)]
  {
    var uv := ReadInts(s, 2).value.0;
    assert LegacyEntries(None, m - 1) == [];
    assert LegacyEntries(Some(s), m) == [Edge(uv[0] - 1, uv[1] - 1, 1)] + [];
  }

  // ---------------------------------------------------------------------------
  // Where the size integers come from
  // ---------------------------------------------------------------------------

  /** The comment loop passes over comment lines and consumes the first other line. */
  lemma {:induction false} AfterCommentsSkips(comments: seq<string>, line: string, rest: string)
    requires CommentLines(comments, '%') && '\n' !in line && FirstChar(line) != '%'
    ensures AfterComments(Unlines(comments + [line]) + rest) == Some(rest)
  {
    if |comments| == 0 {
      assert comments + [line] == [line];
      assert Unlines([line]) + rest == line + "\n" + rest;
      GetLineOfLine(line, rest);
    } else {
      var tail := comments[1..] + [line];
      assert (comments + [line])[1..] == tail;
      assert Unlines(comments + [line]) + rest == comments[0] + "\n" + (Unlines(tail) + rest);
      GetLineOfLine(comments[0], Unlines(tail) + rest);
      forall k | 0 <= k < |comments[1..]|
        ensures FirstChar(comments[1..][k]) == '%' && '\n' !in comments[1..][k]
      {
        assert comments[1..][k] == comments[k + 1];
      }
      AfterCommentsSkips(comments[1..], line, rest);
    }
  }

  /**
   * A file made of the banner, comment lines, the size line and more text:
   * the older reader reads its size integers from the text after the size
   * line, which it has discarded.
   */
  lemma {:induction false} SizesReadAfterSizeLine(header: string, comments: seq<string>, line: string, rest: string)
    requires HeaderOk(header) && CommentLines(comments, '%')
    requires '\n' !in line && FirstChar(line) != '%'
    ensures LegacyRead(Unlines([header] + comments + [line]) + rest) == LegacyFrom(rest)
  {
    HeaderOkIff(header);
    var body := Unlines(comments + [line]) + rest;
    assert [header] + comments + [line] == [header] + (comments + [line]);
    assert ([header] + (comments + [line]))[1..] == comments + [line];
    assert Unlines([header] + comments + [line]) + rest == header + "\n" + body;
    GetLineOfLine(header, body);
    AfterCommentsSkips(comments, line, rest);
  }

  /**
   * A file with a size line and one weighted entry, as the newer reader
   * reads it back: the older reader takes the entry's three integers as the
   * sizes, so its node count is the entry's second node id.
   */
  lemma {:induction false} SizesFromFirstEntry(header: string, rows: int, n: nat, e: Edge)
    requires HeaderOk(header) && InInt32(rows) && n <= INT_MAX
    requires InInt32(e.u + 1) && InInt32(e.v + 1) && InInt32(e.w)
    ensures LegacyRead(Unlines(MtxReader.MtxLines(header, [], rows, n, [e], true))) ==
      Parsed(Done, Iterations(e.v + 1), LegacyEntries(Some("\n"), Iterations(e.w)))
  {
    HeaderOkIff(header);
    var sizeLine := Spaced([rows, n, 1]);
    var entry := Spaced([e.u + 1, e.v + 1, e.w]);
    var ls := MtxReader.MtxLines(header, [], rows, n, [e], true);
    MtxReader.EntryLineAt([e], true, 0);
    assert MtxReader.EntryLines([e], true) == [entry];
    assert ls == [header] + [] + [sizeLine] + [entry];
    UnlinesAppend([header] + [] + [sizeLine], [entry]);
    assert Unlines([entry]) == entry + "\n";
    SizesReadAfterSizeLine(header, [], sizeLine, entry + "\n");
    ReadIntsSpaced([e.u + 1, e.v + 1, e.w], "\n");
  }

  /**
   * The smallest instance: a file for three nodes and the edge between the
   * first two with weight 5, which the newer reader reads back in full,
   * gives the older reader two nodes.
   */
  lemma {:induction false} SizeLineDiscarded()
    ensures var ls := MtxReader.MtxLines(MtxReader.BANNER, [], 3, 3, [Edge(0, 1, 5)], true);
      MtxReader.MtxRead(Lines(Unlines(ls))) == Parsed(MtxReader.Clean, 3, [Edge(0, 1, 5)]) &&
      LegacyRead(Unlines(ls)).nodes == 2
  {
    HeaderOkIff(MtxReader.BANNER);
    MtxReader.BannerHeaderOk("");
    assert MtxReader.BANNER + "" == MtxReader.BANNER;
    assert MtxReader.Writable([Edge(0, 1, 5)], true);
    MtxReader.MtxRoundTrip(MtxReader.BANNER, [], 3, 3, [Edge(0, 1, 5)], true);
    SizesFromFirstEntry(MtxReader.BANNER, 3, 3, Edge(0, 1, 5));
  }
}
