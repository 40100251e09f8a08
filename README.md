# min-k-cut, modelled in Dafny

min-k-cut computes an approximate minimum k-cut of an undirected weighted graph from a Gomory-Hu tree. The graph is a LEMON `ListGraph` with an `EdgeMap<int>` of weights. The tree is built either by Gusfield's variant (`run_gomory_hu`) or by the original supernode-splitting construction (`run_gomory_hu_2`). The k-1 lightest tree edges give the cut. `min_k_cut_value` sums their flows, and `min_k_cut_map` removes them and colours the remaining components.

Before the tree is built, `preprocess_graph` removes self-loops and parallel edges. It then joins every component to node 0 with an edge of weight 42. Graphs are read from Matrix Market files (the current reader and a legacy one) or DIMACS shortest-path `.gr` files. They are written as Graphviz DOT. Timings are collected by a JSON logger.

The modules follow the source files:

| module | file | models |
|---|---|---|
| `Text` | text.dfy | `std::istream >> int`, `std::getline`, `std::to_string`, and an output stream that text is appended to |
| `Graphs` | graphs.dfy | the part of `ListGraph` the core uses (a node count and an edge sequence `Edge(u, v, w)` carrying the weight), erasure, and path connectivity with a computable reachability closure (what LEMON's `Bfs` reaches) |
| `Parsing` | parsing.dfy | the comment-skipping loop, node creation and edge-reading loop that the two `getline`-based readers share |
| `MtxReader` | mtx_reader.dfy | `readMtxGraph` of src/include/mtx_reader.hpp |
| `LegacyMtxReader` | mtx_reader_legacy.dfy | `readMtxGraph` of src/mtx_reader.hpp, which mixes `getline` with `is >>` on the whole stream |
| `DimacsReader` | dimacs_reader.dfy | `readDimacsGraph` |
| `DotWriter` | dot_writer.dfy | `detail::writeDotNodes`, `detail::writeDotEdges` and the four `writeDotGraph` overloads |
| `JsonLog` | json_logger.dfy | `json_logger` (`add`, `write` and the destructor) |
| `Preprocess` | preprocess.dfy | `preprocess_graph` |
| `Components` | components.dfy | how the number of connected components changes when edges are added or erased, and that a spanning tree cut at r edges leaves r + 1 components, which `min_k_cut_map` relies on for its k colours |
| `GusfieldSpec` | gusfield.dfy | Gusfield's iteration on the maps `_p` and `_fl` as functions |
| `SupernodeSpec` | supernodes.dfy | the supernode tree of `run_gomory_hu_2` and one split step as functions, with the invariant the split keeps |
| `Lightest` | lightest.dfy | the bounded max-heap that keeps the k-1 smallest values, and sums |
| `Colouring` | colouring.dfy | the stack-based flood fill of `min_k_cut_map` |
| `GomoryHu` | k_min_cut.dfy | the class `k_min_cut` (`KMinCut`) and its four operations |

The minimum s-t cut (LEMON's `Preflow`) is a function parameter of the model. For Gusfield's variant it returns the flow value and the source side. For `run_gomory_hu_2` it also returns the side of the cut on which every other supernode's contracted node lies. LEMON's graph is modelled with nodes numbered `0 .. n-1` and edges kept in insertion order. Iteration runs in ascending id order.

## Model

| member | source | states |
|---|---|---|
| Text.ReadInt | src/include/mtx_reader.hpp:59 | a successful `>> int` yields a value in the 32-bit range and consumes at least one character |
| Text.ReadIntOfIntToString | src/include/util.hpp:42 | the text `std::to_string` gives an `int` reads back with `>>` as the same `int`, leaving what follows untouched |
| Text.ReadIntOfNegative | src/include/util.hpp:42 | a minus sign followed by the digits of n reads back as -n, down to `INT_MIN` |
| Text.ReadIntsTokens | src/include/dimacs_reader.hpp:33 | space-separated 32-bit integers read back with repeated `>>` as exactly those integers |
| Text.ReadIntsSpaced | src/include/mtx_reader.hpp:34 | a line of integers separated by single spaces reads back as those integers |
| Text.NatToStringValue | src/include/util.hpp:42 | the decimal digits written for a natural number denote that number |
| Text.IntToString | src/include/util.hpp:42 | `std::to_string` of an `int` is non-empty, has no line break or quote, and starts with a digit or a minus sign |
| Text.ReadIntAfterSpace | src/include/mtx_reader.hpp:59 | `>>` skips any run of leading white space before the number |
| Text.GetLine | src/include/mtx_reader.hpp:49 | `getline` fails exactly at end of input; otherwise it yields a line without a line break and leaves a strictly shorter input |
| Text.Lines | src/include/mtx_reader.hpp:24 | the lines that successive `getline` calls yield contain no line breaks |
| Text.LinesOfUnlines | src/include/mtx_reader.hpp:24 | lines without line breaks, each written with a trailing newline, are split back by `getline` into the same lines |
| Text.UnlinesAppend | src/include/dot_writer.hpp:61-66 | writing two groups of lines one after the other is writing their concatenation |
| Text.OutStream.Write | src/include/dot_writer.hpp:14 | `os << s` appends `s` to what the stream holds |
| Parsing.SkipLinesAt | src/include/mtx_reader.hpp:24-30 | the comment loop stops at the first line not starting with the comment character, or at the end of the text |
| Parsing.SkipComments | src/include/mtx_reader.hpp:24-30 | the loop finds a line exactly when one not starting with the comment character exists; that line is the one it holds and the input continues after it |
| Parsing.AddNodes | src/include/mtx_reader.hpp:41-44 | `count` calls of `addNode` raise the node count by `count` and leave the edges alone |
| Parsing.ReadEdges | src/include/mtx_reader.hpp:47-74 | the edge loop adds exactly the edges `Entries` describes and reports whether all `m` were read |
| Parsing.Entries | src/include/dimacs_reader.hpp:46-68 | edge k is line k parsed; all `m` edges are read exactly when none fails; otherwise reading stopped at the end of the text or at the first line that does not parse |
| Parsing.EntriesOf | src/include/dimacs_reader.hpp:46-68 | lines that all parse as the given edges are read completely as exactly those edges |
| Parsing.EntriesNext | src/include/mtx_reader.hpp:47-74 | a line that parses extends the edges read so far by its edge |
| Parsing.EntriesStop | src/include/mtx_reader.hpp:49-63 | a missing or unparsable line ends reading with an incomplete result holding the edges read so far |
| MtxReader.HeaderOkIff | src/include/mtx_reader.hpp:16-17 | the header test accepts exactly the lines that begin with `%%MatrixMarket matrix coordinate` |
| MtxReader.BannerHeaderOk | src/include/mtx_reader.hpp:15-17 | every banner qualified with a field and a symmetry, such as `real general`, is accepted |
| MtxReader.EntryEdge | src/include/mtx_reader.hpp:55-73 | an entry line gives an edge exactly when its two ids read |
| MtxReader.EntryEdgeOf | src/include/mtx_reader.hpp:59-73 | with a readable weight the edge joins `u-1` and `v-1` with that weight |
| MtxReader.EntryEdgeDefault | src/include/mtx_reader.hpp:67-71 | with no readable weight the edge's weight is 1 |
| MtxReader.EntryEdgeWeighted | src/include/mtx_reader.hpp:59-73 | the line `u v w` reads as the edge `(u-1, v-1, w)` |
| MtxReader.EntryEdgeUnweighted | src/include/mtx_reader.hpp:67-71 | the line `u v` reads as the edge `(u-1, v-1, 1)` |
| MtxReader.EntryLine | src/include/mtx_reader.hpp:55 | an entry line written for an edge is a single line |
| MtxReader.EntryEdgeOfLine | src/include/mtx_reader.hpp:55-73 | an entry line written for an edge reads back as that edge, with or without the weight column when the weight is 1 |
| MtxReader.MtxRead | src/include/mtx_reader.hpp:7-77 | a missing or wrong header is reported as an invalid header with an empty graph; a clean read has fewer edges than the text has lines |
| MtxReader.ReadMtxGraph | src/include/mtx_reader.hpp:7-77 | the reader leaves in the graph, and reports, exactly what `MtxRead` gives for the lines of the text |
| MtxReader.MtxReadClean | src/include/mtx_reader.hpp:16-74 | a good header, comments, a size line and `m` readable entries give a clean read with the node count from the size line and those edges |
| MtxReader.CommentsSkipped | src/include/mtx_reader.hpp:24-30 | after the header, comment lines are skipped up to the size line, and the entries follow it |
| MtxReader.SizeLineRead | src/include/mtx_reader.hpp:33-38 | a size line `rows n m` written with single spaces reads back as its three numbers |
| MtxReader.EntryLinesRead | src/include/mtx_reader.hpp:47-74 | the entry lines written for a list of edges read back completely as that list |
| MtxReader.MtxLinesShape | src/include/mtx_reader.hpp:15-74 | a written file splits back into its lines: the header first, then the comments, then the size line and the entry lines |
| MtxReader.MtxRoundTrip | src/include/mtx_reader.hpp:7-77 | a well-formed Matrix Market file reads back cleanly as the node count and edges it was written from |
| LegacyMtxReader.HeaderOkIff | src/mtx_reader.hpp:15 | the legacy header test accepts exactly one line: the unqualified banner |
| LegacyMtxReader.QualifiedBannerRejected | src/mtx_reader.hpp:15 | the banner followed by ` real general` is rejected by the legacy test and accepted by the current one |
| LegacyMtxReader.AfterComments | src/mtx_reader.hpp:20-25 | the comment loop consumes a strictly shorter remainder of the input |
| LegacyMtxReader.AfterCommentsSkips | src/mtx_reader.hpp:20-25 | the comment loop consumes the comment lines and the first other line, leaving exactly what follows |
| LegacyMtxReader.SkipCommentLines | src/mtx_reader.hpp:20-25 | the loop leaves the input where `AfterComments` says |
| LegacyMtxReader.EntryOf | src/mtx_reader.hpp:42-53 | an entry joins `u-1` and `v-1`; a weight that does not read gives 1 and fails the stream |
| LegacyMtxReader.ReadWeight | src/mtx_reader.hpp:47-53 | reading the weight produces the edge and stream state `EntryOf` describes |
| LegacyMtxReader.LegacyEntries | src/mtx_reader.hpp:40-54 | the edge loop adds at most `m` edges |
| LegacyMtxReader.EntriesAdvance | src/mtx_reader.hpp:41-53 | one iteration with readable ids appends its edge and continues from the stream state after it |
| LegacyMtxReader.EntriesStopped | src/mtx_reader.hpp:43-44 | a failed stream or unreadable ids end the loop with no further edges |
| LegacyMtxReader.FailedWeightEndsEntries | src/mtx_reader.hpp:47-53 | an entry without a weight is added with weight 1 and, since the stream has failed, is the last edge read |
| LegacyMtxReader.ReadLegacyEntries | src/mtx_reader.hpp:40-54 | the edge loop adds exactly the edges `LegacyEntries` describes |
| LegacyMtxReader.LegacyFrom | src/mtx_reader.hpp:27-54 | the sizes fail to read exactly when three integers cannot be read from the stream, and then the graph is left empty |
| LegacyMtxReader.LegacyRead | src/mtx_reader.hpp:8-57 | a missing or wrong first line is reported as an invalid header with an empty graph |
| LegacyMtxReader.ReadLegacyMtxGraph | src/mtx_reader.hpp:8-57 | the legacy reader leaves in the graph, and reports, exactly what `LegacyRead` gives for the text |
| LegacyMtxReader.SizesReadAfterSizeLine | src/mtx_reader.hpp:20-32 | the sizes are read from the text after the first non-comment line, not from that line |
| LegacyMtxReader.SizesFromFirstEntry | src/mtx_reader.hpp:20-54 | on a file with one entry, the node count comes from the entry's second id and the edge count from its weight |
| LegacyMtxReader.SizeLineDiscarded | src/mtx_reader.hpp:20-36 | a three-node file read by the current reader gives three nodes and its edge, but the legacy reader gives two nodes |
| DimacsReader.ArcEdge | src/include/dimacs_reader.hpp:48-65 | an arc line gives an edge exactly when it starts with `a` and three integers follow, joining `u-1` and `v-1` with weight `w` |
| DimacsReader.DimacsRead | src/include/dimacs_reader.hpp:7-71 | the file is unsupported exactly when the first non-comment line is missing or does not begin with `p sp`; an unsupported file or an unreadable problem line leaves the graph empty |
| DimacsReader.ReadDimacsGraph | src/include/dimacs_reader.hpp:7-71 | the reader leaves in the graph, and reports, exactly what `DimacsRead` gives for the lines of the text |
| DimacsReader.ProblemLine | src/include/dimacs_reader.hpp:26-37 | a written problem line is a single line |
| DimacsReader.ArcLine | src/include/dimacs_reader.hpp:48-58 | a written arc line is a single line |
| DimacsReader.ArcLines | src/include/dimacs_reader.hpp:46-68 | one arc line is written per edge |
| DimacsReader.ArcLineAt | src/include/dimacs_reader.hpp:46-68 | arc line k is the line of edge k |
| DimacsReader.DimacsLines | src/include/dimacs_reader.hpp:16-68 | a `.gr` file has its comments, one problem line and one arc line per edge |
| DimacsReader.ProblemLineRead | src/include/dimacs_reader.hpp:26-37 | a written problem line passes the `p sp` test, is not a comment, and its node and arc counts read back |
| DimacsReader.ArcEdgeOfLine | src/include/dimacs_reader.hpp:48-67 | a written arc line reads back as its edge |
| DimacsReader.ArcLinesRead | src/include/dimacs_reader.hpp:46-68 | the arc lines written for a list of edges read back completely as that list |
| DimacsReader.CommentsThenLine | src/include/dimacs_reader.hpp:16-22 | the comment loop stops at the first non-comment line, with the rest of the file after it |
| DimacsReader.NoBreaks | src/include/dimacs_reader.hpp:16-22 | comments, a single line and single lines together hold no line break inside a line |
| DimacsReader.DimacsReadClean | src/include/dimacs_reader.hpp:16-68 | comments, a good problem line and readable arcs give a clean read with that node count and those edges |
| DimacsReader.DimacsRoundTrip | src/include/dimacs_reader.hpp:7-71 | a well-formed `.gr` file reads back cleanly as the node count and edges it was written from |
| DotWriter.NodeLines | src/include/dot_writer.hpp:10-29 | one statement is written per node |
| DotWriter.EdgeLines | src/include/dot_writer.hpp:31-53 | one statement is written per edge |
| DotWriter.NodeLineAt | src/include/dot_writer.hpp:12-14 | the statement at position `id` is the one for node `id`, with its label when a node map is given |
| DotWriter.EdgeLineAt | src/include/dot_writer.hpp:33-36 | the statement at position k is the one for edge k, with its label when an edge map is given |
| DotWriter.DotLines | src/include/dot_writer.hpp:56-102 | the document is the opening line, the node statements, the edge statements and the closing line |
| DotWriter.WriteDotNodes | src/include/dot_writer.hpp:10-29 | the node loop appends exactly the node statements, one per line |
| DotWriter.WriteDotEdges | src/include/dot_writer.hpp:31-53 | the edge loop appends exactly the edge statements, one per line |
| DotWriter.WriteDotGraphWith | src/include/dot_writer.hpp:56-69 | `graph G {`, the node statements, the edge statements and `}` are appended, in that order |
| DotWriter.WriteDotGraph | src/include/dot_writer.hpp:94-102 | without maps, the document has unlabelled nodes and edges |
| DotWriter.WriteDotGraphEdgeMap | src/include/dot_writer.hpp:71-81 | with an edge map, only the edges carry labels |
| DotWriter.WriteDotGraphNodeMap | src/include/dot_writer.hpp:83-92 | with a node map, only the nodes carry labels |
| DotWriter.WriteDotGraphMaps | src/include/dot_writer.hpp:56-69 | with both maps, nodes and edges carry their labels |
| DotWriter.AppendLine | src/include/dot_writer.hpp:14 | writing one more statement with its line break extends the written lines by that statement |
| DotWriter.Framed | src/include/dot_writer.hpp:61-66 | the header, two groups of statements and the footer written in turn form one document of lines |
| DotWriter.DotLayout | src/include/dot_writer.hpp:56-102 | when no label has a line break, the written document splits back into exactly its lines, one statement per line |
| DotWriter.FramedNoBreaks | src/include/dot_writer.hpp:61-66 | the opening line, statements and closing line together hold no line break inside a line |
| DotWriter.NodeLinesOneLine | src/include/dot_writer.hpp:10-29 | every node statement is a single line when the labels are |
| DotWriter.EdgeLinesOneLine | src/include/dot_writer.hpp:31-53 | every edge statement is a single line when the labels are |
| DotWriter.StatementOneLine | src/include/dot_writer.hpp:25-26 | a statement is a single line when its body and label are |
| DotWriter.NodeLineOneLine | src/include/dot_writer.hpp:14-26 | a node statement is a single line when its label is |
| DotWriter.EdgeLineOneLine | src/include/dot_writer.hpp:35-50 | an edge statement is a single line when its label is |
| DotWriter.StatementRead | src/include/dot_writer.hpp:14 | the indentation does not change what an integer read of a statement gives |
| DotWriter.NodeLineId | src/include/dot_writer.hpp:14-25 | the node id is read back as the first integer of its statement, labelled or not |
| DotWriter.EdgeLineIds | src/include/dot_writer.hpp:35-49 | an edge statement reads back as the id of `u`, the operator ` --` and the id of `v` |
| DotWriter.EdgeBodyThen | src/include/dot_writer.hpp:35-36 | an edge statement's body is the id of `u`, ` -- ` and the id of `v`, in that order |
| DotWriter.EdgeBodyIds | src/include/dot_writer.hpp:35-36 | both ends of `u -- v` read back as integers across the operator |
| DotWriter.EdgeOperator | src/include/dot_writer.hpp:35 | the edge operator is ` --` followed by a space |
| DotWriter.SkipIndent | src/include/dot_writer.hpp:14 | the four-space indentation is skipped by an integer read |
| JsonLog.JsonLogger.constructor | src/include/util.hpp:30-32 | a new logger holds no entries |
| JsonLog.JsonLogger.Add | src/include/util.hpp:35-38 | `add` appends the pair after all earlier ones, duplicate keys included |
| JsonLog.JsonLogger.AddInt | src/include/util.hpp:39-43 | `add` of an `int` appends its `std::to_string` text |
| JsonLog.JsonLogger.Write | src/include/util.hpp:44-56 | `write` appends `{`, the entries joined by `, `, `}` and a newline, and keeps the entries |
| JsonLog.JsonLogger.Destroy | src/include/util.hpp:58-61 | the destructor writes that line to standard output |
| JsonLog.EmitSeparated | src/include/util.hpp:47-53 | an entry followed by another is written with `, ` after it |
| JsonLog.EmitLast | src/include/util.hpp:47-53 | the last entry is written with nothing after it |
| JsonLog.Closed | src/include/util.hpp:46-55 | the loop's output framed by braces is the JSON line |
| JsonLog.EmittedAll | src/include/util.hpp:47-54 | the loop writes the entries joined by `, `, with no separator left dangling |
| JsonLog.EmittedPrefix | src/include/util.hpp:47-54 | part way, the loop has written the entries so far, plus `, ` exactly when more follow |
| JsonLog.FieldsSnoc | src/include/util.hpp:47-53 | a new last entry adds `, ` and that entry at the end |
| JsonLog.EmptyLine | src/include/util.hpp:44-56 | a logger without entries writes `{}` |
| JsonLog.AddShowsLast | src/include/util.hpp:35-56 | after `add`, the line shows the earlier entries unchanged, then the new one |
| JsonLog.OneLine | src/include/util.hpp:44-56 | entries without line breaks are written as exactly one line that starts with `{` |
| JsonLog.FieldsNoBreak | src/include/util.hpp:49 | entries without line breaks give fields without line breaks |
| Graphs.ListGraph.constructor | src/main.cpp:97 | a new graph has no nodes and no edges |
| Graphs.ListGraph.Copy | src/include/k_min_cut.hpp:502-504 | a copy has the same nodes and the same edges, in order |
| Graphs.ListGraph.Clear | src/include/mtx_reader.hpp:11 | `clear` removes every node and edge |
| Graphs.ListGraph.AddNode | src/include/mtx_reader.hpp:43 | `addNode` returns the next id and adds one node without touching the edges |
| Graphs.ListGraph.AddEdge | src/include/mtx_reader.hpp:65 | `addEdge` appends one edge and returns its id, leaving the nodes alone |
| Graphs.ListGraph.Erase | src/main.cpp:50-54 | erasing a set of edges keeps the others in their order |
| Graphs.Without | src/main.cpp:50-54 | erasing edges never adds any |
| Graphs.WithoutSubset | src/main.cpp:50-54 | every edge left was there before |
| Graphs.WithoutKeeps | src/main.cpp:50-54 | an edge not erased is kept |
| Graphs.WithoutLength | src/main.cpp:50-54 | the edges left plus the ones erased make up all edges |
| Graphs.WithoutParallelFree | src/include/k_min_cut.hpp:507-510 | erasing edges keeps a graph free of parallel edges |
| Graphs.WithoutLoopFree | src/include/k_min_cut.hpp:507-510 | erasing edges keeps a graph free of loops |
| Graphs.WithoutInRange | src/include/k_min_cut.hpp:507-510 | erasing edges keeps every end a node of the graph |
| Graphs.ConnectedRefl | src/main.cpp:61 | a node reaches itself |
| Graphs.ConnectedStep | src/main.cpp:59-75 | an edge from a reached node reaches its other end |
| Graphs.ConnectedSym | src/main.cpp:59-75 | connectivity in an undirected graph is symmetric |
| Graphs.ConnectedTrans | src/main.cpp:59-75 | connectivity is transitive |
| Graphs.ConnectedMono | src/main.cpp:69 | adding edges never disconnects nodes |
| Graphs.ClosedSetContains | src/include/k_min_cut.hpp:513-537 | a set that no edge leaves contains everything connected to its members |
| Graphs.ConnectedSameColour | src/include/k_min_cut.hpp:513-537 | a colouring constant along every edge gives connected nodes the same colour |
| Graphs.Range | src/main.cpp:63 | the node ids of a graph with n nodes are exactly `0 .. n-1` |
| Graphs.RangeSize | src/main.cpp:63 | a graph with n nodes has n node ids |
| Graphs.SubsetSize | src/main.cpp:59-75 | a proper subset of nodes is smaller, so the search ends |
| Graphs.ExpandGrows | src/main.cpp:59-75 | one search step only adds nodes of the graph, and adds at least one unless it is done |
| Graphs.Closure | src/main.cpp:59-75 | the search result contains the sources and only nodes of the graph |
| Graphs.ClosureSound | src/main.cpp:59-75 | every node the search reaches is connected to the root |
| Graphs.ClosureClosed | src/main.cpp:59-75 | the search stops only when no edge leaves the reached set |
| Graphs.ReachedIff | src/main.cpp:59-65 | `bfs.reached(x)` holds exactly when `x` is connected to the root |
| Graphs.DistinctCard | src/include/k_min_cut.hpp:413-418 | distinct labels are as many as their set |
| Graphs.DistinctMultiplicity | src/include/k_min_cut.hpp:413-418 | each distinct label occurs at most once |
| Graphs.MultiplicityDistinct | src/include/k_min_cut.hpp:413-418 | labels that occur at most once each are distinct |
| Preprocess.ScanCleans | src/main.cpp:29-54 | after node n's pass, n has no loop and at most one edge to each neighbour |
| Preprocess.ScanCleansPrefix | src/main.cpp:29-54 | any prefix of node n's cleaned edges is clean at n |
| Preprocess.WithoutCleanAt | src/main.cpp:50-54 | erasing edges keeps a node clean |
| Preprocess.ScanKeepsFirst | src/main.cpp:40-48 | the first edge to each neighbour survives node n's pass, and the pass adds no edge |
| Preprocess.ScanUpToSubset | src/main.cpp:24-55 | the loop over all nodes adds no edge |
| Preprocess.ScanUpToClean | src/main.cpp:24-55 | after the passes over the first k nodes, each of them is clean |
| Preprocess.AllCleanSimple | src/main.cpp:24-55 | a graph clean at every node has no loops and no parallel edges |
| Preprocess.ScanNode | src/main.cpp:26-54 | node n's pass erases exactly its loops and later parallel edges and keeps the nodes; the list the source builds holds each erased edge once and each loop twice, and the count is the number of distinct edges erased |
| Preprocess.RemovalListBelow | src/main.cpp:29-49 | the edges pushed while scanning node n's first i incident edges are exactly those its pass erases |
| Preprocess.RemovalListLength | src/main.cpp:36-38 | the pushed list is as long as the erased edges plus the loops at n, since a loop is visited twice |
| Preprocess.LoopListedTwice | src/main.cpp:36-38 | for one node with the loop 0-0 the list holds the loop twice although one edge is erased |
| Preprocess.ScanKeepsFirstOfPair | src/main.cpp:40-48 | the first edge between two distinct nodes survives node n's pass |
| Preprocess.ScanUpToKeepsFirstOfPair | src/main.cpp:24-55 | the first edge between two distinct nodes survives the passes over the first k nodes |
| Preprocess.ScanUpToKeepsAdjacent | src/main.cpp:24-55 | two distinct nodes joined by an edge are still joined after the passes |
| Preprocess.ScanUpToKeepsConnected | src/main.cpp:24-55 | the passes keep every connection between nodes |
| Preprocess.ScanUpToSameComponents | src/main.cpp:24-55 | the passes keep the number of connected components |
| Preprocess.RemoveLoopsAndParallelEdges | src/main.cpp:20-55 | the first loop leaves a graph without loops or parallel edges, drawn from the original edges; the first edge of every pair of distinct nodes survives, every connection of the original graph is kept, and the erased edges are counted |
| Preprocess.RootEdges | src/main.cpp:69-70 | each joined node gets an edge from node 0 with weight 42 |
| Preprocess.RootEdgesAppend | src/main.cpp:69-70 | joining one more node appends one more edge from node 0 |
| Preprocess.UnreachedIffFirst | src/main.cpp:63-65 | once all earlier nodes are reached, node n is unreached exactly when it is a nonzero node with the smallest id of its component |
| Preprocess.AddRootEdge | src/main.cpp:69-75 | joining an unreached node to the root adds no loop and no parallel edge, keeps every earlier node reached, and reaches the new node |
| Preprocess.FirstNodesStep | src/main.cpp:63-77 | the nodes joined before n+1 are those joined before n, plus n when n is a nonzero component head |
| Preprocess.ComponentCountOfConnected | src/main.cpp:63-77 | the components are the heads other than node 0, plus one; a graph connected to 0 has no others |
| Preprocess.JoinedUpToSkip | src/main.cpp:63-65 | a reached node is skipped and the loop's invariant still holds |
| Preprocess.JoinedUpToJoin | src/main.cpp:65-75 | joining an unreached node keeps the loop's invariant and keeps every end a node |
| Preprocess.RootEdgeInRange | src/main.cpp:69 | the edge from node 0 to a node of the graph keeps every edge end a node |
| Preprocess.ConnectToRoot | src/main.cpp:57-77 | the second loop appends one weight-42 edge from node 0 per component other than node 0's, to its smallest node; afterwards every node is connected to 0, and no loop or parallel edge is introduced |
| Preprocess.PreprocessGraph | src/main.cpp:13-81 | the result is connected, with no loops or parallel edges; it is the cleaned original edges (keeping the first edge of every pair of distinct nodes) plus one weight-42 edge per component other than node 0's, so `added + 1` is the number of components of the original graph |
| GusfieldSpec.Initial | src/include/k_min_cut.hpp:73-82 | every node's predecessor is the root, the root has none, `fl[root]` is `INT_MAX`, and other flows are untouched |
| GusfieldSpec.Step | src/include/k_min_cut.hpp:92-117 | an iteration keeps the maps well formed and `fl[root]` unchanged |
| GusfieldSpec.StepChanges | src/include/k_min_cut.hpp:100-117 | the only other nodes that change are those on the source side whose predecessor was t, and they now point to s; without a swap s gets t and the cut value, and t keeps its flow and its predecessor unless the relabelling loop moved it to s; with one, t points to s with the cut value and s takes t's old predecessor and flow |
| GusfieldSpec.RunUpTo | src/include/k_min_cut.hpp:73-120 | after any number of iterations the maps are well formed and `fl[root]` is still `INT_MAX` |
| GusfieldSpec.TreeEdgesBelow | src/include/k_min_cut.hpp:138-147 | the tree edges for the first k nodes are one per non-root node, each to its predecessor with its flow |
| GusfieldSpec.InitialRooted | src/include/k_min_cut.hpp:73-82 | in the initial state every node reaches the root along predecessors |
| GusfieldSpec.StepRooted | src/include/k_min_cut.hpp:92-117 | an iteration keeps every node reaching the root along predecessors, with no node its own predecessor |
| GusfieldSpec.RunUpToRooted | src/include/k_min_cut.hpp:73-120 | after any number of iterations every node reaches the root along predecessors |
| GusfieldSpec.TreeEdgesSpan | src/include/k_min_cut.hpp:138-147 | when every node reaches the root, the edges `(n, p[n])` connect every node to the root |
| GusfieldSpec.GusfieldTreeSpans | src/include/k_min_cut.hpp:73-147 | the edges built after all iterations form a spanning tree of the n nodes |
| Components.AddEdgeCount | src/include/k_min_cut.hpp:512-537 | adding one edge lowers the number of components by at most one |
| Components.CountLowerBound | src/include/k_min_cut.hpp:512-537 | there are at least n minus the number of edges components |
| Components.SameEdgesSameCount | src/include/k_min_cut.hpp:512-537 | the components depend only on the set of edges |
| Components.TreeOneComponent | src/include/k_min_cut.hpp:512-537 | a spanning tree has one component |
| Components.CutSpanningTree | src/include/k_min_cut.hpp:506-537 | erasing r edges of a spanning tree leaves exactly r + 1 components |
| GusfieldSpec.TreeEdges | src/include/k_min_cut.hpp:122-147 | the tree has n-1 edges, the one for node n joining n to `p[n]` with weight `fl[n]` |
| SupernodeSpec.SideOf | src/include/k_min_cut.hpp:348-361 | a new supernode holds exactly the members on its side of the cut, in the old order |
| SupernodeSpec.AppendIncreasing | src/include/k_min_cut.hpp:245-248 | appending a larger id keeps members in increasing order |
| SupernodeSpec.SideOfSplits | src/include/k_min_cut.hpp:351-361 | the two new supernodes split the old members between them, each exactly once |
| SupernodeSpec.EraseNode | src/include/k_min_cut.hpp:405 | erasing a supernode removes exactly its incident edges |
| SupernodeSpec.Reconnect | src/include/k_min_cut.hpp:367-392 | at most one new edge is added per edge of the old supernode |
| SupernodeSpec.ReconnectReplaces | src/include/k_min_cut.hpp:367-392 | each neighbour of the old supernode gets exactly one edge to one of the halves, with the old edge's value |
| SupernodeSpec.ReconnectOfSplit | src/include/k_min_cut.hpp:364-392 | after the edge between the halves is added, the neighbours are reconnected to them and the edge between the halves is skipped |
| SupernodeSpec.DegreeOfUntouched | src/include/k_min_cut.hpp:367-392 | adding edges not incident to a supernode leaves its degree unchanged |
| SupernodeSpec.Split | src/include/k_min_cut.hpp:344-405 | a split adds two supernodes and leaves the existing ones unchanged |
| SupernodeSpec.SplitOwner | src/include/k_min_cut.hpp:348-361 | each node of the old supernode is now owned by the half on its side; other owners are unchanged |
| SupernodeSpec.InitialConsistent | src/include/k_min_cut.hpp:241-251 | the initial supernode, holding every node, satisfies the tree invariant |
| SupernodeSpec.SplitSides | src/include/k_min_cut.hpp:344-405 | a split whose cut separates s and t makes two smaller, non-empty halves, s in the first and t in the second, with one more live supernode |
| SupernodeSpec.SplitHalves | src/include/k_min_cut.hpp:348-361 | the halves partition the members, keep them ordered, are non-empty and are smaller |
| SupernodeSpec.SplitOwns | src/include/k_min_cut.hpp:348-361 | after a split, every node is owned by a live supernode that contains it |
| SupernodeSpec.SplitOwnerHolds | src/include/k_min_cut.hpp:348-361 | after a split, each node's owner is live and lists it |
| SupernodeSpec.OwnerAfterSplit | src/include/k_min_cut.hpp:348-361 | the ownership of every node carries over to the split tree |
| SupernodeSpec.SplitMembersOwned | src/include/k_min_cut.hpp:348-361 | every member of a live supernode is a node owned by that supernode |
| SupernodeSpec.SplitAliveConnected | src/include/k_min_cut.hpp:363-405 | a split keeps the live supernodes connected by the tree edges |
| SupernodeSpec.SplitEdgeValues | src/include/k_min_cut.hpp:363-391 | after a split every edge value is an earlier value or the new cut's flow |
| SupernodeSpec.SplitKeepsTree | src/include/k_min_cut.hpp:344-405 | a split keeps the live supernodes connected, and every edge value is the flow of a cut computed so far |
| SupernodeSpec.RenamedConnected | src/include/k_min_cut.hpp:420-426 | copying the edges under a renaming of their ends keeps every connection, under the new names |
| SupernodeSpec.RenamedSpans | src/include/k_min_cut.hpp:411-426 | numbering connected live supernodes in order gives a spanning tree on the numbers |
| SupernodeSpec.CopiedTree | src/include/k_min_cut.hpp:408-426 | the copy labels every graph node once and is a spanning tree whose edges join the labels of the supernode edges |
| SupernodeSpec.SplitEdges | src/include/k_min_cut.hpp:364-405 | after a split, tree edges join live supernodes and are not loops |
| SupernodeSpec.SplitEdgeListOk | src/include/k_min_cut.hpp:364-405 | the new edge list has one edge more than the old one, all joining live supernodes without loops |
| SupernodeSpec.SplitConsistent | src/include/k_min_cut.hpp:253-406 | a split keeps the whole tree invariant and adds one live supernode |
| SupernodeSpec.ImageSize | src/include/k_min_cut.hpp:253-406 | n nodes have at most n owners |
| SupernodeSpec.AliveBound | src/include/k_min_cut.hpp:253-406 | there are never more live supernodes than nodes, which bounds the number of splits |
| SupernodeSpec.SplitShape | src/include/k_min_cut.hpp:344-405 | the split replaces the old supernode by the two new ids and keeps the older members |
| SupernodeSpec.StackStep | src/include/k_min_cut.hpp:394-405 | the stack still holds only live supernodes with at least two members, and holds each of them |
| SupernodeSpec.SingletonLabels | src/include/k_min_cut.hpp:409-418 | when every supernode has one member, their labels list every node exactly once |
| SupernodeSpec.SingletonLabelsOwned | src/include/k_min_cut.hpp:413-418 | the labels of singleton supernodes are distinct node ids |
| SupernodeSpec.SingletonLabelsCover | src/include/k_min_cut.hpp:413-418 | every node labels some singleton supernode |
| Lightest.PopMax | src/include/k_min_cut.hpp:451-452 | `pop_heap` followed by `pop_back` removes one maximal element and keeps the rest |
| Lightest.SelectLightest | src/include/k_min_cut.hpp:445-454 | the heap ends with `min(count, |items|)` elements, none heavier than any element left out |
| Lightest.LightestPushAll | src/include/k_min_cut.hpp:447-449 | while the heap is not full every item is kept |
| Lightest.LightestPushPop | src/include/k_min_cut.hpp:447-453 | pushing an item and popping the maximum keeps the lightest |
| Lightest.PrefixMultiset | src/include/k_min_cut.hpp:445-447 | one more item extends the items seen by that item |
| Lightest.PushStep | src/include/k_min_cut.hpp:447-449 | an iteration that does not pop keeps the heap the lightest of the items seen |
| Lightest.PopStep | src/include/k_min_cut.hpp:447-453 | an iteration that pops keeps the heap the lightest of the items seen |
| Lightest.SubMultisetOfSameSize | src/include/k_min_cut.hpp:445-454 | a selection contained in another of the same size equals it |
| Lightest.LightestUnique | src/include/k_min_cut.hpp:445-454 | the multiset of the k-1 lightest values does not depend on how ties are broken |
| Lightest.MinIsChosen | src/include/k_min_cut.hpp:445-454 | a smallest value is always among the lightest, and the rest are the lightest of the others |
| Lightest.MinOf | src/include/k_min_cut.hpp:445-454 | a non-empty multiset has a smallest element |
| Lightest.MultisetRemove | src/include/k_min_cut.hpp:455-459 | removing one position removes one occurrence |
| Lightest.MultisetRemoveLast | src/include/k_min_cut.hpp:452 | `pop_back` removes one occurrence of the last element |
| Lightest.SeqSumPermutation | src/include/k_min_cut.hpp:455-459 | the sum does not depend on the heap's internal order |
| Lightest.SeqSumRemove | src/include/k_min_cut.hpp:455-459 | the sum is the sum without one element plus that element |
| Lightest.LightestSumDetermined | src/include/k_min_cut.hpp:436-465 | every way of choosing the k-1 lightest flows gives the same sum |
| Lightest.SeqSumNonNegative | src/include/k_min_cut.hpp:455-459 | non-negative flows have a non-negative sum |
| Lightest.SeqSumSub | src/include/k_min_cut.hpp:455-459 | a sub-multiset of non-negative flows has at most their sum |
| Lightest.SeqSumPrefix | src/include/k_min_cut.hpp:456-459 | each partial sum lies between 0 and the total |
| Colouring.ZeroCountUpdate | src/include/k_min_cut.hpp:526 | colouring an uncoloured node lowers the count of uncoloured nodes by one |
| Colouring.StackWeightOfUncoloured | src/include/k_min_cut.hpp:530-533 | pushing uncoloured nodes raises the stack's measure by their number |
| Colouring.UncolouredNeighbours | src/include/k_min_cut.hpp:527-534 | exactly the uncoloured neighbours of m are pushed, once per incident edge |
| Colouring.VisitKeepsClosed | src/include/k_min_cut.hpp:524-534 | after a node is coloured and its uncoloured neighbours pushed, no coloured node has an uncoloured neighbour off the stack |
| Colouring.FloodInit | src/include/k_min_cut.hpp:519-521 | with only n on the stack the flood's invariant holds |
| Colouring.FloodStep | src/include/k_min_cut.hpp:522-534 | one pop, colour and push keeps the invariant and only colours nodes of n's component |
| Colouring.FloodStepLighter | src/include/k_min_cut.hpp:522-534 | each iteration colours a node or shrinks the stack's measure, so the loop ends |
| Colouring.FloodDone | src/include/k_min_cut.hpp:522-535 | with the stack empty, exactly n's component has the new colour and nothing else changed |
| Colouring.Flood | src/include/k_min_cut.hpp:519-535 | the flood fill colours exactly the nodes connected to n, all other entries unchanged |
| Colouring.ComponentCountStep | src/include/k_min_cut.hpp:515-519 | node n opens a new colour exactly when it is the smallest node of its component |
| Colouring.ColourSpreads | src/include/k_min_cut.hpp:513-537 | a coloured node's whole component has its colour |
| Colouring.ConnectedVia | src/include/k_min_cut.hpp:513-537 | two nodes connected to a third are connected to each other |
| Colouring.UncolouredOpens | src/include/k_min_cut.hpp:517-519 | an uncoloured node reached by the outer loop heads a component that is wholly uncoloured, and the next colour is unused |
| Colouring.FloodStarts | src/include/k_min_cut.hpp:517-521 | the node that opens a colour is recorded as its component's head |
| Colouring.FloodColours | src/include/k_min_cut.hpp:517-536 | after the flood the first n+1 nodes are coloured by component |
| Colouring.SkipStep | src/include/k_min_cut.hpp:517 | an already coloured node is skipped and the invariant extends past it |
| Colouring.ColouredAll | src/include/k_min_cut.hpp:513-537 | at the end, two nodes share a colour exactly when they are connected; colours are 1..c, one per component |
| Colouring.VisitNode | src/include/k_min_cut.hpp:515-536 | one outer iteration extends the colouring by component to node n |
| Colouring.ColourComponents | src/include/k_min_cut.hpp:513-537 | the colouring gives each component its own colour, numbered from 1 in order of smallest node |
| GomoryHu.Flows | src/include/k_min_cut.hpp:445-447 | the values pushed are the tree flows, edge by edge |
| GomoryHu.Distribute | src/include/k_min_cut.hpp:348-361 | the distribution loop puts every member on its side of the cut, in order |
| GomoryHu.ReconnectNeighbours | src/include/k_min_cut.hpp:367-392 | the loop over incident edges adds exactly the reconnecting edges `Reconnect` describes |
| GomoryHu.SplitTop | src/include/k_min_cut.hpp:253-405 | one iteration pops the top supernode, splits it and pushes the halves that still need splitting |
| GomoryHu.PushNewHalves | src/include/k_min_cut.hpp:394-402 | a half is pushed exactly when it has more than one member, the first half before the second |
| GomoryHu.PushHalvesCases | src/include/k_min_cut.hpp:394-402 | the four cases of the two pushes, written out |
| GomoryHu.KMinCut.constructor | src/include/k_min_cut.hpp:36-45 | the object keeps the graph and its weights, starts with an empty tree, and `_fl` is 0 at every node |
| GomoryHu.KMinCut.Initialise | src/include/k_min_cut.hpp:73-82 | the maps are set to Gusfield's initial state |
| GomoryHu.KMinCut.RelabelSide | src/include/k_min_cut.hpp:104-110 | every node other than s on the source side whose predecessor is t now has s |
| GomoryHu.KMinCut.Iterate | src/include/k_min_cut.hpp:85-120 | one iteration with source s and sink `p[s]` performs Gusfield's step with the cut the oracle returns |
| GomoryHu.KMinCut.BuildTree | src/include/k_min_cut.hpp:122-147 | the tree gets one node per graph node, labelled with its id, and the edge `(n, p[n])` of value `fl[n]` for every node but the root |
| GomoryHu.KMinCut.RunGomoryHu | src/include/k_min_cut.hpp:47-155 | the maps end in the state Gusfield's iteration over all nodes gives, and the tree built from them is a spanning tree of the n nodes |
| GomoryHu.KMinCut.IterateAll | src/include/k_min_cut.hpp:84-120 | the loop over all nodes leaves the maps in the state Gusfield's iteration gives |
| GomoryHu.KMinCut.SplitAll | src/include/k_min_cut.hpp:241-406 | the split loop terminates with every live supernode a singleton and the tree invariant kept; the live supernodes stay connected by the tree edges, one cut is computed per split, and every edge value is the flow of one of those cuts |
| GomoryHu.KMinCut.AddSupernodes | src/include/k_min_cut.hpp:409-418 | one tree node per live supernode, in increasing order, labelled with its first member |
| GomoryHu.KMinCut.AddSupernodeEdges | src/include/k_min_cut.hpp:420-426 | each supernode edge becomes a tree edge between the matching tree nodes, with the same value |
| GomoryHu.KMinCut.CopySupernodeTree | src/include/k_min_cut.hpp:408-426 | the tree has n nodes whose labels name every graph node exactly once, and n-1 edges mirroring the supernode edges; it is a spanning tree of its n nodes |
| GomoryHu.KMinCut.RunGomoryHu2 | src/include/k_min_cut.hpp:210-434 | the split loop ends with every supernode a singleton; the result is a spanning tree on n nodes whose labels are a permutation of the graph's nodes, whose edges join the labels of the final supernode edges with the same values, and whose every edge value is the flow of one of the n-1 cuts computed |
| GomoryHu.KMinCut.MinKCutValue | src/include/k_min_cut.hpp:436-465 | the result is the sum of the k-1 lightest tree flows; it is 0 for k = 1 and within `int` range |
| GomoryHu.LightestIndices | src/include/k_min_cut.hpp:479-495 | the edge heap keeps `min(k-1, edges)` distinct tree edges, none heavier than any edge not kept |
| GomoryHu.KMinCut.MinKCutMap | src/include/k_min_cut.hpp:467-541 | the k-1 lightest tree edges (all of them when k = 0) are removed, and the cut map colours the rest by connected component, numbered from 1; when the tree spans its nodes, the number of colours is one more than the number of edges removed, so exactly k for 1 <= k <= n |

## Left out

- Timing: the `timer` class and the `add` calls that log times (src/include/util.hpp:7-28, src/include/k_min_cut.hpp:152-154, 431-433, 462, 496-497, 539-540) measure clocks and format `double`s; they are not modelled.
- The `add` template is modelled for `int` values only; `std::to_string` of a `double` is left out.
- LEMON's `Preflow` is not modelled: both constructions take the minimum cut as a function parameter. The model states what the constructions do with each cut. It does not state that the tree edges carry minimum cut values, which would require max-flow theory.
- GomoryHu.KMinCut.RunGomoryHu2: the contraction of the graph by DFS over the other supernodes (src/include/k_min_cut.hpp:267-329) is part of the cut parameter, which also gives the side of each other supernode. The parameter is required to separate the supernode's first two members, as a minimum s-t cut does.
- GomoryHu.KMinCut.RunGomoryHu: requires at least one node. On an empty graph `NodeIt root(_graph)` is `INVALID`, and `_p[root]` and `_fl[root]` are still written (src/include/k_min_cut.hpp:74-81), which is undefined.
- GomoryHu.KMinCut.SplitAll: requires at least two nodes. With fewer than two nodes the initial supernode is pushed whatever its size (src/include/k_min_cut.hpp:243-250), and `gh_tree_supernodes[supernode][1]` (src/include/k_min_cut.hpp:264-265) then reads past the end of its member list, which is undefined.
- GomoryHu.KMinCut.RunGomoryHu2: requires at least two nodes, for the same reason as GomoryHu.KMinCut.SplitAll.
- GomoryHu.KMinCut.RunGomoryHu: `Step` leaves the side set of the cut uninterpreted; the Gomory-Hu cut property of the result is not stated.
- Iteration order and ids: LEMON's `ListGraph` iterates nodes and incident edges newest first and reuses the ids of erased items. The model numbers nodes `0 .. n-1`, keeps edges in insertion order and iterates in ascending order. Every result that depends on that order differs from the source's in which element is chosen, while the properties stated hold for either order:
  - the order of DOT statements and of tree nodes is the ascending one;
  - of parallel edges, `preprocess_graph` keeps the first edge in insertion order, where the source keeps the newest (for the lines `1 4 5`, `1 4 10`, `1 4 7` of the sample graph in src/tests/test_mtx_reader.cpp:150-152 the source keeps weight 7, the model weight 5);
  - the node of each component joined to node 0 is its smallest id, where the source's first unreached node is its largest;
  - Gusfield's root (`NodeIt root(_graph)` at src/include/k_min_cut.hpp:74, the newest node `n-1`) is node 0 in the model, and the other nodes are visited in ascending order;
  - the colours of `min_k_cut_map` are numbered in ascending order of the nodes that start them;
  - edges added after erasures (the weight-42 edges) take fresh positions at the end, where `ListGraph` would reuse erased ids;
  - `min_k_cut_map` erases the tree's own edge handles from the copy made by `GraphCopy` (src/include/k_min_cut.hpp:502-510) and indexes `cut_map` with the copy's nodes (src/include/k_min_cut.hpp:515-529). This is only sound because a copy into an empty `ListGraph` gives every item the same id; the model copies the edge sequence, so the ids agree by construction.
- Node ids outside the graph in an edge line (`nodeFromId(u - 1)`, `nodes[u - 1]`) have undefined behaviour in the source. The readers record such an edge as read.
- Preprocess.ScanNode: `erased` counts each erased edge once. The source pushes a loop twice (its incident-edge iterator visits it from both ends), erases it twice and counts it twice; the pushed list is modelled by `RemovalList`, whose length the contract relates to `erased`, and the discrepancy is listed under Findings.
- Preprocess.RemoveLoopsAndParallelEdges: `erased` counts each erased loop once, where the source counts it twice (see Preprocess.ScanNode).
- Preprocess.PreprocessGraph: `erased` counts each erased loop once, where the source counts it twice (see Preprocess.ScanNode).
- Preprocess.PreprocessGraph: requires a non-empty graph whose edges join its own nodes; `nodeFromId(0)` on an empty graph has no meaning. The message printed at src/main.cpp:79-80 is left out; the two counts are returned instead.
- GomoryHu.KMinCut.MinKCutValue: requires `1 <= k` and `k - 1` at most the number of tree edges, because otherwise the summing loop reads `heap[i]` past its end (for `k = 0`, `k - 1` wraps to `UINT_MAX`). It also requires non-negative flows, which maximum flows are, and that the sum of the k-1 lightest flows fits an `int`, since overflowing `sum` is undefined.
- GomoryHu.KMinCut.MinKCutMap: requires the cut map to start at zero, as a fresh `NodeMap<unsigned int>` does at src/main.cpp:110; colours are unbounded integers rather than `unsigned int`.
- The heaps of `min_k_cut_value` and `min_k_cut_map` are modelled by their effect: a push adds an element and a pop removes a largest one. The array layout of `std::push_heap` is left out.
- `print_graph`, `print_supergraph` and the DFS visitor class (src/include/k_min_cut.hpp:157-208) only print or serve the contraction; they are not modelled.
- `main` (src/main.cpp:83-124) only parses arguments, opens files and calls the modelled operations; file I/O is modelled by strings in and an `OutStream` out.
- The JSON logger writes keys and values without escaping, and so does the model.
- DotWriter: node and edge maps are modelled as sequences of label strings; a map of `int` is written through `IntToString`, as `operator<<` writes it.
- bench.py and the tests under src/tests are not part of this model.

## Findings

| source | as written | input that shows it | evidently intended | confidence | as-written member | corrected member |
|---|---|---|---|---|---|---|
| src/mtx_reader.hpp:15 | `line.substr(0, 33)` is compared with the 32-character banner `%%MatrixMarket matrix coordinate`, so only a first line equal to the bare banner passes | the first line `%%MatrixMarket matrix coordinate real general` is rejected as an invalid header | accept every first line that starts with the banner, as src/include/mtx_reader.hpp:17 does with `substr(0, 32)` | not executed | LegacyMtxReader.QualifiedBannerRejected | MtxReader.BannerHeaderOk |
| src/mtx_reader.hpp:21-29 | the comment loop consumes the size line with `getline`, then `is >> n >> n >> m` reads the sizes from the first entry line | the banner, `3 3 1` and `1 2 5` give 2 nodes and an edge count of 5 instead of 3 nodes and 1 edge | read the sizes from the line the comment loop stopped at, as src/include/mtx_reader.hpp:34 does | not executed | LegacyMtxReader.SizeLineDiscarded | MtxReader.MtxRoundTrip |
| src/main.cpp:36-54 | a self-loop at n is pushed to `edges_to_remove` twice, because the incident-edge iterator lists it from both ends; it is then erased twice (undefined for a `ListGraph`) and counted twice | one node with the edge 0-0 | push, erase and count each loop once | not executed | Preprocess.LoopListedTwice | Preprocess.ScanNode |
