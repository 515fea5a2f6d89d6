# Word graph: a Dafny model

The program reads a text file, keeps only ASCII letters and spaces, and builds a
directed word-adjacency graph from it. Each word becomes a node. Each word that
directly follows another adds one to the weight of the edge between them. Over
that graph the program answers:

- bridge-word queries (the words `m` with edges `word1 -> m -> word2`);
- new-text generation, which puts one bridge word into every gap that has one;
- all-shortest-path queries (a Dijkstra relaxation followed by a backtrack over
  parent lists);
- random walks that stop at a dead end or at the first repeated edge.

It also writes the graph as Graphviz DOT text, and re-colours the edges of the
shortest paths in that text.

The Dafny modules follow the source classes:

| module | what it models |
|---|---|
| `JavaString` | the `java.lang.String` operations the source relies on: `split` with a literal separator (trailing empty strings dropped), `trim`, `contains`, `replace`, `indexOf`, `String.join`, `Integer.toString`, ASCII `toLowerCase` |
| `WordGraph` | the graph as a value `map<string, map<string, nat>>`; what `createGraph` does to it; paths and their weights |
| `BridgeWords` | the bridge-word sets and the query messages |
| `ShortestPaths` | the invariant of the relaxation loop, and the node chains `backtrack` reads off the parent lists |
| `RandomWalks` | the walk of `randomTraversal` and its `u + "->" + v` edge keys |
| `DirectedGraphs` | class `DirectedGraph`: the graph field and its methods, written as loops over the field |
| `TextGeneration` | `Graph.generateNewText` |
| `GraphVisualizers` | class `GraphVisualizer`: the DOT text it keeps, `showAllPaths` line by line, and `convertTxtToPng` |
| `TextProcessing` | `TextProcessor` |

The program makes several random or unordered choices:

- the iteration order of a `HashMap`;
- the order in which `PriorityQueue.poll` returns nodes;
- the index that `java.util.Random` draws.

Each of these is an arbitrary choice (`:|`) in the model, so every contract
holds whichever choice is made. The polling order needs a note. The Java queue
orders nodes by distances that change while the nodes are queued, so a node can
be polled more than once. The model lets the queue be polled in any order. It
proves that the final distances are exact. It also proves that every chain of
parents is a shortest path and that none is missed.

A node polled again at the same distance adds itself to its neighbours' parent
lists a second time. So the Java code can list one shortest path more than once.
`AllShortest` allows this: it says each entry is a shortest path and each
shortest path has an entry. It does not say each path appears only once.

## Model

| member | source | states |
|---|---|---|
| DirectedGraphs.DirectedGraph.constructor | src/main/java/DirectedGraph.java:23 | a new graph is empty and valid |
| DirectedGraphs.DirectedGraph.ClearGraph | src/main/java/DirectedGraph.java:25-27 | after clearing, the graph is empty, so the next `createGraph` builds a fresh graph (`IngestFresh` describes that graph) |
| DirectedGraphs.DirectedGraph.CreateGraph | src/main/java/DirectedGraph.java:29-40 | the text is split at single spaces and each token lower-cased; the new graph is the old one with those tokens ingested; the graph stays valid |
| WordGraph.IngestNodes | src/main/java/DirectedGraph.java:31-33 | after ingesting, the nodes are the old nodes plus every token, the last token included |
| WordGraph.IngestWeight | src/main/java/DirectedGraph.java:34-38 | each edge weight grows by the number of times its target directly follows its source in the tokens |
| WordGraph.IngestEdges | src/main/java/DirectedGraph.java:34-38 | `u -> v` is an edge afterwards exactly when it was one before or `v` directly follows `u` somewhere in the tokens |
| WordGraph.IngestValid | src/main/java/DirectedGraph.java:29-40 | ingesting keeps every edge target a node and every weight at least 1 |
| WordGraph.IngestAccumulates | src/main/java/DirectedGraph.java:34-38 | two `createGraph` calls without a clear between them add up their counts |
| WordGraph.IngestFresh | src/main/java/DirectedGraph.java:29-40 | from an empty graph, the nodes are exactly the tokens and each weight is exactly the number of adjacent occurrences |
| DirectedGraphs.DirectedGraph.BridgeWords | src/main/java/DirectedGraph.java:46-57 | returns every `m` with edges `word1 -> m` and `m -> word2`, each exactly once |
| BridgeWords.BridgeSetIff | src/main/java/DirectedGraph.java:46-57 | in a valid graph, `m` is a bridge word exactly when both edges exist |
| BridgeWords.BridgeIsTwoStepPath | src/main/java/DirectedGraph.java:46-57 | a bridge word is the middle node of a two-edge path from `word1` to `word2`, and that path's weight is the sum of the two edge weights |
| BridgeWords.EnumerationSize | src/main/java/DirectedGraph.java:46-57 | a list that holds each element of a set exactly once has the set's size |
| DirectedGraphs.DirectedGraph.FindBridgeWords | src/main/java/DirectedGraph.java:96-101 | returns the bridge words, each once; the list is empty when either word is not a node |
| DirectedGraphs.DirectedGraph.QueryBridgeWords | src/main/java/DirectedGraph.java:59-94 | the message for each case: the same word twice, both words missing, only the first missing, only the second missing, no bridge word, or the bridge words joined by ", " |
| BridgeWords.ExampleBridges | src/test/java/DirectedGraphTest.java:26-67 | on the unit test's text, the bridge sets are {word2, word4} from word1 to word3, {word3} from word2 to word1, and empty from word1 to word4 |
| DirectedGraphs.ExampleText | src/test/java/DirectedGraphTest.java:26-27 | the unit test's text, split at single spaces and lower-cased, gives exactly the tokens `ExampleBridges` ingests |
| BridgeWords.ExampleListings | src/test/java/DirectedGraphTest.java:29-31 | the two bridge words of the first test case are listed in one order or the other |
| DirectedGraphs.DirectedGraph.CalAllShortestPath | src/main/java/DirectedGraph.java:103-139 | returns nothing when a word is not a node; returns `[["0", w]]` for the same node twice; otherwise each entry is a weight header plus a shortest path, every shortest path has an entry, all headers are equal, and the result is empty exactly when no path exists |
| DirectedGraphs.DirectedGraph.RelaxEdges | src/main/java/DirectedGraph.java:122-134 | the loop visits every edge of the polled node once, in an order it does not promise, and its effect is `RelaxAll` over that order |
| DirectedGraphs.DirectedGraph.RelaxEdge | src/main/java/DirectedGraph.java:123-133 | one relaxation: a shorter way lowers the distance, queues the node again and makes `current` its only parent; an equal way appends `current` to the parents; anything else changes nothing |
| DirectedGraphs.DirectedGraph.CollectPaths | src/main/java/DirectedGraph.java:136-138 | once the queue is empty, backtracking from `word2` gives the listing `CalAllShortestPath` promises |
| DirectedGraphs.DirectedGraph.Backtrack | src/main/java/DirectedGraph.java:141-156 | appends one entry per chain of parents from `node` back to the start, each made of the weight so far and the chain followed by the path walked |
| ShortestPaths.SearchStart | src/main/java/DirectedGraph.java:112-117 | the starting state (only the start reached, at distance 0, and queued) satisfies the loop invariant |
| ShortestPaths.SearchRound | src/main/java/DirectedGraph.java:119-135 | one poll and relaxation round keeps the loop invariant and lowers the termination measure |
| ShortestPaths.SearchDone | src/main/java/DirectedGraph.java:119-135 | when the queue is empty, every edge has been relaxed and every recorded parent lies on a shortest way |
| ShortestPaths.SettledIsTight | src/main/java/DirectedGraph.java:126-132 | once every edge has been relaxed, every recorded parent `u` of `v` has `dist[v] == dist[u] + w(u, v)` |
| ShortestPaths.DistBound | src/main/java/DirectedGraph.java:119-135 | once every edge has been relaxed, no path from the start weighs less than its end's distance |
| ShortestPaths.ChainsSound | src/main/java/DirectedGraph.java:141-156 | every chain of parents is a path from the start whose weight is the node's distance |
| ShortestPaths.ChainsComplete | src/main/java/DirectedGraph.java:141-156 | every path from the start whose weight equals its end's distance is one of the chains |
| ShortestPaths.BacktrackAtStart | src/main/java/DirectedGraph.java:144-148 | backtracking at the start node gives exactly one entry: the weight, the start, then the path |
| ShortestPaths.SearchResult | src/main/java/DirectedGraph.java:103-139 | the listing holds the shortest paths, all with the same header, is empty exactly when no path exists, and is `[["0", w]]` when both words are the same |
| ShortestPaths.ShortestWeightsAgree | src/main/java/DirectedGraph.java:146-147 | two shortest paths between the same words weigh the same, so their headers are equal |
| ShortestPaths.NoPathWithoutNodes | src/main/java/DirectedGraph.java:104-106 | when either word is not a node there is no path, so the empty result is right |
| DirectedGraphs.DirectedGraph.RandomTraversal | src/main/java/DirectedGraph.java:158-187 | fails exactly on an empty graph; otherwise the walk starts at a node, follows edges, records no key twice, ends stuck (a dead end, or a drawn edge already recorded), and takes no more steps than the graph has edges |
| RandomWalks.ExtendWalk | src/main/java/DirectedGraph.java:173-184 | taking an edge whose key is not yet recorded keeps the walk a path with distinct keys, and adds a step the walk had not taken |
| RandomWalks.WalkLength | src/main/java/DirectedGraph.java:158-187 | a walk with distinct keys takes each of its steps once, so it has at most as many steps as the graph has edges |
| RandomWalks.EdgeKeyInjective | src/main/java/DirectedGraph.java:178 | for source names without '-', the key `u + "->" + v` identifies the edge |
| RandomWalks.EdgeKeyCollision | src/main/java/DirectedGraph.java:178 | with '-' and '>' allowed in names, two different edges share one key |
| TextGeneration.GenerateNewText | src/main/java/Graph.java:132-151 | fails exactly when splitting leaves no words; otherwise the text is the words joined by spaces, with the chosen bridge word woven into each gap, where a gap gets a word exactly when it has bridge words and the word is one of them; the graph is only read |
| TextGeneration.FillGap | src/main/java/Graph.java:137-147 | one pass: appends word1 and a space, then a bridge word and a space exactly when the gap has one, taking it from the gap's bridge words |
| TextGeneration.WovenLength | src/main/java/Graph.java:132-151 | the output has between n and 2n-1 words for n input words: n plus one per gap that got a word |
| TextGeneration.WovenPositions | src/main/java/Graph.java:132-151 | every input word appears in order at its position, the first word first and the last word last, and each inserted word sits right after the word before its gap |
| TextGeneration.InsertedAreBridges | src/main/java/Graph.java:139-146 | a gap with no bridge words gets no word; otherwise it gets exactly one, taken from `findBridgeWords` |
| TextGeneration.WovenNothing | src/main/java/Graph.java:142-146 | when no gap gets a word, the output is the input words unchanged |
| TextGeneration.Inserted | src/main/java/Graph.java:142-146 | a gap contributes at most one word, and none exactly when nothing was drawn |
| GraphVisualizers.ConvertTxtToPng | src/main/java/GraphVisualizer.java:72-77 | a name ending in ".txt" keeps its stem and ends in ".png"; any other name is returned as it is; the length is kept |
| GraphVisualizers.PngOfTxt | src/main/java/GraphVisualizer.java:72-77 | `stem + ".txt"` becomes `stem + ".png"` |
| GraphVisualizers.GraphVisualizer.constructor | src/main/java/GraphVisualizer.java:10-11 | no DOT text is held before `showDirectedGraph` runs |
| GraphVisualizers.GraphVisualizer.ShowDirectedGraph | src/main/java/GraphVisualizer.java:15-32 | returns the PNG path `convertTxtToPng` gives; keeps the DOT text `"digraph G {"`, one `u -> v [label="w"];` statement for every edge (each once, in some order), then `"}"` |
| GraphVisualizers.AppendEdges | src/main/java/GraphVisualizer.java:20-26 | one pass of the outer loop: appends one statement per edge of the node, each once, and leaves the earlier statements as they were |
| GraphVisualizers.IsInShortestPath | src/main/java/GraphVisualizer.java:34-38 | when true, node2 directly follows node1 at some position of the path |
| GraphVisualizers.InShortestPathOnSimplePath | src/main/java/GraphVisualizer.java:34-38 | on a path without repeated nodes, true exactly when node2 directly follows node1 somewhere on the path |
| GraphVisualizers.FirstPathFrom | src/main/java/GraphVisualizer.java:54-61 | returns the smallest path index whose path (header dropped) holds the edge, or none |
| GraphVisualizers.GraphVisualizer.ShowAllPaths | src/main/java/GraphVisualizer.java:40-70 | fails when no DOT text is held; otherwise the text is the kept DOT text trimmed, split at ';', each line re-coloured, and the lines joined by ';' |
| GraphVisualizers.RecolorLines | src/main/java/GraphVisualizer.java:45-67 | the loop produces the re-coloured lines joined by ';', and fails when one line fails |
| GraphVisualizers.RecolorOne | src/main/java/GraphVisualizer.java:46-62 | the loop body for one line: the line is trimmed; if it holds "->", the ']' gets the colour `colors[j % 8]` of the first path `j` holding the edge between its two names |
| GraphVisualizers.RecolorAllIff | src/main/java/GraphVisualizer.java:45-67 | re-colouring succeeds with output `out` exactly when `out` has one line per input line and each line is that input line re-coloured |
| GraphVisualizers.RecolorPlain | src/main/java/GraphVisualizer.java:46-48 | a trimmed line with no "->" in it comes out unchanged, whatever else it holds |
| GraphVisualizers.EdgeEnds | src/main/java/GraphVisualizer.java:48-52 | the two names read around the arrow hold only letters; reading fails only when splitting at "->" leaves fewer than two parts, where Java indexes past the array |
| GraphVisualizers.RecolorLine | src/main/java/GraphVisualizer.java:46-62 | fails only on a line holding "->"; a line that changes is the trimmed line with each ']' replaced by `, color=` plus the colour `colors[j % 8]` of some path `j`, then ']' |
| GraphVisualizers.EmptyTargetMisread | src/main/java/GraphVisualizer.java:48-52 | for an edge into the empty word, the names read back from its statement are `u` and "label", not `u` and the empty word |
| GraphVisualizers.EdgeEndsOfStatement | src/main/java/GraphVisualizer.java:48-52 | for letter-only names, the two names read back from `u -> v [label="w"]`, with or without the "digraph G {" prefix, are exactly `u` and `v` |
| GraphVisualizers.RecolorStatement | src/main/java/GraphVisualizer.java:48-61 | a statement is re-coloured with the colour of the first path holding its edge, or left as it is when no path holds it |
| GraphVisualizers.DotTextLines | src/main/java/GraphVisualizer.java:42 | splitting the DOT text of letter-only names at ';' gives back its statement lines and the closing "}" |
| GraphVisualizers.DotOpenLines | src/main/java/GraphVisualizer.java:18-26 | the DOT text before "}" is its statement lines, each followed by ';' |
| GraphVisualizers.AllPathsOfDot | src/main/java/GraphVisualizer.java:40-70 | `showAllPaths` applied to `showDirectedGraph`'s text keeps the statements in place and colours each edge with the colour of the first path holding it |
| TextProcessing.ProcessText | src/main/java/TextProcessor.java:25-28 | keeps the length; each letter or space stays as it is and every other character becomes a space |
| TextProcessing.ProcessTextKept | src/main/java/TextProcessor.java:25-28 | the result holds only ASCII letters and spaces |
| TextProcessing.ProcessTextIdempotent | src/main/java/TextProcessor.java:25-28 | processing twice gives the same text as processing once |
| TextProcessing.ProcessTextOfKept | src/main/java/TextProcessor.java:25-28 | a text of letters and spaces is left unchanged |
| TextProcessing.ProcessTextAppend | src/main/java/TextProcessor.java:25-28 | processing distributes over concatenation |
| TextProcessing.EmptyWordFromProcessing | src/main/java/TextProcessor.java:26 | a comma and a space between two words become two spaces, and splitting at single spaces then gives the empty word between the two |
| TextProcessing.ProcessFile | src/main/java/TextProcessor.java:12-18 | the result is the processed text of the lines, each followed by one space |
| TextProcessing.SpacedJoin | src/main/java/TextProcessor.java:14-16 | the built text is the lines joined by single spaces, plus one final space (empty for no lines) |
| TextProcessing.SpacedLength | src/main/java/TextProcessor.java:14-16 | the built text is as long as all lines together plus one space per line |
| TextProcessing.ProcessLineByLine | src/main/java/TextProcessor.java:12-18 | processing the whole file equals processing each line on its own and then adding the spaces |

## Left out

- File and console I/O, the menu and the command line of `Graph.java`, and Graphviz parsing and PNG rendering are not modelled. `ProcessFile` takes the file's lines, and the DOT text and paths are returned instead of rendered.
- Randomness (`java.util.Random`), the iteration order of `HashMap` and `ConcurrentHashMap`, and the polling order of `PriorityQueue` are arbitrary choices in the model. No contract depends on which choice is made.
- `Integer.MAX_VALUE` and 32-bit overflow of weights, distances and path weights are not modelled: integers are unbounded, and an unreached node has no entry in the distance map.
- Concurrency is not modelled, since the source uses `ConcurrentHashMap` without threads.
- `String.split` with a regular expression is not modelled: every separator in the source is a literal (" ", ";", "->"). Lower-casing is ASCII only, because processed text holds nothing else.
- The graph visualisation part of `randomTraversal` (the `MutableGraph` it fills and renders) and the writing of the walk to a file (`DirectedGraph.java` lines 188-191) are not modelled.
- DirectedGraphs.DirectedGraph.CalAllShortestPath: does not state that each shortest path is listed once, because the Java code can list one path twice when a node is polled again at the same distance.
- DirectedGraphs.DirectedGraph.Backtrack: the shared `LinkedList` path, which is pushed and popped around each call, is passed as a value.
- GraphVisualizers.GraphVisualizer.ShowDirectedGraph: leaves the edge order open, so it does not state that one node's edges are adjacent in the text.
- GraphVisualizers.GraphVisualizer.ShowAllPaths: requires every path to be non-empty, because Java's `subList(1, size)` throws on an empty list. The lists `calAllShortestPath` returns always have a header.
- GraphVisualizers.AllPathsOfDot: stated only for non-empty letter-only names. Processed text can still give the empty word: two non-letters in a row leave two spaces, and `split(" ")` keeps the empty string between them (`EmptyWordFromProcessing`). Java reads the statement of an edge into the empty word as an edge into "label" (`EmptyTargetMisread`), so it colours that edge only if a path happens to run through a node named "label". Names with ';', "->" or ']' cannot come from processed text.
- GraphVisualizers.RecolorOne: the exception Java throws for an arrow line with nothing after the arrow (`parts[1]` out of bounds) is modelled as a `None` result.
- TextGeneration.GenerateNewText: returns the text that Java prints. When the input splits into no words, Java throws on `words[words.length - 1]`, and the model returns `None`.
- RandomWalks.EdgeKeyCollision: the walk uses the string keys exactly as Java does. For names that contain "->", the walk can stop at an edge it has not taken. Processed text cannot contain such names.
