/** GraphVisualizer: writes the word graph as Graphviz DOT text, and re-colours the
    edge statements of that text that lie on given shortest paths. Rendering the text
    to an image is not modelled; the methods return the text they would render. */
module GraphVisualizers {
  import opened JavaString
  import opened WordGraph

  const Colors: seq<string> := ["red", "blue", "green", "purple", "orange", "brown", "pink", "black"]

  const Header: string := "digraph G {"

  // ---------------------------------------------------------------------------
  // File names

  /** convertTxtToPng: a ".txt" name gets the ".png" extension instead; any other
      name is kept. */
  function ConvertTxtToPng(filename: string): (r: string)
    ensures |r| == |filename|
    ensures EndsWith(filename, ".txt") ==>
      EndsWith(r, ".png") && r[..|r| - 4] == filename[..|filename| - 4]
    ensures !EndsWith(filename, ".txt") ==> r == filename
  {
    if EndsWith(filename, ".txt") then filename[..|filename| - 4] + ".png" else filename
  }

  lemma PngOfTxt(stem: string)
    ensures ConvertTxtToPng(stem + ".txt") == stem + ".png"
  {
    assert EndsWith(stem + ".txt", ".txt");
    assert (stem + ".txt")[..|stem|] == stem;
  }

  // ---------------------------------------------------------------------------
  // The DOT text of a graph

  /** The statement written for the edge u -> v of weight w, up to its closing ']'. */
  function StatementOpen(u: string, v: string, w: nat): string {
    u + " -> " + v + " [label=\"" + Decimal(w) + "\""
  }

  /** The statement written for the edge u -> v of weight w, before its ';'. */
  function EdgeStatement(u: string, v: string, w: nat): string {
    StatementOpen(u, v, w) + "]"
  }

  /** order lists every edge of g once and nothing else. */
  ghost predicate ListsEdges(g: Graph, order: seq<(string, string)>) {
    && (forall k :: 0 <= k < |order| ==> IsEdge(g, order[k].0, order[k].1))
    && (forall u, v :: IsEdge(g, u, v) ==> (u, v) in order)
    && (forall i, j :: 0 <= i < j < |order| ==> order[i] != order[j])
  }

  /** The DOT text before its closing brace, for the edges in the order written. */
  function DotOpen(g: Graph, order: seq<(string, string)>): (r: string)
    ensures |r| > 0 && r[0] == Header[0]
  {
    if |order| == 0 then Header
    else
      var e := order[|order| - 1];
      DotOpen(g, order[..|order| - 1]) + (EdgeStatement(e.0, e.1, Weight(g, e.0, e.1)) + ";")
  }

  function DotText(g: Graph, order: seq<(string, string)>): string
  {
    DotOpen(g, order) + "}"
  }

  /** The ';'-separated lines of the DOT text: the header is glued to the first
      statement, and the closing brace is a line of its own. */
  function DotLines(g: Graph, order: seq<(string, string)>): (r: seq<string>)
    ensures |r| == |order| + 1
  {
    if |order| == 0 then [Header + "}"]
    else StatementLines(g, order) + ["}"]
  }

  function StatementLines(g: Graph, order: seq<(string, string)>): (r: seq<string>)
    ensures |r| == |order|
  {
    seq(|order|, k requires 0 <= k < |order| =>
      (if k == 0 then Header else "") + EdgeStatement(order[k].0, order[k].1, Weight(g, order[k].0, order[k].1)))
  }

  // ---------------------------------------------------------------------------
  // Re-colouring the statements on shortest paths

  function Abs(x: int): nat {
    if x < 0 then -x else x
  }

  /** isInShortestPath: both nodes occur, and the first node2 stands right after the
      first node1. */
  predicate IsInShortestPath(node1: string, node2: string, path: seq<string>): (r: bool)
    ensures r ==> exists k :: 0 <= k < |path| - 1 && path[k] == node1 && path[k + 1] == node2
  {
    var index1 := IndexOf(path, node1);
    var index2 := IndexOf(path, node2);
    var r := index1 != -1 && index2 != -1 && Abs(index1 - index2) == 1 && index1 < index2;
    if r then assert path[index1] == node1 && path[index1 + 1] == node2; r else r
  }

  /** Every path carries its length header in front of its nodes. */
  predicate HasHeaders(paths: seq<seq<string>>) {
    forall j :: 0 <= j < |paths| ==> |paths[j]| >= 1
  }

  /** The first path, from j on, whose nodes (header dropped) hold node1 -> node2. */
  function FirstPathFrom(node1: string, node2: string, paths: seq<seq<string>>, j: nat): (r: Option<nat>)
    requires HasHeaders(paths) && j <= |paths|
    ensures r.Some? ==> j <= r.value < |paths| && IsInShortestPath(node1, node2, paths[r.value][1..])
    ensures forall k :: j <= k < |paths| && (r.None? || k < r.value) ==>
      !IsInShortestPath(node1, node2, paths[k][1..])
    decreases |paths| - j
  {
    if j == |paths| then None
    else if IsInShortestPath(node1, node2, paths[j][1..]) then Some(j)
    else FirstPathFrom(node1, node2, paths, j + 1)
  }

  /** The name showAllPaths reads before the arrow: the letters of the last word. */
  function LeftName(part: string): string {
    var words := Split(Trim(part), " ");
    SplitTrimmedNonEmpty(Trim(part));
    LettersOnly(words[|words| - 1])
  }

  /** The name showAllPaths reads after the arrow: the letters of the first word. */
  function RightName(part: string): string {
    var words := Split(Trim(part), " ");
    SplitTrimmedNonEmpty(Trim(part));
    LettersOnly(words[0])
  }

  /** The two node names showAllPaths reads from a line holding "->". None when
      nothing but blanks follows the arrow, where Java indexes past the split array. */
  function EdgeEnds(line: string): (r: Option<(string, string)>)
    ensures r.Some? ==> forall c :: c in r.value.0 || c in r.value.1 ==> IsAsciiLetter(c)
    ensures r.None? ==> |Split(line, "->")| < 2
  {
    var parts := Split(line, "->");
    if |parts| < 2 then None else Some((LeftName(parts[0]), RightName(parts[1])))
  }

  /** One line of showAllPaths: trimmed; an edge line on some path gets the colour of
      the first such path added to its attribute list. */
  function RecolorLine(raw: string, paths: seq<seq<string>>): (r: Option<string>)
    requires HasHeaders(paths)
    ensures r.None? ==> Contains(Trim(raw), "->")
    ensures r.Some? && r.value != Trim(raw) ==>
      exists j :: 0 <= j < |paths| && r.value == ReplaceChar(Trim(raw), ']', ", color=" + Colors[j % |Colors|] + "]")
  {
    var line := Trim(raw);
    if !Contains(line, "->") then Some(line)
    else match EdgeEnds(line)
      case None => None
      case Some(ends) =>
        match FirstPathFrom(ends.0, ends.1, paths, 0)
        case None => Some(line)
        case Some(j) =>
          var colored := ReplaceChar(line, ']', ", color=" + Colors[j % |Colors|] + "]");
          assert 0 <= j < |paths|;
          Some(colored)
  }

  /** The outcome of re-colouring each line on its own. */
  function Recolorings(lines: seq<string>, paths: seq<seq<string>>): (r: seq<Option<string>>)
    requires HasHeaders(paths)
    ensures |r| == |lines|
  {
    seq(|lines|, k requires 0 <= k < |lines| => RecolorLine(lines[k], paths))
  }

  /** All the values, in order, or None when one of them is missing. */
  function AllSome<T>(xs: seq<Option<T>>): Option<seq<T>>
  {
    if |xs| == 0 then Some([])
    else match AllSome(xs[..|xs| - 1])
      case None => None
      case Some(out) =>
        match xs[|xs| - 1]
        case None => None
        case Some(x) => Some(out + [x])
  }

  /** Every line re-coloured, or None when one of them fails. */
  function RecolorAll(lines: seq<string>, paths: seq<seq<string>>): Option<seq<string>>
    requires HasHeaders(paths)
  {
    AllSome(Recolorings(lines, paths))
  }

  /** The text showAllPaths renders for the DOT text dot. */
  function AllPathsText(dot: string, paths: seq<seq<string>>): Option<string>
    requires HasHeaders(paths)
  {
    match RecolorAll(Split(Trim(dot), ";"), paths)
    case None => None
    case Some(out) => Some(Join(";", out))
  }

  // ---------------------------------------------------------------------------
  // The class

  class GraphVisualizer {
    /** The DOT text of the last graph shown; None before any. */
    var dotGraph: Option<string>

    constructor()
      ensures dotGraph.None?
    {
      dotGraph := None;
    }

    /** showDirectedGraph: writes every edge of the graph as a DOT statement, in the
        map's iteration order (recorded in order), and returns the image path the text
        is rendered to. */
    method ShowDirectedGraph(filePath: string, graph: Graph) returns (pngPath: string, ghost order: seq<(string, string)>)
      modifies this
      ensures pngPath == ConvertTxtToPng(filePath)
      ensures ListsEdges(graph, order)
      ensures dotGraph == Some(DotText(graph, order))
    {
      var dot := Header;
      pngPath := ConvertTxtToPng(filePath);
      order := [];
      var nodes := graph.Keys;
      while nodes != {}
        invariant nodes <= graph.Keys
        invariant forall k :: 0 <= k < |order| ==> IsEdge(graph, order[k].0, order[k].1) && order[k].0 !in nodes
        invariant forall u, v :: IsEdge(graph, u, v) && u !in nodes ==> (u, v) in order
        invariant forall i, j :: 0 <= i < j < |order| ==> order[i] != order[j]
        invariant dot == DotOpen(graph, order)
        decreases nodes
      {
        var node :| node in nodes;
        ghost var before := order;
        dot, order := AppendEdges(graph, node, dot, order);
        forall k | 0 <= k < |order|
          ensures IsEdge(graph, order[k].0, order[k].1) && order[k].0 !in nodes - {node}
        {
          if k < |before| {
            assert order[k] == before[k];
          }
        }
        forall i, j | 0 <= i < j < |order|
          ensures order[i] != order[j]
        {
          if j >= |before| && i < |before| {
            assert order[i] == before[i];
          }
        }
        nodes := nodes - {node};
      }
      dotGraph := Some(dot + "}");
    }

    /** showAllPaths: re-colours the statements of the last DOT text that lie on the
        given paths and returns the text it renders; None before any graph was shown
        and where Java throws on a malformed line. */
    method ShowAllPaths(filePath: string, allShortestPaths: seq<seq<string>>) returns (text: Option<string>)
      requires HasHeaders(allShortestPaths)
      ensures dotGraph.None? ==> text.None?
      ensures dotGraph.Some? ==> text == AllPathsText(dotGraph.value, allShortestPaths)
    {
      if dotGraph.None? {
        return None;
      }
      var lines := Split(Trim(dotGraph.value), ";");
      text := RecolorLines(lines, allShortestPaths);
    }
  }

  // ---------------------------------------------------------------------------
  // Steps of the methods

  /** The inner loop of showDirectedGraph: one statement for each edge leaving node,
      in the iteration order of its edge map. */
  method AppendEdges(graph: Graph, node: string, dot: string, ghost order: seq<(string, string)>)
    returns (dot': string, ghost order': seq<(string, string)>)
    requires node in graph && dot == DotOpen(graph, order)
    ensures dot' == DotOpen(graph, order')
    ensures |order| <= |order'| && forall k :: 0 <= k < |order| ==> order'[k] == order[k]
    ensures forall k :: |order| <= k < |order'| ==> order'[k].0 == node && IsEdge(graph, node, order'[k].1)
    ensures forall v :: v in graph[node] ==> (node, v) in order'
    ensures forall i, j :: |order| <= i < j < |order'| ==> order'[i] != order'[j]
  {
    dot', order' := dot, order;
    var edges := graph[node];
    var targets := edges.Keys;
    while targets != {}
      invariant targets <= edges.Keys
      invariant |order| <= |order'| && forall k :: 0 <= k < |order| ==> order'[k] == order[k]
      invariant forall k :: |order| <= k < |order'| ==> order'[k].0 == node && IsEdge(graph, node, order'[k].1) && order'[k].1 !in targets
      invariant forall v :: v in edges && v !in targets ==> (node, v) in order'
      invariant forall i, j :: |order| <= i < j < |order'| ==> order'[i] != order'[j]
      invariant dot' == DotOpen(graph, order')
      decreases targets
    {
      var edge :| edge in targets;
      dot' := dot' + (EdgeStatement(node, edge, edges[edge]) + ";");
      ghost var next := order' + [(node, edge)];
      assert next[..|order'|] == order';
      order' := next;
      targets := targets - {edge};
    }
  }

  /** The loop of showAllPaths over the ';'-separated lines: each line re-coloured,
      joined again with ';'. */
  method RecolorLines(lines: seq<string>, paths: seq<seq<string>>) returns (text: Option<string>)
    requires HasHeaders(paths)
    ensures text == match RecolorAll(lines, paths) case None => None case Some(out) => Some(Join(";", out))
  {
    var localDotGraph := "";
    ghost var out: seq<string> := [];
    var i := 0;
    while i < |lines|
      invariant 0 <= i <= |lines|
      invariant AllSome(Recolorings(lines, paths)[..i]) == Some(out) && |out| == i
      invariant i == 0 ==> localDotGraph == ""
      invariant 0 < i < |lines| ==> localDotGraph == Join(";", out) + ";"
      invariant 0 < i == |lines| ==> localDotGraph == Join(";", out)
    {
      var recolored := RecolorOne(lines[i], paths);
      if recolored.None? {
        AllSomeFails(Recolorings(lines, paths), i);
        return None;
      }
      var line := recolored.value;
      AllSomeStep(Recolorings(lines, paths), i, out, line);
      ghost var previous := localDotGraph;
      localDotGraph := localDotGraph + line;
      if i < |lines| - 1 {
        localDotGraph := localDotGraph + ";";
      }
      AppendLine(out, line, previous, localDotGraph, i == 0, i < |lines| - 1);
      out := out + [line];
      i := i + 1;
    }
    assert Recolorings(lines, paths)[..i] == Recolorings(lines, paths);
    text := Some(localDotGraph);
    if |lines| == 0 {
      assert out == [];
    }
  }

  /** The body of showAllPaths' loop for one line. */
  method RecolorOne(raw: string, paths: seq<seq<string>>) returns (r: Option<string>)
    requires HasHeaders(paths)
    ensures r == RecolorLine(raw, paths)
  {
    var line := Trim(raw);
    if Contains(line, "->") {
      var ends := EdgeEnds(line);
      if ends.None? {
        return None;
      }
      var node1 := ends.value.0;
      var node2 := ends.value.1;
      var j := 0;
      while j < |paths|
        invariant 0 <= j <= |paths|
        invariant FirstPathFrom(node1, node2, paths, 0) == FirstPathFrom(node1, node2, paths, j)
      {
        var shortestPath := paths[j][1..];
        if IsInShortestPath(node1, node2, shortestPath) {
          line := ReplaceChar(line, ']', ", color=" + Colors[j % |Colors|] + "]");
          break;
        }
        j := j + 1;
      }
    }
    r := Some(line);
  }

  lemma AllSomeStep<T>(xs: seq<Option<T>>, i: nat, out: seq<T>, x: T)
    requires i < |xs| && AllSome(xs[..i]) == Some(out) && xs[i] == Some(x)
    ensures AllSome(xs[..i + 1]) == Some(out + [x])
  {
    assert xs[..i + 1][..i] == xs[..i];
  }

  /** A missing value makes the whole fail. */
  lemma {:induction false} AllSomeFails<T>(xs: seq<Option<T>>, i: nat)
    requires i < |xs| && xs[i].None?
    ensures AllSome(xs).None?
    decreases |xs|
  {
    if i < |xs| - 1 {
      AllSomeFails(xs[..|xs| - 1], i);
    }
  }

  lemma AppendLine(out: seq<string>, line: string, previous: string, next: string, first: bool, more: bool)
    requires first <==> |out| == 0
    requires first ==> previous == ""
    requires !first ==> previous == Join(";", out) + ";"
    requires next == if more then previous + line + ";" else previous + line
    ensures more ==> next == Join(";", out + [line]) + ";"
    ensures !more ==> next == Join(";", out + [line])
  {
    if first {
      assert out + [line] == [line];
      assert "" + line == line;
    } else {
      JoinSnoc(";", out, line);
    }
  }

  // ---------------------------------------------------------------------------
  // Reading an edge statement back

  /** A node name made of ASCII letters only, as the processed text yields. */
  predicate IsLetterWord(s: string) {
    |s| > 0 && forall k :: 0 <= k < |s| ==> IsAsciiLetter(s[k])
  }

  /** Where the statement's text splits: before the arrow, the arrow, after it. */
  lemma StatementAround(prefix: string, u: string, v: string, w: nat)
    ensures prefix + EdgeStatement(u, v, w)
         == (prefix + u + " ") + "->" + (" " + (v + [' '] + ("[label=\"" + Decimal(w) + "\"]")))
  {
  }

  /** The name read before the arrow is u. */
  lemma LeftNameOf(prefix: string, u: string)
    requires prefix == "" || prefix == Header
    requires IsLetterWord(u)
    ensures IsTrimmed(prefix + u)
    ensures LeftName(prefix + u + " ") == u
  {
    TrimSpaceAfter(prefix + u);
    if prefix == "" {
      assert prefix + u == u;
      LastWordAlone(u);
    } else {
      LastWordAfterHeader(u);
    }
  }

  lemma LastWordAlone(u: string)
    requires IsLetterWord(u)
    ensures Split(u, " ") == [u]
    ensures LettersOnly(u) == u
  {
    FoundStartsWith(u, " ");
    LettersOnlyOfLetters(u);
  }

  lemma LastWordAfterHeader(u: string)
    requires IsLetterWord(u)
    ensures Split(Header + u, " ") == ["digraph", "G", "{" + u]
    ensures LettersOnly("{" + u) == u
  {
    var rest := "{" + u;
    var s := Header + u;
    assert s == "digraph" + [' '] + ("G" + [' '] + rest);
    ThreePieces("digraph", "G", rest, ' ');
    SplitKeepsAll(s, ' ');
    assert " " == [' '];
    assert rest[1..] == u;
    LettersOnlyOfLetters(u);
  }

  /** The name read after the arrow is v. */
  lemma RightNameOf(v: string, tail: string)
    requires IsLetterWord(v) && |tail| > 0 && tail[|tail| - 1] == ']'
    ensures RightName(" " + (v + [' '] + tail)) == v
  {
    var after := v + [' '] + tail;
    TrimSpaceBefore(after);
    SplitHead(v, ' ', tail);
    LettersOnlyOfLetters(v);
  }

  /** A letter name holds letters only. */
  lemma InLetterWord(u: string, c: char)
    requires IsLetterWord(u)
    ensures c in u ==> IsAsciiLetter(c)
  {
    if c in u {
      var k :| 0 <= k < |u| && u[k] == c;
    }
  }

  lemma InDecimal(w: nat, c: char)
    ensures c in Decimal(w) ==> IsDigit(c)
  {
    var d := Decimal(w);
    if c in d {
      var k :| 0 <= k < |d| && d[k] == c;
    }
  }

  /** Neither side of the arrow holds a '-'. */
  lemma NoArrowAround(prefix: string, u: string, v: string, w: nat)
    requires prefix == "" || prefix == Header
    requires IsLetterWord(u) && IsLetterWord(v)
    ensures '-' !in prefix + u + " "
    ensures '-' !in " " + (v + [' '] + ("[label=\"" + Decimal(w) + "\"]"))
  {
    InLetterWord(u, '-');
    InLetterWord(v, '-');
    InDecimal(w, '-');
  }

  /** The names showAllPaths reads around the first arrow of a + "->" + b. */
  lemma EdgeEndsOfParts(a: string, b: string)
    requires '-' !in a && '-' !in b && |b| > 0
    ensures Contains(a + "->" + b, "->")
    ensures EdgeEnds(a + "->" + b) == Some((LeftName(a), RightName(b)))
  {
    FindFirst(a, "->", b);
    SplitPair(a, "->", b);
  }

  /** showAllPaths reads the edge statement of u -> v back as (u, v), for letter names,
      whether or not the DOT header precedes it on its line. */
  lemma EdgeEndsOfStatement(prefix: string, u: string, v: string, w: nat)
    requires prefix == "" || prefix == Header
    requires IsLetterWord(u) && IsLetterWord(v)
    ensures Trim(prefix + EdgeStatement(u, v, w)) == prefix + EdgeStatement(u, v, w)
    ensures Contains(prefix + EdgeStatement(u, v, w), "->")
    ensures EdgeEnds(prefix + EdgeStatement(u, v, w)) == Some((u, v))
  {
    var tail := "[label=\"" + Decimal(w) + "\"]";
    StatementAround(prefix, u, v, w);
    NoArrowAround(prefix, u, v, w);
    LeftNameOf(prefix, u);
    RightNameOf(v, tail);
    EdgeEndsOfParts(prefix + u + " ", " " + (v + [' '] + tail));
    StatementTrimmed(prefix, u, v, w);
  }

  lemma StatementTrimmed(prefix: string, u: string, v: string, w: nat)
    requires IsTrimmed(prefix + u) && |prefix + u| > 0
    ensures Trim(prefix + EdgeStatement(u, v, w)) == prefix + EdgeStatement(u, v, w)
  {
    var line := prefix + EdgeStatement(u, v, w);
    assert line == (prefix + u) + (" -> " + v + " [label=\"" + Decimal(w) + "\"]");
    TrimOfTrimmed(line);
  }

  // ---------------------------------------------------------------------------
  // What showAllPaths makes of the text showDirectedGraph wrote

  /** The statement of u -> v after showAllPaths: with the colour of the first path
      holding the edge, if there is one. */
  function ColoredStatement(u: string, v: string, w: nat, paths: seq<seq<string>>): string
    requires HasHeaders(paths)
  {
    match FirstPathFrom(u, v, paths, 0)
    case None => EdgeStatement(u, v, w)
    case Some(j) => StatementOpen(u, v, w) + (", color=" + Colors[j % |Colors|] + "]")
  }

  /** No DOT statement of letter names holds a ']' before its end, or a ';'. */
  lemma StatementChars(prefix: string, u: string, v: string, w: nat)
    requires prefix == "" || prefix == Header
    requires IsLetterWord(u) && IsLetterWord(v)
    ensures ']' !in prefix + StatementOpen(u, v, w)
    ensures ';' !in prefix + EdgeStatement(u, v, w)
  {
    InLetterWord(u, ']');
    InLetterWord(v, ']');
    InDecimal(w, ']');
    InLetterWord(u, ';');
    InLetterWord(v, ';');
    InDecimal(w, ';');
  }

  /** A statement line is re-coloured exactly as ColoredStatement says. */
  lemma RecolorStatement(prefix: string, u: string, v: string, w: nat, paths: seq<seq<string>>)
    requires prefix == "" || prefix == Header
    requires IsLetterWord(u) && IsLetterWord(v) && HasHeaders(paths)
    ensures RecolorLine(prefix + EdgeStatement(u, v, w), paths) == Some(prefix + ColoredStatement(u, v, w, paths))
  {
    EdgeEndsOfStatement(prefix, u, v, w);
    var f := FirstPathFrom(u, v, paths, 0);
    if f.Some? {
      var open := StatementOpen(u, v, w);
      var replacement := ", color=" + Colors[f.value % |Colors|] + "]";
      StatementChars(prefix, u, v, w);
      Regroup(prefix, open, "]");
      ReplaceLast(prefix + open, ']', replacement);
      Regroup(prefix, open, replacement);
    }
  }

  /** A line without an arrow is only trimmed. */
  lemma RecolorPlain(line: string, paths: seq<seq<string>>)
    requires HasHeaders(paths) && IsTrimmed(line) && !Contains(line, "->")
    ensures RecolorLine(line, paths) == Some(line)
  {
    TrimOfTrimmed(line);
  }

  /** Re-colouring succeeds with out exactly when every line does, out[k] being line
      k's result: the number of lines is kept and each is handled on its own. */
  lemma RecolorAllIff(lines: seq<string>, paths: seq<seq<string>>, out: seq<string>)
    requires HasHeaders(paths)
    ensures RecolorAll(lines, paths) == Some(out) <==>
      |out| == |lines| && forall k :: 0 <= k < |lines| ==> RecolorLine(lines[k], paths) == Some(out[k])
  {
    AllSomeIff(Recolorings(lines, paths), out);
  }

  /** All the values are there, in order, exactly when each one is. */
  lemma AllSomeIff<T>(xs: seq<Option<T>>, out: seq<T>)
    ensures AllSome(xs) == Some(out) <==> |out| == |xs| && forall k :: 0 <= k < |xs| ==> xs[k] == Some(out[k])
  {
    if AllSome(xs) == Some(out) {
      AllSomeEach(xs, out);
    }
    if |out| == |xs| && forall k :: 0 <= k < |xs| ==> xs[k] == Some(out[k]) {
      AllSomeOfEach(xs, out);
    }
  }

  lemma {:induction false} AllSomeEach<T>(xs: seq<Option<T>>, out: seq<T>)
    requires AllSome(xs) == Some(out)
    ensures |out| == |xs| && forall k :: 0 <= k < |xs| ==> xs[k] == Some(out[k])
    decreases |xs|
  {
    if |xs| > 0 {
      var n := |xs|;
      var before := AllSome(xs[..n - 1]).value;
      AllSomeEach(xs[..n - 1], before);
      assert out == before + [out[n - 1]];
      forall k | 0 <= k < n - 1
        ensures xs[k] == Some(out[k])
      {
        assert xs[..n - 1][k] == xs[k];
      }
    }
  }

  lemma {:induction false} AllSomeOfEach<T>(xs: seq<Option<T>>, out: seq<T>)
    requires |out| == |xs| && forall k :: 0 <= k < |xs| ==> xs[k] == Some(out[k])
    ensures AllSome(xs) == Some(out)
    decreases |xs|
  {
    if |xs| > 0 {
      var n := |xs|;
      var init, before := xs[..n - 1], out[..n - 1];
      forall k | 0 <= k < n - 1
        ensures init[k] == Some(before[k])
      {
        assert init[k] == xs[k];
      }
      AllSomeOfEach(init, before);
      assert out[..n - 1] + [out[n - 1]] == out;
    }
  }

  /** The DOT text before the brace is its statement lines, each closed by ';'. */
  lemma {:induction false} DotOpenLines(g: Graph, order: seq<(string, string)>)
    requires |order| > 0
    ensures DotOpen(g, order) == Join(";", StatementLines(g, order)) + ";"
    decreases |order|
  {
    var n := |order|;
    var init := order[..n - 1];
    var e := order[n - 1];
    var st := EdgeStatement(e.0, e.1, Weight(g, e.0, e.1));
    if n == 1 {
      assert StatementLines(g, order) == [Header + st];
      Regroup(Header, st, ";");
    } else {
      DotOpenLines(g, init);
      var before := StatementLines(g, init);
      assert StatementLines(g, order) == before + [st] by {
        forall k | 0 <= k < n
          ensures StatementLines(g, order)[k] == (before + [st])[k]
        {
          if k < n - 1 {
            assert init[k] == order[k];
          }
        }
      }
      JoinSnoc(";", before, st);
      Regroup(Join(";", before) + ";", st, ";");
    }
  }

  /** Every edge joins two letter names. */
  predicate LetterEdges(order: seq<(string, string)>) {
    forall k :: 0 <= k < |order| ==> IsLetterWord(order[k].0) && IsLetterWord(order[k].1)
  }

  /** The DOT text is its lines joined by ';'. */
  lemma DotTextJoin(g: Graph, order: seq<(string, string)>)
    ensures DotText(g, order) == Join(";", DotLines(g, order))
  {
    if |order| > 0 {
      DotOpenLines(g, order);
      JoinSnoc(";", StatementLines(g, order), "}");
    }
  }

  /** No DOT line of letter-named edges holds a ';', and the last is not empty. */
  lemma DotLinesChars(g: Graph, order: seq<(string, string)>)
    requires LetterEdges(order)
    ensures forall k :: 0 <= k < |DotLines(g, order)| ==> ';' !in DotLines(g, order)[k]
    ensures DotLines(g, order)[|order|] != ""
  {
    var lines := DotLines(g, order);
    forall k | 0 <= k < |lines|
      ensures ';' !in lines[k]
    {
      if k < |order| {
        StatementChars(if k == 0 then Header else "", order[k].0, order[k].1, Weight(g, order[k].0, order[k].1));
      }
    }
  }

  /** showAllPaths cuts the DOT text of letter-named edges back into its lines. */
  lemma DotTextLines(g: Graph, order: seq<(string, string)>)
    requires LetterEdges(order)
    ensures Split(Trim(DotText(g, order)), ";") == DotLines(g, order)
  {
    var text := DotText(g, order);
    DotTextJoin(g, order);
    assert text[|text| - 1] == '}';
    TrimOfTrimmed(text);
    DotLinesChars(g, order);
    SplitOfJoin(DotLines(g, order), ';');
  }

  /** The lines showAllPaths renders for the text showDirectedGraph wrote. */
  function ColoredLines(g: Graph, order: seq<(string, string)>, paths: seq<seq<string>>): (r: seq<string>)
    requires HasHeaders(paths)
  {
    if |order| == 0 then [Header + "}"]
    else
      seq(|order|, k requires 0 <= k < |order| =>
        (if k == 0 then Header else "") + ColoredStatement(order[k].0, order[k].1, Weight(g, order[k].0, order[k].1), paths))
      + ["}"]
  }

  /** Showing the paths over the text showDirectedGraph wrote: every edge statement keeps
      its place, and gets the colour of the first path holding its edge, if any. */
  lemma AllPathsOfDot(g: Graph, order: seq<(string, string)>, paths: seq<seq<string>>)
    requires LetterEdges(order) && HasHeaders(paths)
    ensures AllPathsText(DotText(g, order), paths) == Some(Join(";", ColoredLines(g, order, paths)))
  {
    DotTextLines(g, order);
    var lines := DotLines(g, order);
    var out := ColoredLines(g, order, paths);
    forall k | 0 <= k < |lines|
      ensures RecolorLine(lines[k], paths) == Some(out[k])
    {
      DotLineRecolored(g, order, paths, k);
    }
    RecolorAllIff(lines, paths, out);
  }

  /** Line k of the DOT text, re-coloured, is line k of ColoredLines. */
  lemma DotLineRecolored(g: Graph, order: seq<(string, string)>, paths: seq<seq<string>>, k: nat)
    requires LetterEdges(order) && HasHeaders(paths) && k <= |order|
    ensures RecolorLine(DotLines(g, order)[k], paths) == Some(ColoredLines(g, order, paths)[k])
  {
    var line, colored := DotLines(g, order)[k], ColoredLines(g, order, paths)[k];
    if |order| == 0 {
      assert line == colored == Header + "}";
      FoundStartsWith(line, "->");
      RecolorPlain(line, paths);
    } else if k == |order| {
      assert line == colored == "}";
      FoundStartsWith(line, "->");
      RecolorPlain(line, paths);
    } else {
      var prefix := if k == 0 then Header else "";
      var u, v := order[k].0, order[k].1;
      var w := Weight(g, u, v);
      assert line == prefix + EdgeStatement(u, v, w);
      assert colored == prefix + ColoredStatement(u, v, w, paths);
      RecolorStatement(prefix, u, v, w, paths);
    }
  }

  /** On a path without repeated nodes, isInShortestPath holds exactly when node2
      follows node1 somewhere on the path. */
  lemma InShortestPathOnSimplePath(node1: string, node2: string, path: seq<string>)
    requires forall i, j :: 0 <= i < j < |path| ==> path[i] != path[j]
    ensures IsInShortestPath(node1, node2, path) <==>
      exists k :: 0 <= k < |path| - 1 && path[k] == node1 && path[k + 1] == node2
  {
    if exists k :: 0 <= k < |path| - 1 && path[k] == node1 && path[k + 1] == node2 {
      var k :| 0 <= k < |path| - 1 && path[k] == node1 && path[k + 1] == node2;
      var i1, i2 := IndexOf(path, node1), IndexOf(path, node2);
      assert path[i1] == path[k] && path[i2] == path[k + 1];
      assert i1 == k && i2 == k + 1;
    }
    if IsInShortestPath(node1, node2, path) {
      var i1 := IndexOf(path, node1);
      assert path[i1] == node1 && path[i1 + 1] == node2;
    }
  }

  /** The statement of an edge into the empty word, which processed text can yield, is
      read back as ending at "label": after the arrow come two spaces, and the first
      word after them is the attribute list. */
  lemma EmptyTargetMisread(u: string, w: nat)
    requires IsLetterWord(u)
    ensures EdgeEnds(EdgeStatement(u, "", w)) == Some((u, "label"))
  {
    var tail := "[label=\"" + Decimal(w) + "\"]";
    var after := " " + ("" + [' '] + tail);
    var before := "" + u + " ";
    var line := EdgeStatement(u, "", w);
    StatementAround("", u, "", w);
    assert "" + line == line;
    AttributeWord(w);
    assert '-' !in after;
    InLetterWord(u, '-');
    EdgeEndsOfParts(before, after);
    assert EdgeEnds(line) == Some((LeftName(before), RightName(after)));
    LeftNameOf("", u);
    RightNameOfLoneWord(tail);
  }

  /** What follows the arrow when the target is empty: two blanks, then one word. */
  lemma RightNameOfLoneWord(x: string)
    requires |x| > 0 && IsTrimmed(x) && ' ' !in x
    ensures RightName(" " + ("" + [' '] + x)) == LettersOnly(x)
  {
    assert " " + ("" + [' '] + x) == "  " + x;
    TrimTwoSpaces(x);
    NoOccurrence(x, ' ');
  }

  /** The attribute list of a statement is one word with no blank and no '-', whose
      letters spell "label". */
  lemma AttributeWord(w: nat)
    ensures var tail := "[label=\"" + Decimal(w) + "\"]";
      && |tail| > 0 && IsTrimmed(tail) && ' ' !in tail && '-' !in tail
      && LettersOnly(tail) == "label"
  {
    InDecimal(w, ' ');
    InDecimal(w, '-');
    DigitsHaveNoLetters(Decimal(w));
    LabelPieces();
    AttributeParts("[label=\"", Decimal(w), "\"]");
  }

  /** The fixed text around the weight in an attribute list. */
  lemma LabelPieces()
    ensures LettersOnly("[label=\"") == "label" && LettersOnly("\"]") == ""
    ensures ' ' !in "[label=\"" && '-' !in "[label=\"" && ' ' !in "\"]" && '-' !in "\"]"
  {
  }

  lemma AttributeParts(open: string, d: string, close: string)
    requires |open| > 0 && open[0] > ' ' && |close| > 0 && close[|close| - 1] > ' '
    requires ' ' !in open && ' ' !in d && ' ' !in close
    requires '-' !in open && '-' !in d && '-' !in close
    requires LettersOnly(d) == "" && LettersOnly(close) == ""
    ensures var t := open + d + close;
      && |t| > 0 && IsTrimmed(t) && ' ' !in t && '-' !in t && LettersOnly(t) == LettersOnly(open)
  {
    var t := open + d + close;
    assert t == open + (d + close);
    LettersOnlyAppend(open, d + close);
    LettersOnlyAppend(d, close);
    assert t[0] == open[0] && t[|t| - 1] == close[|close| - 1];
  }
}
