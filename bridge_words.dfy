/** Bridge words: the words that sit between two given words in the graph. */
module BridgeWords {
  import opened JavaString
  import opened WordGraph

  /** The words m with an edge word1 -> m and an edge m -> word2 (empty when
      word1 is not a node). */
  function BridgeSet(g: Graph, word1: string, word2: string): set<string> {
    if word1 in g then set m | m in g[word1] && m in g && word2 in g[m] else {}
  }

  /** What findBridgeWords looks for: nothing unless both words are nodes. */
  function FindBridgeSet(g: Graph, word1: string, word2: string): set<string> {
    if word1 in g && word2 in g then BridgeSet(g, word1, word2) else {}
  }

  /** xs lists every element of s, and only those, each once. */
  predicate Enumerates(xs: seq<string>, s: set<string>) {
    && (forall k :: 0 <= k < |xs| ==> xs[k] in s)
    && (forall x :: x in s ==> x in xs)
    && (forall i, j :: 0 <= i < j < |xs| ==> xs[i] != xs[j])
  }

  /** In a valid graph, m is a bridge from word1 to word2 exactly when both edges exist. */
  lemma BridgeSetIff(g: Graph, word1: string, word2: string, m: string)
    requires Valid(g)
    ensures m in BridgeSet(g, word1, word2) <==> IsEdge(g, word1, m) && IsEdge(g, m, word2)
  {
  }

  /** A bridge word is the middle of a two-edge path from word1 to word2. */
  lemma BridgeIsTwoStepPath(g: Graph, word1: string, word2: string, m: string)
    requires Valid(g) && m in BridgeSet(g, word1, word2)
    ensures IsPathFromTo(g, [word1, m, word2], word1, word2)
    ensures PathWeight(g, [word1, m, word2]) == g[word1][m] + g[m][word2]
  {
    PathExtend(g, [word1], m);
    assert [word1] + [m] == [word1, m];
    PathExtend(g, [word1, m], word2);
    assert [word1, m] + [word2] == [word1, m, word2];
  }

  lemma {:induction false} EnumerationSize(xs: seq<string>, s: set<string>)
    requires Enumerates(xs, s)
    ensures |xs| == |s|
  {
    if |xs| > 0 {
      var rest := xs[1..];
      assert Enumerates(rest, s - {xs[0]}) by {
        forall x | x in s - {xs[0]} ensures x in rest {
          var k :| 0 <= k < |xs| && xs[k] == x;
          assert k != 0;
          assert rest[k - 1] == x;
        }
      }
      EnumerationSize(rest, s - {xs[0]});
    }
  }

  function NotInGraph(w: string): string {
    "No " + w + " in the graph!"
  }

  function NeitherInGraph(word1: string, word2: string): string {
    "No " + word1 + " and " + word2 + " in the graph!"
  }

  function NoBridgeWords(word1: string, word2: string): string {
    "No bridge words from " + word1 + " to " + word2 + "!"
  }

  function BridgeWordsAre(word1: string, word2: string, words: seq<string>): string {
    "The bridge words from " + word1 + " to " + word2 + " : " + Join(", ", words) + "."
  }

  /** The token sequence of the text "word1 word2 word3 word1 word4 word3 ". */
  function ExampleTokens(): seq<string> {
    ["word1", "word2", "word3", "word1", "word4", "word3"]
  }

  /** The bridge sets of the example text are the ones the project's unit test asserts. */
  lemma ExampleBridges()
    ensures BridgeSet(Ingest(map[], ExampleTokens()), "word1", "word3") == {"word2", "word4"}
    ensures BridgeSet(Ingest(map[], ExampleTokens()), "word2", "word1") == {"word3"}
    ensures BridgeSet(Ingest(map[], ExampleTokens()), "word1", "word4") == {}
  {
    var g := Ingest(map[], ExampleTokens());
    assert g == map["word1" := map["word2" := 1, "word4" := 1],
                    "word2" := map["word3" := 1],
                    "word3" := map["word1" := 1],
                    "word4" := map["word3" := 1]];
  }

  /** A listing of the two bridge words of the example comes in one order or the other;
      which one depends on the iteration order of the hash map. */
  lemma ExampleListings(xs: seq<string>)
    requires Enumerates(xs, {"word2", "word4"})
    ensures xs == ["word2", "word4"] || xs == ["word4", "word2"]
  {
    EnumerationSize(xs, {"word2", "word4"});
    assert xs[0] in {"word2", "word4"} && xs[1] in {"word2", "word4"};
  }
}
