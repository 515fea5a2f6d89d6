/** The DirectedGraph class: the word graph it owns and the queries over it. */
module DirectedGraphs {
  import opened JavaString
  import opened WordGraph
  import opened BridgeWords
  import opened ShortestPaths
  import opened RandomWalks

  /** The tokens of a text, each lower-cased as createGraph does. */
  function Lowered(words: seq<string>): (r: seq<string>)
    ensures |r| == |words|
  {
    seq(|words|, k requires 0 <= k < |words| => ToLowerCase(words[k]))
  }

  /** The text of the project's unit test gives the tokens of the bridge-word example. */
  lemma ExampleText()
    ensures Lowered(Split("word1 word2 word3 word1 word4 word3 ", " ")) == ExampleTokens()
  {
    var xs := ExampleTokens();
    ExampleTextJoined();
    ExampleWordsPlain();
    SplitOfJoinAndSeparator(xs, ' ');
  }

  lemma ExampleTextJoined()
    ensures "word1 word2 word3 word1 word4 word3 " == Join(" ", ExampleTokens()) + " "
  {
  }

  /** The example's words hold no blank and no capital. */
  lemma ExampleWordsPlain()
    ensures forall k :: 0 <= k < |ExampleTokens()| ==> ' ' !in ExampleTokens()[k]
    ensures Lowered(ExampleTokens()) == ExampleTokens()
  {
    var xs := ExampleTokens();
    forall k | 0 <= k < |xs|
      ensures ' ' !in xs[k] && ToLowerCase(xs[k]) == xs[k]
    {
      PlainWord(xs[k]);
    }
  }

  lemma PlainWord(x: string)
    requires x in {"word1", "word2", "word3", "word4"}
    ensures ' ' !in x && ToLowerCase(x) == x
  {
    assert x[..4] == "word" && |x| == 5 && '0' <= x[4] <= '9';
    assert forall c :: c in x ==> c == x[0] || c == x[1] || c == x[2] || c == x[3] || c == x[4];
  }

  class DirectedGraph {
    var graph: Graph

    /** Every edge target is a node and every count is positive. */
    ghost predicate Valid()
      reads this
    {
      WordGraph.Valid(graph)
    }

    constructor()
      ensures graph == map[] && Valid()
    {
      graph := map[];
    }

    method ClearGraph()
      modifies this
      ensures graph == map[] && Valid()
    {
      graph := map[];
    }

    /** Adds the tokens of one text, split at single spaces: every token becomes a
        node and every adjacent pair of tokens raises the count of its edge by one. */
    method CreateGraph(text: string)
      requires Valid()
      modifies this
      ensures graph == Ingest(old(graph), Lowered(Split(text, " ")))
      ensures Valid()
    {
      var words := Split(text, " ");
      ghost var ws := Lowered(words);
      ghost var g0 := graph;
      var i := 0;
      while i < |words|
        invariant 0 <= i <= |words|
        invariant IngestFrom(graph, ws, i) == Ingest(g0, ws)
      {
        var word1 := ToLowerCase(words[i]);
        if word1 !in graph {
          graph := graph[word1 := map[]];
        }
        if i < |words| - 1 {
          var word2 := ToLowerCase(words[i + 1]);
          var edges := graph[word1];
          graph := graph[word1 := edges[word2 := (if word2 in edges then edges[word2] else 0) + 1]];
        }
        i := i + 1;
      }
      IngestValid(g0, ws);
    }

    /** The bridge words from word1 to word2, each once, in the order the edges of
        word1 are visited. */
    method BridgeWords(word1: string, word2: string) returns (bridges: seq<string>)
      requires Valid() && word1 in graph
      ensures Enumerates(bridges, BridgeSet(graph, word1, word2))
    {
      bridges := [];
      var remaining := graph[word1].Keys;
      while remaining != {}
        invariant remaining <= graph[word1].Keys
        invariant forall k :: 0 <= k < |bridges| ==> bridges[k] in BridgeSet(graph, word1, word2) && bridges[k] !in remaining
        invariant forall m :: m in BridgeSet(graph, word1, word2) && m !in remaining ==> m in bridges
        invariant forall i, j :: 0 <= i < j < |bridges| ==> bridges[i] != bridges[j]
      {
        var intermediate :| intermediate in remaining;
        remaining := remaining - {intermediate};
        var edges2 := graph[intermediate];
        if word2 in edges2 {
          bridges := bridges + [intermediate];
        }
      }
    }

    /** The bridge words, or none when either word is not a node. */
    method FindBridgeWords(word1: string, word2: string) returns (bridges: seq<string>)
      requires Valid()
      ensures Enumerates(bridges, FindBridgeSet(graph, word1, word2))
      ensures word1 !in graph || word2 !in graph ==> bridges == []
    {
      if word1 !in graph || word2 !in graph {
        return [];
      }
      bridges := BridgeWords(word1, word2);
    }

    /** The answer to a bridge-word query: a missing word is reported first (both, the
        first, then the second); the same word twice answers with itself; otherwise
        the bridge words are listed, or their absence is reported. */
    method QueryBridgeWords(word1: string, word2: string) returns (message: string, ghost listed: seq<string>)
      requires Valid()
      ensures word1 == word2 && word1 !in graph ==> message == NotInGraph(word1)
      ensures word1 == word2 && word1 in graph ==> message == BridgeWordsAre(word1, word1, [word1])
      ensures word1 != word2 && word1 !in graph && word2 !in graph ==> message == NeitherInGraph(word1, word2)
      ensures word1 != word2 && word1 !in graph && word2 in graph ==> message == NotInGraph(word1)
      ensures word1 != word2 && word1 in graph && word2 !in graph ==> message == NotInGraph(word2)
      ensures word1 != word2 && word1 in graph && word2 in graph ==>
        && Enumerates(listed, BridgeSet(graph, word1, word2))
        && message == (if listed == [] then NoBridgeWords(word1, word2) else BridgeWordsAre(word1, word2, listed))
    {
      listed := [];
      if word1 == word2 {
        if word1 !in graph {
          return NotInGraph(word1), listed;
        } else {
          return BridgeWordsAre(word1, word1, [word1]), listed;
        }
      } else {
        var flag1 := 0;
        var flag2 := 0;
        if word1 !in graph {
          flag1 := 1;
        }
        if word2 !in graph {
          flag2 := 1;
        }
        if flag1 == 1 && flag2 == 1 {
          return NeitherInGraph(word1, word2), listed;
        } else if flag1 == 1 {
          return NotInGraph(word1), listed;
        } else if flag2 == 1 {
          return NotInGraph(word2), listed;
        }
      }
      var bridges := BridgeWords(word1, word2);
      listed := bridges;
      if bridges == [] {
        message := NoBridgeWords(word1, word2);
      } else {
        message := BridgeWordsAre(word1, word2, bridges);
      }
    }

    /** All shortest paths from word1 to word2, each headed by its total weight. The
        distance map leaves out the nodes whose distance is still Integer.MAX_VALUE,
        and the priority queue is a multiset polled in any order. */
    method CalAllShortestPath(word1: string, word2: string) returns (allPaths: seq<seq<string>>)
      requires Valid()
      ensures word1 !in graph || word2 !in graph ==> allPaths == []
      ensures word1 in graph && word1 == word2 ==> allPaths == [["0", word1]]
      ensures AllShortest(graph, word1, word2, allPaths)
      ensures SameHeader(allPaths)
      ensures allPaths == [] <==> !exists p :: IsPathFromTo(graph, p, word1, word2)
    {
      if word1 !in graph || word2 !in graph {
        NoPathWithoutNodes(graph, word1, word2);
        return [];
      }
      var dist: Dist := map[word1 := 0];
      var parents: Parents := map u | u in graph :: [];
      var queue: multiset<string> := multiset{word1};
      ghost var ns := Enumerate(graph.Keys);
      ghost var polled := word1;
      SearchStart(graph, word1);
      while queue != multiset{}
        invariant Search(graph, word1, dist, parents, queue, polled, {})
        invariant forall x :: x in graph ==> x in ns
        decreases Unreached(graph, dist), Total(ns, dist), |queue|
      {
        var current :| current in queue;
        PollReady(graph, word1, dist, parents, queue, polled, current);
        ghost var order;
        var dist', parents', queue';
        dist', parents', queue', order := RelaxEdges(current, dist, parents, queue - multiset{current});
        SearchRound(graph, word1, ns, dist, parents, queue, polled, current, order, dist', parents', queue');
        dist, parents, queue, polled := dist', parents', queue', current;
      }
      allPaths := CollectPaths(word1, word2, dist, parents, polled);
    }

    /** The end of calAllShortestPath: once the queue is empty, backtracking from word2
        over the parent lists yields the shortest paths. */
    method CollectPaths(word1: string, word2: string, dist: Dist, parents: Parents, ghost polled: string)
      returns (allPaths: seq<seq<string>>)
      requires Valid() && word1 in graph && word2 in graph
      requires Search(graph, word1, dist, parents, multiset{}, polled, {})
      ensures word1 == word2 ==> allPaths == [["0", word1]]
      ensures AllShortest(graph, word1, word2, allPaths)
      ensures SameHeader(allPaths)
      ensures allPaths == [] <==> !exists p :: IsPathFromTo(graph, p, word1, word2)
    {
      SearchDone(graph, word1, dist, parents, polled);
      allPaths := Backtrack([], [], parents, word2, word1, 0, dist);
      assert allPaths == Emit(graph, Chains(graph, dist, parents, word1, word2), [], 0);
      SearchResult(graph, dist, parents, word1, word2, polled, allPaths);
    }

    /** The loop over the edges of the polled node current, visiting them in an order
        it does not promise: an edge that gives a shorter way lowers the distance of
        its target, queues the target again and makes current its only parent; one
        that gives an equally short way adds current to the target's parents; any
        other edge changes nothing. */
    method RelaxEdges(current: string, dist0: Dist, parents0: Parents, queue0: multiset<string>)
      returns (dist: Dist, parents: Parents, queue: multiset<string>, ghost order: seq<string>)
      requires current in graph && current in dist0 && graph[current].Keys <= parents0.Keys
      ensures forall k :: 0 <= k < |order| ==> order[k] in graph[current]
      ensures forall i, j :: 0 <= i < j < |order| ==> order[i] != order[j]
      ensures forall x :: x in graph[current] ==> x in order
      ensures Frontier(dist, parents, queue) == RelaxAll(graph, current, Frontier(dist0, parents0, queue0), order)
    {
      dist, parents, queue := dist0, parents0, queue0;
      order := [];
      var edges := graph[current];
      var remaining := edges.Keys;
      while remaining != {}
        invariant Visiting(edges.Keys, remaining, order)
        invariant Frontier(dist, parents, queue) == RelaxAll(graph, current, Frontier(dist0, parents0, queue0), order)
        decreases |remaining|
      {
        var neighbor :| neighbor in remaining;
        RelaxAllSnoc(graph, current, Frontier(dist0, parents0, queue0), order, neighbor);
        dist, parents, queue := RelaxEdge(current, neighbor, dist, parents, queue);
        VisitNext(edges.Keys, remaining, order, neighbor);
        remaining := remaining - {neighbor};
        order := order + [neighbor];
      }
    }

    /** One pass of the loop over the edges of current, for the edge current -> neighbor. */
    method RelaxEdge(current: string, neighbor: string, dist0: Dist, parents0: Parents, queue0: multiset<string>)
      returns (dist: Dist, parents: Parents, queue: multiset<string>)
      requires current in dist0 && IsEdge(graph, current, neighbor) && neighbor in parents0
      ensures Frontier(dist, parents, queue) == Relax(graph, current, Frontier(dist0, parents0, queue0), neighbor)
    {
      dist, parents, queue := dist0, parents0, queue0;
      var newDistance := dist[current] + graph[current][neighbor];
      if neighbor !in dist || newDistance < dist[neighbor] {
        dist := dist[neighbor := newDistance];
        queue := queue + multiset{neighbor};
        parents := parents[neighbor := [current]];
      } else if newDistance == dist[neighbor] {
        parents := parents[neighbor := parents[neighbor] + [current]];
      }
    }

    /** Walks the parent lists back from node to startNode; path holds the nodes
        already walked back from word2 and pathWeight their total weight. Appends
        one entry per chain of parents, in the order the lists are visited. */
    method Backtrack(allPaths: seq<seq<string>>, path: seq<string>, parents: Parents, node: string,
                     startNode: string, pathWeight: nat, ghost dist: Dist)
      returns (result: seq<seq<string>>)
      requires Valid() && Tight(graph, dist, parents) && graph.Keys <= parents.Keys && node in parents
      ensures result == allPaths + Emit(graph, Chains(graph, dist, parents, startNode, node), path, pathWeight)
      decreases Rank(dist, node)
    {
      var walked := [node] + path;
      if node == startNode {
        result := allPaths + [[Decimal(pathWeight)] + walked];
        BacktrackAtStart(graph, dist, parents, startNode, path, pathWeight);
        assert [Decimal(pathWeight)] + walked == [Decimal(pathWeight)] + [startNode] + path;
      } else {
        result := allPaths;
        var ps := parents[node];
        var i := 0;
        while i < |ps|
          invariant 0 <= i <= |ps|
          invariant result == allPaths + Emit(graph, ChainsVia(graph, dist, parents, startNode, node, ps[..i]), path, pathWeight)
        {
          var parent := ps[i];
          BacktrackStep(graph, dist, parents, startNode, node, ps, i, parent, path, pathWeight, allPaths);
          var edgeWeight := graph[parent][node];
          ghost var before := result;
          result := Backtrack(result, walked, parents, parent, startNode, pathWeight + edgeWeight, dist);
          assert result == before + Emit(graph, Chains(graph, dist, parents, startNode, parent), [node] + path,
                                         pathWeight + graph[parent][node]);
          i := i + 1;
        }
        assert ps[..|ps|] == ps;
      }
    }

    /** The walk of randomTraversal, with every random choice left open: it starts at
        any node and follows any outgoing edge until it reaches a dead end or draws an
        edge whose key it has recorded. On an empty graph there is no node to start
        from and the walk fails. */
    method RandomTraversal() returns (visited: Option<seq<string>>)
      ensures visited.None? <==> graph == map[]
      ensures visited.Some? ==>
        var walk := visited.value;
        && |walk| >= 1 && IsPath(graph, walk) && KeysDistinct(walk) && Stuck(graph, walk)
        && |walk| - 1 <= |EdgeSet(graph)|
    {
      if graph == map[] {
        return None;
      }
      var currentNode :| currentNode in graph;
      var visitedNodes := [currentNode];
      var visitedEdges: set<string> := {};
      ghost var taken: set<(string, string)> := {};
      assert WalkSteps(visitedNodes) == {} && WalkKeys(visitedNodes) == {};
      while true
        invariant |visitedNodes| >= 1 && IsPath(graph, visitedNodes) && currentNode == visitedNodes[|visitedNodes| - 1]
        invariant visitedEdges == WalkKeys(visitedNodes) && KeysDistinct(visitedNodes)
        invariant taken == WalkSteps(visitedNodes) && |taken| == |visitedNodes| - 1 && taken <= EdgeSet(graph)
        decreases |EdgeSet(graph)| - |taken|
      {
        if currentNode !in graph || graph[currentNode] == map[] {
          break;
        }
        var edges := graph[currentNode];
        var nextNode :| nextNode in edges;
        var edge := currentNode + "->" + nextNode;
        if edge in visitedEdges {
          break;
        }
        ExtendWalk(graph, visitedNodes, nextNode);
        visitedEdges := visitedEdges + {edge};
        taken := taken + {(currentNode, nextNode)};
        visitedNodes := visitedNodes + [nextNode];
        currentNode := nextNode;
        SubsetCardinality(taken, EdgeSet(graph));
      }
      WalkLength(graph, visitedNodes);
      return Some(visitedNodes);
    }
  }
}
