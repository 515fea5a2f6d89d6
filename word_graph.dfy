/** The word-adjacency graph of DirectedGraph.java as a value, and what one
    createGraph pass over a token sequence does to it. */
module WordGraph {
  import opened JavaString

  /** word -> (following word -> number of times it followed). */
  type Graph = map<string, map<string, nat>>

  predicate IsEdge(g: Graph, u: string, v: string) {
    u in g && v in g[u]
  }

  /** The stored count of (u, v), or 0 when there is no such edge. */
  function Weight(g: Graph, u: string, v: string): nat {
    if IsEdge(g, u, v) then g[u][v] else 0
  }

  /** Every edge target is itself a node. */
  predicate Closed(g: Graph) {
    forall u, v :: u in g && v in g[u] ==> v in g
  }

  /** Every stored count is at least one. */
  predicate Positive(g: Graph) {
    forall u, v :: u in g && v in g[u] ==> g[u][v] >= 1
  }

  predicate Valid(g: Graph) {
    Closed(g) && Positive(g)
  }

  /** The set of all edges, as (source, target) pairs. */
  function EdgeSet(g: Graph): set<(string, string)> {
    set u, v | u in g && v in g[u] :: (u, v)
  }

  // ---------------------------------------------------------------------------
  // createGraph

  /** The map with the count of v raised by one: edges.put(v, edges.getOrDefault(v, 0) + 1). */
  function Bump(edges: map<string, nat>, v: string): map<string, nat> {
    edges[v := (if v in edges then edges[v] else 0) + 1]
  }

  /** Iteration i of createGraph's loop over the lower-cased tokens ws: make ws[i]
      a node and, unless it is the last token, count the pair (ws[i], ws[i + 1]). */
  function Step(g: Graph, ws: seq<string>, i: nat): Graph
    requires i < |ws|
  {
    var g' := if ws[i] in g then g else g[ws[i] := map[]];
    if i < |ws| - 1 then g'[ws[i] := Bump(g'[ws[i]], ws[i + 1])] else g'
  }

  /** Iterations i .. |ws| - 1 of the loop. */
  function IngestFrom(g: Graph, ws: seq<string>, i: nat): Graph
    requires i <= |ws|
    decreases |ws| - i
  {
    if i == |ws| then g else IngestFrom(Step(g, ws, i), ws, i + 1)
  }

  /** The graph after createGraph over the lower-cased tokens ws, starting from g. */
  function Ingest(g: Graph, ws: seq<string>): Graph {
    IngestFrom(g, ws, 0)
  }

  /** The tokens from position i on. */
  function TokensFrom(ws: seq<string>, i: nat): set<string> {
    set j | i <= j < |ws| :: ws[j]
  }

  /** The number of positions j >= i at which u is immediately followed by v. */
  function PairCount(ws: seq<string>, u: string, v: string, i: nat): nat
    decreases |ws| - i
  {
    if i + 1 >= |ws| then 0
    else (if ws[i] == u && ws[i + 1] == v then 1 else 0) + PairCount(ws, u, v, i + 1)
  }

  lemma StepWeight(g: Graph, ws: seq<string>, i: nat, u: string, v: string)
    requires i < |ws|
    ensures Weight(Step(g, ws, i), u, v)
         == Weight(g, u, v) + (if i + 1 < |ws| && ws[i] == u && ws[i + 1] == v then 1 else 0)
  {
  }

  /** Each pass adds the number of adjacent occurrences to every count. */
  lemma {:induction false} IngestWeight(g: Graph, ws: seq<string>, i: nat, u: string, v: string)
    requires i <= |ws|
    ensures Weight(IngestFrom(g, ws, i), u, v) == Weight(g, u, v) + PairCount(ws, u, v, i)
    decreases |ws| - i
  {
    if i < |ws| {
      StepWeight(g, ws, i, u, v);
      IngestWeight(Step(g, ws, i), ws, i + 1, u, v);
    }
  }

  /** Every token becomes a node, the last one included, and no other node appears. */
  lemma {:induction false} IngestNodes(g: Graph, ws: seq<string>, i: nat)
    requires i <= |ws|
    ensures IngestFrom(g, ws, i).Keys == g.Keys + TokensFrom(ws, i)
    decreases |ws| - i
  {
    if i < |ws| {
      IngestNodes(Step(g, ws, i), ws, i + 1);
      assert TokensFrom(ws, i) == {ws[i]} + TokensFrom(ws, i + 1);
    }
  }

  /** Counts are never zero. */
  lemma {:induction false} IngestPositive(g: Graph, ws: seq<string>, i: nat)
    requires i <= |ws| && Positive(g)
    ensures Positive(IngestFrom(g, ws, i))
    decreases |ws| - i
  {
    if i < |ws| {
      IngestPositive(Step(g, ws, i), ws, i + 1);
    }
  }

  /** A pair that occurs at least once ends in a token. */
  lemma {:induction false} PairCountTarget(ws: seq<string>, u: string, v: string, i: nat)
    requires PairCount(ws, u, v, i) > 0
    ensures v in TokensFrom(ws, i)
    decreases |ws| - i
  {
    if !(ws[i] == u && ws[i + 1] == v) {
      PairCountTarget(ws, u, v, i + 1);
    }
  }

  /** The edges after a pass are the edges before and the adjacent pairs of the tokens. */
  lemma IngestEdges(g: Graph, ws: seq<string>, u: string, v: string)
    requires Positive(g)
    ensures IsEdge(Ingest(g, ws), u, v) <==> IsEdge(g, u, v) || PairCount(ws, u, v, 0) > 0
  {
    IngestWeight(g, ws, 0, u, v);
    IngestPositive(g, ws, 0);
  }

  /** createGraph keeps the graph valid: every edge target is a node and every count is positive. */
  lemma IngestValid(g: Graph, ws: seq<string>)
    requires Valid(g)
    ensures Valid(Ingest(g, ws))
  {
    var r := Ingest(g, ws);
    IngestPositive(g, ws, 0);
    IngestNodes(g, ws, 0);
    forall u, v | u in r && v in r[u]
      ensures v in r
    {
      IngestEdges(g, ws, u, v);
      if !IsEdge(g, u, v) {
        PairCountTarget(ws, u, v, 0);
      }
    }
  }

  /** Two passes without a clear in between add up their counts. */
  lemma IngestAccumulates(g: Graph, ws1: seq<string>, ws2: seq<string>, u: string, v: string)
    ensures Weight(Ingest(Ingest(g, ws1), ws2), u, v)
         == Weight(g, u, v) + PairCount(ws1, u, v, 0) + PairCount(ws2, u, v, 0)
  {
    IngestWeight(g, ws1, 0, u, v);
    IngestWeight(Ingest(g, ws1), ws2, 0, u, v);
  }

  /** On an empty graph, the nodes are exactly the tokens and each count is exactly
      the number of adjacent occurrences. */
  lemma IngestFresh(ws: seq<string>, u: string, v: string)
    ensures Ingest(map[], ws).Keys == TokensFrom(ws, 0)
    ensures Weight(Ingest(map[], ws), u, v) == PairCount(ws, u, v, 0)
  {
    IngestNodes(map[], ws, 0);
    IngestWeight(map[], ws, 0, u, v);
  }

  // ---------------------------------------------------------------------------
  // Paths

  /** A non-empty node sequence whose consecutive pairs are edges. */
  predicate IsPath(g: Graph, p: seq<string>) {
    |p| >= 1 && p[0] in g && forall i :: 0 <= i < |p| - 1 ==> IsEdge(g, p[i], p[i + 1])
  }

  predicate IsPathFromTo(g: Graph, p: seq<string>, a: string, b: string) {
    IsPath(g, p) && p[0] == a && p[|p| - 1] == b
  }

  /** The sum of the counts along the consecutive pairs of p. */
  function PathWeight(g: Graph, p: seq<string>): nat {
    if |p| <= 1 then 0 else PathWeight(g, p[..|p| - 1]) + Weight(g, p[|p| - 2], p[|p| - 1])
  }

  /** A path from a to b whose weight no other path from a to b undercuts. */
  ghost predicate IsShortest(g: Graph, p: seq<string>, a: string, b: string) {
    IsPathFromTo(g, p, a, b) && forall q :: IsPathFromTo(g, q, a, b) ==> PathWeight(g, p) <= PathWeight(g, q)
  }

  lemma PathPrefix(g: Graph, p: seq<string>)
    requires IsPath(g, p) && |p| >= 2
    ensures IsPath(g, p[..|p| - 1]) && IsEdge(g, p[|p| - 2], p[|p| - 1])
    ensures PathWeight(g, p) == PathWeight(g, p[..|p| - 1]) + g[p[|p| - 2]][p[|p| - 1]]
  {
    assert IsEdge(g, p[|p| - 2], p[|p| - 1]);
  }

  lemma PathExtend(g: Graph, p: seq<string>, v: string)
    requires IsPath(g, p) && IsEdge(g, p[|p| - 1], v)
    ensures IsPath(g, p + [v])
    ensures PathWeight(g, p + [v]) == PathWeight(g, p) + g[p[|p| - 1]][v]
  {
    assert (p + [v])[..|p|] == p;
  }
}
