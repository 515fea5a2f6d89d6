/** The all-shortest-paths engine of calAllShortestPath: what its relaxation loop
    keeps true of the distance and parent maps, and the node sequences that
    backtrack reads off the parent lists. */
module ShortestPaths {
  import opened JavaString
  import opened WordGraph

  /** Distances found so far; a node that is not a key still has Integer.MAX_VALUE. */
  type Dist = map<string, nat>

  /** The parent list of every node, duplicates allowed. */
  type Parents = map<string, seq<string>>

  /** Every recorded parent u of v is an edge u -> v between reached nodes that
      does not undercut v's distance. */
  ghost predicate ParentsSound(g: Graph, dist: Dist, parents: Parents) {
    forall v, u :: v in parents && u in parents[v] ==> SoundParent(g, dist, parents, v, u)
  }

  /** The parent u listed for v is an edge u -> v between reached nodes that does not
      undercut v's distance. */
  ghost predicate SoundParent(g: Graph, dist: Dist, parents: Parents, v: string, u: string)
    requires v in parents && u in parents[v]
  {
    IsEdge(g, u, v) && u in dist && v in dist && dist[u] + g[u][v] <= dist[v]
  }

  /** Every recorded parent u of v lies on a way to v of exactly v's distance. */
  ghost predicate Tight(g: Graph, dist: Dist, parents: Parents) {
    forall v, u :: v in parents && u in parents[v] ==>
      IsEdge(g, u, v) && u in dist && v in dist && dist[v] == dist[u] + g[u][v]
  }

  /** The edge u -> v has been relaxed from u's current distance: v is reached, no
      farther than through u, and u is one of v's parents when the two are equal. */
  ghost predicate RelaxedEdge(g: Graph, dist: Dist, parents: Parents, u: string, v: string)
    requires u in dist && IsEdge(g, u, v)
  {
    && v in dist && v in parents
    && dist[v] <= dist[u] + g[u][v]
    && (dist[v] == dist[u] + g[u][v] ==> u in parents[v])
  }

  /** Every edge out of every reached node has been relaxed. */
  ghost predicate Relaxed(g: Graph, dist: Dist, parents: Parents) {
    forall u, v :: u in dist && IsEdge(g, u, v) ==> RelaxedEdge(g, dist, parents, u, v)
  }

  /** Every reached node other than the start has at least one parent. */
  ghost predicate Anchored(dist: Dist, parents: Parents, start: string) {
    forall v :: v in dist && v != start ==> v in parents && |parents[v]| >= 1
  }

  /** When every edge has been relaxed, the sound parent lists are tight. */
  lemma SettledIsTight(g: Graph, dist: Dist, parents: Parents)
    requires ParentsSound(g, dist, parents) && Relaxed(g, dist, parents)
    ensures Tight(g, dist, parents)
  {
    forall v, u | v in parents && u in parents[v]
      ensures IsEdge(g, u, v) && u in dist && v in dist && dist[v] == dist[u] + g[u][v]
    {
      assert RelaxedEdge(g, dist, parents, u, v);
    }
  }

  // ---------------------------------------------------------------------------
  // What backtrack enumerates

  /** The measure backtrack's recursion descends along. */
  function Rank(dist: Dist, v: string): nat {
    if v in dist then dist[v] else 0
  }

  function AppendEach(cs: seq<seq<string>>, x: string): (r: seq<seq<string>>)
    ensures |r| == |cs|
  {
    seq(|cs|, k requires 0 <= k < |cs| => cs[k] + [x])
  }

  /** The node sequences, start first and node last, that backtrack emits from node,
      in the order it emits them: just [start] when node is the start; otherwise,
      parent by parent in list order, those of the parent extended by node. */
  function Chains(g: Graph, dist: Dist, parents: Parents, start: string, node: string): seq<seq<string>>
    requires Positive(g) && Tight(g, dist, parents) && g.Keys <= parents.Keys && node in parents
    decreases Rank(dist, node), 1
  {
    if node == start then [[start]] else ChainsVia(g, dist, parents, start, node, parents[node])
  }

  /** The part of Chains(node) contributed by the parents ps of node. */
  function ChainsVia(g: Graph, dist: Dist, parents: Parents, start: string, node: string, ps: seq<string>)
    : seq<seq<string>>
    requires Positive(g) && Tight(g, dist, parents) && g.Keys <= parents.Keys && node in parents
    requires forall p :: p in ps ==> p in parents[node]
    decreases Rank(dist, node), 0, |ps|
  {
    if ps == [] then []
    else
      var p := ps[|ps| - 1];
      assert p in ps && IsEdge(g, p, node);
      ChainsVia(g, dist, parents, start, node, ps[..|ps| - 1])
        + AppendEach(Chains(g, dist, parents, start, p), node)
  }

  /** The entries backtrack adds for the node sequences cs: each is the decimal total
      weight, then the sequence, then the path already walked back from word2. */
  function Emit(g: Graph, cs: seq<seq<string>>, path: seq<string>, pathWeight: nat): (r: seq<seq<string>>)
    ensures |r| == |cs|
  {
    seq(|cs|, k requires 0 <= k < |cs| => [Decimal(pathWeight + PathWeight(g, cs[k]))] + cs[k] + path)
  }

  lemma EmitAppend(g: Graph, a: seq<seq<string>>, b: seq<seq<string>>, path: seq<string>, pathWeight: nat)
    ensures Emit(g, a + b, path, pathWeight) == Emit(g, a, path, pathWeight) + Emit(g, b, path, pathWeight)
  {
  }

  lemma PathWeightSnoc(g: Graph, c: seq<string>, v: string)
    requires |c| >= 1
    ensures PathWeight(g, c + [v]) == PathWeight(g, c) + Weight(g, c[|c| - 1], v)
  {
    assert (c + [v])[..|c|] == c;
  }

  /** Walking one more edge p -> node back from word2 before emitting is the same as
      emitting the sequences extended by node. */
  lemma EmitShift(g: Graph, cs: seq<seq<string>>, p: string, node: string, path: seq<string>, pathWeight: nat)
    requires IsEdge(g, p, node)
    requires forall k :: 0 <= k < |cs| ==> |cs[k]| >= 1 && cs[k][|cs[k]| - 1] == p
    ensures Emit(g, cs, [node] + path, pathWeight + g[p][node]) == Emit(g, AppendEach(cs, node), path, pathWeight)
  {
    var l := Emit(g, cs, [node] + path, pathWeight + g[p][node]);
    var r := Emit(g, AppendEach(cs, node), path, pathWeight);
    forall k | 0 <= k < |cs| ensures l[k] == r[k] {
      PathWeightSnoc(g, cs[k], node);
    }
  }

  /** Every chain of node ends at node. */
  lemma {:induction false} ChainsEndAt(g: Graph, dist: Dist, parents: Parents, start: string, node: string)
    requires Positive(g) && Tight(g, dist, parents) && g.Keys <= parents.Keys && node in parents
    ensures forall c :: c in Chains(g, dist, parents, start, node) ==> |c| >= 1 && c[|c| - 1] == node
  {
    if node != start {
      ChainsViaEndAt(g, dist, parents, start, node, parents[node]);
    }
  }

  lemma {:induction false} ChainsViaEndAt(g: Graph, dist: Dist, parents: Parents, start: string, node: string, ps: seq<string>)
    requires Positive(g) && Tight(g, dist, parents) && g.Keys <= parents.Keys && node in parents
    requires forall p :: p in ps ==> p in parents[node]
    ensures forall c :: c in ChainsVia(g, dist, parents, start, node, ps) ==> |c| >= 1 && c[|c| - 1] == node
    decreases |ps|
  {
    if ps != [] {
      ChainsViaEndAt(g, dist, parents, start, node, ps[..|ps| - 1]);
    }
  }

  /** Backtracking through the parent ps[i] of node adds the entries of the next
      part of the chains of node. */
  lemma BacktrackStep(g: Graph, dist: Dist, parents: Parents, start: string, node: string, ps: seq<string>,
                      i: nat, p: string, path: seq<string>, pathWeight: nat, acc: seq<seq<string>>)
    requires Positive(g) && Tight(g, dist, parents) && g.Keys <= parents.Keys && node in parents
    requires ps == parents[node] && i < |ps| && p == ps[i]
    ensures IsEdge(g, p, node) && p in parents
    ensures acc + Emit(g, ChainsVia(g, dist, parents, start, node, ps[..i]), path, pathWeight)
              + Emit(g, Chains(g, dist, parents, start, p), [node] + path, pathWeight + g[p][node])
         == acc + Emit(g, ChainsVia(g, dist, parents, start, node, ps[..i + 1]), path, pathWeight)
  {
    assert p in ps && IsEdge(g, p, node);
    var cs := Chains(g, dist, parents, start, p);
    ChainsViaSnoc(g, dist, parents, start, node, i);
    ChainsEndAt(g, dist, parents, start, p);
    EmitShift(g, cs, p, node, path, pathWeight);
    var before := Emit(g, ChainsVia(g, dist, parents, start, node, ps[..i]), path, pathWeight);
    var added := Emit(g, cs, [node] + path, pathWeight + g[p][node]);
    EmitAppend(g, ChainsVia(g, dist, parents, start, node, ps[..i]), AppendEach(cs, node), path, pathWeight);
    assert acc + before + added == acc + (before + added);
  }

  lemma ChainsViaSnoc(g: Graph, dist: Dist, parents: Parents, start: string, node: string, i: nat)
    requires Positive(g) && Tight(g, dist, parents) && g.Keys <= parents.Keys && node in parents
    requires i < |parents[node]|
    ensures parents[node][i] in parents
    ensures ChainsVia(g, dist, parents, start, node, parents[node][..i + 1])
         == ChainsVia(g, dist, parents, start, node, parents[node][..i])
            + AppendEach(Chains(g, dist, parents, start, parents[node][i]), node)
  {
    var ps := parents[node];
    assert ps[i] in ps && IsEdge(g, ps[i], node);
    assert ps[..i + 1][..i] == ps[..i];
  }

  /** At the start the chain is the start alone, of weight zero. */
  lemma BacktrackAtStart(g: Graph, dist: Dist, parents: Parents, start: string, path: seq<string>, pathWeight: nat)
    requires Positive(g) && Tight(g, dist, parents) && g.Keys <= parents.Keys && start in parents
    ensures Emit(g, Chains(g, dist, parents, start, start), path, pathWeight) == [[Decimal(pathWeight)] + [start] + path]
  {
    assert PathWeight(g, [start]) == 0;
  }

  /** Everything backtrack can emit is a path from the start to node whose weight is
      node's distance. */
  lemma {:induction false} ChainsSound(g: Graph, dist: Dist, parents: Parents, start: string, node: string)
    requires Positive(g) && Tight(g, dist, parents) && g.Keys <= parents.Keys && node in parents
    requires start in g && start in dist && dist[start] == 0
    ensures forall c :: c in Chains(g, dist, parents, start, node) ==>
      IsPathFromTo(g, c, start, node) && node in dist && PathWeight(g, c) == dist[node]
    decreases Rank(dist, node), 1
  {
    if node != start {
      ChainsViaSound(g, dist, parents, start, node, parents[node]);
    }
  }

  lemma {:induction false} ChainsViaSound(g: Graph, dist: Dist, parents: Parents, start: string, node: string, ps: seq<string>)
    requires Positive(g) && Tight(g, dist, parents) && g.Keys <= parents.Keys && node in parents
    requires forall p :: p in ps ==> p in parents[node]
    requires start in g && start in dist && dist[start] == 0
    ensures forall c :: c in ChainsVia(g, dist, parents, start, node, ps) ==>
      IsPathFromTo(g, c, start, node) && node in dist && PathWeight(g, c) == dist[node]
    decreases Rank(dist, node), 0, |ps|
  {
    if ps != [] {
      var p := ps[|ps| - 1];
      assert p in ps;
      ChainsViaSound(g, dist, parents, start, node, ps[..|ps| - 1]);
      ChainsSound(g, dist, parents, start, p);
      var cs := Chains(g, dist, parents, start, p);
      forall c | c in AppendEach(cs, node)
        ensures IsPathFromTo(g, c, start, node) && node in dist && PathWeight(g, c) == dist[node]
      {
        var k :| 0 <= k < |cs| && c == cs[k] + [node];
        assert cs[k] in cs && p in ps;
        PathExtend(g, cs[k], node);
      }
    }
  }

  /** Every reached node has at least one chain back to the start. */
  lemma {:induction false} ChainsNonEmpty(g: Graph, dist: Dist, parents: Parents, start: string, node: string)
    requires Positive(g) && Tight(g, dist, parents) && g.Keys <= parents.Keys && node in parents
    requires Anchored(dist, parents, start) && node in dist
    ensures |Chains(g, dist, parents, start, node)| >= 1
    decreases Rank(dist, node)
  {
    if node != start {
      var ps := parents[node];
      var p := ps[|ps| - 1];
      assert p in ps;
      ChainsNonEmpty(g, dist, parents, start, p);
    }
  }

  /** Every path that reaches the end of a relaxed search is at least as heavy as the
      distance found for its last node. */
  lemma {:induction false} DistBound(g: Graph, dist: Dist, parents: Parents, start: string, p: seq<string>)
    requires Relaxed(g, dist, parents) && start in dist && dist[start] == 0
    requires IsPath(g, p) && p[0] == start
    ensures p[|p| - 1] in dist && dist[p[|p| - 1]] <= PathWeight(g, p)
    decreases |p|
  {
    if |p| >= 2 {
      PathPrefix(g, p);
      var q := p[..|p| - 1];
      DistBound(g, dist, parents, start, q);
      assert RelaxedEdge(g, dist, parents, q[|q| - 1], p[|p| - 1]);
    }
  }

  lemma ChainsViaContains(g: Graph, dist: Dist, parents: Parents, start: string, node: string, ps: seq<string>, k: nat, c: seq<string>)
    requires Positive(g) && Tight(g, dist, parents) && g.Keys <= parents.Keys && node in parents
    requires forall p :: p in ps ==> p in parents[node]
    requires k < |ps| && ps[k] in parents && c in Chains(g, dist, parents, start, ps[k])
    ensures c + [node] in ChainsVia(g, dist, parents, start, node, ps)
    decreases |ps|
  {
    var p := ps[|ps| - 1];
    var init := ps[..|ps| - 1];
    assert p in ps && IsEdge(g, p, node);
    var cs := Chains(g, dist, parents, start, p);
    assert ChainsVia(g, dist, parents, start, node, ps)
        == ChainsVia(g, dist, parents, start, node, init) + AppendEach(cs, node);
    if k == |ps| - 1 {
      var j :| 0 <= j < |cs| && cs[j] == c;
      assert AppendEach(cs, node)[j] == c + [node];
    } else {
      assert init[k] == ps[k];
      ChainsViaContains(g, dist, parents, start, node, init, k, c);
    }
  }

  /** Every path from the start whose weight equals its end's distance is among the
      chains backtrack enumerates: no shortest path is missed. */
  lemma {:induction false} ChainsComplete(g: Graph, dist: Dist, parents: Parents, start: string, p: seq<string>)
    requires Positive(g) && Tight(g, dist, parents) && Relaxed(g, dist, parents) && g.Keys <= parents.Keys
    requires start in dist && dist[start] == 0
    requires IsPath(g, p) && p[0] == start && p[|p| - 1] in dist && PathWeight(g, p) == dist[p[|p| - 1]]
    ensures p[|p| - 1] in parents && p in Chains(g, dist, parents, start, p[|p| - 1])
    decreases |p|
  {
    var v := p[|p| - 1];
    if |p| == 1 {
      assert p == [start];
    } else {
      PathPrefix(g, p);
      var q := p[..|p| - 1];
      var u := q[|q| - 1];
      DistBound(g, dist, parents, start, q);
      assert RelaxedEdge(g, dist, parents, u, v);
      ChainsComplete(g, dist, parents, start, q);
      assert p == q + [v];
      var k :| 0 <= k < |parents[v]| && parents[v][k] == u;
      ChainsViaContains(g, dist, parents, start, v, parents[v], k, q);
    }
  }

  // ---------------------------------------------------------------------------
  // The relaxation loop

  /** What holds between two steps of the relaxation loop: distances and parents
      stay sound, and an edge out of a reached node that has not been relaxed yet
      waits in the queue, or is one of the edges of the polled node current still
      to be looked at. */
  ghost predicate Search(g: Graph, start: string, dist: Dist, parents: Parents, queue: multiset<string>,
                         current: string, remaining: set<string>)
  {
    && Valid(g)
    && dist.Keys <= g.Keys && start in dist && dist[start] == 0
    && parents.Keys == g.Keys
    && (forall x :: x in queue ==> x in dist)
    && ParentsSound(g, dist, parents)
    && Anchored(dist, parents, start)
    && (forall u, v :: u in dist && IsEdge(g, u, v) ==>
          u in queue || (u == current && v in remaining) || RelaxedEdge(g, dist, parents, u, v))
  }

  /** The state before the first poll: only the start is reached and queued. */
  lemma SearchStart(g: Graph, start: string)
    requires Valid(g) && start in g
    ensures Search(g, start, map[start := 0], map u | u in g :: [], multiset{start}, start, {})
  {
  }

  /** Polling current from the queue puts all of its edges up for relaxation. */
  lemma SearchPoll(g: Graph, start: string, dist: Dist, parents: Parents, queue: multiset<string>,
                   prev: string, current: string)
    requires Search(g, start, dist, parents, queue, prev, {}) && current in queue
    ensures current in dist && current in g
    ensures Search(g, start, dist, parents, queue - multiset{current}, current, g[current].Keys)
  {
    var q := queue - multiset{current};
    forall u, v | u in dist && IsEdge(g, u, v)
      ensures u in q || (u == current && v in g[current].Keys) || RelaxedEdge(g, dist, parents, u, v)
    {
      if u in queue && u != current {
        assert u in q;
      }
    }
  }

  /** An edge current -> neighbor that gives no shorter and no equal way leaves everything as it is. */
  lemma SearchSkip(g: Graph, start: string, dist: Dist, parents: Parents, queue: multiset<string>,
                   current: string, remaining: set<string>, neighbor: string)
    requires Search(g, start, dist, parents, queue, current, remaining)
    requires current in dist && neighbor in remaining && IsEdge(g, current, neighbor)
    requires neighbor in dist && dist[current] + g[current][neighbor] > dist[neighbor]
    ensures Search(g, start, dist, parents, queue, current, remaining - {neighbor})
  {
  }

  /** An edge current -> neighbor that gives an equally short way adds current to
      neighbor's parents. */
  lemma SearchTie(g: Graph, start: string, dist: Dist, parents: Parents, queue: multiset<string>,
                  current: string, remaining: set<string>, neighbor: string)
    requires Search(g, start, dist, parents, queue, current, remaining)
    requires current in dist && neighbor in remaining && IsEdge(g, current, neighbor)
    requires neighbor in dist && dist[current] + g[current][neighbor] == dist[neighbor]
    ensures Search(g, start, dist, parents[neighbor := parents[neighbor] + [current]], queue, current,
                   remaining - {neighbor})
  {
    TieSound(g, dist, parents, current, neighbor);
    TiePending(g, start, dist, parents, queue, current, remaining, neighbor);
  }

  lemma TieSound(g: Graph, dist: Dist, parents: Parents, current: string, neighbor: string)
    requires ParentsSound(g, dist, parents) && neighbor in parents
    requires current in dist && IsEdge(g, current, neighbor)
    requires neighbor in dist && dist[current] + g[current][neighbor] == dist[neighbor]
    ensures ParentsSound(g, dist, parents[neighbor := parents[neighbor] + [current]])
  {
    var parents' := parents[neighbor := parents[neighbor] + [current]];
    forall v, u | v in parents' && u in parents'[v] ensures SoundParent(g, dist, parents', v, u) {
      if v != neighbor || u != current {
        assert u in parents[v];
      }
    }
  }

  lemma TiePending(g: Graph, start: string, dist: Dist, parents: Parents, queue: multiset<string>,
                   current: string, remaining: set<string>, neighbor: string)
    requires Search(g, start, dist, parents, queue, current, remaining)
    requires current in dist && neighbor in remaining && IsEdge(g, current, neighbor)
    requires neighbor in dist && dist[current] + g[current][neighbor] == dist[neighbor]
    ensures var parents' := parents[neighbor := parents[neighbor] + [current]];
      forall u, v :: u in dist && IsEdge(g, u, v) ==>
        u in queue || (u == current && v in remaining - {neighbor}) || RelaxedEdge(g, dist, parents', u, v)
  {
    var parents' := parents[neighbor := parents[neighbor] + [current]];
    forall u, v | u in dist && IsEdge(g, u, v)
      ensures u in queue || (u == current && v in remaining - {neighbor}) || RelaxedEdge(g, dist, parents', u, v)
    {
      if !(u in queue || (u == current && v in remaining)) {
        assert RelaxedEdge(g, dist, parents, u, v);
      }
    }
  }

  /** An edge current -> neighbor that gives a shorter way lowers neighbor's distance,
      queues neighbor again and makes current its only parent. */
  lemma SearchImprove(g: Graph, start: string, dist: Dist, parents: Parents, queue: multiset<string>,
                      current: string, remaining: set<string>, neighbor: string)
    requires Search(g, start, dist, parents, queue, current, remaining)
    requires current in dist && neighbor in remaining && IsEdge(g, current, neighbor)
    requires neighbor !in dist || dist[current] + g[current][neighbor] < dist[neighbor]
    ensures neighbor != current && neighbor != start
    ensures Search(g, start, dist[neighbor := dist[current] + g[current][neighbor]],
                   parents[neighbor := [current]], queue + multiset{neighbor}, current, remaining - {neighbor})
  {
    var d := dist[current] + g[current][neighbor];
    ImproveSound(g, dist, parents, current, neighbor, d, dist[neighbor := d], parents[neighbor := [current]]);
    ImprovePending(g, start, dist, parents, queue, current, remaining, neighbor, d);
  }

  lemma ImproveSound(g: Graph, dist: Dist, parents: Parents, current: string, neighbor: string, d: nat,
                     dist': Dist, parents': Parents)
    requires ParentsSound(g, dist, parents) && Positive(g)
    requires current in dist && IsEdge(g, current, neighbor) && d == dist[current] + g[current][neighbor]
    requires neighbor !in dist || d < dist[neighbor]
    requires dist' == dist[neighbor := d] && parents' == parents[neighbor := [current]]
    ensures neighbor != current
    ensures ParentsSound(g, dist', parents')
  {
    assert g[current][neighbor] >= 1;
    forall v, u | v in parents' && u in parents'[v] ensures SoundParent(g, dist', parents', v, u) {
      ImproveSoundAt(g, dist, parents, current, neighbor, d, dist', parents', v, u);
    }
  }

  lemma ImproveSoundAt(g: Graph, dist: Dist, parents: Parents, current: string, neighbor: string, d: nat,
                       dist': Dist, parents': Parents, v: string, u: string)
    requires ParentsSound(g, dist, parents) && Positive(g)
    requires current in dist && IsEdge(g, current, neighbor) && d == dist[current] + g[current][neighbor]
    requires neighbor !in dist || d < dist[neighbor]
    requires dist' == dist[neighbor := d] && parents' == parents[neighbor := [current]]
    requires v in parents' && u in parents'[v]
    ensures SoundParent(g, dist', parents', v, u)
  {
    assert g[current][neighbor] >= 1;
    if v != neighbor {
      assert parents'[v] == parents[v];
      assert IsEdge(g, u, v) && u in dist && v in dist && dist[u] + g[u][v] <= dist[v];
      assert dist'[u] <= dist[u] && dist'[v] == dist[v];
    } else {
      assert u == current && dist'[v] == d;
      assert dist'[current] == dist[current];
    }
  }

  lemma ImprovePending(g: Graph, start: string, dist: Dist, parents: Parents, queue: multiset<string>,
                       current: string, remaining: set<string>, neighbor: string, d: nat)
    requires Search(g, start, dist, parents, queue, current, remaining)
    requires current in dist && neighbor in remaining && IsEdge(g, current, neighbor)
    requires d == dist[current] + g[current][neighbor]
    requires neighbor !in dist || d < dist[neighbor]
    ensures var dist', parents' := dist[neighbor := d], parents[neighbor := [current]];
      forall u, v :: u in dist' && IsEdge(g, u, v) ==>
        u in queue + multiset{neighbor} || (u == current && v in remaining - {neighbor})
        || RelaxedEdge(g, dist', parents', u, v)
  {
    var dist' := dist[neighbor := d];
    var parents' := parents[neighbor := [current]];
    forall u, v | u in dist' && IsEdge(g, u, v)
      ensures u in queue + multiset{neighbor} || (u == current && v in remaining - {neighbor})
              || RelaxedEdge(g, dist', parents', u, v)
    {
      if u != neighbor && !(u in queue || (u == current && v in remaining)) {
        assert RelaxedEdge(g, dist, parents, u, v);
      }
    }
  }

  /** The number of nodes not reached yet. */
  function Unreached(g: Graph, dist: Dist): nat {
    |g.Keys - dist.Keys|
  }

  /** The loop's measure at dist and queue (nodes not reached, then the sum of the
      distances, then the size of the queue) is at most (unreached, total, queued),
      and below it as soon as a distance has changed. */
  ghost predicate Progress(g: Graph, ns: seq<string>, dist: Dist, queue: multiset<string>,
                           unreached: nat, total: nat, queued: nat)
  {
    || Unreached(g, dist) < unreached
    || (Unreached(g, dist) == unreached && Total(ns, dist) < total)
    || (Unreached(g, dist) == unreached && Total(ns, dist) == total && |queue| <= queued)
  }

  /** Lowering or first setting the distance of a node keeps the progress made. */
  lemma ImproveProgress(g: Graph, ns: seq<string>, dist: Dist, queue: multiset<string>,
                        unreached: nat, total: nat, queued: nat, neighbor: string, d: nat)
    requires Progress(g, ns, dist, queue, unreached, total, queued)
    requires dist.Keys <= g.Keys && neighbor in g && (forall x :: x in g ==> x in ns)
    requires neighbor !in dist || d < dist[neighbor]
    ensures Progress(g, ns, dist[neighbor := d], queue + multiset{neighbor}, unreached, total, queued)
  {
    var dist' := dist[neighbor := d];
    if neighbor !in dist {
      ReachLowers(g, dist, neighbor, d);
    } else {
      assert dist'.Keys == dist.Keys;
      TotalDecreases(ns, dist, neighbor, d);
    }
  }

  /** Reaching a node for the first time lowers the number of nodes not reached. */
  lemma ReachLowers(g: Graph, dist: Dist, neighbor: string, d: nat)
    requires dist.Keys <= g.Keys && neighbor in g && neighbor !in dist
    ensures Unreached(g, dist[neighbor := d]) < Unreached(g, dist)
  {
    assert g.Keys - dist[neighbor := d].Keys == (g.Keys - dist.Keys) - {neighbor};
  }


  /** The distance map, the parent lists and the queue, which the loop over the
      edges of a polled node updates. */
  datatype Frontier = Frontier(dist: Dist, parents: Parents, queue: multiset<string>)

  /** The elements of a sequence. */
  function Elems(xs: seq<string>): set<string> {
    set x | x in xs
  }

  /** One pass of the loop over the edges of current, for the edge current -> neighbor. */
  function Relax(g: Graph, current: string, f: Frontier, neighbor: string): (r: Frontier)
    requires current in f.dist && IsEdge(g, current, neighbor) && neighbor in f.parents
    ensures current in r.dist && r.parents.Keys == f.parents.Keys
  {
    var newDistance := f.dist[current] + g[current][neighbor];
    if neighbor !in f.dist || newDistance < f.dist[neighbor] then
      Frontier(f.dist[neighbor := newDistance], f.parents[neighbor := [current]], f.queue + multiset{neighbor})
    else if newDistance == f.dist[neighbor] then
      Frontier(f.dist, f.parents[neighbor := f.parents[neighbor] + [current]], f.queue)
    else
      f
  }

  /** The loop over the edges of current, visiting the targets in the order given. */
  function RelaxAll(g: Graph, current: string, f: Frontier, order: seq<string>): (r: Frontier)
    requires current in f.dist && current in g && g[current].Keys <= f.parents.Keys
    requires forall k :: 0 <= k < |order| ==> order[k] in g[current]
    ensures current in r.dist && r.parents.Keys == f.parents.Keys
  {
    if order == [] then f
    else Relax(g, current, RelaxAll(g, current, f, order[..|order| - 1]), order[|order| - 1])
  }

  /** order lists, each once, the elements of keys already visited, and remaining
      holds the others. */
  ghost predicate Visiting(keys: set<string>, remaining: set<string>, order: seq<string>) {
    && remaining <= keys
    && (forall k :: 0 <= k < |order| ==> order[k] in keys && order[k] !in remaining)
    && (forall i, j :: 0 <= i < j < |order| ==> order[i] != order[j])
    && (forall x :: x in keys && x !in remaining ==> x in order)
  }

  lemma VisitNext(keys: set<string>, remaining: set<string>, order: seq<string>, x: string)
    requires Visiting(keys, remaining, order) && x in remaining
    ensures Visiting(keys, remaining - {x}, order + [x])
  {
  }

  lemma RelaxAllSnoc(g: Graph, current: string, f: Frontier, order: seq<string>, neighbor: string)
    requires current in f.dist && current in g && g[current].Keys <= f.parents.Keys
    requires forall k :: 0 <= k < |order| ==> order[k] in g[current]
    requires neighbor in g[current]
    ensures RelaxAll(g, current, f, order + [neighbor]) == Relax(g, current, RelaxAll(g, current, f, order), neighbor)
  {
    assert (order + [neighbor])[..|order|] == order;
  }

  /** Whatever the order in which the edges of current are looked at, the search stays
      sound and the edges looked at are relaxed. */
  lemma {:induction false} RelaxAllSearch(g: Graph, start: string, f: Frontier, current: string, order: seq<string>)
    requires current in f.dist && current in g
    requires Search(g, start, f.dist, f.parents, f.queue, current, g[current].Keys)
    requires forall k :: 0 <= k < |order| ==> order[k] in g[current]
    requires forall i, j :: 0 <= i < j < |order| ==> order[i] != order[j]
    ensures g[current].Keys <= f.parents.Keys
    ensures var r := RelaxAll(g, current, f, order);
      Search(g, start, r.dist, r.parents, r.queue, current, g[current].Keys - Elems(order))
  {
    assert g[current].Keys <= f.parents.Keys;
    if order != [] {
      var init := order[..|order| - 1];
      var neighbor := order[|order| - 1];
      RelaxAllSearch(g, start, f, current, init);
      var r := RelaxAll(g, current, f, init);
      var remaining := g[current].Keys - Elems(init);
      ElemsSnoc(order);
      assert remaining - {neighbor} == g[current].Keys - Elems(order);
      RelaxStep(g, start, r, current, remaining, neighbor);
    }
  }

  /** The last element of a list without repetitions is new to the rest of it. */
  lemma ElemsSnoc(xs: seq<string>)
    requires xs != [] && forall i, j :: 0 <= i < j < |xs| ==> xs[i] != xs[j]
    ensures xs[|xs| - 1] !in Elems(xs[..|xs| - 1])
    ensures Elems(xs) == Elems(xs[..|xs| - 1]) + {xs[|xs| - 1]}
  {
    assert xs == xs[..|xs| - 1] + [xs[|xs| - 1]];
  }

  /** One pass of the loop keeps the search sound and relaxes its edge. */
  lemma RelaxStep(g: Graph, start: string, f: Frontier, current: string, remaining: set<string>, neighbor: string)
    requires current in f.dist && neighbor in remaining && IsEdge(g, current, neighbor)
    requires Search(g, start, f.dist, f.parents, f.queue, current, remaining)
    ensures neighbor in f.parents
    ensures Search(g, start, Relax(g, current, f, neighbor).dist, Relax(g, current, f, neighbor).parents,
                   Relax(g, current, f, neighbor).queue, current, remaining - {neighbor})
  {
    if neighbor !in f.dist || f.dist[current] + g[current][neighbor] < f.dist[neighbor] {
      SearchImprove(g, start, f.dist, f.parents, f.queue, current, remaining, neighbor);
      SearchSame(g, start, f.dist[neighbor := f.dist[current] + g[current][neighbor]],
                 f.parents[neighbor := [current]], f.queue + multiset{neighbor},
                 Relax(g, current, f, neighbor), current, remaining - {neighbor});
    } else if f.dist[current] + g[current][neighbor] == f.dist[neighbor] {
      SearchTie(g, start, f.dist, f.parents, f.queue, current, remaining, neighbor);
      SearchSame(g, start, f.dist, f.parents[neighbor := f.parents[neighbor] + [current]], f.queue,
                 Relax(g, current, f, neighbor), current, remaining - {neighbor});
    } else {
      SearchSkip(g, start, f.dist, f.parents, f.queue, current, remaining, neighbor);
      SearchSame(g, start, f.dist, f.parents, f.queue, Relax(g, current, f, neighbor), current, remaining - {neighbor});
    }
  }

  /** Search depends on the state's three parts only. */
  lemma SearchSame(g: Graph, start: string, dist: Dist, parents: Parents, queue: multiset<string>,
                   r: Frontier, current: string, remaining: set<string>)
    requires Search(g, start, dist, parents, queue, current, remaining)
    requires r == Frontier(dist, parents, queue)
    ensures Search(g, start, r.dist, r.parents, r.queue, current, remaining)
  {
  }

  lemma SearchUnpack(g: Graph, start: string, r: Frontier, dist: Dist, parents: Parents, queue: multiset<string>,
                     current: string, remaining: set<string>, remaining': set<string>)
    requires Search(g, start, r.dist, r.parents, r.queue, current, remaining)
    requires r == Frontier(dist, parents, queue) && remaining == remaining'
    ensures Search(g, start, dist, parents, queue, current, remaining')
  {
  }

  /** The loop over the edges of current never lets the measure grow. */
  lemma {:induction false} RelaxAllProgress(g: Graph, ns: seq<string>, f: Frontier, current: string, order: seq<string>)
    requires current in f.dist && current in g && g[current].Keys <= f.parents.Keys
    requires g[current].Keys <= g.Keys && f.dist.Keys <= g.Keys
    requires forall x :: x in g ==> x in ns
    requires forall k :: 0 <= k < |order| ==> order[k] in g[current]
    ensures var r := RelaxAll(g, current, f, order);
      && r.dist.Keys <= g.Keys
      && Progress(g, ns, r.dist, r.queue, Unreached(g, f.dist), Total(ns, f.dist), |f.queue|)
  {
    if order != [] {
      var init := order[..|order| - 1];
      var neighbor := order[|order| - 1];
      RelaxAllProgress(g, ns, f, current, init);
      var r := RelaxAll(g, current, f, init);
      RelaxProgress(g, ns, r, current, neighbor, Unreached(g, f.dist), Total(ns, f.dist), |f.queue|);
    }
  }

  /** One pass of the loop never lets the measure grow. */
  lemma RelaxProgress(g: Graph, ns: seq<string>, f: Frontier, current: string, neighbor: string,
                      unreached: nat, total: nat, queued: nat)
    requires current in f.dist && IsEdge(g, current, neighbor) && neighbor in f.parents && neighbor in g
    requires f.dist.Keys <= g.Keys && forall x :: x in g ==> x in ns
    requires Progress(g, ns, f.dist, f.queue, unreached, total, queued)
    ensures var r := Relax(g, current, f, neighbor);
      r.dist.Keys <= g.Keys && Progress(g, ns, r.dist, r.queue, unreached, total, queued)
  {
    var newDistance := f.dist[current] + g[current][neighbor];
    if neighbor !in f.dist || newDistance < f.dist[neighbor] {
      assert Relax(g, current, f, neighbor)
          == Frontier(f.dist[neighbor := newDistance], f.parents[neighbor := [current]], f.queue + multiset{neighbor});
      ImproveProgress(g, ns, f.dist, f.queue, unreached, total, queued, neighbor, newDistance);
    } else {
      assert Relax(g, current, f, neighbor).dist == f.dist && Relax(g, current, f, neighbor).queue == f.queue;
    }
  }

  /** A polled node is reached, is a node, and its edge targets all have parent lists. */
  lemma PollReady(g: Graph, start: string, dist: Dist, parents: Parents, queue: multiset<string>,
                  prev: string, current: string)
    requires Search(g, start, dist, parents, queue, prev, {}) && current in queue
    ensures current in dist && current in g && g[current].Keys <= parents.Keys && g[current].Keys <= g.Keys
  {
  }

  /** One round of the outer loop: polling current and relaxing all of its edges, in
      whatever order, keeps the search sound and lowers the measure (nodes not reached,
      then the sum of the distances, then the size of the queue). */
  lemma SearchRound(g: Graph, start: string, ns: seq<string>, dist: Dist, parents: Parents,
                    queue: multiset<string>, prev: string, current: string, order: seq<string>,
                    dist': Dist, parents': Parents, queue': multiset<string>)
    requires Search(g, start, dist, parents, queue, prev, {}) && current in queue && current in g
    requires forall x :: x in g ==> x in ns
    requires forall k :: 0 <= k < |order| ==> order[k] in g[current]
    requires forall i, j :: 0 <= i < j < |order| ==> order[i] != order[j]
    requires forall x :: x in g[current] ==> x in order
    requires current in dist && g[current].Keys <= parents.Keys
    requires Frontier(dist', parents', queue')
          == RelaxAll(g, current, Frontier(dist, parents, queue - multiset{current}), order)
    ensures Search(g, start, dist', parents', queue', current, {})
    ensures || Unreached(g, dist') < Unreached(g, dist)
            || (Unreached(g, dist') == Unreached(g, dist) && Total(ns, dist') < Total(ns, dist))
            || (Unreached(g, dist') == Unreached(g, dist) && Total(ns, dist') == Total(ns, dist)
                && |queue'| < |queue|)
  {
    PollReady(g, start, dist, parents, queue, prev, current);
    var f := Frontier(dist, parents, queue - multiset{current});
    SearchPoll(g, start, dist, parents, queue, prev, current);
    RelaxAllSearch(g, start, f, current, order);
    RelaxAllProgress(g, ns, f, current, order);
    var r := RelaxAll(g, current, f, order);
    assert g[current].Keys - Elems(order) == {};
    SearchUnpack(g, start, r, dist', parents', queue', current, g[current].Keys - Elems(order), {});
  }

  /** When the queue has run empty, every edge out of a reached node is relaxed and
      the parent lists are tight. */
  lemma SearchDone(g: Graph, start: string, dist: Dist, parents: Parents, current: string)
    requires Search(g, start, dist, parents, multiset{}, current, {})
    ensures Relaxed(g, dist, parents) && Tight(g, dist, parents)
  {
    SettledIsTight(g, dist, parents);
  }

  // ---------------------------------------------------------------------------
  // The result of calAllShortestPath

  /** all lists shortest paths from word1 to word2, each as a header and a path whose
      weight the header spells out, and misses none. */
  ghost predicate AllShortest(g: Graph, word1: string, word2: string, all: seq<seq<string>>) {
    && (forall k :: 0 <= k < |all| ==>
          |all[k]| >= 2 && IsShortest(g, all[k][1..], word1, word2)
          && all[k][0] == Decimal(PathWeight(g, all[k][1..])))
    && (forall p :: IsShortest(g, p, word1, word2) ==> exists k :: 0 <= k < |all| && all[k][1..] == p)
  }

  /** Every listed path carries the same header. */
  ghost predicate SameHeader(all: seq<seq<string>>) {
    forall i, j :: 0 <= i < |all| && 0 <= j < |all| ==> |all[i]| > 0 && |all[j]| > 0 && all[i][0] == all[j][0]
  }

  /** What calAllShortestPath returns once the queue is empty: backtracking from
      word2 lists exactly the shortest paths, all with one header. */
  lemma SearchResult(g: Graph, dist: Dist, parents: Parents, word1: string, word2: string, current: string,
                      all: seq<seq<string>>)
    requires Search(g, word1, dist, parents, multiset{}, current, {}) && word1 in g && word2 in g
    requires Tight(g, dist, parents)
    requires all == Emit(g, Chains(g, dist, parents, word1, word2), [], 0)
    ensures AllShortest(g, word1, word2, all)
    ensures SameHeader(all)
    ensures all == [] <==> !exists p :: IsPathFromTo(g, p, word1, word2)
    ensures word1 == word2 ==> all == [["0", word1]]
  {
    SearchDone(g, word1, dist, parents, current);
    SettledEmitsShortest(g, dist, parents, word1, word2);
    forall i, j | 0 <= i < |all| && 0 <= j < |all|
      ensures |all[i]| > 0 && |all[j]| > 0 && all[i][0] == all[j][0]
    {
      ShortestWeightsAgree(g, all[i][1..], all[j][1..], word1, word2);
    }
    if word1 == word2 {
      BacktrackAtStart(g, dist, parents, word1, [], 0);
      assert Decimal(0) == "0";
      assert [Decimal(0)] + [word1] + [] == ["0", word1];
    }
  }

  /** Without both words as nodes there is no path between them. */
  lemma NoPathWithoutNodes(g: Graph, word1: string, word2: string)
    requires Closed(g) && (word1 !in g || word2 !in g)
    ensures !exists p :: IsPathFromTo(g, p, word1, word2)
  {
    forall p | IsPathFromTo(g, p, word1, word2) ensures false {
      PathEndsAtNode(g, p);
    }
  }

  /** Every path of a closed graph ends at a node. */
  lemma PathEndsAtNode(g: Graph, p: seq<string>)
    requires Closed(g) && IsPath(g, p)
    ensures p[|p| - 1] in g
  {
    if |p| >= 2 {
      assert IsEdge(g, p[|p| - 2], p[|p| - 1]);
    }
  }

  /** Two shortest paths between the same nodes weigh the same. */
  lemma ShortestWeightsAgree(g: Graph, p: seq<string>, q: seq<string>, a: string, b: string)
    requires IsShortest(g, p, a, b) && IsShortest(g, q, a, b)
    ensures PathWeight(g, p) == PathWeight(g, q)
  {
  }

  /** Backtracking from word2 after the relaxation loop has finished yields exactly the
      shortest paths from word1 to word2, and nothing when word2 cannot be reached. */
  lemma {:induction false} SettledEmitsShortest(g: Graph, dist: Dist, parents: Parents, word1: string, word2: string)
    requires Valid(g) && Tight(g, dist, parents) && Relaxed(g, dist, parents) && g.Keys <= parents.Keys
    requires Anchored(dist, parents, word1) && word1 in g && word1 in dist && dist[word1] == 0 && word2 in g
    ensures var all := Emit(g, Chains(g, dist, parents, word1, word2), [], 0);
      && AllShortest(g, word1, word2, all)
      && (all == [] <==> !exists p :: IsPathFromTo(g, p, word1, word2))
  {
    var cs := Chains(g, dist, parents, word1, word2);
    var all := Emit(g, cs, [], 0);
    ChainsSound(g, dist, parents, word1, word2);
    forall k | 0 <= k < |all|
      ensures |all[k]| >= 2 && IsShortest(g, all[k][1..], word1, word2)
      ensures all[k][0] == Decimal(PathWeight(g, all[k][1..]))
    {
      assert cs[k] in cs;
      assert all[k][1..] == cs[k];
      forall q | IsPathFromTo(g, q, word1, word2) ensures PathWeight(g, cs[k]) <= PathWeight(g, q) {
        DistBound(g, dist, parents, word1, q);
      }
    }
    forall p | IsShortest(g, p, word1, word2) ensures exists k :: 0 <= k < |all| && all[k][1..] == p {
      DistBound(g, dist, parents, word1, p);
      ChainsNonEmpty(g, dist, parents, word1, word2);
      assert cs[0] in cs;
      ChainsComplete(g, dist, parents, word1, p);
      var k :| 0 <= k < |cs| && cs[k] == p;
      assert all[k][1..] == p;
    }
    if p :| IsPathFromTo(g, p, word1, word2) {
      DistBound(g, dist, parents, word1, p);
      ChainsNonEmpty(g, dist, parents, word1, word2);
    }
    if all != [] {
      assert cs[0] in cs;
    }
  }

  // ---------------------------------------------------------------------------
  // Termination of the relaxation loop

  /** The sum of the distances of the reached nodes listed in ns. */
  function Total(ns: seq<string>, dist: Dist): nat {
    if ns == [] then 0
    else Total(ns[..|ns| - 1], dist) + (if ns[|ns| - 1] in dist then dist[ns[|ns| - 1]] else 0)
  }

  /** Lowering one reached node's distance lowers the sum over any list naming it. */
  lemma {:induction false} TotalDecreases(ns: seq<string>, dist: Dist, v: string, d: nat)
    requires v in dist && d < dist[v]
    ensures Total(ns, dist[v := d]) <= Total(ns, dist)
    ensures v in ns ==> Total(ns, dist[v := d]) < Total(ns, dist)
  {
    if ns != [] {
      TotalDecreases(ns[..|ns| - 1], dist, v, d);
      if ns[|ns| - 1] != v {
        assert v in ns ==> v in ns[..|ns| - 1];
      }
    }
  }

  /** A list naming every element of s. */
  ghost function Enumerate(s: set<string>): (r: seq<string>)
    ensures forall x :: x in s ==> x in r
  {
    if s == {} then [] else var x :| x in s; [x] + Enumerate(s - {x})
  }
}
