/** The walk of randomTraversal: it records every step it takes under the key
    u + "->" + v and stops at a dead end or at the first step whose key it has
    recorded already. */
module RandomWalks {
  import opened JavaString
  import opened WordGraph

  /** The key a step u -> v is recorded under. */
  function EdgeKey(u: string, v: string): string {
    u + "->" + v
  }

  /** Step i of walk, from walk[i] to walk[i + 1]. */
  function StepAt(walk: seq<string>, i: nat): (string, string)
    requires i < |walk| - 1
  {
    (walk[i], walk[i + 1])
  }

  /** The key step i of walk is recorded under. */
  function KeyAt(walk: seq<string>, i: nat): string
    requires i < |walk| - 1
  {
    EdgeKey(walk[i], walk[i + 1])
  }

  /** The keys of all steps of walk. */
  function WalkKeys(walk: seq<string>): set<string> {
    set i | 0 <= i < |walk| - 1 :: KeyAt(walk, i)
  }

  /** The steps of walk as (source, target) pairs. */
  function WalkSteps(walk: seq<string>): set<(string, string)> {
    set i | 0 <= i < |walk| - 1 :: StepAt(walk, i)
  }

  /** No two steps of walk are recorded under the same key. */
  predicate KeysDistinct(walk: seq<string>) {
    forall i, j :: 0 <= i < j < |walk| - 1 ==> KeyAt(walk, i) != KeyAt(walk, j)
  }

  /** The walk cannot go on: its last node has no outgoing edge, or one of its
      outgoing edges is already recorded (the walk stops when it draws such an edge). */
  predicate Stuck(g: Graph, walk: seq<string>)
    requires |walk| >= 1
  {
    var last := walk[|walk| - 1];
    last !in g || g[last] == map[] || exists v :: v in g[last] && EdgeKey(last, v) in WalkKeys(walk)
  }

  lemma WalkKeysSnoc(walk: seq<string>, v: string)
    requires |walk| >= 1
    ensures WalkKeys(walk + [v]) == WalkKeys(walk) + {EdgeKey(walk[|walk| - 1], v)}
    ensures WalkSteps(walk + [v]) == WalkSteps(walk) + {(walk[|walk| - 1], v)}
    ensures forall i :: 0 <= i < |walk| - 1 ==> KeyAt(walk + [v], i) == KeyAt(walk, i)
  {
    var w := walk + [v];
    var n := |walk| - 1;
    assert KeyAt(w, n) == EdgeKey(walk[n], v) && StepAt(w, n) == (walk[n], v);
    forall i | 0 <= i < n ensures KeyAt(w, i) == KeyAt(walk, i) && StepAt(w, i) == StepAt(walk, i) {
      assert w[i] == walk[i] && w[i + 1] == walk[i + 1];
    }
  }

  /** A walk that never records two steps under one key takes no edge twice, so it
      has at most as many steps as the graph has edges. */
  lemma {:induction false} WalkLength(g: Graph, walk: seq<string>)
    requires IsPath(g, walk) && KeysDistinct(walk)
    ensures WalkSteps(walk) <= EdgeSet(g) && |WalkSteps(walk)| == |walk| - 1
    ensures |walk| - 1 <= |EdgeSet(g)|
  {
    if |walk| == 1 {
      assert WalkSteps(walk) == {};
    } else {
      var init := walk[..|walk| - 1];
      var v := walk[|walk| - 1];
      assert walk == init + [v];
      PathPrefix(g, walk);
      DistinctPrefix(init, v);
      WalkLength(g, init);
      NewStep(init, v);
      var e := (init[|init| - 1], v);
      assert e in EdgeSet(g);
      assert WalkSteps(walk) == WalkSteps(init) + {e};
      SubsetCardinality(WalkSteps(walk), EdgeSet(g));
    }
  }

  /** A step whose key is not recorded has not been taken. */
  lemma UnrecordedNotTaken(walk: seq<string>, u: string, v: string)
    requires EdgeKey(u, v) !in WalkKeys(walk)
    ensures (u, v) !in WalkSteps(walk)
  {
    forall i | 0 <= i < |walk| - 1 ensures StepAt(walk, i) != (u, v) {
      assert KeyAt(walk, i) in WalkKeys(walk);
    }
  }

  /** Taking an edge whose key is not recorded extends the walk, keeps its keys
      distinct and adds a step it had not taken. */
  lemma ExtendWalk(g: Graph, walk: seq<string>, v: string)
    requires IsPath(g, walk) && KeysDistinct(walk)
    requires IsEdge(g, walk[|walk| - 1], v) && EdgeKey(walk[|walk| - 1], v) !in WalkKeys(walk)
    ensures IsPath(g, walk + [v]) && KeysDistinct(walk + [v])
    ensures WalkKeys(walk + [v]) == WalkKeys(walk) + {EdgeKey(walk[|walk| - 1], v)}
    ensures WalkSteps(walk + [v]) == WalkSteps(walk) + {(walk[|walk| - 1], v)}
    ensures (walk[|walk| - 1], v) !in WalkSteps(walk)
  {
    var w := walk + [v];
    var n := |walk| - 1;
    WalkKeysSnoc(walk, v);
    PathExtend(g, walk, v);
    UnrecordedNotTaken(walk, walk[n], v);
    assert KeyAt(w, n) == EdgeKey(walk[n], v);
    forall i, j | 0 <= i < j < |w| - 1 ensures KeyAt(w, i) != KeyAt(w, j) {
      assert KeyAt(w, i) == KeyAt(walk, i) && KeyAt(walk, i) in WalkKeys(walk);
      if j < n {
        assert KeyAt(w, j) == KeyAt(walk, j);
      }
    }
  }

  lemma DistinctPrefix(init: seq<string>, v: string)
    requires |init| >= 1 && KeysDistinct(init + [v])
    ensures KeysDistinct(init)
  {
    WalkKeysSnoc(init, v);
  }

  /** The last step of a walk whose keys are distinct is none of its earlier steps. */
  lemma NewStep(init: seq<string>, v: string)
    requires |init| >= 1 && KeysDistinct(init + [v])
    ensures (init[|init| - 1], v) !in WalkSteps(init)
    ensures WalkSteps(init + [v]) == WalkSteps(init) + {(init[|init| - 1], v)}
  {
    WalkKeysSnoc(init, v);
    var walk := init + [v];
    var n := |init| - 1;
    assert KeyAt(walk, n) == EdgeKey(init[n], v);
    forall i | 0 <= i < n ensures StepAt(init, i) != (init[n], v) {
      assert KeyAt(walk, i) != KeyAt(walk, n);
    }
  }

  lemma {:induction false} SubsetCardinality<T>(a: set<T>, b: set<T>)
    requires a <= b
    ensures |a| <= |b|
  {
    if a != {} {
      var x :| x in a;
      SubsetCardinality(a - {x}, b - {x});
    }
  }

  /** Keys of names without '-' identify the step they record. */
  lemma EdgeKeyInjective(u: string, v: string, u': string, v': string)
    requires '-' !in u && '-' !in u'
    requires EdgeKey(u, v) == EdgeKey(u', v')
    ensures u == u' && v == v'
  {
    var k := EdgeKey(u, v);
    FirstDash(u, v);
    FirstDash(u', v');
    assert u == k[..|u|] == u';
    assert v == k[|u| + 2..] == v';
  }

  /** The first '-' of a key whose source has none is the one of "->". */
  lemma FirstDash(u: string, v: string)
    requires '-' !in u
    ensures IndexOf(EdgeKey(u, v), '-') == |u|
  {
    var k := EdgeKey(u, v);
    assert k[|u|] == '-';
    assert k[..|u|] == u;
  }

  /** With '-' and '>' allowed in names, two different steps share a key: a walk that
      has taken a -> "b->c" stops when it draws "a->b" -> c. */
  lemma EdgeKeyCollision()
    ensures ("a", "b->c") != ("a->b", "c") && EdgeKey("a", "b->c") == EdgeKey("a->b", "c")
  {
  }
}
