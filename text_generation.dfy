// generateNewText: the words of a new text, with a bridge word of the graph put into
// every gap between two neighbouring words that has one.

module TextGeneration {
  import opened JavaString
  import opened WordGraph
  import opened BridgeWords
  import opened DirectedGraphs

  /** What is written into a gap after its first word: the chosen bridge word, if any. */
  function Inserted(choice: Option<string>): (r: seq<string>)
    ensures |r| <= 1
    ensures r == [] <==> choice.None?
  {
    if choice.Some? then [choice.value] else []
  }

  /** The tokens of the generated text: the words in their order, the gap after words[i]
      filled with choices[i]. */
  function Woven(words: seq<string>, choices: seq<Option<string>>): seq<string>
    requires |words| == |choices| + 1
    decreases |choices|
  {
    if |choices| == 0 then [words[0]]
    else Woven(words[..|words| - 1], choices[..|choices| - 1]) + Inserted(choices[|choices| - 1]) + [words[|words| - 1]]
  }

  /** The number of gaps that received a word. */
  function Insertions(choices: seq<Option<string>>): (n: nat)
    ensures n <= |choices|
  {
    if |choices| == 0 then 0 else Insertions(choices[..|choices| - 1]) + |Inserted(choices[|choices| - 1])|
  }

  /** Where words[i] stands among the tokens: after i words and the insertions before it. */
  function Position(choices: seq<Option<string>>, i: nat): nat
    requires i <= |choices|
  {
    i + Insertions(choices[..i])
  }

  /** Each of the first |choices| gaps receives a word exactly when its two words have a
      bridge word, and then one of those bridge words. */
  predicate ValidChoices(g: Graph, words: seq<string>, choices: seq<Option<string>>)
    requires |choices| < |words|
  {
    forall i :: 0 <= i < |choices| ==>
      && (choices[i].Some? <==> FindBridgeSet(g, words[i], words[i + 1]) != {})
      && (choices[i].Some? ==> choices[i].value in FindBridgeSet(g, words[i], words[i + 1]))
  }

  /** Graph.generateNewText. The text is split at single spaces as String.split does;
      when nothing but spaces is left (Java then indexes the empty array and throws) the
      result is None. Each gap draws one of its bridge words at random: the draw is left
      open and recorded in choices. The graph is only read. */
  method GenerateNewText(dg: DirectedGraph, newText: string) returns (text: Option<string>, ghost choices: seq<Option<string>>)
    requires dg.Valid()
    ensures text.None? <==> Split(newText, " ") == []
    ensures text.Some? ==>
      && |choices| == |Split(newText, " ")| - 1
      && ValidChoices(dg.graph, Split(newText, " "), choices)
      && text.value == Join(" ", Woven(Split(newText, " "), choices))
  {
    var words := Split(newText, " ");
    choices := [];
    if |words| == 0 {
      return None, choices;
    }
    ghost var g := dg.graph;
    var result := "";
    var i := 0;
    while i < |words| - 1
      invariant 0 <= i <= |words| - 1 && |choices| == i
      invariant ValidChoices(g, words, choices)
      invariant result + words[i] == Join(" ", Woven(words[..i + 1], choices))
    {
      ghost var previous := result;
      ghost var choice: Option<string>;
      result, choice := FillGap(dg, words[i], words[i + 1], result);
      ChoiceStep(g, words, choices, choice);
      TextStep(words, choices, choice, previous, result);
      choices := choices + [choice];
      i := i + 1;
    }
    assert words[..i + 1] == words;
    text := Some(result + words[i]);
  }

  /** One pass of generateNewText's loop: word1 and a space, then, when word1 and word2
      have bridge words, one of them drawn at random and a space. */
  method FillGap(dg: DirectedGraph, word1: string, word2: string, result: string)
    returns (next: string, ghost choice: Option<string>)
    requires dg.Valid()
    ensures choice.Some? <==> FindBridgeSet(dg.graph, word1, word2) != {}
    ensures choice.Some? ==> choice.value in FindBridgeSet(dg.graph, word1, word2)
    ensures next == if choice.Some? then result + (word1 + " ") + (choice.value + " ") else result + (word1 + " ")
  {
    var bridgeWords := dg.FindBridgeWords(word1, word2);
    next := result + (word1 + " ");
    choice := None;
    if bridgeWords != [] {
      var pick :| 0 <= pick < |bridgeWords|;
      next := next + (bridgeWords[pick] + " ");
      choice := Some(bridgeWords[pick]);
    }
    EnumerationSize(bridgeWords, FindBridgeSet(dg.graph, word1, word2));
  }

  /** One more gap filled as the method fills it keeps the choices valid. */
  lemma ChoiceStep(g: Graph, words: seq<string>, choices: seq<Option<string>>, choice: Option<string>)
    requires |choices| + 1 < |words| && ValidChoices(g, words, choices)
    requires choice.Some? <==> FindBridgeSet(g, words[|choices|], words[|choices| + 1]) != {}
    requires choice.Some? ==> choice.value in FindBridgeSet(g, words[|choices|], words[|choices| + 1])
    ensures ValidChoices(g, words, choices + [choice])
  {
  }

  /** Writing words[i], a space and the chosen word with a space extends the text of
      the first i + 1 words to the text of the first i + 2. */
  lemma TextStep(words: seq<string>, choices: seq<Option<string>>, choice: Option<string>, previous: string, next: string)
    requires |choices| + 1 < |words|
    requires previous + words[|choices|] == Join(" ", Woven(words[..|choices| + 1], choices))
    requires next == if choice.Some? then previous + (words[|choices|] + " ") + (choice.value + " ")
                     else previous + (words[|choices|] + " ")
    ensures next + words[|choices| + 1] == Join(" ", Woven(words[..|choices| + 2], choices + [choice]))
  {
    var i := |choices|;
    var before := Woven(words[..i + 1], choices);
    WovenLength(words[..i + 1], choices);
    WovenSnoc(words, choices, choice, i);
    JoinTwoMore(before, Inserted(choice), words[i + 1], previous, words[i], next);
  }

  /** Join of xs followed by at most one middle word and a last word, when previous
      followed by word stands for Join(" ", xs). */
  lemma JoinTwoMore(xs: seq<string>, middle: seq<string>, last: string, previous: string, word: string, next: string)
    requires |xs| > 0 && |middle| <= 1 && previous + word == Join(" ", xs)
    requires next == if |middle| == 1 then previous + (word + " ") + (middle[0] + " ") else previous + (word + " ")
    ensures next + last == Join(" ", xs + middle + [last])
  {
    Regroup(previous, word, " ");
    if |middle| == 1 {
      assert xs + middle == xs + [middle[0]];
      JoinSnoc(" ", xs, middle[0]);
      JoinSnoc(" ", xs + middle, last);
      Regroup(previous + word + " ", middle[0], " ");
    } else {
      assert xs + middle == xs;
      JoinSnoc(" ", xs, last);
    }
  }

  /** Filling one more gap adds its insertion and the next word at the end. */
  lemma WovenSnoc(words: seq<string>, choices: seq<Option<string>>, choice: Option<string>, i: nat)
    requires i == |choices| && i + 1 < |words|
    ensures Woven(words[..i + 2], choices + [choice])
         == Woven(words[..i + 1], choices) + Inserted(choice) + [words[i + 1]]
  {
    assert words[..i + 2][..i + 1] == words[..i + 1];
    assert (choices + [choice])[..i] == choices;
  }


  // ---------------------------------------------------------------------------
  // What the generated tokens are

  /** The text keeps every word and adds at most one per gap: between n and 2n - 1
      tokens for n words. */
  lemma {:induction false} WovenLength(words: seq<string>, choices: seq<Option<string>>)
    requires |words| == |choices| + 1
    ensures |Woven(words, choices)| == |words| + Insertions(choices)
    ensures |words| <= |Woven(words, choices)| <= 2 * |words| - 1
    decreases |choices|
  {
    if |choices| > 0 {
      WovenLength(words[..|words| - 1], choices[..|choices| - 1]);
    }
  }

  /** words[i] stands at Position(choices, i), in order, the word chosen for gap i right
      after it, and the last word ends the text. */
  lemma WovenPositions(words: seq<string>, choices: seq<Option<string>>)
    requires |words| == |choices| + 1
    ensures Position(choices, |choices|) == |Woven(words, choices)| - 1
    ensures forall i :: 0 <= i < |words| ==>
      Position(choices, i) < |Woven(words, choices)| && Woven(words, choices)[Position(choices, i)] == words[i]
    ensures forall i :: 0 <= i < |choices| && choices[i].Some? ==>
      Position(choices, i) + 1 < |Woven(words, choices)| && Woven(words, choices)[Position(choices, i) + 1] == choices[i].value
  {
    PositionLast(words, choices);
    forall i | 0 <= i < |words|
      ensures Position(choices, i) < |Woven(words, choices)| && Woven(words, choices)[Position(choices, i)] == words[i]
    {
      WordAt(words, choices, i);
    }
    forall i | 0 <= i < |choices| && choices[i].Some?
      ensures Position(choices, i) + 1 < |Woven(words, choices)| && Woven(words, choices)[Position(choices, i) + 1] == choices[i].value
    {
      ChoiceAt(words, choices, i);
    }
  }

  /** The last word is the last token. */
  lemma PositionLast(words: seq<string>, choices: seq<Option<string>>)
    requires |words| == |choices| + 1
    ensures Position(choices, |choices|) == |Woven(words, choices)| - 1
  {
    WovenLength(words, choices);
    assert choices[..|choices|] == choices;
  }

  /** Dropping the last gap leaves the positions of the earlier words where they were. */
  lemma PositionPrefix(choices: seq<Option<string>>, i: nat)
    requires i < |choices|
    ensures Position(choices, i) == Position(choices[..|choices| - 1], i)
  {
    assert choices[..i] == choices[..|choices| - 1][..i];
  }

  lemma {:induction false} WordAt(words: seq<string>, choices: seq<Option<string>>, i: nat)
    requires |words| == |choices| + 1 && i < |words|
    ensures Position(choices, i) < |Woven(words, choices)|
    ensures Woven(words, choices)[Position(choices, i)] == words[i]
    decreases |choices|
  {
    var n := |choices|;
    if i == n {
      PositionLast(words, choices);
    } else {
      var init := choices[..n - 1];
      var front := Woven(words[..n], init);
      assert Woven(words, choices) == front + Inserted(choices[n - 1]) + [words[n]];
      PositionPrefix(choices, i);
      WordAt(words[..n], init, i);
    }
  }

  lemma {:induction false} ChoiceAt(words: seq<string>, choices: seq<Option<string>>, i: nat)
    requires |words| == |choices| + 1 && i < |choices| && choices[i].Some?
    ensures Position(choices, i) + 1 < |Woven(words, choices)|
    ensures Woven(words, choices)[Position(choices, i) + 1] == choices[i].value
    decreases |choices|
  {
    var n := |choices|;
    var init := choices[..n - 1];
    var front := Woven(words[..n], init);
    assert Woven(words, choices) == front + Inserted(choices[n - 1]) + [words[n]];
    PositionPrefix(choices, i);
    if i == n - 1 {
      PositionLast(words[..n], init);
    } else {
      assert init[i] == choices[i];
      ChoiceAt(words[..n], init, i);
    }
  }

  /** A gap's position step: the next word follows right after the gap's insertion. */
  lemma PositionStep(choices: seq<Option<string>>, i: nat)
    requires i < |choices|
    ensures Position(choices, i + 1) == Position(choices, i) + 1 + |Inserted(choices[i])|
  {
    assert choices[..i + 1][..i] == choices[..i];
  }

  /** With no bridge word anywhere the text is the words themselves. */
  lemma {:induction false} WovenNothing(words: seq<string>, choices: seq<Option<string>>)
    requires |words| == |choices| + 1
    requires forall i :: 0 <= i < |choices| ==> choices[i].None?
    ensures Woven(words, choices) == words
    decreases |choices|
  {
    if |choices| > 0 {
      WovenNothing(words[..|words| - 1], choices[..|choices| - 1]);
      assert words[..|words| - 1] + [words[|words| - 1]] == words;
    }
  }

  /** Whatever was drawn, every inserted token is a bridge word of its gap, and a gap
      without bridge words keeps its two words adjacent. */
  lemma InsertedAreBridges(g: Graph, words: seq<string>, choices: seq<Option<string>>, i: nat)
    requires |words| == |choices| + 1 && ValidChoices(g, words, choices) && i < |choices|
    ensures Position(choices, i) + 1 < |Woven(words, choices)|
    ensures FindBridgeSet(g, words[i], words[i + 1]) == {} ==>
      Position(choices, i + 1) == Position(choices, i) + 1
    ensures FindBridgeSet(g, words[i], words[i + 1]) != {} ==>
      && Position(choices, i + 1) == Position(choices, i) + 2
      && Woven(words, choices)[Position(choices, i) + 1] in FindBridgeSet(g, words[i], words[i + 1])
  {
    PositionStep(choices, i);
    if choices[i].Some? {
      ChoiceAt(words, choices, i);
    } else {
      WordAt(words, choices, i + 1);
    }
  }
}
