/** The text processor: the lines of the input file, each followed by a space, with
    every character that is neither an ASCII letter nor a space turned into a space. */
module TextProcessing {
  import opened JavaString

  /** The characters text.replaceAll("[^a-zA-Z ]", " ") leaves alone. */
  predicate IsKept(c: char) {
    IsAsciiLetter(c) || c == ' '
  }

  /** processText: every character outside [a-zA-Z ] becomes a space. */
  function ProcessText(text: string): (r: string)
    ensures |r| == |text|
    ensures forall k :: 0 <= k < |text| ==> r[k] == if IsKept(text[k]) then text[k] else ' '
  {
    if |text| == 0 then ""
    else [if IsKept(text[0]) then text[0] else ' '] + ProcessText(text[1..])
  }

  /** The processed text holds only letters and spaces. */
  lemma ProcessTextKept(text: string)
    ensures forall c :: c in ProcessText(text) ==> IsKept(c)
  {
    var r := ProcessText(text);
    forall c | c in r
      ensures IsKept(c)
    {
      var k :| 0 <= k < |r| && r[k] == c;
    }
  }

  /** A text of letters and spaces is left as it is. */
  lemma ProcessTextOfKept(text: string)
    requires forall c :: c in text ==> IsKept(c)
    ensures ProcessText(text) == text
  {
    var r := ProcessText(text);
    forall k | 0 <= k < |text|
      ensures r[k] == text[k]
    {
      assert text[k] in text;
    }
  }

  /** Processing twice is processing once. */
  lemma ProcessTextIdempotent(text: string)
    ensures ProcessText(ProcessText(text)) == ProcessText(text)
  {
    ProcessTextKept(text);
    ProcessTextOfKept(ProcessText(text));
  }

  /** Processing works character by character, so it distributes over concatenation. */
  lemma ProcessTextAppend(a: string, b: string)
    ensures ProcessText(a + b) == ProcessText(a) + ProcessText(b)
  {
    var r := ProcessText(a + b);
    var q := ProcessText(a) + ProcessText(b);
    forall k | 0 <= k < |r|
      ensures r[k] == q[k]
    {
      if k < |a| {
        assert (a + b)[k] == a[k];
      } else {
        assert (a + b)[k] == b[k - |a|];
      }
    }
  }

  /** The text processFile builds before processing: each line followed by one space. */
  function Spaced(lines: seq<string>): string
  {
    if |lines| == 0 then ""
    else Spaced(lines[..|lines| - 1]) + (lines[|lines| - 1] + " ")
  }

  /** The built text is the lines joined by a space, with one more space at the end. */
  lemma {:induction false} SpacedJoin(lines: seq<string>)
    ensures |lines| == 0 ==> Spaced(lines) == ""
    ensures |lines| > 0 ==> Spaced(lines) == Join(" ", lines) + " "
    decreases |lines|
  {
    var n := |lines|;
    if n == 1 {
      assert lines[..0] == [];
    } else if n > 1 {
      var init := lines[..n - 1];
      var last := lines[n - 1];
      SpacedJoin(init);
      JoinSnoc(" ", init, last);
      assert init + [last] == lines;
      Regroup(Join(" ", init) + " ", last, " ");
    }
  }

  /** The built text is as long as the lines together, plus one space per line. */
  lemma {:induction false} SpacedLength(lines: seq<string>)
    ensures |Spaced(lines)| == TotalLength(lines) + |lines|
    decreases |lines|
  {
    if |lines| > 0 {
      SpacedLength(lines[..|lines| - 1]);
    }
  }

  function TotalLength(lines: seq<string>): nat {
    if |lines| == 0 then 0 else TotalLength(lines[..|lines| - 1]) + |lines[|lines| - 1]|
  }

  /** Processing the whole file is the same as processing each line on its own. */
  lemma {:induction false} ProcessLineByLine(lines: seq<string>)
    ensures ProcessText(Spaced(lines)) == Spaced(seq(|lines|, k requires 0 <= k < |lines| => ProcessText(lines[k])))
    decreases |lines|
  {
    var n := |lines|;
    var processed := seq(n, k requires 0 <= k < n => ProcessText(lines[k]));
    if n > 0 {
      var init := lines[..n - 1];
      ProcessLineByLine(init);
      assert processed[..n - 1] == seq(n - 1, k requires 0 <= k < n - 1 => ProcessText(init[k]));
      ProcessTextAppend(Spaced(init), lines[n - 1] + " ");
      ProcessTextAppend(lines[n - 1], " ");
      assert ProcessText(" ") == " ";
    }
  }

  /** processFile over the file's lines, in order: each is appended with a space, and
      the whole is processed. Reading the file is left to the caller. */
  method ProcessFile(lines: seq<string>) returns (text: string)
    ensures text == ProcessText(Spaced(lines))
  {
    var builder := "";
    var i := 0;
    while i < |lines|
      invariant 0 <= i <= |lines|
      invariant builder == Spaced(lines[..i])
    {
      builder := builder + (lines[i] + " ");
      i := i + 1;
      assert lines[..i][..i - 1] == lines[..i - 1];
    }
    assert lines[..i] == lines;
    text := ProcessText(builder);
  }

  /** A comma and a space between two words leave two spaces, and splitting at single
      spaces then yields the empty word, which createGraph makes a node. */
  lemma EmptyWordFromProcessing(a: string, b: string)
    requires forall c :: c in a + b ==> IsAsciiLetter(c)
    requires |b| > 0
    ensures ProcessText(a + ", " + b) == a + "  " + b
    ensures Split(ProcessText(a + ", " + b), " ") == [a, "", b]
  {
    forall c | c in a
      ensures IsKept(c)
    {
      assert c in a + b;
    }
    forall c | c in b
      ensures IsKept(c)
    {
      assert c in a + b;
    }
    ProcessTextOfKept(a);
    ProcessTextOfKept(b);
    ProcessTextAppend(a + ", ", b);
    ProcessTextAppend(a, ", ");
    assert ProcessText(", ") == "  ";
    assert ' ' !in a && ' ' !in b;
    SplitDoubleSpace(a, b);
  }
}
