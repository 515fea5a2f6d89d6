/** The behaviour of the java.lang.String and java.util.List operations that the
    word-graph program relies on, written out over `string` (a `seq<char>`). */
module JavaString {

  datatype Option<T> = None | Some(value: T)

  predicate IsDigit(c: char) {
    '0' <= c <= '9'
  }

  predicate IsAsciiLetter(c: char) {
    ('a' <= c <= 'z') || ('A' <= c <= 'Z')
  }

  predicate AllDigits(s: string) {
    forall i :: 0 <= i < |s| ==> IsDigit(s[i])
  }

  function DigitChar(d: nat): (c: char)
    requires d < 10
    ensures IsDigit(c) && DigitValue(c) == d
  {
    ('0' as int + d) as char
  }

  function DigitValue(c: char): nat
    requires IsDigit(c)
  {
    c as int - '0' as int
  }

  /** String.valueOf of a non-negative int: its decimal digits, without leading zeros. */
  function Decimal(n: nat): (s: string)
    ensures |s| >= 1 && AllDigits(s)
    ensures |s| > 1 ==> s[0] != '0'
  {
    if n < 10 then [DigitChar(n)] else Decimal(n / 10) + [DigitChar(n % 10)]
  }

  /** Integer.parseInt restricted to strings of decimal digits. */
  function ParseDecimal(s: string): nat
    requires AllDigits(s)
  {
    if |s| == 0 then 0 else ParseDecimal(s[..|s| - 1]) * 10 + DigitValue(s[|s| - 1])
  }

  /** Reading back what String.valueOf wrote gives the number. */
  lemma {:induction false} ParseDecimalOfDecimal(n: nat)
    ensures ParseDecimal(Decimal(n)) == n
  {
    if n >= 10 {
      var s := Decimal(n);
      assert s[..|s| - 1] == Decimal(n / 10);
      ParseDecimalOfDecimal(n / 10);
    }
  }

  lemma DecimalInjective(m: nat, n: nat)
    requires Decimal(m) == Decimal(n)
    ensures m == n
  {
    ParseDecimalOfDecimal(m);
    ParseDecimalOfDecimal(n);
  }

  /** String.join(sep, xs). */
  function Join(sep: string, xs: seq<string>): string
  {
    if |xs| == 0 then "" else if |xs| == 1 then xs[0] else xs[0] + sep + Join(sep, xs[1..])
  }

  /** List.indexOf: the first position of x in xs, or -1. */
  function IndexOf<T(==)>(xs: seq<T>, x: T): (r: int)
    ensures -1 <= r < |xs|
    ensures r == -1 <==> x !in xs
    ensures r >= 0 ==> xs[r] == x && forall k :: 0 <= k < r ==> xs[k] != x
  {
    if |xs| == 0 then -1
    else if xs[0] == x then 0
    else var r := IndexOf(xs[1..], x); if r == -1 then -1 else r + 1
  }

  /** String.endsWith. */
  predicate EndsWith(s: string, suffix: string) {
    |suffix| <= |s| && s[|s| - |suffix|..] == suffix
  }

  /** String.toLowerCase on ASCII letters; every other character is kept. */
  function LowerChar(c: char): char {
    if 'A' <= c <= 'Z' then (c as int + 32) as char else c
  }

  function ToLowerCase(s: string): (r: string)
    ensures |r| == |s|
  {
    seq(|s|, i requires 0 <= i < |s| => LowerChar(s[i]))
  }

  /** True when sep occurs in s starting at index i. */
  predicate OccursAt(s: string, sep: string, i: nat) {
    i + |sep| <= |s| && s[i..i + |sep|] == sep
  }

  /** The first occurrence of sep in s at or after index i. */
  function FindFrom(s: string, sep: string, i: nat): (r: Option<nat>)
    requires |sep| > 0 && i <= |s|
    ensures r.Some? ==> i <= r.value && OccursAt(s, sep, r.value)
    ensures r.Some? ==> forall j :: i <= j < r.value ==> !OccursAt(s, sep, j)
    ensures r.None? ==> forall j :: i <= j ==> !OccursAt(s, sep, j)
    decreases |s| - i
  {
    if i + |sep| > |s| then None
    else if OccursAt(s, sep, i) then Some(i)
    else FindFrom(s, sep, i + 1)
  }

  function Find(s: string, sep: string): Option<nat>
    requires |sep| > 0
  {
    FindFrom(s, sep, 0)
  }

  /** String.contains. */
  predicate Contains(s: string, sub: string)
    requires |sub| > 0
  {
    Find(s, sub).Some?
  }

  /** The pieces of s between the occurrences of sep, left to right; empty pieces,
      trailing ones included, are kept. */
  function Pieces(s: string, sep: string): (r: seq<string>)
    requires |sep| > 0
    ensures |r| >= 1
    decreases |s|
  {
    match Find(s, sep)
    case None => [s]
    case Some(i) => [s[..i]] + Pieces(s[i + |sep|..], sep)
  }

  /** Joining the pieces with the separator gives back the string. */
  lemma {:induction false} JoinPieces(s: string, sep: string)
    requires |sep| > 0
    ensures Join(sep, Pieces(s, sep)) == s
    decreases |s|
  {
    match Find(s, sep)
    case None =>
    case Some(i) =>
      var rest := s[i + |sep|..];
      var p := Pieces(rest, sep);
      JoinPieces(rest, sep);
      assert Pieces(s, sep) == [s[..i]] + p;
      assert ([s[..i]] + p)[1..] == p;
      assert Join(sep, [s[..i]] + p) == s[..i] + sep + Join(sep, p);
      assert s == s[..i] + sep + rest;
  }

  /** Splitting on a one-character separator undoes joining with it when no
      element contains that character. */
  lemma {:induction false} PiecesOfJoin(xs: seq<string>, c: char)
    requires |xs| >= 1
    requires forall k :: 0 <= k < |xs| ==> c !in xs[k]
    ensures Pieces(Join([c], xs), [c]) == xs
  {
    var s := Join([c], xs);
    if |xs| == 1 {
      NoOccurrence(s, c);
    } else {
      var rest := Join([c], xs[1..]);
      assert s == xs[0] + [c] + rest;
      FirstOccurrence(xs[0], rest, c);
      assert s[|xs[0]| + 1..] == rest;
      assert s[..|xs[0]|] == xs[0];
      PiecesOfJoin(xs[1..], c);
    }
  }

  /** Splitting on a one-character separator undoes joining with it when no element
      contains that character and the last element is not empty. */
  lemma SplitOfJoin(xs: seq<string>, c: char)
    requires |xs| >= 1 && xs[|xs| - 1] != ""
    requires forall k :: 0 <= k < |xs| ==> c !in xs[k]
    ensures Split(Join([c], xs), [c]) == xs
  {
    JoinEndsWithLast(xs, c);
    SplitKeepsAll(Join([c], xs), c);
    PiecesOfJoin(xs, c);
  }

  /** With one more separator at the end, the split still gives back the elements:
      String.split drops the trailing empty string. */
  lemma SplitOfJoinAndSeparator(xs: seq<string>, c: char)
    requires |xs| >= 1 && xs[|xs| - 1] != ""
    requires forall k :: 0 <= k < |xs| ==> c !in xs[k]
    ensures Split(Join([c], xs) + [c], [c]) == xs
  {
    var ys := xs + [""];
    forall k | 0 <= k < |ys|
      ensures c !in ys[k]
    {
      if k < |xs| {
        assert ys[k] == xs[k];
      }
    }
    PiecesOfJoin(ys, c);
    JoinSnoc([c], xs, "");
    var s := Join([c], xs) + [c];
    assert Join([c], ys) == s;
    assert Pieces(s, [c]) == ys;
    assert ys[..|xs|] == xs;
    assert DropTrailingEmpty(ys) == DropTrailingEmpty(xs) == xs;
  }

  /** A join ends with its last element. */
  lemma JoinEndsWithLast(xs: seq<string>, c: char)
    requires |xs| >= 1 && xs[|xs| - 1] != "" && c !in xs[|xs| - 1]
    ensures |Join([c], xs)| > 0 && Join([c], xs)[|Join([c], xs)| - 1] != c
  {
    var last := xs[|xs| - 1];
    if |xs| > 1 {
      JoinSnoc([c], xs[..|xs| - 1], last);
      assert xs[..|xs| - 1] + [last] == xs;
    }
    assert last[|last| - 1] in last;
  }

  lemma FoundIsIn(s: string, c: char)
    ensures Find(s, [c]).Some? ==> c in s
  {
    if Find(s, [c]).Some? {
      var i := Find(s, [c]).value;
      assert s[i] == s[i..i + 1][0] == c;
    }
  }

  lemma NoOccurrence(s: string, c: char)
    requires c !in s
    ensures Find(s, [c]).None?
  {
    FoundIsIn(s, c);
  }

  lemma FindAfter(a: string, b: string, c: char)
    ensures Find(a + [c] + b, [c]).Some?
    ensures Find(a + [c] + b, [c]).value <= |a|
    ensures Find(a + [c] + b, [c]).value < |a| ==> c in a
  {
    var s := a + [c] + b;
    assert OccursAt(s, [c], |a|);
    var i := Find(s, [c]).value;
    if i < |a| {
      assert a[i] == s[i] == s[i..i + 1][0] == c;
    }
  }

  lemma FirstOccurrence(a: string, b: string, c: char)
    requires c !in a
    ensures Find(a + [c] + b, [c]) == Some(|a|)
  {
    FindAfter(a, b, c);
  }

  /** Drops the empty strings at the end, as String.split does with limit 0. */
  function DropTrailingEmpty(xs: seq<string>): (r: seq<string>)
    ensures |r| <= |xs| && r == xs[..|r|]
    ensures |r| > 0 ==> r[|r| - 1] != ""
    ensures forall k :: |r| <= k < |xs| ==> xs[k] == ""
  {
    if |xs| > 0 && xs[|xs| - 1] == "" then DropTrailingEmpty(xs[..|xs| - 1]) else xs
  }

  /** String.split with a literal separator: a string without the separator is
      returned alone; otherwise its pieces, with trailing empty pieces dropped. */
  function Split(s: string, sep: string): seq<string>
    requires |sep| > 0
  {
    if Find(s, sep).None? then [s] else DropTrailingEmpty(Pieces(s, sep))
  }

  /** A string that does not end in the separator character keeps all its pieces. */
  lemma SplitKeepsAll(s: string, c: char)
    requires |s| > 0 && s[|s| - 1] != c
    ensures Split(s, [c]) == Pieces(s, [c])
  {
    var p := Pieces(s, [c]);
    if p[|p| - 1] == "" {
      LastSeparator(s, c);
      assert false;
    }
    if Find(s, [c]).Some? {
      assert Split(s, [c]) == DropTrailingEmpty(p);
      assert DropTrailingEmpty(p) == p;
    } else {
      assert Split(s, [c]) == [s] == p;
    }
  }

  lemma {:induction false} LastSeparator(s: string, c: char)
    requires Pieces(s, [c])[|Pieces(s, [c])| - 1] == ""
    ensures |s| > 0 ==> s[|s| - 1] == c
    decreases |s|
  {
    match Find(s, [c])
    case None =>
    case Some(i) =>
      var rest := s[i + 1..];
      if |rest| > 0 {
        LastSeparator(rest, c);
      } else {
        assert OccursAt(s, [c], i);
      }
  }

  /** A string with no character <= ' ' at either end, as String.trim leaves it. */
  predicate IsTrimmed(s: string) {
    |s| > 0 ==> s[0] > ' ' && s[|s| - 1] > ' '
  }

  function TrimStart(s: string): (r: string)
    ensures |r| <= |s| && r == s[|s| - |r|..]
    ensures |r| > 0 ==> r[0] > ' '
    ensures forall k :: 0 <= k < |s| - |r| ==> s[k] <= ' '
  {
    if |s| > 0 && s[0] <= ' ' then TrimStart(s[1..]) else s
  }

  function TrimEnd(s: string): (r: string)
    ensures |r| <= |s| && r == s[..|r|]
    ensures |r| > 0 ==> r[|r| - 1] > ' '
    ensures forall k :: |r| <= k < |s| ==> s[k] <= ' '
  {
    if |s| > 0 && s[|s| - 1] <= ' ' then TrimEnd(s[..|s| - 1]) else s
  }

  /** String.trim: removes every character <= ' ' from both ends. */
  function Trim(s: string): (r: string)
    ensures IsTrimmed(r)
  {
    var t := TrimStart(s);
    var r := TrimEnd(t);
    assert |r| > 0 ==> r[0] == t[0];
    r
  }

  lemma TrimOfTrimmed(s: string)
    requires IsTrimmed(s)
    ensures Trim(s) == s
  {
  }

  /** Splitting a trimmed string on a space never yields an empty array. */
  lemma SplitTrimmedNonEmpty(s: string)
    requires IsTrimmed(s)
    ensures |Split(s, " ")| >= 1
  {
    if Find(s, " ").Some? {
      SplitKeepsAll(s, ' ');
    }
  }

  /** String.replaceAll("[^a-zA-Z]", ""): keeps the ASCII letters only. */
  function LettersOnly(s: string): (r: string)
    ensures |r| <= |s|
    ensures forall k :: 0 <= k < |r| ==> IsAsciiLetter(r[k])
  {
    if |s| == 0 then ""
    else if IsAsciiLetter(s[0]) then [s[0]] + LettersOnly(s[1..])
    else LettersOnly(s[1..])
  }

  lemma {:induction false} LettersOnlyOfLetters(s: string)
    requires forall k :: 0 <= k < |s| ==> IsAsciiLetter(s[k])
    ensures LettersOnly(s) == s
  {
    if |s| > 0 {
      LettersOnlyOfLetters(s[1..]);
    }
  }

  /** String.replace(target, replacement) with a one-character target: every
      occurrence of c is replaced. */
  function ReplaceChar(s: string, c: char, replacement: string): (r: string)
    ensures c !in s ==> r == s
  {
    if |s| == 0 then ""
    else (if s[0] == c then replacement else [s[0]]) + ReplaceChar(s[1..], c, replacement)
  }

  /** A separator found in a + sep + b is found no later than a's end, and earlier only
      where a holds sep's first character. */
  lemma FindBefore(a: string, sep: string, b: string)
    requires |sep| > 0
    ensures Find(a + sep + b, sep).Some? && Find(a + sep + b, sep).value <= |a|
    ensures Find(a + sep + b, sep).value < |a| ==> sep[0] in a
  {
    var s := a + sep + b;
    assert s[|a|..|a| + |sep|] == sep;
    assert OccursAt(s, sep, |a|);
    var i := Find(s, sep).value;
    if i < |a| {
      assert a[i] == s[i] == s[i..i + |sep|][0] == sep[0];
    }
  }

  lemma FindFirst(a: string, sep: string, b: string)
    requires |sep| > 0 && sep[0] !in a
    ensures Find(a + sep + b, sep) == Some(|a|)
  {
    FindBefore(a, sep, b);
  }

  /** A string holding no first character of sep does not contain sep. */
  lemma FoundStartsWith(s: string, sep: string)
    requires |sep| > 0
    ensures Find(s, sep).Some? ==> sep[0] in s
  {
    if Find(s, sep).Some? {
      var i := Find(s, sep).value;
      assert s[i] == s[i..i + |sep|][0];
    }
  }

  /** Cutting a + sep + b at sep gives a and b when neither holds sep's first character. */
  lemma PiecesPair(a: string, sep: string, b: string)
    requires |sep| > 0 && sep[0] !in a && sep[0] !in b
    ensures Pieces(a + sep + b, sep) == [a, b]
  {
    var s := a + sep + b;
    FindFirst(a, sep, b);
    assert s[..|a|] == a;
    assert s[|a| + |sep|..] == b;
    FoundStartsWith(b, sep);
  }

  /** The first piece of a split at c is everything before the first c. */
  lemma SplitHead(a: string, c: char, rest: string)
    requires |a| > 0 && c !in a
    ensures |Split(a + [c] + rest, [c])| > 0 && Split(a + [c] + rest, [c])[0] == a
  {
    var s := a + [c] + rest;
    FirstOccurrence(a, rest, c);
    assert s[..|a|] == a;
    var p := Pieces(s, [c]);
    assert p[0] == a;
    var r := DropTrailingEmpty(p);
    assert p[0] != "";
  }

  lemma TrimSpaceAfter(x: string)
    requires |x| > 0 && IsTrimmed(x)
    ensures Trim(x + " ") == x
  {
    var s := x + " ";
    assert TrimStart(s) == s;
    assert s[..|s| - 1] == x;
    assert TrimEnd(s) == TrimEnd(x) == x;
  }

  lemma TrimSpaceBefore(y: string)
    requires |y| > 0 && IsTrimmed(y)
    ensures Trim(" " + y) == y
  {
    var s := " " + y;
    assert s[1..] == y;
    assert TrimStart(s) == TrimStart(y) == y;
  }

  /** Replacing in a concatenation replaces in each part. */
  lemma {:induction false} ReplaceCharAppend(a: string, b: string, c: char, replacement: string)
    ensures ReplaceChar(a + b, c, replacement) == ReplaceChar(a, c, replacement) + ReplaceChar(b, c, replacement)
    decreases |a|
  {
    if |a| == 0 {
      assert a + b == b;
    } else {
      assert (a + b)[1..] == a[1..] + b;
      ReplaceCharAppend(a[1..], b, c, replacement);
    }
  }

  /** Replacing the one character c that ends a string replaces that last character. */
  lemma ReplaceLast(a: string, c: char, replacement: string)
    requires c !in a
    ensures ReplaceChar(a + [c], c, replacement) == a + replacement
  {
    ReplaceCharAppend(a, [c], c, replacement);
    assert [c][1..] == "";
    assert replacement + "" == replacement;
  }

  /** String.join with one more element. */
  lemma {:induction false} JoinSnoc(sep: string, xs: seq<string>, y: string)
    requires |xs| > 0
    ensures Join(sep, xs + [y]) == Join(sep, xs) + sep + y
    decreases |xs|
  {
    if |xs| == 1 {
      assert xs + [y] == [xs[0], y];
      assert (xs + [y])[1..] == [y];
    } else {
      assert (xs + [y])[1..] == xs[1..] + [y];
      JoinSnoc(sep, xs[1..], y);
    }
  }

  lemma Regroup(a: string, b: string, c: string)
    ensures a + (b + c) == a + b + c
  {
  }

  /** Cutting at the first c: the part before it, then the pieces of the rest. */
  lemma PiecesCons(a: string, c: char, rest: string)
    requires c !in a
    ensures Pieces(a + [c] + rest, [c]) == [a] + Pieces(rest, [c])
  {
    var s := a + [c] + rest;
    FirstOccurrence(a, rest, c);
    assert s[..|a|] == a;
    assert s[|a| + 1..] == rest;
  }

  /** Three pieces around two occurrences of c. */
  lemma ThreePieces(p1: string, p2: string, p3: string, c: char)
    requires c !in p1 && c !in p2 && c !in p3
    ensures Pieces(p1 + [c] + (p2 + [c] + p3), [c]) == [p1, p2, p3]
  {
    PiecesCons(p1, c, p2 + [c] + p3);
    PiecesCons(p2, c, p3);
    FoundStartsWith(p3, [c]);
  }

  /** Splitting a + sep + b at sep gives a and b when neither holds sep's first
      character and b is not empty. */
  lemma SplitPair(a: string, sep: string, b: string)
    requires |sep| > 0 && sep[0] !in a && sep[0] !in b && |b| > 0
    ensures Split(a + sep + b, sep) == [a, b]
  {
    FindFirst(a, sep, b);
    PiecesPair(a, sep, b);
    assert [a, b][1] != "";
  }

  /** replaceAll("[^a-zA-Z]", "") works character by character. */
  lemma {:induction false} LettersOnlyAppend(a: string, b: string)
    ensures LettersOnly(a + b) == LettersOnly(a) + LettersOnly(b)
    decreases |a|
  {
    if |a| > 0 {
      var ab := a + b;
      assert ab[0] == a[0] && ab[1..] == a[1..] + b;
      LettersOnlyAppend(a[1..], b);
      if IsAsciiLetter(a[0]) {
        assert LettersOnly(ab) == [a[0]] + LettersOnly(a[1..] + b);
      } else {
        assert LettersOnly(ab) == LettersOnly(a[1..] + b);
      }
    } else {
      assert a + b == b;
    }
  }

  /** A string of digits holds no letters. */
  lemma {:induction false} DigitsHaveNoLetters(s: string)
    requires AllDigits(s)
    ensures LettersOnly(s) == ""
    decreases |s|
  {
    if |s| > 0 {
      DigitsHaveNoLetters(s[1..]);
    }
  }

  /** Trimming drops two leading spaces. */
  lemma TrimTwoSpaces(y: string)
    requires |y| > 0 && IsTrimmed(y)
    ensures Trim("  " + y) == y
  {
    assert "  " + y == " " + (" " + y);
    TrimStartSpace(" " + y);
    TrimStartSpace(y);
    assert TrimStart(y) == y;
  }

  lemma TrimStartSpace(y: string)
    ensures TrimStart(" " + y) == TrimStart(y)
  {
    assert (" " + y)[1..] == y;
  }

  /** Splitting at single spaces, two spaces in a row leave an empty word between. */
  lemma SplitDoubleSpace(a: string, b: string)
    requires ' ' !in a && ' ' !in b && |b| > 0
    ensures Split(a + "  " + b, " ") == [a, "", b]
  {
    var s := a + "  " + b;
    assert s == a + [' '] + ("" + [' '] + b);
    PiecesCons(a, ' ', " b"[..0] + [' '] + b);
    PiecesCons("", ' ', b);
    NoOccurrence(b, ' ');
    assert s[|s| - 1] == b[|b| - 1] && b[|b| - 1] in b;
    SplitKeepsAll(s, ' ');
  }
}
