/** Searching, trimming and case in strings (src/glib/gstr.cpp, src/glib/gstringtoken.h). */
module Str {
  import opened Wrappers

  const WS := {' ', '\t', '\n', '\r'}

  /** The position of the first character from cs, or the length of s. */
  function FindFirstOf(s: string, cs: set<char>): (i: nat)
    ensures i <= |s| && (i < |s| ==> s[i] in cs)
  {
    if s == "" || s[0] in cs then 0 else 1 + FindFirstOf(s[1..], cs)
  }

  function FindFirstNotOf(s: string, cs: set<char>): (i: nat)
    ensures i <= |s| && (i < |s| ==> s[i] !in cs)
  {
    if s == "" || s[0] !in cs then 0 else 1 + FindFirstNotOf(s[1..], cs)
  }

  function TrimLeft(s: string, cs: set<char>): (r: string)
    ensures if s == "" || s[0] !in cs then r == s else |r| < |s|
  {
    s[FindFirstNotOf(s, cs)..]
  }

  function TrimRight(s: string, cs: set<char>): (r: string)
    ensures r == "" || r[|r| - 1] !in cs
    ensures if s == "" || s[|s| - 1] !in cs then r == s else |r| < |s|
  {
    if s == "" || s[|s| - 1] !in cs then s else TrimRight(s[..|s| - 1], cs)
  }

  /** The position of the first occurrence, or the length of s. */
  function Find(s: string, t: string): (i: nat)
    ensures i <= |s|
  {
    if t <= s then 0 else if s == "" then 0 else 1 + Find(s[1..], t)
  }

  /** What follows the character at pos. */
  function Tail(s: string, pos: nat): string {
    if pos + 1 >= |s| then "" else s[pos + 1..]
  }

  /** What std::getline() returns line by line. */
  function Lines(text: string): seq<string>
    decreases |text|
  {
    if text == "" then []
    else
      var eol := FindFirstOf(text, {'\n'});
      [text[..eol]] + Lines(if eol == |text| then "" else text[eol + 1..])
  }

  /** What comes before the first c, or the default. */
  function Head(s: string, c: char, default_: string): string {
    var i := FindFirstOf(s, {c});
    if i == |s| then default_ else s[..i]
  }

  /** What comes after the first c, if anything. */
  function TailFrom(s: string, c: char): string {
    var i := FindFirstOf(s, {c});
    if i == |s| then "" else Tail(s, i)
  }

  /** The last c in the string, if any. */
  function FindLast(s: string, c: char): (r: Option<nat>)
    ensures r.Some? ==> r.value < |s| && s[r.value] == c
  {
    if s == "" then None
    else if s[|s| - 1] == c then Some(|s| - 1)
    else FindLast(s[..|s| - 1], c)
  }

  lemma {:induction false} FindLastIs(s: string, c: char, n: nat)
    requires n < |s| && s[n] == c && forall i :: n < i < |s| ==> s[i] != c
    ensures FindLast(s, c) == Some(n)
  {
    if n < |s| - 1 {
      FindLastIs(s[..|s| - 1], c, n);
    }
  }

  /** The words between runs of separators. */
  function Tokens(s: string, cs: set<char>): seq<string>
    decreases |s|
  {
    var rest := TrimLeft(s, cs);
    if rest == "" then []
    else
      var n := FindFirstOf(rest, cs);
      FirstIsNotSeparator(s, cs);
      [rest[..n]] + Tokens(rest[n..], cs)
  }

  lemma FirstIsNotSeparator(s: string, cs: set<char>)
    ensures |TrimLeft(s, cs)| <= |s|
    ensures TrimLeft(s, cs) != "" ==> FindFirstOf(TrimLeft(s, cs), cs) > 0
  {
  }

  lemma {:induction false} TokensAreWords(s: string, cs: set<char>)
    ensures forall t :: t in Tokens(s, cs) ==> t != "" && forall i :: 0 <= i < |t| ==> t[i] !in cs
    decreases |s|
  {
    var rest := TrimLeft(s, cs);
    if rest != "" {
      var n := FindFirstOf(rest, cs);
      FirstIsNotSeparator(s, cs);
      FirstOf(rest, cs);
      TokensAreWords(rest[n..], cs);
    }
  }

  lemma {:induction false} FindAfter(s: string, cs: set<char>, n: nat)
    requires n <= |s| && (forall i :: 0 <= i < n ==> s[i] in cs) && (n < |s| ==> s[n] !in cs)
    ensures FindFirstNotOf(s, cs) == n
  {
    if n > 0 {
      FindAfter(s[1..], cs, n - 1);
    }
  }

  /** A word is the first token if it ends the string or a separator follows. */
  lemma TokensOfWord(w: string, rest: string, cs: set<char>)
    requires w != "" && (forall i :: 0 <= i < |w| ==> w[i] !in cs) && (rest == "" || rest[0] in cs)
    ensures Tokens(w + rest, cs) == [w] + Tokens(rest, cs)
  {
    var s := w + rest;
    assert s[0] == w[0];
    FindAtStart(s, cs, |w|);
    assert s[..|w|] == w && s[|w|..] == rest && s[0..] == s;
  }

  /** Separators in front of a string do not change its tokens. */
  lemma TokensAfterGap(gap: string, rest: string, cs: set<char>)
    requires (forall i :: 0 <= i < |gap| ==> gap[i] in cs) && (rest == "" || rest[0] !in cs)
    ensures Tokens(gap + rest, cs) == Tokens(rest, cs)
  {
    var s := gap + rest;
    FindAfter(s, cs, |gap|);
    assert s[|gap|..] == rest && rest[0..] == rest;
    assert TrimLeft(s, cs) == rest && TrimLeft(rest, cs) == rest;
  }

  /** Blanks around a string that neither starts nor ends with one are trimmed off. */
  lemma TrimBoth(before: string, s: string, after: string, cs: set<char>)
    requires s != "" && s[0] !in cs && s[|s| - 1] !in cs
    requires (forall i :: 0 <= i < |before| ==> before[i] in cs) && forall i :: 0 <= i < |after| ==> after[i] in cs
    ensures TrimLeft(TrimRight(before + s + after, cs), cs) == s
  {
    TrimRightSum(before + s, after, cs);
    TrimRightBlank(after, cs);
    assert TrimRight(before + s, cs) == before + s;
    FindAfter(before + s, cs, |before|);
    assert (before + s)[|before|..] == s;
  }

  lemma {:induction false} TrimRightBlank(s: string, cs: set<char>)
    requires forall i :: 0 <= i < |s| ==> s[i] in cs
    ensures TrimRight(s, cs) == ""
  {
    if s != "" {
      TrimRightBlank(s[..|s| - 1], cs);
    }
  }

  /** A line is what comes before a line end, or before the end of the text if there is anything. */
  lemma LinesStep(line: string, rest: string)
    requires '\n' !in line
    ensures Lines(line + "\n" + rest) == [line] + Lines(rest)
    ensures Lines(line) == if line == "" then [] else [line]
  {
    FindAtStart(line, {'\n'}, |line|);
    assert line[..|line|] == line && Lines("") == [];
    var text := line + "\n" + rest;
    FindAtStart(text, {'\n'}, |line|);
    assert text[..|line|] == line;
    assert text[|line| + 1..] == rest;
  }

  // ----- case

  function LowerChar(c: char): char {
    if 'A' <= c <= 'Z' then (c as int + 32) as char else c
  }

  function UpperChar(c: char): char {
    if 'a' <= c <= 'z' then (c as int - 32) as char else c
  }

  function Lower(s: string): (r: string)
    ensures |r| == |s|
  {
    seq(|s|, i requires 0 <= i < |s| => LowerChar(s[i]))
  }

  function Upper(s: string): (r: string)
    ensures |r| == |s|
  {
    seq(|s|, i requires 0 <= i < |s| => UpperChar(s[i]))
  }

  predicate Imatch(s: string, t: string) {
    Lower(s) == Lower(t)
  }

  /** The letters of ASCII, and nothing else, have another case. */
  lemma UpperLetters(c: char)
    ensures Upper("abcdefghijklmnopqrstuvwxyz") == "ABCDEFGHIJKLMNOPQRSTUVWXYZ"
    ensures UpperChar(c) != c ==> c in "abcdefghijklmnopqrstuvwxyz"
  {
    if 'a' <= c <= 'z' {
      assert "abcdefghijklmnopqrstuvwxyz"[c as int - 'a' as int] == c;
    }
  }

  lemma LowerLetters(c: char)
    ensures Lower("ABCDEFGHIJKLMNOPQRSTUVWXYZ") == "abcdefghijklmnopqrstuvwxyz"
    ensures LowerChar(c) != c ==> c in "ABCDEFGHIJKLMNOPQRSTUVWXYZ"
  {
    if 'A' <= c <= 'Z' {
      assert "ABCDEFGHIJKLMNOPQRSTUVWXYZ"[c as int - 'A' as int] == c;
    }
  }

  lemma LowerOf(s: string)
    ensures Lower(Lower(s)) == Lower(s) && Lower(Upper(s)) == Lower(s)
    ensures ' ' in Lower(s) <==> ' ' in s
  {
    assert forall i :: 0 <= i < |s| ==> (Lower(s)[i] == ' ') == (s[i] == ' ');
  }

  lemma {:induction false} FirstOf(s: string, cs: set<char>)
    ensures forall j :: 0 <= j < FindFirstOf(s, cs) ==> s[j] !in cs
  {
    if s != "" && s[0] !in cs {
      FirstOf(s[1..], cs);
      assert forall j :: 1 <= j < FindFirstOf(s, cs) ==> s[j] == s[1..][j - 1];
    }
  }

  lemma {:induction false} FindAtStart(s: string, cs: set<char>, n: nat)
    requires n <= |s| && (forall i :: 0 <= i < n ==> s[i] !in cs) && (n < |s| ==> s[n] in cs)
    ensures FindFirstOf(s, cs) == n
  {
    if n > 0 {
      FindAtStart(s[1..], cs, n - 1);
    }
  }

  lemma {:induction false} TrimRightSum(a: string, b: string, cs: set<char>)
    ensures TrimRight(a + b, cs) == if TrimRight(b, cs) == "" then TrimRight(a, cs) else a + TrimRight(b, cs)
  {
    if b == "" {
      assert a + b == a;
    } else if b[|b| - 1] in cs {
      assert (a + b)[..|a + b| - 1] == a + b[..|b| - 1];
      TrimRightSum(a, b[..|b| - 1], cs);
    }
  }

  lemma {:induction false} TrimRightPrefix(s: string, cs: set<char>)
    ensures TrimRight(s, cs) <= s
  {
    if s != "" && s[|s| - 1] in cs {
      TrimRightPrefix(s[..|s| - 1], cs);
    }
  }

  lemma {:induction false} FirstNotOfSum(s: string, t: string, cs: set<char>)
    ensures FindFirstNotOf(s + t, cs) == if FindFirstNotOf(s, cs) < |s| then FindFirstNotOf(s, cs) else |s| + FindFirstNotOf(t, cs)
  {
    if s == "" {
      assert s + t == t;
    } else {
      assert (s + t)[1..] == s[1..] + t;
      FirstNotOfSum(s[1..], t, cs);
    }
  }

  lemma {:induction false} FirstOfSum(s: string, t: string, cs: set<char>)
    ensures FindFirstOf(s + t, cs) == if FindFirstOf(s, cs) < |s| then FindFirstOf(s, cs) else |s| + FindFirstOf(t, cs)
  {
    if s == "" {
      assert s + t == t;
    } else {
      assert (s + t)[1..] == s[1..] + t;
      FirstOfSum(s[1..], t, cs);
    }
  }
}
