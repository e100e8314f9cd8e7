/** Key-value files: reading, splitting, joining, and editing in place (src/glib/gmapfile.cpp). */
module MapFile {
  import opened Wrappers
  import opened Str

  const SEPARATORS := {' ', '=', '\t'}
  const BLANKS := {' ', '\t'}
  const NOT_LETTERS := {' ', '\t', '\r', '#'}
  const MARK := '\0'

  /** A key and its value. */
  datatype Item = Item(key: string, value: string)

  type StringMap = map<string, string>

  // ----- lines

  function Unquote(s: string): string {
    if Quoted(s) then s[1..|s| - 1] else s
  }

  predicate Quoted(s: string) {
    |s| >= 2 && s[0] == '"' && s[|s| - 1] == '"'
  }

  function Split(line: string): Item {
    var start := FindFirstNotOf(line, SEPARATORS);
    if start == |line| then Item("", "")
    else
      ItemAt(line, line[start..start + FindFirstOf(line[start..], SEPARATORS)])
  }

  /** The key, and what follows its first occurrence. */
  function ItemAt(line: string, key: string): Item {
    var value := Tail(line, Find(line, key) + |key|);
    Item(key, Unquote(TrimRight(TrimLeft(value, SEPARATORS), WS)))
  }

  function Quote(s: string): string {
    if FindFirstOf(s, BLANKS) == |s| then s else "\"" + s + "\""
  }

  function Join(key: string, value: string): string {
    TrimLeft(TrimRight(key + " " + Quote(value), WS), WS)
  }

  predicate Valued(line: string) {
    var letter, hash := FindFirstNotOf(line, NOT_LETTERS), FindFirstOf(line, {'#'});
    if letter == |line| then false
    else if hash == |line| then true
    else hash >= letter
  }

  predicate CommentedOut(line: string) {
    var letter, hash := FindFirstNotOf(line, NOT_LETTERS), FindFirstOf(line, {'#'});
    if letter == |line| then false
    else if hash == |line| then false
    else hash == 0 && letter == 1
  }

  // ----- reading

  function Text(lines: seq<string>): string {
    if lines == [] then "" else lines[0] + "\n" + Text(lines[1..])
  }

  function Added(m: StringMap, item: Item): StringMap {
    m[item.key := if item.key in m then m[item.key] + "," + item.value else item.value]
  }

  /** The item of one line of the file, if any. */
  function ItemOf(line: string): Option<Item> {
    var trimmed := TrimRight(line, {'\r'});
    if trimmed == "" || !Valued(trimmed) || Split(trimmed).key == "" then None
    else Some(Split(trimmed))
  }

  /** The map after some lines are read into it. */
  function Read(m: StringMap, lines: seq<string>): StringMap {
    if lines == [] then m else LineRead(Read(m, lines[..|lines| - 1]), lines[|lines| - 1])
  }

  function LineRead(m: StringMap, line: string): StringMap {
    match ItemOf(line)
    case None => m
    case Some(item) => Added(m, item)
  }

  // ----- editing

  function Marked(line: string): string {
    if Valued(line) then [MARK] + line
    else if CommentedOut(line) then [MARK] + line[1..]
    else line
  }

  function Unmarked(line: string): string {
    if IsMarked(line) then "#" + line[1..] else line
  }

  predicate IsMarked(line: string) {
    line != "" && line[0] == MARK
  }

  /** A line that editInto() replaces for some key. */
  predicate Matches(line: string, key: string) {
    IsMarked(line) && Split(line[1..]).key != "" && Split(line[1..]).key == key
  }

  /** The first line from position i on that matches, or the number of lines. */
  function FirstMatch(lines: seq<string>, key: string, i: nat): (r: nat)
    requires i <= |lines|
    ensures i <= r <= |lines|
    decreases |lines| - i
  {
    if i == |lines| || Matches(lines[i], key) then i else FirstMatch(lines, key, i + 1)
  }

  function Rewritten(lines: seq<string>, key: string, value: string): seq<string> {
    var i := FirstMatch(lines, key, 0);
    if i < |lines| then lines[i := Join(key, value)] else lines + [Join(key, value)]
  }

  function RewrittenAll(lines: seq<string>, keys: seq<string>, m: StringMap): seq<string>
    requires forall k :: k in keys ==> k in m
  {
    if keys == [] then lines
    else
      var k := keys[|keys| - 1];
      Rewritten(RewrittenAll(lines, keys[..|keys| - 1], m), k, m[k])
  }

  function MarkedAll(lines: seq<string>): seq<string> {
    seq(|lines|, i requires 0 <= i < |lines| => Marked(lines[i]))
  }

  function UnmarkedAll(lines: seq<string>): seq<string> {
    seq(|lines|, i requires 0 <= i < |lines| => Unmarked(lines[i]))
  }

  /** The lines that editInto() writes, with the keys in the order of the map. */
  function Edited(lines: seq<string>, keys: seq<string>, m: StringMap): seq<string>
    requires forall k :: k in keys ==> k in m
  {
    UnmarkedAll(RewrittenAll(MarkedAll(lines), keys, m))
  }

  ghost predicate Enumerates(keys: seq<string>, m: StringMap) {
    && (forall k :: k in keys <==> k in m)
    && (forall i, j :: 0 <= i < j < |keys| ==> keys[i] != keys[j])
  }

  // ----- split and join

  /** Keys that are one token of a line, and are not trimmed. */
  predicate IsToken(key: string) {
    && key != "" && key[0] != '\r' && key[|key| - 1] != '\r'
    && forall i :: 0 <= i < |key| ==> key[i] !in SEPARATORS && key[i] != '\n'
  }

  /** Keys that survive the file: one token that does not look like a comment or a mark. */
  predicate GoodKey(key: string) {
    IsToken(key) && key[0] != '#' && key[0] != '\0'
  }

  predicate HasBlank(v: string) {
    exists i :: 0 <= i < |v| && v[i] in BLANKS
  }

  /** Values that survive; the documentation's rules exclude more of them. */
  predicate Transparent(v: string) {
    || v == ""
    || HasBlank(v)
    || (v[0] != '=' && v[|v| - 1] !in {'\r', '\n'} && !Quoted(v))
  }

  /** What comes back for a value. */
  function Recovered(v: string): string {
    Unquote(TrimRight(TrimLeft(TrimRight(Quote(v), WS), SEPARATORS), WS))
  }

  lemma RecoveredIffTransparent(v: string)
    ensures Recovered(v) == v <==> Transparent(v)
  {
    hide Recovered;
    QuoteIf(v);
    if HasBlank(v) {
      QuotedRecovered(v);
    } else {
      UnquotedRecovered(v);
    }
  }

  lemma QuoteIf(v: string)
    ensures Quote(v) == if HasBlank(v) then "\"" + v + "\"" else v
  {
    FirstOf(v, BLANKS);
  }

  lemma QuotedRecovered(v: string)
    requires Quote(v) == "\"" + v + "\""
    ensures Recovered(v) == v
  {
    hide TrimRight, TrimLeft, Quote, Unquote;
    var q := "\"" + v + "\"";
    assert q[|q| - 1] == '"' && q[0] == '"';
    UnquoteQuoted(v);
  }

  lemma UnquoteQuoted(v: string)
    ensures Unquote("\"" + v + "\"") == v
  {
  }

  lemma UnquotedRecovered(v: string)
    requires Quote(v) == v && !HasBlank(v)
    ensures Recovered(v) == v <==> Transparent(v)
  {
    hide TrimRight, TrimLeft, Quote;
    if v != "" {
      assert v[0] !in BLANKS && v[|v| - 1] !in BLANKS;
      hide HasBlank;
    }
  }

  /** A joined line is the key with or without the rest. */
  lemma JoinedParts(key: string, value: string)
    requires IsToken(key)
    ensures var q := TrimRight(Quote(value), WS); Join(key, value) == if q == "" then key else key + " " + q
  {
    hide TrimRight, Quote;
    assert key[0] !in SEPARATORS && key[|key| - 1] !in SEPARATORS;
    TrimmedKey(key, Quote(value));
  }

  lemma TrimmedKey(key: string, value: string)
    requires key != "" && key[|key| - 1] !in WS
    ensures TrimRight(key + " " + value, WS) == if TrimRight(value, WS) == "" then key else key + " " + TrimRight(value, WS)
  {
    hide TrimRight;
    OneBlank();
    var q := TrimRight(value, WS);
    Regrouped(key, " ", value, "");
    Regrouped(key, " ", q, "");
    TrimRightSum(" ", value, WS);
    TrimRightSum(key, " " + value, WS);
  }

  lemma OneBlank()
    ensures TrimRight(" ", WS) == ""
  {
  }

  /** The key always comes back, the value as Recovered() says. */
  lemma SplitJoined(key: string, value: string)
    requires IsToken(key)
    ensures Split(Join(key, value)) == Item(key, Recovered(value))
  {
    hide Quote, Recovered, TrimLeft, TrimRight, Join;
    JoinedParts(key, value);
    RecoveredParts(value);
    SplitParts(key, TrimRight(Quote(value), WS));
  }

  lemma SplitParts(key: string, q: string)
    requires IsToken(key)
    ensures Split(if q == "" then key else key + " " + q) == Item(key, Unquote(TrimRight(TrimLeft(q, SEPARATORS), WS)))
  {
    hide TrimLeft, TrimRight, Unquote;
    var line := if q == "" then key else key + " " + q;
    assert key[0] !in SEPARATORS;
    assert line[..|key|] == key;
    assert forall i :: 0 <= i < |key| ==> line[i] == key[i] && key[i] !in SEPARATORS;
    FindAtStart(line, SEPARATORS, |key|);
    assert FindFirstNotOf(line, SEPARATORS) == 0;
    assert line[0..] == line;
    assert Find(line, key) == 0;
    assert Tail(line, |key|) == q;
  }

  lemma RecoveredParts(v: string)
    ensures Recovered(v) == Unquote(TrimRight(TrimLeft(TrimRight(Quote(v), WS), SEPARATORS), WS))
  {
  }

  /** The round trip of one item holds for these values and no others. */
  lemma SplitJoin(key: string, value: string)
    requires GoodKey(key)
    ensures Split(Join(key, value)) == Item(key, value) <==> Transparent(value)
  {
    hide Recovered, Split, Join;
    SplitJoined(key, value);
    RecoveredIffTransparent(value);
  }

  // ----- lines in their own terms

  /** A line with a value: its first character that is no blank and no carriage return is no hash either. */
  lemma ValuedIff(line: string)
    ensures Valued(line) <==> exists i :: && 0 <= i < |line| && line[i] !in {' ', '\t', '\r', '#'}
                                          && forall j :: 0 <= j < i ==> line[j] in {' ', '\t', '\r'}
  {
    var letter, hash := FindFirstNotOf(line, NOT_LETTERS), FindFirstOf(line, {'#'});
    FirstNotOf(line, NOT_LETTERS);
    FirstOf(line, {'#'});
    if Valued(line) {
      assert line[letter] !in {' ', '\t', '\r', '#'};
      forall j | 0 <= j < letter ensures line[j] in {' ', '\t', '\r'} {
        assert line[j] in NOT_LETTERS && line[j] !in {'#'};
      }
    }
  }

  /** A value that is commented out: a hash at the start with no blank after it. */
  lemma CommentedOutIff(line: string)
    ensures CommentedOut(line) <==> |line| >= 2 && line[0] == '#' && line[1] !in {' ', '\t', '\r', '#'}
  {
    FirstNotOf(line, NOT_LETTERS);
    if |line| >= 2 && line[0] == '#' && line[1] !in {' ', '\t', '\r', '#'} {
      FindAfter(line, NOT_LETTERS, 1);
    }
  }

  lemma {:induction false} FirstNotOf(s: string, cs: set<char>)
    ensures forall j :: 0 <= j < FindFirstNotOf(s, cs) ==> s[j] in cs
  {
    if s != "" && s[0] in cs {
      FirstNotOf(s[1..], cs);
      assert forall j :: 1 <= j < FindFirstNotOf(s, cs) ==> s[j] == s[1..][j - 1];
    }
  }

  predicate IsSeparator(s: string) {
    forall i :: 0 <= i < |s| ==> s[i] in {' ', '=', '\t'}
  }

  predicate IsSpace(s: string) {
    forall i :: 0 <= i < |s| ==> s[i] in {' ', '\t', '\r', '\n'}
  }

  /** Keys and values as they stand in a line. */
  predicate IsBareKey(key: string) {
    key != "" && forall i :: 0 <= i < |key| ==> key[i] !in {' ', '=', '\t'}
  }

  predicate IsBareValue(value: string) {
    value == "" || (value[0] !in {' ', '=', '\t'} && value[|value| - 1] !in {' ', '\t', '\r', '\n'})
  }

  /** A line is split at any run of blanks and equals signs after its first word; one pair of double quotes
      around the value is taken off. */
  lemma SplitText(before: string, key: string, gap: string, value: string, after: string)
    requires IsSeparator(before) && IsBareKey(key) && IsSeparator(gap) && gap != "" && IsBareValue(value) && IsSpace(after)
    requires value != "" || after == ""
    ensures Split(before + (key + (gap + (value + after))))
      == Item(key, if |value| >= 2 && value[0] == '"' && value[|value| - 1] == '"' then value[1..|value| - 1] else value)
  {
    hide TrimLeft, TrimRight, Unquote, Split;
    SplitAtKey(before, key, gap, value + after);
    TrimGap(gap[1..], value + after);
    if value == "" {
      assert value + after == "";
    } else {
      TrimRightSum(value, after, WS);
      TrimRightBlank(after, WS);
      assert TrimRight(value, WS) == value;
    }
    UnquoteIf(value);
  }

  lemma UnquoteIf(s: string)
    ensures Unquote(TrimRight("", WS)) == ""
    ensures Unquote(s) == if |s| >= 2 && s[0] == '"' && s[|s| - 1] == '"' then s[1..|s| - 1] else s
  {
  }

  lemma SplitAtKey(before: string, key: string, gap: string, rest: string)
    requires IsSeparator(before) && IsBareKey(key) && IsSeparator(gap) && gap != ""
    ensures Split(before + (key + (gap + rest)))
      == Item(key, Unquote(TrimRight(TrimLeft(gap[1..] + rest, SEPARATORS), WS)))
  {
    var tail := gap + rest;
    assert tail[0] == gap[0];
    SplitBeforeTail(before, key, tail);
    TailOfGap(gap, rest);
    hide Split, TrimLeft, TrimRight, Unquote, IsSeparator, IsBareKey;
  }

  lemma SplitBeforeTail(before: string, key: string, tail: string)
    requires IsSeparator(before) && IsBareKey(key) && tail != "" && tail[0] in {' ', '=', '\t'}
    ensures Split(before + (key + tail)) == Item(key, Unquote(TrimRight(TrimLeft(tail[1..], SEPARATORS), WS)))
  {
    hide Split, TrimLeft, TrimRight, Unquote, Find, FindFirstOf, FindFirstNotOf, Tail;
    KeyOfLine(before, key, tail);
    hide IsSeparator, IsBareKey;
    TailOfLine(before, key, tail);
    SplitIs(before + (key + tail), |before|, key);
  }

  lemma TailOfGap(gap: string, rest: string)
    requires gap != ""
    ensures (gap + rest)[1..] == gap[1..] + rest
  {
  }

  lemma SplitIs(line: string, start: nat, key: string)
    requires start == FindFirstNotOf(line, SEPARATORS) < |line|
    requires start + |key| <= |line| && |key| == FindFirstOf(line[start..], SEPARATORS) && key == line[start..start + |key|]
    ensures Split(line) == ItemAt(line, key)
  {
    hide Find, FindFirstOf, FindFirstNotOf, ItemAt, SEPARATORS;
  }

  /** Where the key of a line starts and ends, and what comes after it. */
  lemma KeyOfLine(before: string, key: string, tail: string)
    requires IsSeparator(before) && IsBareKey(key) && (tail == "" || tail[0] in {' ', '=', '\t'})
    ensures var line := before + (key + tail);
      && FindFirstNotOf(line, SEPARATORS) == |before| < |line| && line[|before|..] == key + tail
      && FindFirstOf(key + tail, SEPARATORS) == |key| && Find(line, key) == |before|
  {
    var line := before + (key + tail);
    assert line[|before|] == key[0];
    FindAfter(line, SEPARATORS, |before|);
    assert line[|before|..] == key + tail;
    FindAtStart(key + tail, SEPARATORS, |key|);
    FindKey(before, key, tail);
  }

  lemma TailOfLine(before: string, key: string, tail: string)
    ensures var line := before + (key + tail);
      line[|before|..|before| + |key|] == key && Tail(line, |before| + |key|) == if tail == "" then "" else tail[1..]
  {
  }

  lemma TrimGap(gap: string, rest: string)
    requires IsSeparator(gap) && (rest == "" || rest[0] !in {' ', '=', '\t'})
    ensures TrimLeft(gap + rest, SEPARATORS) == rest
  {
    FindAfter(gap + rest, SEPARATORS, |gap|);
    assert (gap + rest)[|gap|..] == rest;
  }

  lemma {:induction false} FindKey(before: string, key: string, rest: string)
    requires IsSeparator(before) && IsBareKey(key)
    ensures Find(before + (key + rest), key) == |before|
  {
    var line := before + (key + rest);
    if before == "" {
      assert line == key + rest && line[..|key|] == key;
    } else {
      assert line[0] == before[0] && key[0] !in {' ', '=', '\t'};
      assert line[1..] == before[1..] + (key + rest);
      FindKey(before[1..], key, rest);
    }
  }

  lemma SplitBare(before: string, key: string)
    requires IsSeparator(before) && IsBareKey(key)
    ensures Split(before + key) == Item(key, "")
  {
    KeyOfLine(before, key, "");
    TailOfLine(before, key, "");
    hide Find, FindFirstOf, FindFirstNotOf, IsBareKey, IsSeparator, Split, Tail;
    assert key + "" == key;
    SplitIs(before + key, |before|, key);
    UnquoteIf("");
    TrimGap("", "");
  }

  /** A joined line has one space in the middle, and double quotes around values with blanks. */
  lemma JoinText(key: string, value: string, ends: string)
    requires IsToken(key) && (forall i :: 0 <= i < |ends| ==> ends[i] in {'\r', '\n'})
    requires value == "" || value[|value| - 1] !in {'\r', '\n'}
    ensures ' ' in value || '\t' in value ==> Join(key, value + ends) == key + " \"" + value + ends + "\""
    ensures ' ' !in value && '\t' !in value ==> Join(key, value + ends) == if value == "" then key else key + " " + value
  {
    hide TrimRight, Join, Quote;
    JoinedParts(key, value + ends);
    QuoteIf(value + ends);
    BlankOrEnds(value, ends);
    if ' ' in value || '\t' in value {
      QuotedText(key, value, ends);
    } else {
      TrimEnds(value, ends);
    }
  }

  /** Reading a line: the key and the value in it, with blanks and carriage returns around them. */
  lemma ItemOfText(before: string, key: string, gap: string, value: string, after: string)
    requires IsBareKey(key) && key[0] !in {'\r', '#'} && IsSeparator(gap) && gap != "" && IsBareValue(value) && IsSpace(after)
    requires value != "" || after == ""
    requires forall i :: 0 <= i < |before| ==> before[i] in {' ', '\t'}
    ensures ItemOf(before + (key + (gap + (value + after)))) == Some(
      Item(key, if |value| >= 2 && value[0] == '"' && value[|value| - 1] == '"' then value[1..|value| - 1] else value))
  {
    hide Split, Valued, TrimRight;
    var after' := TrimRight(after, {'\r'});
    TrimRightPrefix(after, {'\r'});
    TrimmedLine(before, key, gap, value, after);
    SplitText(before, key, gap, value, after');
    var line := before + (key + (gap + (value + after')));
    assert line[|before|] == key[0] && key[0] !in {' ', '=', '\t'};
    assert forall j :: 0 <= j < |before| ==> line[j] == before[j];
    ValuedIff(line);
  }

  lemma TrimmedLine(before: string, key: string, gap: string, value: string, after: string)
    requires gap != "" && IsSeparator(gap) && IsBareValue(value) && (value != "" || after == "")
    ensures TrimRight(before + (key + (gap + (value + after))), {'\r'})
      == before + (key + (gap + (value + TrimRight(after, {'\r'}))))
  {
    hide TrimRight;
    var core := before + (key + (gap + value));
    assert core[|core| - 1] == if value == "" then gap[|gap| - 1] else value[|value| - 1];
    Appended(before, key, gap, value, after);
    Appended(before, key, gap, value, TrimRight(after, {'\r'}));
    TrimRightSum(core, after, {'\r'});
    assert core + "" == core;
  }

  lemma Appended(a: string, b: string, c: string, d: string, e: string)
    ensures a + (b + (c + (d + e))) == a + (b + (c + d)) + e
  {
  }

  /** A key may stand alone, and carriage returns at the end do not belong to it. */
  lemma ItemOfBareKey(before: string, key: string, ends: string)
    requires IsBareKey(key) && key[0] !in {'\r', '#'} && key[|key| - 1] != '\r'
    requires forall i :: 0 <= i < |before| ==> before[i] in {' ', '\t'}
    requires forall i :: 0 <= i < |ends| ==> ends[i] == '\r'
    ensures ItemOf(before + key + ends) == Some(Item(key, ""))
  {
    hide Split, Valued, TrimRight;
    var line := before + key;
    assert line[|line| - 1] == key[|key| - 1];
    TrimRightSum(line, ends, {'\r'});
    TrimRightBlank(ends, {'\r'});
    assert TrimRight(line, {'\r'}) == line;
    SplitBare(before, key);
    assert line[|before|] == key[0] && key[0] !in {' ', '=', '\t'};
    assert forall j :: 0 <= j < |before| ==> line[j] == before[j];
    ValuedIff(line);
  }

  /** Comments have no item. */
  lemma ItemOfComment(before: string, rest: string)
    requires forall i :: 0 <= i < |before| ==> before[i] in {' ', '\t', '\r'}
    ensures ItemOf(before + "#" + rest) == None
  {
    hide Split, Valued, TrimRight;
    var line := before + "#" + rest;
    var trimmed := TrimRight(line, {'\r'});
    TrimRightPrefix(line, {'\r'});
    ValuedIff(trimmed);
    assert forall i :: 0 <= i < |trimmed| ==> trimmed[i] == line[i];
    assert line[|before|] == '#';
  }

  /** The values that the lines of a file have for a key. */
  function ValuesFor(lines: seq<string>, key: string): seq<string> {
    if lines == [] then []
    else
      var last := ItemOf(lines[|lines| - 1]);
      ValuesFor(lines[..|lines| - 1], key) + if last.Some? && last.value.key == key then [last.value.value] else []
  }

  function CommaJoined(values: seq<string>): string {
    if values == [] then ""
    else if |values| == 1 then values[0]
    else CommaJoined(values[..|values| - 1]) + "," + values[|values| - 1]
  }

  /** A file is read into a map of all its keys, with the values of repeated keys joined by commas. */
  lemma {:induction false} ReadIsJoined(lines: seq<string>, key: string)
    ensures key in Read(map[], lines) <==> ValuesFor(lines, key) != []
    ensures key in Read(map[], lines) ==> Read(map[], lines)[key] == CommaJoined(ValuesFor(lines, key))
  {
    hide ItemOf;
    if lines != [] {
      var before := lines[..|lines| - 1];
      ReadIsJoined(before, key);
      var values, last := ValuesFor(before, key), ItemOf(lines[|lines| - 1]);
      if last.Some? && last.value.key == key {
        var v := last.value.value;
        assert (values + [v])[..|values|] == values;
        assert values == [] ==> values + [v] == [v];
      } else {
        assert values + [] == values;
      }
    }
  }

  lemma BlankOrEnds(value: string, ends: string)
    requires forall i :: 0 <= i < |ends| ==> ends[i] in {'\r', '\n'}
    ensures HasBlank(value + ends) <==> ' ' in value || '\t' in value
  {
    var v := value + ends;
    if ' ' in value || '\t' in value {
      var i :| 0 <= i < |value| && (value[i] == ' ' || value[i] == '\t');
      assert v[i] in BLANKS;
    }
  }

  lemma QuotedText(key: string, value: string, ends: string)
    ensures var q := "\"" + (value + ends) + "\""; TrimRight(q, WS) == q && key + " " + q == key + " \"" + value + ends + "\""
  {
  }

  lemma TrimEnds(value: string, ends: string)
    requires forall i :: 0 <= i < |ends| ==> ends[i] in {'\r', '\n'}
    requires value == "" || value[|value| - 1] !in {' ', '\t', '\r', '\n'}
    ensures TrimRight(value + ends, WS) == value
  {
    TrimRightSum(value, ends, WS);
    TrimRightBlank(ends, WS);
  }

  // ----- what an edit does to each line

  /** A line is left alone unless it holds a value, commented out or not. */
  predicate IsCandidate(line: string) {
    Valued(line) || CommentedOut(line)
  }

  function Content(line: string): string {
    if Valued(line) || line == "" then line else line[1..]
  }

  function KeyOf(line: string): string {
    Split(Content(line)).key
  }

  predicate IsFor(line: string, key: string) {
    IsCandidate(line) && KeyOf(line) == key
  }

  /** The first line for some key. */
  predicate IsFirstFor(lines: seq<string>, i: nat, key: string)
    requires i < |lines|
  {
    IsFor(lines[i], key) && forall j :: 0 <= j < i ==> !IsFor(lines[j], key)
  }

  predicate Has(lines: seq<string>, key: string) {
    exists j :: 0 <= j < |lines| && IsFor(lines[j], key)
  }

  /** What becomes of line i: the first line for a key in the map gets the new value. */
  function EditedLine(lines: seq<string>, i: nat, m: StringMap): string
    requires i < |lines|
  {
    var key := KeyOf(lines[i]);
    if !IsCandidate(lines[i]) then lines[i]
    else if key in m && IsFirstFor(lines, i, key) then Join(key, m[key])
    else "#" + Content(lines[i])
  }

  /** The keys that the file lacks, whose lines are appended. */
  function MissingKeys(lines: seq<string>, keys: seq<string>): seq<string> {
    if keys == [] then []
    else
      var k := keys[|keys| - 1];
      MissingKeys(lines, keys[..|keys| - 1]) + if Has(lines, k) then [] else [k]
  }

  lemma {:induction false} MissingKeysAre(lines: seq<string>, keys: seq<string>)
    requires forall i, j :: 0 <= i < j < |keys| ==> keys[i] != keys[j]
    ensures var missing := MissingKeys(lines, keys);
      && (forall k :: k in missing <==> k in keys && !Has(lines, k))
      && forall i, j :: 0 <= i < j < |missing| ==> missing[i] != missing[j]
  {
    hide Has;
    if keys != [] {
      var last := |keys| - 1;
      MissingKeysAre(lines, keys[..last]);
      assert keys == keys[..last] + [keys[last]];
    }
  }

  lemma MarkedParts(line: string)
    ensures IsMarked(Marked(line)) <==> IsCandidate(line)
    ensures IsCandidate(line) ==> Marked(line)[1..] == Content(line)
    ensures forall key :: key != "" ==> (Matches(Marked(line), key) <==> IsFor(line, key))
  {
    hide Split;
    if Valued(line) {
      assert ([MARK] + line)[1..] == line;
    } else if CommentedOut(line) {
      assert ([MARK] + line[1..])[1..] == line[1..];
    }
  }

  lemma JoinedNotMarked(key: string, value: string)
    requires GoodKey(key)
    ensures !IsMarked(Join(key, value)) && Join(key, value) != "" && !CommentedOut(Join(key, value))
    ensures Valued(Join(key, value)) && TrimRight(Join(key, value), {'\r'}) == Join(key, value)
  {
    hide Join, Quote, TrimRight, Valued, CommentedOut;
    var line := Join(key, value);
    JoinedParts(key, value);
    assert key[0] !in SEPARATORS && key[0] != '\n' && key[|key| - 1] !in SEPARATORS && key[|key| - 1] != '\n';
    assert line[0] == key[0];
    StartsWithLetter(line);
  }

  lemma StartsWithLetter(line: string)
    requires line != "" && line[0] !in NOT_LETTERS
    ensures Valued(line) && !CommentedOut(line)
  {
    assert FindFirstNotOf(line, NOT_LETTERS) == 0;
  }

  /** How far the rewriting has got when the keys in done have been handled. */
  function PartlyEdited(lines: seq<string>, i: nat, done: seq<string>, m: StringMap): string
    requires i < |lines| && forall k :: k in done ==> k in m
  {
    var key := KeyOf(lines[i]);
    if key in done && IsFirstFor(lines, i, key) then Join(key, m[key]) else Marked(lines[i])
  }

  ghost predicate PartlyDone(r: seq<string>, lines: seq<string>, done: seq<string>, m: StringMap)
    requires forall k :: k in done ==> k in m
  {
    var missing, n := MissingKeys(lines, done), |lines|;
    && |r| == n + |missing|
    && (forall i :: 0 <= i < n ==> r[i] == PartlyEdited(lines, i, done, m))
    && forall i :: 0 <= i < |missing| ==> missing[i] in done && r[n + i] == Join(missing[i], m[missing[i]])
  }

  predicate GoodKeys(m: StringMap) {
    forall k :: k in m ==> GoodKey(k)
  }

  lemma PartlyMatches(lines: seq<string>, i: nat, done: seq<string>, m: StringMap, key: string)
    requires i < |lines| && GoodKeys(m) && (forall k :: k in done ==> k in m)
    requires key in m && key !in done
    ensures Matches(PartlyEdited(lines, i, done, m), key) <==> IsFor(lines[i], key)
  {
    hide Join, Marked, IsFor, IsFirstFor;
    var k := KeyOf(lines[i]);
    MarkedParts(lines[i]);
    if k in done && IsFirstFor(lines, i, k) {
      JoinedNotMarked(k, m[k]);
      assert !IsFor(lines[i], key) by { ForItsKey(lines[i], key); }
    }
  }

  lemma ForItsKey(line: string, key: string)
    ensures IsFor(line, key) ==> KeyOf(line) == key
  {
  }

  lemma {:induction false} FirstMatchIsFirst(lines: seq<string>, key: string, i: nat)
    requires i <= |lines|
    ensures var r := FirstMatch(lines, key, i);
      && (r < |lines| ==> Matches(lines[r], key))
      && forall j :: i <= j < r ==> !Matches(lines[j], key)
    decreases |lines| - i
  {
    hide Matches;
    if i < |lines| && !Matches(lines[i], key) {
      FirstMatchIsFirst(lines, key, i + 1);
    }
  }

  lemma PartlyFirst(r: seq<string>, lines: seq<string>, done: seq<string>, m: StringMap, key: string)
    requires GoodKeys(m) && (forall k :: k in done ==> k in m)
    requires key in m && key !in done && PartlyDone(r, lines, done, m)
    ensures var i := FirstMatch(r, key, 0);
      if Has(lines, key) then i < |lines| && IsFirstFor(lines, i, key) else i == |r|
  {
    hide Matches, IsFor, KeyOf, Join, Marked, GoodKeys, IsMarked, PartlyEdited;
    var n := |lines|;
    FirstMatchIsFirst(r, key, 0);
    forall j | 0 <= j < |r| ensures Matches(r[j], key) <==> j < n && IsFor(lines[j], key) {
      if j < n {
        PartlyMatches(lines, j, done, m, key);
      } else {
        var k := MissingKeys(lines, done)[j - n];
        GoodInMap(m, k);
        JoinedNotMarked(k, m[k]);
        NotMarkedNoMatch(r[j], key);
      }
    }
  }

  lemma GoodInMap(m: StringMap, key: string)
    requires GoodKeys(m) && key in m
    ensures GoodKey(key)
  {
  }

  lemma NotMarkedNoMatch(line: string, key: string)
    ensures !IsMarked(line) ==> !Matches(line, key)
  {
  }

  /** Handling one more key. */
  lemma PartlyStep(r: seq<string>, lines: seq<string>, done: seq<string>, m: StringMap, key: string)
    requires GoodKeys(m) && (forall k :: k in done ==> k in m)
    requires key in m && key !in done && PartlyDone(r, lines, done, m)
    ensures PartlyDone(Rewritten(r, key, m[key]), lines, done + [key], m)
  {
    hide Matches, IsFor, KeyOf, Join, Marked, GoodKeys, IsMarked, FirstMatch, Has;
    PartlyFirst(r, lines, done, m, key);
    assert (done + [key])[..|done|] == done;
    forall j | 0 <= j < |lines| ensures Rewritten(r, key, m[key])[j] == PartlyEdited(lines, j, done + [key], m) {
      PartlyEditedStep(lines, j, done, m, key);
    }
  }

  lemma PartlyEditedStep(lines: seq<string>, i: nat, done: seq<string>, m: StringMap, key: string)
    requires i < |lines| && (forall k :: k in done ==> k in m) && key in m && key !in done
    ensures PartlyEdited(lines, i, done + [key], m)
      == if IsFirstFor(lines, i, key) then Join(key, m[key]) else PartlyEdited(lines, i, done, m)
    ensures IsFirstFor(lines, i, key) ==> Has(lines, key) && forall j :: 0 <= j < |lines| && IsFirstFor(lines, j, key) ==> j == i
  {
    hide Join, Marked, KeyOf, IsCandidate;
  }

  lemma {:induction false} AllRewritten(lines: seq<string>, done: seq<string>, m: StringMap)
    requires GoodKeys(m) && (forall k :: k in done ==> k in m)
    requires forall i, j :: 0 <= i < j < |done| ==> done[i] != done[j]
    ensures PartlyDone(RewrittenAll(MarkedAll(lines), done, m), lines, done, m)
  {
    hide GoodKeys, Marked, Rewritten;
    if done != [] {
      var last := |done| - 1;
      AllRewritten(lines, done[..last], m);
      PartlyStep(RewrittenAll(MarkedAll(lines), done[..last], m), lines, done[..last], m, done[last]);
      assert done[..last] + [done[last]] == done;
    }
  }

  /** The edit, line by line: values are replaced or commented out, the rest stays where it was. */
  lemma EditedLines(lines: seq<string>, keys: seq<string>, m: StringMap)
    requires GoodKeys(m) && Enumerates(keys, m)
    ensures var r, missing, n := Edited(lines, keys, m), MissingKeys(lines, keys), |lines|;
      && |r| == n + |missing|
      && (forall i :: 0 <= i < n ==> r[i] == EditedLine(lines, i, m))
      && forall i :: n <= i < |r| ==> missing[i - n] in m && r[i] == Join(missing[i - n], m[missing[i - n]])
  {
    hide GoodKeys, RewrittenAll, MissingKeys, Join, EditedLine, PartlyEdited, Unmarked;
    AllRewritten(lines, keys, m);
    var r, missing, n := RewrittenAll(MarkedAll(lines), keys, m), MissingKeys(lines, keys), |lines|;
    forall i | 0 <= i < n ensures Unmarked(r[i]) == EditedLine(lines, i, m) {
      UnmarkedPart(lines, i, keys, m);
    }
    forall i | n <= i < |r| ensures missing[i - n] in m && Unmarked(r[i]) == Join(missing[i - n], m[missing[i - n]]) {
      var k := missing[i - n];
      GoodInMap(m, k);
      JoinedNotMarked(k, m[k]);
      UnmarkedSame(r[i]);
    }
  }

  /** In their own terms: lines without a value stay, a value whose line is not the first for a key of the map is
      commented out with one hash, or stays so, and the others get the new value. */
  lemma EditedMeans(lines: seq<string>, keys: seq<string>, m: StringMap, i: nat)
    requires GoodKeys(m) && Enumerates(keys, m) && i < |lines|
    ensures i < |Edited(lines, keys, m)|
    ensures var line, edited := lines[i], Edited(lines, keys, m)[i];
      if !Valued(line) && !CommentedOut(line) then edited == line
      else
        var key := Split(if line[0] == '#' then line[1..] else line).key;
        if key in m && IsFirstFor(lines, i, key) then edited == Join(key, m[key])
        else edited == if line[0] == '#' then line else "#" + line
  {
    hide GoodKeys, Edited, Join, Split, IsFirstFor, Valued, CommentedOut;
    EditedLines(lines, keys, m);
    ValuedIff(lines[i]);
    CommentedOutIff(lines[i]);
    if CommentedOut(lines[i]) {
      assert lines[i] == "#" + lines[i][1..];
    }
  }

  lemma UnmarkedSame(line: string)
    ensures !IsMarked(line) ==> Unmarked(line) == line
  {
  }

  lemma UnmarkedPart(lines: seq<string>, i: nat, keys: seq<string>, m: StringMap)
    requires GoodKeys(m) && Enumerates(keys, m) && i < |lines|
    ensures Unmarked(PartlyEdited(lines, i, keys, m)) == EditedLine(lines, i, m)
  {
    hide Join, Marked, KeyOf, IsCandidate, Content;
    MarkedParts(lines[i]);
    MarkedOnlyCandidates(lines[i]);
    var key := KeyOf(lines[i]);
    if key in m {
      JoinedNotMarked(key, m[key]);
    }
  }

  lemma MarkedOnlyCandidates(line: string)
    ensures !IsCandidate(line) ==> Marked(line) == line
  {
  }

  // ----- reading the edited lines

  /** The key that the edit writes at line i. */
  function Slot(lines: seq<string>, missing: seq<string>, m: StringMap, i: nat): Option<string>
    requires i < |lines| + |missing|
  {
    if i >= |lines| then Some(missing[i - |lines|])
    else
      var key := KeyOf(lines[i]);
      if key in m && IsFirstFor(lines, i, key) then Some(key) else None
  }

  lemma {:induction false} FirstForExists(lines: seq<string>, j: nat, key: string) returns (i: nat)
    requires j < |lines| && IsFor(lines[j], key)
    ensures i <= j && IsFirstFor(lines, i, key)
  {
    if l :| 0 <= l < j && IsFor(lines[l], key) {
      i := FirstForExists(lines, l, key);
    } else {
      i := j;
    }
  }

  /** Each key of the map gets exactly one line. */
  lemma SlotsAreDistinct(lines: seq<string>, keys: seq<string>, m: StringMap)
    requires Enumerates(keys, m)
    ensures var missing := MissingKeys(lines, keys); var n := |lines| + |missing|;
      && (forall i, j :: 0 <= i < j < n && Slot(lines, missing, m, i).Some?
            ==> Slot(lines, missing, m, i) != Slot(lines, missing, m, j))
      && (forall i :: 0 <= i < n && Slot(lines, missing, m, i).Some? ==> Slot(lines, missing, m, i).value in m)
  {
    hide IsFor, KeyOf;
    MissingKeysAre(lines, keys);
    var missing := MissingKeys(lines, keys);
    forall i, j | 0 <= i < j < |lines| + |missing| && Slot(lines, missing, m, i).Some?
      ensures Slot(lines, missing, m, i) != Slot(lines, missing, m, j)
    {
    }
  }

  lemma SlotExists(lines: seq<string>, keys: seq<string>, m: StringMap, key: string) returns (i: nat)
    requires Enumerates(keys, m) && key in m
    ensures i < |lines| + |MissingKeys(lines, keys)|
    ensures Slot(lines, MissingKeys(lines, keys), m, i) == Some(key)
  {
    hide IsFor, KeyOf;
    MissingKeysAre(lines, keys);
    var missing := MissingKeys(lines, keys);
    if Has(lines, key) {
      var j: nat :| j < |lines| && IsFor(lines[j], key);
      i := FirstForExists(lines, j, key);
      ForItsKey(lines[i], key);
    } else {
      var j: nat :| j < |missing| && missing[j] == key;
      i := |lines| + j;
    }
  }

  /** A line keeps its value when more text follows. */
  lemma ValuedPrefix(s: string, t: string)
    ensures Valued(s) ==> Valued(s + t)
  {
    FirstNotOfSum(s, t, NOT_LETTERS);
    FirstOfSum(s, t, {'#'});
  }

  lemma NoItem(line: string)
    ensures !Valued(line) ==> ItemOf(line) == None
  {
    hide Valued, Split;
    var trimmed := TrimRight(line, {'\r'});
    TrimRightPrefix(line, {'\r'});
    ValuedPrefix(trimmed, line[|trimmed|..]);
    assert trimmed + line[|trimmed|..] == line;
  }

  lemma CommentNotValued(s: string)
    ensures !Valued("#" + s)
  {
  }

  lemma ItemOfJoined(key: string, value: string)
    requires GoodKey(key)
    ensures ItemOf(Join(key, value)) == Some(Item(key, Recovered(value)))
  {
    hide Join, Split, Valued, TrimRight, Recovered;
    JoinedNotMarked(key, value);
    SplitJoined(key, value);
  }

  lemma ItemOfEdited(lines: seq<string>, i: nat, m: StringMap)
    requires GoodKeys(m) && i < |lines|
    ensures ItemOf(EditedLine(lines, i, m))
      == match Slot(lines, [], m, i) case None => None case Some(k) => Some(Item(k, Recovered(m[k])))
  {
    hide ItemOf, Join, Valued, CommentedOut, KeyOf, Content, Recovered;
    var key := KeyOf(lines[i]);
    if key in m {
      ItemOfJoined(key, m[key]);
    }
    CommentNotValued(Content(lines[i]));
    NoItem("#" + Content(lines[i]));
    NoItem(lines[i]);
  }

  /** The items of lines that each hold one key of a map, or nothing. */
  ghost predicate Holds(r: seq<string>, slots: seq<Option<string>>, v: StringMap) {
    && |r| == |slots|
    && (forall i :: 0 <= i < |r| ==>
          match slots[i] case None => ItemOf(r[i]) == None case Some(k) => k in v && ItemOf(r[i]) == Some(Item(k, v[k])))
    && forall i, j :: 0 <= i < j < |r| && slots[i].Some? ==> slots[i] != slots[j]
  }

  lemma {:induction false} ReadHeld(r: seq<string>, slots: seq<Option<string>>, v: StringMap)
    requires Holds(r, slots, v)
    ensures forall k :: k in Read(map[], r) <==> Some(k) in slots
    ensures forall k :: k in Read(map[], r) ==> k in v && Read(map[], r)[k] == v[k]
  {
    hide ItemOf;
    if r != [] {
      var last := |r| - 1;
      ReadHeld(r[..last], slots[..last], v);
      assert slots == slots[..last] + [slots[last]];
    }
  }

  function RecoveredAll(m: StringMap): StringMap {
    map k | k in m :: Recovered(m[k])
  }

  /** What is read after an edit: the keys of the map and no others, each with its recovered value. */
  lemma ReadEdited(lines: seq<string>, keys: seq<string>, m: StringMap)
    requires GoodKeys(m) && Enumerates(keys, m)
    ensures Read(map[], Edited(lines, keys, m)) == RecoveredAll(m)
  {
    hide Edited, EditedLine, MissingKeys, Slot, Join, ItemOf, GoodKeys, Read, Recovered;
    var r, missing, n := Edited(lines, keys, m), MissingKeys(lines, keys), |lines|;
    EditedLines(lines, keys, m);
    var slots := seq(|r|, i requires 0 <= i < |r| => Slot(lines, missing, m, i));
    SlotsAreDistinct(lines, keys, m);
    forall i | 0 <= i < |r|
      ensures match slots[i] case None => ItemOf(r[i]) == None
                             case Some(k) => ItemOf(r[i]) == Some(Item(k, Recovered(m[k])))
    {
      ItemOfSlot(lines, keys, m, i);
    }
    ReadHeld(r, slots, RecoveredAll(m));
    forall k | k in m ensures Some(k) in slots {
      var i := SlotExists(lines, keys, m, k);
      assert slots[i] == Some(k);
    }
  }

  lemma ItemOfSlot(lines: seq<string>, keys: seq<string>, m: StringMap, i: nat)
    requires GoodKeys(m) && Enumerates(keys, m) && i < |Edited(lines, keys, m)|
    ensures i < |lines| + |MissingKeys(lines, keys)|
    ensures var slot, item := Slot(lines, MissingKeys(lines, keys), m, i), ItemOf(Edited(lines, keys, m)[i]);
      match slot case None => item == None case Some(k) => k in m && item == Some(Item(k, Recovered(m[k])))
  {
    hide Edited, EditedLine, MissingKeys, Join, ItemOf, GoodKeys, Recovered;
    EditedLines(lines, keys, m);
    if i < |lines| {
      ItemOfEdited(lines, i, m);
    } else {
      var k, line := MissingKeys(lines, keys)[i - |lines|], Edited(lines, keys, m)[i];
      assert k in m && line == Join(k, m[k]);
      GoodInMap(m, k);
      ItemOfJoined(k, m[k]);
    }
  }

  ghost predicate AllTransparent(m: StringMap) {
    forall k :: k in m ==> Transparent(m[k])
  }

  /** Reading an edited file gives the map exactly when every value is transparent. */
  lemma EditThenRead(lines: seq<string>, keys: seq<string>, m: StringMap)
    requires GoodKeys(m) && Enumerates(keys, m)
    ensures Read(map[], Edited(lines, keys, m)) == m <==> AllTransparent(m)
  {
    hide Edited, Read, Transparent, Recovered, GoodKeys, Enumerates;
    ReadEdited(lines, keys, m);
    forall k | k in m ensures RecoveredAll(m)[k] == m[k] <==> Transparent(m[k]) {
      RecoveredIffTransparent(m[k]);
    }
  }

  // ----- a second edit

  lemma KeyOfJoined(key: string, value: string)
    requires GoodKey(key)
    ensures forall k :: IsFor(Join(key, value), k) <==> k == key
    ensures KeyOf(Join(key, value)) == key && IsCandidate(Join(key, value))
  {
    hide Join, Split, Valued, TrimRight, Recovered;
    JoinedNotMarked(key, value);
    SplitJoined(key, value);
  }

  lemma KeyOfComment(line: string)
    requires IsCandidate(line)
    ensures Content("#" + Content(line)) == Content(line)
    ensures forall k :: IsFor("#" + Content(line), k) ==> IsFor(line, k)
  {
    hide Split;
    CommentNotValued(Content(line));
    assert ("#" + Content(line))[1..] == Content(line);
  }

  /** The line for a key is also the first such line after the edit. */
  lemma ForEdited(lines: seq<string>, i: nat, m: StringMap, key: string)
    requires GoodKeys(m) && key in m && i < |lines|
    ensures IsFirstFor(lines, i, key) ==> IsFor(EditedLine(lines, i, m), key)
    ensures IsFor(EditedLine(lines, i, m), key) ==> IsFor(lines[i], key)
  {
    hide Join, IsCandidate, KeyOf, Content;
    var k := KeyOf(lines[i]);
    if k in m {
      KeyOfJoined(k, m[k]);
    }
    if IsCandidate(lines[i]) {
      KeyOfComment(lines[i]);
    }
  }

  /** The lines for a key after the edit: its own, or comments that were for it before. */
  lemma ForOutput(lines: seq<string>, keys: seq<string>, m: StringMap, i: nat, key: string)
    requires GoodKeys(m) && Enumerates(keys, m) && key in m && i < |lines| + |MissingKeys(lines, keys)|
    ensures i < |Edited(lines, keys, m)|
    ensures Slot(lines, MissingKeys(lines, keys), m, i) == Some(key) ==> IsFor(Edited(lines, keys, m)[i], key)
    ensures IsFor(Edited(lines, keys, m)[i], key) ==>
      if i < |lines| then IsFor(lines[i], key) else MissingKeys(lines, keys)[i - |lines|] == key
  {
    hide Edited, EditedLine, MissingKeys, GoodKeys, IsFor, Join, KeyOf;
    EditedLines(lines, keys, m);
    if i < |lines| {
      ForEdited(lines, i, m, key);
    } else {
      var k, line := MissingKeys(lines, keys)[i - |lines|], Edited(lines, keys, m)[i];
      assert k in m && line == Join(k, m[k]);
      GoodInMap(m, k);
      KeyOfJoined(k, m[k]);
    }
  }

  lemma SlotAgain(lines: seq<string>, keys: seq<string>, m: StringMap, i: nat, key: string)
    requires GoodKeys(m) && Enumerates(keys, m) && key in m && i < |lines| + |MissingKeys(lines, keys)|
    requires Slot(lines, MissingKeys(lines, keys), m, i) == Some(key)
    ensures i < |Edited(lines, keys, m)| && IsFirstFor(Edited(lines, keys, m), i, key)
  {
    hide Edited, EditedLine, MissingKeys, GoodKeys, IsFor, Join, KeyOf;
    var r, missing := Edited(lines, keys, m), MissingKeys(lines, keys);
    ForOutput(lines, keys, m, i, key);
    MissingKeysAre(lines, keys);
    forall j | 0 <= j < i ensures !IsFor(r[j], key) {
      ForOutput(lines, keys, m, j, key);
    }
  }

  /** A line commented out is not the first one for its key. */
  lemma CommentAgain(lines: seq<string>, keys: seq<string>, m: StringMap, i: nat, key: string)
    requires GoodKeys(m) && Enumerates(keys, m) && key in m && i < |lines|
    requires Slot(lines, MissingKeys(lines, keys), m, i) == None
    ensures i < |Edited(lines, keys, m)| && !IsFirstFor(Edited(lines, keys, m), i, key)
  {
    hide Edited, EditedLine, MissingKeys, GoodKeys, Join, KeyOf, IsCandidate;
    ForOutput(lines, keys, m, i, key);
    if IsFor(lines[i], key) {
      var f := FirstForExists(lines, i, key);
      ForOutput(lines, keys, m, f, key);
    }
  }

  lemma EditedAgain(lines: seq<string>, keys: seq<string>, m: StringMap, i: nat)
    requires GoodKeys(m) && Enumerates(keys, m) && i < |Edited(lines, keys, m)|
    ensures EditedLine(Edited(lines, keys, m), i, m) == Edited(lines, keys, m)[i]
  {
    hide Edited, MissingKeys, GoodKeys, Join, IsCandidate, IsFirstFor, KeyOf, Content;
    var r, missing, n := Edited(lines, keys, m), MissingKeys(lines, keys), |lines|;
    EditedLines(lines, keys, m);
    match Slot(lines, missing, m, i)
    case Some(k) =>
      GoodInMap(m, if i < n then k else missing[i - n]);
      SlotAgain(lines, keys, m, i, k);
      KeyOfJoined(k, m[k]);
    case None =>
      var key := KeyOf(r[i]);
      if key in m {
        CommentAgain(lines, keys, m, i, key);
      }
      if IsCandidate(lines[i]) {
        KeyOfComment(lines[i]);
        NotFirst(lines, i);
      }
  }

  lemma NotFirst(lines: seq<string>, i: nat)
    requires i < |lines|
    ensures IsFirstFor(lines, i, KeyOf(lines[i])) ==> IsCandidate(lines[i])
  {
  }

  lemma {:induction false} NoneMissing(lines: seq<string>, keys: seq<string>)
    requires forall k :: k in keys ==> Has(lines, k)
    ensures MissingKeys(lines, keys) == []
  {
    if keys != [] {
      NoneMissing(lines, keys[..|keys| - 1]);
    }
  }

  /** A second edit changes nothing. */
  lemma EditTwice(lines: seq<string>, keys: seq<string>, m: StringMap)
    requires GoodKeys(m) && Enumerates(keys, m)
    ensures Edited(Edited(lines, keys, m), keys, m) == Edited(lines, keys, m)
  {
    hide Edited, EditedLine, MissingKeys, GoodKeys, IsFor, Slot;
    var r := Edited(lines, keys, m);
    EditedLines(lines, keys, m);
    EditedLines(r, keys, m);
    forall k | k in m ensures Has(r, k) {
      var i := SlotExists(lines, keys, m, k);
      ForOutput(lines, keys, m, i, k);
    }
    NoneMissing(r, keys);
    forall i | 0 <= i < |r| ensures EditedLine(r, i, m) == r[i] {
      EditedAgain(lines, keys, m, i);
    }
  }

  // ----- whole files

  function EditedText(text: string, keys: seq<string>, m: StringMap): string
    requires forall k :: k in keys ==> k in m
  {
    Text(Edited(Lines(text), keys, m))
  }

  predicate OneLine(s: string) {
    forall i :: 0 <= i < |s| ==> s[i] != '\n'
  }

  predicate OneLineEach(lines: seq<string>) {
    forall i :: 0 <= i < |lines| ==> OneLine(lines[i])
  }

  ghost predicate OneLineValues(m: StringMap) {
    forall k :: k in m ==> OneLine(m[k])
  }

  lemma {:induction false} LinesAreOneLine(text: string)
    ensures OneLineEach(Lines(text))
    decreases |text|
  {
    if text != "" {
      var eol := FindFirstOf(text, {'\n'});
      FirstOf(text, {'\n'});
      LinesAreOneLine(if eol == |text| then "" else text[eol + 1..]);
    }
  }

  lemma {:induction false} LinesOfText(lines: seq<string>)
    requires OneLineEach(lines)
    ensures Lines(Text(lines)) == lines
  {
    if lines != [] {
      var text, rest := Text(lines), Text(lines[1..]);
      var eol := |lines[0]|;
      assert text[..eol] == lines[0] && text[eol + 1..] == rest;
      assert OneLine(lines[0]);
      assert forall i :: 0 <= i < eol ==> text[i] == lines[0][i];
      FindAtStart(text, {'\n'}, eol);
      LinesOfText(lines[1..]);
      assert lines == [lines[0]] + lines[1..];
    }
  }

  lemma TrimsAreOneLine(s: string, cs: set<char>)
    requires OneLine(s)
    ensures OneLine(TrimLeft(s, cs)) && OneLine(TrimRight(s, cs))
  {
    TrimRightPrefix(s, cs);
  }

  lemma SplitIsOneLine(line: string)
    requires OneLine(line)
    ensures OneLine(Split(line).value)
  {
    hide TrimRight, TrimLeft, Find, OneLine, Unquote, Tail;
    var start := FindFirstNotOf(line, SEPARATORS);
    if start < |line| {
      var key := line[start..start + FindFirstOf(line[start..], SEPARATORS)];
      var pos := Find(line, key) + |key|;
      var value := TrimLeft(Tail(line, pos), SEPARATORS);
      PartsAreOneLine(line, pos);
      TrimsAreOneLine(Tail(line, pos), SEPARATORS);
      TrimsAreOneLine(value, WS);
      PartsAreOneLine(TrimRight(value, WS), 0);
    } else {
      PartsAreOneLine("", 0);
    }
  }

  lemma PartsAreOneLine(s: string, pos: nat)
    requires s == "" || OneLine(s)
    ensures OneLine("") && OneLine(Tail(s, pos)) && OneLine(Unquote(s))
  {
  }

  lemma {:induction false} ReadIsOneLine(lines: seq<string>)
    requires OneLineEach(lines)
    ensures OneLineValues(Read(map[], lines))
  {
    hide Split, Valued, TrimRight;
    if lines != [] {
      var line := lines[|lines| - 1];
      ReadIsOneLine(lines[..|lines| - 1]);
      assert OneLine(line);
      TrimsAreOneLine(line, {'\r'});
      SplitIsOneLine(TrimRight(line, {'\r'}));
    }
  }

  lemma JoinIsOneLine(key: string, value: string)
    requires IsToken(key) && OneLine(value)
    ensures OneLine(Join(key, value))
  {
    hide TrimRight, TrimLeft, FindFirstOf;
    var line := key + " " + Quote(value);
    assert OneLine(line);
    TrimsAreOneLine(line, WS);
    TrimsAreOneLine(TrimRight(line, WS), WS);
  }

  /** The lines that an edit writes for the map are whole lines. */
  ghost predicate OneLineJoins(m: StringMap) {
    forall k :: k in m ==> OneLine(Join(k, m[k]))
  }

  lemma JoinsAreOneLine(m: StringMap)
    requires GoodKeys(m) && OneLineValues(m)
    ensures OneLineJoins(m)
  {
    hide Join, OneLine, IsToken;
    forall k | k in m ensures OneLine(Join(k, m[k])) {
      JoinIsOneLine(k, m[k]);
    }
  }

  lemma EditedIsOneLine(lines: seq<string>, keys: seq<string>, m: StringMap)
    requires (forall k :: k in keys ==> k in m) && OneLineJoins(m) && OneLineEach(lines)
    ensures OneLineEach(Edited(lines, keys, m))
  {
    hide RewrittenAll, OneLine;
    RewrittenIsOneLine(lines, keys, m);
    var r := RewrittenAll(MarkedAll(lines), keys, m);
    forall i | 0 <= i < |r| ensures OneLine(Unmarked(r[i])) {
      MarksAreOneLine(r[i]);
    }
  }

  lemma {:induction false} RewrittenIsOneLine(lines: seq<string>, keys: seq<string>, m: StringMap)
    requires (forall k :: k in keys ==> k in m) && OneLineJoins(m) && OneLineEach(lines)
    ensures OneLineEach(RewrittenAll(MarkedAll(lines), keys, m))
  {
    hide OneLine, Join, Marked, FirstMatch;
    if keys == [] {
      forall i | 0 <= i < |lines| ensures OneLine(Marked(lines[i])) {
        MarksAreOneLine(lines[i]);
      }
    } else {
      RewrittenIsOneLine(lines, keys[..|keys| - 1], m);
    }
  }

  lemma MarksAreOneLine(line: string)
    requires OneLine(line)
    ensures OneLine(Marked(line)) && OneLine(Unmarked(line))
  {
    hide Valued;
  }

  // ----- what can be read back at all

  /** Keys without a carriage return at either end, where joining would trim it off. */
  ghost predicate PlainEnds(m: StringMap) {
    forall k :: k in m && k != "" ==> k[0] != '\r' && k[|k| - 1] != '\r'
  }

  lemma FirstTokenOf(line: string)
    requires OneLine(line)
    ensures var k := Split(line).key; forall i :: 0 <= i < |k| ==> k[i] !in SEPARATORS && k[i] != '\n'
  {
    hide TrimRight, TrimLeft, Find, Unquote, Tail;
    var start := FindFirstNotOf(line, SEPARATORS);
    FirstOf(line[start..], SEPARATORS);
    assert forall i :: 0 <= i < |line[start..]| ==> line[start..][i] == line[start + i];
  }

  /** Every key that is read from a file is a token. */
  lemma {:induction false} ReadTokens(lines: seq<string>)
    requires OneLineEach(lines)
    ensures forall k :: k in Read(map[], lines) ==>
      k != "" && forall i :: 0 <= i < |k| ==> k[i] !in SEPARATORS && k[i] != '\n'
  {
    hide Split, Valued, TrimRight;
    if lines != [] {
      var line := lines[|lines| - 1];
      ReadTokens(lines[..|lines| - 1]);
      assert OneLine(line);
      TrimsAreOneLine(line, {'\r'});
      FirstTokenOf(TrimRight(line, {'\r'}));
    }
  }

  /** Whatever the keys are, every line in the course of an edit is marked, or holds no value, or was joined. */
  ghost predicate Accounted(line: string, m: StringMap) {
    IsMarked(line) || !Valued(line) || exists k :: k in m && line == Join(k, m[k])
  }

  lemma {:induction false} AllAccounted(lines: seq<string>, keys: seq<string>, m: StringMap)
    requires forall k :: k in keys ==> k in m
    ensures forall line :: line in RewrittenAll(MarkedAll(lines), keys, m) ==> Accounted(line, m)
  {
    hide Valued, CommentedOut, Join, IsMarked, FirstMatch;
    if keys == [] {
      forall line | line in MarkedAll(lines) ensures Accounted(line, m) {
        var i :| 0 <= i < |lines| && line == Marked(lines[i]);
        MarkedOrNot(lines[i]);
      }
    } else {
      AllAccounted(lines, keys[..|keys| - 1], m);
    }
  }

  lemma MarkedOrNot(line: string)
    ensures IsMarked(Marked(line)) || !Valued(Marked(line))
  {
    MarkedParts(line);
    hide Valued, CommentedOut;
  }

  /** So an item that is read after an edit comes from a joined line that does not look like a mark. */
  lemma ItemIsJoined(lines: seq<string>, keys: seq<string>, m: StringMap, i: nat) returns (k: string)
    requires (forall k :: k in keys ==> k in m) && i < |Edited(lines, keys, m)| && ItemOf(Edited(lines, keys, m)[i]).Some?
    ensures var line := Edited(lines, keys, m)[i]; k in m && line == Join(k, m[k]) && !IsMarked(line)
  {
    hide RewrittenAll, Valued, Join, ItemOf;
    AllAccounted(lines, keys, m);
    var r := RewrittenAll(MarkedAll(lines), keys, m);
    var line := r[i];
    assert line in r && Accounted(line, m);
    CommentNotValued(line[if line == "" then 0 else 1..]);
    NoItem(Unmarked(line));
    k :| k in m && line == Join(k, m[k]);
  }

  lemma JoinEnds(key: string, value: string)
    requires IsToken(key)
    ensures var line := Join(key, value); line != "" && line[0] == key[0] && TrimRight(line, {'\r'}) == line
  {
    hide Join, Quote, TrimRight;
    JoinedParts(key, value);
    assert key[|key| - 1] !in SEPARATORS && key[|key| - 1] != '\n';
  }

  /** If all keys are tokens then those that are read back do not look like comments or marks. */
  lemma JoinedKeyIsGood(key: string, value: string)
    requires IsToken(key) && !IsMarked(Join(key, value)) && ItemOf(Join(key, value)).Some?
    ensures ItemOf(Join(key, value)).value.key == key && GoodKey(key)
  {
    hide Split, Join, TrimRight, Valued, Recovered;
    JoinEnds(key, value);
    SplitJoined(key, value);
    HashFirst(Join(key, value));
  }

  lemma HashFirst(line: string)
    ensures Valued(line) ==> line != "" && line[0] != '#'
  {
  }

  lemma {:induction false} ReadKeyFrom(lines: seq<string>, k: string) returns (i: nat)
    requires k in Read(map[], lines)
    ensures i < |lines| && ItemOf(lines[i]).Some? && ItemOf(lines[i]).value.key == k
  {
    hide ItemOf;
    var last := |lines| - 1;
    i := last;
    if k in Read(map[], lines[..last]) {
      i := ReadKeyFrom(lines[..last], k);
    }
  }

  /** A map that is read back after an edit had good keys and values of one line. */
  lemma ReadBackMeansGood(text: string, keys: seq<string>, m: StringMap)
    requires Enumerates(keys, m) && PlainEnds(m) && Read(map[], Lines(EditedText(text, keys, m))) == m
    ensures GoodKeys(m) && OneLineValues(m)
  {
    hide Read, Edited, Lines, Text, OneLineEach, OneLineValues, Join, ItemOf, OneLine, GoodKey;
    var lines := Lines(text);
    LinesAreOneLine(text);
    LinesAreOneLine(EditedText(text, keys, m));
    ReadIsOneLine(Lines(EditedText(text, keys, m)));
    ReadTokens(Lines(EditedText(text, keys, m)));
    assert forall k :: k in m ==> IsToken(k);
    TokensAreOneLine(m);
    EditedIsOneLine(lines, keys, m);
    LinesOfText(Edited(lines, keys, m));
    forall k | k in m ensures GoodKey(k) {
      var i := ReadKeyFrom(Edited(lines, keys, m), k);
      var k' := ItemIsJoined(lines, keys, m, i);
      JoinedKeyIsGood(k', m[k']);
    }
  }

  lemma TokensAreOneLine(m: StringMap)
    requires OneLineValues(m) && forall k :: k in m ==> IsToken(k)
    ensures OneLineJoins(m)
  {
    hide Join, OneLine, IsToken;
    forall k | k in m ensures OneLine(Join(k, m[k])) {
      JoinIsOneLine(k, m[k]);
    }
  }

  // ----- whole files, read again and edited again

  /** Re-reading an edited file gives the map exactly when every key is one token that does not look like a
      comment or a mark, and every value is transparent and of one line. */
  lemma EditFileThenRead(text: string, keys: seq<string>, m: StringMap)
    requires Enumerates(keys, m) && PlainEnds(m)
    ensures Read(map[], Lines(EditedText(text, keys, m))) == m <==> GoodKeys(m) && AllTransparent(m) && OneLineValues(m)
  {
    hide Edited, Read, GoodKeys, Lines, Text, OneLineEach, OneLineValues, OneLineJoins, AllTransparent;
    var lines := Lines(text);
    LinesAreOneLine(text);
    if Read(map[], Lines(EditedText(text, keys, m))) == m {
      ReadBackMeansGood(text, keys, m);
    }
    if GoodKeys(m) && OneLineValues(m) {
      JoinsAreOneLine(m);
      EditedIsOneLine(lines, keys, m);
      LinesOfText(Edited(lines, keys, m));
      EditThenRead(lines, keys, m);
    }
  }

  function Eols(s: string): nat
    decreases |s|
  {
    var eol := FindFirstOf(s, {'\n'});
    if eol == |s| then 0 else 1 + Eols(s[eol + 1..])
  }

  function EolsOfAll(lines: seq<string>): nat {
    if lines == [] then 0 else Eols(lines[0]) + EolsOfAll(lines[1..])
  }

  lemma {:induction false} LinesCount(s: string, rest: string)
    ensures |Lines(s + "\n" + rest)| == Eols(s) + 1 + |Lines(rest)|
    decreases |s|
  {
    var eol := FindFirstOf(s, {'\n'});
    var t := s + "\n" + rest;
    FirstOf(s, {'\n'});
    assert forall i :: 0 <= i < eol ==> t[i] == s[i];
    assert eol < |s| ==> t[eol] == s[eol];
    FindAtStart(t, {'\n'}, eol);
    hide FindFirstOf;
    if eol == |s| {
      assert t[eol + 1..] == rest;
    } else {
      assert t[eol + 1..] == s[eol + 1..] + "\n" + rest;
      LinesCount(s[eol + 1..], rest);
    }
  }

  /** The lines of a written text: those of the list, and one more for each line end within them. */
  lemma {:induction false} TextCount(lines: seq<string>)
    ensures |Lines(Text(lines))| == |lines| + EolsOfAll(lines)
  {
    hide Eols, Lines;
    if lines == [] {
      NoLines();
    } else {
      TextCount(lines[1..]);
      LinesCount(lines[0], Text(lines[1..]));
    }
  }

  lemma {:induction false} NoEols(lines: seq<string>, i: nat)
    requires i < |lines| && EolsOfAll(lines) == 0
    ensures OneLine(lines[i])
  {
    hide OneLine, Eols;
    if i == 0 {
      NoEolIn(lines[0]);
    } else {
      NoEols(lines[1..], i - 1);
    }
  }

  lemma NoEolIn(s: string)
    ensures Eols(s) == 0 ==> OneLine(s)
  {
    FirstOf(s, {'\n'});
  }

  lemma {:induction false} EditedIsLonger(lines: seq<string>, keys: seq<string>, m: StringMap)
    requires forall k :: k in keys ==> k in m
    ensures |RewrittenAll(lines, keys, m)| >= |lines|
  {
    hide Join, FirstMatch;
    if keys != [] {
      EditedIsLonger(lines, keys[..|keys| - 1], m);
    }
  }

  /** If an edit leaves its own result alone then no line was added and there is no line end within a line. */
  lemma SameTextMeans(text: string, keys: seq<string>, m: StringMap)
    requires forall k :: k in keys ==> k in m
    requires EditedText(EditedText(text, keys, m), keys, m) == EditedText(text, keys, m)
    ensures var lines := Lines(EditedText(text, keys, m)); var r := Edited(lines, keys, m);
      |r| == |lines| && EolsOfAll(r) == 0
  {
    hide RewrittenAll, Lines, Text, MarkedAll, UnmarkedAll;
    var lines := Lines(EditedText(text, keys, m));
    TextCount(Edited(lines, keys, m));
    EditedSize(lines, keys, m);
  }

  lemma EditedSize(lines: seq<string>, keys: seq<string>, m: StringMap)
    requires forall k :: k in keys ==> k in m
    ensures |Edited(lines, keys, m)| == |RewrittenAll(MarkedAll(lines), keys, m)| >= |lines|
  {
    hide RewrittenAll;
    EditedIsLonger(MarkedAll(lines), keys, m);
  }

  /** Editing the file a second time changes nothing exactly when every line written for the map is one line. */
  lemma EditFileTwice(text: string, keys: seq<string>, m: StringMap)
    requires GoodKeys(m) && Enumerates(keys, m)
    ensures EditedText(EditedText(text, keys, m), keys, m) == EditedText(text, keys, m) <==> OneLineJoins(m)
  {
    hide Edited, GoodKeys, Lines, Text, OneLineEach, OneLine, Join, EolsOfAll, MissingKeys, Slot;
    LinesAreOneLine(text);
    if OneLineJoins(m) {
      EditedIsOneLine(Lines(text), keys, m);
      LinesOfText(Edited(Lines(text), keys, m));
      EditTwice(Lines(text), keys, m);
    }
    if EditedText(EditedText(text, keys, m), keys, m) == EditedText(text, keys, m) {
      SameTextMeans(text, keys, m);
      var lines := Lines(EditedText(text, keys, m));
      forall k | k in m ensures OneLine(Join(k, m[k])) {
        var i := JoinedLine(lines, keys, m, k);
        NoEols(Edited(lines, keys, m), i);
      }
    }
  }

  lemma JoinedLine(lines: seq<string>, keys: seq<string>, m: StringMap, key: string) returns (i: nat)
    requires GoodKeys(m) && Enumerates(keys, m) && key in m
    ensures i < |Edited(lines, keys, m)| && Edited(lines, keys, m)[i] == Join(key, m[key])
  {
    hide Edited, MissingKeys, Join, IsFor, KeyOf;
    i := SlotExists(lines, keys, m, key);
    EditedLines(lines, keys, m);
    SlotLine(lines, MissingKeys(lines, keys), m, i, key);
    var line := Edited(lines, keys, m)[i];
  }

  lemma SlotLine(lines: seq<string>, missing: seq<string>, m: StringMap, i: nat, key: string)
    requires i < |lines| + |missing| && key in m && Slot(lines, missing, m, i) == Some(key)
    ensures if i < |lines| then EditedLine(lines, i, m) == Join(key, m[key]) else missing[i - |lines|] == key
  {
    hide Join, KeyOf;
  }

  /** A key that is not one token is never found, and every edit adds its line again. */
  lemma NoTokenNoRest(text: string, keys: seq<string>, m: StringMap, key: string)
    requires Enumerates(keys, m) && key in m
    requires key == "" || exists i :: 0 <= i < |key| && key[i] in SEPARATORS
    ensures EditedText(EditedText(text, keys, m), keys, m) != EditedText(text, keys, m)
  {
    hide RewrittenAll, Lines, Text, Edited, SEPARATORS;
    var lines := Lines(EditedText(text, keys, m));
    var i :| 0 <= i < |keys| && keys[i] == key;
    assert keys[..i + 1][..i] == keys[..i];
    NeverFound(MarkedAll(lines), keys, m, i);
    EditedSize(lines, keys, m);
    if EditedText(EditedText(text, keys, m), keys, m) == EditedText(text, keys, m) {
      SameTextMeans(text, keys, m);
    }
  }

  lemma {:induction false} NeverFound(lines: seq<string>, keys: seq<string>, m: StringMap, i: nat)
    requires (forall k :: k in keys ==> k in m) && i < |keys|
    requires keys[i] == "" || exists j :: 0 <= j < |keys[i]| && keys[i][j] in SEPARATORS
    ensures |RewrittenAll(lines, keys, m)| > |lines|
  {
    hide Join, Matches, SEPARATORS;
    var last := |keys| - 1;
    if i == last {
      EditedIsLonger(lines, keys[..last], m);
      var before := RewrittenAll(lines, keys[..last], m);
      FirstMatchIsFirst(before, keys[last], 0);
      var f := FirstMatch(before, keys[last], 0);
      if f < |before| {
        NotAMatch(before[f], keys[last]);
      }
    } else {
      NeverFound(lines, keys[..last], m, i);
    }
  }

  lemma NotAMatch(line: string, key: string)
    requires key == "" || exists j :: 0 <= j < |key| && key[j] in SEPARATORS
    ensures !Matches(line, key)
  {
    if IsMarked(line) {
      var rest := line[1..];
      var start := FindFirstNotOf(rest, SEPARATORS);
      FirstOf(rest[start..], SEPARATORS);
      hide FindFirstOf, FindFirstNotOf;
    }
  }

  // ----- expanding percent-key-percent

  /** What comes before the first percent character that is not doubled, with one of each doubled pair left
      out, and the text from there on. */
  function Single(s: string): (r: (string, string))
    ensures r.1 == "" || r.1[0] == '%'
    ensures |r.0| + |r.1| <= |s|
    decreases |s|
  {
    var pos := FindFirstOf(s, {'%'});
    if pos == |s| then (s, "")
    else if pos + 1 < |s| && s[pos + 1] == '%' then
      var rest := Single(s[pos + 2..]);
      (s[..pos] + "%" + rest.0, rest.1)
    else (s[..pos], s[pos..])
  }

  /** The text with each key between percent characters replaced by its value, which is not looked at again. */
  function Expanded(s: string, m: StringMap): string
    decreases |s|
  {
    var (before, from) := Single(s);
    if from == "" then before
    else
      var close := 1 + FindFirstOf(from[1..], {'%'});
      if close == |from| then before + from
      else before + Replaced(from[..close + 1], m) + Expanded(from[close + 1..], m)
  }

  /** One key with its percent characters, left alone if it is not in the map. */
  function Replaced(token: string, m: StringMap): string
    requires |token| >= 2
  {
    var key := token[1..|token| - 1];
    if key in m then m[key] else token
  }

  function Escaped(s: string): string {
    if s == "" then "" else (if s[0] == '%' then "%%" else [s[0]]) + Escaped(s[1..])
  }

  lemma {:induction false} EscapedSum(s: string, t: string)
    ensures Escaped(s + t) == Escaped(s) + Escaped(t)
  {
    if s == "" {
      assert s + t == t;
    } else {
      var first := if s[0] == '%' then "%%" else [s[0]];
      assert (s + t)[1..] == s[1..] + t;
      EscapedSum(s[1..], t);
      Regrouped(first, Escaped(s[1..]), Escaped(t), "");
    }
  }

  lemma Regrouped(a: string, b: string, c: string, d: string)
    ensures a + (b + c + d) == (a + b + c) + d && a + (b + c) == a + b + c
  {
  }

  lemma {:induction false} NothingToEscape(s: string)
    requires FindFirstOf(s, {'%'}) == |s|
    ensures Escaped(s) == s
  {
    if s != "" {
      NothingToEscape(s[1..]);
    }
  }

  lemma SingleOfPair(a: string, b: string)
    requires FindFirstOf(a, {'%'}) == |a|
    ensures Single(a + "%%" + b) == (a + "%" + Single(b).0, Single(b).1)
  {
    FirstOf(a, {'%'});
    var s := a + "%%" + b;
    assert forall i :: 0 <= i < |a| ==> s[i] == a[i];
    FindAtStart(s, {'%'}, |a|);
    assert s[..|a|] == a && s[|a| + 2..] == b;
    hide FindFirstOf;
  }

  lemma FirstOfPrefix(s: string)
    ensures var a := s[..FindFirstOf(s, {'%'})]; FindFirstOf(a, {'%'}) == |a|
  {
    var a := s[..FindFirstOf(s, {'%'})];
    FirstOf(s, {'%'});
    FindAtStart(a, {'%'}, |a|);
  }

  lemma {:induction false} SingleEscaped(s: string)
    ensures Single(Escaped(s)) == (s, "")
    decreases |s|
  {
    var pos := FindFirstOf(s, {'%'});
    if pos == |s| {
      NothingToEscape(s);
    } else {
      var a, c := s[..pos], s[pos + 1..];
      FirstOfPrefix(s);
      hide FindFirstOf, Single, Escaped;
      assert s[pos] == '%' && s == a + "%" + c;
      SingleEscaped(c);
      EscapedParts(a, c);
      SingleOfPair(a, Escaped(c));
    }
  }

  lemma EscapedParts(a: string, c: string)
    requires FindFirstOf(a, {'%'}) == |a|
    ensures Escaped(a + "%" + c) == a + "%%" + Escaped(c)
  {
    NothingToEscape(a);
    EscapedSum(a + "%", c);
    EscapedSum(a, "%");
    assert Escaped("%") == "%%";
  }

  /** Doubling every percent character protects any text from being expanded. */
  lemma ExpandEscaped(s: string, m: StringMap)
    ensures Expanded(Escaped(s), m) == s
  {
    hide Single;
    SingleEscaped(s);
  }

  lemma SingleAtStart(a: string, rest: string)
    requires FindFirstOf(a, {'%'}) == |a| && (rest == "" || (rest[0] == '%' && !("%%" <= rest)))
    ensures Single(a + rest) == (a, rest)
  {
    FirstOfSum(a, rest, {'%'});
    hide FindFirstOf, Single;
    if rest == "" {
      assert a + rest == a;
      SingleNone(a);
    } else {
      FirstPercent(rest);
      assert (a + rest)[..|a|] == a && (a + rest)[|a|..] == rest;
      assert |a| + 1 < |a + rest| ==> (a + rest)[|a| + 1] == rest[1] && rest[..2] == [rest[0], rest[1]];
      SingleHere(a + rest, |a|);
    }
  }

  lemma FirstPercent(rest: string)
    requires rest != "" && rest[0] == '%'
    ensures FindFirstOf(rest, {'%'}) == 0
  {
  }

  /** A text with every percent character doubled, and then a single one or the end. */
  lemma {:induction false} SingleAfterEscaped(s: string, rest: string)
    requires rest == "" || (rest[0] == '%' && !("%%" <= rest))
    ensures Single(Escaped(s) + rest) == (s, rest)
    decreases |s|
  {
    var pos := FindFirstOf(s, {'%'});
    if pos == |s| {
      NothingToEscape(s);
      SingleAtStart(s, rest);
    } else {
      var a, c := s[..pos], s[pos + 1..];
      FirstOfPrefix(s);
      hide FindFirstOf, Single, Escaped;
      assert s[pos] == '%' && s == a + "%" + c;
      SingleAfterEscaped(c, rest);
      EscapedParts(a, c);
      Regrouped(a + "%%", Escaped(c), rest, "");
      SingleOfPair(a, Escaped(c) + rest);
    }
  }

  /** A key between two percent characters is replaced by its value if the map has it, and stays as it is
      otherwise; nothing else changes in front of it but that doubled percent characters are halved. */
  lemma ExpandKey(a: string, k: string, b: string, m: StringMap)
    requires k != "" && '%' !in k
    ensures Expanded(Escaped(a) + "%" + k + "%" + b, m)
      == a + (if k in m then m[k] else "%" + k + "%") + Expanded(b, m)
  {
    hide Escaped;
    var from := "%" + k + "%" + b;
    PercentParts(Escaped(a), k, b);
    SingleAfterEscaped(a, from);
    FindAtStart(from[1..], {'%'}, |k|);
    hide Single, FindFirstOf;
    ExpandedStep(Escaped(a) + from, m, |k| + 1);
  }

  lemma PercentParts(a: string, k: string, b: string)
    requires k != "" && '%' !in k
    ensures var from := "%" + k + "%" + b;
      && a + from == a + "%" + k + "%" + b && !("%%" <= from)
      && |from[1..]| > |k| && from[1..][|k|] == '%' && (forall i :: 0 <= i < |k| ==> from[1..][i] != '%')
      && from[..|k| + 2] == "%" + k + "%" && from[|k| + 2..] == b && ("%" + k + "%")[1..|k| + 1] == k
  {
    var from := "%" + k + "%" + b;
    assert from[1] == k[0];
    assert from[1..] == k + ("%" + b);
  }

  /** A single percent character with no other one after it stays as it is. */
  lemma ExpandLast(a: string, t: string, m: StringMap)
    requires '%' !in t
    ensures Expanded(Escaped(a) + "%" + t, m) == a + "%" + t
  {
    var from, s := "%" + t, Escaped(a) + "%" + t;
    assert s == Escaped(a) + from && (t != "" ==> from[1] == t[0]);
    SingleAfterEscaped(a, from);
    assert from[1..] == t;
    FindAtStart(t, {'%'}, |t|);
    hide Single, FindFirstOf, Escaped;
    ExpandedStep(s, m, |t| + 1);
    assert a + from == a + "%" + t;
  }

  /** Where the first percent character is, and what becomes of it. */
  lemma SingleNone(t: string)
    requires FindFirstOf(t, {'%'}) == |t|
    ensures Single(t) == (t, "")
  {
    hide FindFirstOf;
  }

  lemma SingleHere(t: string, f: nat)
    requires f == FindFirstOf(t, {'%'}) < |t| && !(f + 1 < |t| && t[f + 1] == '%')
    ensures Single(t) == (t[..f], t[f..])
  {
    hide FindFirstOf;
  }

  lemma SinglePair(t: string, f: nat)
    requires f == FindFirstOf(t, {'%'}) && f + 1 < |t| && t[f + 1] == '%'
    ensures var rest := Single(t[f + 2..]); Single(t) == (t[..f] + "%" + rest.0, rest.1)
  {
    hide FindFirstOf;
  }

  /** How far find_single() has got: the text before the start, what has been passed over, and what is left. */
  ghost predicate Seen(head: string, text: string, s: string, before: string, tail: string) {
    s == head + before + tail && Passed(text, before, tail)
  }

  /** The part of a text that is passed over, and what is left of it. */
  ghost predicate Passed(text: string, before: string, tail: string) {
    Single(text) == (before + Single(tail).0, Single(tail).1)
  }

  ghost predicate IsSingle(head: string, text: string, s: string, found: Option<nat>) {
    var (before, from) := Single(text);
    s == head + before + from && found == if from == "" then None else Some(|head| + |before|)
  }

  lemma SeenNothing(given: string, start: nat)
    requires start <= |given|
    ensures Seen(given[..start], given[start..], given, "", given[start..])
  {
    hide Single;
    var tail := given[start..];
    assert "" + Single(tail).0 == Single(tail).0 && given[..start] + "" + tail == given;
  }

  lemma SeenTail(head: string, text: string, s: string, before: string, tail: string)
    requires Seen(head, text, s, before, tail)
    ensures |s| == |head| + |before| + |tail| && s[|head| + |before|..] == tail
  {
    hide Single;
  }

  lemma SeenAll(head: string, text: string, s: string, before: string, tail: string)
    requires Seen(head, text, s, before, tail) && FindFirstOf(tail, {'%'}) == |tail|
    ensures IsSingle(head, text, s, None)
  {
    hide Single, FindFirstOf;
    PassedAll(text, before, tail);
    hide Passed;
    AllText(head, before, tail);
  }

  lemma PassedAll(text: string, before: string, tail: string)
    requires Passed(text, before, tail) && FindFirstOf(tail, {'%'}) == |tail|
    ensures Single(text) == (before + tail, "")
  {
    SingleNone(tail);
    hide Single, FindFirstOf;
  }

  lemma AllText(head: string, before: string, tail: string)
    ensures head + before + tail == head + (before + tail) + ""
  {
  }

  lemma SeenOne(head: string, text: string, s: string, before: string, tail: string, f: nat)
    requires Seen(head, text, s, before, tail) && f == FindFirstOf(tail, {'%'}) < |tail|
    requires !(f + 1 < |tail| && tail[f + 1] == '%')
    ensures IsSingle(head, text, s, Some(|head| + |before| + f))
  {
    hide Single, FindFirstOf, IsSingle, Passed, Seen;
    SeenParts(head, text, s, before, tail);
    PassedOne(text, before, tail, f);
    PrefixSize(before, tail, f);
    OneText(head, before, tail, f);
    SingleIs(head, text, s, before + tail[..f], tail[f..]);
  }

  lemma SeenParts(head: string, text: string, s: string, before: string, tail: string)
    requires Seen(head, text, s, before, tail)
    ensures s == head + before + tail && Passed(text, before, tail)
  {
    hide Passed;
  }

  lemma PrefixSize(before: string, tail: string, f: nat)
    requires f < |tail|
    ensures |before + tail[..f]| == |before| + f && tail[f..] != ""
  {
  }

  lemma SingleIs(head: string, text: string, s: string, before: string, from: string)
    requires Single(text) == (before, from) && from != "" && s == head + before + from
    ensures IsSingle(head, text, s, Some(|head| + |before|))
  {
    hide Single;
  }

  lemma PassedOne(text: string, before: string, tail: string, f: nat)
    requires Passed(text, before, tail) && f == FindFirstOf(tail, {'%'}) < |tail|
    requires !(f + 1 < |tail| && tail[f + 1] == '%')
    ensures Single(text) == (before + tail[..f], tail[f..])
  {
    SingleHere(tail, f);
    hide Single, FindFirstOf;
  }

  lemma OneText(head: string, before: string, tail: string, f: nat)
    requires f <= |tail|
    ensures head + before + tail == head + (before + tail[..f]) + tail[f..]
  {
    assert tail == tail[..f] + tail[f..];
    Regrouped(head, before, tail[..f], tail[f..]);
    Regrouped(head + before, tail[..f], tail[f..], "");
  }

  lemma SeenPair(head: string, text: string, s: string, before: string, tail: string, f: nat)
    requires Seen(head, text, s, before, tail) && f == FindFirstOf(tail, {'%'})
    requires f + 1 < |tail| && tail[f + 1] == '%'
    ensures var next := |head| + |before| + f;
      next + 1 < |s| && Seen(head, text, s[..next] + s[next + 1..], before + (tail[..f] + "%"), tail[f + 2..])
  {
    PassedPair(text, before, tail, f);
    hide FindFirstOf, Single, Passed;
    ErasedText(head, before, tail, f);
  }

  lemma PassedPair(text: string, before: string, tail: string, f: nat)
    requires Passed(text, before, tail) && f == FindFirstOf(tail, {'%'})
    requires f + 1 < |tail| && tail[f + 1] == '%'
    ensures Passed(text, before + (tail[..f] + "%"), tail[f + 2..])
  {
    SinglePair(tail, f);
    hide Single, FindFirstOf;
    PairText(before, tail[..f], Single(tail[f + 2..]).0);
  }

  lemma PairText(before: string, part: string, rest: string)
    ensures before + (part + "%" + rest) == before + (part + "%") + rest
  {
  }

  lemma ErasedText(head: string, before: string, tail: string, f: nat)
    requires f + 1 < |tail| && tail[f + 1] == '%'
    ensures var s, next := head + before + tail, |head| + |before| + f;
      s[..next] + s[next + 1..] == head + (before + (tail[..f] + "%")) + tail[f + 2..]
  {
    Erased(head + before, tail, f);
    Regrouped(head, before, tail[..f] + "%", "");
  }

  /** Erasing the first of two percent characters. */
  lemma Erased(a: string, t: string, f: nat)
    requires f + 1 < |t| && t[f + 1] == '%'
    ensures var s := a + t; s[..|a| + f] + s[|a| + f + 1..] == a + (t[..f] + "%") + t[f + 2..]
  {
  }

  /** find_single(): one of each doubled pair is erased on the way to a single percent character. */
  method FindSingle(given: string, start: nat) returns (s: string, found: Option<nat>)
    requires start <= |given|
    ensures IsSingle(given[..start], given[start..], s, found)
  {
    hide FindFirstOf, Seen, IsSingle;
    s := given;
    var pos := start;
    ghost var head, text := given[..start], given[start..];
    ghost var before, tail := "", text;
    SeenNothing(given, start);
    while true
      invariant Seen(head, text, s, before, tail) && pos == start + |before|
      decreases |tail|
    {
      SeenTail(head, text, s, before, tail);
      var next := pos + FindFirstOf(s[pos..], {'%'});
      ghost var f := next - pos;
      if next == |s| {
        SeenAll(head, text, s, before, tail);
        return s, None;
      }
      if next + 1 < |s| && s[next + 1] == '%' {
        SeenPair(head, text, s, before, tail, f);
        s := s[..next] + s[next + 1..];
        before, tail := before + (tail[..f] + "%"), tail[f + 2..];
        SeenTail(head, text, s, before, tail);
        if next + 1 == |s| {
          NothingSingle();
          SeenAll(head, text, s, before, tail);
          return s, None;
        }
        pos := next + 1;
      } else {
        SeenOne(head, text, s, before, tail, f);
        return s, Some(next);
      }
    }
  }

  lemma NothingSingle()
    ensures FindFirstOf("", {'%'}) == 0
  {
  }

  /** expand(): the value is edited from left to right. */
  method Expand(given: string, m: StringMap) returns (value: string)
    ensures value == Expanded(given, m)
  {
    hide Expanded;
    value := given;
    var end: nat := 0;
    assert given[..0] + Expanded(given[0..], m) == Expanded(given, m) by { assert given[0..] == given; }
    while end < |value|
      invariant end <= |value| && Expanded(given, m) == value[..end] + Expanded(value[end..], m)
      decreases |value| - end
    {
      var next;
      value, next := ExpandNext(value, end, m);
      if next == None {
        return;
      }
      end := next.value;
    }
    NothingExpanded(m);
    assert value[end..] == "" && value[..end] + "" == value;
  }

  /** One turn of the loop of expand_(), with the position to go on from. */
  method ExpandNext(given: string, from: nat, m: StringMap) returns (value: string, end: Option<nat>)
    requires from <= |given|
    ensures end == None ==> value == given[..from] + Expanded(given[from..], m)
    ensures end.Some? ==> end.value <= |value| && |value| - end.value < |given| - from
    ensures end.Some? ==> value[..end.value] + Expanded(value[end.value..], m) == given[..from] + Expanded(given[from..], m)
  {
    hide Single, FindFirstOf, Replaced, Expanded;
    var found;
    value, found := FindSingle(given, from);
    ghost var head, parts := given[..from], Single(given[from..]);
    ghost var before, rest := parts.0, parts.1;
    if found == None {
      ExpandedNone(given[from..], m);
      assert head + before + "" == head + before;
      return value, None;
    }
    var start := found.value;
    PartsOf(value, head + before, rest);
    ghost var close := 1 + FindFirstOf(rest[1..], {'%'});
    ExpandedStep(given[from..], m, close);
    value, end := ReplaceToken(value, start, m);
    if end == None {
      assert head + before + rest == head + (before + rest);
    } else {
      ghost var replaced, tail := Replaced(rest[..close + 1], m), rest[close + 1..];
      PartsOf(value, head + before + replaced, tail);
      Regrouped(head, before, replaced, Expanded(tail, m));
    }
  }

  /** The single percent character at start and the next one, with the key between them, are replaced. */
  method ReplaceToken(given: string, start: nat, m: StringMap) returns (value: string, end: Option<nat>)
    requires start < |given|
    ensures var rest := given[start..]; var close := 1 + FindFirstOf(rest[1..], {'%'});
      (value, end) == if close >= |rest| then (given, None) else
        (given[..start] + Replaced(rest[..close + 1], m) + rest[close + 1..], Some(start + |Replaced(rest[..close + 1], m)|))
  {
    hide FindFirstOf;
    value, end := given, None;
    var close := start + 1 + FindFirstOf(given[start + 1..], {'%'});
    ghost var rest := given[start..];
    assert rest[1..] == given[start + 1..];
    if close < |given| {
      var key, tail := given[start + 1..close], given[close + 1..];
      ghost var token := rest[..close - start + 1];
      assert token[1..|token| - 1] == key && rest[close - start + 1..] == tail;
      if key in m {
        value := given[..start] + m[key] + tail;
        end := Some(start + |m[key]|);
      } else {
        assert given == given[..start] + token + tail;
        end := Some(close + 1);
      }
    }
  }

  lemma PartsOf(s: string, a: string, b: string)
    requires s == a + b
    ensures s[..|a|] == a && s[|a|..] == b && (b != "" ==> s[|a| + 1..] == b[1..])
  {
  }

  lemma NothingExpanded(m: StringMap)
    ensures Expanded("", m) == ""
  {
  }

  lemma ExpandedNone(s: string, m: StringMap)
    requires Single(s).1 == ""
    ensures Expanded(s, m) == Single(s).0
  {
  }

  lemma ExpandedStep(s: string, m: StringMap, close: nat)
    requires Single(s).1 != "" && close == 1 + FindFirstOf(Single(s).1[1..], {'%'})
    ensures close <= |Single(s).1|
    ensures Expanded(s, m) == if close == |Single(s).1| then Single(s).0 + Single(s).1
      else Single(s).0 + Replaced(Single(s).1[..close + 1], m) + Expanded(Single(s).1[close + 1..], m)
  {
    hide FindFirstOf, Single, Replaced;
  }

  // ----- the class

  class MapFile {
    var items: StringMap
    var keys: seq<string>

    ghost predicate Valid()
      reads this
    {
      Enumerates(keys, items)
    }

    /** From a string map and the order in which the map gives its keys. */
    constructor (m: StringMap, order: seq<string>)
      requires Enumerates(order, m)
      ensures Valid() && items == m && keys == order
    {
      items, keys := m, order;
    }

    method Add(key: string, value: string, clear: bool)
      requires Valid()
      modifies this
      ensures Valid() && old(keys) <= keys
      ensures items == if clear then old(items)[key := value] else Added(old(items), Item(key, value))
    {
      if key !in items {
        keys := keys + [key];
        items := items[key := value];
      } else if clear {
        items := items[key := value];
      } else {
        items := items[key := items[key] + "," + value];
      }
    }

    /** Reads all the lines of a file into the map, keeping the keys in the order of their first lines. */
    method ReadFromStream(text: string)
      requires Valid()
      modifies this
      ensures Valid() && old(keys) <= keys && items == Read(old(items), Lines(text))
    {
      hide LineRead, Lines;
      var rest := text;
      ghost var done := [];
      assert [] + Lines(text) == Lines(text);
      while rest != ""
        invariant Valid() && old(keys) <= keys
        invariant done + Lines(rest) == Lines(text) && items == Read(old(items), done)
        decreases |rest|
      {
        var line;
        line, rest := NextLine(rest);
        assert (done + [line])[..|done|] == done;
        done := done + [line];
        ReadLine(line);
      }
      NoLines();
      assert done + [] == done;
    }

    method ReadLine(given: string)
      requires Valid()
      modifies this
      ensures Valid() && old(keys) <= keys && items == LineRead(old(items), given)
    {
      hide Valued, Split, TrimRight;
      var line := TrimRight(given, {'\r'});
      if line == "" || !Valued(line) {
        return;
      }
      var pair := Split(line);
      if pair.key != "" {
        Add(pair.key, pair.value, false);
      }
    }

    /** The new text of the file; order is that of the map. */
    method EditInto(text: string, order: seq<string>) returns (out: string)
      requires Valid() && Enumerates(order, items)
      ensures out == EditedText(text, order, items)
    {
      hide Rewritten, Marked, Unmarked;
      var lines := ReadLines(text);
      lines := MarkValues(lines);
      ghost var marked := lines;
      for i := 0 to |order|
        invariant lines == RewrittenAll(marked, order[..i], items)
      {
        lines := RewriteItem(lines, order[i], items[order[i]]);
        assert order[..i + 1][..i] == order[..i];
      }
      assert order[..|order|] == order;
      lines := CommentOut(lines);
      out := WriteLines(lines);
    }
  }

  /** One line, and what follows its end. */
  method NextLine(text: string) returns (line: string, rest: string)
    requires text != ""
    ensures Lines(text) == [line] + Lines(rest) && |rest| < |text|
  {
    hide FindFirstOf;
    var eol := FindFirstOf(text, {'\n'});
    line := text[..eol];
    rest := if eol == |text| then "" else text[eol + 1..];
  }

  method ReadLines(text: string) returns (lines: seq<string>)
    ensures lines == Lines(text)
  {
    hide Lines;
    lines := [];
    var rest := text;
    assert [] + Lines(text) == Lines(text);
    while rest != ""
      invariant lines + Lines(rest) == Lines(text)
      decreases |rest|
    {
      var line;
      line, rest := NextLine(rest);
      lines := lines + [line];
    }
    NoLines();
  }

  lemma NoLines()
    ensures Lines("") == []
  {
  }

  method MarkValues(given: seq<string>) returns (lines: seq<string>)
    ensures lines == MarkedAll(given)
  {
    hide Valued;
    lines := given;
    for i := 0 to |given|
      invariant |lines| == |given|
      invariant forall j :: 0 <= j < |given| ==> lines[j] == if j < i then Marked(given[j]) else given[j]
    {
      if Valued(lines[i]) {
        lines := lines[i := [MARK] + lines[i]];
      } else if CommentedOut(lines[i]) {
        lines := lines[i := [MARK] + lines[i][1..]];
      }
    }
  }

  /** The inner loop of editInto(): the first line for the key is replaced, or a line is appended. */
  method RewriteItem(given: seq<string>, key: string, value: string) returns (lines: seq<string>)
    ensures lines == Rewritten(given, key, value)
  {
    hide Split, Join, FirstMatch;
    lines := given;
    var found := false;
    ghost var first := |given|;
    for i := 0 to |lines|
      invariant lines == given && !found && forall j :: 0 <= j < i ==> !Matches(given[j], key)
    {
      if IsMarked(lines[i]) {
        var pair := Split(lines[i][1..]);
        if pair.key != "" && pair.key == key {
          lines := lines[i := Join(pair.key, value)];
          found := true;
          first := i;
          break;
        }
      }
    }
    if !found {
      lines := lines + [Join(key, value)];
    }
    FirstMatchIs(given, key, first);
  }

  lemma FirstMatchIs(lines: seq<string>, key: string, i: nat)
    requires i <= |lines| && forall j :: 0 <= j < i ==> !Matches(lines[j], key)
    requires i < |lines| ==> Matches(lines[i], key)
    ensures FirstMatch(lines, key, 0) == i
  {
    hide Matches;
    FirstMatchIsFirst(lines, key, 0);
  }

  method CommentOut(given: seq<string>) returns (lines: seq<string>)
    ensures lines == UnmarkedAll(given)
  {
    lines := given;
    for i := 0 to |given|
      invariant |lines| == |given|
      invariant forall j :: 0 <= j < |given| ==> lines[j] == if j < i then Unmarked(given[j]) else given[j]
    {
      if IsMarked(lines[i]) {
        lines := lines[i := "#" + lines[i][1..]];
      }
    }
  }

  method WriteLines(lines: seq<string>) returns (text: string)
    ensures text == Text(lines)
  {
    text := "";
    assert lines[0..] == lines;
    for i := 0 to |lines|
      invariant text + Text(lines[i..]) == Text(lines)
    {
      assert Text(lines[i..]) == lines[i] + "\n" + Text(lines[i + 1..]) by { assert lines[i..][1..] == lines[i + 1..]; }
      var line := lines[i] + "\n";
      assert text + (line + Text(lines[i + 1..])) == (text + line) + Text(lines[i + 1..]);
      text := text + line;
    }
  }
}
