/** Base64 text and the bytes it stands for (src/glib/gbase64.cpp). */
module Base64 {
  import opened Wrappers
  import Rfc4648

  type byte = bv8
  type u32 = bv32

  const PAD: byte := 0x3D
  const CR: byte := 0x0D
  const LF: byte := 0x0A
  const SPACE: byte := 0x20

  // ----- the alphabet

  /** A position in the alphabet of section 4 of RFC 4648. */
  predicate IsIndex(x: u32) {
    x < 64
  }

  function CharAt(x: u32): (c: byte)
    requires IsIndex(x)
    ensures Index(c) == Some(x) && c != PAD
  {
    var v := (x & 0x3F) as byte;
    if x < 26 then 0x41 + v
    else if x < 52 then 0x61 + (v - 26)
    else if x < 62 then 0x30 + (v - 52)
    else if x == 62 then 0x2B
    else 0x2F
  }

  function Index(c: byte): (x: Option<u32>)
    ensures x.Some? ==> IsIndex(x.value) && c != PAD && c != CR && c != LF && c != SPACE
  {
    if 0x41 <= c <= 0x5A then Some((c - 0x41) as u32)
    else if 0x61 <= c <= 0x7A then Some((c - 0x61) as u32 + 26)
    else if 0x30 <= c <= 0x39 then Some((c - 0x30) as u32 + 52)
    else if c == 0x2B then Some(62)
    else if c == 0x2F then Some(63)
    else None
  }

  lemma CharAtIndex(c: byte)
    ensures Index(c).Some? ==> CharAt(Index(c).value) == c
  {
  }

  // ----- the bit groups of RFC 4648

  /** Three bytes side by side, and the four six-bit groups of the same bits. */
  function Sextet(b0: byte, b1: byte, b2: byte, i: nat): (x: u32)
    requires i < 4
    ensures IsIndex(x)
  {
    match i
    case 0 => (b0 >> 2) as u32
    case 1 => (((b0 & 0x03) << 4) | (b1 >> 4)) as u32
    case 2 => (((b1 & 0x0F) << 2) | (b2 >> 6)) as u32
    case _ => (b2 & 0x3F) as u32
  }

  function Octet(x0: u32, x1: u32, x2: u32, x3: u32, i: nat): byte
    requires i < 3
    requires IsIndex(x0) && IsIndex(x1) && IsIndex(x2) && IsIndex(x3)
  {
    match i
    case 0 => (((x0 << 2) | (x1 >> 4)) & 0xFF) as byte
    case 1 => (((x1 << 4) | (x2 >> 2)) & 0xFF) as byte
    case _ => (((x2 << 6) | x3) & 0xFF) as byte
  }

  function Push8(n: u32, b: byte): u32 {
    (n << 8) | b as u32
  }

  function Or(n: u32, x: u32): u32 {
    n | x
  }

  function Push6(n: u32, x: u32): u32 {
    Or(Shift6(n), x)
  }

  function Shift6(n: u32): u32 {
    n << 6
  }

  function Shift8(n: u32): u32 {
    n << 8
  }

  /** The 24 bits of a block in one word give the same groups. */
  lemma SextetsOfWord(b0: byte, b1: byte, b2: byte)
    ensures var n := Push8(Push8(Push8(0, b0), b1), b2);
      && Hi6(n) == Sextet(b0, b1, b2, 0) && Hi6(Shift6(n)) == Sextet(b0, b1, b2, 1)
      && Hi6(Shift6(Shift6(n))) == Sextet(b0, b1, b2, 2) && Hi6(Shift6(Shift6(Shift6(n)))) == Sextet(b0, b1, b2, 3)
  {
  }

  lemma OctetsOfWord(x0: u32, x1: u32, x2: u32, x3: u32)
    requires IsIndex(x0) && IsIndex(x1) && IsIndex(x2) && IsIndex(x3)
    ensures var n := Push6(Push6(Push6(Push6(0, x0), x1), x2), x3);
      && Hi8(n) == Octet(x0, x1, x2, x3, 0) && Hi8(Shift8(n)) == Octet(x0, x1, x2, x3, 1)
      && Hi8(Shift8(Shift8(n))) == Octet(x0, x1, x2, x3, 2)
  {
  }

  function Hi6(n: u32): (x: u32)
    ensures IsIndex(x)
  {
    (n >> 18) & 0x3F
  }

  function Hi8(n: u32): byte {
    ((n >> 16) & 0xFF) as byte
  }

  lemma OctetsOfSextets(b0: byte, b1: byte, b2: byte)
    ensures var x0, x1, x2, x3 :=
        Sextet(b0, b1, b2, 0), Sextet(b0, b1, b2, 1), Sextet(b0, b1, b2, 2), Sextet(b0, b1, b2, 3);
      && Octet(x0, x1, x2, x3, 0) == b0 && Octet(x0, x1, x2, x3, 1) == b1 && Octet(x0, x1, x2, x3, 2) == b2
  {
  }

  lemma SextetsOfOctets(x0: u32, x1: u32, x2: u32, x3: u32)
    requires IsIndex(x0) && IsIndex(x1) && IsIndex(x2) && IsIndex(x3)
    ensures var b0, b1, b2 := Octet(x0, x1, x2, x3, 0), Octet(x0, x1, x2, x3, 1), Octet(x0, x1, x2, x3, 2);
      && Sextet(b0, b1, b2, 0) == x0 && Sextet(b0, b1, b2, 1) == x1
      && Sextet(b0, b1, b2, 2) == x2 && Sextet(b0, b1, b2, 3) == x3
  {
  }

  /** Without the fourth group, or the last two, the bytes left over are zero only if the bits are. */
  lemma ShortBlocks(x0: u32, x1: u32, x2: u32)
    requires IsIndex(x0) && IsIndex(x1) && IsIndex(x2)
    ensures Octet(x0, x1, 0, 0, 1) == 0 ==> Octet(x0, x1, 0, 0, 2) == 0
  {
  }

  // ----- encoding

  function At(s: seq<byte>, i: nat): byte {
    if i < |s| then s[i] else 0
  }

  /** Up to three bytes as four characters, the missing ones padded. */
  function EncodedBlock(s: seq<byte>): (t: seq<byte>)
    requires 1 <= |s| <= 3
    ensures |t| == 4
  {
    var b0, b1, b2 := At(s, 0), At(s, 1), At(s, 2);
    [CharAt(Sextet(b0, b1, b2, 0)), CharAt(Sextet(b0, b1, b2, 1)),
     if |s| > 1 then CharAt(Sextet(b0, b1, b2, 2)) else PAD,
     if |s| > 2 then CharAt(Sextet(b0, b1, b2, 3)) else PAD]
  }

  const BLOCKS_PER_LINE := 19

  function Break(eol: seq<byte>, blocks: nat): seq<byte> {
    if blocks != 0 && blocks % BLOCKS_PER_LINE == 0 then eol else []
  }

  function Size(s: seq<byte>, limit: nat): (n: nat)
    ensures n <= |s| && n <= limit
  {
    if |s| < limit then |s| else limit
  }

  /** The text for the bytes that are left when some blocks have been written. */
  function Encoded(s: seq<byte>, eol: seq<byte>, blocks: nat): seq<byte>
    decreases |s|
  {
    if s == [] then []
    else
      var n := Size(s, 3);
      Break(eol, blocks) + EncodedBlock(s[..n]) + Encoded(s[n..], eol, blocks + 1)
  }

  // ----- the standard

  function Chars(t: seq<byte>): (r: string)
    ensures |r| == |t|
  {
    seq(|t|, i requires 0 <= i < |t| => t[i] as char)
  }

  lemma CharsSum(a: seq<byte>, b: seq<byte>)
    ensures Chars(a + b) == Chars(a) + Chars(b)
  {
  }

  lemma FirstColumn(x: u32)
    requires x < 16
    ensures CharAt(x) as char == Rfc4648.First(x as bv24)
  {
  }

  lemma SecondColumn(x: u32)
    requires 16 <= x < 32
    ensures CharAt(x) as char == Rfc4648.Second(x as bv24)
  {
  }

  lemma ThirdColumn(x: u32)
    requires 32 <= x < 48
    ensures CharAt(x) as char == Rfc4648.Third(x as bv24)
  {
  }

  lemma FourthColumn(x: u32)
    requires 48 <= x < 64
    ensures CharAt(x) as char == Rfc4648.Fourth(x as bv24)
  {
  }

  /** The characters are those of the standard's alphabet. */
  lemma CharIsDigit(x: u32)
    requires IsIndex(x)
    ensures CharAt(x) as char == Rfc4648.Character(x as bv24)
  {
    hide CharAt, Rfc4648.First, Rfc4648.Second, Rfc4648.Third, Rfc4648.Fourth;
    if x < 16 {
      FirstColumn(x);
    } else if x < 32 {
      SecondColumn(x);
    } else if x < 48 {
      ThirdColumn(x);
    } else {
      FourthColumn(x);
    }
  }

  lemma Sextet0(b0: byte, b1: byte, b2: byte)
    ensures Sextet(b0, b1, b2, 0) as bv24 == Rfc4648.Group(Rfc4648.Bits(b0, b1, b2), 0)
  {
  }

  lemma Sextet1(b0: byte, b1: byte, b2: byte)
    ensures Sextet(b0, b1, b2, 1) as bv24 == Rfc4648.Group(Rfc4648.Bits(b0, b1, b2), 1)
  {
  }

  lemma Sextet2(b0: byte, b1: byte, b2: byte)
    ensures Sextet(b0, b1, b2, 2) as bv24 == Rfc4648.Group(Rfc4648.Bits(b0, b1, b2), 2)
  {
  }

  lemma Sextet3(b0: byte, b1: byte, b2: byte)
    ensures Sextet(b0, b1, b2, 3) as bv24 == Rfc4648.Group(Rfc4648.Bits(b0, b1, b2), 3)
  {
  }

  lemma DigitOfBlock(b0: byte, b1: byte, b2: byte, k: nat)
    requires k < 4
    ensures CharAt(Sextet(b0, b1, b2, k)) as char == Rfc4648.Digit(Rfc4648.Bits(b0, b1, b2), k)
  {
    hide CharAt, Sextet, Rfc4648.Character, Rfc4648.Group, Rfc4648.Bits;
    match k {
      case 0 => Sextet0(b0, b1, b2);
      case 1 => Sextet1(b0, b1, b2);
      case 2 => Sextet2(b0, b1, b2);
      case _ => Sextet3(b0, b1, b2);
    }
    CharIsDigit(Sextet(b0, b1, b2, k));
  }

  lemma BlockIsRfc(s: seq<byte>)
    requires 1 <= |s| <= 3
    ensures Chars(EncodedBlock(s)) == Rfc4648.Text(s)
  {
    hide CharAt, Sextet, Rfc4648.Digit, Rfc4648.Bits, Chars, Rfc4648.Text;
    var b0, b1, b2 := At(s, 0), At(s, 1), At(s, 2);
    var t := EncodedBlock(s);
    CharsOfFour(t[0], t[1], t[2], t[3]);
    assert t == [t[0], t[1], t[2], t[3]];
    DigitOfBlock(b0, b1, b2, 0);
    DigitOfBlock(b0, b1, b2, 1);
    DigitOfBlock(b0, b1, b2, 2);
    DigitOfBlock(b0, b1, b2, 3);
    PadIsEquals();
    TextOfBlock(s);
  }

  lemma PadIsEquals()
    ensures PAD as char == '='
  {
  }

  lemma CharsOfFour(c0: byte, c1: byte, c2: byte, c3: byte)
    ensures Chars([c0, c1, c2, c3]) == [c0 as char, c1 as char, c2 as char, c3 as char]
  {
  }

  lemma TextOfBlock(s: seq<byte>)
    requires 1 <= |s| <= 3
    ensures var n := Rfc4648.Bits(At(s, 0), At(s, 1), At(s, 2));
      Rfc4648.Text(s) == [Rfc4648.Digit(n, 0), Rfc4648.Digit(n, 1)]
        + [if |s| > 1 then Rfc4648.Digit(n, 2) else '='] + [if |s| > 2 then Rfc4648.Digit(n, 3) else '=']
  {
    hide Rfc4648.Digit, Rfc4648.Bits;
    if |s| == 3 {
      assert s[3..] == [] && Rfc4648.Text([]) == "";
    }
  }

  /** Without line breaks the text is the standard's. */
  lemma {:induction false} EncodedIsRfc(s: seq<byte>, blocks: nat)
    ensures Chars(Encoded(s, [], blocks)) == Rfc4648.Text(s)
    decreases |s|
  {
    hide EncodedBlock, Rfc4648.Digit, Rfc4648.Bits;
    if s != [] {
      var n := Size(s, 3);
      BlockIsRfc(s[..n]);
      EncodedIsRfc(s[n..], blocks + 1);
      CharsSum(EncodedBlock(s[..n]), Encoded(s[n..], [], blocks + 1));
      assert Encoded(s, [], blocks) == EncodedBlock(s[..n]) + Encoded(s[n..], [], blocks + 1);
      TextStep(s);
    }
  }

  lemma TextStep(s: seq<byte>)
    requires s != []
    ensures var n := Size(s, 3); Rfc4648.Text(s) == Rfc4648.Text(s[..n]) + Rfc4648.Text(s[n..])
  {
    hide Rfc4648.Digit, Rfc4648.Bits;
    if |s| <= 3 {
      var n := Size(s, 3);
      assert s[..n] == s && s[n..] == [] && Rfc4648.Text([]) == "";
    } else {
      assert s[..3][3..] == [] && Rfc4648.Text([]) == "";
    }
  }

  lemma {:induction false} EncodedSum(a: seq<byte>, b: seq<byte>, eol: seq<byte>, blocks: nat)
    requires |a| % 3 == 0
    ensures Encoded(a + b, eol, blocks) == Encoded(a, eol, blocks) + Encoded(b, eol, blocks + |a| / 3)
    decreases |a|
  {
    hide EncodedBlock, Break;
    if a == [] {
      assert a + b == b;
    } else {
      var s := a + b;
      assert s[..3] == a[..3] && s[3..] == a[3..] + b;
      EncodedSum(a[3..], b, eol, blocks + 1);
    }
  }

  /** Up to nineteen blocks there is no line break. */
  lemma {:induction false} OneLine(s: seq<byte>, eol: seq<byte>, blocks: nat)
    requires |s| + 3 * blocks <= 57
    ensures Encoded(s, eol, blocks) == Encoded(s, [], blocks)
    decreases |s|
  {
    hide EncodedBlock;
    if s != [] {
      var n := Size(s, 3);
      if s[n..] != [] {
        OneLine(s[n..], eol, blocks + 1);
      }
    }
  }

  lemma {:induction false} SameLine(s: seq<byte>, eol: seq<byte>, blocks: nat)
    requires blocks > 0
    ensures Encoded(s, eol, blocks + 19) == Encoded(s, eol, blocks)
    decreases |s|
  {
    hide EncodedBlock;
    if s != [] {
      SameLine(s[Size(s, 3)..], eol, blocks + 1);
    }
  }

  lemma LineBreak(s: seq<byte>, eol: seq<byte>)
    requires s != []
    ensures Encoded(s, eol, 19) == eol + Encoded(s, eol, 0)
  {
    hide EncodedBlock;
    var n := Size(s, 3);
    SameLine(s[n..], eol, 1);
    assert eol + EncodedBlock(s[..n]) + Encoded(s[n..], eol, 20) == eol + ([] + EncodedBlock(s[..n]) + Encoded(s[n..], eol, 1));
  }

  /** With line breaks there is one after every 57 bytes but the last, which makes lines of 76 characters. */
  lemma {:induction false} EncodedIsLines(s: seq<byte>, eol: seq<byte>)
    ensures Chars(Encoded(s, eol, 0)) == Rfc4648.Lines(s, Chars(eol))
    decreases |s|
  {
    hide Encoded, Rfc4648.Text, Chars;
    if |s| <= 57 {
      OneLine(s, eol, 0);
      EncodedIsRfc(s, 0);
    } else {
      var first, rest := s[..57], s[57..];
      assert s == first + rest;
      EncodedSum(first, rest, eol, 0);
      OneLine(first, eol, 0);
      EncodedIsRfc(first, 0);
      LineBreak(rest, eol);
      EncodedIsLines(rest, eol);
      CharsSum(Encoded(first, [], 0), eol + Encoded(rest, eol, 0));
      CharsSum(eol, Encoded(rest, eol, 0));
      assert Rfc4648.Text(first) + (Chars(eol) + Chars(Encoded(rest, eol, 0)))
        == Rfc4648.Text(first) + Chars(eol) + Chars(Encoded(rest, eol, 0));
    }
  }

  // ----- decoding

  datatype Output = Output(bytes: seq<byte>, error: bool)

  predicate IsBlank(c: byte) {
    c == CR || c == LF || c == SPACE
  }

  /** What character i of a block contributes. */
  function Group(t: seq<byte>, i: nat): (x: u32)
    ensures IsIndex(x)
  {
    if i < |t| && Index(t[i]).Some? then Index(t[i]).value else 0
  }

  function IsDigit(t: seq<byte>, i: nat): (n: nat)
    ensures n <= 1
  {
    if i < |t| && t[i] != PAD then 1 else 0
  }

  predicate IsStranger(t: seq<byte>, i: nat) {
    i < |t| && t[i] != PAD && Index(t[i]) == None
  }

  predicate HasStranger(t: seq<byte>) {
    IsStranger(t, 0) || IsStranger(t, 1) || IsStranger(t, 2) || IsStranger(t, 3)
  }

  /** A block of up to four characters; bits left over must be zero. */
  function DecodedBlock(t: seq<byte>): Output {
    var x0, x1, x2, x3 := Group(t, 0), Group(t, 1), Group(t, 2), Group(t, 3);
    var digits := IsDigit(t, 0) + IsDigit(t, 1) + IsDigit(t, 2) + IsDigit(t, 3);
    var o0, o1, o2 := Octet(x0, x1, x2, x3, 0), Octet(x0, x1, x2, x3, 1), Octet(x0, x1, x2, x3, 2);
    var bad := HasStranger(t);
    if digits < 2 then Output([], true)
    else if digits == 2 then Output([o0], bad || o1 != 0)
    else if digits == 3 then Output([o0, o1], bad || o2 != 0)
    else Output([o0, o1, o2], bad)
  }

  function Decoded(t: seq<byte>): Output
    decreases |t|
  {
    if t == [] then Output([], false)
    else if IsBlank(t[0]) then Decoded(t[1..])
    else
      var n := Size(t, 4);
      var block, rest := DecodedBlock(t[..n]), Decoded(t[n..]);
      Output(block.bytes + rest.bytes, block.error || rest.error)
  }

  // ----- errors

  predicate IsLetter(c: byte) {
    0x41 <= c <= 0x5A || 0x61 <= c <= 0x7A || 0x30 <= c <= 0x39 || c == 0x2B || c == 0x2F
  }

  lemma IndexIff(c: byte)
    ensures Index(c).Some? <==> IsLetter(c)
  {
  }

  function Letters(t: seq<byte>): (n: nat)
    ensures n <= |t|
  {
    if t == [] then 0 else (if t[0] == 0x3D then 0 else 1) + Letters(t[1..])
  }

  /** A block with another character than letters and pads, or with fewer than two letters, is an error;
      from the others there is one byte less than there are letters. */
  lemma BlockMeans(t: seq<byte>)
    requires 1 <= |t| <= 4
    ensures (exists i :: 0 <= i < |t| && t[i] != 0x3D && !IsLetter(t[i])) ==> DecodedBlock(t).error
    ensures Letters(t) < 2 ==> DecodedBlock(t) == Output([], true)
    ensures Letters(t) >= 2 ==> |DecodedBlock(t).bytes| == Letters(t) - 1
  {
    hide Octet, IsLetter, Index;
    CountLetters(t);
    if i :| 0 <= i < |t| && t[i] != 0x3D && !IsLetter(t[i]) {
      IndexIff(t[i]);
      assert IsStranger(t, i);
    }
  }

  lemma CountLetters(t: seq<byte>)
    requires 1 <= |t| <= 4
    ensures Letters(t) == IsDigit(t, 0) + IsDigit(t, 1) + IsDigit(t, 2) + IsDigit(t, 3)
  {
    LettersStep(t);
    if |t| >= 2 {
      LettersStep(t[1..]);
      if |t| >= 3 {
        LettersStep(t[2..]);
        assert t[1..][1..] == t[2..];
        if |t| >= 4 {
          LettersStep(t[3..]);
          assert t[2..][1..] == t[3..];
        }
      }
    }
  }

  lemma LettersStep(t: seq<byte>)
    requires t != []
    ensures Letters(t) == IsDigit(t, 0) + Letters(t[1..])
    ensures |t| == 1 ==> Letters(t[1..]) == 0
  {
  }

  /** A text that is no error has only letters, pads and blanks. */
  lemma {:induction false} NoErrorMeans(t: seq<byte>)
    requires !Decoded(t).error
    ensures forall i :: 0 <= i < |t| ==> IsLetter(t[i]) || t[i] in {0x3D, 0x0D, 0x0A, 0x20}
    decreases |t|
  {
    hide DecodedBlock, IsLetter;
    if t != [] {
      if IsBlank(t[0]) {
        NoErrorMeans(t[1..]);
        assert forall i :: 1 <= i < |t| ==> t[i] == t[1..][i - 1];
      } else {
        var n := Size(t, 4);
        BlockMeans(t[..n]);
        NoErrorMeans(t[n..]);
        assert forall i :: 0 <= i < n ==> t[i] == t[..n][i];
        assert forall i :: n <= i < |t| ==> t[i] == t[n..][i - n];
      }
    }
  }

  // ----- strict validity

  function FindPad(t: seq<byte>): (i: nat)
    ensures i <= |t|
  {
    if t == [] || t[0] == PAD then 0 else 1 + FindPad(t[1..])
  }

  predicate StrictlyValid(t: seq<byte>) {
    if |t| == 0 then true
    else if |t| == 1 then false
    else if forall i :: 0 <= i < |t| ==> Index(t[i]).Some? then true
    else if exists i :: 0 <= i < |t| && t[i] != PAD && Index(t[i]) == None then false
    else
      var pos := FindPad(t);
      || (pos + 1 == |t| && |t| % 4 == 0)
      || (pos + 2 == |t| && t[pos + 1] == PAD && |t| % 4 == 0)
  }

  /** How many pad characters the text ends with. */
  function Pads(t: seq<byte>): (n: nat)
    ensures n <= |t| && forall i :: |t| - n <= i < |t| ==> t[i] == PAD
  {
    if t == [] || t[|t| - 1] != PAD then 0 else 1 + Pads(t[..|t| - 1])
  }

  /** Only alphabet characters, then at most two pads which complete a block. */
  predicate Proper(t: seq<byte>) {
    && Pads(t) <= 2 && (Pads(t) > 0 ==> |t| % 4 == 0)
    && forall i :: 0 <= i < |t| - Pads(t) ==> Index(t[i]).Some?
  }

  lemma {:induction false} FindPadIs(t: seq<byte>, n: nat)
    requires n <= |t| && (forall i :: 0 <= i < n ==> t[i] != PAD) && (n < |t| ==> t[n] == PAD)
    ensures FindPad(t) == n
  {
    if n > 0 {
      FindPadIs(t[1..], n - 1);
    }
  }

  lemma {:induction false} PadsIs(t: seq<byte>, n: nat)
    requires n <= |t| && (forall i :: |t| - n <= i < |t| ==> t[i] == PAD) && (n < |t| ==> t[|t| - n - 1] != PAD)
    ensures Pads(t) == n
  {
    if n > 0 {
      PadsIs(t[..|t| - 1], n - 1);
    }
  }

  lemma {:induction false} FindPadFinds(t: seq<byte>)
    ensures forall i :: 0 <= i < FindPad(t) ==> t[i] != PAD
    ensures FindPad(t) < |t| ==> t[FindPad(t)] == PAD
  {
    if t != [] && t[0] != PAD {
      FindPadFinds(t[1..]);
      assert forall i :: 1 <= i < FindPad(t) ==> t[i] == t[1..][i - 1];
    }
  }

  lemma StrictlyValidIsProper(t: seq<byte>)
    ensures StrictlyValid(t) <==> |t| != 1 && Proper(t)
  {
    var n := Pads(t);
    FindPadFinds(t);
    if StrictlyValid(t) {
      PadsIs(t, |t| - FindPad(t));
    }
    if Proper(t) {
      FindPadIs(t, |t| - n);
    }
  }

  // ----- round trips

  lemma BlockThere(s: seq<byte>)
    requires 1 <= |s| <= 3
    ensures DecodedBlock(EncodedBlock(s)) == Output(s, false)
    ensures !IsBlank(EncodedBlock(s)[0])
  {
    hide Sextet, Octet, CharAt, Index, HasStranger;
    var b0, b1, b2 := At(s, 0), At(s, 1), At(s, 2);
    var t := EncodedBlock(s);
    OctetsOfSextets(b0, b1, b2);
    ShortGroups(b0, b1);
    assert !HasStranger(t) by { EncodedHasNoStranger(s); }
    assert s == if |s| == 1 then [b0] else if |s| == 2 then [b0, b1] else [b0, b1, b2];
    PadHasNoIndex();
    assert Index(t[0]).Some?;
  }

  lemma PadHasNoIndex()
    ensures Index(PAD) == None
  {
  }

  lemma ShortGroups(b0: byte, b1: byte)
    ensures Sextet(b0, 0, 0, 2) == 0 && Sextet(b0, 0, 0, 3) == 0 && Sextet(b0, b1, 0, 3) == 0
  {
  }

  lemma EncodedHasNoStranger(s: seq<byte>)
    requires 1 <= |s| <= 3
    ensures !HasStranger(EncodedBlock(s))
  {
    hide Sextet, CharAt, Index;
  }

  lemma {:induction false} DecodedSkipsBlanks(blanks: seq<byte>, t: seq<byte>)
    requires forall i :: 0 <= i < |blanks| ==> IsBlank(blanks[i])
    ensures Decoded(blanks + t) == Decoded(t)
  {
    if blanks == [] {
      assert blanks + t == t;
    } else {
      assert (blanks + t)[1..] == blanks[1..] + t;
      DecodedSkipsBlanks(blanks[1..], t);
    }
  }

  lemma DecodedOneBlock(block: seq<byte>, t: seq<byte>)
    requires |block| == 4 && !IsBlank(block[0])
    ensures Decoded(block + t) == var b, r := DecodedBlock(block), Decoded(t); Output(b.bytes + r.bytes, b.error || r.error)
  {
    hide DecodedBlock;
    assert (block + t)[..4] == block && (block + t)[4..] == t;
  }

  /** Decoding undoes encoding, with lines broken by any blank characters. */
  lemma {:induction false} DecodeEncoded(s: seq<byte>, eol: seq<byte>, blocks: nat)
    requires forall i :: 0 <= i < |eol| ==> eol[i] == 0x0D || eol[i] == 0x0A || eol[i] == 0x20
    ensures Decoded(Encoded(s, eol, blocks)) == Output(s, false)
    decreases |s|
  {
    hide Decoded, DecodedBlock, EncodedBlock, IsBlank;
    if s == [] {
      DecodedNothing();
    } else {
      var n := Size(s, 3);
      var rest := Encoded(s[n..], eol, blocks + 1);
      DecodeEncoded(s[n..], eol, blocks + 1);
      BlockThere(s[..n]);
      DecodedOneBlock(EncodedBlock(s[..n]), rest);
      forall i | 0 <= i < |Break(eol, blocks)| ensures IsBlank(Break(eol, blocks)[i]) {
        BlankIs(eol[i]);
      }
      DecodedSkipsBlanks(Break(eol, blocks), EncodedBlock(s[..n]) + rest);
      assert Break(eol, blocks) + EncodedBlock(s[..n]) + rest == Break(eol, blocks) + (EncodedBlock(s[..n]) + rest);
      assert s[..n] + s[n..] == s;
    }
  }

  lemma BlankIs(c: byte)
    ensures IsBlank(c) <==> c == 0x0D || c == 0x0A || c == 0x20
  {
  }

  lemma DecodedNothing()
    ensures Decoded([]) == Output([], false)
  {
  }

  lemma EncodedBlockIsProper(s: seq<byte>)
    requires 1 <= |s| <= 3
    ensures Proper(EncodedBlock(s)) && Pads(EncodedBlock(s)) == 3 - |s|
  {
    hide Sextet, CharAt, Index;
    PadsIs(EncodedBlock(s), 3 - |s|);
  }

  lemma ProperSum(s: seq<byte>, t: seq<byte>)
    requires |s| == 4 && (forall i :: 0 <= i < 4 ==> Index(s[i]).Some?)
    requires t != [] && Proper(t) && |t| % 4 == 0
    ensures Proper(s + t) && Pads(s + t) == Pads(t) && Pads(t) < |t|
  {
    hide Index;
    PadHasNoIndex();
    var n := |t| - Pads(t);
    assert t[n - 1] != PAD;
    assert forall i :: 4 <= i < |s + t| ==> (s + t)[i] == t[i - 4];
    assert (s + t)[n + 3] == t[n - 1];
    PadsIs(s + t, Pads(t));
  }

  /** The encoder's text is strictly valid. */
  lemma {:induction false} EncodedIsProper(s: seq<byte>, blocks: nat)
    ensures Proper(Encoded(s, [], blocks)) && |Encoded(s, [], blocks)| % 4 == 0
    ensures (Encoded(s, [], blocks) == [] <==> s == [])
    decreases |s|
  {
    hide EncodedBlock, Index, Pads;
    if s == [] {
      PadsIs([], 0);
    } else {
      var n := Size(s, 3);
      var block, rest := EncodedBlock(s[..n]), Encoded(s[n..], [], blocks + 1);
      EncodedIsProper(s[n..], blocks + 1);
      EncodedBlockIsProper(s[..n]);
      assert Encoded(s, [], blocks) == block + rest;
      if rest == [] {
        assert block + rest == block;
      } else {
        ProperSum(block, rest);
      }
    }
  }

  /** The text with pads added to complete the last block. */
  function Padded(t: seq<byte>): (r: seq<byte>)
    ensures |r| == (|t| + 3) / 4 * 4
    ensures forall i :: 0 <= i < |r| ==> r[i] == if i < |t| then t[i] else PAD
  {
    seq((|t| + 3) / 4 * 4, i requires 0 <= i => if i < |t| then t[i] else PAD)
  }

  /** A proper block that decodes is the encoding of its bytes. */
  lemma BlockBack(t: seq<byte>)
    requires 1 <= |t| <= 4 && Proper(t) && !DecodedBlock(t).error
    ensures 1 <= |DecodedBlock(t).bytes| <= 3 && EncodedBlock(DecodedBlock(t).bytes) == Padded(t)
    ensures Pads(Padded(t)) == 3 - |DecodedBlock(t).bytes|
  {
    hide Sextet, Octet, CharAt, Index, HasStranger, EncodedBlock, Group;
    var digits := DigitsOf(t);
    BlockParts(t);
    hide Pads, Proper, IsDigit, Padded;
    match digits
    case 2 => TwoBack(Group(t, 0), Group(t, 1));
    case 3 => ThreeBack(Group(t, 0), Group(t, 1), Group(t, 2));
    case _ => FourBack(Group(t, 0), Group(t, 1), Group(t, 2), Group(t, 3));
  }

  function DigitsOf(t: seq<byte>): nat {
    IsDigit(t, 0) + IsDigit(t, 1) + IsDigit(t, 2) + IsDigit(t, 3)
  }

  lemma BlockParts(t: seq<byte>)
    requires 1 <= |t| <= 4 && Proper(t)
    ensures DigitsOf(t) + Pads(t) == |t| && Pads(Padded(t)) == 4 - DigitsOf(t)
    ensures forall i :: DigitsOf(t) <= i ==> Group(t, i) == 0
    ensures forall i :: 0 <= i < 4 ==> Padded(t)[i] == if i < DigitsOf(t) then CharAt(Group(t, i)) else PAD
  {
    hide CharAt, Index, Group, IsDigit, Pads, Proper;
    BlockDigits(t);
    BlockPads(t);
  }

  lemma BlockDigits(t: seq<byte>)
    requires 1 <= |t| <= 4 && Proper(t)
    ensures forall i: nat :: IsDigit(t, i) == if i < |t| - Pads(t) then 1 else 0
    ensures forall i: nat :: i >= |t| - Pads(t) ==> Group(t, i) == 0
    ensures forall i: nat :: i < |t| - Pads(t) ==> CharAt(Group(t, i)) == t[i]
  {
    hide CharAt, Index, Pads;
    PadHasNoIndex();
    forall i: nat | i < |t| - Pads(t) ensures CharAt(Group(t, i)) == t[i] && IsDigit(t, i) == 1 {
      CharAtIndex(t[i]);
    }
  }

  lemma BlockPads(t: seq<byte>)
    requires 1 <= |t| <= 4 && Proper(t)
    ensures Pads(Padded(t)) == 4 - (|t| - Pads(t))
  {
    hide Index, Pads;
    PadHasNoIndex();
    var digits := |t| - Pads(t);
    assert digits > 0 && Index(t[digits - 1]).Some?;
    assert forall i :: digits <= i < |t| ==> t[i] == PAD;
    hide Proper;
    PadsOfPadded(t, digits);
  }

  lemma PadsOfPadded(t: seq<byte>, n: nat)
    requires 0 < n <= |t| && t[n - 1] != PAD && forall i :: n <= i < |t| ==> t[i] == PAD
    ensures Pads(Padded(t)) == |Padded(t)| - n
  {
    hide Pads;
    var p := Padded(t);
    assert p[n - 1] == t[n - 1];
    PadsIs(p, |p| - n);
  }

  lemma TwoBack(x0: u32, x1: u32)
    requires IsIndex(x0) && IsIndex(x1) && Octet(x0, x1, 0, 0, 1) == 0
    ensures EncodedBlock([Octet(x0, x1, 0, 0, 0)]) == [CharAt(x0), CharAt(x1), PAD, PAD]
  {
    hide Sextet, Octet, CharAt;
    ShortBlocks(x0, x1, 0);
    SextetsOfOctets(x0, x1, 0, 0);
  }

  lemma ThreeBack(x0: u32, x1: u32, x2: u32)
    requires IsIndex(x0) && IsIndex(x1) && IsIndex(x2) && Octet(x0, x1, x2, 0, 2) == 0
    ensures EncodedBlock([Octet(x0, x1, x2, 0, 0), Octet(x0, x1, x2, 0, 1)]) == [CharAt(x0), CharAt(x1), CharAt(x2), PAD]
  {
    hide Sextet, Octet, CharAt;
    SextetsOfOctets(x0, x1, x2, 0);
  }

  lemma FourBack(x0: u32, x1: u32, x2: u32, x3: u32)
    requires IsIndex(x0) && IsIndex(x1) && IsIndex(x2) && IsIndex(x3)
    ensures EncodedBlock([Octet(x0, x1, x2, x3, 0), Octet(x0, x1, x2, x3, 1), Octet(x0, x1, x2, x3, 2)])
      == [CharAt(x0), CharAt(x1), CharAt(x2), CharAt(x3)]
  {
    hide Sextet, Octet, CharAt;
    SextetsOfOctets(x0, x1, x2, x3);
  }

  /** Encoding undoes decoding, but for the pads that the text may lack. */
  lemma {:induction false} EncodeDecoded(t: seq<byte>, blocks: nat)
    requires Proper(t) && !Decoded(t).error
    ensures Encoded(Decoded(t).bytes, [], blocks) == Padded(t)
    decreases |t|
  {
    hide DecodedBlock, EncodedBlock, Index, Pads, Padded;
    if t != [] {
      ProperStart(t);
      var n := Size(t, 4);
      var block := DecodedBlock(t[..n]).bytes;
      BlockBack(t[..n]);
      EncodeDecoded(t[n..], blocks + 1);
      var bytes := Decoded(t).bytes;
      assert bytes == block + Decoded(t[n..]).bytes;
      if |t| <= 4 {
        DecodedNothing();
        assert t[..n] == t && t[n..] == [] && bytes == block;
        assert bytes[..|bytes|] == bytes;
      } else {
        assert bytes[..3] == block && bytes[3..] == Decoded(t[n..]).bytes;
      }
    } else {
      NothingPadded();
    }
  }

  lemma NothingPadded()
    ensures Padded([]) == []
  {
  }

  lemma ProperStart(t: seq<byte>)
    requires t != [] && Proper(t)
    ensures !IsBlank(t[0])
    ensures Proper(t[Size(t, 4)..]) && Proper(t[..Size(t, 4)])
    ensures |t| > 4 ==> Padded(t[..4]) == t[..4] && Pads(t[..4]) == 0 && t[4..] != []
    ensures Padded(t) == Padded(t[..Size(t, 4)]) + Padded(t[Size(t, 4)..])
  {
    hide Index, Pads;
    PadHasNoIndex();
    assert Index(t[0]).Some?;
    NoPads();
    if |t| > 4 {
      PadsAfterStart(t);
    } else {
      assert t[..|t|] == t && t[|t|..] == [];
    }
  }

  lemma NoPads()
    ensures Pads([]) == 0
  {
  }

  lemma PadsAfterStart(t: seq<byte>)
    requires |t| > 4 && Proper(t)
    ensures Pads(t[4..]) == Pads(t) && Pads(t[..4]) == 0
  {
    hide Index, Pads;
    PadHasNoIndex();
    var n := Pads(t);
    assert Index(t[3]).Some?;
    PadsIs(t[..4], 0);
    assert Index(t[|t| - n - 1]).Some?;
    PadsIs(t[4..], n);
  }

  /** Missing pads make no difference. */
  lemma {:induction false} DecodedPadded(t: seq<byte>)
    requires Proper(t)
    ensures Decoded(Padded(t)) == Decoded(t)
    decreases |t|
  {
    hide DecodedBlock, Index, Pads, IsBlank;
    if t != [] {
      ProperStart(t);
      var n := Size(t, 4);
      PaddedBlock(t[..n]);
      DecodedPadded(t[n..]);
      hide Padded;
      var block, rest := Padded(t[..n]), Padded(t[n..]);
      DecodedOneBlock(block, rest);
    }
  }

  lemma PaddedBlock(t: seq<byte>)
    requires 1 <= |t| <= 4
    ensures |Padded(t)| == 4 && Padded(t)[0] == t[0] && DecodedBlock(Padded(t)) == DecodedBlock(t)
  {
    hide Octet, Index;
    PadHasNoIndex();
    var p := Padded(t);
    assert forall i :: 0 <= i < |t| ==> p[i] == t[i];
    assert forall i :: |t| <= i < 4 ==> p[i] == PAD;
    assert forall i: nat :: Group(p, i) == Group(t, i) && IsDigit(p, i) == IsDigit(t, i);
  }

  function Unpadded(t: seq<byte>): seq<byte> {
    t[..|t| - Pads(t)]
  }

  lemma UnpaddedIsProper(t: seq<byte>)
    requires Proper(t) && |t| % 4 == 0
    ensures Proper(Unpadded(t)) && Padded(Unpadded(t)) == t && |Unpadded(t)| != 1
  {
    hide Index;
    PadHasNoIndex();
    var u := Unpadded(t);
    if u != [] {
      assert Index(u[|u| - 1]).Some?;
    }
    PadsIs(u, 0);
  }

  /** valid() with the strict flag. */
  predicate Valid(t: seq<byte>) {
    StrictlyValid(t) && !Decoded(t).error
  }

  /** A text is strictly valid exactly when it is what the encoder writes for some bytes, with or without the pads. */
  lemma ValidIffEncoded(t: seq<byte>)
    ensures Valid(t) <==> exists s :: t == Encoded(s, [], 0) || t == Unpadded(Encoded(s, [], 0))
    ensures Valid(t) ==> Encoded(Decoded(t).bytes, [], 0) == Padded(t)
  {
    hide Decoded, Encoded, StrictlyValid, Proper;
    StrictlyValidIsProper(t);
    if Valid(t) {
      EncodeDecoded(t, 0);
      UnpaddedPadded(t);
      EncodedIsProper(Decoded(t).bytes, 0);
    }
    forall s | t == Encoded(s, [], 0) || t == Unpadded(Encoded(s, [], 0)) ensures Valid(t) {
      var e := Encoded(s, [], 0);
      EncodedIsProper(s, 0);
      DecodeEncoded(s, [], 0);
      UnpaddedIsProper(e);
      DecodedPadded(Unpadded(e));
    }
  }

  lemma UnpaddedPadded(t: seq<byte>)
    requires Proper(t)
    ensures t == Padded(t) || t == Unpadded(Padded(t))
    ensures |t| % 4 == 1 ==> Pads(Padded(t)) == 3
  {
    hide Index;
    PadHasNoIndex();
    if |t| % 4 != 0 {
      assert Index(t[|t| - 1]).Some?;
      PadsOfPadded(t, |t|);
    }
  }

  /** Decoding tells padded texts apart. */
  lemma DecodedIsInjective(t: seq<byte>, u: seq<byte>)
    requires Valid(t) && Valid(u) && Decoded(t) == Decoded(u)
    ensures Padded(t) == Padded(u)
  {
    ValidIffEncoded(t);
    ValidIffEncoded(u);
  }

  // ----- the loops

  /** accumulate_8(): one more byte, or zero at the end of the input. */
  method Accumulate8(n0: u32, s: seq<byte>, p0: nat, i0: int) returns (n: u32, p: nat, i: int)
    requires p0 <= |s|
    ensures n == Push8(n0, At(s, p0))
    ensures if p0 < |s| then p == p0 + 1 && i == i0 + 1 else p == p0 && i == i0
  {
    n, p, i := n0, p0, i0;
    var c := if p == |s| then 0 else s[p];
    n := n << 8;
    n := n | c as u32;
    if p != |s| {
      p, i := p + 1, i + 1;
    }
  }

  /** generate_6(): the top six of 24 bits as a character, or a pad. */
  method Generate6(n0: u32, i0: int) returns (n: u32, i: int, c: byte)
    ensures n == Shift6(n0) && i == i0 - 1 && c == if i0 >= 0 then CharAt(Hi6(n0)) else PAD
  {
    c := if i0 >= 0 then CharAt(Hi6(n0)) else PAD;
    i := i0 - 1;
    n := n0 << 6;
  }

  method EncodeBlock(s: seq<byte>, p0: nat) returns (p: nat, t: seq<byte>)
    requires p0 < |s|
    ensures p == p0 + Size(s[p0..], 3) && t == EncodedBlock(s[p0..p])
  {
    hide CharAt, Hi6, Sextet, Push8, Shift6;
    var n, i, c0, c1, c2, c3 := 0, 0, 0, 0, 0, 0;
    n, p, i := Accumulate8(n, s, p0, i);
    n, p, i := Accumulate8(n, s, p, i);
    n, p, i := Accumulate8(n, s, p, i);
    SextetsOfWord(At(s, p0), At(s, p0 + 1), At(s, p0 + 2));
    n, i, c0 := Generate6(n, i);
    n, i, c1 := Generate6(n, i);
    n, i, c2 := Generate6(n, i);
    n, i, c3 := Generate6(n, i);
    t := [c0, c1, c2, c3];
    assert forall k :: 0 <= k < 3 ==> At(s[p0..p], k) == At(s, p0 + k);
  }

  lemma EncodedStep(done: seq<byte>, s: seq<byte>, p: nat, next: nat, eol: seq<byte>, blocks: nat)
    requires p < |s| && next == p + Size(s[p..], 3)
    ensures done + Encoded(s[p..], eol, blocks)
      == done + Break(eol, blocks) + EncodedBlock(s[p..next]) + Encoded(s[next..], eol, blocks + 1)
  {
    hide EncodedBlock, Break;
    var rest := s[p..];
    assert rest[..Size(rest, 3)] == s[p..next] && rest[Size(rest, 3)..] == s[next..];
  }

  /** Encoding, with lines of nineteen blocks unless eol is empty. */
  method Encode(s: seq<byte>, eol: seq<byte>) returns (t: seq<byte>)
    ensures t == Encoded(s, eol, 0)
  {
    hide EncodedBlock, Encoded;
    var blocks, p := 0, 0;
    t := [];
    assert s[0..] == s;
    while p < |s|
      invariant p <= |s| && t + Encoded(s[p..], eol, blocks) == Encoded(s, eol, 0)
    {
      ghost var was := t;
      if eol != [] && blocks != 0 && blocks % BLOCKS_PER_LINE == 0 {
        t := t + eol;
      }
      assert t == was + Break(eol, blocks);
      var next, block := EncodeBlock(s, p);
      EncodedStep(was, s, p, next, eol, blocks);
      t := t + block;
      p, blocks := next, blocks + 1;
    }
    EncodedNothing(eol, blocks);
    assert s[p..] == [] && t + [] == t;
  }

  lemma EncodedNothing(eol: seq<byte>, blocks: nat)
    ensures Encoded([], eol, blocks) == []
  {
  }

  /** accumulate_6(): the next six bits, or zeros for a pad or the end of the input. */
  method Accumulate6(n0: u32, t: seq<byte>, p0: nat, bits0: nat, error0: bool)
    returns (n: u32, p: nat, bits: nat, error: bool)
    requires p0 <= |t|
    ensures n == Push6(n0, Group(t, p0)) && bits == bits0 + 6 * IsDigit(t, p0)
    ensures p == (if p0 < |t| then p0 + 1 else p0) && error == (error0 || IsStranger(t, p0))
  {
    hide Index, Shift6, Or;
    PadHasNoIndex();
    OrNothing(Shift6(n0));
    p, bits, error := p0, bits0, error0;
    n := Shift6(n0);
    if p == |t| {
    } else if t[p] == PAD {
      p := p + 1;
    } else {
      var index := Index(t[p]);
      error := error || index == None;
      if index != None {
        n := Or(n, index.value);
      }
      p, bits := p + 1, bits + 6;
    }
  }

  lemma OrNothing(n: u32)
    ensures Or(n, 0) == n
  {
  }

  /** generate_8(): a byte if there are bits for it; otherwise what is left must be zero. */
  method Generate8(n0: u32, bits0: nat, given: seq<byte>, error0: bool)
    returns (n: u32, bits: nat, bytes: seq<byte>, error: bool)
    ensures if bits0 >= 8 then n == Shift8(n0) && bits == bits0 - 8 && bytes == given + [Hi8(n0)] && error == error0
            else n == n0 && bits == bits0 && bytes == given && error == (error0 || Hi8(n0) != 0)
  {
    n, bits, bytes, error := n0, bits0, given, error0;
    if bits >= 8 {
      bits := bits - 8;
      bytes := bytes + [Hi8(n)];
      n := n << 8;
    } else if Hi8(n) != 0 {
      error := true;
    }
  }

  method DecodeBlock(t: seq<byte>, p0: nat, error0: bool) returns (p: nat, bytes: seq<byte>, error: bool)
    requires p0 < |t|
    ensures p == p0 + Size(t[p0..], 4)
    ensures var block := DecodedBlock(t[p0..p]); bytes == block.bytes && error == (error0 || block.error)
  {
    hide Hi8, Octet, Push6, Shift8, Group, IsDigit, IsStranger;
    var n, bits := 0, 0;
    p, bytes, error := p0, [], error0;
    PastTheEnd(t);
    n, p, bits, error := Accumulate6(n, t, p, bits, error);
    n, p, bits, error := Accumulate6(n, t, p, bits, error);
    n, p, bits, error := Accumulate6(n, t, p, bits, error);
    n, p, bits, error := Accumulate6(n, t, p, bits, error);
    if bits < 8 {
      error := true;
    }
    OctetsOfWord(Group(t, p0), Group(t, p0 + 1), Group(t, p0 + 2), Group(t, p0 + 3));
    n, bits, bytes, error := Generate8(n, bits, bytes, error);
    n, bits, bytes, error := Generate8(n, bits, bytes, error);
    n, bits, bytes, error := Generate8(n, bits, bytes, error);
    BlockOf(t, p0, p);
  }

  lemma PastTheEnd(t: seq<byte>)
    ensures forall i: nat :: i >= |t| ==> Group(t, i) == 0 && IsDigit(t, i) == 0
    ensures forall i: nat :: i >= |t| ==> !IsStranger(t, i)
  {
  }

  lemma BlockOf(t: seq<byte>, p: nat, q: nat)
    requires p < |t| && q == p + Size(t[p..], 4)
    ensures forall i: nat :: i < 4 ==> Group(t[p..q], i) == Group(t, p + i) && IsDigit(t[p..q], i) == IsDigit(t, p + i)
    ensures HasStranger(t[p..q]) == (IsStranger(t, p) || IsStranger(t, p + 1) || IsStranger(t, p + 2) || IsStranger(t, p + 3))
  {
    hide Index;
    var block := t[p..q];
    assert forall i: nat :: i < 4 ==> IsStranger(block, i) == IsStranger(t, p + i);
  }

  method DecodeImp(t: seq<byte>, error0: bool) returns (bytes: seq<byte>, error: bool)
    ensures bytes == Decoded(t).bytes && error == (error0 || Decoded(t).error)
  {
    hide DecodedBlock;
    bytes, error := [], error0;
    var p := 0;
    assert t[0..] == t;
    while p != |t|
      invariant p <= |t|
      invariant bytes + Decoded(t[p..]).bytes == Decoded(t).bytes
      invariant (error || Decoded(t[p..]).error) == (error0 || Decoded(t).error)
      decreases |t| - p
    {
      ghost var rest := t[p..];
      if t[p] == CR || t[p] == LF || t[p] == SPACE {
        assert t[p + 1..] == rest[1..];
        p := p + 1;
        continue;
      }
      var block;
      ghost var was := p;
      p, block, error := DecodeBlock(t, p, error);
      assert t[was..p] == rest[..Size(rest, 4)] && t[p..] == rest[Size(rest, 4)..];
      bytes := bytes + block;
    }
  }

  /** Decoding: nothing, and an error, unless the text is in order. */
  method Decode(t: seq<byte>, strict: bool) returns (bytes: seq<byte>, error: bool)
    ensures error == (Decoded(t).error || (strict && !StrictlyValid(t)))
    ensures bytes == if error then [] else Decoded(t).bytes
  {
    error := strict && !StrictlyValid(t);
    bytes, error := DecodeImp(t, error);
    if error {
      bytes := [];
    }
  }
}
