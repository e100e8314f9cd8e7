/** Conversions between UTF-8 and wide strings (src/glib/gconvert.cpp).

    A byte is an integer below 256 and a wide unit an integer below 2^32.  The masks and
    shifts of the source are written as the comparisons, remainders and products that they
    compute on those integers. */
module Convert {
  type byte = x: int | 0 <= x < 0x100
  type unit = x: int | 0 <= x < 0x1_0000_0000

  const UNICODE_ERROR: unit := 0xFFFF_FFFF
  const REPLACEMENT: unit := 0xFFFD
  const MAX_CODE_POINT: unit := 0x10FFFF

  // ----- UTF-8 in and out, one character at a time

  predicate Continuation(b: int) {
    0x80 <= b < 0xC0
  }

  /** The value and the size of the first character, or UNICODE_ERROR and 1. */
  function U8in(p: seq<byte>): (r: (unit, nat))
    ensures p != [] ==> 1 <= r.1 <= |p|
    ensures r.0 == UNICODE_ERROR ==> r.1 == 1
  {
    if |p| == 0 then (UNICODE_ERROR, 1)
    else if p[0] < 0x80 then (p[0], 1)
    else if p[0] < 0xC0 then (UNICODE_ERROR, 1)
    else if p[0] < 0xE0 then
      if |p| > 1 && !Overlong2(p[0]) && Continuation(p[1]) then (Value2(p[0], p[1]), 2)
      else (UNICODE_ERROR, 1)
    else if p[0] < 0xF0 then
      if |p| > 2 && !Overlong3(p[0], p[1]) && !Surrogate3(p[0], p[1]) && Continuation(p[1]) && Continuation(p[2])
      then (Value3(p[0], p[1], p[2]), 3)
      else (UNICODE_ERROR, 1)
    else if p[0] < 0xF8 then
      if |p| > 3 && !Overlong4(p[0], p[1]) && Continuation(p[1]) && Continuation(p[2]) && Continuation(p[3])
      then (Value4(p[0], p[1], p[2], p[3]), 4)
      else (UNICODE_ERROR, 1)
    else (UNICODE_ERROR, 1)
  }

  predicate Overlong2(a: int) { a % 0x20 / 2 == 0 }
  predicate Overlong3(a: int, b: int) { a % 0x10 == 0 && b / 0x20 % 2 == 0 }
  predicate Surrogate3(a: int, b: int) { a % 0x10 == 0xD && b / 0x20 % 2 == 1 }
  predicate Overlong4(a: int, b: int) { a % 8 == 0 && b / 0x10 % 4 == 0 }

  function Value2(a: int, b: int): unit { a % 0x20 * 0x40 + b % 0x40 }
  function Value3(a: int, b: int, c: int): unit { a % 0x10 * 0x1000 + b % 0x40 * 0x40 + c % 0x40 }
  function Value4(a: int, b: int, c: int, d: int): unit {
    a % 8 * 0x4_0000 + b % 0x40 * 0x1000 + c % 0x40 * 0x40 + d % 0x40
  }

  /** The UTF-8 bytes of a code point, none if it is out of range. */
  function U8bytes(u: unit): seq<byte> {
    if u > MAX_CODE_POINT then []
    else if u <= 0x7F then [u]
    else if u <= 0x7FF then [Lead(0xC0, u / 0x40, 0x20), Tail(u)]
    else if u <= 0xFFFF then [Lead(0xE0, u / 0x1000, 0x10), Tail(u / 0x40), Tail(u)]
    else [Lead(0xF0, u / 0x4_0000, 8), Tail(u / 0x1000), Tail(u / 0x40), Tail(u)]
  }

  function Lead(mark: int, v: int, limit: int): byte
    requires 0 < limit && 0 <= mark && mark + limit <= 0x100
  {
    mark + v % limit
  }

  function Tail(v: int): byte {
    0x80 + v % 0x40
  }

  /** A Unicode scalar value: a code point that is not a surrogate. */
  predicate Scalar(u: unit) {
    u <= MAX_CODE_POINT && !(0xD800 <= u <= 0xDFFF)
  }

  lemma InAfterOut(u: unit, rest: seq<byte>)
    requires Scalar(u)
    ensures U8in(U8bytes(u) + rest) == (u, |U8bytes(u)|)
  {
    var p := U8bytes(u) + rest;
    if u <= 0x7F {
    } else if u <= 0x7FF {
      Recompose2(u);
    } else if u <= 0xFFFF {
      Recompose3(u);
    } else {
      Recompose4(u);
    }
  }

  lemma TwoShifts(u: int)
    ensures u / 0x1000 == u / 0x40 / 0x40
    ensures u / 0x4_0000 == u / 0x1000 / 0x40
  {
  }

  lemma TailValue(v: int)
    ensures Tail(v) % 0x40 == v % 0x40 && Continuation(Tail(v))
  {
  }

  lemma Recompose2(u: int)
    requires 0x80 <= u <= 0x7FF
    ensures var a, b := Lead(0xC0, u / 0x40, 0x20), Tail(u);
      0xC0 <= a < 0xE0 && Continuation(b) && !Overlong2(a) && Value2(a, b) == u
  {
    TailValue(u);
  }

  lemma Recompose3(u: int)
    requires 0x800 <= u <= 0xFFFF && !(0xD800 <= u <= 0xDFFF)
    ensures var a, b, c := Lead(0xE0, u / 0x1000, 0x10), Tail(u / 0x40), Tail(u);
      && 0xE0 <= a < 0xF0 && Continuation(b) && Continuation(c)
      && !Overlong3(a, b) && !Surrogate3(a, b) && Value3(a, b, c) == u
  {
    TwoShifts(u);
    var y := u / 0x40;
    var x := y / 0x40;
    TailValue(u);
    TailValue(y);
    assert Lead(0xE0, x, 0x10) == 0xE0 + x && (0xE0 + x) % 0x10 == x;
    assert Tail(y) / 0x20 % 2 == y % 0x40 / 0x20;
  }

  lemma Recompose4(u: int)
    requires 0x1_0000 <= u <= MAX_CODE_POINT
    ensures var a, b, c, d := Lead(0xF0, u / 0x4_0000, 8), Tail(u / 0x1000), Tail(u / 0x40), Tail(u);
      && 0xF0 <= a < 0xF8 && Continuation(b) && Continuation(c) && Continuation(d)
      && !Overlong4(a, b) && Value4(a, b, c, d) == u
  {
    TwoShifts(u);
    var z := u / 0x40;
    var y := z / 0x40;
    var x := y / 0x40;
    TailValue(u);
    TailValue(z);
    TailValue(y);
    assert Lead(0xF0, x, 8) == 0xF0 + x && (0xF0 + x) % 8 == x;
    assert Tail(y) / 0x10 % 4 == y % 0x40 / 0x10;
  }

  lemma OutAfterIn(p: seq<byte>)
    requires U8in(p).0 <= MAX_CODE_POINT
    ensures Scalar(U8in(p).0)
    ensures U8bytes(U8in(p).0) == p[..U8in(p).1]
  {
    var d := U8in(p).1;
    if d == 2 {
      Decompose2(p[0], p[1]);
    } else if d == 3 {
      Decompose3(p[0], p[1], p[2]);
    } else if d == 4 {
      Decompose4(p[0], p[1], p[2], p[3]);
    }
  }

  /** Continuation bytes are the tails of their own low bits. */
  lemma TailAgain(v: int, b: int)
    requires Continuation(b)
    ensures (v * 0x40 + b % 0x40) / 0x40 == v
    ensures Tail(v * 0x40 + b % 0x40) == b
  {
  }

  lemma Decompose2(a: int, b: int)
    requires 0xC0 <= a < 0xE0 && Continuation(b) && !Overlong2(a)
    ensures var u := Value2(a, b);
      0x80 <= u <= 0x7FF && a == Lead(0xC0, u / 0x40, 0x20) && b == Tail(u)
  {
    TailAgain(a % 0x20, b);
  }

  lemma Decompose3(a: int, b: int, c: int)
    requires 0xE0 <= a < 0xF0 && Continuation(b) && Continuation(c)
    requires !Overlong3(a, b) && !Surrogate3(a, b)
    ensures var u := Value3(a, b, c);
      && 0x800 <= u <= 0xFFFF && Scalar(u)
      && a == Lead(0xE0, u / 0x1000, 0x10) && b == Tail(u / 0x40) && c == Tail(u)
  {
    var x := a % 0x10;
    var y := x * 0x40 + b % 0x40;
    var u := y * 0x40 + c % 0x40;
    TailAgain(x, b);
    TailAgain(y, c);
    TwoShifts(u);
    assert a == 0xE0 + x;
    assert b / 0x20 % 2 == b % 0x40 / 0x20;
  }

  lemma Decompose4(a: int, b: int, c: int, d: int)
    requires 0xF0 <= a < 0xF8 && Continuation(b) && Continuation(c) && Continuation(d)
    requires !Overlong4(a, b) && Value4(a, b, c, d) <= MAX_CODE_POINT
    ensures var u := Value4(a, b, c, d);
      && 0x1_0000 <= u
      && a == Lead(0xF0, u / 0x4_0000, 8) && b == Tail(u / 0x1000) && c == Tail(u / 0x40) && d == Tail(u)
  {
    var x := a % 8;
    var y := x * 0x40 + b % 0x40;
    var z := y * 0x40 + c % 0x40;
    var u := z * 0x40 + d % 0x40;
    TailAgain(x, b);
    TailAgain(y, c);
    TailAgain(z, d);
    TwoShifts(u);
    assert a == 0xF0 + x;
    assert b / 0x10 % 4 == b % 0x40 / 0x10;
  }

  // ----- UTF-8 strings

  function ErrorReplaced(u: unit): unit {
    if u == UNICODE_ERROR then REPLACEMENT else u
  }

  /** The code points seen by the u8parse() callback. */
  function Parse(s: seq<byte>): seq<unit> {
    if s == [] then []
    else [ErrorReplaced(U8in(s).0)] + Parse(s[U8in(s).1..])
  }

  /** What Convert::valid() reports: no character gives UNICODE_ERROR. */
  predicate Valid(s: seq<byte>) {
    s == [] || (U8in(s).0 != UNICODE_ERROR && Valid(s[U8in(s).1..]))
  }

  /** The bytes of a code point as narrowImp() writes them. */
  function NarrowOne(u: unit): seq<byte> {
    if u > MAX_CODE_POINT then [0xEF, 0xBF, 0xBD] else U8bytes(u)
  }

  function Encode(us: seq<unit>): seq<byte> {
    if us == [] then [] else NarrowOne(us[0]) + Encode(us[1..])
  }

  predicate AllScalar(us: seq<unit>) {
    forall i :: 0 <= i < |us| ==> Scalar(us[i])
  }

  lemma {:induction false} ParseEncode(us: seq<unit>)
    requires AllScalar(us)
    ensures Parse(Encode(us)) == us && Valid(Encode(us))
  {
    if us != [] {
      var first, rest := U8bytes(us[0]), Encode(us[1..]);
      InAfterOut(us[0], rest);
      assert (first + rest)[|first|..] == rest;
      ParseEncode(us[1..]);
    }
  }

  // ----- section 4 of RFC 3629

  predicate RfcTail(b: byte) {
    0x80 <= b <= 0xBF
  }

  /** The size of the UTF8-char at the front of the string, zero if there is none. */
  function RfcSize(s: seq<byte>): (n: nat)
    ensures n <= |s|
  {
    if |s| >= 1 && s[0] <= 0x7F then 1
    else if |s| >= 2 && 0xC2 <= s[0] <= 0xDF && RfcTail(s[1]) then 2
    else if |s| >= 3 && RfcTail(s[2])
            && (|| (s[0] == 0xE0 && 0xA0 <= s[1] <= 0xBF)
                || (0xE1 <= s[0] <= 0xEC && RfcTail(s[1]))
                || (s[0] == 0xED && 0x80 <= s[1] <= 0x9F)
                || (0xEE <= s[0] <= 0xEF && RfcTail(s[1]))) then 3
    else if |s| >= 4 && RfcTail(s[2]) && RfcTail(s[3])
            && (|| (s[0] == 0xF0 && 0x90 <= s[1] <= 0xBF)
                || (0xF1 <= s[0] <= 0xF3 && RfcTail(s[1]))
                || (s[0] == 0xF4 && 0x80 <= s[1] <= 0x8F)) then 4
    else 0
  }

  predicate RfcUtf8(s: seq<byte>) {
    s == [] || (RfcSize(s) != 0 && RfcUtf8(s[RfcSize(s)..]))
  }

  /** u8in() accepts exactly the UTF8-char grammar as long as the value it returns is in range. */
  lemma InMeetsGrammar(p: seq<byte>)
    requires p != []
    ensures (U8in(p).0 <= MAX_CODE_POINT) <==> RfcSize(p) != 0
    ensures RfcSize(p) != 0 ==> RfcSize(p) == U8in(p).1
  {
    if p[0] >= 0xF0 && |p| > 3 && Continuation(p[1]) {
      RangeOfFour(p[0], p[1], p[2], p[3]);
    }
  }

  lemma RangeOfFour(a: byte, b: byte, c: byte, d: byte)
    requires 0xF0 <= a && Continuation(b)
    ensures a < 0xF8 ==> (Value4(a, b, c, d) <= MAX_CODE_POINT <==> a < 0xF4 || (a == 0xF4 && b < 0x90))
  {
  }

  /** A string is UTF-8 if and only if the source calls it valid and no code point is out of range. */
  lemma {:induction false} ValidMeetsGrammar(s: seq<byte>)
    ensures RfcUtf8(s) <==> Valid(s) && forall i :: 0 <= i < |Parse(s)| ==> Parse(s)[i] <= MAX_CODE_POINT
  {
    if s != [] {
      var u, rest := U8in(s).0, s[U8in(s).1..];
      InMeetsGrammar(s);
      ValidMeetsGrammar(rest);
      assert Parse(s) == [ErrorReplaced(u)] + Parse(rest);
      if RfcUtf8(s) {
        forall i | 0 <= i < |Parse(s)| ensures Parse(s)[i] <= MAX_CODE_POINT {
          assert i > 0 ==> Parse(s)[i] == Parse(rest)[i - 1];
        }
      } else if Valid(s) {
        if u <= MAX_CODE_POINT {
          var j :| 0 <= j < |Parse(rest)| && Parse(rest)[j] > MAX_CODE_POINT;
          assert Parse(s)[j + 1] == Parse(rest)[j];
        } else {
          assert Parse(s)[0] == u;
        }
      }
    }
  }

  /** The first code point out of range: the source calls it valid, the standard does not. */
  lemma OutOfRangeIsValid()
    ensures var s: seq<byte> := [0xF4, 0x90, 0x80, 0x80]; Valid(s) && !RfcUtf8(s)
  {
    var s: seq<byte> := [0xF4, 0x90, 0x80, 0x80];
    assert U8in(s) == (0x11_0000, 4);
    assert s[4..] == [];
  }

  // ----- section 3 of RFC 3629

  /** The bytes of a scalar value. */
  function RfcBytes(u: unit): seq<int> {
    if u < 0x80 then [u]
    else if u < 0x800 then [0xC0 + u / 64, 0x80 + u % 64]
    else if u < 0x1_0000 then [0xE0 + u / 4096, 0x80 + u / 64 % 64, 0x80 + u % 64]
    else [0xF0 + u / 262144, 0x80 + u / 4096 % 64, 0x80 + u / 64 % 64, 0x80 + u % 64]
  }

  lemma OutIsRfc(u: unit)
    ensures u <= 0x10_FFFF ==> U8bytes(u) == RfcBytes(u)
    ensures u > 0x10_FFFF ==> U8bytes(u) == []
  {
  }

  /** Four bytes that stand for a number above the last code point, as u8in() reads them. */
  predicate IsAboveRange(s: seq<byte>) {
    && |s| >= 4 && RfcTail(s[1]) && RfcTail(s[2]) && RfcTail(s[3])
    && (0xF5 <= s[0] <= 0xF7 || (s[0] == 0xF4 && s[1] >= 0x90))
  }

  function Number(a: int, b: int, c: int, d: int): int {
    (a - 0xF0) * 262144 + (b - 0x80) * 4096 + (c - 0x80) * 64 + (d - 0x80)
  }

  /** Parsing takes off the bytes of one scalar value, or of a number above the last one, or replaces one
      byte by U+FFFD. */
  lemma ParseMeans(s: seq<byte>)
    requires s != []
    ensures Parse(s) != []
    ensures RfcSize(s) != 0 ==>
      RfcBytes(Parse(s)[0]) == s[..RfcSize(s)] && Parse(s)[0] <= 0x10_FFFF && Parse(s)[1..] == Parse(s[RfcSize(s)..])
    ensures IsAboveRange(s) ==> Parse(s)[0] == Number(s[0], s[1], s[2], s[3]) && Parse(s)[1..] == Parse(s[4..])
    ensures RfcSize(s) == 0 && !IsAboveRange(s) ==> Parse(s) == [0xFFFD] + Parse(s[1..])
  {
    hide U8in, RfcSize, U8bytes, RfcBytes;
    InMeetsGrammar(s);
    if RfcSize(s) != 0 {
      OutAfterIn(s);
      OutIsRfc(U8in(s).0);
    } else {
      NotInGrammar(s);
    }
    assert Parse(s) == [ErrorReplaced(U8in(s).0)] + Parse(s[U8in(s).1..]);
    AboveIsNoGrammar(s);
  }

  lemma AboveIsNoGrammar(s: seq<byte>)
    ensures IsAboveRange(s) ==> RfcSize(s) == 0
  {
  }

  lemma NotInGrammar(s: seq<byte>)
    requires s != [] && RfcSize(s) == 0
    ensures if IsAboveRange(s) then U8in(s).0 == Number(s[0], s[1], s[2], s[3]) != UNICODE_ERROR && U8in(s).1 == 4
            else U8in(s) == (UNICODE_ERROR, 1)
  {
    if |s| > 3 && Continuation(s[1]) && 0xF0 <= s[0] < 0xF8 {
      RangeOfFour(s[0], s[1], s[2], s[3]);
    }
  }

  lemma {:induction false} RfcIsScalar(s: seq<byte>)
    requires RfcUtf8(s)
    ensures AllScalar(Parse(s))
  {
    hide U8in, RfcSize;
    if s != [] {
      InMeetsGrammar(s);
      OutAfterIn(s);
      RfcIsScalar(s[U8in(s).1..]);
    }
  }

  lemma {:induction false} EncodeParse(s: seq<byte>)
    requires RfcUtf8(s)
    ensures Encode(Parse(s)) == s
  {
    hide U8in, U8bytes, RfcSize;
    if s != [] {
      var (u, d) := U8in(s);
      var rest := s[d..];
      InMeetsGrammar(s);
      OutAfterIn(s);
      EncodeParse(rest);
      calc {
        Encode(Parse(s));
        Encode([u] + Parse(rest));
        { assert ([u] + Parse(rest))[1..] == Parse(rest); }
        NarrowOne(u) + Encode(Parse(rest));
        s[..d] + rest;
        s;
      }
    }
  }

  lemma {:induction false} EncodedIsRfc(us: seq<unit>)
    requires AllScalar(us)
    ensures RfcUtf8(Encode(us))
  {
    if us != [] {
      var first, rest := U8bytes(us[0]), Encode(us[1..]);
      InAfterOut(us[0], rest);
      InMeetsGrammar(first + rest);
      assert (first + rest)[|first|..] == rest;
      EncodedIsRfc(us[1..]);
    }
  }

  // ----- wide strings

  /** The units that widenImp() writes for one code point. */
  function WideOne(utf16: bool, u: unit): seq<unit> {
    if !utf16 then [u]
    else if u <= 0xD7FF || 0xE000 <= u <= 0xFFFF then [u]
    else if 0x1_0000 <= u <= 0x10FFFF then
      [0xD800 + (u - 0x1_0000) / 0x400, 0xDC00 + (u - 0x1_0000) % 0x400]
    else [REPLACEMENT]
  }

  function Wide(utf16: bool, us: seq<unit>): seq<unit> {
    if us == [] then [] else WideOne(utf16, us[0]) + Wide(utf16, us[1..])
  }

  predicate High(u: unit) { 0xD800 <= u <= 0xDBFF }
  predicate Low(u: unit) { 0xDC00 <= u <= 0xDFFF }

  /** The bitwise or of 0x10000 and a value of at most twenty bits. */
  function OrBit16(v: int): int {
    if v / 0x1_0000 % 2 == 1 then v else v + 0x1_0000
  }

  /** One step of narrowImp(): the code point, out of range if it is an error, and the units used. */
  function NarrowIn(utf16: bool, w: seq<unit>): (r: (unit, nat))
    requires w != []
    ensures 1 <= r.1 <= |w|
  {
    if !utf16 then (w[0], 1)
    else if High(w[0]) && |w| > 1 && Low(w[1]) then
      (OrBit16(w[0] % 0x400 * 0x400 + w[1] % 0x400), 2)
    else if High(w[0]) || Low(w[0]) then (UNICODE_ERROR, 1)
    else (w[0], 1)
  }

  function NarrowUnits(utf16: bool, w: seq<unit>): seq<unit> {
    if w == [] then []
    else [NarrowIn(utf16, w).0] + NarrowUnits(utf16, w[NarrowIn(utf16, w).1..])
  }

  function Widened(utf16: bool, s: seq<byte>): seq<unit> {
    Wide(utf16, Parse(s))
  }

  function Narrowed(utf16: bool, w: seq<unit>): seq<byte> {
    Encode(NarrowUnits(utf16, w))
  }

  // ----- section 2 of RFC 2781

  /** UTF-16 has one unit below 0x10000 and two above, and U+FFFD for what is no code point. */
  lemma WideIsRfc(u: unit)
    requires !(0xD800 <= u <= 0xDFFF)
    ensures WideOne(true, u) ==
      if u < 0x1_0000 then [u]
      else if u <= 0x10_FFFF then [0xD800 + (u - 0x1_0000) / 0x400, 0xDC00 + (u - 0x1_0000) % 0x400]
      else [0xFFFD]
  {
  }

  /** Of a pair of surrogates narrowing reads the number of the standard if that is in an odd plane, and otherwise
      that of the plane below; a surrogate alone, or a unit that is no code point, is written as U+FFFD. */
  lemma NarrowMeans(w: seq<unit>)
    requires w != []
    ensures 0xD800 <= w[0] <= 0xDBFF && |w| > 1 && 0xDC00 <= w[1] <= 0xDFFF ==>
      var u := 0x1_0000 + (w[0] - 0xD800) * 0x400 + (w[1] - 0xDC00);
      NarrowIn(true, w) == (if u / 0x1_0000 % 2 == 1 then u else u - 0x1_0000, 2)
    ensures 0xD800 <= w[0] <= 0xDFFF && !(w[0] <= 0xDBFF && |w| > 1 && 0xDC00 <= w[1] <= 0xDFFF) ==>
      NarrowIn(true, w).1 == 1 && NarrowOne(NarrowIn(true, w).0) == [0xEF, 0xBF, 0xBD]
    ensures !(0xD800 <= w[0] <= 0xDFFF) ==> NarrowIn(true, w) == (w[0], 1)
    ensures w[0] > 0x10_FFFF ==> NarrowOne(w[0]) == [0xEF, 0xBF, 0xBD]
  {
    if 0xD800 <= w[0] <= 0xDBFF && |w| > 1 && 0xDC00 <= w[1] <= 0xDFFF {
      PairValue(w[0], w[1]);
    }
  }

  lemma PairValue(h: int, l: int)
    requires 0xD800 <= h <= 0xDBFF && 0xDC00 <= l <= 0xDFFF
    ensures var u := 0x1_0000 + (h - 0xD800) * 0x400 + (l - 0xDC00);
      OrBit16(h % 0x400 * 0x400 + l % 0x400) == if u / 0x1_0000 % 2 == 1 then u else u - 0x1_0000
  {
    assert h % 0x400 == h - 0xD800 && l % 0x400 == l - 0xDC00;
    var v := (h - 0xD800) * 0x400 + (l - 0xDC00);
    assert (0x1_0000 + v) / 0x1_0000 == v / 0x1_0000 + 1;
  }

  // ----- what widening and then narrowing does to one code point

  /** A supplementary code point of an even plane comes back one plane lower. */
  function Fixed16(u: unit): unit {
    if u > MAX_CODE_POINT then REPLACEMENT
    else if u >= 0x1_0000 && u / 0x1_0000 % 2 == 0 then u - 0x1_0000
    else u
  }

  function Fixed(utf16: bool, u: unit): unit {
    if utf16 then Fixed16(u) else if u > MAX_CODE_POINT then REPLACEMENT else u
  }

  function FixedAll(utf16: bool, us: seq<unit>): (r: seq<unit>) {
    seq(|us|, i requires 0 <= i < |us| => Fixed(utf16, us[i]))
  }

  /** The code points that u8in() can return. */
  predicate Parsed(u: unit) {
    !(0xD800 <= u <= 0xDFFF) && u < 0x20_0000
  }

  lemma {:induction false} ParseIsParsed(s: seq<byte>)
    ensures forall i :: 0 <= i < |Parse(s)| ==> Parsed(Parse(s)[i])
  {
    if s != [] {
      var u, rest := U8in(s).0, s[U8in(s).1..];
      if u <= MAX_CODE_POINT {
        OutAfterIn(s);
      }
      ParseIsParsed(rest);
    }
  }

  lemma NarrowAfterWideOne(utf16: bool, u: unit, rest: seq<unit>)
    requires Parsed(u)
    ensures var w := WideOne(utf16, u);
      && NarrowIn(utf16, w + rest).1 == |w|
      && NarrowOne(NarrowIn(utf16, w + rest).0) == NarrowOne(Fixed(utf16, u))
  {
    if utf16 && 0x1_0000 <= u <= MAX_CODE_POINT {
      SurrogatesRejoin(u);
      assert (WideOne(utf16, u) + rest)[0] == 0xD800 + (u - 0x1_0000) / 0x400;
      assert (WideOne(utf16, u) + rest)[1] == 0xDC00 + (u - 0x1_0000) % 0x400;
    }
  }

  lemma SurrogatesRejoin(u: int)
    requires 0x1_0000 <= u <= 0x10FFFF
    ensures var h, l := 0xD800 + (u - 0x1_0000) / 0x400, 0xDC00 + (u - 0x1_0000) % 0x400;
      h <= 0xDBFF && l <= 0xDFFF && OrBit16(h % 0x400 * 0x400 + l % 0x400) == Fixed16(u)
  {
    var v := u - 0x1_0000;
    var h, l := v / 0x400, v % 0x400;
    assert (0xD800 + h) % 0x400 == h;
    assert (0xDC00 + l) % 0x400 == l;
    assert v / 0x1_0000 + 1 == u / 0x1_0000;
  }

  lemma {:induction false} NarrowAfterWide(utf16: bool, us: seq<unit>)
    requires forall i :: 0 <= i < |us| ==> Parsed(us[i])
    ensures Encode(NarrowUnits(utf16, Wide(utf16, us))) == Encode(FixedAll(utf16, us))
  {
    hide WideOne, NarrowIn, NarrowOne, Fixed;
    if us != [] {
      var w, rest := WideOne(utf16, us[0]), Wide(utf16, us[1..]);
      NarrowAfterWideOne(utf16, us[0], rest);
      assert (w + rest)[|w|..] == rest;
      NarrowAfterWide(utf16, us[1..]);
      assert FixedAll(utf16, us) == [Fixed(utf16, us[0])] + FixedAll(utf16, us[1..]);
      var x := NarrowIn(utf16, w + rest).0;
      assert NarrowUnits(utf16, w + rest) == [x] + NarrowUnits(utf16, rest);
    }
  }

  lemma FixedIsScalar(utf16: bool, u: unit)
    requires Parsed(u)
    ensures Scalar(Fixed(utf16, u))
  {
  }

  /** For any bytes whatever, what comes back is the UTF-8 of the fixed code points. */
  lemma RoundTrip(utf16: bool, s: seq<byte>)
    ensures Narrowed(utf16, Widened(utf16, s)) == Encode(FixedAll(utf16, Parse(s)))
    ensures AllScalar(FixedAll(utf16, Parse(s)))
    ensures RfcUtf8(Narrowed(utf16, Widened(utf16, s)))
  {
    var us := Parse(s);
    ParseIsParsed(s);
    NarrowAfterWide(utf16, us);
    forall i | 0 <= i < |us| ensures Scalar(FixedAll(utf16, us)[i]) {
      FixedIsScalar(utf16, us[i]);
    }
    EncodedIsRfc(FixedAll(utf16, Parse(s)));
  }

  /** In UCS-4 mode the round trip is the identity on exactly the UTF-8 strings. */
  lemma RoundTripUcs4(s: seq<byte>)
    ensures Narrowed(false, Widened(false, s)) == s <==> RfcUtf8(s)
  {
    RoundTrip(false, s);
    if RfcUtf8(s) {
      EncodeParse(s);
      RfcIsScalar(s);
      assert FixedAll(false, Parse(s)) == Parse(s);
    }
  }

  /** In UCS-4 mode the round trip replaces what is not UTF-8 once and for all. */
  lemma RoundTripIdempotent(s: seq<byte>)
    ensures var t := Narrowed(false, Widened(false, s)); Narrowed(false, Widened(false, t)) == t
  {
    RoundTrip(false, s);
    RoundTripUcs4(Narrowed(false, Widened(false, s)));
  }

  /** In UTF-16 mode it is the identity on exactly the UTF-8 strings with no code point in an even
      supplementary plane. */
  lemma RoundTripUtf16(s: seq<byte>)
    ensures Narrowed(true, Widened(true, s)) == s
      <==> RfcUtf8(s) && forall i :: 0 <= i < |Parse(s)| ==> Parse(s)[i] / 0x1_0000 % 2 == 1 || Parse(s)[i] < 0x1_0000
  {
    RoundTrip(true, s);
    var us, vs := Parse(s), FixedAll(true, Parse(s));
    if RfcUtf8(s) {
      EncodeParse(s);
      RfcIsScalar(s);
      if vs != us && Encode(vs) == s {
        ParseEncode(vs);
        assert false;
      }
      assert vs == us <==> forall i :: 0 <= i < |us| ==> vs[i] == us[i];
    }
  }

  /** U+20000, the first code point of plane 2, comes back as U+10000. */
  lemma EvenPlaneIsLost()
    ensures Widened(true, [0xF0, 0xA0, 0x80, 0x80]) == [0xD840, 0xDC00]
    ensures Narrowed(true, [0xD840, 0xDC00]) == [0xF0, 0x90, 0x80, 0x80]
  {
    EvenPlaneWidened();
    EvenPlaneNarrowed();
  }

  lemma EvenPlaneWidened()
    ensures Widened(true, [0xF0, 0xA0, 0x80, 0x80]) == [0xD840, 0xDC00]
  {
    var s: seq<byte> := [0xF0, 0xA0, 0x80, 0x80];
    assert U8in(s) == (0x2_0000, 4);
    assert Parse(s) == [0x2_0000] + Parse(s[4..]);
    assert Wide(true, [0x2_0000]) == WideOne(true, 0x2_0000) + Wide(true, []);
  }

  lemma EvenPlaneNarrowed()
    ensures Narrowed(true, [0xD840, 0xDC00]) == [0xF0, 0x90, 0x80, 0x80]
  {
    var w: seq<unit> := [0xD840, 0xDC00];
    assert NarrowUnits(true, w) == [0x1_0000] + NarrowUnits(true, w[2..]);
    assert Encode([0x1_0000]) == NarrowOne(0x1_0000) + Encode([]);
  }

  // ----- the two-pass loops

  /** Writes one code point at the given offset, or only counts its bytes if there is no buffer. */
  method U8out(u: unit, out: array?<byte>, offset: nat) returns (n: nat)
    requires out != null ==> offset + |U8bytes(u)| <= out.Length
    modifies if out == null then {} else {out}
    ensures n == |U8bytes(u)|
    ensures out != null ==> out[..offset + n] == old(out[..offset]) + U8bytes(u)
  {
    if u > MAX_CODE_POINT {
      n := 0;
    } else if u <= 0x7F {
      if out != null {
        out[offset] := u;
      }
      n := 1;
    } else if u <= 0x7FF {
      if out != null {
        out[offset] := 0xC0 + u / 0x40 % 0x20;
        out[offset + 1] := 0x80 + u % 0x40;
      }
      n := 2;
    } else if u <= 0xFFFF {
      if out != null {
        out[offset] := 0xE0 + u / 0x1000 % 0x10;
        out[offset + 1] := 0x80 + u / 0x40 % 0x40;
        out[offset + 2] := 0x80 + u % 0x40;
      }
      n := 3;
    } else {
      if out != null {
        out[offset] := 0xF0 + u / 0x4_0000 % 8;
        out[offset + 1] := 0x80 + u / 0x1000 % 0x40;
        out[offset + 2] := 0x80 + u / 0x40 % 0x40;
        out[offset + 3] := 0x80 + u % 0x40;
      }
      n := 4;
    }
  }

  /** The body of the widenImp() loop after u8in(): one code point out, or only counted. */
  method WideOut(utf16: bool, u: unit, out: array?<unit>, offset: nat) returns (n: nat)
    requires out != null ==> offset + |WideOne(utf16, u)| <= out.Length
    modifies if out == null then {} else {out}
    ensures n == |WideOne(utf16, u)|
    ensures out != null ==> out[..offset + n] == old(out[..offset]) + WideOne(utf16, u)
  {
    n := 1;
    if utf16 {
      if u <= 0xD7FF || (u >= 0xE000 && u <= 0xFFFF) {
        if out != null {
          out[offset] := u;
        }
      } else if u >= 0x1_0000 && u <= 0x10FFFF {
        var v := u - 0x1_0000;
        if out != null {
          out[offset] := 0xD800 + v / 0x400;
          out[offset + 1] := 0xDC00 + v % 0x400;
        }
        n := 2;
      } else {
        if out != null {
          out[offset] := 0xFFFD;
        }
      }
    } else {
      if out != null {
        out[offset] := u;
      }
    }
  }

  /** With no buffer this only measures; with one it must not need more room than was measured. */
  method WidenImp(utf16: bool, s: seq<byte>, out: array?<unit>) returns (n: nat, valid: bool)
    requires out != null ==> |Widened(utf16, s)| <= out.Length
    modifies if out == null then {} else {out}
    ensures n == |Widened(utf16, s)|
    ensures valid == Valid(s)
    ensures out != null ==> out[..n] == Widened(utf16, s)
  {
    hide WideOne, U8in;
    n, valid := 0, true;
    ghost var done: seq<unit> := [];
    var i := 0;
    while i < |s|
      invariant i <= |s|
      invariant n == |done| && Widened(utf16, s) == done + Widened(utf16, s[i..])
      invariant valid && Valid(s[i..]) <==> Valid(s)
      invariant out != null ==> n <= out.Length && out[..n] == done
    {
      var (u, d) := U8in(s[i..]);
      WidenedStep(utf16, s, i, done);
      if u == UNICODE_ERROR {
        u := 0xFFFD;
        valid := false;
      }
      var m := WideOut(utf16, u, out, n);
      done := done + WideOne(utf16, u);
      n := n + m;
      i := i + d;
    }
  }

  lemma WidenedStep(utf16: bool, s: seq<byte>, i: nat, done: seq<unit>)
    requires i < |s|
    ensures var (e, d) := U8in(s[i..]); var u := ErrorReplaced(e);
      && i + d <= |s|
      && done + Widened(utf16, s[i..]) == (done + WideOne(utf16, u)) + Widened(utf16, s[i + d..])
      && (Valid(s[i..]) <==> e != UNICODE_ERROR && Valid(s[i + d..]))
  {
    hide WideOne, U8in;
    var (e, d) := U8in(s[i..]);
    var rest := s[i + d..];
    assert s[i..][d..] == rest;
    assert Parse(s[i..]) == [ErrorReplaced(e)] + Parse(rest);
  }

  method Widen(utf16: bool, s: seq<byte>) returns (w: seq<unit>)
    ensures w == Widened(utf16, s)
  {
    var n, valid := WidenImp(utf16, s, null);
    if n == 0 {
      return [];
    }
    var out := new unit[n];
    n, valid := WidenImp(utf16, s, out);
    w := out[..n];
  }

  /** The end of the narrowImp() loop body: one code point or the replacement out, or only counted. */
  method NarrowOut(u: unit, out: array?<byte>, offset: nat) returns (n: nat)
    requires out != null ==> offset + |NarrowOne(u)| <= out.Length
    modifies if out == null then {} else {out}
    ensures n == |NarrowOne(u)|
    ensures out != null ==> out[..offset + n] == old(out[..offset]) + NarrowOne(u)
  {
    if u > MAX_CODE_POINT {
      if out != null {
        out[offset] := 0xEF;
        out[offset + 1] := 0xBF;
        out[offset + 2] := 0xBD;
      }
      n := 3;
    } else {
      n := U8out(u, out, offset);
    }
  }

  method NarrowImp(utf16: bool, w: seq<unit>, out: array?<byte>) returns (n: nat)
    requires out != null ==> |Narrowed(utf16, w)| <= out.Length
    modifies if out == null then {} else {out}
    ensures n == |Narrowed(utf16, w)|
    ensures out != null ==> out[..n] == Narrowed(utf16, w)
  {
    hide NarrowOne;
    n := 0;
    ghost var done: seq<byte> := [];
    var i := 0;
    while i < |w|
      invariant i <= |w|
      invariant n == |done| && Narrowed(utf16, w) == done + Narrowed(utf16, w[i..])
      invariant out != null ==> n <= out.Length && out[..n] == done
    {
      NarrowedStep(utf16, w, i, done);
      var u, d := w[i], 1;
      if utf16 {
        var u1 := if i + 1 < |w| then w[i + 1] else 0;
        if High(u) && Low(u1) {
          d := 2;
          u := OrBit16(u % 0x400 * 0x400 + u1 % 0x400);
        } else if High(u) || Low(u) {
          u := UNICODE_ERROR; // error = true
        }
      }
      assert NarrowIn(utf16, w[i..]) == (u, d);
      var m := NarrowOut(u, out, n);
      done := done + NarrowOne(u);
      n := n + m;
      i := i + d;
    }
  }

  lemma NarrowedStep(utf16: bool, w: seq<unit>, i: nat, done: seq<byte>)
    requires i < |w|
    ensures var (u, d) := NarrowIn(utf16, w[i..]);
      && i + d <= |w|
      && done + Narrowed(utf16, w[i..]) == (done + NarrowOne(u)) + Narrowed(utf16, w[i + d..])
  {
    hide NarrowIn, NarrowOne;
    var (u, d) := NarrowIn(utf16, w[i..]);
    assert w[i..][d..] == w[i + d..];
    assert NarrowUnits(utf16, w[i..]) == [u] + NarrowUnits(utf16, w[i + d..]);
  }

  method Narrow(utf16: bool, w: seq<unit>) returns (s: seq<byte>)
    ensures s == Narrowed(utf16, w)
  {
    var n := NarrowImp(utf16, w, null);
    var out := new byte[n];
    n := NarrowImp(utf16, w, out);
    s := out[..n];
  }
}
