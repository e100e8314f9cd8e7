/** The domain name encoder (src/glib/gidn.cpp).

    A u32 is an unsigned 32-bit integer: the type checks on every assignment to one prove that the
    32-bit arithmetic of the source does not wrap there.  A method result of false stands for the
    Idn::Error exception. */
module Idn {
  import opened Wrappers
  import opened Punycode
  import opened Rfc3492
  import Convert

  type byte = Convert.byte
  type u32 = Convert.unit

  const DOT: byte := 0x2E
  const XN: seq<byte> := [0x78, 0x6E, 0x2D, 0x2D]
  const MAX_U32: u32 := 0xFFFF_FFFF

  // ----- labels

  predicate Is7Bit(s: seq<byte>) {
    forall j :: 0 <= j < |s| ==> s[j] < 0x80
  }

  /** The basic code points of a label are its seven-bit bytes, in order. */
  lemma {:induction false} BasicCodePoints(name: seq<byte>)
    ensures Below(Convert.Parse(name), 0x80) == Below(name, 0x80)
  {
    if name != [] {
      var (u, d) := Convert.U8in(name);
      BasicCodePoints(name[d..]);
      if name[0] >= 0x80 {
        NotBasic(name);
        BelowConcat(name[..d], name[d..], INITIAL_N);
        assert name == name[..d] + name[d..];
      } else {
        assert Convert.Parse(name) == [u] + Convert.Parse(name[d..]);
      }
    }
  }

  lemma NotBasic(name: seq<byte>)
    requires name != [] && name[0] >= 0x80
    ensures var (u, d) := Convert.U8in(name); u >= 0x80 && Below(name[..d], INITIAL_N) == []
  {
    var (u, d) := Convert.U8in(name);
    if u <= Convert.MAX_CODE_POINT {
      Convert.OutAfterIn(name);
    }
    NoneBelow(name[..d]);
  }

  lemma {:induction false} NoneBelow(s: seq<nat>)
    requires forall j :: 0 <= j < |s| ==> s[j] >= INITIAL_N
    ensures Below(s, INITIAL_N) == []
  {
    if s != [] {
      NoneBelow(s[1..]);
    }
  }

  lemma {:induction false} ParseSize(name: seq<byte>)
    ensures |Convert.Parse(name)| <= |name|
  {
    if name != [] {
      ParseSize(name[Convert.U8in(name).1..]);
    }
  }

  /** When the overflow checks cannot fire: at most 3854 code points, none out of range. */
  ghost predicate Fits(u: seq<u32>) {
    |u| <= 3854 && forall j :: 0 <= j < |u| ==> u[j] <= Convert.MAX_CODE_POINT
  }

  // ----- checks and arithmetic

  predicate Overflows(a: u32, b: u32, c: u32) {
    c != 0 && b > (MAX_U32 - a) / c
  }

  lemma OverflowMeansOverflow(a: u32, b: u32, c: u32)
    requires c > 0
    ensures Overflows(a, b, c) <==> a + b * c > 0xFFFF_FFFF
  {
    var q := (MAX_U32 - a) / c;
    assert q * c <= MAX_U32 - a < q * c + c;
    if b > q {
      assert b * c >= (q + 1) * c;
    } else {
      assert b * c <= q * c;
    }
  }

  function Clamp(v: u32, lo: u32, hi: u32): u32 {
    if v < lo then lo else if hi < v then hi else v
  }

  function Key(u: u32, n: u32): u32 {
    if u < n then 0x11_0000 else u
  }

  /** Upper limits of a 32-bit value after each division by 35 in adapt(). */
  const THIRTY_FIFTHS: seq<u32> := [MAX_U32, 122713351, 3506095, 100174, 2862, 81]

  /** Upper limits of a 32-bit value after each digit, which leaves at most a tenth. */
  const TENTHS: seq<u32> :=
    [MAX_U32, 429496729, 42949672, 4294967, 429496, 42949, 4294, 429, 42, 4, 0]

  lemma DivisionLimit(x: nat, y: nat, limit: nat)
    requires y > 0 && x < limit * y
    ensures x / y < limit
  {
    var q := x / y;
    assert q * y <= x;
    assert q >= limit ==> (q - limit) * y >= 0;
    assert (q - limit) * y == q * y - limit * y;
  }

  lemma Product(a: nat, x: nat, y: nat)
    requires x >= y
    ensures a * x >= a * y
  {
  }

  lemma BoostLimit(d: nat, points: nat)
    requires points > 0
    ensures Boosted(d, points) <= d + d
    ensures points >= 2 ==> Boosted(d, points) <= d + d / 2
  {
    var half := d / 2;
    Product(d + 1, points, 1);
    DivisionLimit(d, points, d + 1);
    if points >= 2 {
      Product(half + 1, points, 2);
      DivisionLimit(d, points, half + 1);
    }
  }

  lemma SkewLimit(d: nat)
    ensures Skewed(d) < 36
  {
    assert 36 * d < 36 * (d + SKEW);
    DivisionLimit(36 * d, d + SKEW, 36);
  }

  method AdaptBias(delta: u32, points: u32, first: bool) returns (bias: u32)
    requires points > 0 && (first || points >= 2)
    ensures bias == Punycode.Adapt(delta, points, first) == Rfc3492.Adapt(delta, points, first)
    ensures bias < 0x1_0000
  {
    hide Skewed, Reduced, Boosted, Rfc3492.Adapt;
    AdaptIsRfc(delta, points, first);
    var d: u32 := delta / (if first then 700 else 2);
    BoostLimit(d, points);
    d := Boosted(d, points);
    ghost var sum := d;
    var k: u32 := 0;
    ghost var turns := 0;
    while d > 455
      invariant turns <= 5 && k == 36 * turns && d <= THIRTY_FIFTHS[turns]
      invariant Reduced(d, k) == Reduced(sum, 0)
    {
      ReducedStep(d, k);
      d := d / 35;
      k := k + 36;
      turns := turns + 1;
    }
    ReducedStep(d, k);
    SkewLimit(d);
    bias := k + Skewed(d);
  }

  lemma ReducedStep(d: nat, k: nat)
    ensures Reduced(d, k) == if d > 455 then Reduced(d / 35, k + 36) else (k, d)
  {
  }

  // ----- domains

  /** The first run of bytes that are not dots, after any leading dots. */
  function SkipDots(s: seq<byte>): (r: seq<byte>)
    ensures |r| <= |s| && (r != [] ==> r[0] != DOT)
  {
    if s != [] && s[0] == DOT then SkipDots(s[1..]) else s
  }

  function UpToDot(s: seq<byte>): (r: seq<byte>)
    ensures r <= s && DOT !in r
    ensures s != [] && s[0] != DOT ==> r != []
    ensures |r| < |s| ==> s[|r|] == DOT
  {
    if s == [] || s[0] == DOT then [] else [s[0]] + UpToDot(s[1..])
  }

  /** The tokens of a StringTokenView over ".". */
  function Labels(s: seq<byte>): seq<seq<byte>>
    decreases |s|
  {
    var t := SkipDots(s);
    if t == [] then [] else [UpToDot(t)] + Labels(t[|UpToDot(t)|..])
  }

  /** What becomes of one label, given the code points of all labels up to and including this one. */
  function EncodedLabel(name: seq<byte>, u: seq<u32>): seq<byte> {
    BelowIsBasic(name);
    if Is7Bit(name) then name else XN + Code(Below(name, INITIAL_N), u)
  }

  function ListAfter(name: seq<byte>, u: seq<u32>): seq<u32> {
    if Is7Bit(name) then u else u + Convert.Parse(name)
  }

  function EncodedLabels(names: seq<seq<byte>>, u: seq<u32>): (r: seq<seq<byte>>)
    ensures |r| == |names|
  {
    if names == [] then []
    else [EncodedLabel(names[0], ListAfter(names[0], u))] + EncodedLabels(names[1..], ListAfter(names[0], u))
  }

  function Dotted(parts: seq<seq<byte>>): seq<byte> {
    if parts == [] then [] else [DOT] + parts[0] + Dotted(parts[1..])
  }

  function Joined(parts: seq<seq<byte>>): seq<byte> {
    if parts == [] then [] else parts[0] + Dotted(parts[1..])
  }

  /** A reader of the output gets back the code points of the label. */
  ghost predicate Correct(name: seq<byte>, out: seq<byte>) {
    if Is7Bit(name) then out == name
    else [0x78, 0x6E, 0x2D, 0x2D] <= out && Decode(out[4..]) == Some(Convert.Parse(name))
  }

  ghost predicate AllCorrect(names: seq<seq<byte>>, outs: seq<seq<byte>>)
    requires |names| == |outs|
  {
    forall j :: 0 <= j < |names| ==> Correct(names[j], outs[j])
  }

  function NonAscii(names: seq<seq<byte>>): nat {
    if names == [] then 0 else (if Is7Bit(names[0]) then 0 else 1) + NonAscii(names[1..])
  }

  /** Domains that the source encodes without throwing and that a reader gets back. */
  ghost predicate Encodable(domain: seq<byte>) {
    NonAscii(Labels(domain)) <= 1 && InRange(Labels(domain)) && |domain| <= 3854
  }

  ghost predicate InRange(names: seq<seq<byte>>) {
    forall j :: 0 <= j < |names| ==>
      forall k :: 0 <= k < |Convert.Parse(names[j])| ==> Convert.Parse(names[j])[k] <= Convert.MAX_CODE_POINT
  }

  /** The rest of the output: dots go before every label but the first. */
  ghost function Parts(first: bool, parts: seq<seq<byte>>): seq<byte> {
    if first then Joined(parts) else Dotted(parts)
  }

  lemma FirstParts(parts: seq<seq<byte>>)
    ensures Parts(true, parts) == Joined(parts)
  {
  }

  lemma LabelsStep(s: seq<byte>)
    requires s == SkipDots(s)
    ensures Labels(s) == if s == [] then [] else [UpToDot(s)] + Labels(s[|UpToDot(s)|..])
    ensures s != [] ==> UpToDot(s) != []
  {
  }

  lemma PartsStep(first: bool, name: seq<byte>, names: seq<seq<byte>>, u: seq<u32>)
    ensures var u' := ListAfter(name, u);
      Parts(first, EncodedLabels([name] + names, u))
      == (if first then [] else [DOT]) + EncodedLabel(name, u') + Parts(false, EncodedLabels(names, u'))
  {
    hide ListAfter, EncodedLabel;
    var u' := ListAfter(name, u);
    var outs := EncodedLabels([name] + names, u);
    assert ([name] + names)[1..] == names;
    assert outs[1..] == EncodedLabels(names, u') && outs[0] == EncodedLabel(name, u');
  }

  lemma Regrouped(a: seq<byte>, b: seq<byte>, c: seq<byte>, d: seq<byte>)
    ensures a + b + c + d == a + (b + c + d)
  {
  }

  lemma NoParts(first: bool, u: seq<u32>)
    ensures Parts(first, EncodedLabels([], u)) == []
  {
  }

  // ----- which domains throw

  /** A label with no seven-bit byte. */
  predicate NoSevenBit(name: seq<byte>) {
    forall k :: 0 <= k < |name| ==> name[k] >= 0x80
  }

  /** No label that is not seven-bit has a seven-bit byte, except the last of them. */
  ghost predicate AllButLastPure(names: seq<seq<byte>>) {
    forall i, j :: 0 <= i < j < |names| && !Is7Bit(names[i]) && !Is7Bit(names[j]) ==> NoSevenBit(names[i])
  }

  /** The same for the labels that follow some code points. */
  ghost predicate Writable(names: seq<seq<byte>>, u: seq<u32>) {
    AllButLastPure(names) && (Below(u, INITIAL_N) != [] ==> NonAscii(names) == 0)
  }

  lemma {:induction false} NoBasic(name: seq<byte>)
    ensures Below(name, INITIAL_N) == [] <==> NoSevenBit(name)
  {
    if name != [] {
      NoBasic(name[1..]);
      assert NoSevenBit(name) <==> name[0] >= 0x80 && NoSevenBit(name[1..]) by { PureStep(name); }
    }
  }

  lemma PureStep(name: seq<byte>)
    requires name != []
    ensures NoSevenBit(name) <==> name[0] >= 0x80 && NoSevenBit(name[1..])
  {
    if name[0] >= 0x80 && NoSevenBit(name[1..]) {
      forall k | 0 <= k < |name| ensures name[k] >= 0x80 {
        assert k > 0 ==> name[k] == name[1..][k - 1];
      }
    }
  }

  lemma {:induction false} NoneIsAscii(names: seq<seq<byte>>)
    ensures NonAscii(names) == 0 <==> forall j :: 0 <= j < |names| ==> Is7Bit(names[j])
  {
    hide Is7Bit;
    if names != [] {
      NoneIsAscii(names[1..]);
      if NonAscii(names) == 0 {
        forall j | 0 <= j < |names| ensures Is7Bit(names[j]) {
          assert j > 0 ==> names[j] == names[1..][j - 1];
        }
      } else if Is7Bit(names[0]) {
        var j :| 0 <= j < |names[1..]| && !Is7Bit(names[1..][j]);
        assert names[1..][j] == names[j + 1];
      }
    }
  }

  lemma PureLabels(name: seq<byte>, names: seq<seq<byte>>)
    ensures AllButLastPure([name] + names) <==>
      AllButLastPure(names) && (!Is7Bit(name) && !NoSevenBit(name) ==> NonAscii(names) == 0)
  {
    hide Is7Bit, NoSevenBit;
    NoneIsAscii(names);
    var all := [name] + names;
    assert forall j :: 0 <= j < |names| ==> all[j + 1] == names[j];
    if AllButLastPure(all) {
      forall i, j | 0 <= i < j < |names| && !Is7Bit(names[i]) && !Is7Bit(names[j]) ensures NoSevenBit(names[i]) {
        assert all[i + 1] == names[i] && all[j + 1] == names[j];
      }
      forall j | 0 <= j < |names| && !Is7Bit(name) && !NoSevenBit(name) ensures Is7Bit(names[j]) {
        assert all[j + 1] == names[j] && all[0] == name;
      }
    }
  }

  /** One label more can be written if the code points so far leave its own count of basic ones right. */
  lemma WritableStep(name: seq<byte>, names: seq<seq<byte>>, u: seq<u32>)
    ensures Writable([name] + names, u) <==>
      (Is7Bit(name) || Below(u, INITIAL_N) == []) && Writable(names, ListAfter(name, u))
  {
    hide Is7Bit, NoSevenBit, AllButLastPure, Below, Convert.Parse;
    PureLabels(name, names);
    NoBasic(name);
    BasicCodePoints(name);
    BelowConcat(u, Convert.Parse(name), INITIAL_N);
    assert ([name] + names)[1..] == names;
  }

  /** Lists for which no check for overflow can fire, however the bytes that are left are encoded. */
  ghost predicate FitsSoFar(names: seq<seq<byte>>, u: seq<u32>, left: nat) {
    && |u| + left <= 3854 && InRange(names)
    && forall j :: 0 <= j < |u| ==> u[j] <= Convert.MAX_CODE_POINT
  }

  lemma FitsStep(name: seq<byte>, names: seq<seq<byte>>, u: seq<u32>, left: nat)
    requires FitsSoFar([name] + names, u, left) && |name| <= left
    ensures FitsSoFar(names, ListAfter(name, u), left - |name|)
    ensures Fits(ListAfter(name, u))
  {
    hide Convert.Parse, Is7Bit;
    var all := [name] + names;
    ParseSize(name);
    assert all[0] == name;
    forall j | 0 <= j < |names|
      ensures forall k :: 0 <= k < |Convert.Parse(names[j])| ==> Convert.Parse(names[j])[k] <= Convert.MAX_CODE_POINT
    {
      assert all[j + 1] == names[j];
    }
  }

  /** Domains that are not too long and have no code point out of range. */
  ghost predicate Fitting(domain: seq<byte>) {
    InRange(Labels(domain)) && |domain| <= 3854
  }

  lemma {:induction false} OneIsPure(names: seq<seq<byte>>)
    requires NonAscii(names) <= 1
    ensures AllButLastPure(names)
  {
    hide Is7Bit, NoSevenBit, AllButLastPure;
    if names == [] {
      NothingIsPure();
    } else {
      OneIsPure(names[1..]);
      PureLabels(names[0], names[1..]);
      assert [names[0]] + names[1..] == names;
    }
  }

  lemma NothingIsPure()
    ensures AllButLastPure([])
  {
  }

  lemma FitsAtFirst(domain: seq<byte>)
    requires Fitting(domain)
    ensures FitsSoFar(Labels(SkipDots(domain)), [], |SkipDots(domain)|)
  {
    SkipAgain(domain);
  }

  lemma FitsLess(names: seq<seq<byte>>, u: seq<u32>, left: nat, less: nat)
    requires less <= left
    ensures FitsSoFar(names, u, left) ==> FitsSoFar(names, u, less)
  {
  }

  lemma NothingToWrite(u: seq<u32>)
    ensures Writable([], u)
  {
  }

  lemma {:induction false} SkipAgain(s: seq<byte>)
    ensures SkipDots(SkipDots(s)) == SkipDots(s) && Labels(SkipDots(s)) == Labels(s)
  {
  }

  /** The label writer.  The list of code points is never cleared, as in the source. */
  class IdnImp {
    var output: seq<byte>
    var ulist: seq<u32>

    constructor ()
      ensures output == [] && ulist == []
    {
      output, ulist := [], [];
    }

    /** The digit loop for one delta. */
    method OutputInteger(delta: u32, bias: u32)
      requires bias < 0x1_0000
      modifies this`output
      ensures output == old(output) + DigitBytes(Digits(delta, BASE, bias))
    {
      var q: u32 := delta;
      var k: u32 := 36;
      ghost var final := output + DigitBytes(Digits(delta, BASE, bias));
      ghost var turns := 0;
      hide Punycode.Threshold, Digit, Quotient, Digits, DigitByte, DigitBytes;
      while true
        invariant turns <= 10 && k == 36 + 36 * turns && q <= TENTHS[turns]
        invariant output + DigitBytes(Digits(q, k, bias)) == final
        decreases q
      {
        var t := Clamp(k - (if k < bias then k else bias), 1, 26);
        ClampIsThreshold(k, bias);
        if q < t {
          LastDigit(q, k, bias);
          break;
        }
        TenthsStep(q, t, turns);
        DigitsStep(q, k, bias);
        Appended(output, [DigitByte(Digit(q, t))], DigitBytes(Digits(Quotient(q, t), k + BASE, bias)));
        output := output + [DigitByte(Digit(q, t))];
        q := Quotient(q, t);
        k := k + 36;
        turns := turns + 1;
      }
      output := output + [DigitByte(q)];
    }

    /** std::copy_if() with is7Bit_(). */
    method CopySevenBit(name: seq<byte>)
      modifies this`output
      ensures output == old(output) + Below(name, INITIAL_N)
    {
      var i := 0;
      while i < |name|
        invariant i <= |name| && output + Below(name[i..], INITIAL_N) == old(output) + Below(name, INITIAL_N)
      {
        assert name[i..][1..] == name[i + 1..];
        if name[i] < 0x80 {
          output := output + [name[i]];
        }
        i := i + 1;
      }
    }

    /** Convert::u8parse() with the parse() callback. */
    method ParseInto(name: seq<byte>)
      modifies this`ulist
      ensures ulist == old(ulist) + Convert.Parse(name)
    {
      hide Convert.U8in;
      var i := 0;
      while i < |name|
        invariant i <= |name| && ulist + Convert.Parse(name[i..]) == old(ulist) + Convert.Parse(name)
      {
        var (u, d) := Convert.U8in(name[i..]);
        assert name[i..][d..] == name[i + d..];
        ulist := ulist + [Convert.ErrorReplaced(u)];
        i := i + d;
      }
    }

    /** std::min_element() with every code point below n taken as 0x110000: the first of the least. */
    method MinElement(n: u32) returns (p: nat)
      ensures p < |ulist| || ulist == []
      ensures forall j :: 0 <= j < |ulist| ==> Key(ulist[p], n) <= Key(ulist[j], n)
    {
      p := 0;
      var i := 1;
      while i < |ulist|
        invariant p < |ulist| || ulist == []
        invariant forall j :: 0 <= j < i && j < |ulist| ==> Key(ulist[p], n) <= Key(ulist[j], n)
      {
        if Key(ulist[i], n) < Key(ulist[p], n) {
          p := i;
        }
        i := i + 1;
      }
    }

    /** The bytes that are still to come at position i of the scan for n. */
    ghost function Tail(n: nat, i: nat, delta: nat, h: nat, bias: nat, b: nat): seq<nat>
      requires i <= |ulist| && n <= Max(ulist)
      reads this`ulist
    {
      DigitBytes(Emitted(Scan(ulist, n, i, delta, h), h, bias, h == b))
    }

    /** The count h will have reached when all the code points still to come are handled. */
    ghost predicate Room(n: nat, i: nat, delta: nat, h: nat, total: nat)
      requires i <= |ulist| && n <= Max(ulist)
      reads this`ulist
    {
      h + |Scan(ulist, n, i, delta, h)| == total <= |ulist|
    }

    lemma TailOverOne(n: nat, i: nat, delta: nat, h: nat, bias: nat, b: nat, total: nat)
      requires i < |ulist| && n <= Max(ulist) && ulist[i] == n && b <= h && Room(n, i, delta, h, total)
      ensures Room(n, i + 1, 0, h + 1, total) && h < |ulist|
      ensures Tail(n, i, delta, h, bias, b)
        == DigitBytes(Digits(delta, BASE, bias)) + Tail(n, i + 1, 0, h + 1, Punycode.Adapt(delta, h + 1, h == b), b)
    {
      var ds := Digits(delta, BASE, bias);
      var more := Scan(ulist, n, i + 1, 0, h + 1);
      var deltas := [delta] + more;
      assert deltas[1..] == more;
      var bias' := Punycode.Adapt(delta, h + 1, h == b);
      DigitBytesConcat(ds, Emitted(more, h + 1, bias', false));
    }

    lemma TailOverOther(n: nat, i: nat, delta: nat, h: nat, bias: nat, b: nat, total: nat)
      requires i < |ulist| && n <= Max(ulist) && ulist[i] != n && Room(n, i, delta, h, total)
      ensures var delta' := if ulist[i] < n then delta + 1 else delta;
        Room(n, i + 1, delta', h, total) && Tail(n, i, delta, h, bias, b) == Tail(n, i + 1, delta', h, bias, b)
    {
    }

    /** If the basic code points were counted correctly then a decoder is in step with the encoder. */
    ghost predicate Tracks(good: bool, s: State, n: nat, i: nat, delta: nat, h: nat)
      requires i <= |ulist|
      reads this`ulist
    {
      good ==>
        && Fits(ulist) && INITIAL_N <= s.n && n <= Convert.MAX_CODE_POINT
        && InStep(s, ulist, n, i, delta) && |s.out| == h
    }

    /** The bytes that are still to come between two scans. */
    ghost function RoundTail(n: nat, delta: nat, h: nat, bias: nat, b: nat): seq<nat>
      reads this`ulist
    {
      DigitBytes(Emitted(Rounds(ulist, n, delta, h), h, bias, h == b))
    }

    ghost predicate RoundRoom(n: nat, delta: nat, h: nat, total: nat)
      reads this`ulist
    {
      h + |Rounds(ulist, n, delta, h)| == total <= |ulist|
    }

    ghost predicate RoundTracks(good: bool, s: State, n: nat, delta: nat, h: nat)
      reads this`ulist
    {
      good ==> Fits(ulist) && INITIAL_N <= s.n && InStepForRound(s, ulist, n, delta) && |s.out| == h
    }

    /** What the checks at the top of the main loop establish for the scan that follows. */
    lemma RoundToScan(good: bool, s: State, n: u32, p: nat, delta: nat, h: nat, bias: nat, b: nat, total: nat)
      requires p < |ulist| && ulist[p] >= n && Least(ulist, n) == Some(ulist[p])
      requires RoundRoom(n, delta, h, total) && RoundTracks(good, s, n, delta, h)
      ensures var m := ulist[p]; var delta' := Jump(delta, n, m, h);
        && m <= Max(ulist) && Room(m, 0, delta', h, total) && Tracks(good, s, m, 0, delta', h)
        && Tail(m, 0, delta', h, bias, b) == RoundTail(n, delta, h, bias, b)
        && (good ==> delta' < MAX_U32)
    {
      var m := ulist[p];
      if good {
        ScanStarts(s, ulist, n, m, delta);
        DeltaFits(s, ulist, m, 0, Jump(delta, n, m, h));
      }
    }

    lemma ScanToRound(good: bool, s: State, n: u32, delta: nat, h: nat, bias: nat, b: nat, total: nat)
      requires n <= Max(ulist) && Room(n, |ulist|, delta, h, total) && Tracks(good, s, n, |ulist|, delta, h)
      ensures RoundRoom(n + 1, delta + 1, h, total) && RoundTracks(good, s, n + 1, delta + 1, h)
      ensures RoundTail(n + 1, delta + 1, h, bias, b) == Tail(n, |ulist|, delta, h, bias, b)
    {
      if good {
        ScanFinishes(s, ulist, n, delta);
      }
    }

    /** While code points remain the least of those not below n is found. */
    lemma SomeLeft(s: State, n: u32, p: nat, delta: nat, h: nat)
      requires RoundTracks(true, s, n, delta, h) && h < |ulist|
      requires p < |ulist| && forall j :: 0 <= j < |ulist| ==> Key(ulist[p], n) <= Key(ulist[j], n)
      ensures ulist[p] >= n
    {
      if forall j :: 0 <= j < |ulist| ==> ulist[j] < n {
        BelowAll(ulist, n);
        assert false;
      }
      var j :| 0 <= j < |ulist| && ulist[j] >= n;
      assert Key(ulist[p], n) <= Key(ulist[j], n);
    }

    /** All code points are ones that u8in() can return. */
    ghost predicate Valid()
      reads this`ulist
    {
      forall j :: 0 <= j < |ulist| ==> Convert.Parsed(ulist[j])
    }

    /** The main loop, which ends only if h can get to the size of the list.  The state s is the decoder's,
        if good. */
    method OutputDeltas(b: u32, ghost good: bool, ghost s0: State, ghost total: nat) returns (ok: bool)
      requires Valid() && |ulist| < MAX_U32 && b < 0x1_0000_0000
      requires RoundRoom(INITIAL_N, 0, b, total) && RoundTracks(good, s0, INITIAL_N, 0, b)
      modifies this`output
      ensures ok ==> output == old(output) + RoundTail(INITIAL_N, 0, b, INITIAL_BIAS, b)
      ensures good ==> ok
      ensures ok ==> total == |ulist|
    {
      hide RoundRoom, RoundTracks, RoundTail, Tail, Room, Tracks, Max, Punycode.Adapt, Rounds, Scan, Least;
      var n: u32, delta: u32, bias: u32, h: u32 := INITIAL_N, 0, INITIAL_BIAS, b;
      ghost var s := s0;
      while h < |ulist|
        invariant n <= 0x20_0000 && b <= h && bias < 0x1_0000
        invariant RoundRoom(n, delta, h, total) && RoundTracks(good, s, n, delta, h)
        invariant output + RoundTail(n, delta, h, bias, b) == old(output) + RoundTail(INITIAL_N, 0, b, INITIAL_BIAS, b)
        decreases 0x20_0000 - n
      {
        var p := MinElement(n);
        if good {
          SomeLeft(s, n, p, delta, h);
        }
        if !(p < |ulist| && ulist[p] >= n) {
          return false;
        }
        var m := ulist[p];
        MinIsLeast(ulist, n, p);
        RoundToScan(good, s, n, p, delta, h, bias, b, total);
        OverflowMeansOverflow(delta, m - n, h + 1);
        if Overflows(delta, m - n, h + 1) {
          return false;
        }
        delta := Jump(delta, n, m, h);
        n := m;
        ok, delta, h, bias, s := OutputScan(n, delta, b, h, bias, good, s, total);
        if !ok {
          return false;
        }
        ScanToRound(good, s, n, delta, h, bias, b, total);
        delta := delta + 1;
        n := n + 1;
      }
      Finished(n, delta, h, bias, b, total);
      ok := true;
    }

    /** The basic code points and the delimiter. */
    method OutputBasic(name: seq<byte>) returns (b: u32)
      requires |name| < MAX_U32
      modifies this`output
      ensures output == old(output) + Delimited(Below(name, INITIAL_N))
      ensures b == |Below(name, INITIAL_N)|
    {
      var b0 := |output|;
      CopySevenBit(name);
      b := |output| - b0;
      if b > 0 {
        output := output + [HYPHEN];
      }
    }

    /** The encoder.  It throws whenever the list holds more basic code points than the label does, and for
        no other list that is not too long. */
    method OutputPunycode(name: seq<byte>) returns (ok: bool)
      requires Valid() && |ulist| + |name| < MAX_U32
      modifies this
      ensures Valid() && ulist == old(ulist) + Convert.Parse(name)
      ensures ok ==> output == old(output) + Code(Below(name, INITIAL_N), ulist)
      ensures ok ==> |Below(ulist, INITIAL_N)| == |Below(name, INITIAL_N)|
      ensures Fits(ulist) ==> (ok <==> |Below(ulist, INITIAL_N)| == |Below(name, INITIAL_N)|)
    {
      hide RoundRoom, RoundTracks, RoundTail, Code, Below, Delimited;
      var b := OutputBasic(name);
      ParseInto(name);
      ParsedList(old(ulist), name);
      ghost var good := Fits(ulist) && |Below(ulist, INITIAL_N)| == b;
      Started(name, good);
      ghost var total := b + |ulist| - |Below(ulist, INITIAL_N)|;
      ok := OutputDeltas(b, good, InitialState(Below(ulist, INITIAL_N)), total);
    }

    lemma Started(name: seq<byte>, good: bool)
      requires |Below(ulist, INITIAL_N)| >= |Below(name, INITIAL_N)|
      requires good ==> Fits(ulist) && |Below(ulist, INITIAL_N)| == |Below(name, INITIAL_N)|
      ensures var b := |Below(name, INITIAL_N)|;
        && RoundRoom(INITIAL_N, 0, b, b + |ulist| - |Below(ulist, INITIAL_N)|)
        && RoundTracks(good, InitialState(Below(ulist, INITIAL_N)), INITIAL_N, 0, b)
        && Code(Below(name, INITIAL_N), ulist)
           == Delimited(Below(name, INITIAL_N)) + RoundTail(INITIAL_N, 0, b, INITIAL_BIAS, b)
    {
      RoundsCount(ulist, INITIAL_N, 0, |Below(name, INITIAL_N)|);
    }

    lemma Finished(n: nat, delta: nat, h: nat, bias: nat, b: nat, total: nat)
      requires h >= |ulist| && RoundRoom(n, delta, h, total)
      ensures RoundTail(n, delta, h, bias, b) == [] && total == |ulist|
    {
    }

    lemma ParsedList(before: seq<u32>, name: seq<byte>)
      requires forall j :: 0 <= j < |before| ==> Convert.Parsed(before[j])
      requires ulist == before + Convert.Parse(name)
      ensures Valid() && |ulist| <= |before| + |name|
      ensures |Below(ulist, INITIAL_N)| == |Below(before, INITIAL_N)| + |Below(name, INITIAL_N)|
    {
      hide Convert.Parse, Convert.Parsed, Below;
      Convert.ParseIsParsed(name);
      ParseSize(name);
      BasicCodePoints(name);
      BelowConcat(before, Convert.Parse(name), INITIAL_N);
    }

    /** One scan of the list for code point n.  The state s is the decoder's, if good. */
    method OutputScan(n: u32, start: u32, b: u32, handled: u32, bias0: u32, ghost good: bool, ghost s0: State,
                      ghost total: nat)
      returns (ok: bool, delta: u32, h: u32, bias: u32, ghost s: State)
      requires n in ulist && n <= Max(ulist) && b <= handled && bias0 < 0x1_0000 && |ulist| < MAX_U32
      requires Room(n, 0, start, handled, total) && Tracks(good, s0, n, 0, start, handled)
      modifies this`output
      ensures good ==> ok
      ensures ok ==> b <= h && bias < 0x1_0000 && delta < |ulist|
      ensures ok ==> Room(n, |ulist|, delta, h, total) && Tracks(good, s, n, |ulist|, delta, h)
      ensures ok ==> output + Tail(n, |ulist|, delta, h, bias, b) == old(output) + Tail(n, 0, start, handled, bias0, b)
    {
      hide Room, Tracks, Tail, Punycode.Adapt, Max, Inserted;
      ok, delta, h, bias, s := true, start, handled, bias0, s0;
      var i := 0;
      while i < |ulist|
        invariant i <= |ulist| && b <= h && bias < 0x1_0000
        invariant n in ulist[..i] ==> delta < i
        invariant Room(n, i, delta, h, total) && Tracks(good, s, n, i, delta, h)
        invariant output + Tail(n, i, delta, h, bias, b) == old(output) + Tail(n, 0, start, handled, bias0, b)
      {
        assert ulist[..i + 1] == ulist[..i] + [ulist[i]];
        if ulist[i] == n {
          TailOverOne(n, i, delta, h, bias, b, total);
          s := TrackOverOne(good, s, n, i, delta, h);
          OutputInteger(delta, bias);
          bias := AdaptBias(delta, h + 1, h == b);
          delta := 0;
          h := h + 1;
        } else {
          TailOverOther(n, i, delta, h, bias, b, total);
          TrackOverOther(good, s, n, i, delta, h);
          if ulist[i] < n {
            delta := if delta == MAX_U32 then 0 else delta + 1;
            if delta == 0 {
              return false, delta, h, bias, s;
            }
          }
        }
        i := i + 1;
      }
      assert ulist[..|ulist|] == ulist;
    }

    lemma TrackOverOne(good: bool, s: State, n: nat, i: nat, delta: nat, h: nat) returns (s': State)
      requires i < |ulist| && ulist[i] == n && Tracks(good, s, n, i, delta, h)
      ensures Tracks(good, s', n, i + 1, 0, h + 1)
    {
      hide InStep, Inserted;
      s' := s;
      if good {
        InsertedInStep(s, ulist, n, i, delta);
        s' := Inserted(s, s.i + delta);
      }
    }

    lemma TrackOverOther(good: bool, s: State, n: nat, i: nat, delta: nat, h: nat)
      requires i < |ulist| && ulist[i] != n && Tracks(good, s, n, i, delta, h)
      ensures Tracks(good, s, n, i + 1, if ulist[i] < n then delta + 1 else delta, h)
      ensures good && ulist[i] < n ==> delta < MAX_U32
    {
      hide InStep;
      if good {
        SkippedInStep(s, ulist, n, i, delta);
        DeltaFits(s, ulist, n, i + 1, if ulist[i] < n then delta + 1 else delta);
      }
    }

    /** One turn of the loop in encode(). */
    method EncodeLabel(name: seq<byte>) returns (ok: bool)
      requires Valid() && |ulist| + |name| < MAX_U32
      modifies this
      ensures Valid() && ulist == ListAfter(name, old(ulist)) && |ulist| <= old(|ulist|) + |name|
      ensures ok ==> output == old(output) + EncodedLabel(name, ulist)
      ensures ok ==> Is7Bit(name) || Below(old(ulist), INITIAL_N) == []
      ensures Fits(ulist) ==> (ok <==> Is7Bit(name) || Below(old(ulist), INITIAL_N) == [])
    {
      hide Code, Fits, InRange, Below, Convert.Parse;
      if Is7Bit(name) {
        output := output + name;
        ok := true;
      } else {
        output := output + XN;
        ParseSize(name);
        ok := OutputPunycode(name);
        BasicCodePoints(name);
        BelowConcat(old(ulist), Convert.Parse(name), INITIAL_N);
      }
    }

    /** The loop over the labels of a domain. */
    method EncodeDomain(domain: seq<byte>) returns (ok: bool)
      requires Valid() && |ulist| + |domain| < MAX_U32
      modifies this
      ensures ok ==> output == old(output) + Joined(EncodedLabels(Labels(domain), old(ulist)))
      ensures ok ==> Writable(Labels(domain), old(ulist))
      ensures old(ulist) == [] && Fitting(domain) ==> (ok <==> Writable(Labels(domain), []))
    {
      hide EncodedLabel, ListAfter, SkipDots, UpToDot, EncodedLabels, Labels, FitsSoFar, Parts, Writable, Is7Bit, Below, Fits;
      var rest := SkipDots(domain);
      var first := true;
      SkipAgain(domain);
      ghost var final := output + Parts(true, EncodedLabels(Labels(rest), ulist));
      assert Parts(true, EncodedLabels(Labels(rest), ulist)) == Joined(EncodedLabels(Labels(domain), ulist)) by {
        FirstParts(EncodedLabels(Labels(domain), ulist));
      }
      ghost var fits := ulist == [] && Fitting(domain);
      if fits {
        FitsAtFirst(domain);
      }
      while rest != []
        invariant rest == SkipDots(rest) && |rest| <= |domain|
        invariant Valid() && |ulist| + |rest| < MAX_U32
        invariant output + Parts(first, EncodedLabels(Labels(rest), ulist)) == final
        invariant Writable(Labels(domain), old(ulist)) <==> Writable(Labels(rest), ulist)
        invariant fits ==> FitsSoFar(Labels(rest), ulist, |rest|)
        decreases |rest|
      {
        var name := UpToDot(rest);
        var next := rest[|name|..];
        LabelsStep(rest);
        PartsStep(first, name, Labels(next), ulist);
        WritableStep(name, Labels(next), ulist);
        if fits {
          FitsStep(name, Labels(next), ulist, |rest|);
        }
        ghost var before, dot := output, if first then [] else [DOT];
        if !first {
          output := output + [DOT];
        }
        assert output == before + dot;
        ok := EncodeLabel(name);
        if !ok {
          return false;
        }
        Regrouped(before, dot, EncodedLabel(name, ulist), Parts(false, EncodedLabels(Labels(next), ulist)));
        SkipAgain(next);
        FitsLess(Labels(next), ulist, |next|, |SkipDots(next)|);
        rest := SkipDots(next);
        first := false;
      }
      LabelsStep(rest);
      NoParts(first, ulist);
      NothingToWrite(ulist);
      ok := true;
    }
  }

  /** std::min_element() finds the least code point that is not below n, or one that is below n. */
  lemma MinIsLeast(u: seq<u32>, n: u32, p: nat)
    requires p < |u| && u[p] >= n && forall j :: 0 <= j < |u| ==> Key(u[p], n) <= Key(u[j], n)
    ensures Least(u, n) == Some(u[p])
  {
    var v := Least(u, n).value;
    var j :| 0 <= j < |u| && u[j] == v;
    assert Key(u[p], n) <= Key(u[j], n);
  }

  lemma DeltaFits(s: State, u: seq<u32>, n: nat, i: nat, delta: nat)
    requires i <= |u| && Fits(u) && INITIAL_N <= s.n && n <= Convert.MAX_CODE_POINT && InStep(s, u, n, i, delta)
    ensures delta < MAX_U32
  {
    var points := |s.out| + 1;
    var left := |Left(u, n, i)|;
    assert points <= 3855 && left <= 3854;
    var span := n - s.n;
    assert s.i + delta == span * points + left;
    Product(points, Convert.MAX_CODE_POINT - INITIAL_N, span);
    assert span * points <= points * (Convert.MAX_CODE_POINT - INITIAL_N);
  }

  lemma ClampIsThreshold(k: u32, bias: u32)
    ensures Clamp(k - (if k < bias then k else bias), 1, 26) == Punycode.Threshold(k, bias)
  {
  }

  lemma DigitAtMostTenth(q: u32, t: u32)
    requires TMIN <= t <= TMAX && t <= q
    ensures Quotient(q, t) <= q / 10
  {
    Product(q / 10 + 1, BASE - t, 10);
    DivisionLimit(q - t, BASE - t, q / 10 + 1);
  }

  lemma DigitsStep(q: nat, k: nat, bias: nat)
    requires q >= Punycode.Threshold(k, bias)
    ensures var t := Punycode.Threshold(k, bias);
      DigitBytes(Digits(q, k, bias)) == [DigitByte(Digit(q, t))] + DigitBytes(Digits(Quotient(q, t), k + BASE, bias))
  {
    hide Punycode.Threshold, Digit, Quotient;
    var t := Punycode.Threshold(k, bias);
    assert Digits(q, k, bias)[1..] == Digits(Quotient(q, t), k + BASE, bias);
  }

  lemma LastDigit(q: nat, k: nat, bias: nat)
    requires q < Punycode.Threshold(k, bias)
    ensures q < BASE && DigitBytes(Digits(q, k, bias)) == [DigitByte(q)]
  {
  }

  lemma TenthsStep(q: u32, t: u32, turns: nat)
    requires TMIN <= t <= TMAX && t <= q && turns <= 10 && q <= TENTHS[turns]
    ensures turns < 10 && Quotient(q, t) <= TENTHS[turns + 1]
  {
    hide Quotient;
    DigitAtMostTenth(q, t);
  }

  lemma Appended(a: seq<byte>, b: seq<byte>, c: seq<byte>)
    ensures a + (b + c) == a + b + c
  {
  }

  lemma {:induction false} SomeNotBasic(name: seq<byte>)
    requires !Is7Bit(name)
    ensures |Below(Convert.Parse(name), INITIAL_N)| < |Convert.Parse(name)|
  {
    hide Convert.U8in;
    var (u, d) := Convert.U8in(name);
    assert Convert.Parse(name) == [Convert.ErrorReplaced(u)] + Convert.Parse(name[d..]);
    if name[0] >= 0x80 {
      NotBasic(name);
    } else {
      assert d == 1 by { Ascii(name); }
      SomeNotBasic(name[1..]);
    }
  }

  lemma Ascii(name: seq<byte>)
    requires name != [] && name[0] < 0x80
    ensures Convert.U8in(name) == (name[0], 1)
  {
  }

  /** A label met with an empty list is encoded correctly. */
  lemma FirstIsCorrect(name: seq<byte>)
    requires !Is7Bit(name)
    ensures Correct(name, EncodedLabel(name, Convert.Parse(name)))
  {
    hide Decode, Code, Convert.Parse;
    var u := Convert.Parse(name);
    BasicCodePoints(name);
    LabelRoundTrip(u);
    assert EncodedLabel(name, u)[|XN|..] == Code(Below(name, INITIAL_N), u);
  }

  /** A label met with other code points in the list is not: too many code points come back. */
  lemma LaterIsWrong(name: seq<byte>, before: seq<u32>)
    requires !Is7Bit(name) && |Below(before, INITIAL_N)| < |before|
    ensures !Correct(name, EncodedLabel(name, before + Convert.Parse(name)))
  {
    hide Decode, Code, Convert.Parse;
    var own := Convert.Parse(name);
    BasicCodePoints(name);
    BelowConcat(before, own, INITIAL_N);
    BelowIsBasic(name);
    DecodedLength(Below(name, INITIAL_N), before + own);
    assert EncodedLabel(name, before + own)[|XN|..] == Code(Below(name, INITIAL_N), before + own);
  }

  /** What a reader gets: each label that is not seven-bit comes back as the code points of all such labels
      up to and including itself. */
  ghost predicate ReadBack(names: seq<seq<byte>>, outs: seq<seq<byte>>, u: seq<u32>)
    requires |names| == |outs|
  {
    names == [] ||
      if Is7Bit(names[0]) then outs[0] == names[0] && ReadBack(names[1..], outs[1..], u)
      else
        var u' := u + Convert.Parse(names[0]);
        && [0x78, 0x6E, 0x2D, 0x2D] <= outs[0] && Decode(outs[0][4..]) == Some(u')
        && ReadBack(names[1..], outs[1..], u')
  }

  lemma LabelReadsBack(name: seq<byte>, before: seq<u32>)
    requires !Is7Bit(name) && Below(before, 0x80) == []
    ensures var u := before + Convert.Parse(name);
      [0x78, 0x6E, 0x2D, 0x2D] <= EncodedLabel(name, u) && Decode(EncodedLabel(name, u)[4..]) == Some(u)
  {
    hide Decode, Code, Convert.Parse, Below;
    var own := Convert.Parse(name);
    BasicCodePoints(name);
    BelowConcat(before, own, 0x80);
    LabelRoundTrip(before + own);
    assert Below(before + own, 0x80) == Below(name, 0x80);
    assert EncodedLabel(name, before + own)[4..] == Code(Below(name, 0x80), before + own);
  }

  lemma {:induction false} EncodedReadBack(names: seq<seq<byte>>, u: seq<u32>)
    requires Writable(names, u)
    ensures ReadBack(names, EncodedLabels(names, u), u)
  {
    hide Writable, EncodedLabel, Is7Bit, Convert.Parse, Below, Decode;
    if names != [] {
      var name, rest := names[0], names[1..];
      assert names == [name] + rest;
      WritableStep(name, rest, u);
      var u' := ListAfter(name, u);
      EncodedReadBack(rest, u');
      assert EncodedLabels(names, u)[1..] == EncodedLabels(rest, u');
      if Is7Bit(name) {
        SevenBitIsCorrect(name, u');
        assert EncodedLabels(names, u)[0] == name;
      } else {
        LabelReadsBack(name, u);
      }
    }
  }

  /** Every label is encoded correctly if and only if at most one of them is not seven-bit. */
  lemma CorrectIffOneNonAscii(names: seq<seq<byte>>)
    ensures AllCorrect(names, EncodedLabels(names, [])) <==> NonAscii(names) <= 1
  {
    CorrectFrom(names, []);
  }

  lemma {:induction false} CorrectFrom(names: seq<seq<byte>>, u: seq<u32>)
    requires u == [] || |Below(u, INITIAL_N)| < |u|
    ensures AllCorrect(names, EncodedLabels(names, u)) <==> NonAscii(names) <= (if u == [] then 1 else 0)
  {
    hide Correct, EncodedLabel, Convert.Parse, Below;
    if names != [] {
      var name, rest := names[0], names[1..];
      var u' := ListAfter(name, u);
      var out := EncodedLabel(name, u');
      if Is7Bit(name) {
        SevenBitIsCorrect(name, u');
      } else {
        SomeNotBasic(name);
        BelowConcat(u, Convert.Parse(name), INITIAL_N);
        if u == [] {
          assert u' == Convert.Parse(name);
          FirstIsCorrect(name);
        } else {
          LaterIsWrong(name, u);
        }
      }
      CorrectFrom(rest, u');
      AllCorrectStep(names, EncodedLabels(names, u));
      assert EncodedLabels(names, u)[1..] == EncodedLabels(rest, u');
    }
  }

  lemma SevenBitIsCorrect(name: seq<byte>, u: seq<u32>)
    requires Is7Bit(name)
    ensures Correct(name, EncodedLabel(name, u))
  {
  }

  lemma AllCorrectStep(names: seq<seq<byte>>, outs: seq<seq<byte>>)
    requires names != [] && |names| == |outs|
    ensures AllCorrect(names, outs) <==> Correct(names[0], outs[0]) && AllCorrect(names[1..], outs[1..])
  {
    if Correct(names[0], outs[0]) && AllCorrect(names[1..], outs[1..]) {
      forall j | 0 <= j < |names| ensures Correct(names[j], outs[j]) {
        if j > 0 {
          assert Correct(names[1..][j - 1], outs[1..][j - 1]);
        }
      }
    } else if AllCorrect(names, outs) {
      forall j | 0 <= j < |names| - 1 ensures Correct(names[1..][j], outs[1..][j]) {
        assert Correct(names[j + 1], outs[j + 1]);
      }
    }
  }

  // ----- reading the output

  ghost predicate IsLabel(name: seq<byte>) {
    name != [] && 0x2E !in name
  }

  lemma {:induction false} LabelsAreLabels(s: seq<byte>)
    ensures forall j :: 0 <= j < |Labels(s)| ==> IsLabel(Labels(s)[j])
    ensures Is7Bit(s) ==> NonAscii(Labels(s)) == 0
    decreases |s|
  {
    var t := SkipDots(s);
    SkipKeeps7Bit(s);
    if t != [] {
      LabelsAreLabels(t[|UpToDot(t)|..]);
    }
  }

  lemma {:induction false} SkipKeeps7Bit(s: seq<byte>)
    ensures Is7Bit(s) ==> Is7Bit(SkipDots(s))
  {
    if s != [] && s[0] == DOT {
      SkipKeeps7Bit(s[1..]);
    }
  }

  lemma {:induction false} UpToDotStops(name: seq<byte>, rest: seq<byte>)
    requires DOT !in name && (rest == [] || rest[0] == DOT)
    ensures UpToDot(name + rest) == name
  {
    if name == [] {
      assert name + rest == rest;
    } else {
      assert (name + rest)[1..] == name[1..] + rest;
      UpToDotStops(name[1..], rest);
    }
  }

  lemma {:induction false} LabelsOfDotted(parts: seq<seq<byte>>)
    requires forall j :: 0 <= j < |parts| ==> IsLabel(parts[j])
    ensures Labels(Dotted(parts)) == parts
  {
    if parts != [] {
      var s, rest := Dotted(parts), Dotted(parts[1..]);
      assert s[1..] == parts[0] + rest;
      assert SkipDots(s) == parts[0] + rest;
      UpToDotStops(parts[0], rest);
      assert (parts[0] + rest)[|parts[0]|..] == rest;
      LabelsOfDotted(parts[1..]);
    }
  }

  lemma DotBefore(s: seq<byte>)
    ensures Labels([0x2E] + s) == Labels(s)
  {
    hide UpToDot, Labels;
    assert ([DOT] + s)[1..] == s;
    assert SkipDots([DOT] + s) == SkipDots(s);
    SkipAgain([DOT] + s);
    SkipAgain(s);
  }

  /** Any text is split at its dots, and runs of dots count as one. */
  lemma LabelsMean(name: seq<byte>, rest: seq<byte>)
    requires 0x2E !in name
    ensures Labels(name + [0x2E] + rest) == (if name == [] then [] else [name]) + Labels(rest)
    ensures Labels(name) == if name == [] then [] else [name]
  {
    hide Labels;
    if name == [] {
      assert name + [0x2E] + rest == [0x2E] + rest;
      DotBefore(rest);
      assert [] + Labels(rest) == Labels(rest);
      LabelsStep([]);
    } else {
      var s := name + [0x2E] + rest;
      assert s[0] == name[0];
      assert s == name + ([0x2E] + rest) && s[|name|..] == [0x2E] + rest;
      UpToDotStops(name, [0x2E] + rest);
      LabelsStep(s);
      DotBefore(rest);
      UpToDotStops(name, []);
      assert name + [] == name && name[|name|..] == [];
      LabelsStep(name);
      LabelsStep([]);
    }
  }

  lemma DottedIsJoined(parts: seq<seq<byte>>)
    requires parts != []
    ensures Dotted(parts) == [DOT] + Joined(parts)
  {
    hide Labels;
    assert [DOT] + parts[0] + Dotted(parts[1..]) == [DOT] + (parts[0] + Dotted(parts[1..]));
  }

  lemma LabelsOfJoined(parts: seq<seq<byte>>)
    requires forall j :: 0 <= j < |parts| ==> IsLabel(parts[j])
    ensures Labels(Joined(parts)) == parts
  {
    hide Labels, Joined, Dotted;
    LabelsOfDotted(parts);
    if parts == [] {
      NothingJoined();
    } else {
      DottedIsJoined(parts);
      DotBefore(Joined(parts));
    }
  }

  /** Dots stand between the labels and nowhere else. */
  lemma {:induction false} JoinedOneMore(parts: seq<seq<byte>>, last: seq<byte>)
    ensures Joined(parts + [last]) == if parts == [] then last else Joined(parts) + [0x2E] + last
  {
    hide Dotted;
    if parts == [] {
      assert ([] + [last])[1..] == [];
      NothingDotted();
    } else {
      assert (parts + [last])[1..] == parts[1..] + [last];
      DottedOneMore(parts[1..], last);
      assert parts[0] + (Dotted(parts[1..]) + [0x2E] + last) == parts[0] + Dotted(parts[1..]) + [0x2E] + last;
    }
  }

  lemma NothingDotted()
    ensures Dotted([]) == []
  {
  }

  lemma {:induction false} DottedOneMore(parts: seq<seq<byte>>, last: seq<byte>)
    ensures Dotted(parts + [last]) == Dotted(parts) + [0x2E] + last
  {
    if parts == [] {
      assert ([] + [last])[1..] == [];
    } else {
      assert (parts + [last])[1..] == parts[1..] + [last];
      DottedOneMore(parts[1..], last);
    }
  }

  lemma NothingJoined()
    ensures Labels(Joined([])) == []
  {
  }

  lemma {:induction false} NoDotInDigits(ds: seq<digit>)
    ensures DOT !in DigitBytes(ds)
  {
    if ds != [] {
      NoDotInDigits(ds[1..]);
    }
  }

  lemma {:induction false} NoDotBelow(s: seq<byte>)
    requires DOT !in s
    ensures DOT !in Below(s, INITIAL_N)
  {
    if s != [] {
      NoDotBelow(s[1..]);
    }
  }

  lemma EncodedIsLabel(name: seq<byte>, u: seq<u32>)
    requires IsLabel(name)
    ensures IsLabel(EncodedLabel(name, u))
  {
    hide Emitted, Rounds;
    if !Is7Bit(name) {
      var basic := Below(name, INITIAL_N);
      NoDotBelow(name);
      NoDotInDigits(Emitted(Rounds(u, INITIAL_N, 0, |basic|), |basic|, INITIAL_BIAS, true));
    }
  }

  lemma {:induction false} EncodedAreLabels(names: seq<seq<byte>>, u: seq<u32>)
    requires forall j :: 0 <= j < |names| ==> IsLabel(names[j])
    ensures forall j :: 0 <= j < |names| ==> IsLabel(EncodedLabels(names, u)[j])
  {
    hide EncodedLabel, IsLabel;
    if names != [] {
      var u' := ListAfter(names[0], u);
      EncodedIsLabel(names[0], u');
      EncodedAreLabels(names[1..], u');
    }
  }

  lemma {:induction false} SevenBitLabels(names: seq<seq<byte>>)
    requires NonAscii(names) == 0
    ensures AllCorrect(names, names) && ReadBack(names, names, [])
  {
    if names != [] {
      SevenBitLabels(names[1..]);
      AllCorrectStep(names, names);
    }
  }

  /** Idn::encode().  It throws whenever a label that is not seven-bit, other than the last such, has a
      seven-bit byte, and for no other domain of a reasonable size.  When it does not throw, a reader of the
      result gets back every label if and only if at most one of them is not seven-bit, and otherwise all
      the code points met so far in place of each label that is not. */
  method Encode(domain: seq<byte>) returns (ok: bool, result: seq<byte>)
    requires |domain| < MAX_U32
    ensures ok ==> AllButLastPure(Labels(domain))
    ensures Fitting(domain) ==> (ok <==> AllButLastPure(Labels(domain)))
    ensures ok ==> |Labels(result)| == |Labels(domain)|
    ensures ok ==> ReadBack(Labels(domain), Labels(result), [])
    ensures ok ==> result == if Is7Bit(domain) then domain else Joined(Labels(result))
    ensures ok ==> (AllCorrect(Labels(domain), Labels(result)) <==> NonAscii(Labels(domain)) <= 1)
    ensures Encodable(domain) ==> ok
  {
    hide Labels, EncodedLabels, Joined, AllCorrect, ReadBack, IsLabel, AllButLastPure;
    ghost var names := Labels(domain);
    LabelsAreLabels(domain);
    if NonAscii(names) <= 1 {
      OneIsPure(names);
    }
    if domain == [] || Is7Bit(domain) {
      SevenBitLabels(names);
      return true, domain;
    }
    var imp := new IdnImp();
    ok := imp.EncodeDomain(domain);
    result := imp.output;
    assert ok ==> result == Joined(EncodedLabels(names, []));
    EncodedAreLabels(names, []);
    LabelsOfJoined(EncodedLabels(names, []));
    CorrectIffOneNonAscii(names);
    if ok {
      assert Writable(names, []);
      EncodedReadBack(names, []);
    }
  }

  /** Domains of two labels. */
  lemma TwoLabels(a: seq<byte>, b: seq<byte>)
    requires a != [] && b != [] && 0x2E !in a && 0x2E !in b
    ensures Labels(a + [0x2E] + b) == [a, b]
  {
    hide Labels, Joined;
    LabelsOfJoined([a, b]);
    JoinedTwo(a, b);
  }

  lemma JoinedTwo(a: seq<byte>, b: seq<byte>)
    ensures Joined([a, b]) == a + [DOT] + b
  {
    assert [a, b][1..] == [b] && [b][1..] == [];
    assert Dotted([]) == [] && [DOT] + b + [] == [DOT] + b;
    assert a + ([DOT] + b) == a + [DOT] + b;
  }

  /** Two labels of one accented letter each are encoded without an exception, and come out wrong. */
  method TwoNonAsciiLabels() returns (ok: bool, result: seq<byte>)
    ensures ok && |Labels(result)| == 2
    ensures !AllCorrect([[0xC3, 0xA4], [0xC3, 0xB6]], Labels(result))
  {
    hide Labels, AllCorrect;
    var a: seq<byte>, b: seq<byte> := [0xC3, 0xA4], [0xC3, 0xB6];
    TwoLabels(a, b);
    TwoLettersParse();
    assert a[0] >= 0x80 && b[0] >= 0x80;
    assert [a, b][1..] == [b] && [b][1..] == [];
    assert NonAscii([a, b]) == 1 + NonAscii([b]) == 2 + NonAscii([]);
    assert InRange([a, b]);
    ok, result := Encode(a + [DOT] + b);
  }

  lemma TwoLettersParse()
    ensures Convert.Parse([0xC3, 0xA4]) == [0xE4] && Convert.Parse([0xC3, 0xB6]) == [0xF6]
  {
    var a: seq<byte>, b: seq<byte> := [0xC3, 0xA4], [0xC3, 0xB6];
    assert Convert.U8in(a) == (0xE4, 2) && Convert.U8in(b) == (0xF6, 2);
    assert a[2..] == [] && b[2..] == [];
  }

  /** With a seven-bit letter before the first of them there is an exception instead. */
  method LetterBeforeNonAscii() returns (ok: bool, result: seq<byte>)
    ensures !ok
  {
    hide Labels, AllCorrect;
    var a: seq<byte>, b: seq<byte> := [0x62, 0xC3, 0xA4], [0xC3, 0xB6];
    TwoLabels(a, b);
    assert a[0] < 0x80 && a[1] >= 0x80 && b[0] >= 0x80;
    assert !Is7Bit([a, b][0]) && !Is7Bit([a, b][1]) && !NoSevenBit([a, b][0]);
    ok, result := Encode(a + [DOT] + b);
  }
}
