/** The encoding that outputPunycode() computes (src/glib/gidn.cpp), as functions over unbounded
    integers, and the proof that the decoder of RFC 3492 undoes it. */
module Punycode {
  import opened Wrappers
  import opened Rfc3492

  // ----- the constants of the encoder

  const BASE := 36
  const TMIN := 1
  const TMAX := 26
  const SKEW := 38
  const DAMP := 700
  const INITIAL_BIAS := 72
  const INITIAL_N := 128

  // ----- bias adaptation

  /** The loop of adapt(): the number of divisions times BASE, and what is left. */
  function Reduced(d: nat, k: nat): (r: (nat, nat))
    ensures r.1 <= (BASE - TMIN) * TMAX / 2
  {
    if d > (BASE - TMIN) * TMAX / 2 then Reduced(d / (BASE - TMIN), k + BASE) else (k, d)
  }

  function Boosted(d: nat, points: nat): nat
    requires points > 0
  {
    d + d / points
  }

  function Skewed(d: nat): nat {
    (BASE - TMIN + 1) * d / (d + SKEW)
  }

  function Adapt(delta: nat, points: nat, first: bool): nat
    requires points > 0
  {
    var (k, d) := Reduced(Boosted(delta / (if first then DAMP else 2), points), 0);
    k + Skewed(d)
  }

  lemma {:induction false} ReducedIsSettled(d: nat, k: nat)
    ensures Settled(d, k) == Reduced(d, k).0 + Skewed(Reduced(d, k).1)
  {
    if d > 455 {
      ReducedIsSettled(d / 35, k + 36);
    }
  }

  /** The encoder adapts its bias as section 6.1 says. */
  lemma AdaptIsRfc(delta: nat, points: nat, first: bool)
    requires points > 0
    ensures Adapt(delta, points, first) == Rfc3492.Adapt(delta, points, first)
  {
    hide Settled, Reduced, Skewed;
    ReducedIsSettled(Boosted(delta / (if first then 700 else 2), points), 0);
  }

  // ----- generalized variable-length integers

  /** What clamp() makes of k and the bias. */
  function Threshold(k: nat, bias: nat): (t: nat)
    ensures TMIN <= t <= TMAX
  {
    if k <= bias then TMIN else if k >= bias + TMAX then TMAX else k - bias
  }

  lemma ThresholdIsRfc(k: nat, bias: nat)
    ensures Threshold(k, bias) == Rfc3492.Threshold(k, bias)
  {
  }

  /** A digit that says another one follows, and what is left for the others. */
  function Digit(q: nat, t: nat): digit
    requires t <= q && t < BASE
  {
    t + (q - t) % (BASE - t)
  }

  function Quotient(q: nat, t: nat): (r: nat)
    requires TMIN <= t <= q && t < BASE
    ensures r < q
  {
    (q - t) / (BASE - t)
  }

  function Digits(q: nat, k: nat, bias: nat): (r: seq<digit>)
    ensures r != []
    decreases q
  {
    var t := Threshold(k, bias);
    if q < t then [q] else [Digit(q, t)] + Digits(Quotient(q, t), k + BASE, bias)
  }

  lemma {:induction false} IntegerUndoesDigits(q: nat, i: nat, w: nat, k: nat, bias: nat, rest: seq<digit>)
    ensures Integer(Digits(q, k, bias) + rest, i, w, k, bias) == Some((Advance(i, q, w), rest))
    decreases q
  {
    hide Threshold, Rfc3492.Threshold, Digit, Quotient, Advance, Weight;
    var t := Threshold(k, bias);
    ThresholdIsRfc(k, bias);
    var ds := Digits(q, k, bias);
    if q < t {
      assert (ds + rest)[1..] == rest;
    } else {
      assert (ds + rest)[1..] == ds[1..] + rest;
      DigitIsContinued(q, t);
      IntegerUndoesDigits(Quotient(q, t), Advance(i, Digit(q, t), w), Weight(w, t), k + BASE, bias, rest);
      WeightedDigits(i, q, t, w);
    }
  }

  lemma DigitIsContinued(q: nat, t: nat)
    requires t <= q && t < BASE
    ensures Digit(q, t) >= t
  {
  }

  lemma WeightedDigits(i: nat, q: nat, t: nat, w: nat)
    requires TMIN <= t <= q && t < BASE
    ensures Advance(Advance(i, Digit(q, t), w), Quotient(q, t), Weight(w, t)) == Advance(i, q, w)
  {
    var x, digit := Quotient(q, t), Digit(q, t);
    assert q == digit + x * (BASE - t);
    assert q * w == digit * w + (x * (BASE - t)) * w;
  }

  lemma AdvanceByOne(i: nat, d: nat)
    ensures Advance(i, d, 1) == i + d
  {
  }

  // ----- lists of deltas

  /** The digits for some deltas when h code points have been handled already. */
  function Emitted(deltas: seq<nat>, h: nat, bias: nat, first: bool): (r: seq<digit>)
    ensures r == [] <==> deltas == []
  {
    if deltas == [] then []
    else Digits(deltas[0], BASE, bias) + Emitted(deltas[1..], h + 1, Adapt(deltas[0], h + 1, first), false)
  }

  function InsertedAll(s: State, deltas: seq<nat>): (r: State)
    ensures |r.out| == |s.out| + |deltas|
    decreases deltas
  {
    if deltas == [] then s else InsertedAll(Inserted(s, s.i + deltas[0]), deltas[1..])
  }

  /** The decoder stays in step with any list of deltas, whatever code points they stand for. */
  lemma {:induction false} DecodeEmitted(s: State, deltas: seq<nat>)
    ensures DecodeFrom(s, Emitted(deltas, |s.out|, s.bias, s.i == 0)) == Some(InsertedAll(s, deltas).out)
    decreases deltas
  {
    hide Digits, Integer, Adapt, Rfc3492.Adapt, Inserted, Advance;
    if deltas != [] {
      var d := deltas[0];
      AdaptIsRfc(d, |s.out| + 1, s.i == 0);
      AdvanceByOne(s.i, d);
      var s' := Inserted(s, s.i + d);
      var ds, more := Digits(d, BASE, s.bias), Emitted(deltas[1..], |s'.out|, s'.bias, false);
      IntegerUndoesDigits(d, s.i, 1, BASE, s.bias, more);
      assert DecodeFrom(s, ds + more) == DecodeFrom(s', more);
      DecodeEmitted(s', deltas[1..]);
    }
  }

  // ----- the deltas of section 6.3

  /** The code points below a limit, in order. */
  function Below(u: seq<nat>, limit: nat): (r: seq<nat>)
    ensures |r| <= |u|
  {
    if u == [] then [] else (if u[0] < limit then [u[0]] else []) + Below(u[1..], limit)
  }

  function Max(u: seq<nat>): (m: nat)
    ensures forall j :: 0 <= j < |u| ==> u[j] <= m
  {
    if u == [] then 0
    else
      var m := Max(u[1..]);
      if u[0] > m then u[0] else m
  }

  /** The least code point that is not below n. */
  function Least(u: seq<nat>, n: nat): (r: Option<nat>)
    ensures r == None <==> forall j :: 0 <= j < |u| ==> u[j] < n
    ensures r.Some? ==> r.value in u && n <= r.value && forall j :: 0 <= j < |u| && n <= u[j] ==> r.value <= u[j]
  {
    if u == [] then None
    else
      var r := Least(u[1..], n);
      if u[0] >= n && (r == None || u[0] < r.value) then Some(u[0]) else r
  }

  function Jump(delta: nat, n: nat, m: nat, h: nat): nat
    requires n <= m
  {
    delta + (m - n) * (h + 1)
  }

  /** The deltas from the start of an iteration of the main loop. */
  function Rounds(u: seq<nat>, n: nat, delta: nat, h: nat): seq<nat>
    decreases Max(u) + 1 - n, |u| + 1
  {
    match Least(u, n)
    case None => []
    case Some(m) => Scan(u, m, 0, Jump(delta, n, m, h), h)
  }

  /** The deltas from position i of the scan for code point n. */
  function Scan(u: seq<nat>, n: nat, i: nat, delta: nat, h: nat): seq<nat>
    requires i <= |u| && n <= Max(u)
    decreases Max(u) + 1 - n, |u| - i
  {
    if i == |u| then Rounds(u, n + 1, delta + 1, h)
    else if u[i] < n then Scan(u, n, i + 1, delta + 1, h)
    else if u[i] == n then [delta] + Scan(u, n, i + 1, 0, h + 1)
    else Scan(u, n, i + 1, delta, h)
  }

  lemma {:induction false} BelowConcat(a: seq<nat>, b: seq<nat>, limit: nat)
    ensures Below(a + b, limit) == Below(a, limit) + Below(b, limit)
  {
    if a == [] {
      assert a + b == b;
    } else {
      assert (a + b)[1..] == a[1..] + b;
      BelowConcat(a[1..], b, limit);
    }
  }

  /** Limits with no code point between them select the same ones. */
  lemma {:induction false} BelowSame(u: seq<nat>, n: nat, m: nat)
    requires n <= m && forall j :: 0 <= j < |u| ==> u[j] < n || m <= u[j]
    ensures Below(u, n) == Below(u, m)
  {
    if u != [] {
      BelowSame(u[1..], n, m);
    }
  }

  lemma {:induction false} BelowAll(u: seq<nat>, n: nat)
    requires forall j :: 0 <= j < |u| ==> u[j] < n
    ensures Below(u, n) == u
  {
    if u != [] {
      BelowAll(u[1..], n);
    }
  }

  /** The code points handled by position i of the scan for n, before and after that position. */
  function Left(u: seq<nat>, n: nat, i: nat): seq<nat>
    requires i <= |u|
  {
    Below(u[..i], n + 1)
  }

  function Right(u: seq<nat>, n: nat, i: nat): seq<nat>
    requires i <= |u|
  {
    Below(u[i..], n)
  }

  lemma ScanStep(u: seq<nat>, n: nat, i: nat)
    requires i < |u|
    ensures Left(u, n, i + 1) == Left(u, n, i) + (if u[i] <= n then [u[i]] else [])
    ensures Right(u, n, i) == (if u[i] < n then [u[i]] else []) + Right(u, n, i + 1)
  {
    assert u[..i + 1] == u[..i] + [u[i]];
    BelowConcat(u[..i], [u[i]], n + 1);
    assert u[i..][1..] == u[i + 1..];
  }

  lemma ScanEnds(u: seq<nat>, n: nat)
    ensures Left(u, n, 0) == [] && Right(u, n, 0) == Below(u, n)
    ensures Left(u, n, |u|) == Below(u, n + 1) && Right(u, n, |u|) == []
  {
    assert u[..0] == [] && u[0..] == u && u[..|u|] == u && u[|u|..] == [];
  }

  /** Where the decoder is when the encoder is about to look at position i for code point n. */
  ghost predicate InStep(s: State, u: seq<nat>, n: nat, i: nat, delta: nat)
    requires i <= |u|
  {
    && s.out == Left(u, n, i) + Right(u, n, i)
    && s.n <= n
    && s.i + delta == (n - s.n) * (|s.out| + 1) + |Left(u, n, i)|
  }

  lemma InsertedInStep(s: State, u: seq<nat>, n: nat, i: nat, delta: nat)
    requires i < |u| && u[i] == n && InStep(s, u, n, i, delta)
    ensures InStep(Inserted(s, s.i + delta), u, n, i + 1, 0)
  {
    hide Rfc3492.Adapt;
    ScanStep(u, n, i);
    var points, at := |s.out| + 1, |Left(u, n, i)|;
    DivisionOf(n - s.n, points, at, s.i + delta);
    hide Left, Right;
    assert s.out[..at] == Left(u, n, i) && s.out[at..] == Right(u, n, i);
  }

  lemma DivisionOf(q: nat, d: nat, r: nat, x: nat)
    requires r < d && x == q * d + r
    ensures x / d == q && x % d == r
  {
    var e := x / d - q;
    assert x == (x / d) * d + x % d;
    assert (x / d) * d == q * d + e * d;
    Multiple(e, d);
  }

  lemma Multiple(e: int, d: nat)
    ensures e >= 1 ==> e * d >= d
    ensures e <= -1 ==> e * d + d <= 0
  {
    if e >= 1 {
      assert (e - 1) * d >= 0;
    } else if e <= -1 {
      assert (-e - 1) * d >= 0;
    }
  }

  lemma SkippedInStep(s: State, u: seq<nat>, n: nat, i: nat, delta: nat)
    requires i < |u| && u[i] != n && InStep(s, u, n, i, delta)
    ensures InStep(s, u, n, i + 1, if u[i] < n then delta + 1 else delta)
  {
    ScanStep(u, n, i);
  }

  /** The same between two scans. */
  ghost predicate InStepForRound(s: State, u: seq<nat>, n: nat, delta: nat) {
    s.out == Below(u, n) && s.n <= n && s.i + delta == (n - s.n) * (|s.out| + 1)
  }

  lemma ScanStarts(s: State, u: seq<nat>, n: nat, m: nat, delta: nat)
    requires InStepForRound(s, u, n, delta) && Least(u, n) == Some(m)
    ensures InStep(s, u, m, 0, Jump(delta, n, m, |s.out|))
  {
    BelowSame(u, n, m);
    ScanEnds(u, m);
    var points := |s.out| + 1;
    assert (m - s.n) * points == (n - s.n) * points + (m - n) * points;
  }

  lemma ScanFinishes(s: State, u: seq<nat>, n: nat, delta: nat)
    requires InStep(s, u, n, |u|, delta)
    ensures InStepForRound(s, u, n + 1, delta + 1)
  {
    ScanEnds(u, n);
    var points := |s.out| + 1;
    assert (n + 1 - s.n) * points == (n - s.n) * points + points;
  }

  /** Applying the deltas to what has been handled so far gives back the code points. */
  lemma {:induction false} RoundsDecode(s: State, u: seq<nat>, n: nat, delta: nat)
    requires InStepForRound(s, u, n, delta)
    ensures InsertedAll(s, Rounds(u, n, delta, |s.out|)).out == u
    decreases Max(u) + 1 - n, |u| + 1
  {
    match Least(u, n)
    case None =>
      BelowAll(u, n);
    case Some(m) =>
      ScanStarts(s, u, n, m, delta);
      ScanDecodes(s, u, m, 0, Jump(delta, n, m, |s.out|));
  }

  lemma {:induction false} ScanDecodes(s: State, u: seq<nat>, n: nat, i: nat, delta: nat)
    requires i <= |u| && n <= Max(u) && InStep(s, u, n, i, delta)
    ensures InsertedAll(s, Scan(u, n, i, delta, |s.out|)).out == u
    decreases Max(u) + 1 - n, |u| - i
  {
    hide InStep, InStepForRound, Inserted, Rounds, Max;
    if i == |u| {
      ScanFinishes(s, u, n, delta);
      RoundsDecode(s, u, n + 1, delta + 1);
    } else if u[i] == n {
      var s' := Inserted(s, s.i + delta);
      InsertedInStep(s, u, n, i, delta);
      ScanDecodes(s', u, n, i + 1, 0);
      assert Scan(u, n, i, delta, |s.out|)[1..] == Scan(u, n, i + 1, 0, |s'.out|);
    } else {
      SkippedInStep(s, u, n, i, delta);
      ScanDecodes(s, u, n, i + 1, if u[i] < n then delta + 1 else delta);
    }
  }

  /** One delta for each code point that is not below n, whatever delta and h are. */
  lemma {:induction false} RoundsCount(u: seq<nat>, n: nat, delta: nat, h: nat)
    ensures |Rounds(u, n, delta, h)| == |u| - |Below(u, n)|
    decreases Max(u) + 1 - n, |u| + 1
  {
    match Least(u, n)
    case None =>
      BelowAll(u, n);
    case Some(m) =>
      BelowSame(u, n, m);
      ScanEnds(u, m);
      ScanCount(u, m, 0, Jump(delta, n, m, h), h);
  }

  lemma {:induction false} ScanCount(u: seq<nat>, n: nat, i: nat, delta: nat, h: nat)
    requires i <= |u| && n <= Max(u)
    ensures |Scan(u, n, i, delta, h)| == |u| - |Left(u, n, i)| - |Right(u, n, i)|
    decreases Max(u) + 1 - n, |u| - i
  {
    hide Left, Right, Rounds;
    if i == |u| {
      ScanEnds(u, n);
      RoundsCount(u, n + 1, delta + 1, h);
    } else {
      ScanStep(u, n, i);
      if u[i] < n {
        ScanCount(u, n, i + 1, delta + 1, h);
      } else if u[i] == n {
        ScanCount(u, n, i + 1, 0, h + 1);
      } else {
        ScanCount(u, n, i + 1, delta, h);
      }
    }
  }

  // ----- strings of bytes

  const HYPHEN := 0x2D

  /** Letters for 0 to 25 and decimal digits for 26 to 35. */
  function DigitByte(d: digit): (c: nat)
    ensures c < 0x80 && c != HYPHEN
  {
    if d < 26 then 0x61 + d else 0x30 + (d - 26)
  }

  /** The letters are lower-case ones, which the decoder cannot tell. */
  lemma DigitByteIsLower(d: digit)
    ensures DigitByte(d) == "abcdefghijklmnopqrstuvwxyz0123456789"[d] as int
  {
  }

  function DigitBytes(ds: seq<digit>): (r: seq<nat>)
    ensures |r| == |ds| && HYPHEN !in r && Basic(r)
  {
    if ds == [] then [] else [DigitByte(ds[0])] + DigitBytes(ds[1..])
  }

  lemma {:induction false} DigitBytesBack(ds: seq<digit>)
    ensures ByteDigits(DigitBytes(ds)) == Some(ds)
  {
    if ds != [] {
      DigitBytesBack(ds[1..]);
      assert ds == [ds[0]] + ds[1..];
      assert DigitBytes(ds)[1..] == DigitBytes(ds[1..]);
    }
  }

  lemma {:induction false} DigitBytesConcat(a: seq<digit>, b: seq<digit>)
    ensures DigitBytes(a + b) == DigitBytes(a) + DigitBytes(b)
  {
    if a == [] {
      assert a + b == b;
    } else {
      assert (a + b)[1..] == a[1..] + b;
      DigitBytesConcat(a[1..], b);
    }
  }

  function Delimited(basic: seq<nat>): seq<nat> {
    if basic == [] then [] else basic + [HYPHEN]
  }

  /** What outputPunycode() appends, given the basic code points of its label and the whole list. */
  function Code(basic: seq<nat>, u: seq<nat>): (r: seq<nat>)
    ensures Basic(basic) ==> Basic(r)
  {
    var b := |basic|;
    Delimited(basic) + DigitBytes(Emitted(Rounds(u, INITIAL_N, 0, b), b, INITIAL_BIAS, true))
  }

  lemma {:induction false} LastHyphenIsDelimiter(basic: seq<nat>, t: seq<nat>)
    requires HYPHEN !in t
    ensures LastHyphen(Delimited(basic) + t) == |basic|
    decreases |t|
  {
    var s := Delimited(basic) + t;
    if t == [] {
    } else {
      var t' := t[..|t| - 1];
      assert s[..|s| - 1] == Delimited(basic) + t';
      LastHyphenIsDelimiter(basic, t');
    }
  }

  lemma DecodeCode(basic: seq<nat>, u: seq<nat>)
    requires Basic(basic)
    ensures Decode(Code(basic, u))
      == Some(InsertedAll(InitialState(basic), Rounds(u, INITIAL_N, 0, |basic|)).out)
  {
    hide DecodeFrom, Rounds, InsertedAll, Emitted, DigitBytes, ByteDigits;
    var s0, deltas := InitialState(basic), Rounds(u, INITIAL_N, 0, |basic|);
    var ds := Emitted(deltas, |basic|, INITIAL_BIAS, true);
    var t, s := DigitBytes(ds), Code(basic, u);
    LastHyphenIsDelimiter(basic, t);
    assert s[..|basic|] == basic;
    assert (if |basic| > 0 then s[|basic| + 1..] else s) == t;
    DigitBytesBack(ds);
    DecodeEmitted(s0, deltas);
  }

  /** The decoder of the standard undoes the encoder on every list of code points. */
  lemma LabelRoundTrip(u: seq<nat>)
    ensures Decode(Code(Below(u, 0x80), u)) == Some(u)
  {
    hide Decode, Code, Rounds, InsertedAll;
    var basic := Below(u, INITIAL_N);
    BelowIsBasic(u);
    DecodeCode(basic, u);
    RoundsDecode(InitialState(basic), u, INITIAL_N, 0);
  }

  lemma {:induction false} BelowIsBasic(u: seq<nat>)
    ensures Basic(Below(u, INITIAL_N))
  {
    if u != [] {
      BelowIsBasic(u[1..]);
    }
  }

  /** With any basic code points the output still decodes, with one code point more for each one in
      the list that is not basic. */
  lemma DecodedLength(basic: seq<nat>, u: seq<nat>)
    requires Basic(basic)
    ensures Decode(Code(basic, u)).Some?
    ensures |Decode(Code(basic, u)).value| == |basic| + |u| - |Below(u, 0x80)|
  {
    hide Decode, Code, Rounds;
    DecodeCode(basic, u);
    RoundsCount(u, INITIAL_N, 0, |basic|);
  }
}