/** The decoding side of RFC 3492 (Punycode), written from the standard alone: the numbers of section 5,
    the bias adaptation of section 6.1 and the decoder of section 6.2.  The integers are unbounded, so
    that the overflow test of section 6.2 never fires. */
module Rfc3492 {
  import opened Wrappers

  /** A digit of base 36. */
  type digit = d: nat | d < 36

  // ----- section 6.1

  function Damped(delta: nat, firsttime: bool): nat {
    if firsttime then delta / 700 else delta / 2
  }

  function Increased(delta: nat, numpoints: nat): nat
    requires numpoints > 0
  {
    delta + delta / numpoints
  }

  /** The loop of the adaptation function and its last line. */
  function Settled(delta: nat, k: nat): nat {
    if delta > (36 - 1) * 26 / 2 then Settled(delta / (36 - 1), k + 36)
    else k + (36 - 1 + 1) * delta / (delta + 38)
  }

  /** The new bias after a delta, where the string has numpoints code points now. */
  function Adapt(delta: nat, numpoints: nat, firsttime: bool): nat
    requires numpoints > 0
  {
    Settled(Increased(Damped(delta, firsttime), numpoints), 0)
  }

  // ----- section 6.2

  function Threshold(k: nat, bias: nat): (t: nat)
    ensures 1 <= t <= 26
  {
    if k <= bias + 1 then 1
    else if k >= bias + 26 then 26
    else k - bias
  }

  /** What a digit of weight w adds to i. */
  function Advance(i: nat, d: nat, w: nat): (r: nat)
    ensures r >= i
  {
    i + d * w
  }

  function Weight(w: nat, t: nat): nat
    requires t <= 36
  {
    w * (36 - t)
  }

  /** The inner loop: the new i and the digits that are left. */
  function Integer(ds: seq<digit>, i: nat, w: nat, k: nat, bias: nat): (r: Option<(nat, seq<digit>)>)
    ensures r.Some? ==> |r.value.1| < |ds| && i <= r.value.0
    decreases |ds|
  {
    if ds == [] then None
    else
      var i' := Advance(i, ds[0], w);
      var t := Threshold(k, bias);
      if ds[0] < t then Some((i', ds[1..]))
      else Integer(ds[1..], i', Weight(w, t), k + 36, bias)
  }

  datatype State = State(out: seq<nat>, n: nat, i: nat, bias: nat)

  /** How often the insertion point goes round, and where it comes to rest. */
  function Turns(i: nat, points: nat): nat
    requires points > 0
  {
    i / points
  }

  function Place(i: nat, points: nat): (r: nat)
    requires points > 0
    ensures r < points
  {
    i % points
  }

  /** The rest of the main loop, for the i that the inner loop arrived at. */
  function Inserted(s: State, i: nat): (r: State)
    requires s.i <= i
    ensures |r.out| == |s.out| + 1 && r.i > 0 && r.n >= s.n && r.bias == Adapt(i - s.i, |r.out|, s.i == 0)
  {
    hide Adapt;
    var points := |s.out| + 1;
    var n, at := s.n + Turns(i, points), Place(i, points);
    State(s.out[..at] + [n] + s.out[at..], n, at + 1, Adapt(i - s.i, points, s.i == 0))
  }

  function DecodeFrom(s: State, ds: seq<digit>): Option<seq<nat>>
    decreases |ds|
  {
    if ds == [] then Some(s.out)
    else
      match Integer(ds, s.i, 1, 36, s.bias)
      case None => None
      case Some((i, rest)) => DecodeFrom(Inserted(s, i), rest)
  }

  function InitialState(basic: seq<nat>): State {
    State(basic, 128, 0, 72)
  }

  /** The digit values of section 5: letters of either case for 0 to 25, decimal digits for 26 to 35. */
  function ByteDigit(c: nat): Option<digit> {
    if 0x61 <= c <= 0x7A then Some(c - 0x61)
    else if 0x41 <= c <= 0x5A then Some(c - 0x41)
    else if 0x30 <= c <= 0x39 then Some(c - 0x30 + 26)
    else None
  }

  function ByteDigits(s: seq<nat>): Option<seq<digit>> {
    if s == [] then Some([])
    else
      match (ByteDigit(s[0]), ByteDigits(s[1..]))
      case (Some(d), Some(ds)) => Some([d] + ds)
      case _ => None
  }

  /** The position of the last delimiter, zero if there is none. */
  function LastHyphen(s: seq<nat>): (n: nat)
    ensures n <= |s| && (n > 0 ==> n < |s|)
  {
    if s == [] then 0
    else if s[|s| - 1] == 0x2D then |s| - 1
    else LastHyphen(s[..|s| - 1])
  }

  predicate Basic(s: seq<nat>) {
    forall j :: 0 <= j < |s| ==> s[j] < 0x80
  }

  /** The decoder as a whole. */
  function Decode(s: seq<nat>): Option<seq<nat>> {
    var b := LastHyphen(s);
    if !Basic(s[..b]) then None
    else
      match ByteDigits(if b > 0 then s[b + 1..] else s)
      case None => None
      case Some(ds) => DecodeFrom(InitialState(s[..b]), ds)
  }
}
