/** Intermediate hash states as strings (src/glib/ghashstate.h), for a 64-bit uint_type.  The state has
    N/4 values, where N is a multiple of four. */
module HashState {
  type byte = bv8
  type big = bv64

  /** convert_(): the low four bytes of a value, the lowest first. */
  function Four(n: big): (s: seq<byte>)
    ensures |s| == 4
  {
    [(n & 0xFF) as byte, ((n >> 8) & 0xFF) as byte, ((n >> 16) & 0xFF) as byte, ((n >> 24) & 0xFF) as byte]
  }

  /** convert(): the value of four bytes. */
  function Value(lo: byte, lomid: byte, himid: byte, hi: byte): big {
    ((((((hi as big) << 8) | himid as big) << 8) | lomid as big) << 8) | lo as big
  }

  function ValueAt(s: seq<byte>, k: nat): big
    requires 4 * k + 4 <= |s|
  {
    Value(s[4 * k], s[4 * k + 1], s[4 * k + 2], s[4 * k + 3])
  }

  function Encoded(values: seq<big>): (s: seq<byte>)
    ensures |s| == 4 * |values|
  {
    if values == [] then [] else Four(values[0]) + Encoded(values[1..])
  }

  /** The first n values of the string. */
  function Decoded(s: seq<byte>, n: nat): (values: seq<big>)
    requires 4 * n <= |s|
  {
    seq(n, k requires 0 <= k < n => ValueAt(s, k))
  }

  function LowHalf(n: big): big {
    n & 0xFFFF_FFFF
  }

  function LowHalves(values: seq<big>): seq<big> {
    seq(|values|, k requires 0 <= k < |values| => LowHalf(values[k]))
  }

  lemma ValueOfFour(n: big)
    ensures ValueAt(Four(n), 0) == LowHalf(n)
  {
  }

  lemma FourOfValue(s: seq<byte>)
    requires |s| == 4
    ensures Four(ValueAt(s, 0)) == s
  {
    FourBits(s[0], s[1], s[2], s[3]);
  }

  lemma FourBits(a: byte, b: byte, c: byte, d: byte)
    ensures Four(Value(a, b, c, d)) == [a, b, c, d]
  {
  }

  /** Decoding an encoded state, whatever follows it in the string, keeps the low half of each value. */
  lemma {:induction false} DecodeEncode(values: seq<big>, rest: seq<byte>)
    ensures Decoded(Encoded(values) + rest, |values|) == LowHalves(values)
  {
    hide Four, Value, LowHalf;
    var s := Encoded(values) + rest;
    forall k | 0 <= k < |values| ensures ValueAt(s, k) == LowHalf(values[k]) {
      EncodedAt(values, k);
      ValueOfFour(values[k]);
      assert s[4 * k..4 * k + 4] == Encoded(values)[4 * k..4 * k + 4];
    }
  }

  /** Encoding undoes decoding, for any string of whole values. */
  lemma {:induction false} EncodeDecode(s: seq<byte>, n: nat)
    requires |s| == 4 * n
    ensures Encoded(Decoded(s, n)) == s
  {
    hide Four, Value, ValueAt;
    if n > 0 {
      var values, rest := Decoded(s, n), s[4..];
      EncodeDecode(rest, n - 1);
      forall k | 0 <= k < n - 1 ensures values[1..][k] == Decoded(rest, n - 1)[k] {
        ValueFurther(s, k);
      }
      assert values[1..] == Decoded(rest, n - 1);
      ValueFirst(s);
      FourOfValue(s[..4]);
      assert s == s[..4] + rest;
    }
  }

  lemma ValueFurther(s: seq<byte>, k: nat)
    requires 4 * (k + 1) + 4 <= |s|
    ensures ValueAt(s, k + 1) == ValueAt(s[4..], k)
  {
    hide Value;
  }

  lemma ValueFirst(s: seq<byte>)
    requires |s| >= 4
    ensures ValueAt(s, 0) == ValueAt(s[..4], 0)
  {
    hide Value;
  }

  lemma {:induction false} EncodedAt(values: seq<big>, k: nat)
    requires k < |values|
    ensures Encoded(values)[4 * k..4 * k + 4] == Four(values[k])
  {
    hide Four;
    if k > 0 {
      EncodedAt(values[1..], k - 1);
      assert Encoded(values)[4 * k..4 * k + 4] == Encoded(values[1..])[4 * (k - 1)..4 * (k - 1) + 4];
    }
  }

  method Convert_(n: big, out: array<byte>, at: nat)
    requires at + 4 <= out.Length
    modifies out
    ensures out[..] == old(out[..at]) + Four(n) + old(out[at + 4..])
  {
    var v := n;
    out[at] := (v & 0xFF) as byte;
    v := v >> 8;
    out[at + 1] := (v & 0xFF) as byte;
    v := v >> 8;
    out[at + 2] := (v & 0xFF) as byte;
    v := v >> 8;
    out[at + 3] := (v & 0xFF) as byte;
    Shifts(n);
  }

  lemma Shifts(n: big)
    ensures (n >> 8) >> 8 == n >> 16 && ((n >> 8) >> 8) >> 8 == n >> 24
  {
  }

  method Encode(values: seq<big>) returns (s: seq<byte>)
    ensures s == Encoded(values)
  {
    hide Four;
    var out := new byte[4 * |values|];
    var i := 0;
    while i < |values|
      invariant i <= |values|
      invariant out[..4 * i] == Encoded(values[..i])
    {
      EncodedAppend(values[..i], values[i]);
      assert values[..i + 1] == values[..i] + [values[i]];
      Convert_(values[i], out, 4 * i);
      assert out[..4 * (i + 1)] == Encoded(values[..i]) + Four(values[i]);
      i := i + 1;
    }
    assert values[..|values|] == values;
    s := out[..];
  }

  lemma {:induction false} EncodedAppend(values: seq<big>, v: big)
    ensures Encoded(values + [v]) == Encoded(values) + Four(v)
  {
    hide Four;
    if values != [] {
      assert (values + [v])[1..] == values[1..] + [v];
      EncodedAppend(values[1..], v);
    } else {
      assert ([v])[1..] == [];
    }
  }

  /** The overload that also encodes the data size, of which four bytes are kept. */
  method EncodeWithSize(values: seq<big>, n: big) returns (s: seq<byte>)
    ensures s == Encoded(values + [n])
  {
    s := Encode(values + [n]);
  }

  /** A string that is too short is made up with zeros. */
  function Filled(str: seq<byte>, count: nat): (s: seq<byte>)
    ensures |s| >= 4 * count + 4 && str <= s
    ensures |str| == 4 * count ==> s[4 * count..4 * count + 4] == [0, 0, 0, 0]
  {
    if |str| >= 4 * count + 4 then str else str + seq(4 * count + 4, _ => 0)
  }

  /** Any string at all is decoded, a short one as if zeros followed it. */
  method Decode(str: seq<byte>, count: nat) returns (values: seq<big>, size: big)
    ensures values == Decoded(Filled(str, count), count) && size == ValueAt(Filled(str, count), count)
    ensures |str| == 4 * count ==> values == Decoded(str, count) && size == 0
    decreases if |str| < 4 * count + 4 then 1 else 0
  {
    hide Value;
    if |str| < 4 * count + 4 {
      var padded := str + seq(4 * count + 4, _ => 0);
      values, size := Decode(padded, count);
      if |str| == 4 * count {
        assert values == Decoded(str, count);
        assert size == Value(0, 0, 0, 0) == 0 by { ZeroValue(); }
      }
    } else {
      var out := new big[count];
      var i := 0;
      while i < count
        invariant i <= count && out[..i] == Decoded(str, count)[..i]
      {
        out[i] := ValueAt(str, i);
        i := i + 1;
      }
      values, size := out[..], ValueAt(str, count);
    }
  }

  lemma ZeroValue()
    ensures Value(0, 0, 0, 0) == 0
  {
  }
}
