/** Keyed hashes over any hash function (src/glib/ghash.h, src/glib/ghash.cpp), and what they are when
    the hash function is MD5. */
module Hash {
  import Rfc = Rfc1321
  import Rfc2104
  import Md5
  import opened Wrappers

  type byte = Rfc.byte
  type bytes = seq<byte>

  // ----- ghash.cpp

  function Xor(s: bytes, t: bytes): (r: bytes)
    requires |s| == |t|
    ensures |r| == |s|
  {
    seq(|s|, k requires 0 <= k < |s| => s[k] ^ t[k])
  }

  method XorOf(s: bytes, t: bytes) returns (r: bytes)
    requires |s| == |t|
    ensures r == Xor(s, t)
  {
    r := [];
    var p := 0;
    while p < |s|
      invariant p <= |s| && r == Xor(s, t)[..p]
    {
      r := r + [s[p] ^ t[p]];
      p := p + 1;
    }
  }

  function Ipad(size: nat): (r: bytes)
    ensures |r| == size
  {
    seq(size, _ => 0x36)
  }

  function Opad(size: nat): (r: bytes)
    ensures |r| == size
  {
    seq(size, _ => 0x5C)
  }

  function HexDigit(x: byte): (c: byte)
  {
    if x & 0xF < 10 then 0x30 + (x & 0xF) else 0x61 + ((x & 0xF) - 10)
  }

  function Printable(s: bytes): (r: bytes)
    ensures |r| == 2 * |s|
  {
    if s == [] then [] else [HexDigit(s[0] >> 4), HexDigit(s[0])] + Printable(s[1..])
  }

  method PrintableOf(s: bytes) returns (r: bytes)
    ensures r == Printable(s)
  {
    hide HexDigit;
    r := [];
    var i := 0;
    while i < |s|
      invariant i <= |s| && r + Printable(s[i..]) == Printable(s)
    {
      var two := [HexDigit(s[i] >> 4), HexDigit(s[i])];
      assert Printable(s[i..]) == two + Printable(s[i + 1..]) by { assert s[i..][1..] == s[i + 1..]; }
      r := r + two;
      i := i + 1;
    }
  }

  lemma HexDigitBack(x: byte)
    ensures HexDigit(x >> 4) != 0x20 && HexDigit(x) != 0x20
    ensures forall y: byte :: HexDigit(x >> 4) == HexDigit(y >> 4) && HexDigit(x) == HexDigit(y) ==> x == y
  {
  }

  /** Different strings print differently, and a printed string has no spaces. */
  lemma {:induction false} PrintableIsInjective(s: bytes, t: bytes)
    ensures Printable(s) == Printable(t) ==> s == t
    ensures 0x20 !in Printable(s)
  {
    hide HexDigit;
    if s != [] {
      HexDigitBack(s[0]);
      if t == [] {
        PrintableIsInjective(s[1..], []);
      } else {
        PrintableIsInjective(s[1..], t[1..]);
        if Printable(s) == Printable(t) {
          assert Printable(s)[2..] == Printable(s[1..]) && Printable(t)[2..] == Printable(t[1..]);
          assert Printable(s)[0] == Printable(t)[0] && Printable(s)[1] == Printable(t)[1];
          assert s == [s[0]] + s[1..] && t == [t[0]] + t[1..];
        }
      }
    }
  }

  // ----- ghash.h

  function Zeros(n: nat): (r: bytes)
    ensures |r| == n
  {
    seq(n, _ => 0)
  }

  /** The key as one block: hashed if it is too long, and then padded.  The hash must not give more
      than a block. */
  function Keyx(fn: (bytes, bytes) -> bytes, size: nat, k: bytes): (r: bytes)
    requires |fn(k, [])| <= size
    ensures |r| == size
  {
    var key := if |k| > size then fn(k, []) else k;
    if |key| < size then key + Zeros(size - |key|) else key
  }

  function Hmac(fn: (bytes, bytes) -> bytes, size: nat, k: bytes, input: bytes): bytes
    requires |fn(k, [])| <= size
  {
    var kx := Keyx(fn, size, k);
    fn(Xor(kx, Opad(size)), fn(Xor(kx, Ipad(size)), input))
  }

  function Mask(predigest: bytes -> bytes, fn: (bytes, bytes) -> bytes, size: nat, k: bytes): bytes
    requires |fn(k, [])| <= size
  {
    var kx := Keyx(fn, size, k);
    predigest(Xor(kx, Ipad(size))) + predigest(Xor(kx, Opad(size)))
  }

  /** The overload for a masked key. */
  function HmacMasked(postdigest: (bytes, bytes) -> Option<bytes>, masked: bytes, input: bytes): Option<bytes> {
    postdigest(masked, input)
  }

  // ----- with MD5

  function Md5Hmac(k: bytes, input: bytes): bytes {
    Hmac(Md5.Digest2, 64, k, input)
  }

  function Md5Mask(k: bytes): bytes {
    Mask(Md5.Predigest, Md5.Digest2, 64, k)
  }

  /** A masked key gives the same result as the key that was masked, for every key and every input. */
  lemma MaskedIsPlain(k: bytes, input: bytes)
    ensures HmacMasked(Md5.Postdigest, Md5Mask(k), input) == Some(Md5Hmac(k, input))
  {
    hide Md5.Added, Md5.ValueOf, Md5.Resumed, Md5.Predigest, Xor, Keyx;
    var kx := Keyx(Md5.Digest2, 64, k);
    var i, o := Xor(kx, Ipad(64)), Xor(kx, Opad(64));
    Md5.PredigestResumed(i);
    Md5.PredigestResumed(o);
    var pair := Md5Mask(k);
    assert pair[..16] == Md5.Predigest(i) && pair[16..] == Md5.Predigest(o);
  }

  // ----- the standard

  /** The streaming digest leaves out the block for the length when the residue is over 55 bytes.  When
      neither the text nor a key that is hashed has such a residue the result is the standard's. */
  lemma HmacIsRfc(k: bytes, input: bytes)
    requires |input| % 64 <= 55 && (|k| <= 64 || |k| % 64 <= 55)
    ensures Md5Hmac(k, input) == Rfc2104.Hmac(k, input)
  {
    hide Rfc.Md5, Xor, Md5.Digest2;
    KeyIsRfc(k);
    var kx := Keyx(Md5.Digest2, 64, k);
    var i, o := Xor(kx, Ipad(64)), Xor(kx, Opad(64));
    PaddedKeys(k, kx);
    Digest2IsMd5(i, input);
    Digest2IsMd5(o, Md5.Digest2(i, input));
  }

  lemma KeyIsRfc(k: bytes)
    requires |k| <= 64 || |k| % 64 <= 55
    ensures Keyx(Md5.Digest2, 64, k) == Rfc2104.Key(k)
  {
    hide Rfc.Md5, Md5.Digest2;
    if |k| > 64 {
      Digest2IsMd5(k, []);
      assert k + [] == k;
    }
  }

  lemma PaddedKeys(k: bytes, kx: bytes)
    requires kx == Rfc2104.Key(k)
    ensures Xor(kx, Ipad(64)) == seq(64, i requires 0 <= i < 64 => Rfc2104.Key(k)[i] ^ 0x36)
    ensures Xor(kx, Opad(64)) == seq(64, i requires 0 <= i < 64 => Rfc2104.Key(k)[i] ^ 0x5C)
  {
    hide Rfc2104.Key;
  }

  lemma Digest2IsMd5(a: bytes, b: bytes)
    requires |a + b| % 64 <= 55
    ensures Md5.Digest2(a, b) == Rfc.Md5(a + b)
  {
    hide Md5.ValueOf, Md5.Added, Rfc.Md5;
    Md5.AddedTwice(Md5.EMPTY, a, b);
    Md5.ValueIsMd5(a + b);
  }

  /** A masked key is the states of the standard's digest after the inner and the outer padded key. */
  lemma MaskIsStates(k: bytes)
    requires |k| <= 64 || |k| % 64 <= 55
    ensures Md5Mask(k)
      == Rfc.Output(Rfc.Compress(Rfc.INITIAL, Rfc.Words(seq(64, i requires 0 <= i < 64 => Rfc2104.Key(k)[i] ^ 0x36))))
         + Rfc.Output(Rfc.Compress(Rfc.INITIAL, Rfc.Words(seq(64, i requires 0 <= i < 64 => Rfc2104.Key(k)[i] ^ 0x5C))))
  {
    hide Rfc.Md5, Rfc.Output, Rfc.Compress, Rfc.Words, Xor, Md5.Digest2, Md5.Predigest;
    KeyIsRfc(k);
    var kx := Keyx(Md5.Digest2, 64, k);
    PaddedKeys(k, kx);
    Md5.PredigestIsState(Xor(kx, Ipad(64)));
    Md5.PredigestIsState(Xor(kx, Opad(64)));
  }
}
