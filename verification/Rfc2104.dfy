/** HMAC as section 2 of RFC 2104 defines it, with the MD5 of RFC 1321 as its hash function. */
module Rfc2104 {
  import Rfc1321

  type byte = Rfc1321.byte

  /** The key, hashed if it is longer than a block, with zeros appended up to 64 bytes. */
  function Key(k: seq<byte>): (r: seq<byte>)
    ensures |r| == 64
  {
    var key := if |k| > 64 then Rfc1321.Md5(k) else k;
    key + seq(64 - |key|, _ => 0)
  }

  function Hmac(k: seq<byte>, text: seq<byte>): (r: seq<byte>)
    ensures |r| == 16
  {
    Rfc1321.Md5(
      seq(64, i requires 0 <= i < 64 => Key(k)[i] ^ 0x5C)
      + Rfc1321.Md5(seq(64, i requires 0 <= i < 64 => Key(k)[i] ^ 0x36) + text))
  }
}
