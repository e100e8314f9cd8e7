/** The CRAM-MD5 response of section 2 of RFC 2195. */
module Rfc2195 {
  import Rfc2104

  type byte = Rfc2104.byte

  function HexDigit(n: byte): char {
    if n < 16 then "0123456789abcdef"[n as int] else '?'
  }

  /** Two hexadecimal digits in lower case for each byte. */
  function Hex(s: seq<byte>): string {
    if s == [] then "" else [HexDigit(s[0] / 16), HexDigit(s[0] % 16)] + Hex(s[1..])
  }

  predicate IsOctets(s: string) {
    forall i :: 0 <= i < |s| ==> s[i] as int < 256
  }

  function Octets(s: string): seq<byte>
    requires IsOctets(s)
  {
    seq(|s|, i requires 0 <= i < |s| => s[i] as byte)
  }

  /** The user name, a space, and the digest of the challenge with the shared secret as key. */
  function Response(user: string, secret: string, challenge: string): string
    requires IsOctets(secret) && IsOctets(challenge)
  {
    user + " " + Hex(Rfc2104.Hmac(Octets(secret), Octets(challenge)))
  }
}
