/** Challenge-response authentication (src/gauth/gcram.cpp), section 2 of RFC 2195. */
module Cram {
  import opened Wrappers
  import opened Str
  import Hash
  import Md5
  import Rfc1321
  import Rfc2104
  import Rfc2195
  import SF = SecretsFile

  type bytes = Hash.bytes

  // ----- strings as bytes

  function ByteOf(c: char): bv8 {
    if c as int < 256 then c as bv8 else 0
  }

  function CharOf(x: bv8): char {
    x as char
  }

  function Bytes(s: string): (r: bytes)
    ensures |r| == |s|
  {
    seq(|s|, i requires 0 <= i < |s| => ByteOf(s[i]))
  }

  function Chars(s: bytes): (r: string)
    ensures |r| == |s|
  {
    seq(|s|, i requires 0 <= i < |s| => CharOf(s[i]))
  }

  lemma ByteOfChar(x: bv8)
    ensures ByteOf(CharOf(x)) == x && (CharOf(x) == ' ' ==> x == 0x20)
  {
  }

  lemma BytesOfChars(s: bytes)
    ensures Bytes(Chars(s)) == s
    ensures 0x20 !in s ==> ' ' !in Chars(s)
  {
    hide CharOf, ByteOf;
    forall i | 0 <= i < |s| ensures Bytes(Chars(s))[i] == s[i] && (Chars(s)[i] == ' ' ==> s[i] == 0x20) {
      ByteOfChar(s[i]);
    }
  }

  function Print(s: bytes): string {
    Chars(Hash.Printable(s))
  }

  lemma PrintHasNoSpace(s: bytes)
    ensures ' ' !in Print(s) && |Print(s)| == 2 * |s|
  {
    hide Hash.Printable;
    Hash.PrintableIsInjective(s, s);
    BytesOfChars(Hash.Printable(s));
  }

  lemma DigitIsHex(n: bv8)
    requires n < 16
    ensures CharOf(Hash.HexDigit(n)) == Rfc2195.HexDigit(n)
  {
    if n == 0 || n == 1 || n == 2 || n == 3 {
    } else if n == 4 || n == 5 || n == 6 || n == 7 {
    } else if n == 8 || n == 9 || n == 10 || n == 11 {
    } else if n == 12 || n == 13 || n == 14 {
    } else {
      assert n == 15;
    }
  }

  lemma HalfOf(x: bv8)
    ensures x >> 4 == x / 16 < 16
    ensures x % 16 < 16 && Hash.HexDigit(x) == Hash.HexDigit(x % 16)
  {
  }

  /** The printable form is two lower-case hexadecimal digits for each byte. */
  lemma {:induction false} PrintIsHex(s: bytes)
    ensures Print(s) == Rfc2195.Hex(s)
  {
    hide Hash.HexDigit, Rfc2195.HexDigit, CharOf;
    if s != [] {
      HalfOf(s[0]);
      DigitIsHex(s[0] / 16);
      DigitIsHex(s[0] % 16);
      PrintIsHex(s[1..]);
      assert Hash.Printable(s) == [Hash.HexDigit(s[0] >> 4), Hash.HexDigit(s[0])] + Hash.Printable(s[1..]);
    }
  }

  // ----- mechanisms

  predicate IsCram(mechanism: string) {
    "CRAM-" <= mechanism
  }

  lemma NotCram()
    ensures !IsCram("APOP") && !IsCram("PLAIN") && !IsCram("LOGIN") && !IsCram("XOAUTH2")
  {
    assert "APOP"[0] != 'C' && "PLAIN"[0] != 'C' && "LOGIN"[0] != 'C' && "XOAUTH2"[0] != 'C';
  }

  // ----- responses

  /** The hash functions of the TLS library, other than MD5; none stands for an exception. */
  datatype Library = Library(
    digest: (string, bytes, bytes) -> Option<bytes>,
    hmac: (string, bytes, bytes) -> Option<bytes>,
    postdigest: (string, bytes, bytes) -> Option<bytes>)

  function Printed(s: Option<bytes>): Option<string> {
    match s case None => None case Some(x) => Some(Print(x))
  }

  function ResponseImp(lib: Library, kind: string, asHmac: bool, secret: SF.Secret, challenge: string): Option<string> {
    var k, c := Bytes(secret.secret), Bytes(challenge);
    if !secret.Valid() then None
    else if !asHmac then
      if secret.Masked() then None
      else if Imatch(kind, "MD5") then Some(Print(Md5.Digest2(c, k)))
      else Printed(lib.digest(kind, c, k))
    else if secret.Masked() then
      if !Imatch(secret.hash, kind) then None
      else if Imatch(kind, "MD5") then Printed(Hash.HmacMasked(Md5.Postdigest, k, c))
      else Printed(lib.postdigest(kind, k, c))
    else
      if Imatch(kind, "MD5") then Some(Print(Hash.Md5Hmac(k, c))) else Printed(lib.hmac(kind, k, c))
  }

  /** The client's response, empty if there is an exception. */
  function Response(lib: Library, kind: string, asHmac: bool, secret: SF.Secret, challenge: string, id: string): string {
    match ResponseImp(lib, kind, asHmac, secret, challenge)
    case None => ""
    case Some(x) => id + [' '] + x
  }

  predicate Validate(lib: Library, kind: string, asHmac: bool, secret: SF.Secret, challenge: string, response: string) {
    var expectation := match FindLast(response, ' ') case None => "" case Some(pos) => Tail(response, pos);
    expectation != "" && ResponseImp(lib, kind, asHmac, secret, challenge) == Some(expectation)
  }

  /** The identity in a response: everything before the last space. */
  function Id(response: string): string {
    match FindLast(response, ' ') case None => "" case Some(pos) => response[..pos]
  }

  // ----- both sides of an exchange

  lemma ResponseHasNoSpace(lib: Library, kind: string, asHmac: bool, secret: SF.Secret, challenge: string)
    ensures var x := ResponseImp(lib, kind, asHmac, secret, challenge); x.Some? ==> ' ' !in x.value
  {
    hide Print, Md5.Digest2, Md5.Postdigest, Hash.Md5Hmac, Hash.HmacMasked;
    forall s: bytes ensures ' ' !in Print(s) {
      PrintHasNoSpace(s);
    }
  }

  lemma SplitResponse(id: string, x: string)
    requires ' ' !in x
    ensures FindLast(id + [' '] + x, ' ') == Some(|id|)
    ensures Id(id + [' '] + x) == id && Tail(id + [' '] + x, |id|) == x
  {
    hide FindLast;
    var r := id + [' '] + x;
    assert r[|id|] == ' ' && r[|id| + 1..] == x && r[..|id|] == id;
    forall i | |id| < i < |r| ensures r[i] != ' ' {
      assert r[i] == x[i - |id| - 1];
    }
    FindLastIs(r, ' ', |id|);
  }

  /** The server finds the client's identity, spaces and all, and accepts the response exactly when its own
      secret gives the same one. */
  lemma Exchange(lib: Library, kind: string, asHmac: bool, ours: SF.Secret, theirs: SF.Secret, challenge: string, id: string)
    requires ResponseImp(lib, kind, asHmac, ours, challenge).Some?
    ensures var response := Response(lib, kind, asHmac, ours, challenge, id);
      && Id(response) == id
      && (Validate(lib, kind, asHmac, theirs, challenge, response) <==>
            && ResponseImp(lib, kind, asHmac, theirs, challenge) == ResponseImp(lib, kind, asHmac, ours, challenge)
            && ResponseImp(lib, kind, asHmac, ours, challenge) != Some(""))
  {
    hide ResponseImp, FindLast;
    var x := ResponseImp(lib, kind, asHmac, ours, challenge).value;
    ResponseHasNoSpace(lib, kind, asHmac, ours, challenge);
    SplitResponse(id, x);
  }

  /** A secret that holds a password, as it is or masked for MD5. */
  predicate Holds(secret: SF.Secret, password: string) {
    || (!secret.Masked() && secret.secret == password)
    || (secret.hash == "md5" && secret.secret == Chars(Hash.Md5Mask(Bytes(password))))
  }

  /** All secrets that hold a password give the same response, masked or not. */
  lemma SameResponse(lib: Library, kind: string, secret: SF.Secret, password: string, challenge: string)
    requires secret.Valid() && Holds(secret, password) && Imatch(kind, "MD5")
    ensures ResponseImp(lib, kind, true, secret, challenge) == Some(Print(Hash.Md5Hmac(Bytes(password), Bytes(challenge))))
    ensures ResponseImp(lib, kind, true, secret, challenge) != Some("")
  {
    hide Hash.Md5Hmac, Hash.Md5Mask, Print, Md5.Postdigest;
    var k, c := Bytes(password), Bytes(challenge);
    PrintHasNoSpace(Hash.Md5Hmac(k, c));
    HmacSize(k, c);
    if secret.Masked() {
      BytesOfChars(Hash.Md5Mask(k));
      Hash.MaskedIsPlain(k, c);
      SameKind(kind);
    }
  }

  lemma SameKind(kind: string)
    ensures Imatch(kind, "MD5") ==> Imatch("md5", kind)
  {
    assert Lower("MD5") == "md5" && Lower("md5") == "md5";
  }

  lemma HmacSize(k: bytes, c: bytes)
    ensures |Hash.Md5Hmac(k, c)| == 16
  {
  }

  lemma BytesAreOctets(s: string)
    requires Rfc2195.IsOctets(s)
    ensures Bytes(s) == Rfc2195.Octets(s)
  {
  }

  /** With any secret that holds the password the response to a challenge is the one of RFC 2195, if
      neither the challenge nor a password that is hashed is of one of the lengths that the streaming digest
      cuts short. */
  lemma ResponseIsRfc(lib: Library, kind: string, secret: SF.Secret, password: string, challenge: string, id: string)
    requires secret.Valid() && Holds(secret, password) && Imatch(kind, "MD5")
    requires Rfc2195.IsOctets(password) && Rfc2195.IsOctets(challenge)
    requires |challenge| % 64 <= 55 && (|password| <= 64 || |password| % 64 <= 55)
    ensures Response(lib, kind, true, secret, challenge, id) == Rfc2195.Response(id, password, challenge)
  {
    hide Hash.Md5Hmac, ResponseImp, Rfc2104.Hmac, Rfc2195.Hex, Print, Holds, Bytes, Rfc2195.Octets, Rfc2195.IsOctets;
    var k, c := Bytes(password), Bytes(challenge);
    SameResponse(lib, kind, secret, password, challenge);
    BytesAreOctets(password);
    BytesAreOctets(challenge);
    Hash.HmacIsRfc(k, c);
    PrintIsHex(Hash.Md5Hmac(k, c));
  }

  /** The response of section 7 of RFC 1939 (APOP), which is not keyed but digests the challenge and the secret. */
  lemma ApopResponseIsRfc(lib: Library, secret: SF.Secret, challenge: string, id: string)
    requires secret.Valid() && !secret.Masked()
    requires Rfc2195.IsOctets(secret.secret) && Rfc2195.IsOctets(challenge)
    requires |challenge + secret.secret| % 64 <= 55
    ensures Response(lib, "MD5", false, secret, challenge, id)
      == id + " " + Rfc2195.Hex(Rfc1321.Md5(Rfc2195.Octets(challenge) + Rfc2195.Octets(secret.secret)))
  {
    hide Rfc1321.Md5, Md5.Digest2, Rfc2195.Hex, Print, Bytes, Rfc2195.Octets, Rfc2195.IsOctets;
    BytesAreOctets(challenge);
    BytesAreOctets(secret.secret);
    Hash.Digest2IsMd5(Bytes(challenge), Bytes(secret.secret));
    PrintIsHex(Md5.Digest2(Bytes(challenge), Bytes(secret.secret)));
  }

  /** The other hash functions are asked for the digest of the challenge and the secret, or for the keyed hash with
      the secret as key; a masked secret is good for its own hash function only, and only when there is a key. */
  lemma OtherResponses(lib: Library, kind: string, asHmac: bool, secret: SF.Secret, challenge: string)
    requires Rfc2195.IsOctets(secret.secret) && Rfc2195.IsOctets(challenge)
    ensures !secret.Valid() || (secret.Masked() && (!asHmac || Lower(secret.hash) != Lower(kind)))
      ==> ResponseImp(lib, kind, asHmac, secret, challenge) == None
    ensures secret.Valid() && Lower(kind) != "md5" && (secret.Masked() ==> asHmac && Lower(secret.hash) == Lower(kind)) ==>
      var k, c := Rfc2195.Octets(secret.secret), Rfc2195.Octets(challenge);
      var digest := if !asHmac then lib.digest(kind, c, k)
                    else if secret.Masked() then lib.postdigest(kind, k, c) else lib.hmac(kind, k, c);
      ResponseImp(lib, kind, asHmac, secret, challenge) == if digest == None then None else Some(Rfc2195.Hex(digest.value))
  {
    hide Print, Bytes, Rfc2195.Octets, Rfc2195.IsOctets, Hash.Md5Hmac, Hash.HmacMasked, Md5.Digest2, Rfc2195.Hex, Lower;
    SameLower();
    BytesAreOctets(challenge);
    BytesAreOctets(secret.secret);
    forall s: bytes ensures Print(s) == Rfc2195.Hex(s) {
      PrintIsHex(s);
    }
  }

  lemma SameLower()
    ensures Lower("MD5") == "md5"
  {
  }
}
