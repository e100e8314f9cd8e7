/** The MD5 algorithm as RFC 1321 defines it, over 32-bit words. */
module Rfc1321 {
  type byte = bv8
  type word = bv32

  datatype Quad = Quad(a: word, b: word, c: word, d: word)

  // ----- section 3.3

  const INITIAL := Quad(0x67452301, 0xefcdab89, 0x98badcfe, 0x10325476)

  // ----- section 3.4

  /** Addition of words, modulo 2^32. */
  function Add(x: word, y: word): word { x + y }

  function F(x: word, y: word, z: word): word { (x & y) | (!x & z) }
  function G(x: word, y: word, z: word): word { (x & z) | (y & !z) }
  function H(x: word, y: word, z: word): word { x ^ y ^ z }
  function I(x: word, y: word, z: word): word { y ^ (x | !z) }

  function Pick(k: nat, x: word, y: word, z: word, w: word): word {
    match k case 0 => x case 1 => y case 2 => z case _ => w
  }

  /** The integer part of 4294967296 times abs(sin(j + 1)), in radians. */
  function Sine(j: nat): word {
    var k := j % 4;
    match j / 4
    case 0 => Pick(k, 0xd76aa478, 0xe8c7b756, 0x242070db, 0xc1bdceee)
    case 1 => Pick(k, 0xf57c0faf, 0x4787c62a, 0xa8304613, 0xfd469501)
    case 2 => Pick(k, 0x698098d8, 0x8b44f7af, 0xffff5bb1, 0x895cd7be)
    case 3 => Pick(k, 0x6b901122, 0xfd987193, 0xa679438e, 0x49b40821)
    case 4 => Pick(k, 0xf61e2562, 0xc040b340, 0x265e5a51, 0xe9b6c7aa)
    case 5 => Pick(k, 0xd62f105d, 0x02441453, 0xd8a1e681, 0xe7d3fbc8)
    case 6 => Pick(k, 0x21e1cde6, 0xc33707d6, 0xf4d50d87, 0x455a14ed)
    case 7 => Pick(k, 0xa9e3e905, 0xfcefa3f8, 0x676f02d9, 0x8d2a4c8a)
    case 8 => Pick(k, 0xfffa3942, 0x8771f681, 0x6d9d6122, 0xfde5380c)
    case 9 => Pick(k, 0xa4beea44, 0x4bdecfa9, 0xf6bb4b60, 0xbebfbc70)
    case 10 => Pick(k, 0x289b7ec6, 0xeaa127fa, 0xd4ef3085, 0x04881d05)
    case 11 => Pick(k, 0xd9d4d039, 0xe6db99e5, 0x1fa27cf8, 0xc4ac5665)
    case 12 => Pick(k, 0xf4292244, 0x432aff97, 0xab9423a7, 0xfc93a039)
    case 13 => Pick(k, 0x655b59c3, 0x8f0ccc92, 0xffeff47d, 0x85845dd1)
    case 14 => Pick(k, 0x6fa87e4f, 0xfe2ce6e0, 0xa3014314, 0x4e0811a1)
    case _ => Pick(k, 0xf7537e82, 0xbd3af235, 0x2ad7d2bb, 0xeb86d391)
  }

  /** The sixteen shift amounts. */
  predicate IsShift(s: bv6) {
    || s == 4 || s == 5 || s == 6 || s == 7 || s == 9 || s == 10 || s == 11 || s == 12
    || s == 14 || s == 15 || s == 16 || s == 17 || s == 20 || s == 21 || s == 22 || s == 23
  }

  function Shift(j: nat): (s: bv6)
    ensures IsShift(s)
  {
    match (j / 16, j % 4)
    case (0, 0) => 7 case (0, 1) => 12 case (0, 2) => 17 case (0, _) => 22
    case (1, 0) => 5 case (1, 1) => 9 case (1, 2) => 14 case (1, _) => 20
    case (2, 0) => 4 case (2, 1) => 11 case (2, 2) => 16 case (2, _) => 23
    case (_, 0) => 6 case (_, 1) => 10 case (_, 2) => 15 case (_, _) => 21
  }

  function Rotate(x: word, s: bv6): word
    requires s <= 32
  {
    (x << s) | (x >> (32 - s))
  }

  function Aux(round: nat, x: word, y: word, z: word): word {
    if round == 0 then F(x, y, z) else if round == 1 then G(x, y, z) else if round == 2 then H(x, y, z) else I(x, y, z)
  }

  /** Which word of the block operation j uses. */
  function WordIndex(j: nat): (k: nat)
    ensures j < 64 ==> k < 16
  {
    if j < 16 then j else if j < 32 then (5 * j + 1) % 16 else if j < 48 then (3 * j + 5) % 16 else 7 * j % 16
  }

  function Mixed(a: word, b: word, c: word, d: word, x: word, j: nat): word
    requires j < 64
  {
    Add(b, Rotate(Add(Add(Add(a, Aux(j / 16, b, c, d)), x), Sine(j)), Shift(j)))
  }

  /** Operation j, which updates the registers A, D, C and B in turn. */
  function Step(q: Quad, block: seq<word>, j: nat): Quad
    requires |block| == 16 && j < 64
  {
    var x := block[WordIndex(j)];
    match j % 4
    case 0 => q.(a := Mixed(q.a, q.b, q.c, q.d, x, j))
    case 1 => q.(d := Mixed(q.d, q.a, q.b, q.c, x, j))
    case 2 => q.(c := Mixed(q.c, q.d, q.a, q.b, x, j))
    case _ => q.(b := Mixed(q.b, q.c, q.d, q.a, x, j))
  }

  function Steps(q: Quad, block: seq<word>, j: nat): Quad
    requires |block| == 16 && j <= 64
  {
    if j == 0 then q else Step(Steps(q, block, j - 1), block, j - 1)
  }

  lemma NoSteps(q: Quad, block: seq<word>)
    requires |block| == 16
    ensures Steps(q, block, 0) == q
  {
  }

  function Sum(p: Quad, q: Quad): Quad {
    Quad(Add(p.a, q.a), Add(p.b, q.b), Add(p.c, q.c), Add(p.d, q.d))
  }

  function Compress(q: Quad, block: seq<word>): Quad
    requires |block| == 16
  {
    Sum(Steps(q, block, 64), q)
  }

  // ----- the operations can be undone

  function Minus(x: word, y: word): word { x - y }

  lemma MinusUndoes(x: word, y: word)
    ensures Minus(Add(x, y), x) == y && Minus(Add(y, x), x) == y
  {
  }

  lemma AddCancels(x: word, y: word, z: word)
    ensures Add(x, y) == Add(x, z) ==> y == z
    ensures Add(y, x) == Add(z, x) ==> y == z
  {
    hide Add, Minus;
    MinusUndoes(x, y);
    MinusUndoes(x, z);
  }

  lemma RotateBack(x: word, s: bv6)
    requires IsShift(s)
    ensures Rotate(Rotate(x, s), 32 - s) == x
  {
    hide Rotate;
    if s == 4 || s == 5 {
      RotateBack4(x, s);
    } else if s == 6 || s == 7 {
      RotateBack6(x, s);
    } else if s == 9 || s == 10 {
      RotateBack9(x, s);
    } else if s == 11 || s == 12 {
      RotateBack11(x, s);
    } else if s == 14 || s == 15 {
      RotateBack14(x, s);
    } else if s == 16 || s == 17 {
      RotateBack16(x, s);
    } else if s == 20 || s == 21 {
      RotateBack20(x, s);
    } else if s == 22 || s == 23 {
      RotateBack22(x, s);
    }
  }

  lemma RotateBack4(x: word, s: bv6)
    requires s == 4 || s == 5
    ensures Rotate(Rotate(x, s), 32 - s) == x
  {
  }

  lemma RotateBack6(x: word, s: bv6)
    requires s == 6 || s == 7
    ensures Rotate(Rotate(x, s), 32 - s) == x
  {
  }

  lemma RotateBack9(x: word, s: bv6)
    requires s == 9 || s == 10
    ensures Rotate(Rotate(x, s), 32 - s) == x
  {
  }

  lemma RotateBack11(x: word, s: bv6)
    requires s == 11 || s == 12
    ensures Rotate(Rotate(x, s), 32 - s) == x
  {
  }

  lemma RotateBack14(x: word, s: bv6)
    requires s == 14 || s == 15
    ensures Rotate(Rotate(x, s), 32 - s) == x
  {
  }

  lemma RotateBack16(x: word, s: bv6)
    requires s == 16 || s == 17
    ensures Rotate(Rotate(x, s), 32 - s) == x
  {
  }

  lemma RotateBack20(x: word, s: bv6)
    requires s == 20 || s == 21
    ensures Rotate(Rotate(x, s), 32 - s) == x
  {
  }

  lemma RotateBack22(x: word, s: bv6)
    requires s == 22 || s == 23
    ensures Rotate(Rotate(x, s), 32 - s) == x
  {
  }

  lemma RotateIsInjective(x: word, y: word, j: nat)
    ensures Rotate(x, Shift(j)) == Rotate(y, Shift(j)) ==> x == y
  {
    hide Rotate, Shift;
    RotateBack(x, Shift(j));
    RotateBack(y, Shift(j));
  }

  lemma MixedIsInjective(a: word, a': word, b: word, c: word, d: word, x: word, j: nat)
    requires j < 64
    ensures Mixed(a, b, c, d, x, j) == Mixed(a', b, c, d, x, j) ==> a == a'
  {
    hide Add, Rotate, Aux, Sine, Shift;
    var f, t := Aux(j / 16, b, c, d), Sine(j);
    var u, u' := Add(Add(Add(a, f), x), t), Add(Add(Add(a', f), x), t);
    AddCancels(b, Rotate(u, Shift(j)), Rotate(u', Shift(j)));
    RotateIsInjective(u, u', j);
    AddCancels(t, Add(Add(a, f), x), Add(Add(a', f), x));
    AddCancels(x, Add(a, f), Add(a', f));
    AddCancels(f, a, a');
  }

  lemma StepIsInjective(q: Quad, r: Quad, block: seq<word>, j: nat)
    requires |block| == 16 && j < 64
    ensures Step(q, block, j) == Step(r, block, j) ==> q == r
  {
    hide Mixed, WordIndex, IsShift;
    var x := block[WordIndex(j)];
    SameA(q, r, x, j);
    SameB(q, r, x, j);
    SameC(q, r, x, j);
    SameD(q, r, x, j);
  }

  lemma SameA(q: Quad, r: Quad, x: word, j: nat)
    requires j < 64
    ensures q.(a := Mixed(q.a, q.b, q.c, q.d, x, j)) == r.(a := Mixed(r.a, r.b, r.c, r.d, x, j)) ==> q == r
  {
    hide Mixed, IsShift;
    SameRegister(q.a, r.a, q.b, r.b, q.c, r.c, q.d, r.d, x, j);
  }

  lemma SameD(q: Quad, r: Quad, x: word, j: nat)
    requires j < 64
    ensures q.(d := Mixed(q.d, q.a, q.b, q.c, x, j)) == r.(d := Mixed(r.d, r.a, r.b, r.c, x, j)) ==> q == r
  {
    hide Mixed, IsShift;
    SameRegister(q.d, r.d, q.a, r.a, q.b, r.b, q.c, r.c, x, j);
  }

  lemma SameC(q: Quad, r: Quad, x: word, j: nat)
    requires j < 64
    ensures q.(c := Mixed(q.c, q.d, q.a, q.b, x, j)) == r.(c := Mixed(r.c, r.d, r.a, r.b, x, j)) ==> q == r
  {
    hide Mixed, IsShift;
    SameRegister(q.c, r.c, q.d, r.d, q.a, r.a, q.b, r.b, x, j);
  }

  lemma SameB(q: Quad, r: Quad, x: word, j: nat)
    requires j < 64
    ensures q.(b := Mixed(q.b, q.c, q.d, q.a, x, j)) == r.(b := Mixed(r.b, r.c, r.d, r.a, x, j)) ==> q == r
  {
    hide Mixed, IsShift;
    SameRegister(q.b, r.b, q.c, r.c, q.d, r.d, q.a, r.a, x, j);
  }

  lemma SameRegister(a: word, a': word, b: word, b': word, c: word, c': word, d: word, d': word, x: word, j: nat)
    requires j < 64
    ensures Mixed(a, b, c, d, x, j) == Mixed(a', b', c', d', x, j) && b == b' && c == c' && d == d' ==> a == a'
  {
    hide Mixed, IsShift;
    MixedIsInjective(a, a', b, c, d, x, j);
  }

  lemma {:induction false} StepsAreInjective(q: Quad, r: Quad, block: seq<word>, j: nat)
    requires |block| == 16 && j <= 64
    ensures Steps(q, block, j) == Steps(r, block, j) ==> q == r
  {
    hide Step;
    if j > 0 {
      StepIsInjective(Steps(q, block, j - 1), Steps(r, block, j - 1), block, j - 1);
      StepsAreInjective(q, r, block, j - 1);
    }
  }

  /** A block leads back to at most one state. */
  lemma AtMostOneFixedState(q: Quad, r: Quad, block: seq<word>)
    requires |block| == 16
    ensures Compress(q, block) == q && Compress(r, block) == r ==> q == r
  {
    hide Steps, Add;
    StepsAreInjective(q, r, block, 64);
    SumBack(Steps(q, block, 64), q);
    SumBack(Steps(r, block, 64), r);
  }

  lemma SumBack(p: Quad, q: Quad)
    ensures Sum(p, q) == q ==> p == Quad(0, 0, 0, 0)
  {
    hide Add;
    ZeroBack(p.a, q.a);
    ZeroBack(p.b, q.b);
    ZeroBack(p.c, q.c);
    ZeroBack(p.d, q.d);
  }

  lemma ZeroBack(x: word, y: word)
    ensures Add(x, y) == y ==> x == 0
  {
    AddZero(y);
    hide Add;
    AddCancels(y, x, 0);
  }

  lemma AddZero(y: word)
    ensures Add(0, y) == y
  {
  }

  // ----- words and blocks, section 2

  function Word(b0: byte, b1: byte, b2: byte, b3: byte): word {
    (b3 as word << 24) | (b2 as word << 16) | (b1 as word << 8) | b0 as word
  }

  function Words(s: seq<byte>): (x: seq<word>)
    requires |s| == 64
    ensures |x| == 16
  {
    seq(16, k requires 0 <= k < 16 => Word(s[4 * k], s[4 * k + 1], s[4 * k + 2], s[4 * k + 3]))
  }

  function Digested(q: Quad, s: seq<byte>): Quad
    requires |s| % 64 == 0
    decreases |s|
  {
    if s == [] then q else Digested(Compress(q, Words(s[..64])), s[64..])
  }

  // ----- padding, sections 3.1 and 3.2

  /** A number of bytes as a 64-bit counter holds it, that is modulo 2^64. */
  function Size(bytes: nat): bv64 {
    if bytes == 0 then 0 else Size(bytes - 1) + 1
  }

  /** The low-order 64 bits of the length in bits. */
  function Bits(bytes: nat): bv64 {
    Size(bytes) * 8
  }

  function LengthBytes(v: bv64): seq<byte> {
    [(v & 0xFF) as byte, ((v >> 8) & 0xFF) as byte, ((v >> 16) & 0xFF) as byte, ((v >> 24) & 0xFF) as byte,
     ((v >> 32) & 0xFF) as byte, ((v >> 40) & 0xFF) as byte, ((v >> 48) & 0xFF) as byte, ((v >> 56) & 0xFF) as byte]
  }

  /** The least number of zero bytes that makes the length 56 modulo 64 after the 0x80 byte. */
  function ZeroCount(length: nat): (n: nat)
    ensures n < 64 && (length + 1 + n) % 64 == 56 && (length + 1 + n + 8) % 64 == 0
  {
    (119 - length % 64) % 64
  }

  function Zeros(length: nat): (s: seq<byte>)
    ensures |s| == ZeroCount(length)
  {
    seq(ZeroCount(length), _ => 0)
  }

  function Padding(length: nat): (s: seq<byte>)
    ensures (length + |s|) % 64 == 0
  {
    [0x80] + Zeros(length) + LengthBytes(Bits(length))
  }

  // ----- output, section 3.5

  function Bytes(x: word): seq<byte> {
    [(x & 0xFF) as byte, ((x >> 8) & 0xFF) as byte, ((x >> 16) & 0xFF) as byte, ((x >> 24) & 0xFF) as byte]
  }

  function Output(q: Quad): (s: seq<byte>)
    ensures |s| == 16
  {
    Bytes(q.a) + Bytes(q.b) + Bytes(q.c) + Bytes(q.d)
  }

  function Md5(message: seq<byte>): (s: seq<byte>)
    ensures |s| == 16
  {
    Output(Digested(INITIAL, message + Padding(|message|)))
  }
}
