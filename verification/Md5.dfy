/** The MD5 digest class (src/glib/gmd5.cpp), on a machine with 64-bit std::size_t.

    A big_t is a 64-bit word of which only the low 32 bits mean anything; the high bits fill up with
    whatever the additions, shifts and complements leave there. */
module Md5 {
  import Rfc = Rfc1321
  import HashState
  import opened Wrappers

  type byte = Rfc.byte
  type big = bv64

  /** The 32 bits that matter. */
  function Low(x: big): Rfc.word {
    (x & 0xFFFF_FFFF) as Rfc.word
  }

  // ----- the auxiliary functions and the rotation

  function F(x: big, y: big, z: big): big { (x & y) | (!x & z) }
  function G(x: big, y: big, z: big): big { (x & z) | (y & !z) }
  function H(x: big, y: big, z: big): big { x ^ y ^ z }
  function I(x: big, y: big, z: big): big { y ^ (x | !z) }

  /** The mask keeps the corrupt high bits out of the bits that move to the low end. */
  function Rot32(places: bv6, n: big): big
    requires places <= 32
  {
    var overflowMask: big := (1 << places) - 1;
    var overflow := n >> (32 - places);
    (n << places) | (overflow & overflowMask)
  }

  /** Addition of big_t values, modulo 2^64. */
  function Plus(x: big, y: big): big { x + y }

  lemma LowSum(x: big, y: big)
    ensures Low(Plus(x, y)) == Rfc.Add(Low(x), Low(y))
  {
    assert Low(x + y) == Rfc.Add((x & 0xFFFF_FFFF) as Rfc.word, (y & 0xFFFF_FFFF) as Rfc.word);
  }

  lemma LowF(x: big, y: big, z: big)
    ensures Low(F(x, y, z)) == Rfc.F(Low(x), Low(y), Low(z))
  {
  }

  lemma LowG(x: big, y: big, z: big)
    ensures Low(G(x, y, z)) == Rfc.G(Low(x), Low(y), Low(z))
  {
  }

  lemma LowH(x: big, y: big, z: big)
    ensures Low(H(x, y, z)) == Rfc.H(Low(x), Low(y), Low(z))
  {
  }

  lemma LowI(x: big, y: big, z: big)
    ensures Low(I(x, y, z)) == Rfc.I(Low(x), Low(y), Low(z))
  {
  }

  lemma LowRotation4(places: bv6, n: big)
    requires places == 4 || places == 5
    ensures Low(Rot32(places, n)) == Rfc.Rotate(Low(n), places)
  {
    if places == 4 {}
  }

  lemma LowRotation6(places: bv6, n: big)
    requires places == 6 || places == 7
    ensures Low(Rot32(places, n)) == Rfc.Rotate(Low(n), places)
  {
    if places == 6 {}
  }

  lemma LowRotation9(places: bv6, n: big)
    requires places == 9 || places == 10
    ensures Low(Rot32(places, n)) == Rfc.Rotate(Low(n), places)
  {
    if places == 9 {}
  }

  lemma LowRotation11(places: bv6, n: big)
    requires places == 11 || places == 12
    ensures Low(Rot32(places, n)) == Rfc.Rotate(Low(n), places)
  {
    if places == 11 {}
  }

  lemma LowRotation14(places: bv6, n: big)
    requires places == 14 || places == 15
    ensures Low(Rot32(places, n)) == Rfc.Rotate(Low(n), places)
  {
    if places == 14 {}
  }

  lemma LowRotation16(places: bv6, n: big)
    requires places == 16 || places == 17
    ensures Low(Rot32(places, n)) == Rfc.Rotate(Low(n), places)
  {
    if places == 16 {}
  }

  lemma LowRotation20(places: bv6, n: big)
    requires places == 20 || places == 21
    ensures Low(Rot32(places, n)) == Rfc.Rotate(Low(n), places)
  {
    if places == 20 {}
  }

  lemma LowRotation22(places: bv6, n: big)
    requires places == 22 || places == 23
    ensures Low(Rot32(places, n)) == Rfc.Rotate(Low(n), places)
  {
    if places == 22 {}
  }

  /** The low half of a rotation is the rotation of the low half, for the sixteen shift amounts. */
  lemma LowRotation(places: bv6, n: big)
    requires Rfc.IsShift(places)
    ensures Low(Rot32(places, n)) == Rfc.Rotate(Low(n), places)
  {
    hide Rot32, Low, Rfc.Rotate;
    if places == 4 || places == 5 {
      LowRotation4(places, n);
    } else if places == 6 || places == 7 {
      LowRotation6(places, n);
    } else if places == 9 || places == 10 {
      LowRotation9(places, n);
    } else if places == 11 || places == 12 {
      LowRotation11(places, n);
    } else if places == 14 || places == 15 {
      LowRotation14(places, n);
    } else if places == 16 || places == 17 {
      LowRotation16(places, n);
    } else if places == 20 || places == 21 {
      LowRotation20(places, n);
    } else {
      LowRotation22(places, n);
    }
  }

  // ----- blocks

  /** Md5Imp::block: the data, which 64-byte block of it this is, and the value of end(). */
  datatype Block = Block(data: seq<byte>, index: nat, end: big)

  function Rounded(bytes: nat): (n: nat)
    ensures bytes < n <= bytes + 64 && n % 64 == 56
  {
    bytes + 64 - (bytes + 8) % 64
  }

  function Blocks(bytes: nat): nat {
    (Rounded(bytes) + 8) / 64
  }

  /** The low eight bits of the value shifted right by some bytes. */
  function ShiftedByte(v: big, bytes: nat): big {
    match bytes
    case 0 => v & 0xFF
    case 1 => (v >> 8) & 0xFF
    case 2 => (v >> 16) & 0xFF
    case 3 => (v >> 24) & 0xFF
    case 4 => (v >> 32) & 0xFF
    case 5 => (v >> 40) & 0xFF
    case 6 => (v >> 48) & 0xFF
    case 7 => (v >> 56) & 0xFF
    case _ => 0
  }

  /** block::x() */
  function ByteAt(m: Block, i: nat): big {
    var length := |m.data|;
    if i < length then m.data[i] as big
    else if i < Rounded(length) then (if i == length then 128 else 0)
    else ShiftedByte(m.end, i - Rounded(length))
  }

  function Joined(b3: big, b2: big, b1: big, b0: big): big {
    (((((b3 << 8) + b2) << 8) + b1) << 8) + b0
  }

  /** block::X() */
  function WordAt(m: Block, k: nat): big {
    var i := m.index * 64 + k * 4;
    Joined(ByteAt(m, i + 3), ByteAt(m, i + 2), ByteAt(m, i + 1), ByteAt(m, i))
  }

  function LowWords(m: Block): (x: seq<Rfc.word>)
    ensures |x| == 16
  {
    seq(16, k requires 0 <= k < 16 => Low(WordAt(m, k)))
  }

  // ----- the digest

  datatype State = State(a: big, b: big, c: big, d: big)

  function Lows(q: State): Rfc.Quad {
    Rfc.Quad(Low(q.a), Low(q.b), Low(q.c), Low(q.d))
  }

  datatype Aux = AuxF | AuxG | AuxH | AuxI
  datatype Permutation = ABCD | DABC | CDAB | BCDA

  function Apply(f: Aux, x: big, y: big, z: big): big {
    match f
    case AuxF => F(x, y, z)
    case AuxG => G(x, y, z)
    case AuxH => H(x, y, z)
    case AuxI => I(x, y, z)
  }

  function T(i: nat): big
    requires 1 <= i <= 64
  {
    Rfc.Sine(i - 1) as big
  }

  /** digest::op() */
  function Op(m: Block, f: Aux, a: big, b: big, c: big, d: big, k: nat, s: bv6, i: nat): big
    requires 1 <= i <= 64 && Rfc.IsShift(s)
  {
    Plus(b, Rot32(s, Plus(Plus(Plus(a, Apply(f, b, c, d)), WordAt(m, k)), T(i))))
  }

  function AuxOf(round: nat): Aux {
    if round == 0 then AuxF else if round == 1 then AuxG else if round == 2 then AuxH else AuxI
  }

  function PermutationOf(turn: nat): Permutation {
    if turn == 0 then ABCD else if turn == 1 then DABC else if turn == 2 then CDAB else BCDA
  }

  /** The arguments agree with operation i - 1 of the standard. */
  ghost predicate Scheduled(f: Aux, p: Permutation, k: nat, s: bv6, i: nat) {
    && 1 <= i <= 64 && k == Rfc.WordIndex(i - 1) && s == Rfc.Shift(i - 1)
    && f == AuxOf((i - 1) / 16) && p == PermutationOf((i - 1) % 4)
  }

  lemma LowApply(f: Aux, round: nat, x: big, y: big, z: big)
    requires round < 4 && f == AuxOf(round)
    ensures Low(Apply(f, x, y, z)) == Rfc.Aux(round, Low(x), Low(y), Low(z))
  {
    hide Low, F, G, H, I, Rfc.F, Rfc.G, Rfc.H, Rfc.I;
    LowF(x, y, z);
    LowG(x, y, z);
    LowH(x, y, z);
    LowI(x, y, z);
  }

  lemma LowT(i: nat)
    requires 1 <= i <= 64
    ensures Low(T(i)) == Rfc.Sine(i - 1)
  {
    hide Rfc.Sine;
    LowOfWord(Rfc.Sine(i - 1));
  }

  lemma LowOfWord(w: Rfc.word)
    ensures Low(w as big) == w
  {
  }

  lemma LowOp(m: Block, f: Aux, a: big, b: big, c: big, d: big, k: nat, s: bv6, i: nat)
    requires 1 <= i <= 64 && k < 16 && s == Rfc.Shift(i - 1) && f == AuxOf((i - 1) / 16)
    ensures Low(Op(m, f, a, b, c, d, k, s, i))
      == Rfc.Mixed(Low(a), Low(b), Low(c), Low(d), LowWords(m)[k], i - 1)
  {
    hide Low, Plus, Rot32, Apply, Rfc.Aux, Rfc.Rotate, Rfc.Add, WordAt, T, Rfc.Sine;
    var g := Apply(f, b, c, d);
    var x, t := WordAt(m, k), T(i);
    LowApply(f, (i - 1) / 16, b, c, d);
    LowT(i);
    LowSum(a, g);
    LowSum(Plus(a, g), x);
    LowSum(Plus(Plus(a, g), x), t);
    var sum := Plus(Plus(Plus(a, g), x), t);
    LowRotation(s, sum);
    LowSum(b, Rot32(s, sum));
  }

  class Digest {
    var a: big
    var b: big
    var c: big
    var d: big

    constructor (q: State)
      ensures Value() == q
    {
      a, b, c, d := q.a, q.b, q.c, q.d;
    }

    function Value(): State
      reads this
    {
      State(a, b, c, d)
    }

    /** The low halves after i operations of the standard, with q the state before them. */
    ghost predicate At(q: Rfc.Quad, m: Block, i: nat)
      requires i <= 64
      reads this
    {
      Lows(Value()) == Rfc.Steps(q, LowWords(m), i)
    }

    /** One operation, with q the state at the start of the block. */
    method Step(m: Block, f: Aux, p: Permutation, k: nat, s: bv6, i: nat, ghost q: Rfc.Quad)
      requires Scheduled(f, p, k, s, i) && k < 16
      requires At(q, m, i - 1)
      modifies this
      ensures At(q, m, i)
    {
      hide Low, Op, Rfc.Mixed, LowWords, Rfc.Shift, Rfc.Sine;
      match p {
        case ABCD =>
          LowOp(m, f, a, b, c, d, k, s, i);
          a := Op(m, f, a, b, c, d, k, s, i);
        case DABC =>
          LowOp(m, f, d, a, b, c, k, s, i);
          d := Op(m, f, d, a, b, c, k, s, i);
        case CDAB =>
          LowOp(m, f, c, d, a, b, k, s, i);
          c := Op(m, f, c, d, a, b, k, s, i);
        case BCDA =>
          LowOp(m, f, b, c, d, a, k, s, i);
          b := Op(m, f, b, c, d, a, k, s, i);
      }
    }

    method Round1(m: Block, ghost q: Rfc.Quad)
      requires At(q, m, 0)
      modifies this
      ensures At(q, m, 16)
    {
      hide At, WordAt, Rfc.IsShift;
      Step(m, AuxF, ABCD, 0, 7, 1, q); Step(m, AuxF, DABC, 1, 12, 2, q);
      Step(m, AuxF, CDAB, 2, 17, 3, q); Step(m, AuxF, BCDA, 3, 22, 4, q);
      Step(m, AuxF, ABCD, 4, 7, 5, q); Step(m, AuxF, DABC, 5, 12, 6, q);
      Step(m, AuxF, CDAB, 6, 17, 7, q); Step(m, AuxF, BCDA, 7, 22, 8, q);
      Step(m, AuxF, ABCD, 8, 7, 9, q); Step(m, AuxF, DABC, 9, 12, 10, q);
      Step(m, AuxF, CDAB, 10, 17, 11, q); Step(m, AuxF, BCDA, 11, 22, 12, q);
      Step(m, AuxF, ABCD, 12, 7, 13, q); Step(m, AuxF, DABC, 13, 12, 14, q);
      Step(m, AuxF, CDAB, 14, 17, 15, q); Step(m, AuxF, BCDA, 15, 22, 16, q);
    }

    method Round2(m: Block, ghost q: Rfc.Quad)
      requires At(q, m, 16)
      modifies this
      ensures At(q, m, 32)
    {
      hide At, WordAt, Rfc.IsShift;
      Step(m, AuxG, ABCD, 1, 5, 17, q); Step(m, AuxG, DABC, 6, 9, 18, q);
      Step(m, AuxG, CDAB, 11, 14, 19, q); Step(m, AuxG, BCDA, 0, 20, 20, q);
      Step(m, AuxG, ABCD, 5, 5, 21, q); Step(m, AuxG, DABC, 10, 9, 22, q);
      Step(m, AuxG, CDAB, 15, 14, 23, q); Step(m, AuxG, BCDA, 4, 20, 24, q);
      Step(m, AuxG, ABCD, 9, 5, 25, q); Step(m, AuxG, DABC, 14, 9, 26, q);
      Step(m, AuxG, CDAB, 3, 14, 27, q); Step(m, AuxG, BCDA, 8, 20, 28, q);
      Step(m, AuxG, ABCD, 13, 5, 29, q); Step(m, AuxG, DABC, 2, 9, 30, q);
      Step(m, AuxG, CDAB, 7, 14, 31, q); Step(m, AuxG, BCDA, 12, 20, 32, q);
    }

    method Round3(m: Block, ghost q: Rfc.Quad)
      requires At(q, m, 32)
      modifies this
      ensures At(q, m, 48)
    {
      hide At, WordAt, Rfc.IsShift;
      Step(m, AuxH, ABCD, 5, 4, 33, q); Step(m, AuxH, DABC, 8, 11, 34, q);
      Step(m, AuxH, CDAB, 11, 16, 35, q); Step(m, AuxH, BCDA, 14, 23, 36, q);
      Step(m, AuxH, ABCD, 1, 4, 37, q); Step(m, AuxH, DABC, 4, 11, 38, q);
      Step(m, AuxH, CDAB, 7, 16, 39, q); Step(m, AuxH, BCDA, 10, 23, 40, q);
      Step(m, AuxH, ABCD, 13, 4, 41, q); Step(m, AuxH, DABC, 0, 11, 42, q);
      Step(m, AuxH, CDAB, 3, 16, 43, q); Step(m, AuxH, BCDA, 6, 23, 44, q);
      Step(m, AuxH, ABCD, 9, 4, 45, q); Step(m, AuxH, DABC, 12, 11, 46, q);
      Step(m, AuxH, CDAB, 15, 16, 47, q); Step(m, AuxH, BCDA, 2, 23, 48, q);
    }

    method Round4(m: Block, ghost q: Rfc.Quad)
      requires At(q, m, 48)
      modifies this
      ensures At(q, m, 64)
    {
      hide At, WordAt, Rfc.IsShift;
      Step(m, AuxI, ABCD, 0, 6, 49, q); Step(m, AuxI, DABC, 7, 10, 50, q);
      Step(m, AuxI, CDAB, 14, 15, 51, q); Step(m, AuxI, BCDA, 5, 21, 52, q);
      Step(m, AuxI, ABCD, 12, 6, 53, q); Step(m, AuxI, DABC, 3, 10, 54, q);
      Step(m, AuxI, CDAB, 10, 15, 55, q); Step(m, AuxI, BCDA, 1, 21, 56, q);
      Step(m, AuxI, ABCD, 8, 6, 57, q); Step(m, AuxI, DABC, 15, 10, 58, q);
      Step(m, AuxI, CDAB, 6, 15, 59, q); Step(m, AuxI, BCDA, 13, 21, 60, q);
      Step(m, AuxI, ABCD, 4, 6, 61, q); Step(m, AuxI, DABC, 11, 10, 62, q);
      Step(m, AuxI, CDAB, 2, 15, 63, q); Step(m, AuxI, BCDA, 9, 21, 64, q);
    }

    /** digest::add() for a block: the low halves become those of the standard. */
    method Add(m: Block)
      modifies this
      ensures Lows(Value()) == Rfc.Compress(old(Lows(Value())), LowWords(m))
    {
      hide Rfc.Steps, LowWords, Low, Plus;
      var old_ := Value();
      ghost var q := Lows(old_);
      Rfc.NoSteps(q, LowWords(m));
      Round1(m, q);
      Round2(m, q);
      Round3(m, q);
      Round4(m, q);
      LowSum(a, old_.a);
      LowSum(b, old_.b);
      LowSum(c, old_.c);
      LowSum(d, old_.d);
      a, b, c, d := Plus(a, old_.a), Plus(b, old_.b), Plus(c, old_.c), Plus(d, old_.d);
    }

    /** digest::state(): the mask clears the high halves and nothing else. */
    method Masked() returns (q: State)
      ensures Clean(q) && Lows(q) == Lows(Value())
    {
      hide Low, HighCleared, CleanWord;
      q := State(HighCleared(a), HighCleared(b), HighCleared(c), HighCleared(d));
      LowHighCleared(a);
      LowHighCleared(b);
      LowHighCleared(c);
      LowHighCleared(d);
    }
  }

  /** The mask of digest::state(). */
  function HighCleared(x: big): big {
    var mask: big := 0xFFFF_FFFF;
    x & !(mask << 32)
  }

  lemma LowHighCleared(x: big)
    ensures CleanWord(HighCleared(x)) && Low(HighCleared(x)) == Low(x)
  {
  }

  /** The high half is zero. */
  predicate CleanWord(x: big) {
    x == Low(x) as big
  }

  predicate Clean(q: State) {
    CleanWord(q.a) && CleanWord(q.b) && CleanWord(q.c) && CleanWord(q.d)
  }

  // ----- padding

  /** Some bytes, the padding for their number, and a given length value. */
  function PaddedWith(s: seq<byte>, v: big): (p: seq<byte>)
    ensures |p| % 64 == 0 && |s| < |p|
  {
    s + [0x80] + Rfc.Zeros(|s|) + Rfc.LengthBytes(v)
  }

  function Padded(message: seq<byte>): (p: seq<byte>)
    ensures |p| % 64 == 0 && |message| < |p|
    ensures p == message + Rfc.Padding(|message|)
  {
    PaddedWith(message, Rfc.Bits(|message|))
  }

  lemma PaddedSize(bytes: nat)
    ensures Rounded(bytes) == bytes + 1 + Rfc.ZeroCount(bytes)
    ensures Rounded(bytes) + 8 == 64 * Blocks(bytes)
    ensures Blocks(bytes) > 0
  {
  }

  /** The bytes that block::x() makes up are those of the padding. */
  lemma ByteOfPadded(s: seq<byte>, index: nat, v: big, i: nat)
    requires i < |PaddedWith(s, v)|
    ensures ByteAt(Block(s, index, v), i) == PaddedWith(s, v)[i] as big
  {
    var n := |s|;
    PaddedSize(n);
    var j := i - Rounded(n);
    if j >= 0 {
      LengthByte(v, j);
      assert PaddedWith(s, v)[i] == Rfc.LengthBytes(v)[j];
    } else if i > n {
      assert PaddedWith(s, v)[i] == Rfc.Zeros(n)[i - n - 1];
    }
  }

  lemma LengthByte(v: big, j: nat)
    requires j < 8
    ensures ShiftedByte(v, j) == Rfc.LengthBytes(v)[j] as big
  {
    if
    case j == 0 => case j == 1 => case j == 2 => case j == 3 =>
    case j == 4 => case j == 5 => case j == 6 => case j == 7 =>
  }

  /** block::X() builds the little-endian word. */
  lemma LowOfBytes(b0: byte, b1: byte, b2: byte, b3: byte)
    ensures Low(Joined(b3 as big, b2 as big, b1 as big, b0 as big)) == Rfc.Word(b0, b1, b2, b3)
  {
  }

  /** A block object stands for 64 bytes of the padded data. */
  lemma WordsOfPadded(s: seq<byte>, index: nat, v: big)
    requires 64 * index + 64 <= |PaddedWith(s, v)|
    ensures LowWords(Block(s, index, v)) == Rfc.Words(PaddedWith(s, v)[64 * index..64 * index + 64])
  {
    hide Low, Joined, Rfc.Word, ByteAt, PaddedWith;
    var p, m := PaddedWith(s, v), Block(s, index, v);
    var t := p[64 * index..64 * index + 64];
    forall k | 0 <= k < 16 ensures LowWords(m)[k] == Rfc.Words(t)[k] {
      var i := 64 * index + 4 * k;
      ByteOfPadded(s, index, v, i);
      ByteOfPadded(s, index, v, i + 1);
      ByteOfPadded(s, index, v, i + 2);
      ByteOfPadded(s, index, v, i + 3);
      LowOfBytes(p[i], p[i + 1], p[i + 2], p[i + 3]);
    }
  }

  // ----- one-shot digests

  /** block::end() */
  function End(bytes: big): big {
    bytes * 8
  }

  lemma EndIsBits(bytes: nat)
    ensures End(Rfc.Size(bytes)) == Rfc.Bits(bytes)
  {
  }

  const INITIAL := State(0x67452301, 0xefcdab89, 0x98badcfe, 0x10325476)

  lemma LowInitial()
    ensures Lows(INITIAL) == Rfc.INITIAL && Clean(INITIAL)
  {
  }

  lemma {:induction false} DigestedAppend(q: Rfc.Quad, s: seq<byte>, t: seq<byte>)
    requires |s| % 64 == 0 && |t| == 64
    ensures Rfc.Digested(q, s + t) == Rfc.Compress(Rfc.Digested(q, s), Rfc.Words(t))
    decreases |s|
  {
    hide Rfc.Compress, Rfc.Words;
    if s == [] {
      assert s + t == t && t[..64] == t && t[64..] == [];
    } else {
      assert (s + t)[..64] == s[..64] && (s + t)[64..] == s[64..] + t;
      DigestedAppend(Rfc.Compress(q, Rfc.Words(s[..64])), s[64..], t);
    }
  }

  /** format::encode() */
  method Format(q: State) returns (s: seq<byte>)
    requires Clean(q)
    ensures s == Rfc.Output(Lows(q))
  {
    s := HashState.Encode([q.a, q.b, q.c, q.d]);
    FormatIsOutput(q);
  }

  lemma FormatIsOutput(q: State)
    ensures HashState.Encoded([q.a, q.b, q.c, q.d]) == Rfc.Output(Lows(q))
  {
    hide Rfc.Bytes, HashState.Four, Low;
    FourIsBytes(q.a);
    FourIsBytes(q.b);
    FourIsBytes(q.c);
    FourIsBytes(q.d);
    var values := [q.a, q.b, q.c, q.d];
    assert values[1..] == [q.b, q.c, q.d] && values[1..][1..] == [q.c, q.d] && values[1..][1..][1..] == [q.d];
    assert values[1..][1..][1..][1..] == [];
    calc {
      HashState.Encoded(values);
      HashState.Four(q.a) + HashState.Encoded(values[1..]);
      HashState.Four(q.a) + (HashState.Four(q.b) + HashState.Encoded(values[1..][1..]));
      HashState.Four(q.a) + (HashState.Four(q.b) + (HashState.Four(q.c) + (HashState.Four(q.d) + [])));
    }
  }

  lemma FourIsBytes(x: big)
    ensures HashState.Four(x) == Rfc.Bytes(Low(x))
  {
  }

  /** The standard's state after some blocks of the padded message. */
  ghost function After(message: seq<byte>, i: nat): Rfc.Quad
    requires 64 * i <= |Padded(message)|
  {
    Rfc.Digested(Rfc.INITIAL, Padded(message)[..64 * i])
  }

  lemma AfterOne(message: seq<byte>, i: nat)
    requires 64 * i + 64 <= |Padded(message)|
    ensures After(message, i + 1)
      == Rfc.Compress(After(message, i), LowWords(Block(message, i, Rfc.Bits(|message|))))
  {
    hide Rfc.Digested, Rfc.Words, Rfc.Compress, LowWords, PaddedWith;
    var p := Padded(message);
    WordsOfPadded(message, i, Rfc.Bits(|message|));
    DigestedAppend(Rfc.INITIAL, p[..64 * i], p[64 * i..64 * i + 64]);
    assert p[..64 * i] + p[64 * i..64 * i + 64] == p[..64 * (i + 1)];
  }

  lemma AfterAll(message: seq<byte>)
    ensures |Padded(message)| == 64 * Blocks(|message|)
    ensures After(message, 0) == Rfc.INITIAL
    ensures Rfc.Output(After(message, Blocks(|message|))) == Rfc.Md5(message)
  {
    hide Blocks, Padded;
    PaddedSize(|message|);
    SizeOfPadded(message);
    var p := Padded(message);
    assert p[..0] == [] && p[..|p|] == p;
  }

  lemma SizeOfPadded(message: seq<byte>)
    ensures |Padded(message)| == Rounded(|message|) + 8
  {
    PaddedSize(|message|);
  }

  /** Md5::digest() of one string. */
  method DigestOf(message: seq<byte>) returns (s: seq<byte>)
    ensures s == Rfc.Md5(message)
  {
    hide After, LowWords, Lows, Clean, Blocks, Rfc.Output, Rfc.Md5, Rfc.Compress, Padded, Rfc.Bits;
    LowInitial();
    AfterAll(message);
    EndIsBits(|message|);
    var dd := new Digest(INITIAL);
    var count := Blocks(|message|);
    var i := 0;
    while i < count
      invariant i <= count && Lows(dd.Value()) == After(message, i)
    {
      AfterOne(message, i);
      dd.Add(Block(message, i, End(Rfc.Size(|message|))));
      i := i + 1;
    }
    var q := dd.Masked();
    s := Format(q);
  }

  // ----- streaming

  /** What an Md5 object stands for: the state so far, the 64-bit number of bytes so far, and the
      residue that does not fill a block. */
  datatype Stream = Stream(q: Rfc.Quad, n: big, s: seq<byte>)

  const EMPTY := Stream(Rfc.INITIAL, 0, [])

  /** consume(): complete blocks are used up. */
  function Consumed(q: Rfc.Quad, s: seq<byte>): (r: (Rfc.Quad, seq<byte>))
    ensures |r.1| < 64
    decreases |s|
  {
    if |s| < 64 then (q, s) else Consumed(Rfc.Compress(q, Rfc.Words(s[..64])), s[64..])
  }

  function Added(x: Stream, data: seq<byte>): (r: Stream)
    ensures |r.s| < 64
  {
    var (q, s) := Consumed(x.q, x.s + data);
    Stream(q, Plus(x.n, Rfc.Size(|data|)), s)
  }

  /** The one block that value() makes out of the residue. */
  function FinalBlock(x: Stream): (t: seq<byte>)
    ensures |t| == 64
  {
    PaddedWith(x.s, End(x.n))[..64]
  }

  function ValueOf(x: Stream): (s: seq<byte>)
    ensures |s| == 16
  {
    Rfc.Output(Rfc.Compress(x.q, Rfc.Words(FinalBlock(x))))
  }

  lemma {:induction false} ConsumedTwice(q: Rfc.Quad, s: seq<byte>, t: seq<byte>)
    ensures var (q', s') := Consumed(q, s); Consumed(q', s' + t) == Consumed(q, s + t)
    decreases |s|
  {
    hide Rfc.Compress, Rfc.Words;
    if |s| >= 64 {
      assert (s + t)[..64] == s[..64] && (s + t)[64..] == s[64..] + t;
      ConsumedTwice(Rfc.Compress(q, Rfc.Words(s[..64])), s[64..], t);
    }
  }

  /** Where the data is cut makes no difference. */
  lemma AddedTwice(x: Stream, a: seq<byte>, b: seq<byte>)
    ensures Added(Added(x, a), b) == Added(x, a + b)
  {
    hide Consumed;
    ConsumedTwice(x.q, x.s + a, b);
    assert x.s + a + b == x.s + (a + b);
    SizeSum(|a|, |b|);
    PlusAssociative(x.n, Rfc.Size(|a|), Rfc.Size(|b|));
  }

  lemma PlusAssociative(x: big, y: big, z: big)
    ensures Plus(Plus(x, y), z) == Plus(x, Plus(y, z))
  {
    assert Plus(x + y, z) == Plus(x, y + z);
  }

  lemma {:induction false} SizeSum(a: nat, b: nat)
    ensures Rfc.Size(a + b) == Plus(Rfc.Size(a), Rfc.Size(b))
  {
    if b == 0 {
      PlusZero(Rfc.Size(a));
    } else {
      SizeSum(a, b - 1);
      SizeStep(a + b);
      SizeStep(b);
      PlusAssociative(Rfc.Size(a), Rfc.Size(b - 1), 1);
    }
  }

  lemma SizeStep(k: nat)
    requires k > 0
    ensures Rfc.Size(k) == Plus(Rfc.Size(k - 1), 1)
  {
  }

  lemma PlusZero(x: big)
    ensures Plus(x, 0) == x && Plus(0, x) == x
  {
  }

  function AddedAll(x: Stream, pieces: seq<seq<byte>>): Stream
    decreases pieces
  {
    if pieces == [] then x else AddedAll(Added(x, pieces[0]), pieces[1..])
  }

  function Joint(pieces: seq<seq<byte>>): seq<byte> {
    if pieces == [] then [] else pieces[0] + Joint(pieces[1..])
  }

  lemma {:induction false} CutsDoNotMatter(x: Stream, pieces: seq<seq<byte>>)
    requires |x.s| < 64
    ensures AddedAll(x, pieces) == Added(x, Joint(pieces))
    decreases pieces
  {
    hide Added;
    if pieces == [] {
      AddedNothing(x);
    } else {
      CutsDoNotMatter(Added(x, pieces[0]), pieces[1..]);
      AddedTwice(x, pieces[0], Joint(pieces[1..]));
    }
  }

  lemma AddedNothing(x: Stream)
    requires |x.s| < 64
    ensures Added(x, []) == x
  {
    assert x.s + [] == x.s;
    PlusZero(x.n);
  }

  /** The bytes of the whole blocks of a message. */
  function Whole(n: nat): (k: nat)
    ensures k <= n < k + 64 && k % 64 == 0
  {
    n / 64 * 64
  }

  /** The blocks consumed are the whole ones of the message, and the residue is what follows them. */
  lemma {:induction false} ConsumedIsDigested(q: Rfc.Quad, s: seq<byte>)
    ensures var k := Whole(|s|); Consumed(q, s) == (Rfc.Digested(q, s[..k]), s[k..])
    decreases |s|
  {
    hide Rfc.Compress, Rfc.Words;
    var k := Whole(|s|);
    if |s| < 64 {
      assert s[..k] == [] && s[k..] == s;
    } else {
      ConsumedIsDigested(Rfc.Compress(q, Rfc.Words(s[..64])), s[64..]);
      var k' := Whole(|s[64..]|);
      assert k' == k - 64;
      assert s[..k][..64] == s[..64] && s[..k][64..] == s[64..][..k'] && s[k..] == s[64..][k'..];
    }
  }

  lemma {:induction false} ResidueSize(message: seq<byte>)
    ensures var k := Whole(|message|);
      && Rfc.Zeros(|message|) == Rfc.Zeros(|message| - k)
      && |Padded(message)| == k + (if |message| - k <= 55 then 64 else 128)
  {
    SizeOfPadded(message);
  }

  /** The padding of the residue is the padding of the whole message. */
  lemma ResiduePadding(message: seq<byte>)
    ensures var k := Whole(|message|); var p := Padded(message);
      && k + 64 <= |p| && p[..k] == message[..k]
      && p[k..] == PaddedWith(message[k..], Rfc.Bits(|message|))
  {
    hide Rfc.LengthBytes, Rfc.Zeros, Rfc.Bits, Whole;
    var k := Whole(|message|);
    ResidueSize(message);
    assert message == message[..k] + message[k..];
  }

  /** The padded message up to and including the first block that is not whole. */
  function FirstBlocks(message: seq<byte>): (s: seq<byte>)
    ensures |s| % 64 == 0
  {
    ResidueSize(message);
    Padded(message)[..Whole(|message|) + 64]
  }

  /** For every message value() gives the standard's state after those blocks. */
  lemma ValueIsState(message: seq<byte>)
    ensures ValueOf(Added(EMPTY, message)) == Rfc.Output(Rfc.Digested(Rfc.INITIAL, FirstBlocks(message)))
  {
    hide Rfc.Digested, Rfc.Words, Rfc.Compress, Consumed, PaddedWith, Rfc.Output, Rfc.Bits, Padded, Whole, End;
    var k := Whole(|message|);
    var p := Padded(message);
    ConsumedIsDigested(Rfc.INITIAL, message);
    assert EMPTY.s + message == message;
    PlusZero(Rfc.Size(|message|));
    EndIsBits(|message|);
    ResiduePadding(message);
    assert p[..k + 64] == p[..k] + p[k..][..64];
    DigestedAppend(Rfc.INITIAL, p[..k], p[k..][..64]);
  }

  /** A residue of up to 55 bytes leaves room for the length, and then value() is MD5. */
  lemma ValueIsMd5(message: seq<byte>)
    requires |message| % 64 <= 55
    ensures ValueOf(Added(EMPTY, message)) == Rfc.Md5(message)
  {
    hide Rfc.Digested, ValueOf, Added, Padded;
    ValueIsState(message);
    ResidueSize(message);
    assert FirstBlocks(message) == Padded(message);
  }

  /** With a longer residue the block that holds the length is left out. */
  lemma ValueIsNotFinished(message: seq<byte>)
    requires |message| % 64 >= 56
    ensures var q := Rfc.Digested(Rfc.INITIAL, FirstBlocks(message)); var p := Padded(message);
      && |p| >= 64
      && ValueOf(Added(EMPTY, message)) == Rfc.Output(q)
      && Rfc.Md5(message) == Rfc.Output(Rfc.Compress(q, Rfc.Words(p[|p| - 64..])))
  {
    hide Rfc.Digested, ValueOf, Added, Padded, Rfc.Compress, Rfc.Words, Rfc.Output;
    var p := Padded(message);
    ValueIsState(message);
    ResidueSize(message);
    DigestedAppend(Rfc.INITIAL, FirstBlocks(message), p[|p| - 64..]);
    assert p == FirstBlocks(message) + p[|p| - 64..];
  }

  /** So streaming gives MD5 if and only if the length has room, or the block left out leads back to the same
      state; see AtMostOneDigest for how seldom that is, and Md5Example for a message where it does not. */
  lemma ValueIsMd5Iff(message: seq<byte>)
    ensures var q := Rfc.Digested(Rfc.INITIAL, FirstBlocks(message)); var p := Padded(message);
      && |p| >= 64
      && (ValueOf(Added(EMPTY, message)) == Rfc.Md5(message) <==>
            |message| % 64 <= 55 || Rfc.Compress(q, Rfc.Words(p[|p| - 64..])) == q)
  {
    hide Rfc.Digested, ValueOf, Added, Padded, Rfc.Compress, Rfc.Words, Rfc.Output, Rfc.Md5;
    var q, p := Rfc.Digested(Rfc.INITIAL, FirstBlocks(message)), Padded(message);
    ResidueSize(message);
    if |message| % 64 <= 55 {
      ValueIsMd5(message);
    } else {
      ValueIsNotFinished(message);
      OutputIsInjective(q, Rfc.Compress(q, Rfc.Words(p[|p| - 64..])));
    }
  }

  /** With a longer residue the block left out depends on the length alone. */
  lemma SameLastBlock(m: seq<byte>, n: seq<byte>)
    requires |m| == |n| && |m| % 64 >= 56
    ensures var p, r := Padded(m), Padded(n); |p| == |r| >= 64 && p[|p| - 64..] == r[|r| - 64..]
  {
    hide Rfc.Padding;
    ResidueSize(m);
    var padding := Rfc.Padding(|m|);
    assert Padded(m) == m + padding && Padded(n) == n + padding && |padding| >= 64;
    assert Padded(m)[|m + padding| - 64..] == padding[|padding| - 64..];
    assert Padded(n)[|n + padding| - 64..] == padding[|padding| - 64..];
  }

  /** For each length that leaves a residue of over 55 bytes streaming gives the right digest to messages of one
      digest at most: all others of that length get a wrong one. */
  lemma AtMostOneDigest(m: seq<byte>, n: seq<byte>)
    requires |m| == |n| && |m| % 64 >= 56
    requires ValueOf(Added(EMPTY, m)) == Rfc.Md5(m) && ValueOf(Added(EMPTY, n)) == Rfc.Md5(n)
    ensures Rfc.Digested(Rfc.INITIAL, FirstBlocks(m)) == Rfc.Digested(Rfc.INITIAL, FirstBlocks(n))
    ensures Rfc.Md5(m) == Rfc.Md5(n)
  {
    hide Rfc.Digested, ValueOf, Added, Padded, Rfc.Compress, Rfc.Words, Rfc.Output, Rfc.Md5;
    SameLastBlock(m, n);
    ValueIsMd5Iff(m);
    ValueIsMd5Iff(n);
    var p := Padded(m);
    Rfc.AtMostOneFixedState(
      Rfc.Digested(Rfc.INITIAL, FirstBlocks(m)), Rfc.Digested(Rfc.INITIAL, FirstBlocks(n)), Rfc.Words(p[|p| - 64..]));
    ValueIsState(m);
    ValueIsState(n);
  }

  lemma OutputParts(q: Rfc.Quad)
    ensures var s := Rfc.Output(q);
      && s[..4] == Rfc.Bytes(q.a) && s[4..8] == Rfc.Bytes(q.b) && s[8..12] == Rfc.Bytes(q.c) && s[12..] == Rfc.Bytes(q.d)
  {
  }

  lemma BytesAreInjective(x: Rfc.word, y: Rfc.word)
    ensures Rfc.Bytes(x) == Rfc.Bytes(y) ==> x == y
  {
    hide Rfc.Word;
    WordOfBytes(x);
    WordOfBytes(y);
  }

  lemma OutputIsInjective(q: Rfc.Quad, r: Rfc.Quad)
    ensures Rfc.Output(q) == Rfc.Output(r) ==> q == r
  {
    hide Rfc.Output, Rfc.Bytes;
    OutputParts(q);
    OutputParts(r);
    BytesAreInjective(q.a, r.a);
    BytesAreInjective(q.b, r.b);
    BytesAreInjective(q.c, r.c);
    BytesAreInjective(q.d, r.d);
  }

  // ----- saved states

  /** What state() returns. */
  function StateString(x: Stream): (s: seq<byte>)
    ensures |s| == 20
  {
    Rfc.Output(x.q) + HashState.Four(x.n)
  }

  /** What the constructor from a string makes of it. */
  function Resumed(str: seq<byte>): (x: Stream)
    requires |str| == 20
  {
    Stream(
      Rfc.Quad(
        Rfc.Word(str[0], str[1], str[2], str[3]), Rfc.Word(str[4], str[5], str[6], str[7]),
        Rfc.Word(str[8], str[9], str[10], str[11]), Rfc.Word(str[12], str[13], str[14], str[15])),
      HashState.ValueAt(str, 4), [])
  }

  lemma WordOfBytes(x: Rfc.word)
    ensures var b := Rfc.Bytes(x); Rfc.Word(b[0], b[1], b[2], b[3]) == x
  {
  }

  /** Nothing is lost if and only if there is no residue and the counter is below 2^32. */
  lemma ResumedState(x: Stream)
    ensures Resumed(StateString(x)) == x <==> x.s == [] && x.n <= 0xFFFF_FFFF
  {
    hide Rfc.Word, HashState.Value, HashState.Four, Rfc.Bytes;
    var s := StateString(x);
    WordOfBytes(x.q.a);
    WordOfBytes(x.q.b);
    WordOfBytes(x.q.c);
    WordOfBytes(x.q.d);
    HashState.ValueOfFour(x.n);
    LowHalfSame(x.n);
    OutputAt(x.q);
    assert s[..16] == Rfc.Output(x.q);
    assert s[16..] == HashState.Four(x.n);
    assert HashState.ValueAt(s, 4) == HashState.ValueAt(s[16..], 0);
    assert Resumed(s).q == x.q by {
      assert forall k :: 0 <= k < 16 ==> s[k] == Rfc.Output(x.q)[k];
    }
  }

  /** Saving the state after whole blocks, with a counter below 2^32, and going on from the string gives
      the value of all the data; the standard's when the residue leaves room for the length. */
  lemma ResumedValue(a: seq<byte>, b: seq<byte>)
    requires |a| % 64 == 0 && Rfc.Size(|a|) <= 0xFFFF_FFFF
    ensures var x := Added(Resumed(StateString(Added(EMPTY, a))), b);
      ValueOf(x) == ValueOf(Added(EMPTY, a + b)) && (|a + b| % 64 <= 55 ==> ValueOf(x) == Rfc.Md5(a + b))
  {
    hide Resumed, StateString, ValueOf, Rfc.Md5, Consumed, Rfc.Digested;
    ConsumedIsDigested(Rfc.INITIAL, a);
    assert Whole(|a|) == |a| && EMPTY.s + a == a;
    PlusZero(Rfc.Size(|a|));
    ResumedState(Added(EMPTY, a));
    AddedTwice(EMPTY, a, b);
    if |a + b| % 64 <= 55 {
      ValueIsMd5(a + b);
    }
  }

  lemma OutputAt(q: Rfc.Quad)
    ensures var s := Rfc.Output(q); forall k :: 0 <= k < 4 ==>
      && s[k] == Rfc.Bytes(q.a)[k] && s[4 + k] == Rfc.Bytes(q.b)[k]
      && s[8 + k] == Rfc.Bytes(q.c)[k] && s[12 + k] == Rfc.Bytes(q.d)[k]
  {
  }

  lemma LowHalfSame(n: big)
    ensures HashState.LowHalf(n) == n <==> n <= 0xFFFF_FFFF
  {
  }

  // ----- the class

  /** A block of unpadded data. */
  lemma WordsOfData(s: seq<byte>)
    requires |s| >= 64
    ensures LowWords(Block(s, 0, 0)) == Rfc.Words(s[..64])
  {
    hide LowWords, Rfc.Words;
    WordsOfPadded(s, 0, 0);
    assert PaddedWith(s, 0)[..64] == s[..64];
  }

  class Md5 {
    var n: big
    var d: State
    var s: seq<byte>

    ghost predicate Valid()
      reads this
    {
      Clean(d) && |s| < 64
    }

    ghost function Contents(): Stream
      reads this
    {
      Stream(Lows(d), n, s)
    }

    constructor ()
      ensures Valid() && Contents() == EMPTY
    {
      LowInitial();
      n, d, s := 0, INITIAL, [];
    }

    /** From a state() string. */
    constructor FromState(str: seq<byte>)
      requires |str| == 20
      ensures Valid() && Contents() == Resumed(str)
    {
      var values, size := HashState.Decode(str, 4);
      DecodedWords(str);
      n, s := size, [];
      d := State(values[0], values[1], values[2], values[3]);
    }

    method StateOf() returns (str: seq<byte>)
      requires Valid()
      ensures str == StateString(Contents())
    {
      hide HashState.Four, Rfc.Output;
      str := HashState.EncodeWithSize([d.a, d.b, d.c, d.d], n);
      FormatIsOutput(d);
      var values := [d.a, d.b, d.c, d.d];
      HashState.EncodedAppend(values, n);
    }

    method Add(data: seq<byte>)
      requires Valid()
      modifies this
      ensures Valid() && Contents() == Added(old(Contents()), data)
    {
      hide Rfc.Size, Consumed, Plus;
      s := s + data;
      n := Plus(n, Rfc.Size(|data|));
      Consume();
    }

    method Consume()
      requires Clean(d)
      modifies this`s, this`d
      ensures Valid() && (Lows(d), s) == Consumed(old(Lows(d)), old(s))
    {
      hide Lows, Rfc.Compress, Rfc.Words, LowWords, Clean;
      var dd := new Digest(d);
      while |s| >= 64
        invariant fresh(dd)
        invariant Consumed(Lows(dd.Value()), s) == Consumed(old(Lows(d)), old(s))
        decreases |s|
      {
        WordsOfData(s);
        dd.Add(Block(s, 0, 0));
        s := s[64..];
      }
      d := dd.Masked();
    }

    /** No more data may be added after this. */
    method Value() returns (out: seq<byte>)
      requires Valid()
      modifies this
      ensures out == ValueOf(old(Contents()))
    {
      hide Lows, Rfc.Compress, Rfc.Words, LowWords, Clean, PaddedWith, Rfc.Output;
      var dd := new Digest(d);
      WordsOfPadded(s, 0, End(n));
      dd.Add(Block(s, 0, End(n)));
      s := [];
      d := dd.Masked();
      out := Format(d);
    }
  }

  lemma DecodedWords(str: seq<byte>)
    requires |str| == 20
    ensures var v := HashState.Decoded(str, 4); var x := Resumed(str); var d := State(v[0], v[1], v[2], v[3]);
      Clean(d) && Lows(d) == x.q
  {
    hide CleanWord, Low, HashState.Value, Rfc.Word;
    DecodedWord(str[0], str[1], str[2], str[3]);
    DecodedWord(str[4], str[5], str[6], str[7]);
    DecodedWord(str[8], str[9], str[10], str[11]);
    DecodedWord(str[12], str[13], str[14], str[15]);
  }

  lemma DecodedWord(a: byte, b: byte, c: byte, d: byte)
    ensures CleanWord(HashState.Value(a, b, c, d)) && Low(HashState.Value(a, b, c, d)) == Rfc.Word(a, b, c, d)
  {
  }

  // ----- the convenience functions

  /** What digest() of two strings returns, which digest2() is another name for. */
  function Digest2(a: seq<byte>, b: seq<byte>): (r: seq<byte>)
    ensures |r| == 16
  {
    ValueOf(Added(Added(EMPTY, a), b))
  }

  method DigestOfTwo(a: seq<byte>, b: seq<byte>) returns (out: seq<byte>)
    ensures out == Digest2(a, b)
  {
    hide ValueOf, Added;
    var x := new Md5();
    x.Add(a);
    x.Add(b);
    out := x.Value();
  }

  /** What predigest() returns: the state without the size. */
  function Predigest(input: seq<byte>): (r: seq<byte>)
    ensures |r| == 16
  {
    StateString(Added(EMPTY, input))[..16]
  }

  method PredigestOf(input: seq<byte>) returns (out: seq<byte>)
    ensures out == Predigest(input)
  {
    hide Added, StateString;
    var x := new Md5();
    x.Add(input);
    var str := x.StateOf();
    out := str[..16];
  }

  const SIXTY_FOUR: seq<byte> := [0x40, 0, 0, 0]

  /** What postdigest() returns; none stands for the InvalidState exception. */
  function Postdigest(pair: seq<byte>, message: seq<byte>): (r: Option<seq<byte>>)
    ensures r == None <==> |pair| != 32
  {
    if |pair| != 32 then None
    else
      var inner := ValueOf(Added(Resumed(pair[..16] + SIXTY_FOUR), message));
      Some(ValueOf(Added(Resumed(pair[16..] + SIXTY_FOUR), inner)))
  }

  method PostdigestOf(pair: seq<byte>, message: seq<byte>) returns (out: Option<seq<byte>>)
    ensures out == Postdigest(pair, message)
  {
    hide ValueOf, Added, Resumed;
    if |pair| != 32 {
      return None;
    }
    var xi := new Md5.FromState(pair[..16] + SIXTY_FOUR);
    xi.Add(message);
    var xo := new Md5.FromState(pair[16..] + SIXTY_FOUR);
    var inner := xi.Value();
    xo.Add(inner);
    var value := xo.Value();
    out := Some(value);
  }

  /** One whole block leaves no residue, so that its digest state can be saved and resumed. */
  lemma PredigestResumed(input: seq<byte>)
    requires |input| == 64
    ensures Resumed(Predigest(input) + SIXTY_FOUR) == Added(EMPTY, input)
  {
    hide Rfc.Output, HashState.Four, Resumed, StateString;
    var x := Added(EMPTY, input);
    SizeOf64();
    OneBlock(input);
    ResumedState(x);
    FourOf64();
    assert Predigest(input) + SIXTY_FOUR == StateString(x) by { StateParts(x); }
  }

  /** It is the state of the standard after that block, in the form of a digest. */
  lemma PredigestIsState(input: seq<byte>)
    requires |input| == 64
    ensures Predigest(input) == Rfc.Output(Rfc.Compress(Rfc.INITIAL, Rfc.Words(input)))
  {
    hide Rfc.Output, Rfc.Compress, Rfc.Words, HashState.Four;
    var q := Rfc.Compress(Rfc.INITIAL, Rfc.Words(input));
    assert EMPTY.s + input == input && input[64..] == [] && input[..64] == input;
    assert Consumed(Rfc.INITIAL, input) == Consumed(q, []) == (q, []);
    var x := Added(EMPTY, input);
    assert StateString(x)[..16] == Rfc.Output(x.q);
  }

  lemma StateParts(x: Stream)
    ensures StateString(x) == StateString(x)[..16] + HashState.Four(x.n)
  {
  }

  lemma OneBlock(input: seq<byte>)
    requires |input| == 64
    ensures Added(EMPTY, input).s == [] && Added(EMPTY, input).n == Rfc.Size(64)
  {
    hide Rfc.Size;
    assert EMPTY.s + input == input && input[64..] == [] && input[..64] == input;
    var q := Rfc.Compress(Rfc.INITIAL, Rfc.Words(input));
    assert Consumed(Rfc.INITIAL, input) == Consumed(q, []);
    PlusZero(Rfc.Size(64));
  }

  lemma FourOf64()
    ensures HashState.Four(64) == SIXTY_FOUR
  {
  }

  lemma SizeOf64()
    ensures Rfc.Size(64) == 64
  {
    SizeStep(1);
    assert Rfc.Size(1) == 1;
    SizeSum(1, 1);
    SizeSum(2, 2);
    SizeSum(4, 4);
    SizeSum(8, 8);
    SizeSum(16, 16);
    SizeSum(32, 32);
  }
}
