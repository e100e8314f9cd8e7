/** A message for which the streaming digest (src/glib/gmd5.cpp) is not MD5: 56 zero bytes.

    The two blocks of the padded message are carried through the compression of RFC 1321 with their numbers, four
    operations to a lemma.  The registers after the second block show that the block that value() leaves out
    does change the state. */
module Md5Example {
  import opened Rfc1321
  import Streaming = Md5

  /** Blocks that are zero but for the fifteenth word: the end mark in the first, the length in the second. */
  function Sparse(v: word): (x: seq<word>)
    ensures |x| == 16
  {
    seq(16, k => if k == 14 then v else 0)
  }

  function WordOf(v: word, j: nat): word {
    if WordIndex(j) == 14 then v else 0
  }

  /** The registers in the order in which operation j uses them. */
  function Turned(q: Quad, j: nat): (word, word, word, word) {
    match j % 4
    case 0 => (q.a, q.b, q.c, q.d)
    case 1 => (q.d, q.a, q.b, q.c)
    case 2 => (q.c, q.d, q.a, q.b)
    case _ => (q.b, q.c, q.d, q.a)
  }

  function After(q: Quad, v: word, j: nat): (word, word, word, word)
    requires j <= 64
  {
    Turned(Steps(q, Sparse(v), j), j)
  }

  // ----- one operation

  lemma Start(q: Quad, v: word)
    ensures After(q, v, 0) == (q.a, q.b, q.c, q.d)
  {
  }

  /** One operation, with the values of the auxiliary function, the sums and the rotation. */
  lemma Operation(q: Quad, v: word, j: nat, a: word, b: word, c: word, d: word,
                  f: word, s: word, x: word, t: word, u: word, r: word)
    requires j < 64 && After(q, v, j) == (a, b, c, d)
    requires Aux(j / 16, b, c, d) == f && Add(a, f) == s && Add(s, WordOf(v, j)) == x && Add(x, Sine(j)) == t
    requires Rotate(t, Shift(j)) == u && Add(b, u) == r
    ensures After(q, v, j + 1) == (d, r, b, c)
  {
    hide Aux, Add, Sine, Rotate, Shift, WordOf, After;
    assert Mixed(a, b, c, d, WordOf(v, j), j) == r;
    hide Mixed;
    OneStep(q, v, j);
  }

  lemma OneStep(q: Quad, v: word, j: nat)
    requires j < 64
    ensures var (a, b, c, d) := After(q, v, j); After(q, v, j + 1) == (d, Mixed(a, b, c, d, WordOf(v, j), j), b, c)
  {
    hide Mixed, IsShift, WordIndex;
    var p := Steps(q, Sparse(v), j);
    assert Sparse(v)[WordIndex(j)] == WordOf(v, j);
    hide Sparse, WordOf;
    StepIsTurned(p, Sparse(v), j);
    assert Steps(q, Sparse(v), j + 1) == Step(p, Sparse(v), j);
  }

  lemma StepIsTurned(p: Quad, x: seq<word>, j: nat)
    requires |x| == 16 && j < 64
    ensures var (a, b, c, d) := Turned(p, j); Turned(Step(p, x, j), j + 1) == (d, Mixed(a, b, c, d, x[WordIndex(j)], j), b, c)
  {
    hide Mixed, WordIndex, IsShift;
    Quarter(j);
    var k, n := j % 4, (j + 1) % 4;
    match k
    case 0 => assert n == 1;
    case 1 => assert n == 2;
    case 2 => assert n == 3;
    case _ => assert n == 0;
  }

  lemma Quarter(j: nat)
    ensures (j + 1) % 4 == if j % 4 == 3 then 0 else j % 4 + 1
  {
  }

  // ----- the first block

  lemma First4()
    ensures After(INITIAL, 0x80, 4) == (0xa51fe774, 0xcee87580, 0x93f2ab50, 0x219552de)
  {
    hide After;
    var q := INITIAL;
    Start(INITIAL, 0x80);
    Operation(q, 0x80, 0, 0x67452301, 0xefcdab89, 0x98badcfe, 0x10325476,
      0x98badcfe, 0xffffffff, 0xffffffff, 0xd76aa477, 0xb5523beb, 0xa51fe774);
    Operation(q, 0x80, 1, 0x10325476, 0xa51fe774, 0xefcdab89, 0x98badcfe,
      0xbdadbb8a, 0xcde01000, 0xcde01000, 0xb6a7c756, 0x7c756b6a, 0x219552de);
    Operation(q, 0x80, 2, 0x98badcfe, 0x219552de, 0xa51fe774, 0xefcdab89,
      0xef5deb55, 0x8818c853, 0x8818c853, 0xac39392e, 0x725d5872, 0x93f2ab50);
    Operation(q, 0x80, 3, 0xefcdab89, 0x93f2ab50, 0x219552de, 0xa51fe774,
      0x259d4674, 0x156af1fd, 0x156af1fd, 0xd728c0eb, 0x3af5ca30, 0xcee87580);
  }

  lemma First8()
    ensures After(INITIAL, 0x80, 8) == (0x1775b61f, 0x01135483, 0x58dc4a44, 0x0cda451e)
  {
    hide After;
    var q := INITIAL;
    First4();
    Operation(q, 0x80, 4, 0xa51fe774, 0xcee87580, 0x93f2ab50, 0x219552de,
      0xa3f5235e, 0x49150ad2, 0x49150ad2, 0x3e911a81, 0x488d409f, 0x1775b61f);
    Operation(q, 0x80, 5, 0x219552de, 0x1775b61f, 0xcee87580, 0x93f2ab50,
      0x86e23d40, 0xa877901e, 0xa877901e, 0xefff5648, 0xf5648eff, 0x0cda451e);
    Operation(q, 0x80, 6, 0x93f2ab50, 0x0cda451e, 0x1775b61f, 0xcee87580,
      0xc670349e, 0x5a62dfee, 0x5a62dfee, 0x02932601, 0x4c020526, 0x58dc4a44);
    Operation(q, 0x80, 7, 0xcee87580, 0x58dc4a44, 0x0cda451e, 0x1775b61f,
      0x0ff9f41f, 0xdee2699f, 0xdee2699f, 0xdc28fea0, 0xa8370a3f, 0x01135483);
  }

  lemma First12()
    ensures After(INITIAL, 0x80, 12) == (0xe85b5e49, 0x787aaa00, 0x55d9bb42, 0x516888d4)
  {
    hide After;
    var q := INITIAL;
    First8();
    Operation(q, 0x80, 8, 0x1775b61f, 0x01135483, 0x58dc4a44, 0x0cda451e,
      0x0cd8411c, 0x244df73b, 0x244df73b, 0x8dce9013, 0xe74809c6, 0xe85b5e49);
    Operation(q, 0x80, 9, 0x0cda451e, 0xe85b5e49, 0x01135483, 0x58dc4a44,
      0x10975405, 0x1d719923, 0x1d719923, 0xa8b690d2, 0x690d2a8b, 0x516888d4);
    Operation(q, 0x80, 10, 0x58dc4a44, 0x516888d4, 0xe85b5e49, 0x01135483,
      0x405b5c43, 0x9937a687, 0x9937a687, 0x99370238, 0x0471326e, 0x55d9bb42);
    Operation(q, 0x80, 11, 0x01135483, 0x55d9bb42, 0x516888d4, 0xe85b5e49,
      0xf94acc49, 0xfa5e20cc, 0xfa5e20cc, 0x83baf88a, 0x22a0eebe, 0x787aaa00);
  }

  lemma First16()
    ensures After(INITIAL, 0x80, 16) == (0x1a87c9d2, 0xa6681c27, 0xa992aeaa, 0xd5ce4497)
  {
    hide After;
    var q := INITIAL;
    First12();
    Operation(q, 0x80, 12, 0xe85b5e49, 0x787aaa00, 0x55d9bb42, 0x516888d4,
      0x5158aad4, 0x39b4091d, 0x39b4091d, 0xa5441a3f, 0xa20d1fd2, 0x1a87c9d2);
    Operation(q, 0x80, 13, 0x516888d4, 0x1a87c9d2, 0x787aaa00, 0x55d9bb42,
      0x5d5aba00, 0xaec342d4, 0xaec342d4, 0xac5bb467, 0xbb467ac5, 0xd5ce4497);
    Operation(q, 0x80, 14, 0x55d9bb42, 0xd5ce4497, 0x1a87c9d2, 0x787aaa00,
      0x38b6ea92, 0x8e90a5d4, 0x8e90a654, 0x3509e9e2, 0xd3c46a13, 0xa992aeaa);
    Operation(q, 0x80, 15, 0x787aaa00, 0xa992aeaa, 0xd5ce4497, 0x1a87c9d2,
      0x938745d2, 0x0c01efd2, 0x0c01efd2, 0x55b5f7f3, 0xfcd56d7d, 0xa6681c27);
  }

  lemma First20()
    ensures After(INITIAL, 0x80, 20) == (0x463bc89e, 0xaa8db04a, 0x90c319ea, 0x595c95d7)
  {
    hide After;
    var q := INITIAL;
    First16();
    Operation(q, 0x80, 16, 0x1a87c9d2, 0xa6681c27, 0xa992aeaa, 0xd5ce4497,
      0xac58ae2f, 0xc6e07801, 0xc6e07801, 0xbcfe9d63, 0x9fd3ac77, 0x463bc89e);
    Operation(q, 0x80, 17, 0xd5ce4497, 0x463bc89e, 0xa6681c27, 0xa992aeaa,
      0x067a988f, 0xdc48dd26, 0xdc48dd26, 0x9c899066, 0x1320cd39, 0x595c95d7);
    Operation(q, 0x80, 18, 0xa992aeaa, 0x595c95d7, 0x463bc89e, 0xa6681c27,
      0x405bd49f, 0xe9ee8349, 0xe9ee8349, 0x104cdd9a, 0x37668413, 0x90c319ea);
    Operation(q, 0x80, 19, 0xa6681c27, 0x90c319ea, 0x595c95d7, 0x463bc89e,
      0x19471dcb, 0xbfaf39f2, 0xbfaf39f2, 0xa966019c, 0x19ca9660, 0xaa8db04a);
  }

  lemma First24()
    ensures After(INITIAL, 0x80, 24) == (0x49dbdcfe, 0x647c5ff7, 0xfdec7b57, 0x2aa2060a)
  {
    hide After;
    var q := INITIAL;
    First20();
    Operation(q, 0x80, 20, 0x463bc89e, 0xaa8db04a, 0x90c319ea, 0x595c95d7,
      0x888f986a, 0xcecb6108, 0xcecb6108, 0xa4fa7165, 0x9f4e2cb4, 0x49dbdcfe);
    Operation(q, 0x80, 21, 0x595c95d7, 0x49dbdcfe, 0xaa8db04a, 0x90c319ea,
      0x2acfb8ea, 0x842c4ec1, 0x842c4ec1, 0x86706314, 0xe0c6290c, 0x2aa2060a);
    Operation(q, 0x80, 22, 0x90c319ea, 0x2aa2060a, 0x49dbdcfe, 0xaa8db04a,
      0x6bd24cbe, 0xfc9566a8, 0xfc9566a8, 0xd5374d29, 0xd34a754d, 0xfdec7b57);
    Operation(q, 0x80, 23, 0xaa8db04a, 0xfdec7b57, 0x2aa2060a, 0x49dbdcfe,
      0x6be85a56, 0x16760aa0, 0x16760aa0, 0xfe4a0668, 0x668fe4a0, 0x647c5ff7);
  }

  lemma First28()
    ensures After(INITIAL, 0x80, 28) == (0x89c1a763, 0xdf52dab5, 0xa9fa5e6d, 0xdc2e2e52)
  {
    hide After;
    var q := INITIAL;
    First24();
    Operation(q, 0x80, 24, 0x49dbdcfe, 0x647c5ff7, 0xfdec7b57, 0x2aa2060a,
      0xf56c7f57, 0x3f485c55, 0x3f485c55, 0x612a2a3b, 0x2545476c, 0x89c1a763);
    Operation(q, 0x80, 25, 0x2aa2060a, 0x89c1a763, 0x647c5ff7, 0xfdec7b57,
      0x89d027e3, 0xb4722ded, 0xb4722e6d, 0x77a93643, 0x526c86ef, 0xdc2e2e52);
    Operation(q, 0x80, 26, 0xfdec7b57, 0xdc2e2e52, 0x89c1a763, 0x647c5ff7,
      0xcdadae52, 0xcb9a29a9, 0xcb9a29a9, 0xc06f3730, 0xcdcc301b, 0xa9fa5e6d);
    Operation(q, 0x80, 27, 0x647c5ff7, 0xa9fa5e6d, 0xdc2e2e52, 0x89c1a763,
      0xddee0e71, 0x426a6e68, 0x426a6e68, 0x87c48355, 0x35587c48, 0xdf52dab5);
  }

  lemma First32()
    ensures After(INITIAL, 0x80, 32) == (0x0e502f5b, 0x20fbc9e1, 0xe0d6ece7, 0xeb1275c9)
  {
    hide After;
    var q := INITIAL;
    First28();
    Operation(q, 0x80, 28, 0x89c1a763, 0xdf52dab5, 0xa9fa5e6d, 0xdc2e2e52,
      0xfdd25a3d, 0x879401a0, 0x879401a0, 0x3177eaa5, 0x2efd54a6, 0x0e502f5b);
    Operation(q, 0x80, 29, 0xdc2e2e52, 0x0e502f5b, 0xdf52dab5, 0xa9fa5e6d,
      0x5e508ed9, 0x3a7ebd2b, 0x3a7ebd2b, 0x376e6123, 0xdcc2466e, 0xeb1275c9);
    Operation(q, 0x80, 30, 0xa9fa5e6d, 0xeb1275c9, 0x0e502f5b, 0xdf52dab5,
      0xcb1275cb, 0x750cd438, 0x750cd438, 0xdc7bd711, 0xf5c4771e, 0xe0d6ece7);
    Operation(q, 0x80, 31, 0xdf52dab5, 0xe0d6ece7, 0xeb1275c9, 0x0e502f5b,
      0xe1527cc3, 0xc0a55778, 0xc0a55778, 0x4dcfa402, 0x4024dcfa, 0x20fbc9e1);
  }

  lemma First36()
    ensures After(INITIAL, 0x80, 36) == (0xb99760a4, 0xc6241e36, 0x5e704cc3, 0xaf26c805)
  {
    hide After;
    var q := INITIAL;
    First32();
    Operation(q, 0x80, 32, 0x0e502f5b, 0x20fbc9e1, 0xe0d6ece7, 0xeb1275c9,
      0x2b3f50cf, 0x398f802a, 0x398f802a, 0x3989b96c, 0x989b96c3, 0xb99760a4);
    Operation(q, 0x80, 33, 0xeb1275c9, 0xb99760a4, 0x20fbc9e1, 0xe0d6ece7,
      0x79ba45a2, 0x64ccbb6b, 0x64ccbb6b, 0xec3eb1ec, 0xf58f6761, 0xaf26c805);
    Operation(q, 0x80, 34, 0xe0d6ece7, 0xaf26c805, 0xb99760a4, 0x20fbc9e1,
      0x364a6140, 0x17214e27, 0x17214e27, 0x84beaf49, 0xaf4984be, 0x5e704cc3);
    Operation(q, 0x80, 35, 0x20fbc9e1, 0x5e704cc3, 0xaf26c805, 0xb99760a4,
      0x48c1e462, 0x69bdae43, 0x69bdaec3, 0x67a2e6cf, 0x67b3d173, 0xc6241e36);
  }

  lemma First40()
    ensures After(INITIAL, 0x80, 40) == (0x22b27bbf, 0x9ad75312, 0x3dc4fac5, 0x80ba416e)
  {
    hide After;
    var q := INITIAL;
    First36();
    Operation(q, 0x80, 36, 0xb99760a4, 0xc6241e36, 0x5e704cc3, 0xaf26c805,
      0x37729af0, 0xf109fb94, 0xf109fb94, 0x95c8e5d8, 0x5c8e5d89, 0x22b27bbf);
    Operation(q, 0x80, 37, 0xaf26c805, 0x22b27bbf, 0xc6241e36, 0x5e704cc3,
      0xbae6294a, 0x6a0cf14f, 0x6a0cf14f, 0xb5ebc0f8, 0x5e07c5af, 0x80ba416e);
    Operation(q, 0x80, 38, 0x5e704cc3, 0x80ba416e, 0x22b27bbf, 0xc6241e36,
      0x642c24e7, 0xc29c71aa, 0xc29c71aa, 0xb957bd0a, 0xbd0ab957, 0x3dc4fac5);
    Operation(q, 0x80, 39, 0xc6241e36, 0x3dc4fac5, 0x80ba416e, 0x22b27bbf,
      0x9fccc014, 0x65f0de4a, 0x65f0de4a, 0x24b09aba, 0x5d12584d, 0x9ad75312);
  }

  lemma First44()
    ensures After(INITIAL, 0x80, 44) == (0xca5586f9, 0x9c8582f4, 0xeab9d80b, 0xd71a3dbe)
  {
    hide After;
    var q := INITIAL;
    First40();
    Operation(q, 0x80, 40, 0x22b27bbf, 0x9ad75312, 0x3dc4fac5, 0x80ba416e,
      0x27a9e8b9, 0x4a5c6478, 0x4a5c6478, 0x72f7e33e, 0x2f7e33e7, 0xca5586f9);
    Operation(q, 0x80, 41, 0x80ba416e, 0xca5586f9, 0x9ad75312, 0x3dc4fac5,
      0x6d462f2e, 0xee00709c, 0xee00709c, 0xd8a19896, 0x0cc4b6c5, 0xd71a3dbe);
    Operation(q, 0x80, 42, 0x3dc4fac5, 0xd71a3dbe, 0xca5586f9, 0x9ad75312,
      0x8798e855, 0xc55de31a, 0xc55de31a, 0x9a4d139f, 0x139f9a4d, 0xeab9d80b);
    Operation(q, 0x80, 43, 0x9ad75312, 0xeab9d80b, 0xd71a3dbe, 0xca5586f9,
      0xf7f6634c, 0x92cdb65e, 0x92cdb65e, 0x9755d363, 0xb1cbaae9, 0x9c8582f4);
  }

  lemma First48()
    ensures After(INITIAL, 0x80, 48) == (0xf1916a28, 0x66f7d75e, 0x3361ab73, 0x09d53c55)
  {
    hide After;
    var q := INITIAL;
    First44();
    Operation(q, 0x80, 44, 0xca5586f9, 0x9c8582f4, 0xeab9d80b, 0xd71a3dbe,
      0xa1266741, 0x6b7bee3a, 0x6b7bee3a, 0x4550be73, 0x550be734, 0xf1916a28);
    Operation(q, 0x80, 45, 0xd71a3dbe, 0xf1916a28, 0x9c8582f4, 0xeab9d80b,
      0x87ad30d7, 0x5ec76e95, 0x5ec76e95, 0x45a3087a, 0x1843d22d, 0x09d53c55);
    Operation(q, 0x80, 46, 0xeab9d80b, 0x09d53c55, 0xf1916a28, 0x9c8582f4,
      0x64c1d489, 0x4f7bac94, 0x4f7bac94, 0x6f1e298c, 0x298c6f1e, 0x3361ab73);
    Operation(q, 0x80, 47, 0x9c8582f4, 0x3361ab73, 0x09d53c55, 0xf1916a28,
      0xcb25fd0e, 0x67ab8002, 0x67ab8002, 0x2c57d667, 0x33962beb, 0x66f7d75e);
  }

  lemma First52()
    ensures After(INITIAL, 0x80, 52) == (0x3d3a15c8, 0xc8cf2e94, 0x6211e0e6, 0x64341169)
  {
    hide After;
    var q := INITIAL;
    First48();
    Operation(q, 0x80, 48, 0xf1916a28, 0x66f7d75e, 0x3361ab73, 0x09d53c55,
      0xc59e7c8d, 0xb72fe6b5, 0xb72fe6b5, 0xab5908f9, 0xd6423e6a, 0x3d3a15c8);
    Operation(q, 0x80, 49, 0x09d53c55, 0x3d3a15c8, 0x66f7d75e, 0x3361ab73,
      0x9b498292, 0xa51ebee7, 0xa51ebee7, 0xe849be7e, 0x26f9fba1, 0x64341169);
    Operation(q, 0x80, 50, 0x3361ab73, 0x64341169, 0x3d3a15c8, 0x66f7d75e,
      0xc0062c21, 0xf367d794, 0xf367d814, 0x9efbfbbb, 0xfdddcf7d, 0x6211e0e6);
    Operation(q, 0x80, 51, 0x66f7d75e, 0x6211e0e6, 0x64341169, 0x3d3a15c8,
      0x86e1fb9e, 0xedd9d2fc, 0xedd9d2fc, 0xea6d7335, 0x66bd4dae, 0xc8cf2e94);
  }

  lemma First56()
    ensures After(INITIAL, 0x80, 56) == (0xe5aead6b, 0x42ea2286, 0x97225475, 0x6f6e560c)
  {
    hide After;
    var q := INITIAL;
    First52();
    Operation(q, 0x80, 52, 0x3d3a15c8, 0xc8cf2e94, 0x6211e0e6, 0x64341169,
      0xb9de0e70, 0xf7182438, 0xf7182438, 0x5c737dfb, 0x1cdf7ed7, 0xe5aead6b);
    Operation(q, 0x80, 53, 0x64341169, 0xe5aead6b, 0xc8cf2e94, 0x6211e0e6,
      0x352191ef, 0x9955a358, 0x9955a358, 0x28626fea, 0x89bfa8a1, 0x6f6e560c);
    Operation(q, 0x80, 54, 0x6211e0e6, 0x6f6e560c, 0xe5aead6b, 0xc8cf2e94,
      0x9ad07a04, 0xfce25aea, 0xfce25aea, 0xfcd24f67, 0x27b3fe69, 0x97225475);
    Operation(q, 0x80, 55, 0xc8cf2e94, 0x97225475, 0x6f6e560c, 0xe5aead6b,
      0xf01d00f9, 0xb8ec2f8d, 0xb8ec2f8d, 0x3e708d5e, 0xabc7ce11, 0x42ea2286);
  }

  lemma First60()
    ensures After(INITIAL, 0x80, 60) == (0x0f34f1ac, 0x2fd24685, 0x3dbb597c, 0xdb8d4416)
  {
    hide After;
    var q := INITIAL;
    First56();
    Operation(q, 0x80, 56, 0xe5aead6b, 0x42ea2286, 0x97225475, 0x6f6e560c,
      0x45d9ff82, 0x2b88aced, 0x2b88aced, 0x9b312b3c, 0xcc4acf26, 0x0f34f1ac);
    Operation(q, 0x80, 57, 0x6f6e560c, 0x0f34f1ac, 0x42ea2286, 0x97225475,
      0x2d17d928, 0x9c862f34, 0x9c862f34, 0x9ab31614, 0xcc58526a, 0xdb8d4416);
    Operation(q, 0x80, 58, 0x97225475, 0xdb8d4416, 0x0f34f1ac, 0x42ea2286,
      0xf0a92cd3, 0x87cb8148, 0x87cb8148, 0x2accc45c, 0x622e1566, 0x3dbb597c);
    Operation(q, 0x80, 59, 0x42ea2286, 0x3dbb597c, 0xdb8d4416, 0x0f34f1ac,
      0x26761b69, 0x69603def, 0x69603def, 0xb7684f90, 0xf216ed09, 0x2fd24685);
  }

  lemma First64()
    ensures After(INITIAL, 0x80, 64) == (0x6457f64b, 0xffcfde5a, 0x38e86ff1, 0x9bf25bd4)
  {
    hide After;
    var q := INITIAL;
    First60();
    Operation(q, 0x80, 60, 0x0f34f1ac, 0x2fd24685, 0x3dbb597c, 0xdb8d4416,
      0x1249a691, 0x217e983d, 0x217e983d, 0x18d216bf, 0x3485afc6, 0x6457f64b);
    Operation(q, 0x80, 61, 0xdb8d4416, 0x6457f64b, 0x2fd24685, 0x3dbb597c,
      0xc985b04e, 0xa512f464, 0xa512f464, 0x624de699, 0x379a6589, 0x9bf25bd4);
    Operation(q, 0x80, 62, 0x3dbb597c, 0x9bf25bd4, 0x6457f64b, 0x2fd24685,
      0xbfa80db5, 0xfd636731, 0xfd636731, 0x283b39ec, 0x9cf6141d, 0x38e86ff1);
    Operation(q, 0x80, 63, 0x2fd24685, 0x38e86ff1, 0x9bf25bd4, 0x6457f64b,
      0x201a3421, 0x4fec7aa6, 0x4fec7aa6, 0x3b734e37, 0xc6e76e69, 0xffcfde5a);
  }

  const AFTER_FIRST := Quad(0xcb9d194c, 0xef9d89e3, 0xd1a34cef, 0xac24b04a)

  lemma FirstBlock()
    ensures Compress(INITIAL, Sparse(0x80)) == AFTER_FIRST
  {
    hide Steps, Sparse;
    First64();
  }

  // ----- the second block

  lemma Second4()
    ensures After(AFTER_FIRST, 0x1C0, 4) == (0x4418e195, 0xc6ee4203, 0x42b05cff, 0xc371983f)
  {
    hide After;
    var q := AFTER_FIRST;
    Start(AFTER_FIRST, 0x1C0);
    Operation(q, 0x1C0, 0, 0xcb9d194c, 0xef9d89e3, 0xd1a34cef, 0xac24b04a,
      0xc1a138eb, 0x8d3e5237, 0x8d3e5237, 0x64a8f6af, 0x547b57b2, 0x4418e195);
    Operation(q, 0x1C0, 1, 0xac24b04a, 0x4418e195, 0xef9d89e3, 0xd1a34cef,
      0xd5bb8deb, 0x81e03e35, 0x81e03e35, 0x6aa7f58b, 0x7f58b6aa, 0xc371983f);
    Operation(q, 0x1C0, 2, 0xd1a34cef, 0xc371983f, 0x4418e195, 0xef9d89e3,
      0x6c9c81d5, 0x3e3fcec4, 0x3e3fcec4, 0x62603f9f, 0x7f3ec4c0, 0x42b05cff);
    Operation(q, 0x1C0, 3, 0xef9d89e3, 0x42b05cff, 0xc371983f, 0x4418e195,
      0x4638b93f, 0x35d64322, 0x35d64322, 0xf7941210, 0x843de504, 0xc6ee4203);
  }

  lemma Second8()
    ensures After(AFTER_FIRST, 0x1C0, 8) == (0x6a5303c1, 0x9380b73b, 0xf1452445, 0x261d889e)
  {
    hide After;
    var q := AFTER_FIRST;
    Second4();
    Operation(q, 0x1C0, 4, 0x4418e195, 0xc6ee4203, 0x42b05cff, 0xc371983f,
      0x43b1d83f, 0x87cab9d4, 0x87cab9d4, 0x7d46c983, 0xa364c1be, 0x6a5303c1);
    Operation(q, 0x1C0, 5, 0xc371983f, 0x6a5303c1, 0xc6ee4203, 0x42b05cff,
      0x42e25e3f, 0x0653f67e, 0x0653f67e, 0x4ddbbca8, 0xbbca84dd, 0x261d889e);
    Operation(q, 0x1C0, 6, 0x42b05cff, 0x261d889e, 0x6a5303c1, 0xc6ee4203,
      0xe2f34281, 0x25a39f80, 0x25a39f80, 0xcdd3e593, 0xcb279ba7, 0xf1452445);
    Operation(q, 0x1C0, 7, 0xc6ee4203, 0xf1452445, 0x261d889e, 0x6a5303c1,
      0x2a170384, 0xf1054587, 0xf1054587, 0xee4bda88, 0xa23b92f6, 0x9380b73b);
  }

  lemma Second12()
    ensures After(AFTER_FIRST, 0x1C0, 12) == (0x0be5467f, 0xfb43a5b8, 0x0538bae0, 0x364dd0cd)
  {
    hide After;
    var q := AFTER_FIRST;
    Second8();
    Operation(q, 0x1C0, 8, 0x6a5303c1, 0x9380b73b, 0xf1452445, 0x261d889e,
      0xb51d2c85, 0x1f703046, 0x1f703046, 0x88f0c91e, 0x78648f44, 0x0be5467f);
    Operation(q, 0x1C0, 9, 0x261d889e, 0x0be5467f, 0x9380b73b, 0xf1452445,
      0xf380263b, 0x199daed9, 0x199daed9, 0xa4e2a688, 0x2a688a4e, 0x364dd0cd);
    Operation(q, 0x1C0, 10, 0xf1452445, 0x364dd0cd, 0x0be5467f, 0x9380b73b,
      0x83c5677f, 0x750a8bc4, 0x750a8bc4, 0x7509e775, 0xceeaea13, 0x0538bae0);
    Operation(q, 0x1C0, 11, 0x9380b73b, 0x0538bae0, 0x364dd0cd, 0x0be5467f,
      0x0ecdd4df, 0xa24e8c1a, 0xa24e8c1a, 0x2bab63d8, 0xf60aead8, 0xfb43a5b8);
  }

  lemma Second16()
    ensures After(AFTER_FIRST, 0x1C0, 16) == (0x3c67e8f6, 0x94d1659c, 0x2df9b7f5, 0x5bb8efca)
  {
    hide After;
    var q := AFTER_FIRST;
    Second12();
    Operation(q, 0x1C0, 12, 0x0be5467f, 0xfb43a5b8, 0x0538bae0, 0x364dd0cd,
      0x050cf0e5, 0x10f23764, 0x10f23764, 0x7c824886, 0x4124433e, 0x3c67e8f6);
    Operation(q, 0x1C0, 13, 0x364dd0cd, 0x3c67e8f6, 0xfb43a5b8, 0x0538bae0,
      0x395bb2b0, 0x6fa9837d, 0x6fa9837d, 0x6d41f510, 0x1f5106d4, 0x5bb8efca);
    Operation(q, 0x1C0, 14, 0x0538bae0, 0x5bb8efca, 0x3c67e8f6, 0xfb43a5b8,
      0xb863e8f2, 0xbd9ca3d2, 0xbd9ca592, 0x6415e920, 0xd240c82b, 0x2df9b7f5);
    Operation(q, 0x1C0, 15, 0xfb43a5b8, 0x2df9b7f5, 0x5bb8efca, 0x3c67e8f6,
      0x19beefc2, 0x1502957a, 0x1502957a, 0x5eb69d9b, 0x66d7ada7, 0x94d1659c);
  }

  lemma Second20()
    ensures After(AFTER_FIRST, 0x1C0, 20) == (0x7fc1e848, 0x4e61f806, 0x1ed02301, 0xf6c88dfb)
  {
    hide After;
    var q := AFTER_FIRST;
    Second16();
    Operation(q, 0x1C0, 16, 0x3c67e8f6, 0x94d1659c, 0x2df9b7f5, 0x5bb8efca,
      0x34d175bd, 0x71395eb3, 0x71395eb3, 0x67578415, 0xeaf082ac, 0x7fc1e848);
    Operation(q, 0x1C0, 17, 0x5bb8efca, 0x7fc1e848, 0x94d1659c, 0x2df9b7f5,
      0xbdc1e048, 0x197ad012, 0x197ad012, 0xd9bb8352, 0x7706a5b3, 0xf6c88dfb);
    Operation(q, 0x1C0, 18, 0x2df9b7f5, 0xf6c88dfb, 0x7fc1e848, 0x94d1659c,
      0xffc08dd8, 0x2dba45cd, 0x2dba45cd, 0x5418a01e, 0x28079506, 0x1ed02301);
    Operation(q, 0x1C0, 19, 0x94d1659c, 0x1ed02301, 0xf6c88dfb, 0x7fc1e848,
      0x9ec825b3, 0x33998b4f, 0x33998b4f, 0x1d5052f9, 0x2f91d505, 0x4e61f806);
  }

  lemma Second24()
    ensures After(AFTER_FIRST, 0x1C0, 24) == (0xd6964cfa, 0x61c63c05, 0x9329a81b, 0x538af599)
  {
    hide After;
    var q := AFTER_FIRST;
    Second20();
    Operation(q, 0x1C0, 20, 0x7fc1e848, 0x4e61f806, 0x1ed02301, 0xf6c88dfb,
      0x4e50aa02, 0xce12924a, 0xce12924a, 0xa441a2a7, 0x883454f4, 0xd6964cfa);
    Operation(q, 0x1C0, 21, 0xf6c88dfb, 0xd6964cfa, 0x4e61f806, 0x1ed02301,
      0x56b1d806, 0x4d7a6601, 0x4d7a6601, 0x4fbe7a54, 0x7cf4a89f, 0x538af599);
    Operation(q, 0x1C0, 22, 0x1ed02301, 0x538af599, 0xd6964cfa, 0x4e61f806,
      0xd296f4f8, 0xf16717f9, 0xf16717f9, 0xca08fe7a, 0x3f9eb282, 0x9329a81b);
    Operation(q, 0x1C0, 23, 0x4e61f806, 0x9329a81b, 0x538af599, 0xd6964cfa,
      0x9308b91b, 0xe16ab121, 0xe16ab121, 0xc93eace9, 0xce9c93ea, 0x61c63c05);
  }

  lemma Second28()
    ensures After(AFTER_FIRST, 0x1C0, 28) == (0xa531187c, 0x04a12449, 0x70ef8bca, 0xf767b06d)
  {
    hide After;
    var q := AFTER_FIRST;
    Second24();
    Operation(q, 0x1C0, 24, 0xd6964cfa, 0x61c63c05, 0x9329a81b, 0x538af599,
      0xc1a33c03, 0x983988fd, 0x983988fd, 0xba1b56e3, 0x436adc77, 0xa531187c);
    Operation(q, 0x1C0, 25, 0x538af599, 0xa531187c, 0x61c63c05, 0x9329a81b,
      0xe1e71c1c, 0x357211b5, 0x35721375, 0xf8a91b4b, 0x523697f1, 0xf767b06d);
    Operation(q, 0x1C0, 26, 0x9329a81b, 0xf767b06d, 0xa531187c, 0x61c63c05,
      0xe577307d, 0x78a0d898, 0x78a0d898, 0x6d75e61f, 0x7987db5d, 0x70ef8bca);
    Operation(q, 0x1C0, 27, 0x61c63c05, 0x70ef8bca, 0xf767b06d, 0xa531187c,
      0x7267a849, 0xd42de44e, 0xd42de44e, 0x1987f93b, 0x93b1987f, 0x04a12449);
  }

  lemma Second32()
    ensures After(AFTER_FIRST, 0x1C0, 32) == (0x7c66cdd3, 0xcbfa5621, 0x8f7872d5, 0xf86b1ea4)
  {
    hide After;
    var q := AFTER_FIRST;
    Second28();
    Operation(q, 0x1C0, 28, 0xa531187c, 0x04a12449, 0x70ef8bca, 0xf767b06d,
      0x04a92bcb, 0xa9da4447, 0xa9da4447, 0x53be2d4c, 0x77c5a98a, 0x7c66cdd3);
    Operation(q, 0x1C0, 29, 0xf767b06d, 0x7c66cdd3, 0x04a12449, 0x70ef8bca,
      0x7466adc3, 0x6bce5e30, 0x6bce5e30, 0x68be0228, 0x7c0450d1, 0xf86b1ea4);
    Operation(q, 0x1C0, 30, 0x70ef8bca, 0xf86b1ea4, 0x7c66cdd3, 0x04a12449,
      0x7867cd92, 0xe957595c, 0xe957595c, 0x50c65c35, 0x970d5431, 0x8f7872d5);
    Operation(q, 0x1C0, 31, 0x04a12449, 0x8f7872d5, 0xf86b1ea4, 0x7c66cdd3,
      0x8c6952f5, 0x910a773e, 0x910a773e, 0x1e34c3c8, 0x3c81e34c, 0xcbfa5621);
  }

  lemma Second36()
    ensures After(AFTER_FIRST, 0x1C0, 36) == (0x609e6c74, 0xd9a235d1, 0xa3491798, 0x2b8b9993)
  {
    hide After;
    var q := AFTER_FIRST;
    Second32();
    Operation(q, 0x1C0, 32, 0x7c66cdd3, 0xcbfa5621, 0x8f7872d5, 0xf86b1ea4,
      0xbce93a50, 0x39500823, 0x39500823, 0x394a4165, 0x94a41653, 0x609e6c74);
    Operation(q, 0x1C0, 33, 0xf86b1ea4, 0x609e6c74, 0xcbfa5621, 0x8f7872d5,
      0x241c4880, 0x1c876724, 0x1c876724, 0xa3f95da5, 0xcaed2d1f, 0x2b8b9993);
    Operation(q, 0x1C0, 34, 0x8f7872d5, 0x2b8b9993, 0x609e6c74, 0xcbfa5621,
      0x80efa3c6, 0x1068169b, 0x1068169b, 0x7e0577bd, 0x77bd7e05, 0xa3491798);
    Operation(q, 0x1C0, 35, 0xcbfa5621, 0xa3491798, 0x2b8b9993, 0x609e6c74,
      0xe85ce27f, 0xb45738a0, 0xb4573a60, 0xb23c726c, 0x36591e39, 0xd9a235d1);
  }

  lemma Second40()
    ensures After(AFTER_FIRST, 0x1C0, 40) == (0x45835ef6, 0x440a4bf5, 0x97371742, 0xdcb33cac)
  {
    hide After;
    var q := AFTER_FIRST;
    Second36();
    Operation(q, 0x1C0, 36, 0x609e6c74, 0xd9a235d1, 0xa3491798, 0x2b8b9993,
      0x5160bbda, 0xb1ff284e, 0xb1ff284e, 0x56be1292, 0x6be12925, 0x45835ef6);
    Operation(q, 0x1C0, 37, 0x2b8b9993, 0x45835ef6, 0xd9a235d1, 0xa3491798,
      0x3f687cbf, 0x6af41652, 0x6af41652, 0xb6d2e5fb, 0x972fddb6, 0xdcb33cac);
    Operation(q, 0x1C0, 38, 0xa3491798, 0xdcb33cac, 0x45835ef6, 0xd9a235d1,
      0x4092578b, 0xe3db6f23, 0xe3db6f23, 0xda96ba83, 0xba83da96, 0x97371742);
    Operation(q, 0x1C0, 39, 0xd9a235d1, 0x97371742, 0xdcb33cac, 0x45835ef6,
      0x0e077518, 0xe7a9aae9, 0xe7a9aae9, 0xa6696759, 0xacd334b3, 0x440a4bf5);
  }

  lemma Second44()
    ensures After(AFTER_FIRST, 0x1C0, 44) == (0x1ede296c, 0x630727f0, 0x7a0629a1, 0xddb23615)
  {
    hide After;
    var q := AFTER_FIRST;
    Second40();
    Operation(q, 0x1C0, 40, 0x45835ef6, 0x440a4bf5, 0x97371742, 0xdcb33cac,
      0x0f8e601b, 0x5511bf11, 0x5511bf11, 0x7dad3dd7, 0xdad3dd77, 0x1ede296c);
    Operation(q, 0x1C0, 41, 0xdcb33cac, 0x1ede296c, 0x440a4bf5, 0x97371742,
      0xcde375db, 0xaa96b287, 0xaa96b287, 0x9537da81, 0xbed40ca9, 0xddb23615);
    Operation(q, 0x1C0, 42, 0x97371742, 0xddb23615, 0x1ede296c, 0x440a4bf5,
      0x8766548c, 0x1e9d6bce, 0x1e9d6bce, 0xf38c9c53, 0x9c53f38c, 0x7a0629a1);
    Operation(q, 0x1C0, 43, 0x440a4bf5, 0x7a0629a1, 0xddb23615, 0x1ede296c,
      0xb96a36d8, 0xfd7482cd, 0xfd7482cd, 0x01fc9fd2, 0xe900fe4f, 0x630727f0);
  }

  lemma Second48()
    ensures After(AFTER_FIRST, 0x1C0, 48) == (0x396a468b, 0xa0af1e31, 0x3593dfb8, 0x0230edb2)
  {
    hide After;
    var q := AFTER_FIRST;
    Second44();
    Operation(q, 0x1C0, 44, 0x1ede296c, 0x630727f0, 0x7a0629a1, 0xddb23615,
      0xc4b33844, 0xe39161b0, 0xe39161b0, 0xbd6631e9, 0xd6631e9b, 0x396a468b);
    Operation(q, 0x1C0, 45, 0xddb23615, 0x396a468b, 0x630727f0, 0x7a0629a1,
      0x206b48da, 0xfe1d7eef, 0xfe1d7eef, 0xe4f918d4, 0xc8c6a727, 0x0230edb2);
    Operation(q, 0x1C0, 46, 0x7a0629a1, 0x0230edb2, 0x396a468b, 0x630727f0,
      0x585d8cc9, 0xd263b66a, 0xd263b66a, 0xf2063362, 0x3362f206, 0x3593dfb8);
    Operation(q, 0x1C0, 47, 0x630727f0, 0x3593dfb8, 0x0230edb2, 0x396a468b,
      0x0ec97481, 0x71d09c71, 0x71d09c71, 0x367cf2d6, 0x6b1b3e79, 0xa0af1e31);
  }

  lemma Second52()
    ensures After(AFTER_FIRST, 0x1C0, 52) == (0x24b9c36e, 0xe2f3cbd1, 0x743c4036, 0xe06461bc)
  {
    hide After;
    var q := AFTER_FIRST;
    Second48();
    Operation(q, 0x1C0, 48, 0x396a468b, 0xa0af1e31, 0x3593dfb8, 0x0230edb2,
      0xc87cc1c5, 0x01e70850, 0x01e70850, 0xf6102a94, 0x840aa53d, 0x24b9c36e);
    Operation(q, 0x1C0, 49, 0x0230edb2, 0x24b9c36e, 0xa0af1e31, 0x3593dfb8,
      0x4e52fd5e, 0x5083eb10, 0x5083eb10, 0x93aeeaa7, 0xbbaa9e4e, 0xe06461bc);
    Operation(q, 0x1C0, 50, 0x3593dfb8, 0xe06461bc, 0x24b9c36e, 0xa0af1e31,
      0xdbcd2290, 0x11610248, 0x11610408, 0xbcf527af, 0x93d7de7a, 0x743c4036);
    Operation(q, 0x1C0, 51, 0xa0af1e31, 0x743c4036, 0xe06461bc, 0x24b9c36e,
      0x1f1a1d0b, 0xbfc93b3c, 0xbfc93b3c, 0xbc5cdb75, 0x6eb78b9b, 0xe2f3cbd1);
  }

  lemma Second56()
    ensures After(AFTER_FIRST, 0x1C0, 56) == (0x5a231156, 0x03594f29, 0x4e5a51d5, 0x60ac83f8)
  {
    hide After;
    var q := AFTER_FIRST;
    Second52();
    Operation(q, 0x1C0, 52, 0x24b9c36e, 0xe2f3cbd1, 0x743c4036, 0xe06461bc,
      0x8bc79fe5, 0xb0816353, 0xb0816353, 0x15dcbd16, 0x772f4585, 0x5a231156);
    Operation(q, 0x1C0, 53, 0xe06461bc, 0x5a231156, 0xe2f3cbd1, 0x743c4036,
      0x3910740e, 0x1974d5ca, 0x1974d5ca, 0xa881a25c, 0x068972a2, 0x60ac83f8);
    Operation(q, 0x1C0, 54, 0x743c4036, 0x60ac83f8, 0x5a231156, 0xe2f3cbd1,
      0x278fa6a8, 0x9bcbe6de, 0x9bcbe6de, 0x9bbbdb5b, 0xedadcddd, 0x4e5a51d5);
    Operation(q, 0x1C0, 55, 0xe2f3cbd1, 0x4e5a51d5, 0x60ac83f8, 0x5a231156,
      0x8f727c05, 0x726647d6, 0x726647d6, 0xf7eaa5a7, 0xb4fefd54, 0x03594f29);
  }

  lemma Second60()
    ensures After(AFTER_FIRST, 0x1C0, 60) == (0xb688f70f, 0x4b9e18f2, 0xbdd18c4a, 0xeef46f5e)
  {
    hide After;
    var q := AFTER_FIRST;
    Second56();
    Operation(q, 0x1C0, 56, 0x5a231156, 0x03594f29, 0x4e5a51d5, 0x60ac83f8,
      0xd1012efa, 0x2b244050, 0x2b244050, 0x9accbe9f, 0xb32fa7e6, 0xb688f70f);
    Operation(q, 0x1C0, 57, 0x60ac83f8, 0xb688f70f, 0x03594f29, 0x4e5a51d5,
      0xb4f4b006, 0x15a133fe, 0x15a133fe, 0x13ce1ade, 0x386b784f, 0xeef46f5e);
    Operation(q, 0x1C0, 58, 0x4e5a51d5, 0xeef46f5e, 0xb688f70f, 0x03594f29,
      0x487e08d1, 0x96d85aa6, 0x96d85aa6, 0x39d99dba, 0xcedd1cec, 0xbdd18c4a);
    Operation(q, 0x1C0, 59, 0x03594f29, 0xbdd18c4a, 0xeef46f5e, 0xb688f70f,
      0x1303e3a4, 0x165d32cd, 0x165d32cd, 0x6465446e, 0x8dcc8ca8, 0x4b9e18f2);
  }

  lemma Second64()
    ensures After(AFTER_FIRST, 0x1C0, 64) == (0x5640ab97, 0xe3818dc6, 0x28ead3ae, 0xd7540ebf)
  {
    hide After;
    var q := AFTER_FIRST;
    Second60();
    Operation(q, 0x1C0, 60, 0xb688f70f, 0x4b9e18f2, 0xbdd18c4a, 0xeef46f5e,
      0xe64e14b9, 0x9cd70bc8, 0x9cd70bc8, 0x942a8a4a, 0x0aa292a5, 0x5640ab97);
    Operation(q, 0x1C0, 61, 0xeef46f5e, 0x5640ab97, 0x4b9e18f2, 0xbdd18c4a,
      0x1df0e345, 0x0ce552a3, 0x0ce552a3, 0xca2044d8, 0x81136328, 0xd7540ebf);
    Operation(q, 0x1C0, 62, 0xbdd18c4a, 0xd7540ebf, 0x5640ab97, 0x4b9e18f2,
      0xa1354428, 0x5f06d072, 0x5f06d072, 0x89dea32d, 0x5196c4ef, 0x28ead3ae);
    Operation(q, 0x1C0, 63, 0x4b9e18f2, 0x28ead3ae, 0xd7540ebf, 0x5640ab97,
      0x7eabd951, 0xca49f243, 0xca49f243, 0xb5d0c5d4, 0xba96ba18, 0xe3818dc6);
  }

  /** The second block does not lead back to the state before it. */
  lemma SecondBlock()
    ensures Compress(AFTER_FIRST, Sparse(0x1C0)) == Quad(0x21ddc4e3, 0xd31f17a9, 0xfa8e209d, 0x8378bf09) != AFTER_FIRST
  {
    hide Steps, Sparse;
    Second64();
  }

  // ----- the message

  const MESSAGE: seq<byte> := seq(56, _ => 0)

  lemma SizeOf56()
    ensures Bits(56) == 0x1C0
  {
    Streaming.SizeOf64();
    assert Size(1) == 1;
    Streaming.SizeSum(1, 1);
    Streaming.SizeSum(2, 2);
    Streaming.SizeSum(4, 4);
    Streaming.SizeSum(8, 8);
    Streaming.SizeSum(16, 16);
    Streaming.SizeSum(32, 16);
    Streaming.SizeSum(48, 8);
  }

  lemma WordsOfBytes()
    ensures Word(0, 0, 0, 0) == 0 && Word(0x80, 0, 0, 0) == 0x80 && Word(0xC0, 1, 0, 0) == 0x1C0
    ensures LengthBytes(0x1C0) == [0xC0, 1, 0, 0, 0, 0, 0, 0]
  {
  }

  lemma PaddedMessage()
    ensures var p := Streaming.Padded(MESSAGE);
      && |p| == 128
      && (forall i :: 0 <= i < 64 ==> p[i] == if i == 56 then 0x80 else 0)
      && forall i :: 64 <= i < 128 ==> p[i] == if i == 120 then 0xC0 else if i == 121 then 1 else 0
  {
    hide LengthBytes, Bits, Size;
    SizeOf56();
    WordsOfBytes();
    var p := Streaming.Padded(MESSAGE);
    assert p == MESSAGE + ([0x80] + Zeros(56) + LengthBytes(0x1C0));
  }

  lemma Blocks()
    ensures var p := Streaming.Padded(MESSAGE);
      |p| == 128 && Words(p[..64]) == Sparse(0x80) && Words(p[64..]) == Sparse(0x1C0)
  {
    hide Word, Streaming.Padded;
    PaddedMessage();
    WordsOfBytes();
  }

  /** Streaming 56 zero bytes does not give their MD5. */
  lemma StreamingIsNotMd5()
    ensures Streaming.ValueOf(Streaming.Added(Streaming.EMPTY, MESSAGE)) != Md5(MESSAGE)
  {
    hide Streaming.ValueOf, Streaming.Added, Streaming.Padded, Compress, Sparse, Words, Md5;
    Blocks();
    FirstBlock();
    SecondBlock();
    Streaming.ValueIsMd5Iff(MESSAGE);
    OneBlock();
  }

  lemma OneBlock()
    requires |Streaming.Padded(MESSAGE)| == 128
    ensures Digested(INITIAL, Streaming.FirstBlocks(MESSAGE)) == Compress(INITIAL, Words(Streaming.Padded(MESSAGE)[..64]))
  {
    hide Compress, Words, Streaming.Padded;
    var s := Streaming.FirstBlocks(MESSAGE);
    assert s == Streaming.Padded(MESSAGE)[..64] && s[..64] == s && s[64..] == [];
  }

  /** The MD5 of the message. */
  lemma DigestOfMessage()
    ensures Md5(MESSAGE) == [0xe3, 0xc4, 0xdd, 0x21, 0xa9, 0x17, 0x1f, 0xd3,
                             0x9d, 0x20, 0x8e, 0xfa, 0x09, 0xbf, 0x78, 0x83]
  {
    hide Streaming.Padded, Compress, Sparse, Words, Output;
    Blocks();
    FirstBlock();
    SecondBlock();
    var p := Streaming.Padded(MESSAGE);
    assert p == p[..64] + p[64..];
    TwoBlocks(p[..64], p[64..]);
    OutputOfMessage();
  }

  lemma TwoBlocks(a: seq<byte>, b: seq<byte>)
    requires |a| == 64 && |b| == 64
    ensures Digested(INITIAL, a + b) == Compress(Compress(INITIAL, Words(a)), Words(b))
  {
    hide Compress, Words;
    var q := Compress(INITIAL, Words(a));
    assert (a + b)[..64] == a && (a + b)[64..] == b && b[..64] == b && b[64..] == [];
    assert Digested(INITIAL, a + b) == Digested(q, b) == Digested(Compress(q, Words(b)), []);
  }

  lemma OutputOfMessage()
    ensures Output(Quad(0x21ddc4e3, 0xd31f17a9, 0xfa8e209d, 0x8378bf09))
      == [0xe3, 0xc4, 0xdd, 0x21, 0xa9, 0x17, 0x1f, 0xd3, 0x9d, 0x20, 0x8e, 0xfa, 0x09, 0xbf, 0x78, 0x83]
  {
  }

  // ----- what the zeros of the message do not show

  /** The words of the block in the order in which section 3.4 lists them, round by round. */
  lemma WordsAsListed()
    ensures forall j :: 0 <= j < 16 ==> WordIndex(j) == j
    ensures [WordIndex(16), WordIndex(17), WordIndex(18), WordIndex(19), WordIndex(20), WordIndex(21), WordIndex(22), WordIndex(23),
             WordIndex(24), WordIndex(25), WordIndex(26), WordIndex(27), WordIndex(28), WordIndex(29), WordIndex(30), WordIndex(31)]
      == [1, 6, 11, 0, 5, 10, 15, 4, 9, 14, 3, 8, 13, 2, 7, 12]
    ensures [WordIndex(32), WordIndex(33), WordIndex(34), WordIndex(35), WordIndex(36), WordIndex(37), WordIndex(38), WordIndex(39),
             WordIndex(40), WordIndex(41), WordIndex(42), WordIndex(43), WordIndex(44), WordIndex(45), WordIndex(46), WordIndex(47)]
      == [5, 8, 11, 14, 1, 4, 7, 10, 13, 0, 3, 6, 9, 12, 15, 2]
    ensures [WordIndex(48), WordIndex(49), WordIndex(50), WordIndex(51), WordIndex(52), WordIndex(53), WordIndex(54), WordIndex(55),
             WordIndex(56), WordIndex(57), WordIndex(58), WordIndex(59), WordIndex(60), WordIndex(61), WordIndex(62), WordIndex(63)]
      == [0, 7, 14, 5, 12, 3, 10, 1, 8, 15, 6, 13, 4, 11, 2, 9]
  {
  }

  /** Bytes go into words and counters low-order first. */
  lemma LowOrderFirst()
    ensures Word(1, 2, 3, 4) == 0x04030201
    ensures LengthBytes(0x0807060504030201) == [1, 2, 3, 4, 5, 6, 7, 8]
  {
  }
}
