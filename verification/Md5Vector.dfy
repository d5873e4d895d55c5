/**
 One of the test vectors that RFC 1321 publishes (section A.5): the 26 small letters.  It ties
 the constants, rotations, word order and byte order of the reference to the standard's own
 output.
 */
module Md5Vector {
  import opened Bytes
  import opened Md5Reference

  /** The letters a to z. */
  const LETTERS: seq<byte> := [
    0x61, 0x62, 0x63, 0x64, 0x65, 0x66, 0x67, 0x68, 0x69, 0x6a, 0x6b, 0x6c, 0x6d,
    0x6e, 0x6f, 0x70, 0x71, 0x72, 0x73, 0x74, 0x75, 0x76, 0x77, 0x78, 0x79, 0x7a
  ]

  /** Their padded block, in words. */
  predicate IsBlock(x: seq<Word>) {
    && |x| == 16
    && x[0] == 0x64636261 && x[1] == 0x68676665 && x[2] == 0x6c6b6a69 && x[3] == 0x706f6e6d
    && x[4] == 0x74737271 && x[5] == 0x78777675 && x[6] == 0x00807a79 && x[7] == 0x00000000
    && x[8] == 0x00000000 && x[9] == 0x00000000 && x[10] == 0x00000000 && x[11] == 0x00000000
    && x[12] == 0x00000000 && x[13] == 0x00000000 && x[14] == 0x000000d0 && x[15] == 0x00000000
  }

  /** One step, from the words it mixes. */
  lemma One(x: seq<Word>, i: nat, a: Word, b: Word, c: Word, d: Word, f: Word, g: nat, w: Word, t: Word, s: nat, n: Word)
    requires |x| == 16 && i < 64 && WordIndex(i) == g < 16 && x[g] == w && Sine(i) == t && Shift(i) == s
    requires Aux(i, b, c, d) == f && Mix(a, f, w, t, s, b) == n
    ensures Step(Regs(a, b, c, d), x, i) == Regs(d, n, b, c)
  {
  }

  lemma Steps1To8(x: seq<Word>)
    requires IsBlock(x)
    ensures Quad(Quad(Regs(0x67452301, 0xefcdab89, 0x98badcfe, 0x10325476), x, 0), x, 4)
            == Regs(0xfe15f787, 0xda9bbb0d, 0xb71122fc, 0xa811b278)
  {
    hide Step;
    One(x, 0, 0x67452301, 0xefcdab89, 0x98badcfe, 0x10325476,
        0x98badcfe, 0, 0x64636261, 0xd76aa478, 7, 0xd6d117a6);
    One(x, 1, 0x10325476, 0xd6d117a6, 0xefcdab89, 0x98badcfe,
        0xceebcbd8, 1, 0x68676665, 0xe8c7b756, 12, 0xaab1aaaa);
    One(x, 2, 0x98badcfe, 0xaab1aaaa, 0xd6d117a6, 0xefcdab89,
        0xc7dd03a3, 2, 0x6c6b6a69, 0x242070db, 17, 0x227d8cf1);
    One(x, 3, 0xefcdab89, 0x227d8cf1, 0xaab1aaaa, 0xd6d117a6,
        0xf6b19ba6, 3, 0x706f6e6d, 0xc1bdceee, 22, 0x4503b812);
    One(x, 4, 0xd6d117a6, 0x4503b812, 0x227d8cf1, 0xaab1aaaa,
        0xaab18ab8, 4, 0x74737271, 0xf57c0faf, 7, 0xfe15f787);
    One(x, 5, 0xaab1aaaa, 0xfe15f787, 0x4503b812, 0x227d8cf1,
        0x4469b872, 5, 0x78777675, 0x4787c62a, 12, 0xa811b278);
    One(x, 6, 0x227d8cf1, 0xa811b278, 0xfe15f787, 0x4503b812,
        0xed13ba02, 6, 0x00807a79, 0xa8304613, 17, 0xb71122fc);
    One(x, 7, 0x4503b812, 0xb71122fc, 0xa811b278, 0xfe15f787,
        0xe815f77b, 7, 0x00000000, 0xfd469501, 22, 0xda9bbb0d);
  }

  lemma Steps9To16(x: seq<Word>)
    requires IsBlock(x)
    ensures Quad(Quad(Regs(0xfe15f787, 0xda9bbb0d, 0xb71122fc, 0xa811b278), x, 8), x, 12)
            == Regs(0x1754a316, 0x608d6b7e, 0x00df74d5, 0x85567d90)
  {
    hide Step;
    One(x, 8, 0xfe15f787, 0xda9bbb0d, 0xb71122fc, 0xa811b278,
        0xb211227c, 8, 0x00000000, 0x698098d8, 7, 0xae752899);
    One(x, 9, 0xa811b278, 0xae752899, 0xda9bbb0d, 0xb71122fc,
        0x9b112a6d, 9, 0x00000000, 0x8b44f7af, 12, 0x2bbe757f);
    One(x, 10, 0xb71122fc, 0x2bbe757f, 0xae752899, 0xda9bbb0d,
        0xfa35aa19, 10, 0x00000000, 0xffff5bb1, 17, 0x7d4bd80b);
    One(x, 11, 0xda9bbb0d, 0x7d4bd80b, 0x2bbe757f, 0xae752899,
        0xab3e709b, 11, 0x00000000, 0x895cd7be, 22, 0x56cfa5cb);
    One(x, 12, 0xae752899, 0x56cfa5cb, 0x7d4bd80b, 0x2bbe757f,
        0x7d7bd03f, 12, 0x00000000, 0x6b901122, 7, 0x1754a316);
    One(x, 13, 0x2bbe757f, 0x1754a316, 0x56cfa5cb, 0x7d4bd80b,
        0x7e4ff90b, 13, 0x00000000, 0xfd987193, 12, 0x85567d90);
    One(x, 14, 0x7d4bd80b, 0x85567d90, 0x1754a316, 0x56cfa5cb,
        0x57dda15b, 14, 0x000000d0, 0xa679438e, 17, 0x00df74d5);
    One(x, 15, 0x56cfa5cb, 0x00df74d5, 0x85567d90, 0x1754a316,
        0x1756f792, 15, 0x00000000, 0x49b40821, 22, 0x608d6b7e);
  }

  lemma Steps17To24(x: seq<Word>)
    requires IsBlock(x)
    ensures Quad(Quad(Regs(0x1754a316, 0x608d6b7e, 0x00df74d5, 0x85567d90), x, 16), x, 20)
            == Regs(0x570c43e0, 0xc9f162d4, 0xc28ab49d, 0x977efd2a)
  {
    hide Step;
    One(x, 16, 0x1754a316, 0x608d6b7e, 0x00df74d5, 0x85567d90,
        0x008d6955, 1, 0x68676665, 0xf61e2562, 5, 0x2d8071cc);
    One(x, 17, 0x85567d90, 0x2d8071cc, 0x608d6b7e, 0x00df74d5,
        0x60807bee, 6, 0x00807a79, 0xc040b340, 9, 0x5dcee119);
    One(x, 18, 0x00df74d5, 0x5dcee119, 0x2d8071cc, 0x608d6b7e,
        0x4d8c7198, 11, 0x00000000, 0x265e5a51, 14, 0xedfe7e4b);
    One(x, 19, 0x608d6b7e, 0xedfe7e4b, 0x5dcee119, 0x2d8071cc,
        0x7dcef059, 0, 0x64636261, 0xe9b6c7aa, 20, 0x4c2145b3);
    One(x, 20, 0x2d8071cc, 0x4c2145b3, 0xedfe7e4b, 0x5dcee119,
        0xec305f53, 5, 0x78777675, 0xd62f105d, 5, 0x570c43e0);
    One(x, 21, 0x5dcee119, 0x570c43e0, 0x4c2145b3, 0xedfe7e4b,
        0x450d43f0, 10, 0x00000000, 0x02441453, 9, 0x977efd2a);
    One(x, 22, 0xedfe7e4b, 0x977efd2a, 0x570c43e0, 0x4c2145b3,
        0x172c4762, 15, 0x00000000, 0xd8a1e681, 14, 0xc28ab49d);
    One(x, 23, 0x4c2145b3, 0xc28ab49d, 0x977efd2a, 0x570c43e0,
        0xc27abc8a, 4, 0x74737271, 0xe7d3fbc8, 20, 0xc9f162d4);
  }

  lemma Steps25To32(x: seq<Word>)
    requires IsBlock(x)
    ensures Quad(Quad(Regs(0x570c43e0, 0xc9f162d4, 0xc28ab49d, 0x977efd2a), x, 24), x, 28)
            == Regs(0xf54d8710, 0xaeb35766, 0x2e69afc7, 0x927b72e2)
  {
    hide Step;
    One(x, 24, 0x570c43e0, 0xc9f162d4, 0xc28ab49d, 0x977efd2a,
        0xc1f06095, 9, 0x00000000, 0x21e1cde6, 5, 0x25bfae3b);
    One(x, 25, 0x977efd2a, 0x25bfae3b, 0xc9f162d4, 0xc28ab49d,
        0x09fbe659, 14, 0x000000d0, 0xc33707d6, 9, 0x89980104);
    One(x, 26, 0xc28ab49d, 0x89980104, 0x25bfae3b, 0xc9f162d4,
        0xad9e8c2f, 3, 0x706f6e6d, 0xf4d50d87, 14, 0xf8c8365f);
    One(x, 27, 0xc9f162d4, 0xf8c8365f, 0x89980104, 0x25bfae3b,
        0xa888271f, 8, 0x00000000, 0x455a14ed, 20, 0xe6d3b398);
    One(x, 28, 0x25bfae3b, 0xe6d3b398, 0xf8c8365f, 0x89980104,
        0xf0d0375b, 13, 0x00000000, 0xa9e3e905, 5, 0xf54d8710);
    One(x, 29, 0x89980104, 0xf54d8710, 0xe6d3b398, 0xf8c8365f,
        0xf65b8790, 2, 0x6c6b6a69, 0xfcefa3f8, 9, 0x927b72e2);
    One(x, 30, 0xf8c8365f, 0x927b72e2, 0xf54d8710, 0xe6d3b398,
        0x935f3680, 7, 0x00000000, 0x676f02d9, 14, 0x2e69afc7);
    One(x, 31, 0xe6d3b398, 0x2e69afc7, 0x927b72e2, 0xf54d8710,
        0x267bf7e2, 12, 0x00000000, 0x8d2a4c8a, 20, 0xaeb35766);
  }

  lemma Steps33To40(x: seq<Word>)
    requires IsBlock(x)
    ensures Quad(Quad(Regs(0xf54d8710, 0xaeb35766, 0x2e69afc7, 0x927b72e2), x, 32), x, 36)
            == Regs(0xb9c0c733, 0x8d41bf99, 0x23a9451b, 0xf1e6dc7a)
  {
    hide Step;
    One(x, 32, 0xf54d8710, 0xaeb35766, 0x2e69afc7, 0x927b72e2,
        0x12a18a43, 5, 0x78777675, 0xfffa3942, 4, 0xb4bf680e);
    One(x, 33, 0x927b72e2, 0xb4bf680e, 0xaeb35766, 0x2e69afc7,
        0x346590af, 8, 0x00000000, 0x8771f681, 11, 0x4c8ffa80);
    One(x, 34, 0x2e69afc7, 0x4c8ffa80, 0xb4bf680e, 0xaeb35766,
        0x5683c5e8, 11, 0x00000000, 0x6d9d6122, 16, 0x2361ed0a);
    One(x, 35, 0xaeb35766, 0x2361ed0a, 0x4c8ffa80, 0xb4bf680e,
        0xdb517f84, 14, 0x000000d0, 0xfde5380c, 23, 0x06a5e211);
    One(x, 36, 0xb4bf680e, 0x06a5e211, 0x2361ed0a, 0x4c8ffa80,
        0x694bf59b, 1, 0x68676665, 0xa4beea44, 4, 0xb9c0c733);
    One(x, 37, 0x4c8ffa80, 0xb9c0c733, 0x06a5e211, 0x2361ed0a,
        0x9c04c828, 4, 0x74737271, 0x4bdecfa9, 11, 0xf1e6dc7a);
    One(x, 38, 0x2361ed0a, 0xf1e6dc7a, 0xb9c0c733, 0x06a5e211,
        0x4e83f958, 7, 0x00000000, 0xf6bb4b60, 16, 0x23a9451b);
    One(x, 39, 0x06a5e211, 0x23a9451b, 0xf1e6dc7a, 0xb9c0c733,
        0x6b8f5e52, 10, 0x00000000, 0xbebfbc70, 23, 0x8d41bf99);
  }

  lemma Steps41To48(x: seq<Word>)
    requires IsBlock(x)
    ensures Quad(Quad(Regs(0xb9c0c733, 0x8d41bf99, 0x23a9451b, 0xf1e6dc7a), x, 40), x, 44)
            == Regs(0xb5d41f9c, 0x71d10367, 0x703d54d8, 0xa04b4904)
  {
    hide Step;
    One(x, 40, 0xb9c0c733, 0x8d41bf99, 0x23a9451b, 0xf1e6dc7a,
        0x5f0e26f8, 13, 0x00000000, 0x289b7ec6, 4, 0xa3e88ead);
    One(x, 41, 0xf1e6dc7a, 0xa3e88ead, 0x8d41bf99, 0x23a9451b,
        0x0d00742f, 0, 0x64636261, 0xeaa127fa, 11, 0x02c0b11c);
    One(x, 42, 0x23a9451b, 0x02c0b11c, 0xa3e88ead, 0x8d41bf99,
        0x2c698028, 3, 0x706f6e6d, 0xd4ef3085, 16, 0x66f6468d);
    One(x, 43, 0x8d41bf99, 0x66f6468d, 0x02c0b11c, 0xa3e88ead,
        0xc7de793c, 6, 0x00807a79, 0x04881d05, 23, 0x90a35af5);
    One(x, 44, 0xa3e88ead, 0x90a35af5, 0x66f6468d, 0x02c0b11c,
        0xf495ad64, 9, 0x00000000, 0xd9d4d039, 4, 0xb5d41f9c);
    One(x, 45, 0x02c0b11c, 0xb5d41f9c, 0x90a35af5, 0x66f6468d,
        0x438103e4, 12, 0x00000000, 0xe6db99e5, 11, 0xa04b4904);
    One(x, 46, 0x66f6468d, 0xa04b4904, 0xb5d41f9c, 0x90a35af5,
        0x853c0c6d, 15, 0x00000000, 0x1fa27cf8, 16, 0x703d54d8);
    One(x, 47, 0x90a35af5, 0x703d54d8, 0xa04b4904, 0xb5d41f9c,
        0x65a20240, 2, 0x6c6b6a69, 0xc4ac5665, 23, 0x71d10367);
  }

  lemma Steps49To56(x: seq<Word>)
    requires IsBlock(x)
    ensures Quad(Quad(Regs(0xb5d41f9c, 0x71d10367, 0x703d54d8, 0xa04b4904), x, 48), x, 52)
            == Regs(0xc1e942f1, 0x83877d1b, 0x23a68048, 0xd9bb987c)
  {
    hide Step;
    One(x, 48, 0xb5d41f9c, 0x71d10367, 0x703d54d8, 0xa04b4904,
        0x0fc8e327, 0, 0x64636261, 0xf4292244, 6, 0xfc32dd6e);
    One(x, 49, 0xa04b4904, 0xfc32dd6e, 0x71d10367, 0x703d54d8,
        0x8e23fc08, 7, 0x00000000, 0x432aff97, 10, 0x65456b34);
    One(x, 50, 0x703d54d8, 0x65456b34, 0xfc32dd6e, 0x71d10367,
        0x135d22d2, 14, 0x000000d0, 0xab9423a7, 15, 0xb35602cb);
    One(x, 51, 0x71d10367, 0xb35602cb, 0x65456b34, 0xfc32dd6e,
        0xd69a49ef, 5, 0x78777675, 0xfc93a039, 21, 0x33edb197);
    One(x, 52, 0xfc32dd6e, 0x33edb197, 0xb35602cb, 0x65456b34,
        0x08a9b714, 12, 0x00000000, 0x655b59c3, 6, 0xc1e942f1);
    One(x, 53, 0x65456b34, 0xc1e942f1, 0x33edb197, 0xb35602cb,
        0xfe044e62, 3, 0x706f6e6d, 0x8f0ccc92, 10, 0xd9bb987c);
    One(x, 54, 0xb35602cb, 0xd9bb987c, 0xc1e942f1, 0x33edb197,
        0x1c529c8d, 10, 0x00000000, 0xffeff47d, 15, 0x23a68048);
    One(x, 55, 0x33edb197, 0x23a68048, 0xd9bb987c, 0xc1e942f1,
        0xe60d2532, 1, 0x68676665, 0x85845dd1, 21, 0x83877d1b);
  }

  lemma Steps57To64(x: seq<Word>)
    requires IsBlock(x)
    ensures Quad(Quad(Regs(0xc1e942f1, 0x83877d1b, 0x23a68048, 0xd9bb987c), x, 56), x, 60)
            == Regs(0x708ed9c2, 0x1116e6d8, 0xd38f1e7f, 0x2baf1354)
  {
    hide Step;
    One(x, 56, 0xc1e942f1, 0x83877d1b, 0x23a68048, 0xd9bb987c,
        0x8461ffd3, 8, 0x00000000, 0x6fa87e4f, 6, 0x0077c208);
    One(x, 57, 0xd9bb987c, 0x0077c208, 0x83877d1b, 0x23a68048,
        0x5ff882a4, 15, 0x00000000, 0xfe2ce6e0, 10, 0x847fc2e7);
    One(x, 58, 0x23a68048, 0x847fc2e7, 0x0077c208, 0x83877d1b,
        0xfc0800ef, 6, 0x00807a79, 0xa3014314, 15, 0xa3e2247f);
    One(x, 59, 0x83877d1b, 0xa3e2247f, 0x847fc2e7, 0x0077c208,
        0x7b95ff18, 13, 0x00000000, 0x4e0811a1, 21, 0x5e6bc930);
    One(x, 60, 0x0077c208, 0x5e6bc930, 0xa3e2247f, 0x847fc2e7,
        0xdc09d947, 4, 0x74737271, 0xf7537e82, 6, 0x708ed9c2);
    One(x, 61, 0x847fc2e7, 0x708ed9c2, 0x5e6bc930, 0xa3e2247f,
        0x22f412f2, 11, 0x00000000, 0xbd3af235, 10, 0x2baf1354);
    One(x, 62, 0xa3e2247f, 0x2baf1354, 0x708ed9c2, 0x5e6bc930,
        0xdb31ee1d, 2, 0x6c6b6a69, 0x2ad7d2bb, 15, 0xd38f1e7f);
    One(x, 63, 0x5e6bc930, 0xd38f1e7f, 0x2baf1354, 0x708ed9c2,
        0xf4502d2b, 9, 0x00000000, 0xeb86d391, 21, 0x1116e6d8);
  }

  lemma AllSteps(x: seq<Word>)
    requires IsBlock(x)
    ensures Steps(INIT, x, 64) == Regs(0x708ed9c2, 0x1116e6d8, 0xd38f1e7f, 0x2baf1354)
  {
    hide Quad, Steps, IsBlock;
    Steps0(x);
    StepsEight(INIT, x, 0);
    Steps1To8(x);
    StepsEight(INIT, x, 8);
    Steps9To16(x);
    StepsEight(INIT, x, 16);
    Steps17To24(x);
    StepsEight(INIT, x, 24);
    Steps25To32(x);
    StepsEight(INIT, x, 32);
    Steps33To40(x);
    StepsEight(INIT, x, 40);
    Steps41To48(x);
    StepsEight(INIT, x, 48);
    Steps49To56(x);
    StepsEight(INIT, x, 56);
    Steps57To64(x);
  }

  lemma Steps0(x: seq<Word>)
    requires IsBlock(x)
    ensures |x| == 16 && Steps(INIT, x, 0) == INIT
  {
  }

  /** Word k of a block, from its four bytes. */
  lemma WordAt(b: seq<byte>, k: nat, c0: byte, c1: byte, c2: byte, c3: byte, w: Word)
    requires |b| == 64 && k < 16 && DecodeWord([c0, c1, c2, c3]) == w
    requires b[4 * k] == c0 && b[4 * k + 1] == c1 && b[4 * k + 2] == c2 && b[4 * k + 3] == c3
    ensures DecodeBlock(b)[k] == w
  {
    hide DecodeWord;
    assert b[4 * k..4 * k + 4] == [c0, c1, c2, c3];
  }

  predicate IsPadded(b: seq<byte>) {
    b == LETTERS + [0x80] + Zeros(29) + [0xd0, 0, 0, 0, 0, 0, 0, 0]
  }

  lemma PaddedBytes(b: seq<byte>)
    requires IsPadded(b)
    ensures |b| == 64 && (forall k :: 0 <= k < 26 ==> b[k] == LETTERS[k]) && b[26] == 0x80 && b[56] == 0xd0
    ensures forall k :: 27 <= k < 64 && k != 56 ==> b[k] == 0
  {
  }

  lemma FirstWords(b: seq<byte>)
    requires IsPadded(b)
    ensures var x := DecodeBlock(b); |b| == 64 && x[0] == 0x64636261 && x[1] == 0x68676665 && x[2] == 0x6c6b6a69
  {
    hide DecodeWord, DecodeBlock, IsPadded;
    PaddedBytes(b);
    WordsOfBytes();
    WordAt(b, 0, 0x61, 0x62, 0x63, 0x64, 0x64636261);
    WordAt(b, 1, 0x65, 0x66, 0x67, 0x68, 0x68676665);
    WordAt(b, 2, 0x69, 0x6a, 0x6b, 0x6c, 0x6c6b6a69);
  }

  lemma NextWords(b: seq<byte>)
    requires IsPadded(b)
    ensures var x := DecodeBlock(b); |b| == 64 && x[3] == 0x706f6e6d && x[4] == 0x74737271
  {
    hide DecodeWord, DecodeBlock, IsPadded;
    PaddedBytes(b);
    WordsOfBytes();
    WordAt(b, 3, 0x6d, 0x6e, 0x6f, 0x70, 0x706f6e6d);
    WordAt(b, 4, 0x71, 0x72, 0x73, 0x74, 0x74737271);
  }

  lemma ThirdWords(b: seq<byte>)
    requires IsPadded(b)
    ensures var x := DecodeBlock(b); |b| == 64 && x[5] == 0x78777675 && x[6] == 0x00807a79
  {
    hide DecodeWord, DecodeBlock, IsPadded;
    PaddedBytes(b);
    WordsOfBytes();
    WordAt(b, 5, 0x75, 0x76, 0x77, 0x78, 0x78777675);
    WordAt(b, 6, 0x79, 0x7a, 0x80, 0x00, 0x00807a79);
  }

  lemma LastWords(b: seq<byte>)
    requires IsPadded(b)
    ensures var x := DecodeBlock(b); |b| == 64 && x[7] == 0x00000000 && x[8] == 0x00000000 && x[9] == 0x00000000 && x[10] == 0x00000000 && x[11] == 0x00000000 && x[12] == 0x00000000 && x[13] == 0x00000000 && x[14] == 0x000000d0 && x[15] == 0x00000000
  {
    hide DecodeWord, DecodeBlock, IsPadded;
    PaddedBytes(b);
    WordsOfBytes();
    WordAt(b, 7, 0x00, 0x00, 0x00, 0x00, 0x00000000);
    WordAt(b, 8, 0x00, 0x00, 0x00, 0x00, 0x00000000);
    WordAt(b, 9, 0x00, 0x00, 0x00, 0x00, 0x00000000);
    WordAt(b, 10, 0x00, 0x00, 0x00, 0x00, 0x00000000);
    WordAt(b, 11, 0x00, 0x00, 0x00, 0x00, 0x00000000);
    WordAt(b, 12, 0x00, 0x00, 0x00, 0x00, 0x00000000);
    WordAt(b, 13, 0x00, 0x00, 0x00, 0x00, 0x00000000);
    WordAt(b, 14, 0xd0, 0x00, 0x00, 0x00, 0x000000d0);
    WordAt(b, 15, 0x00, 0x00, 0x00, 0x00, 0x00000000);
  }

  /** The letters with their padding and length. */
  lemma Block()
    ensures |Pad(LETTERS)| == 64 && IsBlock(DecodeBlock(Pad(LETTERS)))
  {
    hide DecodeWord, DecodeBlock;
    Tail();
    FirstWords(Pad(LETTERS));
    NextWords(Pad(LETTERS));
    ThirdWords(Pad(LETTERS));
    LastWords(Pad(LETTERS));
  }

  lemma Tail()
    ensures LengthBytes(26) == [0xd0, 0, 0, 0, 0, 0, 0, 0] && ZeroCount(26) == 29
  {
    hide EncodeWord, WordOf;
    LengthWords();
    LengthOctets();
  }

  lemma LengthWords()
    ensures WordOf(208) == 0xd0 && WordOf(0) == 0
  {
  }

  lemma LengthOctets()
    ensures EncodeWord(0xd0) == [0xd0, 0, 0, 0] && EncodeWord(0) == [0, 0, 0, 0]
  {
  }

  lemma WordsOfBytes()
    ensures DecodeWord([0x61, 0x62, 0x63, 0x64]) == 0x64636261
    ensures DecodeWord([0x65, 0x66, 0x67, 0x68]) == 0x68676665
    ensures DecodeWord([0x69, 0x6a, 0x6b, 0x6c]) == 0x6c6b6a69
    ensures DecodeWord([0x6d, 0x6e, 0x6f, 0x70]) == 0x706f6e6d
    ensures DecodeWord([0x71, 0x72, 0x73, 0x74]) == 0x74737271
    ensures DecodeWord([0x75, 0x76, 0x77, 0x78]) == 0x78777675
    ensures DecodeWord([0x79, 0x7a, 0x80, 0x00]) == 0x00807a79
    ensures DecodeWord([0x00, 0x00, 0x00, 0x00]) == 0x00000000
    ensures DecodeWord([0xd0, 0x00, 0x00, 0x00]) == 0x000000d0
  {
  }

  /** MD5 ("abcdefghijklmnopqrstuvwxyz") = c3fcd3d76192e4007dfb496cca67e13b. */
  lemma LettersDigest()
    ensures Digest(LETTERS) == [
      0xc3, 0xfc, 0xd3, 0xd7, 0x61, 0x92, 0xe4, 0x00, 0x7d, 0xfb, 0x49, 0x6c, 0xca, 0x67, 0xe1, 0x3b
    ]
  {
    hide Steps, DecodeBlock, Pad, EncodeWord;
    Block();
    var b := Pad(LETTERS);
    AllSteps(DecodeBlock(b));
    assert b[..64] == b && b[64..] == [];
    BytesOfDigest();
    OneBlock(b);
  }

  lemma OneBlock(b: seq<byte>)
    requires |b| == 64
    ensures Absorb(INIT, b) == Compress(INIT, b)
  {
    hide Compress;
    assert b[..64] == b && b[64..] == [];
  }

  lemma BytesOfDigest()
    ensures AddRegs(INIT, Regs(0x708ed9c2, 0x1116e6d8, 0xd38f1e7f, 0x2baf1354))
            == Regs(0xd7d3fcc3, 0x00e49261, 0x6c49fb7d, 0x3be167ca)
    ensures EncodeWord(0xd7d3fcc3) == [0xc3, 0xfc, 0xd3, 0xd7]
    ensures EncodeWord(0x00e49261) == [0x61, 0x92, 0xe4, 0x00]
    ensures EncodeWord(0x6c49fb7d) == [0x7d, 0xfb, 0x49, 0x6c]
    ensures EncodeWord(0x3be167ca) == [0xca, 0x67, 0xe1, 0x3b]
  {
  }
}
