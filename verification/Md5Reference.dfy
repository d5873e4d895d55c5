/**
 The MD5 message digest as RFC 1321 defines it: padding (section 3.1), the appended
 length (section 3.2), the four words of state (section 3.3), the 64 table-driven steps
 (section 3.4) and the output (section 3.5).  Nothing here mentions the driver.
 */
module Md5Reference {
  import opened Bytes

  type Word = bv32

  /** The registers A, B, C and D. */
  datatype Regs = Regs(a: Word, b: Word, c: Word, d: Word)

  const INIT := Regs(0x67452301, 0xefcdab89, 0x98badcfe, 0x10325476)

  function F(x: Word, y: Word, z: Word): Word { (x & y) | (!x & z) }

  function G(x: Word, y: Word, z: Word): Word { (x & z) | (y & !z) }

  function H(x: Word, y: Word, z: Word): Word { x ^ y ^ z }

  function I(x: Word, y: Word, z: Word): Word { y ^ (x | !z) }

  function RotateLeft(x: Word, s: nat): Word
    requires s <= 32
  {
    (x << s) | (x >> (32 - s))
  }

  /** b + ((a + f + x + t) <<< s), all additions modulo 2^32. */
  function Mix(a: Word, f: Word, x: Word, t: Word, s: nat, b: Word): Word
    requires s <= 32
  {
    RotateLeft(a + (f + x + t), s) + b
  }

  /** The auxiliary function of step i. */
  function Aux(i: nat, x: Word, y: Word, z: Word): Word {
    if i < 16 then F(x, y, z)
    else if i < 32 then G(x, y, z)
    else if i < 48 then H(x, y, z)
    else I(x, y, z)
  }

  /** The message word that step i uses. */
  function WordIndex(i: nat): nat {
    if i < 16 then i
    else if i < 32 then (5 * i + 1) % 16
    else if i < 48 then (3 * i + 5) % 16
    else 7 * i % 16
  }

  /** The rotation of step i. */
  function Shift(i: nat): (s: nat)
    requires i < 64
    ensures s <= 32
  {
    var j := i % 4;
    if i < 16 then (if j == 0 then 7 else if j == 1 then 12 else if j == 2 then 17 else 22)
    else if i < 32 then (if j == 0 then 5 else if j == 1 then 9 else if j == 2 then 14 else 20)
    else if i < 48 then (if j == 0 then 4 else if j == 1 then 11 else if j == 2 then 16 else 23)
    else (if j == 0 then 6 else if j == 1 then 10 else if j == 2 then 15 else 21)
  }

  /** The integer part of 2^32 * |sin(i + 1)|. */
  function Sine(i: nat): Word
    requires i < 64
  {
    if i < 16 then Sine1(i)
    else if i < 32 then Sine2(i - 16)
    else if i < 48 then Sine3(i - 32)
    else Sine4(i - 48)
  }

  function Sine1(i: nat): Word
    requires i < 16
  {
    match i
    case 0 => 0xd76aa478
    case 1 => 0xe8c7b756
    case 2 => 0x242070db
    case 3 => 0xc1bdceee
    case 4 => 0xf57c0faf
    case 5 => 0x4787c62a
    case 6 => 0xa8304613
    case 7 => 0xfd469501
    case 8 => 0x698098d8
    case 9 => 0x8b44f7af
    case 10 => 0xffff5bb1
    case 11 => 0x895cd7be
    case 12 => 0x6b901122
    case 13 => 0xfd987193
    case 14 => 0xa679438e
    case _ => 0x49b40821
  }

  function Sine2(i: nat): Word
    requires i < 16
  {
    match i
    case 0 => 0xf61e2562
    case 1 => 0xc040b340
    case 2 => 0x265e5a51
    case 3 => 0xe9b6c7aa
    case 4 => 0xd62f105d
    case 5 => 0x02441453
    case 6 => 0xd8a1e681
    case 7 => 0xe7d3fbc8
    case 8 => 0x21e1cde6
    case 9 => 0xc33707d6
    case 10 => 0xf4d50d87
    case 11 => 0x455a14ed
    case 12 => 0xa9e3e905
    case 13 => 0xfcefa3f8
    case 14 => 0x676f02d9
    case _ => 0x8d2a4c8a
  }

  function Sine3(i: nat): Word
    requires i < 16
  {
    match i
    case 0 => 0xfffa3942
    case 1 => 0x8771f681
    case 2 => 0x6d9d6122
    case 3 => 0xfde5380c
    case 4 => 0xa4beea44
    case 5 => 0x4bdecfa9
    case 6 => 0xf6bb4b60
    case 7 => 0xbebfbc70
    case 8 => 0x289b7ec6
    case 9 => 0xeaa127fa
    case 10 => 0xd4ef3085
    case 11 => 0x04881d05
    case 12 => 0xd9d4d039
    case 13 => 0xe6db99e5
    case 14 => 0x1fa27cf8
    case _ => 0xc4ac5665
  }

  function Sine4(i: nat): Word
    requires i < 16
  {
    match i
    case 0 => 0xf4292244
    case 1 => 0x432aff97
    case 2 => 0xab9423a7
    case 3 => 0xfc93a039
    case 4 => 0x655b59c3
    case 5 => 0x8f0ccc92
    case 6 => 0xffeff47d
    case 7 => 0x85845dd1
    case 8 => 0x6fa87e4f
    case 9 => 0xfe2ce6e0
    case 10 => 0xa3014314
    case 11 => 0x4e0811a1
    case 12 => 0xf7537e82
    case 13 => 0xbd3af235
    case 14 => 0x2ad7d2bb
    case _ => 0xeb86d391
  }

  /** One step, after which the registers change roles: the new value becomes B. */
  function Step(r: Regs, x: seq<Word>, i: nat): Regs
    requires |x| == 16 && i < 64
  {
    Regs(r.d, Mix(r.a, Aux(i, r.b, r.c, r.d), x[WordIndex(i)], Sine(i), Shift(i), r.b), r.b, r.c)
  }

  /** The first n of the 64 steps. */
  function Steps(r: Regs, x: seq<Word>, n: nat): Regs
    requires |x| == 16 && n <= 64
  {
    if n == 0 then r else Step(Steps(r, x, n - 1), x, n - 1)
  }

  function Plus(v: Word, w: Word): Word { v + w }

  function AddRegs(r: Regs, s: Regs): Regs {
    Regs(Plus(r.a, s.a), Plus(r.b, s.b), Plus(r.c, s.c), Plus(r.d, s.d))
  }

  /** Four bytes as a word, low-order byte first. */
  function DecodeWord(b: seq<byte>): Word
    requires |b| == 4
  {
    (b[0] as Word) | ((b[1] as Word) << 8) | ((b[2] as Word) << 16) | ((b[3] as Word) << 24)
  }

  /** Byte k of a word, counted from the low-order end. */
  function Octet(w: Word, k: nat): byte
    requires k < 4
  {
    ((w >> (8 * k)) & 0xff) as byte
  }

  function EncodeWord(w: Word): (b: seq<byte>)
    ensures |b| == 4
  {
    [Octet(w, 0), Octet(w, 1), Octet(w, 2), Octet(w, 3)]
  }

  function DecodeBlock(b: seq<byte>): (x: seq<Word>)
    requires |b| == 64
    ensures |x| == 16
  {
    seq(16, i requires 0 <= i < 16 => DecodeWord(b[4 * i..4 * i + 4]))
  }

  function Compress(r: Regs, block: seq<byte>): Regs
    requires |block| == 64
  {
    AddRegs(r, Steps(r, DecodeBlock(block), 64))
  }

  /** The state after all the 64-byte blocks of m. */
  function Absorb(r: Regs, m: seq<byte>): Regs
    requires |m| % 64 == 0
    decreases |m|
  {
    if |m| == 0 then r else Absorb(Compress(r, m[..64]), m[64..])
  }

  function WordOf(n: u32): Word { n as Word }

  /** The bit length modulo 2^64, low-order word first. */
  function LengthBytes(n: nat): (b: seq<byte>)
    ensures |b| == 8
  {
    EncodeWord(WordOf(8 * n % TWO_32)) + EncodeWord(WordOf(8 * n / TWO_32 % TWO_32))
  }

  /** The least number of zero bytes that brings the length to 56 modulo 64. */
  function ZeroCount(n: nat): (k: nat)
    ensures k < 64 && (n + 1 + k) % 64 == 56
  {
    (119 - n % 64) % 64
  }

  function Pad(m: seq<byte>): seq<byte> {
    m + [0x80] + Zeros(ZeroCount(|m|)) + LengthBytes(|m|)
  }

  lemma PadLength(m: seq<byte>)
    ensures |Pad(m)| == |m| + 1 + ZeroCount(|m|) + 8 && |Pad(m)| % 64 == 0
  {
    hide LengthBytes;
  }

  function Output(r: Regs): seq<byte> {
    EncodeWord(r.a) + EncodeWord(r.b) + EncodeWord(r.c) + EncodeWord(r.d)
  }

  function Digest(m: seq<byte>): seq<byte> {
    PadLength(m);
    Output(Absorb(INIT, Pad(m)))
  }

  /** Absorbing can be split at any block boundary. */
  lemma {:induction false} AbsorbConcat(r: Regs, m: seq<byte>, n: seq<byte>)
    requires |m| % 64 == 0 && |n| % 64 == 0
    ensures Absorb(r, m + n) == Absorb(Absorb(r, m), n)
    decreases |m|
  {
    hide Compress;
    if |m| == 0 {
      assert m + n == n;
    } else {
      assert (m + n)[..64] == m[..64] && (m + n)[64..] == m[64..] + n;
      AbsorbConcat(Compress(r, m[..64]), m[64..], n);
    }
  }

  lemma AbsorbBlock(r: Regs, m: seq<byte>, block: seq<byte>)
    requires |m| % 64 == 0 && |block| == 64
    ensures Absorb(r, m + block) == Compress(Absorb(r, m), block)
  {
    hide Compress;
    AbsorbConcat(r, m, block);
    assert block[..64] == block && block[64..] == [];
  }

  /** Four consecutive steps, after which every register is back in its role. */
  function Quad(r: Regs, x: seq<Word>, i: nat): Regs
    requires |x| == 16 && i + 4 <= 64
  {
    Step(Step(Step(Step(r, x, i), x, i + 1), x, i + 2), x, i + 3)
  }

  lemma StepsQuad(r: Regs, x: seq<Word>, i: nat)
    requires |x| == 16 && i + 4 <= 64
    ensures Steps(r, x, i + 4) == Quad(Steps(r, x, i), x, i)
  {
    hide Step;
    assert Steps(r, x, i + 2) == Step(Steps(r, x, i + 1), x, i + 1);
  }

  /** Eight consecutive steps. */
  lemma StepsEight(r: Regs, x: seq<Word>, i: nat)
    requires |x| == 16 && i + 8 <= 64
    ensures Steps(r, x, i + 8) == Quad(Quad(Steps(r, x, i), x, i), x, i + 4)
  {
    hide Quad, Steps;
    StepsQuad(r, x, i);
    StepsQuad(r, x, i + 4);
  }
}
