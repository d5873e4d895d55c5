/**
 The checksum of transmit headers: an 8-bit register fed one message bit at a time, most
 significant bit first, with the polynomial x^8 + x^2 + x + 1.

 The register is compared with polynomial division over GF(2).  A polynomial is a list of
 bits, highest coefficient first.
 */
module Crc8 {
  import opened Bytes

  // ----- polynomials over GF(2)

  /** The coefficient at position i; zero outside the list. */
  predicate At(p: seq<bool>, i: int) {
    0 <= i < |p| && p[i]
  }

  function Xor(a: seq<bool>, b: seq<bool>): (r: seq<bool>)
    requires |a| == |b|
    ensures |r| == |a|
  {
    seq(|a|, i requires 0 <= i < |a| => a[i] != b[i])
  }

  function Falses(n: nat): (z: seq<bool>)
    ensures |z| == n && forall i :: 0 <= i < n ==> !z[i]
  {
    seq(n, _ => false)
  }

  /** q times x^8 + x^2 + x + 1: the sum of four shifted copies of q. */
  function TimesG(q: seq<bool>): (r: seq<bool>)
    ensures |r| == |q| + 8
  {
    seq(|q| + 8, i => ((At(q, i) != At(q, i - 6)) != At(q, i - 7)) != At(q, i - 8))
  }

  /** m times x^8 is q times the polynomial plus the eight bits r. */
  predicate Divides(m: seq<bool>, q: seq<bool>, r: seq<bool>) {
    |q| == |m| && |r| == 8 && TimesG(q) == Xor(m + Falses(8), Falses(|m|) + r)
  }

  /** r is the remainder of m times x^8. */
  ghost predicate IsRemainder(m: seq<bool>, r: seq<bool>) {
    exists q :: Divides(m, q, r)
  }

  /** A product with leading zeros has a zero factor. */
  lemma {:induction false} ZeroFactor(q: seq<bool>, n: nat)
    requires n <= |q| && forall i :: 0 <= i < n ==> !TimesG(q)[i]
    ensures forall i :: 0 <= i < n ==> !q[i]
  {
    if n > 0 {
      ZeroFactor(q, n - 1);
      assert !TimesG(q)[n - 1];
      assert !At(q, n - 1);
    }
  }

  lemma TimesGLinear(q: seq<bool>, p: seq<bool>, i: nat)
    requires |q| == |p| && i < |q| + 8
    ensures TimesG(Xor(q, p))[i] == (TimesG(q)[i] != TimesG(p)[i])
  {
    var d := Xor(q, p);
    assert forall j: int :: At(d, j) == (At(q, j) != At(p, j));
  }

  /** The bits of a product that leaves the remainder r. */
  lemma ProductBits(m: seq<bool>, q: seq<bool>, r: seq<bool>)
    requires Divides(m, q, r)
    ensures forall i :: 0 <= i < |m| ==> TimesG(q)[i] == m[i]
    ensures forall i :: 0 <= i < 8 ==> TimesG(q)[|m| + i] == r[i]
  {
  }

  lemma ZeroProduct(q: seq<bool>)
    requires forall i :: 0 <= i < |q| ==> !q[i]
    ensures forall i :: 0 <= i < |q| + 8 ==> !TimesG(q)[i]
  {
  }

  /** There is only one remainder. */
  lemma RemainderUnique(m: seq<bool>, r: seq<bool>, s: seq<bool>)
    requires IsRemainder(m, r) && IsRemainder(m, s)
    ensures r == s
  {
    var q :| Divides(m, q, r);
    var p :| Divides(m, p, s);
    ProductBits(m, q, r);
    ProductBits(m, p, s);
    assert |q| == |p| == |m| && |r| == |s| == 8;
    hide Divides, TimesG, Xor;
    var d := Xor(q, p);
    forall i | 0 <= i < |m| ensures !TimesG(d)[i] { TimesGLinear(q, p, i); }
    ZeroFactor(d, |d|);
    ZeroProduct(d);
    forall i | 0 <= i < 8 ensures r[i] == s[i] {
      TimesGLinear(q, p, |m| + i);
    }
  }

  // ----- the register

  /** The bits of a byte, most significant first. */
  function BitsOf(c: byte): (b: seq<bool>)
    ensures |b| == 8
  {
    [c & 0x80 != 0, c & 0x40 != 0, c & 0x20 != 0, c & 0x10 != 0,
     c & 0x08 != 0, c & 0x04 != 0, c & 0x02 != 0, c & 0x01 != 0]
  }

  /** The bits of a buffer, byte after byte. */
  function MessageBits(buffer: seq<byte>): (b: seq<bool>)
    ensures |b| == 8 * |buffer|
  {
    if buffer == [] then [] else MessageBits(buffer[..|buffer| - 1]) + BitsOf(buffer[|buffer| - 1])
  }

  /** The register after one message bit: shifted left, with the polynomial added when the
      bit shifted out and the message bit differ. */
  function ShiftIn(r: seq<bool>, b: bool): (s: seq<bool>)
    requires |r| == 8
    ensures |s| == 8
  {
    var d := r[0] != b;
    [r[1], r[2], r[3], r[4], r[5], r[6] != d, r[7] != d, d]
  }

  function Feed(r: seq<bool>, bits: seq<bool>): (s: seq<bool>)
    requires |r| == 8
    ensures |s| == 8
  {
    if bits == [] then r else ShiftIn(Feed(r, bits[..|bits| - 1]), bits[|bits| - 1])
  }

  lemma {:induction false} FeedConcat(r: seq<bool>, a: seq<bool>, b: seq<bool>)
    requires |r| == 8
    ensures Feed(r, a + b) == Feed(Feed(r, a), b)
  {
    hide ShiftIn;
    if b == [] {
      assert a + b == a;
    } else {
      assert (a + b)[..|a + b| - 1] == a + b[..|b| - 1];
      FeedConcat(r, a, b[..|b| - 1]);
    }
  }

  const ZERO: seq<bool> := [false, false, false, false, false, false, false, false]

  function Checksum(buffer: seq<byte>): (r: seq<bool>)
    ensures |r| == 8
  {
    Feed(ZERO, MessageBits(buffer))
  }

  /** One more quotient bit adds the polynomial at the end of the product. */
  lemma TimesGAppend(q: seq<bool>, d: bool, i: nat)
    requires i < |q| + 9
    ensures TimesG(q + [d])[i] ==
            (At(TimesG(q), i) != (d && (i == |q| || i == |q| + 6 || i == |q| + 7 || i == |q| + 8)))
  {
  }

  /** One more bit: the quotient gains the bit that leaves the register, and the register
      keeps holding the remainder. */
  lemma RemainderStep(m: seq<bool>, q: seq<bool>, r: seq<bool>, b: bool)
    requires Divides(m, q, r)
    ensures Divides(m + [b], q + [r[0] != b], ShiftIn(r, b))
  {
    var n, d, s := |m|, r[0] != b, ShiftIn(r, b);
    var left, right := TimesG(q + [d]), Xor(m + [b] + Falses(8), Falses(n + 1) + s);
    forall i | 0 <= i < n + 9
      ensures left[i] == right[i]
    {
      TimesGAppend(q, d, i);
      assert i < n + 8 ==> TimesG(q)[i] == Xor(m + Falses(8), Falses(n) + r)[i];
      hide TimesG, ShiftIn;
      ShiftInAt(r, b);
      if i > n {
        assert right[i] == s[i - n - 1];
        assert At(TimesG(q), i) == At(r, i - n);
      }
    }
    assert left == right;
  }

  lemma ShiftInAt(r: seq<bool>, b: bool)
    requires |r| == 8
    ensures var d, s := r[0] != b, ShiftIn(r, b);
            forall i :: 0 <= i < 8 ==> s[i] == (At(r, i + 1) != (d && i >= 5))
  {
  }

  lemma {:induction false} FeedIsRemainder(m: seq<bool>)
    ensures IsRemainder(m, Feed(ZERO, m))
  {
    if m == [] {
      assert TimesG([]) == Xor([] + Falses(8), Falses(0) + ZERO);
      assert Divides([], [], ZERO);
    } else {
      hide ShiftIn;
      var n := |m| - 1;
      FeedIsRemainder(m[..n]);
      var q :| Divides(m[..n], q, Feed(ZERO, m[..n]));
      RemainderStep(m[..n], q, Feed(ZERO, m[..n]), m[n]);
      assert m[..n] + [m[n]] == m;
    }
  }

  /** The checksum is the remainder of the message times x^8, and the only one. */
  lemma ChecksumIsRemainder(buffer: seq<byte>, r: seq<bool>)
    ensures IsRemainder(MessageBits(buffer), r) <==> r == Checksum(buffer)
  {
    FeedIsRemainder(MessageBits(buffer));
    if IsRemainder(MessageBits(buffer), r) {
      RemainderUnique(MessageBits(buffer), r, Checksum(buffer));
    }
  }

  /** The driver's loop: two nested loops over a one-byte register. */
  method Crc8Ponl107(buffer: seq<byte>) returns (crc: byte)
    requires |buffer| < 0x1_0000
    ensures BitsOf(crc) == Checksum(buffer)
  {
    hide MessageBits, ShiftIn, BitsOf, Mask;
    crc := 0;
    StartOfMessage();
    if |buffer| == 0 {
      return;
    }
    var k := 0;
    while k < |buffer|
      invariant 0 <= k <= |buffer|
      invariant BitsOf(crc) == Feed(ZERO, MessageBits(buffer[..k]))
    {
      crc := CrcOfByte(crc, buffer[k]);
      NextByte(buffer, k);
      k := k + 1;
    }
    assert buffer[..k] == buffer;
  }

  /** The inner loop: one byte, most significant bit first. */
  method CrcOfByte(start: byte, b: byte) returns (crc: byte)
    ensures BitsOf(crc) == Feed(BitsOf(start), BitsOf(b))
  {
    hide ShiftIn, BitsOf, Mask, Round;
    crc := start;
    var i: byte := 0x80;
    ghost var j := 0;
    MaskSelects(b, 0);
    while i > 0
      invariant 0 <= j <= 8 && i == Mask(j)
      invariant BitsOf(crc) == Feed(BitsOf(start), BitsOf(b)[..j])
      decreases 8 - j
    {
      MaskEnds(j);
      MaskSelects(b, j);
      RoundBits(crc, b & i != 0);
      assert BitsOf(b)[..j + 1][..j] == BitsOf(b)[..j];
      crc := Round(crc, b & i != 0);
      i := i >> 1;
      j := j + 1;
    }
    MaskEnds(j);
    assert BitsOf(b)[..j] == BitsOf(b);
  }

  /** One round of the inner loop on the register byte. */
  function Round(crc: byte, b: bool): byte {
    var shifted := if crc & 0x80 != 0 then (crc << 1) ^ 0x07 else crc << 1;
    if b then shifted ^ 0x07 else shifted
  }

  lemma RoundBits(crc: byte, b: bool)
    ensures BitsOf(Round(crc, b)) == ShiftIn(BitsOf(crc), b)
  {
  }

  /** The bit that the inner loop's mask selects in its round j. */
  function Mask(j: nat): byte
    requires j <= 8
  {
    match j
    case 0 => 0x80 case 1 => 0x40 case 2 => 0x20 case 3 => 0x10
    case 4 => 0x08 case 5 => 0x04 case 6 => 0x02 case 7 => 0x01
    case _ => 0
  }

  lemma MaskSelects(b: byte, j: nat)
    requires j < 8
    ensures BitsOf(b)[j] == (b & Mask(j) != 0)
    ensures Mask(0) == 0x80 && Mask(j) >> 1 == Mask(j + 1)
  {
  }

  lemma MaskEnds(j: nat)
    requires j <= 8
    ensures Mask(j) > 0 <==> j < 8
  {
  }

  lemma StartOfMessage()
    ensures BitsOf(0) == ZERO && MessageBits([]) == [] && Feed(ZERO, []) == ZERO
    ensures forall buffer: seq<byte> :: buffer[..0] == []
  {
  }

  lemma NextByte(buffer: seq<byte>, k: nat)
    requires k < |buffer|
    ensures Feed(Feed(ZERO, MessageBits(buffer[..k])), BitsOf(buffer[k])) == Feed(ZERO, MessageBits(buffer[..k + 1]))
  {
    hide ShiftIn, Feed, BitsOf;
    assert buffer[..k + 1][..k] == buffer[..k];
    FeedConcat(ZERO, MessageBits(buffer[..k]), BitsOf(buffer[k]));
  }

  // ----- what the checksum detects

  lemma ShiftInLinear(r: seq<bool>, s: seq<bool>, a: bool, b: bool)
    requires |r| == |s| == 8
    ensures ShiftIn(Xor(r, s), a != b) == Xor(ShiftIn(r, a), ShiftIn(s, b))
  {
    hide ShiftIn;
    ShiftInAt(r, a);
    ShiftInAt(s, b);
    ShiftInAt(Xor(r, s), a != b);
  }

  lemma {:induction false} FeedLinear(r: seq<bool>, s: seq<bool>, a: seq<bool>, b: seq<bool>)
    requires |a| == |b| && |r| == |s| == 8
    ensures Feed(Xor(r, s), Xor(a, b)) == Xor(Feed(r, a), Feed(s, b))
  {
    if a != [] {
      hide ShiftIn;
      var n := |a| - 1;
      assert Xor(a, b)[..n] == Xor(a[..n], b[..n]);
      FeedLinear(r, s, a[..n], b[..n]);
      ShiftInLinear(Feed(r, a[..n]), Feed(s, b[..n]), a[n], b[n]);
    }
  }

  function XorByte(c: byte, d: byte): byte { c ^ d }

  function XorBytes(a: seq<byte>, b: seq<byte>): (r: seq<byte>)
    requires |a| == |b|
    ensures |r| == |a|
  {
    seq(|a|, i requires 0 <= i < |a| => XorByte(a[i], b[i]))
  }

  lemma XorBits(c: byte, d: byte)
    ensures var r, s := BitsOf(c), BitsOf(d);
            BitsOf(XorByte(c, d)) == [r[0] != s[0], r[1] != s[1], r[2] != s[2], r[3] != s[3],
                              r[4] != s[4], r[5] != s[5], r[6] != s[6], r[7] != s[7]]
  {
  }

  lemma XorByteBits(c: byte, d: byte)
    ensures BitsOf(XorByte(c, d)) == Xor(BitsOf(c), BitsOf(d))
  {
    hide BitsOf, XorByte;
    XorBits(c, d);
  }

  lemma XorConcat(a: seq<bool>, b: seq<bool>, c: seq<bool>, d: seq<bool>)
    requires |a| == |b| && |c| == |d|
    ensures Xor(a + c, b + d) == Xor(a, b) + Xor(c, d)
  {
  }

  lemma {:induction false} XorMessage(a: seq<byte>, b: seq<byte>)
    requires |a| == |b|
    ensures MessageBits(XorBytes(a, b)) == Xor(MessageBits(a), MessageBits(b))
  {
    hide BitsOf, XorByte;
    if a != [] {
      var n := |a| - 1;
      assert XorBytes(a, b)[..n] == XorBytes(a[..n], b[..n]);
      XorMessage(a[..n], b[..n]);
      hide Xor;
      XorByteBits(a[n], b[n]);
      XorConcat(MessageBits(a[..n]), MessageBits(b[..n]), BitsOf(a[n]), BitsOf(b[n]));
    }
  }

  /** Buffers of one length: the checksum of the exclusive or is that of the checksums. */
  lemma ChecksumLinear(a: seq<byte>, b: seq<byte>)
    requires |a| == |b|
    ensures Checksum(XorBytes(a, b)) == Xor(Checksum(a), Checksum(b))
  {
    hide ShiftIn, BitsOf;
    XorMessage(a, b);
    FeedLinear(ZERO, ZERO, MessageBits(a), MessageBits(b));
    assert Xor(ZERO, ZERO) == ZERO;
  }

  /** A message followed by its checksum has checksum 0. */
  lemma ResidueIsZero(buffer: seq<byte>, crc: byte)
    requires BitsOf(crc) == Checksum(buffer)
    ensures Checksum(buffer + [crc]) == ZERO
  {
    hide ShiftIn, BitsOf;
    assert (buffer + [crc])[..|buffer|] == buffer;
    FeedConcat(ZERO, MessageBits(buffer), BitsOf(crc));
    FeedItself(BitsOf(crc));
  }

  lemma FeedLast(r: seq<bool>, b: seq<bool>, k: nat)
    requires |r| == 8 && k < |b|
    ensures Feed(r, b[..k + 1]) == ShiftIn(Feed(r, b[..k]), b[k])
  {
    hide ShiftIn;
    assert b[..k + 1][..k] == b[..k];
  }

  /** Feeding the register its own bits shifts it out: after k of them, the rest stays. */
  lemma {:induction false} FeedPrefix(r: seq<bool>, k: nat)
    requires |r| == 8 && k <= 8
    ensures Feed(r, r[..k]) == r[k..] + Falses(k)
  {
    if k == 0 {
      assert r[..0] == [] && r[0..] + Falses(0) == r;
    } else {
      hide ShiftIn;
      FeedPrefix(r, k - 1);
      FeedLast(r, r, k - 1);
      var t := r[k - 1..] + Falses(k - 1);
      ShiftInAt(t, r[k - 1]);
      var u := r[k..] + Falses(k);
      forall i | 0 <= i < 8
        ensures ShiftIn(t, r[k - 1])[i] == u[i]
      {
        assert u[i] == At(t, i + 1);
      }
      assert ShiftIn(t, r[k - 1]) == u;
    }
  }

  lemma FeedItself(r: seq<bool>)
    requires |r| == 8
    ensures Feed(r, r) == ZERO
  {
    FeedPrefix(r, 8);
    assert r[..8] == r && r[8..] + Falses(8) == ZERO;
  }

  predicate Parity(bits: seq<bool>) {
    if bits == [] then false else Parity(bits[..|bits| - 1]) != bits[|bits| - 1]
  }

  /** The checksum has the parity of the message. */
  lemma {:induction false} ParityKept(m: seq<bool>)
    ensures Parity(Feed(ZERO, m)) == Parity(m)
  {
    if m == [] {
      ParityEight(ZERO);
    } else {
      hide ShiftIn;
      var n := |m| - 1;
      ParityKept(m[..n]);
      ParityStep(Feed(ZERO, m[..n]), m[n]);
    }
  }

  lemma ParityLast(r: seq<bool>, k: nat)
    requires k < |r|
    ensures Parity(r[..k + 1]) == (Parity(r[..k]) != r[k])
  {
    assert r[..k + 1][..k] == r[..k];
  }

  lemma ParityEight(r: seq<bool>)
    requires |r| == 8
    ensures Parity(r) == (((((((r[0] != r[1]) != r[2]) != r[3]) != r[4]) != r[5]) != r[6]) != r[7])
  {
    assert !Parity(r[..0]);
    hide Parity;
    ParityLast(r, 0);
    ParityLast(r, 1);
    ParityLast(r, 2);
    ParityLast(r, 3);
    ParityLast(r, 4);
    ParityLast(r, 5);
    ParityLast(r, 6);
    ParityLast(r, 7);
    assert r[..8] == r;
  }

  lemma ParityStep(r: seq<bool>, b: bool)
    requires |r| == 8
    ensures Parity(ShiftIn(r, b)) == (Parity(r) != b)
  {
    var s := ShiftIn(r, b);
    ParityEight(r);
    ParityEight(s);
    assert s[0] == r[1] && s[1] == r[2] && s[2] == r[3] && s[3] == r[4] && s[4] == r[5];
    assert s[5] == (r[6] != s[7]) && s[6] == (r[7] != s[7]) && s[7] == (r[0] != b);
  }

  lemma ChecksumParity(buffer: seq<byte>)
    ensures Parity(Checksum(buffer)) == Parity(MessageBits(buffer))
  {
    ParityKept(MessageBits(buffer));
  }

  lemma {:induction false} ZerosKeepZero(n: nat)
    ensures Feed(ZERO, Falses(n)) == ZERO
  {
    if n > 0 {
      assert Falses(n)[..n - 1] == Falses(n - 1);
      ZerosKeepZero(n - 1);
    }
  }

  lemma {:induction false} ZerosKeepNonzero(r: seq<bool>, n: nat)
    requires |r| == 8 && r != ZERO
    ensures Feed(r, Falses(n)) != ZERO
  {
    if n > 0 {
      hide ShiftIn;
      assert Falses(n)[..n - 1] == Falses(n - 1);
      ZerosKeepNonzero(r, n - 1);
      if Feed(r, Falses(n)) == ZERO {
        ZeroBitInjective(Feed(r, Falses(n - 1)));
      }
    }
  }

  lemma ZeroBitInjective(r: seq<bool>)
    requires |r| == 8 && ShiftIn(r, false) == ZERO
    ensures r == ZERO
  {
  }

  /** A product of an eight-bit factor whose low eight bits are zero is zero. */
  lemma {:induction false} LowBitsZero(q: seq<bool>, k: nat)
    requires |q| == 8 && k <= 8 && forall i :: 8 <= i < 16 ==> !TimesG(q)[i]
    ensures forall i :: 8 - k <= i < 8 ==> !q[i]
  {
    if k > 0 {
      LowBitsZero(q, k - 1);
      assert !TimesG(q)[16 - k];
      assert !At(q, 8 - k);
    }
  }

  /** Eight bits, not all zero, leave the zero register non-zero. */
  lemma EightBitsShow(b: seq<bool>)
    requires |b| == 8 && Feed(ZERO, b) == ZERO
    ensures forall i :: 0 <= i < 8 ==> !b[i]
  {
    hide ShiftIn, Feed;
    FeedIsRemainder(b);
    var q :| Divides(b, q, ZERO);
    var product := Xor(b + Falses(8), Falses(8) + ZERO);
    assert forall i :: 8 <= i < 16 ==> !product[i];
    LowBitsZero(q, 8);
    forall i | 0 <= i < 8 ensures !b[i] {
      assert product[i] == b[i];
    }
  }

  /** The two messages agree outside a window of at most eight bits. */
  predicate Burst(m: seq<bool>, n: seq<bool>, at: nat, len: nat) {
    |m| == |n| && len <= 8 && at + len <= |m|
    && forall i :: 0 <= i < |m| && !(at <= i < at + len) ==> m[i] == n[i]
  }

  /** A difference confined to eight bits leaves the zero register non-zero. */
  lemma WindowShows(e: seq<bool>, at: nat, len: nat)
    requires len <= 8 && at + len <= |e| && Feed(ZERO, e) == ZERO
    requires forall i :: 0 <= i < |e| && !(at <= i < at + len) ==> !e[i]
    ensures forall i :: 0 <= i < |e| ==> !e[i]
  {
    hide ShiftIn, Feed;
    var window := e[at..at + len];
    assert e == Falses(at) + window + Falses(|e| - at - len);
    FeedConcat(ZERO, Falses(at) + window, Falses(|e| - at - len));
    FeedConcat(ZERO, Falses(at), window);
    ZerosKeepZero(at);
    if Feed(ZERO, window) != ZERO {
      ZerosKeepNonzero(Feed(ZERO, window), |e| - at - len);
    }
    FeedConcat(ZERO, Falses(8 - len), window);
    ZerosKeepZero(8 - len);
    var padded := Falses(8 - len) + window;
    EightBitsShow(padded);
    forall i | at <= i < at + len ensures !e[i] {
      assert e[i] == window[i - at] == padded[8 - len + i - at];
    }
  }

  /** A burst of at most eight bits always changes the checksum. */
  lemma BurstDetected(a: seq<byte>, b: seq<byte>, at: nat, len: nat)
    requires Burst(MessageBits(a), MessageBits(b), at, len) && a != b
    ensures Checksum(a) != Checksum(b)
  {
    hide ShiftIn, BitsOf, MessageBits, Feed;
    var m, n := MessageBits(a), MessageBits(b);
    if Checksum(a) == Checksum(b) {
      var e := Xor(m, n);
      FeedLinear(ZERO, ZERO, m, n);
      assert Xor(ZERO, ZERO) == ZERO && Xor(Checksum(a), Checksum(b)) == ZERO;
      WindowShows(e, at, len);
      forall i | 0 <= i < |m| ensures m[i] == n[i] { assert !e[i]; }
      BitsInjective(a, b);
      assert false;
    }
  }

  lemma {:induction false} BitsInjective(a: seq<byte>, b: seq<byte>)
    requires MessageBits(a) == MessageBits(b)
    ensures a == b
  {
    hide BitsOf;
    if a != [] {
      var n := |a| - 1;
      assert |a| == |b|;
      assert MessageBits(a[..n]) == MessageBits(a)[..8 * n] == MessageBits(b[..n]);
      assert BitsOf(a[n]) == MessageBits(a)[8 * n..] == BitsOf(b[n]);
      BitsInjective(a[..n], b[..n]);
      ByteInjective(a[n], b[n]);
      assert a == a[..n] + [a[n]] && b == b[..n] + [b[n]];
    }
  }

  lemma ByteInjective(c: byte, d: byte)
    requires BitsOf(c) == BitsOf(d)
    ensures c == d
  {
  }

  /** The polynomial itself: x^8 leaves x^2 + x + 1. */
  lemma ChecksumOfOne()
    ensures Checksum([1]) == [false, false, false, false, false, true, true, true]
  {
    assert [1 as byte][..0] == [];
    assert MessageBits([1]) == [] + BitsOf(1);
    assert BitsOf(1) == [false, false, false, false, false, false, false, true];
    FeedLast(ZERO, BitsOf(1), 7);
    assert BitsOf(1)[..7] == Falses(7) && BitsOf(1)[..8] == BitsOf(1);
    assert [] + BitsOf(1) == BitsOf(1);
    ZerosKeepZero(7);
    assert ShiftIn(ZERO, true) == [false, false, false, false, false, true, true, true];
  }
}
