/**
 The streaming MD5 of the driver: a context holding a two-word bit counter, four words of
 state and a 64-byte buffer, fed by any number of Update calls and closed by Final.
 */
module Md5 {
  import opened Bytes
  import opened Md5Reference

  /** PADDING is one 0x80 followed by zeros. */
  const PADDING: seq<byte> := [0x80] + Zeros(63)

  function FF(a: Word, b: Word, c: Word, d: Word, x: Word, s: nat, ac: Word): Word
    requires s <= 32
  {
    Mix(a, F(b, c, d), x, ac, s, b)
  }

  function GG(a: Word, b: Word, c: Word, d: Word, x: Word, s: nat, ac: Word): Word
    requires s <= 32
  {
    Mix(a, G(b, c, d), x, ac, s, b)
  }

  function HH(a: Word, b: Word, c: Word, d: Word, x: Word, s: nat, ac: Word): Word
    requires s <= 32
  {
    Mix(a, H(b, c, d), x, ac, s, b)
  }

  function II(a: Word, b: Word, c: Word, d: Word, x: Word, s: nat, ac: Word): Word
    requires s <= 32
  {
    Mix(a, I(b, c, d), x, ac, s, b)
  }

  // The 64 unrolled lines of the transform, eight at a time.  Each group computes the
  // same eight steps of the table-driven definition.

  method Lines1To8(a0: Word, b0: Word, c0: Word, d0: Word, x: seq<Word>)
    returns (a: Word, b: Word, c: Word, d: Word)
    requires |x| == 16
    ensures Regs(a, b, c, d) == Quad(Quad(Regs(a0, b0, c0, d0), x, 0), x, 4)
  {
    hide F, G, H, I, Mix;
    a, b, c, d := a0, b0, c0, d0;
    a := FF(a, b, c, d, x[0], 7, 0xd76aa478);
    d := FF(d, a, b, c, x[1], 12, 0xe8c7b756);
    c := FF(c, d, a, b, x[2], 17, 0x242070db);
    b := FF(b, c, d, a, x[3], 22, 0xc1bdceee);
    assert Quad(Regs(a0, b0, c0, d0), x, 0) == Regs(a, b, c, d);
    a := FF(a, b, c, d, x[4], 7, 0xf57c0faf);
    d := FF(d, a, b, c, x[5], 12, 0x4787c62a);
    c := FF(c, d, a, b, x[6], 17, 0xa8304613);
    b := FF(b, c, d, a, x[7], 22, 0xfd469501);
  }

  method Lines9To16(a0: Word, b0: Word, c0: Word, d0: Word, x: seq<Word>)
    returns (a: Word, b: Word, c: Word, d: Word)
    requires |x| == 16
    ensures Regs(a, b, c, d) == Quad(Quad(Regs(a0, b0, c0, d0), x, 8), x, 12)
  {
    hide F, G, H, I, Mix;
    a, b, c, d := a0, b0, c0, d0;
    a := FF(a, b, c, d, x[8], 7, 0x698098d8);
    d := FF(d, a, b, c, x[9], 12, 0x8b44f7af);
    c := FF(c, d, a, b, x[10], 17, 0xffff5bb1);
    b := FF(b, c, d, a, x[11], 22, 0x895cd7be);
    assert Quad(Regs(a0, b0, c0, d0), x, 8) == Regs(a, b, c, d);
    a := FF(a, b, c, d, x[12], 7, 0x6b901122);
    d := FF(d, a, b, c, x[13], 12, 0xfd987193);
    c := FF(c, d, a, b, x[14], 17, 0xa679438e);
    b := FF(b, c, d, a, x[15], 22, 0x49b40821);
  }

  method Lines17To24(a0: Word, b0: Word, c0: Word, d0: Word, x: seq<Word>)
    returns (a: Word, b: Word, c: Word, d: Word)
    requires |x| == 16
    ensures Regs(a, b, c, d) == Quad(Quad(Regs(a0, b0, c0, d0), x, 16), x, 20)
  {
    hide F, G, H, I, Mix;
    a, b, c, d := a0, b0, c0, d0;
    a := GG(a, b, c, d, x[1], 5, 0xf61e2562);
    d := GG(d, a, b, c, x[6], 9, 0xc040b340);
    c := GG(c, d, a, b, x[11], 14, 0x265e5a51);
    b := GG(b, c, d, a, x[0], 20, 0xe9b6c7aa);
    assert Quad(Regs(a0, b0, c0, d0), x, 16) == Regs(a, b, c, d);
    a := GG(a, b, c, d, x[5], 5, 0xd62f105d);
    d := GG(d, a, b, c, x[10], 9, 0x02441453);
    c := GG(c, d, a, b, x[15], 14, 0xd8a1e681);
    b := GG(b, c, d, a, x[4], 20, 0xe7d3fbc8);
  }

  method Lines25To32(a0: Word, b0: Word, c0: Word, d0: Word, x: seq<Word>)
    returns (a: Word, b: Word, c: Word, d: Word)
    requires |x| == 16
    ensures Regs(a, b, c, d) == Quad(Quad(Regs(a0, b0, c0, d0), x, 24), x, 28)
  {
    hide F, G, H, I, Mix;
    a, b, c, d := a0, b0, c0, d0;
    a := GG(a, b, c, d, x[9], 5, 0x21e1cde6);
    d := GG(d, a, b, c, x[14], 9, 0xc33707d6);
    c := GG(c, d, a, b, x[3], 14, 0xf4d50d87);
    b := GG(b, c, d, a, x[8], 20, 0x455a14ed);
    assert Quad(Regs(a0, b0, c0, d0), x, 24) == Regs(a, b, c, d);
    a := GG(a, b, c, d, x[13], 5, 0xa9e3e905);
    d := GG(d, a, b, c, x[2], 9, 0xfcefa3f8);
    c := GG(c, d, a, b, x[7], 14, 0x676f02d9);
    b := GG(b, c, d, a, x[12], 20, 0x8d2a4c8a);
  }

  method Lines33To40(a0: Word, b0: Word, c0: Word, d0: Word, x: seq<Word>)
    returns (a: Word, b: Word, c: Word, d: Word)
    requires |x| == 16
    ensures Regs(a, b, c, d) == Quad(Quad(Regs(a0, b0, c0, d0), x, 32), x, 36)
  {
    hide F, G, H, I, Mix;
    a, b, c, d := a0, b0, c0, d0;
    a := HH(a, b, c, d, x[5], 4, 0xfffa3942);
    d := HH(d, a, b, c, x[8], 11, 0x8771f681);
    c := HH(c, d, a, b, x[11], 16, 0x6d9d6122);
    b := HH(b, c, d, a, x[14], 23, 0xfde5380c);
    assert Quad(Regs(a0, b0, c0, d0), x, 32) == Regs(a, b, c, d);
    a := HH(a, b, c, d, x[1], 4, 0xa4beea44);
    d := HH(d, a, b, c, x[4], 11, 0x4bdecfa9);
    c := HH(c, d, a, b, x[7], 16, 0xf6bb4b60);
    b := HH(b, c, d, a, x[10], 23, 0xbebfbc70);
  }

  method Lines41To48(a0: Word, b0: Word, c0: Word, d0: Word, x: seq<Word>)
    returns (a: Word, b: Word, c: Word, d: Word)
    requires |x| == 16
    ensures Regs(a, b, c, d) == Quad(Quad(Regs(a0, b0, c0, d0), x, 40), x, 44)
  {
    hide F, G, H, I, Mix;
    a, b, c, d := a0, b0, c0, d0;
    a := HH(a, b, c, d, x[13], 4, 0x289b7ec6);
    d := HH(d, a, b, c, x[0], 11, 0xeaa127fa);
    c := HH(c, d, a, b, x[3], 16, 0xd4ef3085);
    b := HH(b, c, d, a, x[6], 23, 0x04881d05);
    assert Quad(Regs(a0, b0, c0, d0), x, 40) == Regs(a, b, c, d);
    a := HH(a, b, c, d, x[9], 4, 0xd9d4d039);
    d := HH(d, a, b, c, x[12], 11, 0xe6db99e5);
    c := HH(c, d, a, b, x[15], 16, 0x1fa27cf8);
    b := HH(b, c, d, a, x[2], 23, 0xc4ac5665);
  }

  method Lines49To56(a0: Word, b0: Word, c0: Word, d0: Word, x: seq<Word>)
    returns (a: Word, b: Word, c: Word, d: Word)
    requires |x| == 16
    ensures Regs(a, b, c, d) == Quad(Quad(Regs(a0, b0, c0, d0), x, 48), x, 52)
  {
    hide F, G, H, I, Mix;
    a, b, c, d := a0, b0, c0, d0;
    a := II(a, b, c, d, x[0], 6, 0xf4292244);
    d := II(d, a, b, c, x[7], 10, 0x432aff97);
    c := II(c, d, a, b, x[14], 15, 0xab9423a7);
    b := II(b, c, d, a, x[5], 21, 0xfc93a039);
    assert Quad(Regs(a0, b0, c0, d0), x, 48) == Regs(a, b, c, d);
    a := II(a, b, c, d, x[12], 6, 0x655b59c3);
    d := II(d, a, b, c, x[3], 10, 0x8f0ccc92);
    c := II(c, d, a, b, x[10], 15, 0xffeff47d);
    b := II(b, c, d, a, x[1], 21, 0x85845dd1);
  }

  method Lines57To64(a0: Word, b0: Word, c0: Word, d0: Word, x: seq<Word>)
    returns (a: Word, b: Word, c: Word, d: Word)
    requires |x| == 16
    ensures Regs(a, b, c, d) == Quad(Quad(Regs(a0, b0, c0, d0), x, 56), x, 60)
  {
    hide F, G, H, I, Mix;
    a, b, c, d := a0, b0, c0, d0;
    a := II(a, b, c, d, x[8], 6, 0x6fa87e4f);
    d := II(d, a, b, c, x[15], 10, 0xfe2ce6e0);
    c := II(c, d, a, b, x[6], 15, 0xa3014314);
    b := II(b, c, d, a, x[13], 21, 0x4e0811a1);
    assert Quad(Regs(a0, b0, c0, d0), x, 56) == Regs(a, b, c, d);
    a := II(a, b, c, d, x[4], 6, 0xf7537e82);
    d := II(d, a, b, c, x[11], 10, 0xbd3af235);
    c := II(c, d, a, b, x[2], 15, 0x2ad7d2bb);
    b := II(b, c, d, a, x[9], 21, 0xeb86d391);
  }

  /** Decodes the first `len` bytes of `input` into words, low-order byte first. */
  method Decode(output: array<Word>, input: seq<byte>, len: nat)
    requires len % 4 == 0 && len <= |input| && len / 4 <= output.Length
    modifies output
    ensures forall k :: 0 <= k < len / 4 ==> output[k] == DecodeWord(input[4 * k..4 * k + 4])
    ensures forall k :: len / 4 <= k < output.Length ==> output[k] == old(output[k])
  {
    var i, j := 0, 0;
    while j < len
      invariant j == 4 * i <= len
      invariant forall k :: 0 <= k < i ==> output[k] == DecodeWord(input[4 * k..4 * k + 4])
      invariant forall k :: i <= k < output.Length ==> output[k] == old(output[k])
    {
      assert input[4 * i..4 * i + 4] == [input[j], input[j + 1], input[j + 2], input[j + 3]];
      output[i] := (input[j] as Word) | ((input[j + 1] as Word) << 8)
                 | ((input[j + 2] as Word) << 16) | ((input[j + 3] as Word) << 24);
      i := i + 1;
      j := j + 4;
    }
  }

  /** The bytes of a list of words. */
  function EncodeWords(ws: seq<Word>): (b: seq<byte>)
    ensures |b| == 4 * |ws|
  {
    if |ws| == 0 then [] else EncodeWords(ws[..|ws| - 1]) + EncodeWord(ws[|ws| - 1])
  }

  /** Writes the words of `input`, low-order byte first, into the first `len` bytes. */
  method Encode(output: array<byte>, input: seq<Word>, len: nat)
    requires len == 4 * |input| && len <= output.Length
    modifies output
    ensures output[..len] == EncodeWords(input)
    ensures output[len..] == old(output[len..])
  {
    hide Octet;
    var i, j := 0, 0;
    while j < len
      invariant j == 4 * i <= len
      invariant output[..j] == EncodeWords(input[..i])
      invariant output[len..] == old(output[len..])
    {
      ghost var before := output[..j];
      output[j] := Octet(input[i], 0);
      output[j + 1] := Octet(input[i], 1);
      output[j + 2] := Octet(input[i], 2);
      output[j + 3] := Octet(input[i], 3);
      assert output[..j + 4] == before + EncodeWord(input[i]);
      assert input[..i + 1][..i] == input[..i];
      i := i + 1;
      j := j + 4;
    }
    assert input[..i] == input;
  }

  /** The number of bytes waiting in the buffer, as Update reads it off the counter. */
  function BufferIndex(count0: u32): nat {
    count0 / 8 % 64
  }

  /** The block loop of Update keeps its index in 32 bits.  This says that the index never
      passes 2^32 before the loop ends, given the bytes already buffered. */
  predicate IndexFits(index: nat, inputLen: u32)
    requires index < 64
  {
    if index == 0 then inputLen < TWO_32 - 64 else index + inputLen < TWO_32
  }

  /** IndexFits is exact: when it fails, and only then, the loop reaches an index that is
      still inside the input and whose increment no longer fits in 32 bits. */
  lemma IndexFitsExact(index: nat, inputLen: u32)
    requires index < 64
    ensures !IndexFits(index, inputLen) <==>
            exists k: nat :: 64 - index + 64 * k <= inputLen && 64 - index + 64 * k + 64 >= TWO_32
  {
    var k: nat := if index == 0 then (TWO_32 - 128) / 64 else (TWO_32 - 64) / 64;
    assert 64 - index + 64 * k + 64 >= TWO_32;
    if !IndexFits(index, inputLen) {
      assert 64 - index + 64 * k <= inputLen;
    }
  }

  /** The loop index after k rounds of the block loop, as the 32-bit variable holds it. */
  function LoopIndex(index: nat, k: nat): u32
    requires index < 64
  {
    (64 - index + 64 * k) % TWO_32
  }

  /** The loop test with that index, its sum also kept in 32 bits. */
  predicate LoopGoesOn(index: nat, inputLen: u32, k: nat)
    requires index < 64
  {
    (LoopIndex(index, k) + 64) % TWO_32 <= inputLen
  }

  /** Entered at all, the block loop never ends if and only if the guard fails. */
  lemma LoopEndsExactly(index: nat, inputLen: u32)
    requires index < 64 && 64 - index <= inputLen
    ensures IndexFits(index, inputLen) <==> exists k: nat :: !LoopGoesOn(index, inputLen, k)
  {
    if IndexFits(index, inputLen) {
      var k := (inputLen - (64 - index)) / 64;
      NoWrap(index, inputLen, 64 - index + 64 * k);
      assert !LoopGoesOn(index, inputLen, k);
    } else {
      forall k: nat
        ensures LoopGoesOn(index, inputLen, k)
      {
        AlwaysWithin(index, k);
      }
    }
  }

  /** In 32 bits the sum keeps its remainder modulo 64, so it stays index bytes short of the
      end of the range, or a block short of it. */
  lemma AlwaysWithin(index: nat, k: nat)
    requires index < 64
    ensures (LoopIndex(index, k) + 64) % TWO_32 <= if index == 0 then TWO_32 - 64 else TWO_32 - index
  {
    var x := 64 - index + 64 * k;
    var q, r := x / TWO_32, x % TWO_32;
    assert r + index == 64 * (k + 1 - 0x400_0000 * q);
  }

  /** One update of 2^32 - 64 bytes on an empty buffer never returns. */
  lemma LoopExample()
    ensures forall k: nat :: LoopGoesOn(0, 0xffff_ffc0, k)
  {
    LoopEndsExactly(0, 0xffff_ffc0);
  }

  /** The two words of the counter hold 8 * n modulo 2^64. */
  predicate CounterHolds(count0: u32, count1: u32, n: nat) {
    count0 == 8 * n % TWO_32 && count1 == 8 * n / TWO_32 % TWO_32
  }

  class Context {
    var count0: u32
    var count1: u32
    const state: array<Word>
    const buffer: array<byte>
    /** All the bytes fed so far. */
    ghost var message: seq<byte>

    ghost predicate Valid()
      reads this, state, buffer
    {
      && state.Length == 4 && buffer.Length == 64
      && CounterHolds(count0, count1, |message|)
      && Registers() == Absorb(INIT, Whole(message))
      && buffer[..|message| % 64] == Rest(message)
    }

    ghost function Registers(): Regs
      requires state.Length == 4
      reads state
    {
      Regs(state[0], state[1], state[2], state[3])
    }

    constructor ()
      ensures Valid() && message == []
      ensures fresh(state) && fresh(buffer)
    {
      count0, count1 := 0, 0;
      state := new Word[4];
      buffer := new byte[64];
      message := [];
      new;
      state[0] := 0x67452301;
      state[1] := 0xefcdab89;
      state[2] := 0x98badcfe;
      state[3] := 0x10325476;
    }

    /** Folds one 64-byte block into the state. */
    method Transform(block: seq<byte>)
      requires state.Length == 4 && |block| == 64
      modifies state
      ensures Registers() == Compress(old(Registers()), block)
    {
      hide Quad, Step, DecodeWord, Plus;
      var a, b, c, d := state[0], state[1], state[2], state[3];
      ghost var start := Regs(a, b, c, d);
      var words := new Word[64];
      Decode(words, block, 64);
      var x := words[..16];
      assert x == DecodeBlock(block);
      a, b, c, d := Lines1To8(a, b, c, d, x);
      StepsEight(start, x, 0);
      a, b, c, d := Lines9To16(a, b, c, d, x);
      StepsEight(start, x, 8);
      a, b, c, d := Lines17To24(a, b, c, d, x);
      StepsEight(start, x, 16);
      a, b, c, d := Lines25To32(a, b, c, d, x);
      StepsEight(start, x, 24);
      a, b, c, d := Lines33To40(a, b, c, d, x);
      StepsEight(start, x, 32);
      a, b, c, d := Lines41To48(a, b, c, d, x);
      StepsEight(start, x, 40);
      a, b, c, d := Lines49To56(a, b, c, d, x);
      StepsEight(start, x, 48);
      a, b, c, d := Lines57To64(a, b, c, d, x);
      StepsEight(start, x, 56);
      state[0] := Plus(state[0], a);
      state[1] := Plus(state[1], b);
      state[2] := Plus(state[2], c);
      state[3] := Plus(state[3], d);
    }

    /** Adds 8 * inputLen to the two-word counter. */
    method AddLength(inputLen: u32, ghost n: nat)
      requires CounterHolds(count0, count1, n)
      modifies `count0, `count1
      ensures CounterHolds(count0, count1, n + inputLen)
    {
      CounterAdds(n, inputLen);
      count0 := (count0 + inputLen * 8 % TWO_32) % TWO_32;
      if count0 < inputLen * 8 % TWO_32 {
        count1 := (count1 + 1) % TWO_32;
      }
      count1 := (count1 + inputLen / 0x2000_0000) % TWO_32;
    }

    /** The block loop of Update: folds in every whole block of `input` from the given index
        on, and returns the index of the first byte left over. */
    method Blocks(input: seq<byte>, index: nat, ghost m: seq<byte>) returns (i: nat)
      requires state.Length == 4 && index == |m| % 64
      requires 64 - index <= |input| < TWO_32 && IndexFits(index, |input|)
      requires Registers() == Absorb(INIT, Whole(m + input[..64 - index]))
      modifies state
      ensures 0 < i <= |input| < i + 64 && (|m| + i) % 64 == 0
      ensures Registers() == Absorb(INIT, Whole(m + input[..i]))
    {
      hide Compress, Absorb, Whole, IndexFits;
      i := 64 - index;
      while (i + 64) % TWO_32 <= |input|
        invariant 64 - index <= i <= |input| && (i - (64 - index)) % 64 == 0
        invariant Registers() == Absorb(INIT, Whole(m + input[..i]))
        decreases |input| - i
      {
        NoWrap(index, |input|, i);
        WholeBlock(m, input, i);
        Transform(input[i..i + 64]);
        i := i + 64;
      }
      NoWrap(index, |input|, i);
    }

    /** Feeds `input`, whatever is already buffered. */
    method Update(input: seq<byte>)
      requires Valid()
      requires |input| < TWO_32 && IndexFits(|message| % 64, |input|)
      modifies this, state, buffer
      ensures Valid()
      ensures message == old(message) + input
    {
      hide Compress, Absorb, CounterHolds, Whole, Rest, BufferIndex, IndexFits;
      var inputLen := |input|;
      ghost var m0 := message;
      CounterIndex(count0, count1, |m0|);
      var index := BufferIndex(count0);
      var partLen := 64 - index;
      AddLength(inputLen, |m0|);

      var i := 0;
      if inputLen >= partLen {
        FillsBlock(m0, input, partLen);
        CopyInto(buffer, index, input[..partLen]);
        assert buffer[..] == Rest(m0) + input[..partLen];
        Transform(buffer[..]);
        i := Blocks(input, index, m0);
        index := 0;
      }
      CopyInto(buffer, index, input[i..]);
      message := message + input;
      LeftOver(m0, input, i);
      assert CounterHolds(count0, count1, |message|);
      assert buffer[..index + (inputLen - i)] == buffer[..index] + buffer[index..index + (inputLen - i)];
      assert buffer[..|message| % 64] == Rest(message);
    }

    /** Pads, appends the length, and writes the sixteen bytes of the digest. */
    method Final(digest: array<byte>)
      requires Valid() && digest.Length == 16 && digest != buffer
      modifies this, state, buffer, digest
      ensures digest[..] == Digest(old(message))
    {
      hide Absorb, EncodeWord, WordOf, Pad, Output, LengthBytes, Compress;
      ghost var m := message;
      CounterIndex(count0, count1, |m|);
      var index := BufferIndex(count0);
      var padLen := if index < 56 then 56 - index else 120 - index;
      var bits := new byte[8];
      Encode(bits, [WordOf(count0), WordOf(count1)], 8);
      EncodeCounter(count0, count1, |m|);
      assert bits[..] == bits[..8] == LengthBytes(|m|);
      Update(PADDING[..padLen]);
      Update(bits[..]);
      PaddedMessage(m, padLen);
      Encode(digest, state[..], 16);
      assert state[..] == [state[0], state[1], state[2], state[3]];
      EncodeFour(state[0], state[1], state[2], state[3]);
      assert digest[..] == digest[..16];
    }
  }

  // ----- the part of a message already folded into the state, and the part that is not

  function Whole(m: seq<byte>): (w: seq<byte>)
    ensures |w| % 64 == 0
  {
    m[..|m| - |m| % 64]
  }

  function Rest(m: seq<byte>): (r: seq<byte>)
    ensures |r| == |m| % 64
  {
    m[|m| - |m| % 64..]
  }

  /** The counter's low word tells how many bytes are buffered. */
  lemma CounterIndex(count0: u32, count1: u32, n: nat)
    requires CounterHolds(count0, count1, n)
    ensures BufferIndex(count0) == n % 64
  {
  }

  /** The carry of the low word into the high word is what 64-bit addition does. */
  lemma CounterAdds(n: nat, len: u32)
    ensures var lo := (8 * n % TWO_32 + len * 8 % TWO_32) % TWO_32;
            var carry := if lo < len * 8 % TWO_32 then 1 else 0;
            && lo == 8 * (n + len) % TWO_32
            && ((8 * n / TWO_32 % TWO_32 + carry) % TWO_32 + len / 0x2000_0000) % TWO_32
               == 8 * (n + len) / TWO_32 % TWO_32
  {
    var a, b := 8 * n, 8 * len;
    var qa, qb, ra, rb := a / TWO_32, b / TWO_32, a % TWO_32, b % TWO_32;
    assert len / 0x2000_0000 == qb;
    var c := if ra + rb < TWO_32 then 0 else 1;
    assert a + b == (qa + qb + c) * TWO_32 + (ra + rb - c * TWO_32);
    DivModUnique(a + b, qa + qb + c, ra + rb - c * TWO_32);
    ModSum(qa, c, qb);
  }

  lemma DivModUnique(v: nat, q: nat, r: nat)
    requires v == q * TWO_32 + r && r < TWO_32
    ensures v / TWO_32 == q && v % TWO_32 == r
  {
  }

  lemma ModSum(x: nat, c: nat, y: nat)
    ensures ((x % TWO_32 + c) % TWO_32 + y) % TWO_32 == (x + y + c) % TWO_32
  {
  }

  lemma NoWrap(index: nat, inputLen: u32, i: nat)
    requires index < 64 && IndexFits(index, inputLen)
    requires 64 - index <= i <= inputLen && (i - (64 - index)) % 64 == 0
    ensures i + 64 < TWO_32
  {
  }

  lemma FillsBlock(m: seq<byte>, input: seq<byte>, partLen: nat)
    requires partLen == 64 - |m| % 64 <= |input|
    ensures Whole(m + input[..partLen]) == m + input[..partLen] == Whole(m) + (Rest(m) + input[..partLen])
    ensures Absorb(INIT, Whole(m + input[..partLen])) ==
            Compress(Absorb(INIT, Whole(m)), Rest(m) + input[..partLen])
  {
    hide Absorb, Compress;
    var n := m + input[..partLen];
    assert |n| % 64 == 0;
    assert n[..|n|] == n;
    AbsorbBlock(INIT, Whole(m), Rest(m) + input[..partLen]);
  }

  lemma WholeBlock(m: seq<byte>, input: seq<byte>, i: nat)
    requires i + 64 <= |input| && (|m| + i) % 64 == 0
    ensures Absorb(INIT, Whole(m + input[..i + 64])) ==
            Compress(Absorb(INIT, Whole(m + input[..i])), input[i..i + 64])
  {
    hide Absorb, Compress;
    var n := m + input[..i];
    assert m + input[..i + 64] == n + input[i..i + 64];
    assert Whole(n) == n && Whole(n + input[i..i + 64]) == n + input[i..i + 64];
    AbsorbBlock(INIT, n, input[i..i + 64]);
  }

  lemma LeftOver(m: seq<byte>, input: seq<byte>, i: nat)
    requires i <= |input|
    requires if i == 0 then |input| < 64 - |m| % 64 else (|m| + i) % 64 == 0 && |input| < i + 64
    ensures i == 0 ==> Whole(m + input) == Whole(m) && Rest(m + input) == Rest(m) + input
    ensures i > 0 ==> Whole(m + input) == Whole(m + input[..i]) && Rest(m + input) == input[i..]
  {
    var n := m + input;
    if i == 0 {
      assert |n| % 64 == |m| % 64 + |input|;
    } else {
      assert |n| % 64 == |input| - i;
      assert m + input[..i] == n[..|m| + i];
    }
  }

  lemma EncodeCounter(count0: u32, count1: u32, n: nat)
    requires CounterHolds(count0, count1, n)
    ensures EncodeWords([WordOf(count0), WordOf(count1)]) == LengthBytes(n)
  {
  }

  lemma EncodePair(v: Word, w: Word)
    ensures EncodeWords([v, w]) == EncodeWord(v) + EncodeWord(w)
  {
  }

  lemma EncodeFour(a: Word, b: Word, c: Word, d: Word)
    ensures EncodeWords([a, b, c, d]) == Output(Regs(a, b, c, d))
  {
    hide EncodeWord;
    var ws := [a, b, c, d];
    assert ws[..3] == [a, b, c] && [a, b, c][..2] == [a, b];
    EncodePair(a, b);
  }

  lemma PaddedMessage(m: seq<byte>, padLen: nat)
    requires padLen == if |m| % 64 < 56 then 56 - |m| % 64 else 120 - |m| % 64
    ensures m + PADDING[..padLen] + LengthBytes(|m|) == Pad(m)
    ensures Whole(Pad(m)) == Pad(m)
  {
    hide LengthBytes;
    assert padLen == 1 + ZeroCount(|m|);
    assert PADDING[..padLen] == [0x80] + Zeros(ZeroCount(|m|));
  }

  // ----- any split of a message gives the digest of the whole

  /** What Update demands of each piece: that its block index stays within 32 bits. */
  predicate PiecesFit(pieces: seq<seq<byte>>) {
    forall i :: 0 <= i < |pieces| ==>
      |pieces[i]| < TWO_32 && IndexFits(|Concat(pieces[..i])| % 64, |pieces[i]|)
  }

  method DigestOfPieces(pieces: seq<seq<byte>>) returns (digest: seq<byte>)
    requires PiecesFit(pieces)
    ensures digest == Digest(Concat(pieces))
  {
    hide Digest;
    var context := new Context();
    var n := 0;
    while n < |pieces|
      invariant 0 <= n <= |pieces|
      invariant context.Valid() && fresh(context) && fresh(context.state) && fresh(context.buffer)
      invariant context.message == Concat(pieces[..n])
    {
      ConcatLast(pieces, n);
      context.Update(pieces[n]);
      n := n + 1;
    }
    assert pieces[..n] == pieces;
    var out := new byte[16];
    context.Final(out);
    digest := out[..];
  }
}
