/**
 The layout of a transmit aggregate: each frame has a four-byte header and is padded to a
 multiple of four; unless the frames fill whole 512-byte blocks exactly, a zero header
 follows; the transfer is rounded up to whole blocks, over whatever the buffer held before.
 */
module TxFraming {
  import opened Bytes
  import Crc8

  const TXPKT_BLOCKSIZE: nat := 512
  const TAIL_LEN: nat := 4

  /** The chips differ in what the length field counts and in the fourth header byte. */
  datatype Chip = Aic8801 | Aic8800DC | Aic8800DW | Aic8800D80

  function RoundUpBlock(n: nat): (r: nat)
    ensures n <= r < n + TXPKT_BLOCKSIZE && r % TXPKT_BLOCKSIZE == 0
    ensures n % TXPKT_BLOCKSIZE == 0 ==> r == n
  {
    (n + TXPKT_BLOCKSIZE - 1) / TXPKT_BLOCKSIZE * TXPKT_BLOCKSIZE
  }

  // ----- one frame

  /** The twelve-bit length field. */
  function LowByte(n: nat): byte { ToByte(n % 256) }

  function HighBits(n: nat): byte { ToByte(n / 256 % 16) }

  /** What the length field counts: the padding too, except on the AIC8800D80. */
  function Counted(chip: Chip, n: nat): nat {
    if chip == Aic8800D80 then n else RoundUp4(n)
  }

  /** The number of bytes a frame with n bytes of content takes in the aggregate. */
  function FrameSize(n: nat): (size: nat)
    ensures size % 4 == 0 && size >= 4
  {
    4 + RoundUp4(n)
  }

  predicate IsHeader(chip: Chip, n: nat, h: seq<byte>) {
    && |h| == 4
    && h[0] == LowByte(Counted(chip, n)) && h[1] == HighBits(Counted(chip, n)) && h[2] == 0x01
    && if chip == Aic8800D80 then Crc8.BitsOf(h[3]) == Crc8.Checksum(h[..3]) else h[3] == 0
  }

  /** The bytes of one frame in the aggregate. */
  predicate IsFrame(chip: Chip, content: seq<byte>, f: seq<byte>) {
    && |f| == FrameSize(|content|)
    && IsHeader(chip, |content|, f[..4])
    && f[4..] == content + Zeros(RoundUp4(|content|) - |content|)
  }

  // ----- the reader

  function FieldOf(h: seq<byte>): (n: nat)
    requires |h| >= 2
  {
    (h[0] as nat) + 256 * ((h[1] as nat) % 16)
  }

  /** The length field carries a length exactly up to twelve bits. */
  lemma FieldExact(n: nat)
    ensures FieldOf([LowByte(n), HighBits(n)]) == n % 4096
    ensures FieldOf([LowByte(n), HighBits(n)]) == n <==> n < 4096
  {
    hide ToByte;
    ByteRoundTrip(n % 256);
    ByteRoundTrip(n / 256 % 16);
    assert n / 4096 == n / 256 / 16;
  }

  function ToByte(n: nat): byte
    requires n < 256
  {
    n as byte
  }

  lemma ByteRoundTrip(n: nat)
    requires n < 256
    ensures ToByte(n) as nat == n
  {
    hide ToByte, Weight;
    BitSum(n);
    WeightOf(n % 2, n / 2 % 2, n / 4 % 2, n / 8 % 2, n / 16 % 2, n / 32 % 2, n / 64 % 2, n / 128 % 2);
    ByteAgain(FromBits(n % 2 == 1, n / 2 % 2 == 1, n / 4 % 2 == 1, n / 8 % 2 == 1,
                       n / 16 % 2 == 1, n / 32 % 2 == 1, n / 64 % 2 == 1, n / 128 % 2 == 1));
  }

  lemma ByteAgain(b: byte)
    ensures ToByte(b as nat) == b
  {
  }

  function Weight(b0: bool, b1: bool, b2: bool, b3: bool, b4: bool, b5: bool, b6: bool, b7: bool): nat {
    (if b0 then 1 else 0) + (if b1 then 2 else 0) + (if b2 then 4 else 0) + (if b3 then 8 else 0)
    + (if b4 then 16 else 0) + (if b5 then 32 else 0) + (if b6 then 64 else 0) + (if b7 then 128 else 0)
  }

  function FromBits(b0: bool, b1: bool, b2: bool, b3: bool, b4: bool, b5: bool, b6: bool, b7: bool): (b: byte)
    ensures b as nat == Weight(b0, b1, b2, b3, b4, b5, b6, b7)
  {
    (if b0 then 1 else 0) | (if b1 then 2 else 0) | (if b2 then 4 else 0) | (if b3 then 8 else 0)
    | (if b4 then 16 else 0) | (if b5 then 32 else 0) | (if b6 then 64 else 0) | (if b7 then 128 else 0)
  }

  lemma WeightOf(a0: nat, a1: nat, a2: nat, a3: nat, a4: nat, a5: nat, a6: nat, a7: nat)
    requires a0 < 2 && a1 < 2 && a2 < 2 && a3 < 2 && a4 < 2 && a5 < 2 && a6 < 2 && a7 < 2
    ensures Weight(a0 == 1, a1 == 1, a2 == 1, a3 == 1, a4 == 1, a5 == 1, a6 == 1, a7 == 1)
            == a0 + 2 * a1 + 4 * a2 + 8 * a3 + 16 * a4 + 32 * a5 + 64 * a6 + 128 * a7
  {
  }

  lemma BitSum(n: nat)
    requires n < 256
    ensures n == n % 2 + 2 * (n / 2 % 2) + 4 * (n / 4 % 2) + 8 * (n / 8 % 2)
                 + 16 * (n / 16 % 2) + 32 * (n / 32 % 2) + 64 * (n / 64 % 2) + 128 * (n / 128 % 2)
  {
    assert n / 4 == n / 2 / 2 && n / 8 == n / 4 / 2 && n / 16 == n / 8 / 2;
    assert n / 32 == n / 16 / 2 && n / 64 == n / 32 / 2 && n / 128 == n / 64 / 2;
  }

  /** The reader finds whole frames until a zero header or the end. */
  predicate Readable(b: seq<byte>)
    decreases |b|
  {
    b == [] ||
    (|b| >= 4 &&
     (FieldOf(b) == 0 || (FrameSize(FieldOf(b)) <= |b| && Readable(b[FrameSize(FieldOf(b))..]))))
  }

  /** The reader walks the headers, rounding each length up to four. */
  function ReadFrames(b: seq<byte>): seq<seq<byte>>
    requires Readable(b)
    decreases |b|
  {
    if b == [] || FieldOf(b) == 0 then []
    else [b[4..4 + FieldOf(b)]] + ReadFrames(b[FrameSize(FieldOf(b))..])
  }

  /** What the reader should get for a frame: the content, with its padding where the length
      counts it. */
  function Received(chip: Chip, content: seq<byte>): seq<byte> {
    content + Zeros(Counted(chip, |content|) - |content|)
  }

  function AllReceived(chip: Chip, contents: seq<seq<byte>>): seq<seq<byte>> {
    seq(|contents|, i requires 0 <= i < |contents| => Received(chip, contents[i]))
  }

  /** A frame the header can describe. */
  predicate Describable(chip: Chip, content: seq<byte>) {
    0 < |content| && Counted(chip, |content|) < 4096
  }

  predicate AreFrames(chip: Chip, contents: seq<seq<byte>>, frames: seq<seq<byte>>) {
    |frames| == |contents| && forall i :: 0 <= i < |contents| ==> IsFrame(chip, contents[i], frames[i])
  }

  /** Where the reader stops: at the end, or at a zero header with anything after it. */
  predicate Stops(rest: seq<byte>) {
    rest == [] || (|rest| >= 4 && rest[0] == 0 && rest[1] == 0)
  }

  lemma ReadOne(chip: Chip, content: seq<byte>, f: seq<byte>, rest: seq<byte>)
    requires IsFrame(chip, content, f) && Describable(chip, content)
    ensures var b := f + rest;
            && |b| >= 4 && FieldOf(b) == Counted(chip, |content|) > 0
            && FrameSize(FieldOf(b)) == |f| && b[|f|..] == rest
            && b[4..4 + FieldOf(b)] == Received(chip, content)
  {
    hide RoundUp4;
    var b, n := f + rest, Counted(chip, |content|);
    FieldExact(n);
    FieldPrefix(b, [LowByte(n), HighBits(n)]) by {
      assert b[0] == f[..4][0] && b[1] == f[..4][1];
    }
    RoundTwice(|content|);
    assert b[4..4 + n] == f[4..4 + n] == f[4..][..n];
  }

  lemma FieldPrefix(b: seq<byte>, h: seq<byte>)
    requires |b| >= 2 && |h| == 2 && b[0] == h[0] && b[1] == h[1]
    ensures FieldOf(b) == FieldOf(h)
  {
  }

  lemma RoundTwice(n: nat)
    ensures RoundUp4(RoundUp4(n)) == RoundUp4(n)
  {
  }

  lemma ReadOn(chip: Chip, content: seq<byte>, f: seq<byte>, rest: seq<byte>)
    requires IsFrame(chip, content, f) && Describable(chip, content)
    ensures Readable(f + rest) <==> Readable(rest)
    ensures Readable(rest) ==> ReadFrames(f + rest) == [Received(chip, content)] + ReadFrames(rest)
  {
    hide IsFrame, Describable, Received, FrameSize, FieldOf;
    ReadOne(chip, content, f, rest);
  }

  /** Whatever is read has a length that the header can describe. */
  lemma {:induction false} ReadLengths(b: seq<byte>)
    requires Readable(b)
    ensures forall i :: 0 <= i < |ReadFrames(b)| ==> 0 < |ReadFrames(b)[i]| < 4096
    decreases |b|
  {
    hide FrameSize;
    if b != [] && FieldOf(b) != 0 {
      FrameSizeHolds(FieldOf(b));
      ReadLengths(b[FrameSize(FieldOf(b))..]);
    }
  }

  lemma FrameSizeHolds(n: nat)
    ensures FrameSize(n) >= 4 + n
  {
  }

  /** What the reader should get tells whether the header can describe it. */
  lemma DescribableLength(chip: Chip, content: seq<byte>)
    ensures Describable(chip, content) <==> 0 < |Received(chip, content)| < 4096
  {
  }

  /** Whatever follows the frames, as long as it stops the reader, the reader gets exactly
      the frames if and only if the header can describe each. */
  lemma {:induction false} ReaderGetsFrames(chip: Chip, contents: seq<seq<byte>>, frames: seq<seq<byte>>, rest: seq<byte>)
    requires AreFrames(chip, contents, frames) && Stops(rest)
    ensures (forall i :: 0 <= i < |contents| ==> Describable(chip, contents[i])) <==>
            Readable(Concat(frames) + rest) && ReadFrames(Concat(frames) + rest) == AllReceived(chip, contents)
    decreases |frames|
  {
    hide IsFrame, Describable, Received, Readable, ReadFrames;
    if frames == [] {
      assert Concat(frames) + rest == rest;
      StopsReading(rest);
    } else {
      ConcatFirst(frames);
      var b := Concat(frames[1..]) + rest;
      assert Concat(frames) + rest == frames[0] + b;
      assert AllReceived(chip, contents) == [Received(chip, contents[0])] + AllReceived(chip, contents[1..]);
      if Describable(chip, contents[0]) {
        ReadOn(chip, contents[0], frames[0], b);
        ReaderGetsFrames(chip, contents[1..], frames[1..], rest);
        SameHead(Received(chip, contents[0]), if Readable(b) then ReadFrames(b) else [], AllReceived(chip, contents[1..]));
      } else {
        DescribableLength(chip, contents[0]);
        assert AllReceived(chip, contents)[0] == Received(chip, contents[0]);
        if Readable(frames[0] + b) { ReadLengths(frames[0] + b); }
      }
    }
  }

  lemma SameHead(x: seq<byte>, a: seq<seq<byte>>, b: seq<seq<byte>>)
    ensures [x] + a == [x] + b <==> a == b
  {
    assert ([x] + a)[1..] == a && ([x] + b)[1..] == b;
  }

  /** A frame of 4096 bytes reads as a zero header: the reader stops at it, whatever follows. */
  lemma FieldExample(content: seq<byte>, f: seq<byte>, rest: seq<byte>)
    requires |content| == 4096 && IsFrame(Aic8801, content, f)
    ensures Readable(f + rest) && ReadFrames(f + rest) == []
  {
    var b, n := f + rest, Counted(Aic8801, |content|);
    FieldExact(n);
    FieldPrefix(b, [LowByte(n), HighBits(n)]) by {
      assert b[0] == f[..4][0] && b[1] == f[..4][1];
    }
  }

  // ----- blocks

  /** A block that carries these contents: their frames, and then something that stops the
      reader, up to whole 512-byte blocks. */
  ghost predicate IsBlock(chip: Chip, contents: seq<seq<byte>>, block: seq<byte>) {
    && |block| % TXPKT_BLOCKSIZE == 0
    && exists frames, rest :: CarriedBy(chip, contents, frames, rest, block)
  }

  predicate CarriedBy(chip: Chip, contents: seq<seq<byte>>, frames: seq<seq<byte>>, rest: seq<byte>, block: seq<byte>) {
    AreFrames(chip, contents, frames) && Stops(rest) && block == Concat(frames) + rest
  }

  lemma BlockReadsBack(chip: Chip, contents: seq<seq<byte>>, block: seq<byte>)
    requires IsBlock(chip, contents, block)
    ensures (forall i :: 0 <= i < |contents| ==> Describable(chip, contents[i])) <==>
            Readable(block) && ReadFrames(block) == AllReceived(chip, contents)
  {
    hide AreFrames, Readable, ReadFrames, AllReceived, Describable, Stops, Concat;
    var frames, rest :| CarriedBy(chip, contents, frames, rest, block);
    ReaderGetsFrames(chip, contents, frames, rest);
  }

  /** What a reader gets from some blocks, one after the other. */
  function ReadAll(blocks: seq<seq<byte>>): seq<seq<byte>>
    requires forall i :: 0 <= i < |blocks| ==> Readable(blocks[i])
  {
    if blocks == [] then [] else ReadAll(blocks[..|blocks| - 1]) + ReadFrames(blocks[|blocks| - 1])
  }

  lemma {:induction false} ReadAllLengths(blocks: seq<seq<byte>>)
    requires forall i :: 0 <= i < |blocks| ==> Readable(blocks[i])
    ensures forall i :: 0 <= i < |ReadAll(blocks)| ==> 0 < |ReadAll(blocks)[i]| < 4096
  {
    if blocks != [] {
      hide Readable, ReadFrames;
      ReadAllLengths(blocks[..|blocks| - 1]);
      ReadLengths(blocks[|blocks| - 1]);
    }
  }

  lemma StopsReading(rest: seq<byte>)
    requires Stops(rest)
    ensures Readable(rest) && ReadFrames(rest) == []
  {
  }

  /** The header of an AIC8800D80 frame has checksum 0 as a whole, and any burst of at most
      eight bits within it shows. */
  lemma HeaderProtected(n: nat, h: seq<byte>, damaged: seq<byte>, at: nat, len: nat)
    requires IsHeader(Aic8800D80, n, h)
    requires Crc8.Burst(Crc8.MessageBits(h), Crc8.MessageBits(damaged), at, len) && damaged != h
    ensures Crc8.Checksum(h) == Crc8.ZERO != Crc8.Checksum(damaged)
  {
    hide Crc8.Checksum, Crc8.Burst;
    Crc8.ResidueIsZero(h[..3], h[3]);
    assert h[..3] + [h[3]] == h;
    Crc8.BurstDetected(h, damaged, at, len);
  }

  // ----- the aggregate buffer

  class AggrBuffer {
    const chip: Chip
    const buf: array<byte>
    /** The first free byte. */
    var tail: nat
    /** The number of frames. */
    var count: nat
    ghost var contents: seq<seq<byte>>
    ghost var frames: seq<seq<byte>>

    ghost predicate Valid()
      reads this, buf
    {
      && buf.Length % TXPKT_BLOCKSIZE == 0 && tail <= buf.Length && tail % 4 == 0
      && AreFrames(chip, contents, frames) && count == |contents|
      && buf[..tail] == Concat(frames)
    }

    constructor (chip: Chip, blocks: nat)
      ensures Valid() && contents == [] && tail == 0 && fresh(buf)
      ensures this.chip == chip && buf.Length == TXPKT_BLOCKSIZE * blocks
    {
      this.chip := chip;
      buf := new byte[TXPKT_BLOCKSIZE * blocks];
      tail, count := 0, 0;
      contents, frames := [], [];
    }

    /** Copies some bytes to the tail. */
    method Put(data: seq<byte>)
      requires tail + |data| <= buf.Length
      modifies this`tail, buf
      ensures tail == old(tail) + |data|
      ensures buf[..tail] == old(buf[..tail]) + data
    {
      CopyInto(buf, tail, data);
      assert buf[..tail + |data|] == buf[..tail] + buf[tail..tail + |data|];
      tail := tail + |data|;
    }

    /** The header as first written: the length field counts the content only. */
    method FirstHeader(n: nat) returns (h: seq<byte>)
      ensures |h| == 4 && h[2] == 0x01
      ensures if chip == Aic8800D80 then IsHeader(chip, n, h) else h[3] == 0
    {
      hide LowByte, HighBits;
      h := [LowByte(n), HighBits(n), 0x01, 0];
      if chip == Aic8800D80 {
        var crc := Crc8.Crc8Ponl107(h[..3]);
        h := h[..3] + [crc];
        assert h[..3] == [LowByte(n), HighBits(n), 0x01];
      }
    }

    method WriteLength(start: nat, lo: byte, hi: byte)
      requires start + 1 < tail <= buf.Length
      modifies buf
      ensures buf[..tail] == old(buf[..tail])[start := lo][start + 1 := hi]
    {
      buf[start] := lo;
      buf[start + 1] := hi;
    }

    method PutFrame(header: seq<byte>, content: seq<byte>)
      requires tail % 4 == 0 && |header| == 4 && tail + FrameSize(|content|) <= buf.Length
      modifies this`tail, buf
      ensures tail == old(tail) + FrameSize(|content|)
      ensures buf[..tail] == old(buf[..tail]) + (header + (content + Zeros(RoundUp4(|content|) - |content|)))
    {
      hide RoundUp4;
      PaddingOf(tail, |content|);
      ghost var before := buf[..tail];
      Put(header);
      Put(content);
      var padding := RoundUp4(tail) - tail;
      Put(Zeros(padding));
      assert buf[..tail] == before + (header + (content + Zeros(padding)));
    }

    /** On all chips but the AIC8800D80, the length field is written again to count the zeros. */
    method Recount(start: nat, header: seq<byte>, ghost body: seq<byte>, n: nat, ghost before: seq<byte>) returns (h: seq<byte>)
      requires |before| == start && tail <= buf.Length && tail == start + FrameSize(n)
      requires |header| == 4 && header[2] == 0x01 && buf[..tail] == before + (header + body)
      requires if chip == Aic8800D80 then IsHeader(chip, n, header) else header[3] == 0
      modifies buf
      ensures |h| == 4 && IsHeader(chip, n, h) && buf[..tail] == before + (h + body)
    {
      hide IsHeader, RoundUp4, LowByte, HighBits;
      h := header;
      if chip != Aic8800D80 {
        var lo, hi := LowByte(tail - start - 4), HighBits(tail - start - 4);
        WriteLength(start, lo, hi);
        LengthRewritten(before, header, body, lo, hi);
        h := [lo, hi, 0x01, 0];
        HeaderRewritten(chip, n, h);
      }
    }

    /** Header, content and zeros up to a multiple of four. */
    method AggrBytes(content: seq<byte>) returns (ghost frame: seq<byte>)
      requires tail % 4 == 0 && tail + FrameSize(|content|) <= buf.Length
      modifies this`tail, buf
      ensures tail == old(tail) + FrameSize(|content|)
      ensures IsFrame(chip, content, frame) && buf[..tail] == old(buf[..tail]) + frame
    {
      hide IsHeader, RoundUp4, LowByte, HighBits, IsFrame;
      var start := tail;
      ghost var before := buf[..tail];
      var header := FirstHeader(|content|);
      PutFrame(header, content);
      ghost var body := content + Zeros(RoundUp4(|content|) - |content|);
      header := Recount(start, header, body, |content|, before);
      FrameBuilt(chip, content, header);
      frame := header + body;
    }

    /** Appends one frame. */
    method Aggr(content: seq<byte>)
      requires Valid() && tail + FrameSize(|content|) <= buf.Length
      modifies this, buf
      ensures Valid() && contents == old(contents) + [content] && frames[..|old(frames)|] == old(frames)
      ensures tail == old(tail) + FrameSize(|content|)
    {
      hide IsFrame, AreFrames, Concat, FrameSize, RoundUp4;
      ghost var frame := AggrBytes(content);
      FramesAppend(chip, contents, frames, content, frame);
      frames := frames + [frame];
      contents := contents + [content];
      count := count + 1;
    }

    /** Ends the aggregate and hands it to the bus, rounded up to whole blocks. */
    method AggrSend() returns (block: seq<byte>)
      requires Valid()
      modifies this, buf
      ensures Valid() && contents == [] && tail == 0
      ensures |block| == RoundUpBlock(old(tail)) && IsBlock(chip, old(contents), block)
      ensures (forall i :: 0 <= i < |old(contents)| ==> Describable(chip, old(contents)[i])) <==>
              Readable(block) && ReadFrames(block) == AllReceived(chip, old(contents))
    {
      hide RoundUpBlock, Readable, ReadFrames, AllReceived, Describable, IsFrame;
      ghost var end, before := tail, buf[..tail];
      TailFits(tail, buf.Length);
      if tail % TXPKT_BLOCKSIZE != 0 {
        Put(Zeros(TAIL_LEN));
      }
      var len := RoundUpBlock(tail);
      block := buf[..len];
      ghost var rest := buf[end..len];
      assert block == before + rest;
      assert rest != [] ==> |rest| >= 4 && rest[..4] == Zeros(4) by {
        if rest != [] { assert rest[..4] == buf[..end + 4][end..] == Zeros(4); }
      }
      assert Stops(rest) by { if rest != [] { assert rest[0] == rest[..4][0] && rest[1] == rest[..4][1]; } }
      assert CarriedBy(chip, contents, frames, rest, block);
      BlockReadsBack(chip, contents, block);
      Reset();
    }

    method Reset()
      requires buf.Length % TXPKT_BLOCKSIZE == 0
      modifies this
      ensures Valid() && contents == [] && tail == 0
    {
      tail, count := 0, 0;
      contents, frames := [], [];
    }
  }

  lemma PaddingOf(start: nat, n: nat)
    requires start % 4 == 0
    ensures RoundUp4(start + 4 + n) - (start + 4 + n) == RoundUp4(n) - n
  {
  }

  lemma FramesAppend(chip: Chip, contents: seq<seq<byte>>, frames: seq<seq<byte>>, content: seq<byte>, frame: seq<byte>)
    requires AreFrames(chip, contents, frames) && IsFrame(chip, content, frame)
    ensures AreFrames(chip, contents + [content], frames + [frame])
    ensures Concat(frames + [frame]) == Concat(frames) + frame
    ensures (contents + [content])[..|contents|] == contents && |contents| == |frames|
  {
    hide IsFrame;
    assert (frames + [frame])[..|frames|] == frames;
  }

  lemma FrameBuilt(chip: Chip, content: seq<byte>, h: seq<byte>)
    requires |h| == 4 && IsHeader(chip, |content|, h)
    ensures IsFrame(chip, content, h + (content + Zeros(RoundUp4(|content|) - |content|)))
  {
  }

  lemma LengthRewritten(before: seq<byte>, h: seq<byte>, body: seq<byte>, lo: byte, hi: byte)
    requires |h| == 4 && h[2] == 0x01 && h[3] == 0
    ensures (before + (h + body))[|before| := lo][|before| + 1 := hi] == before + ([lo, hi, 0x01, 0] + body)
  {
  }

  lemma HeaderRewritten(chip: Chip, n: nat, h: seq<byte>)
    requires chip != Aic8800D80 && h == [LowByte(RoundUp4(n)), HighBits(RoundUp4(n)), 0x01, 0]
    ensures IsHeader(chip, n, h)
  {
  }

  lemma TailFits(tail: nat, length: nat)
    requires tail % 4 == 0 && tail <= length && length % TXPKT_BLOCKSIZE == 0
    ensures RoundUpBlock(tail) <= length
    ensures tail % TXPKT_BLOCKSIZE == 0 ==> RoundUpBlock(tail) == tail
    ensures tail % TXPKT_BLOCKSIZE != 0 ==> tail + TAIL_LEN <= length && RoundUpBlock(tail + TAIL_LEN) == RoundUpBlock(tail)
  {
    hide RoundUpBlock;
    var r, s := RoundUpBlock(tail), RoundUpBlock(tail + TAIL_LEN);
    NextBlock(r, length);
    if tail % TXPKT_BLOCKSIZE != 0 {
      assert r != tail && r % 4 == 0;
      NextBlock(r, s);
      NextBlock(s, r);
    }
  }

  lemma NextBlock(a: nat, b: nat)
    requires a % TXPKT_BLOCKSIZE == 0 && b % TXPKT_BLOCKSIZE == 0 && a < b + TXPKT_BLOCKSIZE
    ensures a <= b
  {
  }

  // ----- the frames on the wire

  /** The AIC8800D80 counts the content alone, the others the zeros too; a reader gets what is
      counted. */
  lemma ReceivedExactly(chip: Chip, content: seq<byte>)
    ensures chip == Aic8800D80 ==> Received(chip, content) == content
    ensures chip != Aic8800D80 ==>
              var r := Received(chip, content);
              && |r| % 4 == 0 && |content| <= |r| < |content| + 4 && r[..|content|] == content
              && forall i :: |content| <= i < |r| ==> r[i] == 0
  {
  }

  /** A frame of one byte, on either kind of chip. */
  lemma FrameExample(x: byte, crc: byte)
    requires Crc8.BitsOf(crc) == Crc8.Checksum([1, 0, 1])
    ensures IsFrame(Aic8801, [x], [4, 0, 1, 0, x, 0, 0, 0])
    ensures IsFrame(Aic8800D80, [x], [1, 0, 1, crc, x, 0, 0, 0])
  {
    hide Crc8.Checksum, Crc8.BitsOf;
    SmallBytes();
    var f, g: seq<byte> := [4, 0, 1, 0, x, 0, 0, 0], [1, 0, 1, crc, x, 0, 0, 0];
    assert f[..4] == [4, 0, 1, 0] && f[4..] == [x] + Zeros(3);
    assert g[..4] == [1, 0, 1, crc] && g[4..] == [x] + Zeros(3) && g[..4][..3] == [1, 0, 1];
  }

  lemma SmallBytes()
    ensures LowByte(1) == 1 && HighBits(1) == 0 && LowByte(4) == 4 && HighBits(4) == 0
  {
  }

  /** A transfer is the least number of whole 512-byte blocks. */
  lemma BlocksExactly(n: nat)
    ensures RoundUpBlock(n) % 512 == 0 && n <= RoundUpBlock(n) < n + 512
  {
  }
}
