/**
 Receive de-aggregation: a block read from the bus holds data frames and configuration
 messages one after the other, each padded to a multiple of four, up to a zero header or the
 end of the block.  Lengths are computed in 16 bits.
 */
module RxDeaggregation {
  import opened Bytes

  const RX_HWHRD_LEN: nat := 60
  const SDIO_TYPE_CFG: byte := 0x10
  const TWO_16: nat := 0x1_0000

  datatype Frame =
    | Data(block: seq<byte>)      // handed up with its hardware header
    | Config(msg: seq<byte>)      // with its four header bytes

  /** adjust_len, a 16-bit number. */
  function Adjust(aggrLen: nat): (r: nat)
    requires aggrLen < TWO_16
    ensures r == (if aggrLen <= 65532 then RoundUp4(aggrLen) else 0) && r % 4 == 0
  {
    RoundUp4(aggrLen) % TWO_16
  }

  /** aggr_len of a data frame, a 16-bit number. */
  function DataAggr(pktLen: nat): (r: nat)
    requires pktLen < TWO_16
    ensures r == (if pktLen <= 65475 then pktLen + RX_HWHRD_LEN else pktLen - 65476)
  {
    (pktLen + RX_HWHRD_LEN) % TWO_16
  }

  // ----- what one header says

  function Length(b: seq<byte>): (n: nat)
    requires |b| >= 2
    ensures n < TWO_16
  {
    (b[0] as nat) + 256 * (b[1] as nat)
  }

  predicate IsConfig(b: seq<byte>)
    requires |b| >= 3
  {
    b[2] & SDIO_TYPE_CFG == SDIO_TYPE_CFG
  }

  function AggrLen(b: seq<byte>): (n: nat)
    requires |b| >= 3
    ensures n < TWO_16
  {
    if IsConfig(b) then Length(b) else DataAggr(Length(b))
  }

  /** How many bytes are copied out. */
  function Size(b: seq<byte>): nat
    requires |b| >= 3
  {
    if IsConfig(b) then AggrLen(b) + 4 else AggrLen(b)
  }

  /** How far the walk moves on. */
  function Advance(b: seq<byte>): (n: nat)
    requires |b| >= 3
    ensures n % 4 == 0
  {
    if IsConfig(b) then Adjust(AggrLen(b)) + 4 else Adjust(AggrLen(b))
  }

  function FrameOf(b: seq<byte>): Frame
    requires |b| >= 3 && Size(b) <= |b|
  {
    if IsConfig(b) then Config(b[..Size(b)]) else Data(b[..Size(b)])
  }

  function Next(b: seq<byte>): seq<byte>
    requires |b| >= 3
  {
    if Advance(b) < |b| then b[Advance(b)..] else []
  }

  // ----- the walk

  /** There is another frame: the block goes on, and its header is not zero. */
  predicate Another(b: seq<byte>) {
    |b| >= 2 && Length(b) != 0
  }

  /** What the walk takes for granted: it checks neither that headers and frames end within
      the block nor that it moves on. */
  predicate Walkable(b: seq<byte>)
    decreases |b|
  {
    |b| != 1 &&
    (Another(b) ==> |b| >= 3 && Size(b) <= |b| && Advance(b) > 0 && Walkable(Next(b)))
  }

  function Frames(b: seq<byte>): seq<Frame>
    requires Walkable(b)
    decreases |b|
  {
    if Another(b) then [FrameOf(b)] + Frames(Next(b)) else []
  }

  class RxBuffer {
    const data: seq<byte>
    /** Where the walk is, counted from the start of the block. */
    var read: nat

    constructor (data: seq<byte>)
      ensures this.data == data && read == 0
    {
      this.data := data;
      read := 0;
    }

    ghost function Rest(): seq<byte>
      reads this
    {
      if read <= |data| then data[read..] else []
    }

    /** aicwf_another_ptk_1; its BUG_ON is the precondition. */
    method AnotherPacket() returns (another: bool)
      requires read % 4 == 0
      requires |Rest()| != 1
      ensures another <==> Another(Rest())
    {
      if read >= |data| {
        return false;
      }
      var aggrLen := (data[read] as nat) + 256 * (data[read + 1] as nat);
      another := aggrLen != 0;
    }

    /** Copies the next frame out and moves past it. */
    method TakeOne() returns (frame: Frame)
      requires |Rest()| >= 3 && Size(Rest()) <= |Rest()|
      modifies this
      ensures frame == FrameOf(old(Rest())) && Rest() == Next(old(Rest()))
      ensures read == old(read) + Advance(old(Rest()))
    {
      hide Advance, AggrLen, Length, IsConfig, Size, RoundUp4, Adjust, DataAggr;
      var block := data[read..];
      HeaderSays(block);
      var pktLen := Length(block);
      if !IsConfig(block) {
        var aggrLen := DataAggr(pktLen);
        var adjustLen := Adjust(aggrLen);
        frame := Data(block[..aggrLen]);
        read := read + adjustLen;
      } else {
        var aggrLen := pktLen;
        var adjustLen := Adjust(aggrLen);
        frame := Config(block[..aggrLen + 4]);
        read := read + (adjustLen + 4);
      }
    }

    /** The walk over one block. */
    method Process() returns (frames: seq<Frame>)
      requires read == 0 && Walkable(data)
      modifies this
      ensures frames == Frames(data)
    {
      hide FrameOf, Next, Length, Size, Advance, Walkable, Frames, Another;
      frames := [];
      WalkStep(data);
      var another := AnotherPacket();
      while another
        invariant read % 4 == 0 && Walkable(Rest())
        invariant another <==> Another(Rest())
        invariant frames + Frames(Rest()) == Frames(data)
        decreases |Rest()|
      {
        ghost var b, before := Rest(), frames;
        WalkStep(b);
        var frame := TakeOne();
        frames := frames + [frame];
        assert before + ([frame] + Frames(Rest())) == frames + Frames(Rest());
        WalkStep(Rest());
        another := AnotherPacket();
      }
      WalkStep(Rest());
      assert frames + [] == frames;
    }
  }

  /** What one more round of the walk may count on. */
  lemma WalkStep(b: seq<byte>)
    requires Walkable(b)
    ensures |b| != 1 && (!Another(b) ==> Frames(b) == [])
    ensures Another(b) ==>
              && |b| >= 3 && Size(b) <= |b| && Advance(b) % 4 == 0
              && Walkable(Next(b)) && |Next(b)| < |b| && Frames(b) == [FrameOf(b)] + Frames(Next(b))
  {
    hide Length, Size, IsConfig, FrameOf;
  }

  lemma HeaderSays(b: seq<byte>)
    requires |b| >= 3
    ensures var n := if IsConfig(b) then Length(b) else DataAggr(Length(b));
            && Size(b) == (if IsConfig(b) then n + 4 else n)
            && Advance(b) == Adjust(n) + (if IsConfig(b) then 4 else 0)
  {
  }

  // ----- packing, and back

  /** A frame as the firmware may send it. */
  predicate Sendable(f: Frame) {
    match f
    case Data(b) => |b| > RX_HWHRD_LEN && Length(b) == |b| - RX_HWHRD_LEN <= 65472 && !IsConfig(b)
    case Config(m) => |m| > 4 && Length(m) == |m| - 4 <= 65532 && IsConfig(m)
  }

  function BytesOf(f: Frame): seq<byte> {
    match f case Data(b) => b case Config(m) => m
  }

  function Padded(b: seq<byte>): (r: seq<byte>)
    ensures |r| == RoundUp4(|b|)
  {
    b + Zeros(RoundUp4(|b|) - |b|)
  }

  function Pack(frames: seq<Frame>): seq<byte> {
    if frames == [] then [] else Padded(BytesOf(frames[0])) + Pack(frames[1..])
  }

  /** Where the walk stops: at the end, or at a zero header. */
  predicate Stops(tail: seq<byte>) {
    tail == [] || (|tail| >= 2 && tail[0] == 0 && tail[1] == 0)
  }

  /** What a header says depends on its first three bytes. */
  lemma HeaderPrefix(b: seq<byte>, rest: seq<byte>)
    requires |b| >= 3
    ensures Length(b + rest) == Length(b) && IsConfig(b + rest) == IsConfig(b)
  {
  }

  /** The walk takes a packed frame off the front, and moves to what follows it. */
  lemma WalkOne(f: Frame, rest: seq<byte>)
    requires Sendable(f)
    ensures var b := Padded(BytesOf(f)) + rest;
            && |b| >= 3 && Another(b) && Size(b) <= |b| && FrameOf(b) == f
            && Advance(b) == RoundUp4(|BytesOf(f)|) > 0 && Next(b) == rest
  {
    hide IsConfig, Length, RoundUp4, Adjust, DataAggr;
    var x := BytesOf(f);
    var pad := Zeros(RoundUp4(|x|) - |x|);
    var b := Padded(x) + rest;
    assert b == x + (pad + rest);
    HeaderPrefix(x, pad + rest);
    HeaderSays(b);
    RoundUp4Adds(|x|);
    assert b[..|x|] == x;
    assert b[RoundUp4(|x|)..] == rest;
  }

  lemma RoundUp4Adds(n: nat)
    ensures n >= 4 ==> RoundUp4(n) == RoundUp4(n - 4) + 4
  {
  }

  /** De-aggregation inverts packing. */
  lemma {:induction false} WalkInvertsPack(frames: seq<Frame>, tail: seq<byte>)
    requires forall i :: 0 <= i < |frames| ==> Sendable(frames[i])
    requires Stops(tail)
    ensures Walkable(Pack(frames) + tail) && Frames(Pack(frames) + tail) == frames
    decreases |frames|
  {
    hide IsConfig, Size, Advance, FrameOf, Sendable, Next, Padded;
    if frames == [] {
      assert Pack(frames) + tail == tail;
      assert !Another(tail);
    } else {
      var rest := Pack(frames[1..]) + tail;
      WalkInvertsPack(frames[1..], tail);
      WalkOne(frames[0], rest);
      assert Pack(frames) + tail == Padded(BytesOf(frames[0])) + rest;
      assert frames == [frames[0]] + frames[1..];
    }
  }

  // ----- exactly which lengths are safe

  /** The walk stands still on four data lengths, and on no configuration length. */
  lemma StandsStillExactly(b: seq<byte>)
    requires |b| >= 3
    ensures Advance(b) == 0 <==> !IsConfig(b) && 65473 <= Length(b) <= 65476
  {
  }

  /** A data frame is copied out whole exactly up to length 65475. */
  lemma CopiedWholeExactly(b: seq<byte>)
    requires |b| >= 3 && !IsConfig(b)
    ensures Size(b) == Length(b) + RX_HWHRD_LEN <==> Length(b) <= 65475
  {
  }

  /** The walk moves past a whole data frame and its padding exactly up to length 65472. */
  lemma MovesPastExactly(b: seq<byte>)
    requires |b| >= 3 && !IsConfig(b)
    ensures Advance(b) == RoundUp4(Length(b) + RX_HWHRD_LEN) <==> Length(b) <= 65472
  {
  }

  /** The same for a configuration message: exactly up to length 65532. */
  lemma MovesPastConfigExactly(b: seq<byte>)
    requires |b| >= 3 && IsConfig(b)
    ensures Advance(b) == RoundUp4(Length(b) + 4) <==> Length(b) <= 65532
  {
    hide Length, IsConfig, RoundUp4, Adjust, DataAggr;
    RoundUp4Adds(Length(b) + 4);
  }

  /** A data header of length 65476, with anything after it: the walk copies nothing, does not
      move, and finds the same header again. */
  lemma StandsStillExample(rest: seq<byte>)
    ensures var b := [0xc4, 0xff, 0x00] + rest;
            Another(b) && Size(b) == 0 && Next(b) == b && !Walkable(b)
  {
    var b: seq<byte> := [0xc4, 0xff, 0x00] + rest;
    assert Length(b) == 65476 && !IsConfig(b);
    StandsStillExactly(b);
  }

  /** A data frame on the wire: its length, low byte first, and a type byte without bit 4.  Its
      60 bytes of hardware header and its content are copied, and the walk goes on at the next
      multiple of four. */
  lemma DataOnTheWire(lo: byte, hi: byte, kind: byte, rest: seq<byte>)
    requires kind & 0x10 == 0
    requires var n := (lo as nat) + 256 * (hi as nat); 0 < n <= 65472 && n + 60 <= |rest| + 3
    ensures var b, n := [lo, hi, kind] + rest, (lo as nat) + 256 * (hi as nat);
            && Another(b) && FrameOf(b) == Data(b[..n + 60])
            && Advance(b) % 4 == 0 && n + 60 <= Advance(b) < n + 64
  {
    hide RoundUp4, Adjust, DataAggr, AggrLen, Size, Advance, Length, IsConfig, Another, FrameOf;
    HeaderBytes(lo, hi, kind, rest);
    DataTaken([lo, hi, kind] + rest);
  }

  /** A configuration message: bit 4 is set, and four bytes of header come with its content. */
  lemma ConfigOnTheWire(lo: byte, hi: byte, kind: byte, rest: seq<byte>)
    requires kind & 0x10 != 0
    requires var n := (lo as nat) + 256 * (hi as nat); 0 < n <= 65532 && n + 4 <= |rest| + 3
    ensures var b, n := [lo, hi, kind] + rest, (lo as nat) + 256 * (hi as nat);
            && Another(b) && FrameOf(b) == Config(b[..n + 4])
            && Advance(b) % 4 == 0 && n + 4 <= Advance(b) < n + 8
  {
    hide RoundUp4, Adjust, DataAggr, AggrLen, Size, Advance, Length, IsConfig, Another, FrameOf;
    HeaderBytes(lo, hi, kind, rest);
    ConfigTaken([lo, hi, kind] + rest);
  }

  lemma DataTaken(b: seq<byte>)
    requires |b| >= 3 && !IsConfig(b) && 0 < Length(b) <= 65472 && Length(b) + 60 <= |b|
    ensures Another(b) && Size(b) <= |b| && FrameOf(b) == Data(b[..Length(b) + 60])
    ensures Advance(b) % 4 == 0 && Length(b) + 60 <= Advance(b) < Length(b) + 64
  {
    hide RoundUp4, Adjust, DataAggr, AggrLen, Size, Advance, Length, IsConfig;
    MovesPastExactly(b);
    CopiedWholeExactly(b);
    AdvanceAligned(b);
  }

  lemma ConfigTaken(b: seq<byte>)
    requires |b| >= 3 && IsConfig(b) && 0 < Length(b) <= 65532 && Length(b) + 4 <= |b|
    ensures Another(b) && Size(b) <= |b| && FrameOf(b) == Config(b[..Length(b) + 4])
    ensures Advance(b) % 4 == 0 && Length(b) + 4 <= Advance(b) < Length(b) + 8
  {
    hide RoundUp4, Adjust, DataAggr, AggrLen, Size, Advance, Length, IsConfig;
    MovesPastConfigExactly(b);
    HeaderSays(b);
    AdvanceAligned(b);
  }

  lemma AdvanceAligned(b: seq<byte>)
    requires |b| >= 3
    ensures Advance(b) % 4 == 0
  {
  }

  /** The header bytes, read. */
  lemma HeaderBytes(lo: byte, hi: byte, kind: byte, rest: seq<byte>)
    ensures var b := [lo, hi, kind] + rest;
            Length(b) == (lo as nat) + 256 * (hi as nat) && (IsConfig(b) <==> kind & 0x10 != 0)
  {
    BitFour(kind);
  }

  lemma BitFour(kind: byte)
    ensures kind & 0x10 == 0 || kind & 0x10 == 0x10
  {
  }
}
