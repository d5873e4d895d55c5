/**
 Reassembly of Bluetooth HCI packets from fragments of any size.  Each packet type has one
 partial frame, with a count of the bytes it still expects: first the rest of the header,
 then the payload length that the header announces (sections 5.4.2 to 5.4.4 of the
 Bluetooth Core Specification, Vol 4, Part E).
 */
module HciReassembly {
  import opened Bytes
  import opened Wrappers

  // ----- the reference: one byte at a time

  /** A packet type, and how much more than asked for the allocator gives to its frames. */
  datatype Kind = AclData(slack: nat) | ScoData(slack: nat) | Event(slack: nat)

  datatype Slacks = Slacks(acl: nat, sco: nat, event: nat)

  /** HCI_ACLDATA_PKT, HCI_SCODATA_PKT and HCI_EVENT_PKT. */
  function KindOf(typ: int, s: Slacks): Option<Kind> {
    if typ == 2 then Some(AclData(s.acl))
    else if typ == 3 then Some(ScoData(s.sco))
    else if typ == 4 then Some(Event(s.event))
    else None
  }

  function HeaderSize(k: Kind): (n: nat)
    ensures n >= 2
  {
    match k case AclData(_) => 4 case ScoData(_) => 3 case Event(_) => 2
  }

  /** The length asked for. */
  function Asked(k: Kind): nat {
    match k case AclData(_) => 1028 case ScoData(_) => 255 case Event(_) => 260
  }

  /** The length of the buffer that holds a frame. */
  function Capacity(k: Kind): nat {
    Asked(k) + k.slack
  }

  /** The payload length that a header announces. */
  function Announced(k: Kind, data: seq<byte>): nat
    requires |data| >= HeaderSize(k)
  {
    match k
    case AclData(_) => (data[2] as nat) + 256 * (data[3] as nat)
    case ScoData(_) => data[2] as nat
    case Event(_) => data[1] as nat
  }

  datatype Partial = Partial(data: seq<byte>, missing: nat)

  /** A partial frame between two fragments: it expects at least one byte more, and all that
      it expects fits. */
  predicate Live(k: Kind, p: Partial) {
    && p.missing >= 1
    && if |p.data| < HeaderSize(k) then |p.data| + p.missing == HeaderSize(k)
       else |p.data| + p.missing == HeaderSize(k) + Announced(k, p.data) <= Capacity(k)
  }

  predicate LiveOption(k: Kind, p: Option<Partial>) {
    p.Some? ==> Live(k, p.value)
  }

  function Begun(k: Kind, p: Option<Partial>): Partial {
    if p.Some? then p.value else Partial([], HeaderSize(k))
  }

  /** What feeding some bytes leaves and delivers.  A failure (a header that announces more
      than fits) discards the partial frame and the rest of the bytes. */
  datatype Result = Result(partial: Option<Partial>, frames: seq<seq<byte>>, failed: bool)

  /** The frame after its header or its payload has become complete, or neither. */
  function Settle(k: Kind, data: seq<byte>, missing: nat): Result {
    var e := if |data| == HeaderSize(k) then Announced(k, data) else missing;
    if |data| == HeaderSize(k) && |data| + e > Capacity(k) then Result(None, [], true)
    else if e == 0 then Result(None, [data], false)
    else Result(Some(Partial(data, e)), [], false)
  }

  function FeedByte(k: Kind, p: Option<Partial>, b: byte): Result
    requires LiveOption(k, p)
  {
    Settle(k, Begun(k, p).data + [b], Begun(k, p).missing - 1)
  }

  function Feed(k: Kind, p: Option<Partial>, bytes: seq<byte>): (r: Result)
    requires LiveOption(k, p)
    ensures LiveOption(k, r.partial) && (r.failed ==> r.partial.None?)
    decreases |bytes|
  {
    if bytes == [] then Result(p, [], false)
    else
      FeedByteLive(k, p, bytes[0]);
      var first := FeedByte(k, p, bytes[0]);
      if first.failed then first
      else
        var rest := Feed(k, first.partial, bytes[1..]);
        Result(rest.partial, first.frames + rest.frames, rest.failed)
  }

  lemma FeedByteLive(k: Kind, p: Option<Partial>, b: byte)
    requires LiveOption(k, p)
    ensures var r := FeedByte(k, p, b); LiveOption(k, r.partial) && (r.failed ==> r.partial.None? && r.frames == [])
  {
  }

  /** Feeding can be split anywhere before the first failure. */
  lemma {:induction false} FeedConcat(k: Kind, p: Option<Partial>, a: seq<byte>, b: seq<byte>)
    requires LiveOption(k, p)
    ensures var r := Feed(k, p, a);
            Feed(k, p, a + b) ==
            if r.failed then r
            else var s := Feed(k, r.partial, b); Result(s.partial, r.frames + s.frames, s.failed)
    decreases |a|
  {
    hide FeedByte, LiveOption;
    if a == [] {
      assert a + b == b;
    } else {
      FeedByteLive(k, p, a[0]);
      var first := FeedByte(k, p, a[0]);
      assert (a + b)[0] == a[0] && (a + b)[1..] == a[1..] + b;
      if !first.failed {
        FeedConcat(k, first.partial, a[1..], b);
        var r := Feed(k, first.partial, a[1..]);
        var s := Feed(k, r.partial, b);
        assert first.frames + (r.frames + s.frames) == first.frames + r.frames + s.frames;
      }
    }
  }

  lemma FeedOne(k: Kind, p: Option<Partial>, b: byte)
    requires LiveOption(k, p)
    ensures Feed(k, p, [b]) == FeedByte(k, p, b)
  {
  }

  /** One byte that does not complete what is expected is just appended. */
  lemma FeedByteInside(k: Kind, p: Option<Partial>, b: byte)
    requires LiveOption(k, p) && Begun(k, p).missing > 1
    ensures FeedByte(k, p, b) == Result(Some(Partial(Begun(k, p).data + [b], Begun(k, p).missing - 1)), [], false)
  {
  }

  /** A chunk within what is expected is appended as a whole; only its end matters. */
  lemma {:induction false} FeedChunk(k: Kind, p: Option<Partial>, chunk: seq<byte>)
    requires LiveOption(k, p) && 0 < |chunk| <= Begun(k, p).missing
    ensures Feed(k, p, chunk) == Settle(k, Begun(k, p).data + chunk, Begun(k, p).missing - |chunk|)
    decreases |chunk|
  {
    hide Settle, LiveOption, Announced, Live;
    var q := Begun(k, p);
    if |chunk| == 1 {
      FeedOne(k, p, chunk[0]);
      assert chunk == [chunk[0]];
    } else {
      hide FeedByte;
      var first := FeedByte(k, p, chunk[0]);
      FeedByteLive(k, p, chunk[0]);
      FeedByteInside(k, p, chunk[0]);
      FeedChunk(k, first.partial, chunk[1..]);
      assert q.data + chunk == q.data + [chunk[0]] + chunk[1..];
      var rest := Feed(k, first.partial, chunk[1..]);
      assert [] + rest.frames == rest.frames;
    }
  }

  /** The same after some bytes, and before others. */
  lemma ChunkStep(k: Kind, p: Option<Partial>, fed: Option<Partial>, a: seq<byte>, chunk: seq<byte>, rest: seq<byte>)
    requires LiveOption(k, p) && LiveOption(k, fed) && 0 < |chunk| <= Begun(k, fed).missing
    requires Feed(k, p, a) == Result(fed, [], false)
    ensures var r := Settle(k, Begun(k, fed).data + chunk, Begun(k, fed).missing - |chunk|);
            && Feed(k, p, a + chunk) == r && LiveOption(k, r.partial)
            && (r.failed ==> r == Result(None, [], true) && Feed(k, p, a + chunk + rest) == r)
            && (r.partial.Some? ==> r.frames == [] && !r.failed)
  {
    FeedChunk(k, fed, chunk);
    hide LiveOption, Feed, Begun, Announced;
    FeedConcat(k, p, a, chunk);
    var r := Feed(k, fed, chunk);
    assert [] + r.frames == r.frames;
    FeedConcat(k, p, a + chunk, rest);
  }

  // ----- the driver: a chunk at a time

  const EILSEQ: int := -84
  const ENOMEM: int := -12
  const NUM_REASSEMBLY: nat := 4

  /** Appends a chunk; a header that it completes says how much more is missing, and is
      refused if that does not fit. */
  method Extend(k: Kind, p: Partial, chunk: seq<byte>) returns (r: Result)
    requires |chunk| <= p.missing
    ensures r == Settle(k, p.data + chunk, p.missing - |chunk|)
    ensures k.AclData? && |p.data + chunk| == 4 ==>
              var h := p.data + chunk; (r.failed <==> (h[2] as nat) + 256 * (h[3] as nat) > 1024 + k.slack)
  {
    var skb := Partial(p.data + chunk, p.missing - |chunk|);
    if |skb.data| == HeaderSize(k) {
      skb := skb.(missing := Announced(k, skb.data));
      if Capacity(k) - |skb.data| < skb.missing {
        return Result(None, [], true);
      }
    }
    if skb.missing == 0 {
      return Result(None, [skb.data], false);
    }
    return Result(Some(skb), [], false);
  }

  /** The loop of Reassembly: fills the frame until it is complete, fails, or the bytes end. */
  method Fill(k: Kind, begun: Partial, data: seq<byte>, ghost p: Option<Partial>)
    returns (partial: Option<Partial>, frames: seq<seq<byte>>, remain: int)
    requires LiveOption(k, p) && begun == Begun(k, p) && data != []
    ensures LiveOption(k, partial)
    ensures remain < 0 ==> remain == ENOMEM && Feed(k, p, data) == Result(None, [], true) && partial == None && frames == []
    ensures remain >= 0 ==> remain < |data| && Feed(k, p, data[..|data| - remain]) == Result(partial, frames, false)
    ensures remain > 0 ==> partial.None?
  {
    hide Feed, Live, LiveOption, Announced, Begun, Settle, HeaderSize, Capacity;
    FeedNothing(k, p);
    if p.Some? { BegunSome(k, p.value); }
    var skb, rest := begun, data;
    partial, frames, remain := Some(skb), [], |data|;
    ghost var fed, consumed: seq<byte> := p, [];
    assert consumed + rest == data;
    while rest != []
      invariant consumed + rest == data && remain == |rest|
      invariant LiveOption(k, fed) && skb == Begun(k, fed) && frames == []
      invariant Feed(k, p, consumed) == Result(fed, [], false)
      invariant consumed != [] ==> fed == partial == Some(skb)
      decreases |rest|
    {
      BegunLive(k, fed);
      var len := if skb.missing < |rest| then skb.missing else |rest|;
      ghost var chunk := rest[..len];
      assert data == consumed + chunk + rest[len..];
      ChunkStep(k, p, fed, consumed, chunk, rest[len..]);
      var r := Extend(k, skb, rest[..len]);
      rest := rest[len..];
      remain := |rest|;
      consumed := consumed + chunk;
      if r.failed {
        return None, [], ENOMEM;
      }
      if r.partial.None? {
        assert data[..|data| - remain] == consumed;
        return None, r.frames, remain;
      }
      skb := r.partial.value;
      partial := r.partial;
      fed := partial;
      BegunSome(k, skb);
    }
    assert data[..|data| - remain] == consumed;
  }

  lemma FeedNothing(k: Kind, p: Option<Partial>)
    requires LiveOption(k, p)
    ensures Feed(k, p, []) == Result(p, [], false)
  {
  }

  lemma BegunLive(k: Kind, p: Option<Partial>)
    requires LiveOption(k, p)
    ensures Begun(k, p).missing >= 1
  {
  }

  lemma BegunSome(k: Kind, p: Partial)
    ensures Begun(k, Some(p)) == p
  {
  }

  lemma BegunIsLive(k: Kind, p: Option<Partial>)
    requires LiveOption(k, p)
    ensures LiveOption(k, Some(Begun(k, p)))
  {
  }

  class HciDevice {
    const slacks: Slacks
    const reassembly: array<Option<Partial>>
    /** Each frame handed up, with its packet type. */
    var delivered: seq<(int, seq<byte>)>

    ghost predicate Valid()
      reads this, reassembly
    {
      && reassembly.Length == NUM_REASSEMBLY
      && LiveOption(AclData(slacks.acl), reassembly[1])
      && LiveOption(ScoData(slacks.sco), reassembly[2])
      && LiveOption(Event(slacks.event), reassembly[3])
    }

    constructor (slacks: Slacks)
      ensures Valid() && fresh(reassembly) && delivered == [] && this.slacks == slacks
      ensures forall i :: 0 <= i < NUM_REASSEMBLY ==> reassembly[i] == None
    {
      reassembly := new Option<Partial>[NUM_REASSEMBLY](_ => None);
      delivered := [];
      this.slacks := slacks;
    }

    /** Consumes bytes until a frame is complete, a header does not fit, or none are left.
        Returns how many were not consumed, or an error. */
    method Reassembly(typ: int, data: seq<byte>, index: nat) returns (remain: int)
      requires Valid()
      requires KindOf(typ, slacks).Some? && index < NUM_REASSEMBLY ==> index == typ - 1
      modifies this, reassembly
      ensures Valid()
      ensures KindOf(typ, slacks).None? || index >= NUM_REASSEMBLY ==>
        remain == EILSEQ && delivered == old(delivered) && reassembly[..] == old(reassembly[..])
      ensures KindOf(typ, slacks).Some? && index < NUM_REASSEMBLY ==>
        var k, p := KindOf(typ, slacks).value, old(reassembly[index]);
        && (forall i :: 0 <= i < NUM_REASSEMBLY && i != index ==> reassembly[i] == old(reassembly[i]))
        && (data == [] ==>
              remain == 0 && reassembly[index] == Some(Begun(k, p)) && delivered == old(delivered))
        && (data != [] && remain < 0 ==>
              remain == ENOMEM && reassembly[index] == None && delivered == old(delivered)
              && Feed(k, p, data) == Result(None, [], true))
        && (data != [] && remain >= 0 ==>
              remain < |data|
              && var r := Feed(k, p, data[..|data| - remain]);
                 && !r.failed && reassembly[index] == r.partial
                 && delivered == old(delivered) + Tagged(typ, r.frames)
                 && (remain > 0 ==> r.partial.None?))
    {
      if KindOf(typ, slacks).None? || index >= NUM_REASSEMBLY {
        return EILSEQ;
      }
      var k := KindOf(typ, slacks).value;
      hide Live, LiveOption, Feed, Announced, Tagged;
      ghost var p := reassembly[index];
      if reassembly[index].None? {
        reassembly[index] := Some(Partial([], HeaderSize(k)));
      }
      if data == [] {
        BegunIsLive(k, p);
        return 0;
      }
      var partial, frames;
      partial, frames, remain := Fill(k, reassembly[index].value, data, p);
      reassembly[index] := partial;
      delivered := delivered + Tagged(typ, frames);
    }

    /** Consumes a whole fragment, unless a header does not fit. */
    method RecvFragment(typ: int, data: seq<byte>) returns (rem: int)
      requires Valid()
      modifies this, reassembly
      ensures Valid()
      ensures KindOf(typ, slacks).None? ==> rem == EILSEQ && delivered == old(delivered) && reassembly[..] == old(reassembly[..])
      ensures KindOf(typ, slacks).Some? ==>
        var r := Feed(KindOf(typ, slacks).value, old(reassembly[typ - 1]), data);
        && reassembly[..] == old(reassembly[..])[typ - 1 := r.partial]
        && delivered == old(delivered) + Tagged(typ, r.frames)
        && rem == (if r.failed then ENOMEM else 0)
    {
      hide Feed, Live, LiveOption, Tagged, Announced;
      rem := 0;
      if KindOf(typ, slacks).None? {
        return EILSEQ;
      }
      ghost var k, p := KindOf(typ, slacks).value, reassembly[typ - 1];
      var rest := data;
      ghost var consumed: seq<byte>, frames: seq<seq<byte>> := [], [];
      assert consumed + rest == data;
      FeedNothing(k, p);
      assert Tagged(typ, []) == [] by { TaggedConcat(typ, [], []); }
      while rest != []
        invariant Valid() && consumed + rest == data && (consumed != [] ==> rem == |rest|)
        invariant consumed == [] ==> rem == 0
        invariant reassembly[..] == old(reassembly[..])[typ - 1 := reassembly[typ - 1]]
        invariant Feed(k, p, consumed) == Result(reassembly[typ - 1], frames, false)
        invariant delivered == old(delivered) + Tagged(typ, frames)
        decreases |rest|
      {
        ghost var q := reassembly[typ - 1];
        rem := Reassembly(typ, rest, typ - 1);
        if rem < 0 {
          FeedConcat(k, p, consumed, rest);
          assert frames + [] == frames;
          return;
        }
        ghost var chunk := rest[..|rest| - rem];
        FeedConcat(k, p, consumed, chunk);
        ghost var more := Feed(k, q, chunk).frames;
        TaggedConcat(typ, frames, more);
        consumed := consumed + chunk;
        frames := frames + more;
        rest := rest[|rest| - rem..];
        assert consumed + rest == data;
      }
      assert consumed == data;
    }
  }

  /** Frames with the packet type they are delivered under. */
  function Tagged(typ: int, frames: seq<seq<byte>>): seq<(int, seq<byte>)> {
    seq(|frames|, i requires 0 <= i < |frames| => (typ, frames[i]))
  }

  /** Every frame is delivered once, in order, under the type it was received with. */
  lemma TaggedExactly(typ: int, frames: seq<seq<byte>>)
    ensures |Tagged(typ, frames)| == |frames| && forall i :: 0 <= i < |frames| ==> Tagged(typ, frames)[i] == (typ, frames[i])
  {
  }

  lemma TaggedConcat(typ: int, a: seq<seq<byte>>, b: seq<seq<byte>>)
    ensures Tagged(typ, []) == []
    ensures Tagged(typ, a + b) == Tagged(typ, a) + Tagged(typ, b)
  {
  }

  // ----- fragmentation does not matter

  /** Fragments received one after the other; a failure in one does not end the next. */
  function Receive(k: Kind, p: Option<Partial>, fragments: seq<seq<byte>>): (r: (Option<Partial>, seq<seq<byte>>))
    requires LiveOption(k, p)
    ensures LiveOption(k, r.0)
  {
    if fragments == [] then (p, [])
    else
      var before := Receive(k, p, fragments[..|fragments| - 1]);
      var r := Feed(k, before.0, fragments[|fragments| - 1]);
      (r.partial, before.1 + r.frames)
  }

  /** The parser does not fail before the last byte. */
  predicate ParsesBeforeEnd(k: Kind, p: Option<Partial>, stream: seq<byte>)
    requires LiveOption(k, p)
  {
    stream == [] || !Feed(k, p, stream[..|stream| - 1]).failed
  }

  lemma PrefixParses(k: Kind, p: Option<Partial>, a: seq<byte>, b: seq<byte>)
    requires LiveOption(k, p) && ParsesBeforeEnd(k, p, a + b)
    ensures ParsesBeforeEnd(k, p, a) && (b != [] ==> !Feed(k, p, a).failed)
  {
    hide LiveOption, Feed;
    if b != [] {
      var last := |a + b| - 1;
      assert (a + b)[..last] == a + b[..|b| - 1];
      FeedConcat(k, p, a, b[..|b| - 1]);
      if a != [] {
        assert a == a[..|a| - 1] + [a[|a| - 1]];
        FeedConcat(k, p, a[..|a| - 1], [a[|a| - 1]]);
      }
    } else {
      assert a + b == a;
    }
  }

  /** Any cutting of such a stream leaves and delivers what the whole stream does. */
  lemma {:induction false} CuttingIrrelevant(k: Kind, p: Option<Partial>, fragments: seq<seq<byte>>)
    requires LiveOption(k, p) && ParsesBeforeEnd(k, p, Concat(fragments))
    ensures var r := Feed(k, p, Concat(fragments)); Receive(k, p, fragments) == (r.partial, r.frames)
    decreases |fragments|
  {
    hide LiveOption, Feed, ParsesBeforeEnd;
    if fragments == [] {
      FeedNothing(k, p);
    } else {
      var init, last := fragments[..|fragments| - 1], fragments[|fragments| - 1];
      PrefixParses(k, p, Concat(init), last);
      CuttingIrrelevant(k, p, init);
      FeedConcat(k, p, Concat(init), last);
      var r := Feed(k, p, Concat(init));
      if last == [] {
        assert Concat(init) + last == Concat(init);
        FeedNothing(k, r.partial);
        assert r.frames + [] == r.frames;
      }
    }
  }

  /** Once a header does not fit, some cutting gives another outcome: the whole stream drops
      what follows, a cut before its last byte does not. */
  lemma CuttingMatters(k: Kind, p: Option<Partial>, stream: seq<byte>)
    requires LiveOption(k, p) && !ParsesBeforeEnd(k, p, stream)
    ensures var r, last := Feed(k, p, stream), |stream| - 1;
            && Concat([stream[..last], [stream[last]]]) == stream
            && Receive(k, p, [stream[..last], [stream[last]]]) != (r.partial, r.frames)
  {
    var last := |stream| - 1;
    var a, b := stream[..last], [stream[last]];
    assert stream == a + b;
    FeedConcat(k, p, a, b);
    assert Feed(k, p, stream) == Feed(k, p, a);
    ReceiveTwo(k, p, a, b);
    FeedOne(k, None, stream[last]);
    assert Feed(k, p, a).partial == None;
    assert FeedByte(k, None, stream[last]).partial.Some?;
    assert Receive(k, p, [a, b]).0.Some?;
  }

  lemma ReceiveTwo(k: Kind, p: Option<Partial>, a: seq<byte>, b: seq<byte>)
    requires LiveOption(k, p)
    ensures LiveOption(k, Feed(k, p, a).partial)
    ensures Receive(k, p, [a, b]).0 == Feed(k, Feed(k, p, a).partial, b).partial
    ensures Concat([a, b]) == a + b
  {
    hide Feed, LiveOption;
    assert [a, b][..1] == [a] && [a][..0] == [];
    assert Concat([a]) == a by { ConcatLast([a], 0); }
    assert [a, b][..2] == [a, b];
    ConcatLast([a, b], 1);
    assert Receive(k, p, []) == (p, []);
    assert Receive(k, p, [a]).0 == Feed(k, p, a).partial;
  }

  // ----- packets

  /** A whole packet: its header announces its payload, and it fits. */
  predicate IsPacket(k: Kind, packet: seq<byte>) {
    |packet| >= HeaderSize(k) && |packet| == HeaderSize(k) + Announced(k, packet) <= Capacity(k)
  }

  /** The announcement is read off the header alone. */
  lemma AnnouncedInHeader(k: Kind, packet: seq<byte>, n: nat)
    requires HeaderSize(k) <= n <= |packet|
    ensures Announced(k, packet[..n]) == Announced(k, packet)
  {
  }

  /** What is left after a proper prefix of a packet. */
  function Left(k: Kind, packet: seq<byte>, n: nat): Option<Partial>
    requires IsPacket(k, packet) && n < |packet|
  {
    if n == 0 then None
    else Some(Partial(packet[..n], if n < HeaderSize(k) then HeaderSize(k) - n else |packet| - n))
  }

  lemma {:induction false} FeedPrefix(k: Kind, packet: seq<byte>, n: nat)
    requires IsPacket(k, packet) && n < |packet|
    ensures Feed(k, None, packet[..n]) == Result(Left(k, packet, n), [], false)
  {
    if n == 0 {
      FeedNothing(k, None);
    } else {
      FeedPrefix(k, packet, n - 1);
      LeftStep(k, packet, n - 1);
      FeedAppend(k, packet, n - 1);
    }
  }

  lemma FeedAppend(k: Kind, packet: seq<byte>, n: nat)
    requires IsPacket(k, packet) && n < |packet| && LiveOption(k, Left(k, packet, n))
    requires Feed(k, None, packet[..n]) == Result(Left(k, packet, n), [], false)
    ensures Feed(k, None, packet[..n + 1]) == FeedByte(k, Left(k, packet, n), packet[n])
  {
    hide Feed, FeedByte, Left, LiveOption, IsPacket;
    assert packet[..n + 1] == packet[..n] + [packet[n]];
    FeedConcat(k, None, packet[..n], [packet[n]]) by { assert LiveOption(k, None) by { NoneIsLive(k); } }
    FeedOne(k, Left(k, packet, n), packet[n]);
    var r := FeedByte(k, Left(k, packet, n), packet[n]);
    assert [] + r.frames == r.frames;
  }

  lemma NoneIsLive(k: Kind)
    ensures LiveOption(k, None)
  {
  }

  /** One more byte of a packet. */
  lemma LeftStep(k: Kind, packet: seq<byte>, n: nat)
    requires IsPacket(k, packet) && n < |packet|
    ensures LiveOption(k, Left(k, packet, n))
    ensures FeedByte(k, Left(k, packet, n), packet[n]) ==
            if n + 1 < |packet| then Result(Left(k, packet, n + 1), [], false) else Result(None, [packet], false)
  {
    assert packet[..n] + [packet[n]] == packet[..n + 1];
    if n >= HeaderSize(k) { AnnouncedInHeader(k, packet, n); }
    if n + 1 >= HeaderSize(k) { AnnouncedInHeader(k, packet, n + 1); }
    assert n + 1 == |packet| ==> packet[..n + 1] == packet;
  }

  lemma FeedPacket(k: Kind, packet: seq<byte>)
    requires IsPacket(k, packet)
    ensures Feed(k, None, packet) == Result(None, [packet], false)
  {
    var n := |packet| - 1;
    FeedPrefix(k, packet, n);
    LeftStep(k, packet, n);
    FeedAppend(k, packet, n);
    assert packet[..n + 1] == packet;
  }

  lemma {:induction false} FeedPackets(k: Kind, packets: seq<seq<byte>>)
    requires forall i :: 0 <= i < |packets| ==> IsPacket(k, packets[i])
    ensures Feed(k, None, Concat(packets)) == Result(None, packets, false)
  {
    hide IsPacket, LiveOption, Feed;
    NoneIsLive(k);
    if packets == [] {
      FeedNothing(k, None);
    } else {
      var init, last := packets[..|packets| - 1], packets[|packets| - 1];
      FeedPackets(k, init);
      FeedPacket(k, last);
      FeedConcat(k, None, Concat(init), last);
      assert init + [last] == packets;
    }
  }

  // ----- which streams the cutting matters to

  /** The bytes are some whole packets that fit, a header that announces more than fits, and
      anything after it. */
  ghost predicate Oversize(k: Kind, bytes: seq<byte>) {
    exists packets: seq<seq<byte>>, h: seq<byte>, rest: seq<byte> :: OversizeAfter(k, packets, h, rest, bytes)
  }

  predicate OversizeAfter(k: Kind, packets: seq<seq<byte>>, h: seq<byte>, rest: seq<byte>, bytes: seq<byte>) {
    && (forall i :: 0 <= i < |packets| ==> IsPacket(k, packets[i]))
    && |h| == HeaderSize(k) && HeaderSize(k) + Announced(k, h) > Capacity(k)
    && bytes == Concat(packets) + (h + rest)
  }

  /** The bytes that a partial frame already holds. */
  function HeldBytes(p: Option<Partial>): seq<byte> {
    if p.Some? then p.value.data else []
  }

  /** A header that announces more than fits fails, whatever follows. */
  lemma OversizeHeader(k: Kind, h: seq<byte>, rest: seq<byte>)
    requires |h| == HeaderSize(k) && HeaderSize(k) + Announced(k, h) > Capacity(k)
    ensures Feed(k, None, h + rest) == Result(None, [], true)
  {
    hide Feed, Announced;
    FeedChunk(k, None, h);
    assert [] + h == h;
    FeedConcat(k, None, h, rest);
  }

  /** Less than a packet, its header complete or not, never fails. */
  lemma ShortNeverFails(k: Kind, s: seq<byte>)
    requires |s| >= HeaderSize(k) ==> |s| < HeaderSize(k) + Announced(k, s) <= Capacity(k)
    ensures !Feed(k, None, s).failed
  {
    if |s| >= HeaderSize(k) {
      var packet := s + Zeros(HeaderSize(k) + Announced(k, s) - |s|);
      assert packet[..|s|] == s;
      AnnouncedInHeader(k, packet, |s|);
      FeedPrefix(k, packet, |s|);
    } else if s == [] {
      FeedNothing(k, None);
    } else {
      FeedChunk(k, None, s);
    }
  }

  lemma {:induction false} FailsOnlyOversize(k: Kind, s: seq<byte>)
    requires Feed(k, None, s).failed
    ensures Oversize(k, s)
    decreases |s|
  {
    hide Feed, IsPacket, Announced;
    var n := HeaderSize(k);
    if |s| < n {
      ShortNeverFails(k, s);
    } else {
      var h := s[..n];
      AnnouncedInHeader(k, s, n);
      var size := n + Announced(k, h);
      if size > Capacity(k) {
        assert s == Concat([]) + (h + s[n..]);
        assert OversizeAfter(k, [], h, s[n..], s);
      } else if |s| < size {
        ShortNeverFails(k, s);
      } else {
        FirstPacket(k, s, size);
        FeedPacket(k, s[..size]);
        assert s == s[..size] + s[size..];
        FeedConcat(k, None, s[..size], s[size..]);
        FailsOnlyOversize(k, s[size..]);
        OversizeLater(k, s[..size], s[size..]);
      }
    }
  }

  lemma FirstPacket(k: Kind, s: seq<byte>, size: nat)
    requires HeaderSize(k) <= size <= |s| && size == HeaderSize(k) + Announced(k, s) <= Capacity(k)
    ensures IsPacket(k, s[..size])
  {
    AnnouncedInHeader(k, s, size);
  }

  lemma OversizeLater(k: Kind, packet: seq<byte>, s: seq<byte>)
    requires IsPacket(k, packet) && Oversize(k, s)
    ensures Oversize(k, packet + s)
  {
    hide IsPacket, Announced;
    var packets, h, rest :| OversizeAfter(k, packets, h, rest, s);
    ConcatFirst([packet] + packets);
    assert ([packet] + packets)[1..] == packets;
    assert packet + s == Concat([packet] + packets) + (h + rest);
    assert OversizeAfter(k, [packet] + packets, h, rest, packet + s);
  }

  /** A live partial frame is what feeding its bytes leaves. */
  lemma LiveIsFed(k: Kind, p: Partial)
    requires Live(k, p) && p.data != []
    ensures Feed(k, None, p.data) == Result(Some(p), [], false)
  {
    hide Feed, Announced;
    if |p.data| < HeaderSize(k) {
      FeedChunk(k, None, p.data);
      assert [] + p.data == p.data;
    } else {
      var packet := p.data + Zeros(p.missing);
      assert packet[..|p.data|] == p.data;
      AnnouncedInHeader(k, packet, |p.data|);
      FeedPrefix(k, packet, |p.data|);
    }
  }

  /** The parser fails exactly on a header that announces more than fits, in the bytes it
      holds followed by those it gets. */
  lemma FailsExactly(k: Kind, p: Option<Partial>, s: seq<byte>)
    requires LiveOption(k, p)
    ensures Feed(k, p, s).failed <==> Oversize(k, HeldBytes(p) + s)
  {
    hide IsPacket, Announced;
    var bytes := HeldBytes(p) + s;
    assert Feed(k, p, s).failed <==> Feed(k, None, bytes).failed by {
      if HeldBytes(p) != [] {
        LiveIsFed(k, p.value);
        FeedConcat(k, None, HeldBytes(p), s);
      } else {
        assert bytes == s;
      }
    }
    if Feed(k, None, bytes).failed {
      FailsOnlyOversize(k, bytes);
    }
    if Oversize(k, bytes) {
      hide Feed;
      var packets, h, rest :| OversizeAfter(k, packets, h, rest, bytes);
      FeedPackets(k, packets);
      OversizeHeader(k, h, rest);
      FeedConcat(k, None, Concat(packets), h + rest);
    }
  }

  /** No header before the last byte announces more than fits. */
  ghost predicate FitsBeforeEnd(k: Kind, p: Option<Partial>, stream: seq<byte>) {
    stream == [] || !Oversize(k, HeldBytes(p) + stream[..|stream| - 1])
  }

  /** The outcome does not depend on the cutting if and only if no header, except one that
      ends the stream, announces more than fits. */
  lemma CuttingIrrelevantExactly(k: Kind, p: Option<Partial>, stream: seq<byte>)
    requires LiveOption(k, p)
    ensures var r := Feed(k, p, stream);
            FitsBeforeEnd(k, p, stream) <==>
            forall fragments :: Concat(fragments) == stream ==> Receive(k, p, fragments) == (r.partial, r.frames)
  {
    hide Feed, Oversize;
    if stream != [] { FailsExactly(k, p, stream[..|stream| - 1]); }
    if FitsBeforeEnd(k, p, stream) {
      forall fragments | Concat(fragments) == stream
        ensures Receive(k, p, fragments) == (Feed(k, p, stream).partial, Feed(k, p, stream).frames)
      {
        CuttingIrrelevant(k, p, fragments);
      }
    } else {
      CuttingMatters(k, p, stream);
    }
  }

  /** An ACL header that announces n bytes, and one byte after it: the cutting matters exactly
      if n is more than the 1024 asked for and the slack. */
  lemma OversizeAnnounced(slack: nat, h: seq<byte>, b: byte)
    requires |h| == 4
    ensures FitsBeforeEnd(AclData(slack), None, h + [b]) <==> Announced(AclData(slack), h) <= 1024 + slack
  {
    var k := AclData(slack);
    assert (h + [b])[..4] == h && [] + h == h;
    FailsExactly(k, None, h);
    FeedChunk(k, None, h);
  }

  /** Such a stream: a header that announces 65535 bytes, on any allocator that gives less than
      64511 more than asked for. */
  lemma OversizeExample(slack: nat)
    ensures FitsBeforeEnd(AclData(slack), None, [0, 0, 0xff, 0xff, 0]) <==> slack >= 64511
  {
    OversizeAnnounced(slack, [0, 0, 0xff, 0xff], 0);
    assert [0, 0, 0xff, 0xff, 0] == [0, 0, 0xff, 0xff] + [0 as byte];
  }

  /** Packets that fit, followed by the first n bytes of one more, cut in any way: exactly
      the packets are delivered, and the rest is kept. */
  lemma PacketsSurviveCutting(k: Kind, packets: seq<seq<byte>>, next: seq<byte>, n: nat, fragments: seq<seq<byte>>)
    requires forall i :: 0 <= i < |packets| ==> IsPacket(k, packets[i])
    requires IsPacket(k, next) && n < |next|
    requires Concat(fragments) == Concat(packets) + next[..n]
    ensures Receive(k, None, fragments) == (Left(k, next, n), packets)
  {
    hide IsPacket, LiveOption, Feed, Left;
    NoneIsLive(k);
    FeedPackets(k, packets);
    FeedPrefix(k, next, n);
    FeedConcat(k, None, Concat(packets), next[..n]);
    assert packets + [] == packets;
    var stream := Concat(fragments);
    if stream != [] {
      assert stream == stream[..|stream| - 1] + [stream[|stream| - 1]];
      FeedConcat(k, None, stream[..|stream| - 1], [stream[|stream| - 1]]);
    }
    CuttingIrrelevant(k, None, fragments);
  }

  // ----- the packets on the wire

  /** An ACL packet: two bytes of handle, the length with its low byte first, the payload.  It is
      delivered whole exactly if the payload fits in 1024 bytes and the slack. */
  lemma AclOnTheWire(s: Slacks, h0: byte, h1: byte, lo: byte, hi: byte, payload: seq<byte>)
    requires |payload| == (lo as nat) + 256 * (hi as nat)
    ensures KindOf(2, s).Some?
    ensures var k, packet := KindOf(2, s).value, [h0, h1, lo, hi] + payload;
            Feed(k, None, packet) == if |payload| <= 1024 + s.acl then Result(None, [packet], false) else Result(None, [], true)
  {
    var k, h := AclData(s.acl), [h0, h1, lo, hi];
    if |payload| <= 1024 + s.acl {
      FeedPacket(k, h + payload);
    } else {
      OversizeHeader(k, h, payload);
    }
  }

  /** A SCO packet: two bytes of handle, one of length. */
  lemma ScoOnTheWire(s: Slacks, h0: byte, h1: byte, n: byte, payload: seq<byte>)
    requires |payload| == n as nat
    ensures KindOf(3, s).Some?
    ensures var k, packet := KindOf(3, s).value, [h0, h1, n] + payload;
            Feed(k, None, packet) == if |payload| <= 252 + s.sco then Result(None, [packet], false) else Result(None, [], true)
  {
    var k, h := ScoData(s.sco), [h0, h1, n];
    if |payload| <= 252 + s.sco {
      FeedPacket(k, h + payload);
    } else {
      OversizeHeader(k, h, payload);
    }
  }

  /** An event: its code, one byte of length.  It always fits. */
  lemma EventOnTheWire(s: Slacks, code: byte, n: byte, payload: seq<byte>)
    requires |payload| == n as nat
    ensures KindOf(4, s).Some?
    ensures Feed(KindOf(4, s).value, None, [code, n] + payload) == Result(None, [[code, n] + payload], false)
  {
    FeedPacket(Event(s.event), [code, n] + payload);
  }

  /** Whatever is delivered whole in one piece is delivered whole in any pieces. */
  lemma DeliveredInAnyPieces(k: Kind, packet: seq<byte>, fragments: seq<seq<byte>>)
    requires packet != [] && Feed(k, None, packet) == Result(None, [packet], false) && Concat(fragments) == packet
    ensures Receive(k, None, fragments) == (None, [packet])
  {
    hide Feed;
    var last := |packet| - 1;
    assert packet == packet[..last] + [packet[last]];
    FeedConcat(k, None, packet[..last], [packet[last]]);
    CuttingIrrelevant(k, None, fragments);
  }
}
