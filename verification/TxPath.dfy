/**
 The transmit path: producers queue frames; one thread moves them from the queue into the
 aggregate buffer and hands aggregates to the bus, within the credits that the firmware
 reports through a register.

 Each operation of the class is proved against a function on the path's value; the second
 half runs those functions with producers adding frames at every point in between.
 */
module TxPath {
  import opened Bytes
  import opened Wrappers
  import opened FrameQueue
  import opened TxFraming

  /** Credits that are never used. */
  const DATA_FLOW_CTRL_THRESH: int := 2

  /** TXQLEN. */
  const TXQLEN: nat := 8192

  /** MAX_AGGR_TXPKT_LEN, 1536 * 64 bytes, in blocks of 512. */
  const AGGR_BLOCKS: nat := 192

  /** The queue, the packet count kept beside it, the credits, and the frames aggregated. */
  datatype Tx = Tx(q: Fifos<seq<byte>>, qmax: nat, pktcnt: int, avail: int, frames: seq<seq<byte>>)

  /** The credits read from the register.  `reg` is the last value read, after the bounded
      number of attempts; `cap` is a module parameter. */
  function FlowCtrl(readable: bool, reg: byte, cap: int): int {
    if !readable then -1
    else if reg as int > DATA_FLOW_CTRL_THRESH then (if reg as int > cap then cap else reg as int)
    else -(reg as int)
  }

  function Enqueue(t: Tx, x: seq<byte>, prio: nat): (Tx, bool)
    requires prio < PRIOS
  {
    var (q, ok) := Offered(t.q, t.qmax, x, prio);
    (t.(q := q, pktcnt := if ok then t.pktcnt + 1 else t.pktcnt), ok)
  }

  /** The aggregate uses up all the credits but two. */
  predicate AllCreditsUsed(t: Tx) {
    |t.frames| == t.avail - DATA_FLOW_CTRL_THRESH
  }

  /** The aggregate goes out. */
  function Sent(t: Tx): Tx {
    t.(avail := t.avail - |t.frames|, frames := [])
  }

  /** The first part of a send: an aggregate that has used its credits goes out; otherwise
      the next frame joins it.  Returns the frame that joined. */
  function Begin(t: Tx): (Tx, Option<seq<byte>>) {
    if AllCreditsUsed(t) then ((if t.frames != [] then Sent(t) else t), None)
    else
      var (q, x) := Taken(t.q);
      if x.None? then (t, None)
      else (t.(q := q, pktcnt := t.pktcnt - 1, frames := t.frames + [x.value]), x)
  }

  /** The second part, after a frame joined: whether the aggregate goes out now. */
  predicate Goes(t: Tx, txnow: bool) {
    t.pktcnt == 0 || txnow || AllCreditsUsed(t)
  }

  // ----- the operations as the driver runs them

  /** The bytes that some frames take in the aggregate. */
  function SizeOf(contents: seq<seq<byte>>): (n: nat)
    ensures contents == [] <==> n == 0
  {
    if contents == [] then 0 else SizeOf(contents[..|contents| - 1]) + FrameSize(|contents[|contents| - 1]|)
  }

  lemma SizeAppend(contents: seq<seq<byte>>, x: seq<byte>)
    ensures SizeOf(contents + [x]) == SizeOf(contents) + FrameSize(|x|)
  {
  }

  lemma TakenNone(q: Fifos<seq<byte>>)
    ensures Taken(q).1.None? ==> Taken(q).0 == q
  {
  }

  class TxPriv {
    const txq: FrameQueue<seq<byte>>
    const aggr: AggrBuffer
    var pktcnt: int
    var avail: int

    ghost predicate Valid()
      reads this, txq, txq.queues, aggr, aggr.buf
    {
      txq.Valid() && aggr.Valid() && aggr.tail == SizeOf(aggr.contents)
    }

    ghost function View(): Tx
      requires Valid()
      reads this, txq, txq.queues, aggr, aggr.buf
    {
      Tx(txq.Q(), txq.qmax, pktcnt, avail, aggr.contents)
    }

    constructor (chip: Chip)
      ensures Valid() && View().pktcnt == 0 && View().avail == 0 && View().frames == [] && View().qmax == TXQLEN
      ensures aggr.chip == chip && aggr.buf.Length == TXPKT_BLOCKSIZE * AGGR_BLOCKS
      ensures fresh(txq) && fresh(txq.queues) && fresh(aggr) && fresh(aggr.buf)
    {
      txq := new FrameQueue<seq<byte>>(TXQLEN);
      aggr := new AggrBuffer(chip, AGGR_BLOCKS);
      pktcnt, avail := 0, 0;
    }

    /** A producer queues a frame. */
    method BusTxData(x: seq<byte>, prio: nat) returns (ok: bool)
      requires Valid() && prio < PRIOS
      modifies this, txq, txq.queues
      ensures Valid() && (View(), ok) == Enqueue(old(View()), x, prio)
    {
      hide Offered, AreFrames, Total;
      ok := txq.Enq(x, prio);
      if ok {
        pktcnt := pktcnt + 1;
      }
    }

    /** Hands the aggregate to the bus. */
    method SendAggregate() returns (block: seq<byte>)
      requires Valid()
      modifies this, aggr, aggr.buf
      ensures Valid() && View() == Sent(old(View()))
      ensures avail == old(avail) - |old(View()).frames|
      ensures |block| == RoundUpBlock(SizeOf(old(View()).frames)) && IsBlock(aggr.chip, old(View()).frames, block)
      ensures (forall i :: 0 <= i < |old(View()).frames| ==> Describable(aggr.chip, old(View()).frames[i])) <==>
              Readable(block) && ReadFrames(block) == AllReceived(aggr.chip, old(View()).frames)
    {
      hide Readable, ReadFrames, AllReceived, Describable, AreFrames, IsBlock, RoundUpBlock, Total, FrameSize, Concat;
      avail := avail - aggr.count;
      block := aggr.AggrSend();
    }

    /** The first part of a send.  The buffer must have room for the frame that joins. */
    method SendBegin() returns (joined: bool, block: Option<seq<byte>>)
      requires Valid()
      requires Begin(View()).1.Some? ==> aggr.tail + FrameSize(|Begin(View()).1.value|) <= aggr.buf.Length
      modifies this, txq, txq.queues, aggr, aggr.buf
      ensures Valid() && View() == Begin(old(View())).0
      ensures joined <==> Begin(old(View())).1.Some?
      ensures block.Some? <==> AllCreditsUsed(old(View())) && old(View()).frames != []
      ensures block.Some? ==> IsBlock(aggr.chip, old(View()).frames, block.value)
    {
      hide Readable, ReadFrames, AllReceived, Describable, RoundUpBlock, AreFrames, Total, Taken, FrameSize;
      joined, block := false, None;
      if (aggr.count == 0) != (aggr.tail == 0) {
        // the self-repair: the count and the length never disagree
        assert false;
      }
      if aggr.count == avail - DATA_FLOW_CTRL_THRESH {
        if aggr.count > 0 {
          var sent := SendAggregate();
          block := Some(sent);
        }
      } else {
        TakenNone(txq.Q());
        var pkt := txq.Dequeue();
        if pkt.None? {
          return;
        }
        pktcnt := pktcnt - 1;
        SizeAppend(aggr.contents, pkt.value);
        aggr.Aggr(pkt.value);
        joined := true;
      }
    }

    /** The second part of a send. */
    method SendEnd(txnow: bool) returns (block: Option<seq<byte>>)
      requires Valid()
      modifies this, aggr, aggr.buf
      ensures Valid() && View() == (if Goes(old(View()), txnow) then Sent(old(View())) else old(View()))
      ensures block.Some? <==> Goes(old(View()), txnow)
      ensures block.Some? ==> IsBlock(aggr.chip, old(View()).frames, block.value)
    {
      block := None;
      if pktcnt == 0 || txnow || aggr.count == avail - DATA_FLOW_CTRL_THRESH {
        var sent := SendAggregate();
        block := Some(sent);
      }
    }
  }

  // ----- producers and the sending thread, interleaved

  /** Where the sending thread is. */
  datatype Pc =
    | Idle                    // outside the loop
    | Looping                 // about to test whether the queue is empty
    | Joined(txnow: bool)     // a frame has joined, the second part of the send comes next

  /** One aggregate that went out, with the credits known then. */
  datatype Outgoing = Outgoing(credits: int, frames: seq<seq<byte>>)

  /** `reading` is what the register last said, and `mark` the number of aggregates that had
      gone out by then. */
  datatype World = World(t: Tx, cap: int, pc: Pc, dequeued: seq<seq<byte>>, sent: seq<Outgoing>,
                         reading: int, mark: nat)

  datatype Step =
    | Produce(x: seq<byte>, prio: nat)               // a producer, at any time
    | Start(readable: bool, reg: byte)               // the thread starts, reading the register
    | Iterate(readable: bool, reg: byte, cmd: bool)  // one round of the loop; is a command waiting?
    | Finish                                         // the second part of the send

  function Init(cap: int): World {
    World(Tx([[], [], [], [], [], [], [], []], TXQLEN, 0, 0, []), cap, Idle, [], [], 0, 0)
  }

  predicate Enabled(w: World, s: Step) {
    match s
    case Produce(_, prio) => prio < PRIOS
    case Start(_, _) => w.pc.Idle?
    case Iterate(_, _, _) => w.pc.Looping?
    case Finish => w.pc.Joined?
  }

  /** The world after the aggregate went out, if it did. */
  function Logged(w: World, goes: bool, pc: Pc): World {
    if goes then w.(t := Sent(w.t), pc := pc, sent := w.sent + [Outgoing(w.t.avail, w.t.frames)])
    else w.(pc := pc)
  }

  /** The world after the register was read. */
  function Read(w: World, readable: bool, reg: byte): World {
    var credits := FlowCtrl(readable, reg, w.cap);
    w.(t := w.t.(avail := credits), reading := credits, mark := |w.sent|)
  }

  function Next(w: World, s: Step): World
    requires Enabled(w, s)
  {
    match s
    case Produce(x, prio) => w.(t := Enqueue(w.t, x, prio).0)
    case Start(readable, reg) =>
      if Total(w.t.q) > 0 then Read(w, readable, reg).(pc := Looping)
      else w.(pc := Looping)
    case Iterate(readable, reg, cmd) =>
      if Total(w.t.q) == 0 then w.(pc := Idle)
      else if w.t.avail <= DATA_FLOW_CTRL_THRESH then
        if cmd then w.(pc := Idle)
        else Read(w, readable, reg)
      else
        var (t, joined) := Begin(w.t);
        if joined.Some? then w.(t := t, pc := Joined(cmd), dequeued := w.dequeued + [joined.value])
        else Logged(w, AllCreditsUsed(w.t) && w.t.frames != [], if cmd then Idle else Looping)
    case Finish =>
      Logged(w, Goes(w.t, w.pc.txnow), if w.pc.txnow then Idle else Looping)
  }

  function Run(cap: int, steps: seq<Step>): Option<World> {
    if steps == [] then Some(Init(cap))
    else
      var last := |steps| - 1;
      match Run(cap, steps[..last])
      case None => None
      case Some(w) => if Enabled(w, steps[last]) then Some(Next(w, steps[last])) else None
  }

  /** The frames of all the aggregates sent, in order. */
  function AllSent(sent: seq<Outgoing>): seq<seq<byte>> {
    if sent == [] then [] else AllSent(sent[..|sent| - 1]) + sent[|sent| - 1].frames
  }

  predicate Inv(w: World) {
    && w.t.qmax == TXQLEN
    && w.t.pktcnt == Total(w.t.q) <= w.t.qmax
    && (w.t.avail <= w.cap || w.t.avail <= 0)
    && AllSent(w.sent) + w.t.frames == w.dequeued
    && (forall i :: 0 <= i < |w.sent| ==>
          0 < |w.sent[i].frames| <= w.sent[i].credits - DATA_FLOW_CTRL_THRESH && w.sent[i].credits <= w.cap)
    && match w.pc
       case Idle => w.t.frames == []
       case Looping =>
         w.t.frames != [] ==> |w.t.frames| < w.t.avail - DATA_FLOW_CTRL_THRESH && Total(w.t.q) > 0
       case Joined(_) => 0 < |w.t.frames| <= w.t.avail - DATA_FLOW_CTRL_THRESH
  }

  lemma TakenTotal(q: Fifos<seq<byte>>)
    ensures Taken(q).1.Some? <==> Total(q) > 0
    ensures Taken(q).1.Some? ==> Total(Taken(q).0) == Total(q) - 1
    ensures Taken(q).1.None? ==> Taken(q).0 == q
  {
    TotalZero(q);
    var p := Highest(q);
    if p >= 0 {
      TotalUpdate(q, p, q[p][1..]);
    }
  }

  lemma OfferedTotal(q: Fifos<seq<byte>>, qmax: nat, x: seq<byte>, prio: nat)
    requires prio < PRIOS
    ensures var (r, ok) := Offered(q, qmax, x, prio);
            Total(r) == Total(q) + (if ok then 1 else 0) && (ok ==> Total(r) <= qmax)
  {
    TotalUpdate(q, prio, q[prio] + [x]);
  }

  lemma EmptyTotal(cap: int)
    ensures Total(Init(cap).t.q) == 0
  {
    TotalZero(Init(cap).t.q);
  }

  /** Sending an aggregate keeps the books. */
  lemma LoggedKeepsInv(w: World, pc: Pc)
    requires Inv(w) && 0 < |w.t.frames| <= w.t.avail - DATA_FLOW_CTRL_THRESH && !pc.Joined?
    ensures Inv(Logged(w, true, pc)) && Logged(w, true, pc).t.avail >= DATA_FLOW_CTRL_THRESH
  {
  }

  lemma FlowCtrlRange(readable: bool, reg: byte, cap: int)
    ensures FlowCtrl(readable, reg, cap) <= cap || FlowCtrl(readable, reg, cap) <= 0
  {
  }

  lemma StepKeepsInv(w: World, s: Step)
    requires Inv(w) && Enabled(w, s)
    ensures Inv(Next(w, s))
  {
    hide Total, Taken, Offered, FlowCtrl, AllSent;
    match s
    case Produce(x, prio) => OfferedTotal(w.t.q, w.t.qmax, x, prio);
    case Start(readable, reg) => FlowCtrlRange(readable, reg, w.cap);
    case Iterate(readable, reg, cmd) =>
      FlowCtrlRange(readable, reg, w.cap);
      TakenTotal(w.t.q);
      assert AllSent(w.sent) + (w.t.frames + []) == w.dequeued;
    case Finish =>
      if Goes(w.t, w.pc.txnow) {
        LoggedKeepsInv(w, if w.pc.txnow then Idle else Looping);
      }
  }

  lemma {:induction false} RunKeepsInv(cap: int, steps: seq<Step>)
    ensures Run(cap, steps).Some? ==> Inv(Run(cap, steps).value) && Run(cap, steps).value.cap == cap
  {
    if steps == [] {
      EmptyTotal(cap);
    } else {
      hide Inv, Init;
      var last := |steps| - 1;
      RunKeepsInv(cap, steps[..last]);
      if Run(cap, steps).Some? {
        StepKeepsInv(Run(cap, steps[..last]).value, steps[last]);
      }
    }
  }

  /** Between sends the aggregate is empty or leaves credits over; no aggregate that went out
      held more frames than the credits minus two; whatever producers do. */
  lemma CreditsAreSafe(cap: int, steps: seq<Step>)
    requires Run(cap, steps).Some?
    ensures var w := Run(cap, steps).value;
            && (!w.pc.Joined? ==> w.t.frames == [] || |w.t.frames| < w.t.avail - DATA_FLOW_CTRL_THRESH)
            && (forall i :: 0 <= i < |w.sent| ==> |w.sent[i].frames| <= w.sent[i].credits - DATA_FLOW_CTRL_THRESH)
  {
    RunKeepsInv(cap, steps);
  }

  /** Only reading the register can bring the credits below two: a send never does. */
  lemma SendingLeavesTwoCredits(w: World, s: Step)
    requires Inv(w) && Enabled(w, s)
    ensures Next(w, s).sent != w.sent ==> Next(w, s).t.avail >= DATA_FLOW_CTRL_THRESH
  {
  }

  // ----- how many frames one reading of the register pays for

  /** The frames that went out since the register was last read. */
  function SinceRead(w: World): seq<seq<byte>>
    requires w.mark <= |w.sent|
  {
    AllSent(w.sent[w.mark..])
  }

  /** The credits left are those last read, less a frame for each that went out since; frames
      went out only while two credits stayed. */
  predicate Booked(w: World) {
    && w.mark <= |w.sent|
    && w.t.avail == w.reading - |SinceRead(w)|
    && (SinceRead(w) != [] ==> w.t.avail >= 2)
  }

  lemma SendKeepsBooked(w: World, pc: Pc)
    requires Inv(w) && Booked(w) && 0 < |w.t.frames| <= w.t.avail - DATA_FLOW_CTRL_THRESH
    ensures Booked(Logged(w, true, pc))
  {
    var t := Logged(w, true, pc);
    var since := t.sent[w.mark..];
    assert since[..|since| - 1] == w.sent[w.mark..];
  }

  lemma StepKeepsBooked(w: World, s: Step)
    requires Inv(w) && Booked(w) && Enabled(w, s)
    ensures Booked(Next(w, s))
  {
    hide Total, Taken, Offered, FlowCtrl, AllSent;
    NothingSent();
    assert w.sent[|w.sent|..] == [];
    if s.Iterate? && w.t.avail > DATA_FLOW_CTRL_THRESH {
      FlushBranchUnreachable(w);
    } else if s.Finish? && Goes(w.t, w.pc.txnow) {
      SendKeepsBooked(w, if w.pc.txnow then Idle else Looping);
    }
  }

  lemma NothingSent()
    ensures AllSent([]) == []
  {
  }

  lemma {:induction false} RunKeepsBooked(cap: int, steps: seq<Step>)
    ensures Run(cap, steps).Some? ==> Booked(Run(cap, steps).value)
  {
    if steps != [] {
      hide Inv, Booked, Next;
      var last := |steps| - 1;
      RunKeepsInv(cap, steps[..last]);
      RunKeepsBooked(cap, steps[..last]);
      if Run(cap, steps).Some? {
        StepKeepsBooked(Run(cap, steps[..last]).value, steps[last]);
      }
    }
  }

  /** Over every run the credits are what was last read less all frames sent since; what went
      out on one reading, with what is in the aggregate, is at most that reading minus two. */
  lemma ReadingPaysForFrames(cap: int, steps: seq<Step>)
    requires Run(cap, steps).Some?
    ensures var w := Run(cap, steps).value;
            && w.mark <= |w.sent|
            && w.t.avail == w.reading - |SinceRead(w)|
            && (SinceRead(w) + w.t.frames != [] ==> |SinceRead(w)| + |w.t.frames| <= w.reading - 2)
  {
    RunKeepsInv(cap, steps);
    RunKeepsBooked(cap, steps);
  }

  /** More than two credits are read exactly if the register can be read and says so, and then
      they are the lesser of what it says and the cap. */
  lemma ReadingExactly(readable: bool, reg: byte, cap: int)
    ensures var c := FlowCtrl(readable, reg, cap);
            && (c > 2 <==> readable && reg as int > 2 && cap > 2)
            && (c > 2 ==> (c == reg as int || c == cap) && c <= reg as int && c <= cap)
  {
  }

  /** A round of the loop with frames queued and credits over takes the oldest frame of the
      highest priority and puts it at the end of the aggregate. */
  lemma RoundExactly(w: World, readable: bool, reg: byte, cmd: bool)
    requires Inv(w) && w.pc.Looping? && w.t.pktcnt > 0 && w.t.avail > 2
    ensures var t := Next(w, Iterate(readable, reg, cmd));
            && t.pc == Joined(cmd) && t.sent == w.sent && t.t.avail == w.t.avail && t.t.pktcnt == w.t.pktcnt - 1
            && exists x :: t.t.frames == w.t.frames + [x] && t.dequeued == w.dequeued + [x]
                           && exists p: nat :: TakesFrom(w.t.q, p, x, t.t.q)
  {
    hide Total;
    FlushBranchUnreachable(w);
    TakenTotal(w.t.q);
    TakenHighest(w.t.q);
  }

  /** An aggregate goes out exactly when a frame has joined it and the queue is empty, a command
      waits, or all credits but two are used; it goes out whole. */
  lemma GoesOutExactly(w: World, s: Step)
    requires Inv(w) && Enabled(w, s)
    ensures var t := Next(w, s);
            && (t.sent != w.sent <==>
                  s.Finish? && (w.t.pktcnt == 0 || w.pc.txnow || |w.t.frames| == w.t.avail - 2))
            && (t.sent != w.sent ==> t.sent == w.sent + [Outgoing(w.t.avail, w.t.frames)] && t.t.frames == [])
            && (s.Finish? && t.sent == w.sent ==> t.t == w.t)
  {
    hide Total, Taken, Offered, FlowCtrl;
    if s.Iterate? && w.t.avail > DATA_FLOW_CTRL_THRESH {
      FlushBranchUnreachable(w);
    }
  }

  /** A frame is refused exactly when 8192 are queued; otherwise it is the last of its FIFO. */
  lemma QueuedExactly(w: World, x: seq<byte>, prio: nat)
    requires Inv(w) && prio < PRIOS
    ensures var t := Next(w, Produce(x, prio));
            && (t.t.pktcnt == w.t.pktcnt <==> w.t.pktcnt == 8192)
            && (t.t.pktcnt == w.t.pktcnt ==> t == w)
            && (t.t.pktcnt != w.t.pktcnt ==>
                  t == w.(t := w.t.(q := w.t.q[prio := w.t.q[prio] + [x]], pktcnt := w.t.pktcnt + 1)))
  {
    hide Total;
  }

  /** In the loop the aggregate never has all its credits used: the branch of the send that
      would flush it first is never taken with frames in it. */
  lemma FlushBranchUnreachable(w: World)
    requires Inv(w) && w.pc.Looping? && w.t.avail > DATA_FLOW_CTRL_THRESH
    ensures !AllCreditsUsed(w.t)
  {
  }

  /** Every frame taken from the queue goes out, once, in the order taken; and when the
      thread leaves the loop none is left behind in the aggregate. */
  lemma EveryFrameIsSent(cap: int, steps: seq<Step>)
    requires Run(cap, steps).Some?
    ensures var w := Run(cap, steps).value;
            && w.dequeued == AllSent(w.sent) + w.t.frames
            && w.t.pktcnt == Total(w.t.q)
            && (w.pc.Idle? ==> w.dequeued == AllSent(w.sent))
  {
    RunKeepsInv(cap, steps);
  }

  // ----- from the queue to the reader

  /** The blocks that carry these aggregates. */
  ghost predicate AreBlocks(chip: Chip, sent: seq<Outgoing>, blocks: seq<seq<byte>>) {
    |blocks| == |sent| && forall i :: 0 <= i < |sent| ==> IsBlock(chip, sent[i].frames, blocks[i])
  }

  ghost predicate AllReadable(blocks: seq<seq<byte>>) {
    forall i :: 0 <= i < |blocks| ==> Readable(blocks[i])
  }

  lemma AllReceivedConcat(chip: Chip, a: seq<seq<byte>>, b: seq<seq<byte>>)
    ensures AllReceived(chip, a + b) == AllReceived(chip, a) + AllReceived(chip, b)
  {
    hide Received;
  }

  predicate AllDescribable(chip: Chip, contents: seq<seq<byte>>) {
    forall i :: 0 <= i < |contents| ==> Describable(chip, contents[i])
  }

  lemma DescribableParts(chip: Chip, a: seq<seq<byte>>, b: seq<seq<byte>>)
    requires AllDescribable(chip, a + b)
    ensures AllDescribable(chip, a) && AllDescribable(chip, b)
  {
    hide Describable;
    assert forall i :: 0 <= i < |a| ==> (a + b)[i] == a[i];
    assert forall i :: 0 <= i < |b| ==> (a + b)[|a| + i] == b[i];
  }

  lemma {:induction false} BlocksReadBack(chip: Chip, sent: seq<Outgoing>, blocks: seq<seq<byte>>)
    requires AreBlocks(chip, sent, blocks) && AllDescribable(chip, AllSent(sent))
    ensures AllReadable(blocks) && ReadAll(blocks) == AllReceived(chip, AllSent(sent))
  {
    hide Describable, IsBlock, Readable, ReadFrames, AllReceived, Received;
    if sent == [] {
      assert AllReceived(chip, []) == [] by { NothingReceived(chip); }
    } else {
      var last := |sent| - 1;
      var a, b := AllSent(sent[..last]), sent[last].frames;
      DescribableParts(chip, a, b);
      BlocksReadBack(chip, sent[..last], blocks[..last]);
      BlockReadsBack(chip, b, blocks[last]);
      AllReceivedConcat(chip, a, b);
    }
  }

  lemma NothingReceived(chip: Chip)
    ensures AllReceived(chip, []) == []
  {
  }

  /** Over every run: a reader of all the blocks gets exactly the packets dequeued, in order and
      with their padding, but for those still in the aggregate, if and only if the header can
      describe each of them.  None is still there when the thread is idle. */
  lemma ReaderGetsEveryPacket(cap: int, steps: seq<Step>, chip: Chip, blocks: seq<seq<byte>>)
    requires Run(cap, steps).Some? && AreBlocks(chip, Run(cap, steps).value.sent, blocks)
    ensures var w := Run(cap, steps).value;
            var gone := AllSent(w.sent);
            && w.dequeued == gone + w.t.frames && (w.pc.Idle? ==> gone == w.dequeued)
            && (AllDescribable(chip, gone) <==>
                AllReadable(blocks) && ReadAll(blocks) == AllReceived(chip, gone))
  {
    hide Inv, Next, Describable, IsBlock, Readable, Received;
    EveryFrameIsSent(cap, steps);
    var w := Run(cap, steps).value;
    var gone := AllSent(w.sent);
    if AllDescribable(chip, gone) {
      BlocksReadBack(chip, w.sent, blocks);
    } else {
      var i :| 0 <= i < |gone| && !Describable(chip, gone[i]);
      DescribableLength(chip, gone[i]);
      assert AllReceived(chip, gone)[i] == Received(chip, gone[i]);
      if AllReadable(blocks) { ReadAllLengths(blocks); }
    }
  }

  // ----- the aggregate fits its buffer

  /** The largest frame: 3276 bytes with header and padding. */
  predicate SmallFrame(x: seq<byte>) {
    FrameSize(|x|) <= 3276
  }

  predicate AllSmall(contents: seq<seq<byte>>) {
    forall i :: 0 <= i < |contents| ==> SmallFrame(contents[i])
  }

  predicate Small(w: World) {
    && (forall p :: 0 <= p < PRIOS ==> AllSmall(w.t.q[p]))
    && AllSmall(w.t.frames)
    && forall i :: 0 <= i < |w.sent| ==> AllSmall(w.sent[i].frames)
  }

  lemma {:induction false} SizeOfSmall(contents: seq<seq<byte>>)
    requires AllSmall(contents)
    ensures SizeOf(contents) <= 3276 * |contents| && SizeOf(contents) % 4 == 0
  {
    hide FrameSize;
    if contents != [] {
      var last := |contents| - 1;
      SizeOfSmall(contents[..last]);
      assert SmallFrame(contents[last]);
    }
  }

  lemma StepKeepsSmall(w: World, s: Step)
    requires Small(w) && Enabled(w, s) && (s.Produce? ==> SmallFrame(s.x))
    ensures Small(Next(w, s))
  {
  }

  lemma {:induction false} RunKeepsSmall(cap: int, steps: seq<Step>)
    requires forall i :: 0 <= i < |steps| && steps[i].Produce? ==> SmallFrame(steps[i].x)
    ensures Run(cap, steps).Some? ==> Small(Run(cap, steps).value)
  {
    if steps != [] {
      hide Small;
      var last := |steps| - 1;
      RunKeepsSmall(cap, steps[..last]);
      if Run(cap, steps).Some? {
        StepKeepsSmall(Run(cap, steps[..last]).value, steps[last]);
      }
    }
  }

  lemma BlocksFit(n: nat)
    requires n <= 30 * 3276
    ensures RoundUpBlock(n) <= TXPKT_BLOCKSIZE * AGGR_BLOCKS && n + 24 <= TXPKT_BLOCKSIZE * AGGR_BLOCKS
  {
  }

  /** With the default cap of 32 and frames of at most 3276 bytes, every aggregate fits the
      buffer, rounded up to whole blocks, and there is always room for the frame that joins
      next. */
  lemma AggregatesFit(cap: int, steps: seq<Step>)
    requires cap <= 32 && Run(cap, steps).Some?
    requires forall i :: 0 <= i < |steps| && steps[i].Produce? ==> SmallFrame(steps[i].x)
    ensures TXPKT_BLOCKSIZE * AGGR_BLOCKS == 1536 * 64
    ensures var w := Run(cap, steps).value;
            && (forall i :: 0 <= i < |w.sent| ==>
                  RoundUpBlock(SizeOf(w.sent[i].frames)) <= TXPKT_BLOCKSIZE * AGGR_BLOCKS)
            && (w.pc.Looping? && w.t.avail > DATA_FLOW_CTRL_THRESH && Begin(w.t).1.Some? ==>
                  SizeOf(w.t.frames) + FrameSize(|Begin(w.t).1.value|) <= TXPKT_BLOCKSIZE * AGGR_BLOCKS)
  {
    hide SmallFrame, Total, SizeOf, FrameSize, RoundUpBlock;
    RunKeepsInv(cap, steps);
    RunKeepsSmall(cap, steps);
    var w := Run(cap, steps).value;
    forall i | 0 <= i < |w.sent|
      ensures RoundUpBlock(SizeOf(w.sent[i].frames)) <= TXPKT_BLOCKSIZE * AGGR_BLOCKS
    {
      SizeOfSmall(w.sent[i].frames);
      BlocksFit(SizeOf(w.sent[i].frames));
    }
    if w.pc.Looping? && w.t.avail > DATA_FLOW_CTRL_THRESH && Begin(w.t).1.Some? {
      SizeOfSmall(w.t.frames);
      JoiningIsSmall(w);
    }
  }

  lemma JoiningIsSmall(w: World)
    requires Small(w) && Begin(w.t).1.Some?
    ensures FrameSize(|Begin(w.t).1.value|) <= 3276
  {
  }
}
