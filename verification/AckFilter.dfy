/**
 The TCP ACK filter: 32 flow slots, each of which lets some acknowledgements through, holds
 the newest one back, and drops those it supersedes.

 This module holds the operations.  Each is a method of AckManager, proved against a
 function on the manager's value; AckRuns runs those functions in every order.
 */
module AckFilter {
  import opened Bytes
  import opened Wrappers

  const SLOTS: nat := 32
  const TWO_31: nat := 0x8000_0000
  const TWO_64: nat := 0x1_0000_0000_0000_0000

  /** MAX_TCP_ACK: longer frames are not looked at. */
  const MAX_TCP_ACK: nat := 200

  type u16 = n: nat | n < 0x1_0000

  datatype Flow = Flow(source: u16, dest: u16, saddr: u32, daddr: u32)

  /** A buffer offered to the filter, with the flow and the acknowledgement number of its
      frame.  The number is the true one, not reduced modulo 2^32; the filter sees Seq. */
  datatype Msg = Msg(id: nat, flow: Flow, ack: nat) {
    function Seq(): u32 { ack % TWO_32 }
  }

  /** What the parser says of a frame: not a droppable acknowledgement, or one, with the
      window scale option it carried (0 if none). */
  datatype Verdict = Plain | Ack(winScale: u16)

  datatype Slot = Slot(
    busy: bool, flow: Flow, top: u32, winScale: u16,
    dropCnt: nat, pshFlag: bool, pshSeq: u32,
    lastTime: u64, timer: bool,
    msgbuf: Option<Msg>,     // the acknowledgement held back
    inSend: Option<Msg>)     // the one last let through and not yet reported sent

  datatype Manage = Manage(
    enable: bool, maxNum: int, freeIndex: int, maxDropCnt: nat,
    lastTime: u64, timeout: u64, slots: seq<Slot>)

  predicate Sized(m: Manage) {
    |m.slots| == SLOTS && m.freeIndex < SLOTS
  }

  /** U32_BEFORE: a is not after b, by the sign of their 32-bit difference. */
  predicate Before(a: u32, b: u32) {
    var d := (a - b) % TWO_32;
    d == 0 || d >= TWO_31
  }

  /** time_after(now, since + timeout) on 64-bit tick counts. */
  predicate Expired(now: u64, since: u64, timeout: u64) {
    (since + timeout - now) % TWO_64 >= 0x8000_0000_0000_0000
  }

  // ----- the operations as functions

  /** A busy slot whose flow has been quiet for too long. */
  predicate Aged(s: Slot, now: u64, timeout: u64) {
    s.busy && Expired(now, s.lastTime, timeout)
  }

  /** Frees the aged slots among the first n, from the last down. */
  function AgeSlots(m: Manage, now: u64, n: nat): (r: Manage)
    requires Sized(m) && n <= SLOTS
    ensures Sized(r)
    decreases n
  {
    if n == 0 then m
    else if Aged(m.slots[n - 1], now, m.timeout) then
      AgeSlots(m.(freeIndex := n - 1, maxNum := m.maxNum - 1,
                  slots := m.slots[n - 1 := m.slots[n - 1].(busy := false)]), now, n - 1)
    else AgeSlots(m, now, n - 1)
  }

  function Update(m: Manage, now: u64): (r: Manage)
    requires Sized(m)
    ensures Sized(r)
  {
    if Expired(now, m.lastTime, m.timeout) then AgeSlots(m.(lastTime := now), now, SLOTS) else m
  }

  /** The busy slot of a flow; |slots| if there is none. */
  function MatchIndex(slots: seq<Slot>, flow: Flow): (i: nat)
    ensures i <= |slots|
    ensures i < |slots| ==> slots[i].busy && slots[i].flow == flow
    ensures forall j :: 0 <= j < i ==> !(slots[j].busy && slots[j].flow == flow)
  {
    if slots == [] || (slots[0].busy && slots[0].flow == flow) then 0
    else 1 + MatchIndex(slots[1..], flow)
  }

  /** The first slot that is not busy; |slots| if there is none. */
  function FirstFree(slots: seq<Slot>): (i: nat)
    ensures i <= |slots|
    ensures i < |slots| ==> !slots[i].busy
    ensures forall j :: 0 <= j < i ==> slots[j].busy
  {
    if slots == [] || !slots[0].busy then 0 else 1 + FirstFree(slots[1..])
  }

  /** The slot for a new flow, -1 if none; and the manager with its counters adjusted. */
  function AllocIndex(m: Manage): (Manage, int)
    requires Sized(m)
  {
    if m.maxNum == SLOTS then (m, -1)
    else if m.freeIndex >= 0 then (m.(freeIndex := -1, maxNum := m.maxNum + 1), m.freeIndex)
    else
      var i := FirstFree(m.slots);
      if i < SLOTS then (m.(freeIndex := -1, maxNum := m.maxNum + 1), i) else (m, -1)
  }

  /** An acknowledgement arrives for the flow of slot s.  Returns the slot, whether the
      filter kept or dropped the buffer, and which buffer it dropped. */
  function HandleNew(s: Slot, maxDropCnt: nat, msg: Msg, now: u64): (Slot, bool, Option<Msg>) {
    if Before(s.top, msg.Seq()) then
      var quick := s.pshFlag && !Before(msg.Seq(), s.pshSeq);
      var dropCnt := if quick then s.dropCnt else s.dropCnt + 1;
      var base := s.(lastTime := now, top := msg.Seq(), pshFlag := s.pshFlag && !quick);
      if quick || (s.inSend.None? && dropCnt >= maxDropCnt) then
        (base.(dropCnt := 0, inSend := Some(msg), timer := false, msgbuf := None), false, s.msgbuf)
      else
        (base.(dropCnt := dropCnt, timer := true, msgbuf := Some(msg)), true, s.msgbuf)
    else
      (s.(lastTime := now), true, Some(msg))
  }

  /** The slot taken over by a new flow.  Its buffers and its timer are left as they are. */
  function TakeSlot(s: Slot, maxDropCnt: nat, msg: Msg, winScale: u16, now: u64): Slot {
    s.(busy := true, pshFlag := false, lastTime := now, dropCnt := maxDropCnt,
       winScale := if winScale != 0 then winScale else 1, flow := msg.flow, top := msg.Seq())
  }

  /** Offers a buffer for sending.  Returns the manager, whether the filter kept or dropped
      the buffer (if not, the caller sends it), and which buffer was dropped. */
  function FilterSend(m: Manage, msg: Msg, plen: nat, verdict: Verdict, now: u64): (Manage, bool, Option<Msg>)
    requires Sized(m)
  {
    if plen > MAX_TCP_ACK then (m, false, None) else
    var m1 := Update(m, now);
    if verdict.Plain? then (m1, false, None) else
    var i := MatchIndex(m1.slots, msg.flow);
    if i < SLOTS then
      var s := if verdict.winScale != 0 then m1.slots[i].(winScale := verdict.winScale) else m1.slots[i];
      if m1.enable then
        var (s', filtered, dropped) := HandleNew(s, m1.maxDropCnt, msg, now);
        (m1.(slots := m1.slots[i := s']), filtered, dropped)
      else (m1.(slots := m1.slots[i := s]), false, None)
    else
      var (m2, k) := AllocIndex(m1);
      if k >= 0 then
        (m2.(slots := m2.slots[k := TakeSlot(m2.slots[k], m2.maxDropCnt, msg, verdict.winScale, now)]), false, None)
      else (m2, false, None)
  }

  /** A received frame with PSH set notes the sequence number to acknowledge quickly. */
  function FilterReceive(m: Manage, plen: nat, psh: Option<(Flow, u32)>): Manage
    requires Sized(m)
  {
    if !m.enable || plen > MAX_TCP_ACK || psh.None? then m else
    var i := MatchIndex(m.slots, psh.value.0);
    if i < SLOTS then
      m.(slots := m.slots[i := m.slots[i].(pshFlag := true, pshSeq := psh.value.1)])
    else m
  }

  /** The timer of slot i fires.  Returns the held buffer if it is to be sent now. */
  function Timeout(m: Manage, i: nat): (Manage, Option<Msg>)
    requires Sized(m) && i < SLOTS
  {
    var s := m.slots[i].(timer := false);
    if s.busy && s.msgbuf.Some? && s.inSend.None? then
      (m.(slots := m.slots[i := s.(msgbuf := None, dropCnt := 0, inSend := s.msgbuf)]), s.msgbuf)
    else (m.(slots := m.slots[i := s]), None)
  }

  /** A buffer has gone out: slots no longer wait for it. */
  function Moved(m: Manage, msg: Msg): Manage {
    if !m.enable then m
    else m.(slots := seq(|m.slots|, i requires 0 <= i < |m.slots| => ClearSent(m.slots[i], msg)))
  }

  function ClearSent(s: Slot, msg: Msg): Slot {
    if s.busy && s.inSend == Some(msg) then s.(inSend := None) else s
  }

  function Fresh(maxDropCnt: nat, timeout: u64, now: u64): (m: Manage)
    ensures Sized(m)
  {
    Manage(true, 0, 0, maxDropCnt, now, timeout, seq(SLOTS, _ =>
      Slot(false, Flow(0, 0, 0, 0), 0, 0, 0, false, 0, now, false, None, None)))
  }

  // ----- the operations as the driver runs them

  class AckManager {
    var enable: bool
    var maxNum: int
    var freeIndex: int
    var maxDropCnt: nat
    var lastTime: u64
    const timeout: u64
    const slots: array<Slot>

    ghost function View(): Manage
      reads this, slots
    {
      Manage(enable, maxNum, freeIndex, maxDropCnt, lastTime, timeout, slots[..])
    }

    constructor (maxDropCnt: nat, timeout: u64, now: u64)
      ensures View() == Fresh(maxDropCnt, timeout, now) && fresh(slots)
    {
      this.enable, this.maxNum, this.freeIndex := true, 0, 0;
      this.maxDropCnt, this.lastTime, this.timeout := maxDropCnt, now, timeout;
      slots := new Slot[SLOTS](_ =>
        Slot(false, Flow(0, 0, 0, 0), 0, 0, 0, false, 0, now, false, None, None));
    }

    method UpdateSlots(now: u64)
      requires slots.Length == SLOTS && freeIndex < SLOTS
      modifies this, slots
      ensures View() == Update(old(View()), now)
    {
      if Expired(now, lastTime, timeout) {
        lastTime := now;
        var i := SLOTS - 1;
        while i >= 0
          invariant -1 <= i < SLOTS && freeIndex < SLOTS
          invariant AgeSlots(View(), now, i + 1) == AgeSlots(old(View()).(lastTime := now), now, SLOTS)
        {
          ghost var before := View();
          if slots[i].busy && Expired(now, slots[i].lastTime, timeout) {
            freeIndex := i;
            maxNum := maxNum - 1;
            slots[i] := slots[i].(busy := false);
            assert slots[..] == before.slots[i := slots[i]];
          }
          i := i - 1;
        }
      }
    }

    method Match(flow: Flow) returns (ret: int)
      requires slots.Length == SLOTS && freeIndex < SLOTS
      ensures var i := MatchIndex(slots[..], flow);
              ret == if i < SLOTS then i else -1
    {
      ret := -1;
      var i := 0;
      while ret < 0 && i < SLOTS
        invariant 0 <= i <= SLOTS
        invariant ret < 0 ==> ret == -1 && MatchIndex(slots[..], flow) == i + MatchIndex(slots[i..], flow)
        invariant ret >= 0 ==> ret == MatchIndex(slots[..], flow) < SLOTS
        decreases SLOTS - i
      {
        if slots[i].busy && slots[i].flow == flow {
          ret := i;
        }
        assert slots[i..][1..] == slots[i + 1..];
        i := i + 1;
      }
    }

    method Alloc() returns (ret: int)
      requires slots.Length == SLOTS && freeIndex < SLOTS
      modifies this
      ensures (View(), ret) == AllocIndex(old(View()))
    {
      if maxNum == SLOTS {
        return -1;
      }
      if freeIndex >= 0 {
        ret := freeIndex;
        freeIndex := -1;
        maxNum := maxNum + 1;
        return;
      }
      ret := -1;
      var i := 0;
      ghost var m := View();
      while ret < 0 && i < SLOTS
        invariant 0 <= i <= SLOTS
        invariant ret < 0 ==> ret == -1 && View() == m && FirstFree(slots[..]) == i + FirstFree(slots[i..])
        invariant ret >= 0 ==> ret == FirstFree(slots[..]) < SLOTS && View() == m.(freeIndex := -1, maxNum := m.maxNum + 1)
        decreases SLOTS - i
      {
        if !slots[i].busy {
          freeIndex := -1;
          maxNum := maxNum + 1;
          ret := i;
        }
        assert slots[i..][1..] == slots[i + 1..];
        i := i + 1;
      }
    }

    method Handle(i: nat, msg: Msg, now: u64) returns (filtered: bool, dropped: Option<Msg>)
      requires slots.Length == SLOTS && freeIndex < SLOTS && i < SLOTS
      modifies slots
      ensures var (s, f, d) := HandleNew(old(slots[i]), maxDropCnt, msg, now);
              slots[..] == old(slots[..])[i := s] && filtered == f && dropped == d
    {
      filtered, dropped := false, None;
      var quick := false;
      var s := slots[i].(lastTime := now);
      if Before(s.top, msg.Seq()) {
        if s.msgbuf.Some? {
          dropped := s.msgbuf;
          s := s.(msgbuf := None);
        }
        if s.pshFlag && !Before(msg.Seq(), s.pshSeq) {
          s := s.(pshFlag := false);
          quick := true;
        } else {
          s := s.(dropCnt := s.dropCnt + 1);
        }
        s := s.(top := msg.Seq());
        if quick || (s.inSend.None? && s.dropCnt >= maxDropCnt) {
          s := s.(dropCnt := 0, inSend := Some(msg), timer := false);
        } else {
          filtered := true;
          s := s.(msgbuf := Some(msg));
          if !s.timer {
            s := s.(timer := true);
          }
        }
      } else {
        dropped := Some(msg);
        filtered := true;
      }
      slots[i] := s;
    }

    method Send(msg: Msg, plen: nat, verdict: Verdict, now: u64) returns (filtered: bool, dropped: Option<Msg>)
      requires slots.Length == SLOTS && freeIndex < SLOTS
      modifies this, slots
      ensures (View(), filtered, dropped) == FilterSend(old(View()), msg, plen, verdict, now)
    {
      filtered, dropped := false, None;
      if plen > MAX_TCP_ACK {
        return;
      }
      UpdateSlots(now);
      if verdict.Plain? {
        return;
      }
      var index := Match(msg.flow);
      if index >= 0 {
        ghost var m1 := View();
        if verdict.winScale != 0 && slots[index].winScale != verdict.winScale {
          slots[index] := slots[index].(winScale := verdict.winScale);
        }
        assert slots[..] == m1.slots[index := if verdict.winScale != 0 then m1.slots[index].(winScale := verdict.winScale) else m1.slots[index]];
        if enable {
          filtered, dropped := Handle(index, msg, now);
          assert slots[..] == m1.slots[index := slots[index]];
        }
        return;
      }
      index := Alloc();
      if index >= 0 {
        slots[index] := slots[index].(busy := true, pshFlag := false, lastTime := now, dropCnt := maxDropCnt,
          winScale := if verdict.winScale != 0 then verdict.winScale else 1, flow := msg.flow, top := msg.Seq());
      }
    }

    method Receive(plen: nat, psh: Option<(Flow, u32)>)
      requires slots.Length == SLOTS && freeIndex < SLOTS
      modifies slots
      ensures View() == FilterReceive(old(View()), plen, psh)
    {
      if !enable || plen > MAX_TCP_ACK || psh.None? {
        return;
      }
      var index := Match(psh.value.0);
      if index >= 0 {
        slots[index] := slots[index].(pshFlag := true, pshSeq := psh.value.1);
      }
    }

    method Fire(i: nat) returns (sent: Option<Msg>)
      requires slots.Length == SLOTS && freeIndex < SLOTS && i < SLOTS
      modifies slots
      ensures (View(), sent) == Timeout(old(View()), i)
      ensures var s := old(slots[i]); sent == if s.busy && s.inSend.None? then s.msgbuf else None
    {
      slots[i] := slots[i].(timer := false);
      sent := None;
      if slots[i].busy && slots[i].msgbuf.Some? && slots[i].inSend.None? {
        sent := slots[i].msgbuf;
        slots[i] := slots[i].(msgbuf := None, dropCnt := 0, inSend := sent);
      }
      assert slots[..] == old(slots[..])[i := slots[i]];
    }

    method Move(msg: Msg)
      requires slots.Length == SLOTS && freeIndex < SLOTS
      modifies slots
      ensures View() == Moved(old(View()), msg)
    {
      if !enable {
        return;
      }
      var i := 0;
      while i < SLOTS
        invariant 0 <= i <= SLOTS
        invariant forall j :: 0 <= j < i ==> slots[j] == ClearSent(old(slots[j]), msg)
        invariant forall j :: i <= j < SLOTS ==> slots[j] == old(slots[j])
      {
        if slots[i].busy && slots[i].inSend == Some(msg) {
          slots[i] := slots[i].(inSend := None);
        }
        i := i + 1;
      }
    }
  }
}
