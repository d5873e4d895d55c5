/**
 Every order of calls into the TCP ACK filter: buffers offered for sending, frames received,
 timers firing, buffers reported sent, and slots ageing out.

 Three things are followed along a run.  The slot table stays consistent.  Each buffer
 offered is in exactly one place: handed on for sending, held by one slot, or dropped.  And
 the filter's 32-bit comparisons agree with the true acknowledgement numbers.
 */
module AckRuns {
  import opened Bytes
  import opened Wrappers
  import opened AckFilter

  datatype Event =
    | Send(msg: Msg, plen: nat, verdict: Verdict, now: u64)
    | Receive(plen: nat, psh: Option<(Flow, u32)>)
    | Fire(i: nat)
    | Sent(msg: Msg)

  /** The manager, where the buffers went, and for each slot the largest acknowledgement
      number, as a true number, its flow has shown since it took the slot. */
  datatype World = World(
    m: Manage, offered: set<Msg>, handed: set<Msg>, dropped: set<Msg>, newest: seq<nat>)

  predicate Shaped(w: World) {
    Sized(w.m) && |w.newest| == SLOTS
  }

  function Init(maxDropCnt: nat, timeout: u64, now: u64): World {
    World(Fresh(maxDropCnt, timeout, now), {}, {}, {}, seq(SLOTS, _ => 0))
  }

  /** A buffer is offered once; only a pending timer fires. */
  predicate Enabled(w: World, e: Event)
    requires Shaped(w)
  {
    match e
    case Send(msg, _, _, _) => msg !in w.offered
    case Fire(i) => i < SLOTS && w.m.slots[i].timer
    case _ => true
  }

  function Max(a: nat, b: nat): nat { if a < b then b else a }

  /** The slot whose flow a buffer offered now belongs to, once aged slots are freed. */
  function FlowSlot(w: World, e: Event): (i: nat)
    requires Shaped(w) && e.Send?
    ensures i <= SLOTS
  {
    MatchIndex(Update(w.m, e.now).slots, e.msg.flow)
  }

  predicate LooksAt(e: Event) {
    e.Send? && e.plen <= MAX_TCP_ACK && e.verdict.Ack?
  }

  /** The slot a new flow takes; -1 if none. */
  function TakenSlot(w: World, e: Event): int
    requires Shaped(w) && e.Send?
  {
    AllocIndex(Update(w.m, e.now)).1
  }

  function NewestAfter(w: World, e: Event): (r: seq<nat>)
    requires Shaped(w)
    ensures |r| == SLOTS
  {
    if !LooksAt(e) then w.newest
    else
      var i := FlowSlot(w, e);
      var k := TakenSlot(w, e);
      if i < SLOTS then (if w.m.enable then w.newest[i := Max(w.newest[i], e.msg.ack)] else w.newest)
      else if 0 <= k < SLOTS then w.newest[k := e.msg.ack]
      else w.newest
  }

  function Adding(s: set<Msg>, m: Option<Msg>): set<Msg> {
    if m.Some? then s + {m.value} else s
  }

  function Next(w: World, e: Event): World
    requires Shaped(w) && Enabled(w, e)
  {
    match e
    case Send(msg, plen, verdict, now) =>
      var (m, filtered, dropped) := FilterSend(w.m, msg, plen, verdict, now);
      World(m, w.offered + {msg}, if filtered then w.handed else w.handed + {msg},
            Adding(w.dropped, dropped), NewestAfter(w, e))
    case Receive(plen, psh) => w.(m := FilterReceive(w.m, plen, psh))
    case Fire(i) =>
      var (m, sent) := Timeout(w.m, i);
      w.(m := m, handed := Adding(w.handed, sent))
    case Sent(msg) => w.(m := Moved(w.m, msg))
  }

  // ----- the slot table

  function CountBusy(slots: seq<Slot>): (n: nat)
    ensures n <= |slots|
  {
    if slots == [] then 0 else CountBusy(slots[1..]) + (if slots[0].busy then 1 else 0)
  }

  lemma {:induction false} CountUpdate(slots: seq<Slot>, i: nat, s: Slot)
    requires i < |slots|
    ensures CountBusy(slots[i := s]) ==
            CountBusy(slots) - (if slots[i].busy then 1 else 0) + (if s.busy then 1 else 0)
  {
    if i > 0 {
      assert slots[i := s][1..] == slots[1..][i - 1 := s];
      CountUpdate(slots[1..], i - 1, s);
    } else {
      assert slots[i := s][1..] == slots[1..];
    }
  }

  lemma {:induction false} CountFull(slots: seq<Slot>)
    ensures CountBusy(slots) == |slots| <==> forall i :: 0 <= i < |slots| ==> slots[i].busy
  {
    if slots != [] {
      CountFull(slots[1..]);
      if forall i :: 0 <= i < |slots[1..]| ==> slots[1..][i].busy {
        forall i | 1 <= i < |slots| ensures slots[i].busy { assert slots[1..][i - 1].busy; }
      }
    }
  }

  /** The counter is exact, the hint names a free slot, no flow has two slots. */
  predicate Table(m: Manage) {
    && Sized(m)
    && m.maxNum == CountBusy(m.slots)
    && (m.freeIndex >= 0 ==> !m.slots[m.freeIndex].busy)
    && forall i, j :: 0 <= i < j < SLOTS && m.slots[i].busy && m.slots[j].busy ==>
         m.slots[i].flow != m.slots[j].flow
  }

  /** Ageing changes nothing in a slot but its busy flag, and only from true to false. */
  predicate OnlyFrees(a: seq<Slot>, b: seq<Slot>) {
    |a| == |b| && forall i :: 0 <= i < |a| ==> b[i] == a[i] || b[i] == a[i].(busy := false)
  }

  lemma {:induction false} AgeKeepsTable(m: Manage, now: u64, n: nat)
    requires Table(m) && n <= SLOTS
    ensures Table(AgeSlots(m, now, n)) && OnlyFrees(m.slots, AgeSlots(m, now, n).slots)
    ensures AgeSlots(m, now, n).enable == m.enable && AgeSlots(m, now, n).maxDropCnt == m.maxDropCnt
    ensures AgeSlots(m, now, n).timeout == m.timeout && AgeSlots(m, now, n).lastTime == m.lastTime
    decreases n
  {
    hide CountBusy;
    if n > 0 {
      if Aged(m.slots[n - 1], now, m.timeout) {
        var s := m.slots[n - 1].(busy := false);
        CountUpdate(m.slots, n - 1, s);
        AgeKeepsTable(m.(freeIndex := n - 1, maxNum := m.maxNum - 1, slots := m.slots[n - 1 := s]), now, n - 1);
      } else {
        AgeKeepsTable(m, now, n - 1);
      }
    }
  }

  lemma UpdateKeepsTable(m: Manage, now: u64)
    requires Table(m)
    ensures Table(Update(m, now)) && OnlyFrees(m.slots, Update(m, now).slots)
    ensures Update(m, now).enable == m.enable && Update(m, now).maxDropCnt == m.maxDropCnt
  {
    if Expired(now, m.lastTime, m.timeout) {
      AgeKeepsTable(m.(lastTime := now), now, SLOTS);
    }
  }

  /** A slot found for a new flow is free, and one is found unless all 32 are busy. */
  lemma AllocFindsFree(m: Manage)
    requires Table(m)
    ensures var (r, k) := AllocIndex(m);
            && (k == -1 <==> forall i :: 0 <= i < SLOTS ==> m.slots[i].busy)
            && (k == -1 ==> r == m)
            && (k != -1 ==> 0 <= k < SLOTS && !m.slots[k].busy && r == m.(freeIndex := -1, maxNum := m.maxNum + 1))
  {
    CountFull(m.slots);
  }

  lemma TakeKeepsTable(m: Manage, k: nat, s: Slot)
    requires Table(m) && k < SLOTS && !m.slots[k].busy && s.busy
    requires MatchIndex(m.slots, s.flow) == SLOTS
    ensures Table(m.(freeIndex := -1, maxNum := m.maxNum + 1, slots := m.slots[k := s]))
  {
    hide CountBusy;
    CountUpdate(m.slots, k, s);
  }

  lemma ReplaceKeepsTable(m: Manage, i: nat, s: Slot)
    requires Table(m) && i < SLOTS && s.busy == m.slots[i].busy && s.flow == m.slots[i].flow
    ensures Table(m.(slots := m.slots[i := s]))
  {
    hide CountBusy;
    CountUpdate(m.slots, i, s);
  }

  lemma {:induction false} SameBusyCount(a: seq<Slot>, b: seq<Slot>)
    requires |a| == |b| && forall i :: 0 <= i < |a| ==> a[i].busy == b[i].busy
    ensures CountBusy(a) == CountBusy(b)
  {
    if a != [] { SameBusyCount(a[1..], b[1..]); }
  }

  lemma StepKeepsTable(w: World, e: Event)
    requires Shaped(w) && Table(w.m) && Enabled(w, e)
    ensures Shaped(Next(w, e)) && Table(Next(w, e).m)
  {
    match e
    case Send(msg, plen, verdict, now) =>
      UpdateKeepsTable(w.m, now);
      AllocFindsFree(Update(w.m, now));
      SendKeepsTable(w, e);
    case Receive(plen, psh) =>
      if psh.Some? && MatchIndex(w.m.slots, psh.value.0) < SLOTS {
        var i := MatchIndex(w.m.slots, psh.value.0);
        ReplaceKeepsTable(w.m, i, w.m.slots[i].(pshFlag := true, pshSeq := psh.value.1));
      }
    case Fire(i) =>
      ReplaceKeepsTable(w.m, i, Next(w, e).m.slots[i]);
    case Sent(msg) =>
      SameBusyCount(w.m.slots, Next(w, e).m.slots);
  }

  lemma SendKeepsTable(w: World, e: Event)
    requires Shaped(w) && Table(w.m) && e.Send? && Enabled(w, e)
    ensures Table(FilterSend(w.m, e.msg, e.plen, e.verdict, e.now).0)
  {
    hide Table, Update, MatchIndex;
    var m := Update(w.m, e.now);
    UpdateKeepsTable(w.m, e.now);
    if LooksAt(e) {
      var i := MatchIndex(m.slots, e.msg.flow);
      var r := FilterSend(w.m, e.msg, e.plen, e.verdict, e.now).0;
      if i < SLOTS {
        ReplaceKeepsTable(m, i, r.slots[i]);
      } else {
        AllocFindsFree(m);
        var k := AllocIndex(m).1;
        if k >= 0 {
          TakeKeepsTable(m, k, r.slots[k]);
        }
      }
    }
  }

  // ----- who owns a buffer

  predicate HeldIn(slots: seq<Slot>, x: Msg) {
    exists i :: 0 <= i < |slots| && slots[i].msgbuf == Some(x)
  }

  /** No buffer is held twice. */
  predicate HeldOnce(slots: seq<Slot>) {
    forall i, j :: 0 <= i < j < |slots| && slots[i].msgbuf.Some? ==> slots[i].msgbuf != slots[j].msgbuf
  }

  /** Each buffer offered is in exactly one of three places. */
  ghost predicate Owned(w: World) {
    && HeldOnce(w.m.slots)
    && (forall x :: x in w.offered <==> x in w.handed || x in w.dropped || HeldIn(w.m.slots, x))
    && w.handed !! w.dropped
    && (forall i :: 0 <= i < |w.m.slots| && w.m.slots[i].msgbuf.Some? ==>
          w.m.slots[i].msgbuf.value !in w.handed && w.m.slots[i].msgbuf.value !in w.dropped)
    && (forall i :: 0 <= i < |w.m.slots| && w.m.slots[i].inSend.Some? ==> w.m.slots[i].inSend.value in w.handed)
  }

  /** Replacing one slot changes what is held by what that slot held and holds. */
  lemma HeldAfter(slots: seq<Slot>, i: nat, s: Slot)
    requires i < |slots| && HeldOnce(slots)
    requires s.msgbuf.None? || s.msgbuf == slots[i].msgbuf || !HeldIn(slots, s.msgbuf.value)
    ensures HeldOnce(slots[i := s])
    ensures forall x :: HeldIn(slots[i := s], x) <==>
              s.msgbuf == Some(x) || (HeldIn(slots, x) && slots[i].msgbuf != Some(x))
  {
    var after := slots[i := s];
    forall x
      ensures HeldIn(after, x) <==> s.msgbuf == Some(x) || (HeldIn(slots, x) && slots[i].msgbuf != Some(x))
    {
      if s.msgbuf == Some(x) { assert after[i].msgbuf == Some(x); }
      if HeldIn(slots, x) && slots[i].msgbuf != Some(x) {
        var j :| 0 <= j < |slots| && slots[j].msgbuf == Some(x);
        assert after[j].msgbuf == Some(x);
      }
      if HeldIn(after, x) && s.msgbuf != Some(x) {
        var j :| 0 <= j < |after| && after[j].msgbuf == Some(x);
        assert slots[j].msgbuf == Some(x);
      }
    }
    forall j, k | 0 <= j < k < |after| && after[j].msgbuf.Some?
      ensures after[j].msgbuf != after[k].msgbuf
    {
      assert j != i ==> HeldIn(slots, after[j].msgbuf.value);
      assert k != i && after[k].msgbuf.Some? ==> HeldIn(slots, after[k].msgbuf.value);
    }
  }

  /** Slots that agree on their buffers hold the same. */
  lemma HeldSame(a: seq<Slot>, b: seq<Slot>)
    requires |a| == |b| && HeldOnce(a)
    requires forall i :: 0 <= i < |a| ==> a[i].msgbuf == b[i].msgbuf
    ensures HeldOnce(b) && forall x :: HeldIn(a, x) <==> HeldIn(b, x)
  {
  }

  /** The manager with its aged slots freed, the rest of the world unchanged. */
  function AfterAgeing(w: World, now: u64): World
    requires Shaped(w)
  {
    w.(m := Update(w.m, now))
  }

  lemma AgeKeepsOwned(w: World, now: u64)
    requires Shaped(w) && Table(w.m) && Owned(w)
    ensures Owned(AfterAgeing(w, now))
  {
    UpdateKeepsTable(w.m, now);
    HeldSame(w.m.slots, Update(w.m, now).slots);
  }

  /** An acknowledgement handled by slot i: the buffer is sent, held or dropped, and what
      the slot held before is dropped unless it stays. */
  lemma HandleKeepsOwned(w: World, i: nat, s: Slot, msg: Msg, now: u64)
    requires Shaped(w) && Owned(w) && i < SLOTS && msg !in w.offered
    requires s.msgbuf == w.m.slots[i].msgbuf && s.inSend == w.m.slots[i].inSend
    ensures var (s', filtered, dropped) := HandleNew(s, w.m.maxDropCnt, msg, now);
            && Owned(World(w.m.(slots := w.m.slots[i := s']), w.offered + {msg},
                           if filtered then w.handed else w.handed + {msg}, Adding(w.dropped, dropped), w.newest))
            && (filtered <==> s'.msgbuf == Some(msg) || dropped == Some(msg))
            && !(s'.msgbuf == Some(msg) && dropped == Some(msg))
  {
    hide HeldOnce, Before;
    var (s', filtered, dropped) := HandleNew(s, w.m.maxDropCnt, msg, now);
    assert !HeldIn(w.m.slots, msg);
    assert s.msgbuf.Some? ==> HeldIn(w.m.slots, s.msgbuf.value);
    HeldAfter(w.m.slots, i, s');
  }

  /** A slot replaced by one with the same buffers, the caller sending its buffer. */
  lemma PassKeepsOwned(w: World, i: nat, s: Slot, msg: Msg)
    requires Shaped(w) && Owned(w) && i < SLOTS && msg !in w.offered
    requires s.msgbuf == w.m.slots[i].msgbuf && s.inSend == w.m.slots[i].inSend
    ensures Owned(w.(m := w.m.(slots := w.m.slots[i := s]), offered := w.offered + {msg}, handed := w.handed + {msg}))
  {
    HeldSame(w.m.slots, w.m.slots[i := s]);
  }

  lemma SendKeepsOwned(w: World, e: Event)
    requires Shaped(w) && Table(w.m) && Owned(w) && e.Send? && Enabled(w, e)
    ensures Owned(Next(w, e))
  {
    var v := AfterAgeing(w, e.now);
    UpdateKeepsTable(w.m, e.now);
    AgeKeepsOwned(w, e.now);
    var t := Next(w, e);
    if !LooksAt(e) {
    } else if FlowSlot(w, e) < SLOTS {
      var i := FlowSlot(w, e);
      var s := if e.verdict.winScale != 0 then v.m.slots[i].(winScale := e.verdict.winScale) else v.m.slots[i];
      if w.m.enable {
        HandleKeepsOwned(v, i, s, e.msg, e.now);
      } else {
        PassKeepsOwned(v, i, s, e.msg);
      }
    } else {
      AllocFindsFree(v.m);
      var k := TakenSlot(w, e);
      if k >= 0 {
        PassKeepsOwned(v, k, t.m.slots[k], e.msg);
      }
    }
  }

  lemma FireKeepsOwned(w: World, i: nat)
    requires Shaped(w) && Owned(w) && Enabled(w, Fire(i))
    ensures Owned(Next(w, Fire(i)))
  {
    var s := w.m.slots[i];
    assert s.msgbuf.Some? ==> HeldIn(w.m.slots, s.msgbuf.value);
    HeldAfter(w.m.slots, i, Next(w, Fire(i)).m.slots[i]);
  }

  lemma StepKeepsOwned(w: World, e: Event)
    requires Shaped(w) && Table(w.m) && Owned(w) && Enabled(w, e)
    ensures Shaped(Next(w, e)) && Owned(Next(w, e))
  {
    StepKeepsTable(w, e);
    match e
    case Send(_, _, _, _) => SendKeepsOwned(w, e);
    case Fire(i) => FireKeepsOwned(w, i);
    case _ => HeldSame(w.m.slots, Next(w, e).m.slots);
  }

  // ----- what one offer does to the slots

  /** The one slot an offer can change, ageing apart; SLOTS if none. */
  function Touched(w: World, e: Event): (i: nat)
    requires Shaped(w) && e.Send?
    ensures i <= SLOTS
  {
    var k := TakenSlot(w, e);
    if !LooksAt(e) then SLOTS
    else if FlowSlot(w, e) < SLOTS then FlowSlot(w, e)
    else if 0 <= k < SLOTS then k
    else SLOTS
  }

  function WithScale(s: Slot, winScale: u16): Slot {
    if winScale != 0 then s.(winScale := winScale) else s
  }

  /** Whether the filter compares this offer with what the flow's slot knows. */
  predicate Compares(w: World, e: Event)
    requires Shaped(w)
  {
    LooksAt(e) && w.m.enable && FlowSlot(w, e) < SLOTS
  }

  lemma OtherSlots(w: World, e: Event)
    requires Shaped(w) && Table(w.m) && e.Send? && Enabled(w, e)
    ensures var t := Next(w, e);
            && Shaped(t) && w.handed <= t.handed <= w.handed + {e.msg} && t.offered == w.offered + {e.msg}
            && (!Compares(w, e) ==> e.msg in t.handed)
            && forall i :: 0 <= i < SLOTS && i != Touched(w, e) ==>
                 (t.m.slots[i] == w.m.slots[i] || t.m.slots[i] == w.m.slots[i].(busy := false))
                 && t.newest[i] == w.newest[i]
  {
    UpdateKeepsTable(w.m, e.now);
    AllocFindsFree(Update(w.m, e.now));
    StepKeepsTable(w, e);
  }

  lemma TouchedSlot(w: World, e: Event)
    requires Shaped(w) && Table(w.m) && e.Send? && Enabled(w, e) && Touched(w, e) < SLOTS
    ensures var t, i := Next(w, e), Touched(w, e);
            var s := w.m.slots[i];
            && Shaped(t) && t.m.slots[i].busy && t.m.slots[i].flow == e.msg.flow
            && (FlowSlot(w, e) < SLOTS ==> s.busy && s.flow == e.msg.flow)
            && (FlowSlot(w, e) == SLOTS ==>
                  t.m.slots[i] == TakeSlot(s, w.m.maxDropCnt, e.msg, e.verdict.winScale, e.now)
                  && t.newest[i] == e.msg.ack && e.msg in t.handed)
            && (FlowSlot(w, e) < SLOTS && !w.m.enable ==>
                  t.m.slots[i] == WithScale(s, e.verdict.winScale) && t.newest[i] == w.newest[i]
                  && e.msg in t.handed)
            && (Compares(w, e) ==>
                  var (s', filtered, dropped) := HandleNew(WithScale(s, e.verdict.winScale), w.m.maxDropCnt, e.msg, e.now);
                  t.m.slots[i] == s' && t.newest[i] == Max(w.newest[i], e.msg.ack)
                  && t.dropped == Adding(w.dropped, dropped)
                  && t.handed == if filtered then w.handed else w.handed + {e.msg})
  {
    UpdateKeepsTable(w.m, e.now);
    AllocFindsFree(Update(w.m, e.now));
    StepKeepsTable(w, e);
  }

  // ----- 32-bit numbers and true numbers

  /** What U32_BEFORE says of two true numbers, whatever they are. */
  lemma BeforeExact(a: nat, b: nat)
    ensures Before(a % TWO_32, b % TWO_32) <==> (b - a) % TWO_32 <= TWO_31
  {
    var d: int, e: int := (a % TWO_32 - b % TWO_32) % TWO_32, (b - a) % TWO_32;
    assert (d + e) % TWO_32 == 0 by { OppositeRemainders(a, b); }
  }

  lemma OppositeRemainders(a: nat, b: nat)
    ensures ((a % TWO_32 - b % TWO_32) % TWO_32 + (b - a) % TWO_32) % TWO_32 == 0
  {
  }

  /** Two numbers close enough are compared correctly. */
  predicate Close(newest: nat, ack: nat) {
    newest < ack + TWO_31 && ack <= newest + TWO_31
  }

  lemma BeforeIsOrder(a: nat, b: nat)
    requires Close(a, b)
    ensures Before(a % TWO_32, b % TWO_32) <==> a <= b
  {
  }

  /** The acknowledgement this event has the filter compare is close to the newest one. */
  predicate InWindow(w: World, e: Event)
    requires Shaped(w)
  {
    Compares(w, e) ==> Close(w.newest[FlowSlot(w, e)], e.msg.ack)
  }

  /** Each busy slot's 32-bit number is its running maximum, reduced. */
  predicate Tracks(w: World)
    requires Shaped(w)
  {
    forall i :: 0 <= i < SLOTS && w.m.slots[i].busy ==> w.m.slots[i].top == w.newest[i] % TWO_32
  }

  /** The newest acknowledgement of slot i's flow was handed on, or slot i holds it. */
  ghost predicate NewestKept(w: World, i: nat)
    requires Shaped(w) && i < SLOTS
  {
    exists x :: (x in w.handed || w.m.slots[i].msgbuf == Some(x))
                && x.flow == w.m.slots[i].flow && x.ack == w.newest[i]
  }

  ghost predicate Kept(w: World)
    requires Shaped(w)
  {
    forall i :: 0 <= i < SLOTS && w.m.slots[i].busy ==> NewestKept(w, i)
  }

  ghost predicate Inv(w: World) {
    Shaped(w) && Table(w.m) && Owned(w) && Tracks(w) && Kept(w)
  }

  lemma NewestKeptBy(w: World, i: nat, x: Msg)
    requires Shaped(w) && i < SLOTS
    requires x in w.handed || w.m.slots[i].msgbuf == Some(x)
    requires x.flow == w.m.slots[i].flow && x.ack == w.newest[i]
    ensures NewestKept(w, i)
  {
  }

  /** Slot i is still served if it kept its flow and its maximum and its buffer did not
      leave for anywhere but the bus. */
  lemma NewestStaysKept(w: World, t: World, i: nat)
    requires Shaped(w) && Shaped(t) && i < SLOTS && NewestKept(w, i)
    requires w.handed <= t.handed && t.newest[i] == w.newest[i] && t.m.slots[i].flow == w.m.slots[i].flow
    requires w.m.slots[i].msgbuf == t.m.slots[i].msgbuf ||
             (w.m.slots[i].msgbuf.Some? && w.m.slots[i].msgbuf.value in t.handed)
    ensures NewestKept(t, i)
  {
  }

  /** The slot that handles an acknowledgement: its number becomes the running maximum, and
      the acknowledgement carrying it is at hand. */
  lemma HandleTracks(w: World, e: Event)
    requires Inv(w) && Enabled(w, e) && InWindow(w, e) && Compares(w, e)
    ensures var t, i := Next(w, e), FlowSlot(w, e);
            && t.newest[i] == Max(w.newest[i], e.msg.ack)
            && t.m.slots[i].top == t.newest[i] % TWO_32
            && NewestKept(t, i)
  {
    hide Next, Owned;
    var i, t := FlowSlot(w, e), Next(w, e);
    TouchedSlot(w, e);
    OtherSlots(w, e);
    BeforeIsOrder(w.newest[i], e.msg.ack);
    if w.newest[i] <= e.msg.ack {
      NewestKeptBy(t, i, e.msg);
    } else {
      NewestStaysKept(w, t, i);
    }
  }

  lemma SendTracks(w: World, e: Event)
    requires Inv(w) && Enabled(w, e) && InWindow(w, e) && e.Send?
    ensures Tracks(Next(w, e)) && Kept(Next(w, e))
  {
    hide Next, Owned;
    var t := Next(w, e);
    OtherSlots(w, e);
    forall i | 0 <= i < SLOTS && t.m.slots[i].busy
      ensures t.m.slots[i].top == t.newest[i] % TWO_32 && NewestKept(t, i)
    {
      if i == Touched(w, e) {
        TouchedSlot(w, e);
        if FlowSlot(w, e) == SLOTS {
          NewestKeptBy(t, i, e.msg);
        } else if w.m.enable {
          HandleTracks(w, e);
        } else {
          NewestStaysKept(w, t, i);
        }
      } else {
        NewestStaysKept(w, t, i);
      }
    }
  }

  lemma StepKeepsInv(w: World, e: Event)
    requires Inv(w) && Enabled(w, e) && InWindow(w, e)
    ensures Inv(Next(w, e))
  {
    StepKeepsTable(w, e);
    StepKeepsOwned(w, e);
    if e.Send? {
      SendTracks(w, e);
    } else {
      var t := Next(w, e);
      forall i | 0 <= i < SLOTS && t.m.slots[i].busy
        ensures NewestKept(t, i)
      {
        NewestStaysKept(w, t, i);
      }
    }
  }

  // ----- nothing newer is lost

  /** If slot i is busy, it holds nothing but an acknowledgement of its own flow. */
  predicate OwnSlot(w: World, i: nat)
    requires Shaped(w) && i < SLOTS
  {
    w.m.slots[i].busy && w.m.slots[i].msgbuf.Some? ==>
      w.m.slots[i].msgbuf.value.flow == w.m.slots[i].flow && w.m.slots[i].msgbuf.value.ack <= w.newest[i]
  }

  predicate Own(w: World)
    requires Shaped(w)
  {
    forall i :: 0 <= i < SLOTS ==> OwnSlot(w, i)
  }

  /** The event gives a new flow a slot that aged out while still holding an
      acknowledgement that the new one does not supersede. */
  predicate StaleTake(w: World, e: Event)
    requires Shaped(w)
  {
    && LooksAt(e) && FlowSlot(w, e) == SLOTS && 0 <= TakenSlot(w, e) < SLOTS
    && var held := w.m.slots[TakenSlot(w, e)].msgbuf;
       held.Some? && (held.value.flow != e.msg.flow || held.value.ack > e.msg.ack)
  }

  /** x says at least as much as d, and was handed on or is held. */
  ghost predicate Covers(w: World, x: Msg, d: Msg) {
    (x in w.handed || HeldIn(w.m.slots, x)) && x.flow == d.flow && x.ack >= d.ack
  }

  ghost predicate Covered(w: World) {
    forall d :: d in w.offered ==> exists x :: Covers(w, x, d)
  }

  lemma TouchedOwnExact(w: World, e: Event)
    requires Inv(w) && Own(w) && Enabled(w, e) && InWindow(w, e) && e.Send? && Touched(w, e) < SLOTS
    ensures Shaped(Next(w, e)) && (OwnSlot(Next(w, e), Touched(w, e)) <==> !StaleTake(w, e))
  {
    hide Next, Owned, Kept, Table;
    TouchedSlot(w, e);
    assert OwnSlot(w, Touched(w, e));
    if Compares(w, e) {
      BeforeIsOrder(w.newest[FlowSlot(w, e)], e.msg.ack);
    }
  }

  lemma SendOwnExact(w: World, e: Event)
    requires Inv(w) && Own(w) && Enabled(w, e) && InWindow(w, e) && e.Send?
    ensures Shaped(Next(w, e)) && (Own(Next(w, e)) <==> !StaleTake(w, e))
  {
    hide Next, Table, Owned, Kept, Tracks, AckFilter.Update, AckFilter.AllocIndex, AckFilter.MatchIndex;
    var t := Next(w, e);
    OtherSlots(w, e);
    if Touched(w, e) < SLOTS {
      TouchedOwnExact(w, e);
    }
    forall i | 0 <= i < SLOTS && i != Touched(w, e)
      ensures OwnSlot(t, i)
    {
      assert OwnSlot(w, i);
    }
  }

  /** A slot comes to hold another flow's acknowledgement exactly by a stale take. */
  lemma OwnExact(w: World, e: Event)
    requires Inv(w) && Own(w) && Enabled(w, e) && InWindow(w, e)
    ensures Shaped(Next(w, e)) && (Own(Next(w, e)) <==> !StaleTake(w, e))
  {
    StepKeepsTable(w, e);
    if e.Send? {
      SendOwnExact(w, e);
    } else {
      var t := Next(w, e);
      forall i | 0 <= i < SLOTS
        ensures OwnSlot(t, i)
      {
        assert OwnSlot(w, i);
      }
    }
  }

  /** The event has the flow's slot give up the acknowledgement it holds for one that does not
      say as much, and nothing else says as much as the one given up. */
  ghost predicate LosesHeld(w: World, e: Event)
    requires Shaped(w)
  {
    && Compares(w, e) && w.newest[FlowSlot(w, e)] <= e.msg.ack
    && var held := w.m.slots[FlowSlot(w, e)].msgbuf;
       && held.Some? && (held.value.flow != e.msg.flow || held.value.ack > e.msg.ack)
       && forall y :: Covers(w, y, held.value) ==> y == held.value
  }

  /** What was handed on or held still is, but for what the flow's slot gives up. */
  lemma PlacesAfter(w: World, e: Event, x: Msg)
    requires Inv(w) && Enabled(w, e) && InWindow(w, e)
    requires x in w.handed || HeldIn(w.m.slots, x)
    ensures var t, gives := Next(w, e), Compares(w, e) && w.newest[FlowSlot(w, e)] <= e.msg.ack;
            && Shaped(t)
            && (gives ==> e.msg in t.handed || HeldIn(t.m.slots, e.msg))
            && (x in t.handed || HeldIn(t.m.slots, x) || (gives && w.m.slots[FlowSlot(w, e)].msgbuf == Some(x)))
  {
    StepKeepsTable(w, e);
    var t := Next(w, e);
    if HeldIn(w.m.slots, x) {
      var j :| 0 <= j < SLOTS && w.m.slots[j].msgbuf == Some(x);
      if e.Send? {
        SendPlace(w, e, j);
      } else {
        assert t.m.slots[j].msgbuf == Some(x) || x in t.handed;
      }
    } else if e.Send? {
      SendPlace(w, e, 0);
    }
  }

  lemma SendPlace(w: World, e: Event, j: nat)
    requires Inv(w) && Enabled(w, e) && InWindow(w, e) && e.Send? && j < SLOTS
    ensures var t, gives := Next(w, e), Compares(w, e) && w.newest[FlowSlot(w, e)] <= e.msg.ack;
            && Shaped(t) && w.handed <= t.handed
            && (gives ==> e.msg in t.handed || HeldIn(t.m.slots, e.msg))
            && (t.m.slots[j].msgbuf == w.m.slots[j].msgbuf || (gives && j == FlowSlot(w, e)))
  {
    hide Next, Owned, Kept, Table, AckFilter.Update, AckFilter.AllocIndex, AckFilter.MatchIndex;
    var t := Next(w, e);
    OtherSlots(w, e);
    if Touched(w, e) < SLOTS { TouchedSlot(w, e); }
    if Compares(w, e) {
      BeforeIsOrder(w.newest[FlowSlot(w, e)], e.msg.ack);
      assert t.m.slots[FlowSlot(w, e)].msgbuf == Some(e.msg) ==> HeldIn(t.m.slots, e.msg);
    }
  }

  /** A cover that goes is replaced by another, unless the event loses what its slot held. */
  lemma CoverMoves(w: World, e: Event, d: Msg)
    requires Inv(w) && Enabled(w, e) && InWindow(w, e) && !LosesHeld(w, e)
    requires exists x :: Covers(w, x, d)
    ensures Shaped(Next(w, e)) && exists x :: Covers(Next(w, e), x, d)
  {
    hide Next, InWindow, Table, Owned, Tracks, Kept;
    var x :| Covers(w, x, d);
    var t := Next(w, e);
    PlacesAfter(w, e, x);
    if x in t.handed || HeldIn(t.m.slots, x) {
      assert Covers(t, x, d);
    } else if x.flow == e.msg.flow && x.ack <= e.msg.ack {
      assert Covers(t, e.msg, d);
    } else {
      var y :| Covers(w, y, x) && y != x;
      PlacesAfter(w, e, y);
      assert Covers(t, y, d);
    }
  }

  lemma NewIsCovered(w: World, e: Event)
    requires Inv(w) && Enabled(w, e) && InWindow(w, e) && e.Send?
    ensures exists y :: Covers(Next(w, e), y, e.msg)
  {
    var t := Next(w, e);
    if e.msg in t.handed {
      assert Covers(t, e.msg, e.msg);
    } else {
      OtherSlots(w, e);
      var i := FlowSlot(w, e);
      HandleTracks(w, e);
      hide Next;
      TouchedSlot(w, e);
      var x :| (x in t.handed || t.m.slots[i].msgbuf == Some(x))
               && x.flow == t.m.slots[i].flow && x.ack == t.newest[i];
      assert t.m.slots[i].msgbuf == Some(x) ==> HeldIn(t.m.slots, x);
      assert Covers(t, x, e.msg);
    }
  }

  /** An offer compared by a slot brings no new cover but itself. */
  lemma CoverIsOld(w: World, e: Event, x: Msg, y: Msg)
    requires Shaped(w) && Table(w.m) && Enabled(w, e) && Compares(w, e)
    ensures Covers(Next(w, e), y, x) && y != e.msg ==> Covers(w, y, x)
  {
    var t := Next(w, e);
    TouchedSlot(w, e);
    OtherSlots(w, e);
    hide Next, Table;
    if HeldIn(t.m.slots, y) && y != e.msg {
      var j :| 0 <= j < SLOTS && t.m.slots[j].msgbuf == Some(y);
      assert w.m.slots[j].msgbuf == Some(y);
      assert HeldIn(w.m.slots, y);
    }
  }

  lemma HeldIsDropped(w: World, e: Event, x: Msg)
    requires Inv(w) && Enabled(w, e) && InWindow(w, e) && Compares(w, e)
    requires w.newest[FlowSlot(w, e)] <= e.msg.ack && w.m.slots[FlowSlot(w, e)].msgbuf == Some(x)
    ensures var t := Next(w, e);
            Shaped(t) && x in t.dropped && x in t.offered && x !in t.handed && !HeldIn(t.m.slots, x)
  {
    hide Next, Kept;
    TouchedSlot(w, e);
    OtherSlots(w, e);
    StepKeepsOwned(w, e);
    BeforeIsOrder(w.newest[FlowSlot(w, e)], e.msg.ack);
    assert HeldIn(w.m.slots, x);
  }

  /** What such an event loses: the acknowledgement given up is dropped and nothing covers it. */
  lemma StaleAcknowledgementIsLost(w: World, e: Event)
    requires Inv(w) && Enabled(w, e) && InWindow(w, e) && LosesHeld(w, e)
    ensures var t, x := Next(w, e), w.m.slots[FlowSlot(w, e)].msgbuf.value;
            Shaped(t) && x in t.dropped && x in t.offered && !(exists y :: Covers(t, y, x)) && !Covered(t)
  {
    hide Next, Table, Owned, Tracks, Kept, InWindow;
    var t, x := Next(w, e), w.m.slots[FlowSlot(w, e)].msgbuf.value;
    HeldIsDropped(w, e, x);
    forall y
      ensures !Covers(t, y, x)
    {
      CoverIsOld(w, e, x, y);
    }
  }

  /** A step keeps everything offered covered, or not, exactly as LosesHeld says beforehand. */
  lemma CoveredExact(w: World, e: Event)
    requires Inv(w) && Covered(w) && Enabled(w, e) && InWindow(w, e)
    ensures Shaped(Next(w, e)) && (Covered(Next(w, e)) <==> !LosesHeld(w, e))
  {
    StepKeepsTable(w, e);
    var t := Next(w, e);
    if LosesHeld(w, e) {
      StaleAcknowledgementIsLost(w, e);
    } else {
      forall d | d in t.offered
        ensures exists x :: Covers(t, x, d)
      {
        if d in w.offered {
          CoverMoves(w, e, d);
        } else {
          NewIsCovered(w, e);
        }
      }
    }
  }

  /** A slot that holds only its own flow's acknowledgements has none to lose. */
  lemma OwnLosesNothing(w: World, e: Event)
    requires Inv(w) && Own(w) && Enabled(w, e)
    ensures !LosesHeld(w, e)
  {
    if Compares(w, e) {
      hide Next, Owned, Kept;
      TouchedSlot(w, e);
      assert OwnSlot(w, FlowSlot(w, e));
    }
  }

  // ----- whole runs

  /** The world after these events, if each is enabled when its turn comes. */
  function Run(start: World, events: seq<Event>): (r: Option<World>)
    requires Shaped(start) && Table(start.m)
    ensures r.Some? ==> Shaped(r.value) && Table(r.value.m)
    decreases |events|
  {
    if events == [] then Some(start)
    else
      var last := |events| - 1;
      match Run(start, events[..last])
      case None => None
      case Some(w) =>
        if Enabled(w, events[last]) then
          StepKeepsTable(w, events[last]);
          Some(Next(w, events[last]))
        else None
  }

  lemma {:induction false} NothingBusy(slots: seq<Slot>)
    requires forall i :: 0 <= i < |slots| ==> !slots[i].busy
    ensures CountBusy(slots) == 0
  {
    if slots != [] { NothingBusy(slots[1..]); }
  }

  lemma StartIsConsistent(maxDropCnt: nat, timeout: u64, now: u64)
    ensures var w := Init(maxDropCnt, timeout, now); Inv(w) && Own(w) && Covered(w)
  {
    NothingBusy(Fresh(maxDropCnt, timeout, now).slots);
  }

  function RunFrom(maxDropCnt: nat, timeout: u64, now: u64, events: seq<Event>): (r: Option<World>)
    ensures r.Some? ==> Shaped(r.value) && Table(r.value.m)
  {
    StartIsConsistent(maxDropCnt, timeout, now);
    Run(Init(maxDropCnt, timeout, now), events)
  }

  /** In every run the slot table is consistent and each buffer offered is in exactly one of
      three places: handed on, held by one slot, or dropped. */
  lemma {:induction false} EveryBufferInOnePlace(maxDropCnt: nat, timeout: u64, now: u64, events: seq<Event>)
    ensures var r := RunFrom(maxDropCnt, timeout, now, events);
            r.Some? ==> Table(r.value.m) && Owned(r.value)
    decreases |events|
  {
    StartIsConsistent(maxDropCnt, timeout, now);
    if events != [] && RunFrom(maxDropCnt, timeout, now, events).Some? {
      var last := |events| - 1;
      EveryBufferInOnePlace(maxDropCnt, timeout, now, events[..last]);
      StepKeepsOwned(RunFrom(maxDropCnt, timeout, now, events[..last]).value, events[last]);
    }
  }

  /** Every acknowledgement compared in this run is close to its flow's newest. */
  ghost predicate AllInWindow(maxDropCnt: nat, timeout: u64, now: u64, events: seq<Event>) {
    forall n :: 0 <= n < |events| && RunFrom(maxDropCnt, timeout, now, events[..n]).Some? ==>
      InWindow(RunFrom(maxDropCnt, timeout, now, events[..n]).value, events[n])
  }

  /** No event of this run is a stale take. */
  ghost predicate NeverStale(maxDropCnt: nat, timeout: u64, now: u64, events: seq<Event>) {
    forall n :: 0 <= n < |events| && RunFrom(maxDropCnt, timeout, now, events[..n]).Some? ==>
      !StaleTake(RunFrom(maxDropCnt, timeout, now, events[..n]).value, events[n])
  }

  lemma AllInWindowPrefix(maxDropCnt: nat, timeout: u64, now: u64, events: seq<Event>)
    requires events != [] && AllInWindow(maxDropCnt, timeout, now, events)
    ensures AllInWindow(maxDropCnt, timeout, now, events[..|events| - 1])
  {
    var prefix := events[..|events| - 1];
    forall n | 0 <= n < |prefix| && RunFrom(maxDropCnt, timeout, now, prefix[..n]).Some?
      ensures InWindow(RunFrom(maxDropCnt, timeout, now, prefix[..n]).value, prefix[n])
    {
      assert prefix[..n] == events[..n];
    }
  }

  lemma NeverStalePrefix(maxDropCnt: nat, timeout: u64, now: u64, events: seq<Event>)
    requires events != [] && NeverStale(maxDropCnt, timeout, now, events)
    ensures NeverStale(maxDropCnt, timeout, now, events[..|events| - 1])
  {
    var prefix := events[..|events| - 1];
    forall n | 0 <= n < |prefix| && RunFrom(maxDropCnt, timeout, now, prefix[..n]).Some?
      ensures !StaleTake(RunFrom(maxDropCnt, timeout, now, prefix[..n]).value, prefix[n])
    {
      assert prefix[..n] == events[..n];
    }
  }

  /** In every run of close acknowledgements, the 32-bit number of each busy slot is its
      flow's true maximum reduced, and an acknowledgement carrying it was handed on or is
      held by that slot. */
  lemma {:induction false} SlotsTrackTrueMaximum(maxDropCnt: nat, timeout: u64, now: u64, events: seq<Event>)
    requires AllInWindow(maxDropCnt, timeout, now, events)
    ensures var r := RunFrom(maxDropCnt, timeout, now, events); r.Some? ==> Inv(r.value)
    decreases |events|
  {
    StartIsConsistent(maxDropCnt, timeout, now);
    if events != [] && RunFrom(maxDropCnt, timeout, now, events).Some? {
      var last := |events| - 1;
      AllInWindowPrefix(maxDropCnt, timeout, now, events);
      SlotsTrackTrueMaximum(maxDropCnt, timeout, now, events[..last]);
      hide Inv, InWindow, Next;
      StepKeepsInv(RunFrom(maxDropCnt, timeout, now, events[..last]).value, events[last]);
    }
  }

  /** Up to every point of this run, each acknowledgement offered has one of the same flow, at
      least as new, that was handed on or is held. */
  ghost predicate AlwaysCovered(maxDropCnt: nat, timeout: u64, now: u64, events: seq<Event>) {
    forall n :: 0 <= n <= |events| && RunFrom(maxDropCnt, timeout, now, events[..n]).Some? ==>
      Covered(RunFrom(maxDropCnt, timeout, now, events[..n]).value)
  }

  /** No event of this run loses what its slot held. */
  ghost predicate NeverLoses(maxDropCnt: nat, timeout: u64, now: u64, events: seq<Event>) {
    forall n :: 0 <= n < |events| && RunFrom(maxDropCnt, timeout, now, events[..n]).Some? ==>
      var w := RunFrom(maxDropCnt, timeout, now, events[..n]).value;
      !(Enabled(w, events[n]) && LosesHeld(w, events[n]))
  }

  /** Both conditions, one event further. */
  lemma LastEvent(maxDropCnt: nat, timeout: u64, now: u64, events: seq<Event>)
    requires events != []
    ensures var last := |events| - 1;
            var r, before := RunFrom(maxDropCnt, timeout, now, events), RunFrom(maxDropCnt, timeout, now, events[..last]);
            && (r.Some? ==> before.Some? && Enabled(before.value, events[last]) && r.value == Next(before.value, events[last]))
            && (AlwaysCovered(maxDropCnt, timeout, now, events) <==>
                  AlwaysCovered(maxDropCnt, timeout, now, events[..last]) && (r.Some? ==> Covered(r.value)))
            && (NeverLoses(maxDropCnt, timeout, now, events) <==>
                  NeverLoses(maxDropCnt, timeout, now, events[..last])
                  && (r.Some? ==> !LosesHeld(before.value, events[last])))
  {
    hide Covered, LosesHeld, Next, Enabled;
    var last := |events| - 1;
    assert events[..|events|] == events;
    assert forall n :: 0 <= n <= last ==> events[..last][..n] == events[..n];
  }

  /** In every run of close acknowledgements nothing newer is ever lost if and only if no event
      loses what its slot held. */
  lemma {:induction false} NothingNewerIsLostExactly(maxDropCnt: nat, timeout: u64, now: u64, events: seq<Event>)
    requires AllInWindow(maxDropCnt, timeout, now, events)
    ensures AlwaysCovered(maxDropCnt, timeout, now, events) <==> NeverLoses(maxDropCnt, timeout, now, events)
    decreases |events|
  {
    StartIsConsistent(maxDropCnt, timeout, now);
    if events != [] {
      var last := |events| - 1;
      AllInWindowPrefix(maxDropCnt, timeout, now, events);
      NothingNewerIsLostExactly(maxDropCnt, timeout, now, events[..last]);
      LastEvent(maxDropCnt, timeout, now, events);
      if RunFrom(maxDropCnt, timeout, now, events).Some? && AlwaysCovered(maxDropCnt, timeout, now, events[..last]) {
        SlotsTrackTrueMaximum(maxDropCnt, timeout, now, events[..last]);
        var w := RunFrom(maxDropCnt, timeout, now, events[..last]).value;
        hide Inv, InWindow, Next, Covered, LosesHeld;
        assert events[..last][..last] == events[..last];
        CoveredExact(w, events[last]);
      }
    }
  }

  /** In particular if no slot is taken over while it holds a stale acknowledgement. */
  lemma {:induction false} NothingNewerIsLost(maxDropCnt: nat, timeout: u64, now: u64, events: seq<Event>)
    requires AllInWindow(maxDropCnt, timeout, now, events) && NeverStale(maxDropCnt, timeout, now, events)
    ensures var r := RunFrom(maxDropCnt, timeout, now, events); r.Some? ==> Own(r.value) && Covered(r.value)
    decreases |events|
  {
    StartIsConsistent(maxDropCnt, timeout, now);
    if events != [] && RunFrom(maxDropCnt, timeout, now, events).Some? {
      var last := |events| - 1;
      AllInWindowPrefix(maxDropCnt, timeout, now, events);
      NeverStalePrefix(maxDropCnt, timeout, now, events);
      NothingNewerIsLost(maxDropCnt, timeout, now, events[..last]);
      SlotsTrackTrueMaximum(maxDropCnt, timeout, now, events[..last]);
      var w := RunFrom(maxDropCnt, timeout, now, events[..last]).value;
      hide Inv, InWindow, Next, StaleTake, Own, Covered, LosesHeld;
      OwnExact(w, events[last]);
      OwnLosesNothing(w, events[last]);
      CoveredExact(w, events[last]);
    }
  }

  /** The filter keeps or drops a buffer exactly when its caller must not send it. */
  lemma CallerSendsWhatIsNotFiltered(w: World, e: Event)
    requires Shaped(w) && Table(w.m) && Owned(w) && e.Send? && Enabled(w, e)
    ensures var t, filtered := Next(w, e), FilterSend(w.m, e.msg, e.plen, e.verdict, e.now).1;
            && (filtered <==> e.msg !in t.handed)
            && (filtered <==> HeldIn(t.m.slots, e.msg) || e.msg in t.dropped)
            && !(HeldIn(t.m.slots, e.msg) && e.msg in t.dropped)
  {
    StepKeepsOwned(w, e);
    var t := Next(w, e);
    if HeldIn(t.m.slots, e.msg) {
      var i :| 0 <= i < SLOTS && t.m.slots[i].msgbuf == Some(e.msg);
    }
  }

  // ----- a run with a stale take

  /** Ageing frees exactly the quiet slots, and hints at the first of them. */
  lemma {:induction false} AgeExact(m: Manage, now: u64, n: nat)
    requires Sized(m) && n <= SLOTS
    ensures var r := AgeSlots(m, now, n);
            && (forall i | 0 <= i < SLOTS :: r.slots[i] ==
                  (if i < n && Aged(m.slots[i], now, m.timeout) then m.slots[i].(busy := false) else m.slots[i]))
            && (forall i | 0 <= i < n && Aged(m.slots[i], now, m.timeout) ::
                  0 <= r.freeIndex <= i && Aged(m.slots[r.freeIndex], now, m.timeout))
            && ((forall i :: 0 <= i < n ==> !Aged(m.slots[i], now, m.timeout)) ==> r == m)
    decreases n
  {
    if n > 0 {
      if Aged(m.slots[n - 1], now, m.timeout) {
        var m' := m.(freeIndex := n - 1, maxNum := m.maxNum - 1,
                     slots := m.slots[n - 1 := m.slots[n - 1].(busy := false)]);
        AgeExact(m', now, n - 1);
        assert forall i :: 0 <= i < n - 1 ==> m'.slots[i] == m.slots[i];
      } else {
        AgeExact(m, now, n - 1);
      }
    }
  }

  const FLOW_A := Flow(1, 1, 1, 1)
  const FLOW_B := Flow(2, 2, 2, 2)

  function Offer(id: nat, flow: Flow, ack: nat, now: u64): Event {
    Send(Msg(id, flow, ack), 60, Ack(0), now)
  }

  /** Only slot 0 is in use, by this flow, with these buffers. */
  ghost predicate ZeroHas(w: World, flow: Flow, newest: nat, msgbuf: Option<Msg>, inSend: Option<Msg>,
                          dropCnt: nat, heard: u64, checked: u64)
  {
    && Inv(w) && (forall i :: 0 < i < SLOTS ==> !w.m.slots[i].busy)
    && w.m.enable && w.m.maxDropCnt == 10 && w.m.timeout == 4000 && w.m.lastTime == checked
    && w.newest[0] == newest
    && var s := w.m.slots[0];
       s.busy && s.flow == flow && s.msgbuf == msgbuf && s.inSend == inSend && s.dropCnt == dropCnt
       && !s.pshFlag && s.lastTime == heard
  }

  /** The next acknowledgement of the flow in slot 0, nothing ageing. */
  lemma ExampleQuiet(w: World, id: nat, flow: Flow, newest: nat, msgbuf: Option<Msg>, inSend: Option<Msg>,
                     dropCnt: nat, heard: u64, checked: u64, now: u64)
    requires ZeroHas(w, flow, newest, msgbuf, inSend, dropCnt, heard, checked)
    requires Msg(id, flow, newest + 1) !in w.offered && checked <= now <= checked + 4000 < 0x1_0000_0000
    ensures var e, t := Offer(id, flow, newest + 1, now), Next(w, Offer(id, flow, newest + 1, now));
            && FlowSlot(w, e) == 0 && t.m == w.m.(slots := t.m.slots)
  {
    hide Inv;
  }

  /** It is let through when the drop count is reached and none is being sent, and is held
      otherwise. */
  lemma ExampleCompare(w: World, id: nat, flow: Flow, newest: nat, msgbuf: Option<Msg>, inSend: Option<Msg>,
                       dropCnt: nat, heard: u64, checked: u64, now: u64) returns (t: World)
    requires ZeroHas(w, flow, newest, msgbuf, inSend, dropCnt, heard, checked)
    requires Msg(id, flow, newest + 1) !in w.offered && checked <= now <= checked + 4000 < 0x1_0000_0000
    ensures var e, x := Offer(id, flow, newest + 1, now), Msg(id, flow, newest + 1);
            && Shaped(t) && Enabled(w, e) && t == Next(w, e)
            && InWindow(w, e) && Compares(w, e) && FlowSlot(w, e) == 0
            && t.offered == w.offered + {x}
            && t.handed == (if inSend.None? && dropCnt + 1 >= 10 then w.handed + {x} else w.handed)
            && if inSend.None? && dropCnt + 1 >= 10
               then ZeroHas(t, flow, newest + 1, None, Some(x), 0, now, checked)
               else ZeroHas(t, flow, newest + 1, Some(x), inSend, dropCnt + 1, now, checked) && t.m.slots[0].timer
  {
    hide Next, Owned, Kept, Table, FlowSlot, Update;
    var e := Offer(id, flow, newest + 1, now);
    ExampleQuiet(w, id, flow, newest, msgbuf, inSend, dropCnt, heard, checked, now);
    BeforeIsOrder(newest, newest + 1);
    StepKeepsInv(w, e);
    t := Next(w, e);
    TouchedSlot(w, e);
    OtherSlots(w, e);
  }

  lemma ExampleTake(w: World, e: Event)
    requires Inv(w) && (forall i :: 0 < i < SLOTS ==> !w.m.slots[i].busy) && LooksAt(e) && Enabled(w, e)
    requires FlowSlot(w, e) == SLOTS && TakenSlot(w, e) == 0
    ensures var t := Next(w, e);
            && InWindow(w, e) && Inv(t) && (forall i :: 0 < i < SLOTS ==> !t.m.slots[i].busy)
            && t.m.slots[0] == TakeSlot(w.m.slots[0], w.m.maxDropCnt, e.msg, e.verdict.winScale, e.now)
            && t.newest[0] == e.msg.ack && t.offered == w.offered + {e.msg} && t.handed == w.handed + {e.msg}
            && t.m.enable == w.m.enable && t.m.maxDropCnt == w.m.maxDropCnt && t.m.timeout == w.m.timeout
            && t.m.lastTime == Update(w.m, e.now).lastTime
  {
    hide Next, Table, Owned, Tracks, Kept, Update, AllocIndex, MatchIndex;
    TouchedSlot(w, e);
    OtherSlots(w, e);
    ExampleKnobs(w, e);
    StepKeepsInv(w, e);
  }

  /** An offer leaves the settings as they are. */
  lemma ExampleKnobs(w: World, e: Event)
    requires Shaped(w) && Table(w.m) && LooksAt(e) && Enabled(w, e)
    ensures var m := Next(w, e).m;
            m.enable == w.m.enable && m.maxDropCnt == w.m.maxDropCnt && m.timeout == w.m.timeout
            && m.lastTime == Update(w.m, e.now).lastTime
  {
    AgeKeepsTable(w.m.(lastTime := e.now), e.now, SLOTS);
  }

  lemma ExampleFirst() returns (t: World)
    ensures var w, e := Init(10, 4000, 0), Offer(0, FLOW_A, 1, 0); Enabled(w, e) && t == Next(w, e)
    ensures Shaped(t) && ZeroHas(t, FLOW_A, 1, None, None, 10, 0, 0) && t.offered == t.handed == {Msg(0, FLOW_A, 1)}
  {
    hide Next, InWindow, FlowSlot, TakenSlot, Table, Owned, Tracks, Kept;
    StartIsConsistent(10, 4000, 0);
    var w, e := Init(10, 4000, 0), Offer(0, FLOW_A, 1, 0);
    ExampleEmpty(w, e);
    ExampleTake(w, e);
    t := Next(w, e);
  }

  /** The first flow finds no slot of its own and takes slot 0. */
  lemma ExampleEmpty(w: World, e: Event)
    requires w == Init(10, 4000, 0) && e == Offer(0, FLOW_A, 1, 0)
    ensures Shaped(w) && FlowSlot(w, e) == SLOTS && TakenSlot(w, e) == 0
  {
    hide Next, InWindow;
    StartIsConsistent(10, 4000, 0);
    AllocFindsFree(w.m);
  }

  /** Slot 0 ages out, and the next new flow will take it. */
  lemma ExampleAges(w: World, x: Msg, inSend: Option<Msg>, dropCnt: nat)
    requires ZeroHas(w, FLOW_A, x.ack, Some(x), inSend, dropCnt, 2, 0)
    ensures var e := Offer(3, FLOW_B, 1, 5000); FlowSlot(w, e) == SLOTS && TakenSlot(w, e) == 0
    ensures Update(w.m, 5000).lastTime == 5000
  {
    var m := w.m.(lastTime := 5000);
    AgeExact(m, 5000, SLOTS);
    AgeKeepsTable(m, 5000, SLOTS);
    assert Aged(m.slots[0], 5000, 4000);
    assert AgeSlots(m, 5000, SLOTS) == Update(w.m, 5000);
    AllocFindsFree(Update(w.m, 5000));
  }

  /** Slot 0 ages out, and another flow takes it with the buffer still in it. */
  lemma ExampleStale(w: World, x: Msg, inSend: Option<Msg>, dropCnt: nat) returns (t: World)
    requires ZeroHas(w, FLOW_A, x.ack, Some(x), inSend, dropCnt, 2, 0) && x.flow == FLOW_A
    requires Msg(3, FLOW_B, 1) !in w.offered
    ensures var e := Offer(3, FLOW_B, 1, 5000); Enabled(w, e) && t == Next(w, e) && StaleTake(w, e)
    ensures Shaped(t) && ZeroHas(t, FLOW_B, 1, Some(x), inSend, 10, 5000, 5000) && t.offered == w.offered + {Msg(3, FLOW_B, 1)}
  {
    var e := Offer(3, FLOW_B, 1, 5000);
    ExampleAges(w, x, inSend, dropCnt);
    hide Next, Owned, Table, InWindow, FlowSlot, TakenSlot, Update;
    ExampleTake(w, e);
    t := Next(w, e);
  }

  lemma RunOneMore(start: World, events: seq<Event>, w: World, e: Event)
    requires Shaped(start) && Table(start.m) && Run(start, events) == Some(w) && Enabled(w, e)
    ensures Run(start, events + [e]) == Some(Next(w, e))
  {
  }

  /** The third acknowledgement is held while the second is being sent. */
  lemma ExampleHold() returns (w1: World, w2: World, w3: World)
    ensures var w0, e0 := Init(10, 4000, 0), Offer(0, FLOW_A, 1, 0);
            Shaped(w0) && Table(w0.m) && Enabled(w0, e0) && w1 == Next(w0, e0)
    ensures var e1 := Offer(1, FLOW_A, 2, 1); Shaped(w1) && Enabled(w1, e1) && w2 == Next(w1, e1)
    ensures var e2 := Offer(2, FLOW_A, 3, 2); Shaped(w2) && Enabled(w2, e2) && w3 == Next(w2, e2)
    ensures Shaped(w3) && ZeroHas(w3, FLOW_A, 3, Some(Msg(2, FLOW_A, 3)), Some(Msg(1, FLOW_A, 2)), 1, 2, 0) && w3.m.slots[0].timer
    ensures w3.offered == {Msg(0, FLOW_A, 1), Msg(1, FLOW_A, 2), Msg(2, FLOW_A, 3)}
  {
    hide *;
    StartIsShaped(10, 4000, 0);
    w1 := ExampleFirst();
    w2 := ExampleCompare(w1, 1, FLOW_A, 1, None, None, 10, 0, 0, 1);
    w3 := ExampleCompare(w2, 2, FLOW_A, 2, None, Some(Msg(1, FLOW_A, 2)), 0, 1, 0, 2);
  }

  /** The timer of the held acknowledgement fires in vain: the one before is still being sent. */
  lemma ExampleFire(w: World, x: Msg, y: Msg) returns (t: World)
    requires Shaped(w) && ZeroHas(w, FLOW_A, 3, Some(x), Some(y), 1, 2, 0) && w.m.slots[0].timer
    ensures Enabled(w, Fire(0)) && t == Next(w, Fire(0)) && t.handed == w.handed && t.offered == w.offered
    ensures Shaped(t) && ZeroHas(t, FLOW_A, 3, Some(x), Some(y), 1, 2, 0)
  {
    StepKeepsInv(w, Fire(0));
    t := Next(w, Fire(0));
  }

  /** The buffer being sent is reported sent.  The timer is not started again. */
  lemma ExampleSent(w: World, newest: nat, msgbuf: Option<Msg>, y: Msg, dropCnt: nat, heard: u64) returns (t: World)
    requires Shaped(w) && ZeroHas(w, FLOW_A, newest, msgbuf, Some(y), dropCnt, heard, 0)
    ensures Enabled(w, Sent(y)) && t == Next(w, Sent(y)) && t.handed == w.handed && t.offered == w.offered
    ensures Shaped(t) && ZeroHas(t, FLOW_A, newest, msgbuf, None, dropCnt, heard, 0)
  {
    StepKeepsInv(w, Sent(y));
    t := Next(w, Sent(y));
  }

  lemma StartIsShaped(maxDropCnt: nat, timeout: u64, now: u64)
    ensures var w := Init(maxDropCnt, timeout, now); Shaped(w) && Table(w.m)
  {
    StartIsConsistent(maxDropCnt, timeout, now);
  }

  /** A run of five events, one at a time. */
  lemma RunFive(w0: World, w1: World, w2: World, w3: World, w4: World,
                e0: Event, e1: Event, e2: Event, e3: Event, e4: Event)
    requires Shaped(w0) && Table(w0.m) && Enabled(w0, e0) && w1 == Next(w0, e0)
    requires Shaped(w1) && Enabled(w1, e1) && w2 == Next(w1, e1)
    requires Shaped(w2) && Enabled(w2, e2) && w3 == Next(w2, e2)
    requires Shaped(w3) && Enabled(w3, e3) && w4 == Next(w3, e3)
    requires Shaped(w4) && Enabled(w4, e4)
    ensures Run(w0, [e0, e1, e2, e3, e4]) == Some(Next(w4, e4))
  {
    hide Next, Table, Enabled, Shaped;
    assert Run(w0, []) == Some(w0);
    RunOneMore(w0, [], w0, e0);
    assert [] + [e0] == [e0];
    RunOneMore(w0, [e0], w1, e1);
    assert [e0] + [e1] == [e0, e1];
    RunOneMore(w0, [e0, e1], w2, e2);
    assert [e0, e1] + [e2] == [e0, e1, e2];
    RunOneMore(w0, [e0, e1, e2], w3, e3);
    assert [e0, e1, e2] + [e3] == [e0, e1, e2, e3];
    RunOneMore(w0, [e0, e1, e2, e3], w4, e4);
    assert [e0, e1, e2, e3] + [e4] == [e0, e1, e2, e3, e4];
  }

  /** A run of seven events. */
  lemma RunSeven(w0: World, w1: World, w2: World, w3: World, w4: World, w5: World, w6: World,
                 e0: Event, e1: Event, e2: Event, e3: Event, e4: Event, e5: Event, e6: Event)
    requires Shaped(w0) && Table(w0.m) && Enabled(w0, e0) && w1 == Next(w0, e0)
    requires Shaped(w1) && Enabled(w1, e1) && w2 == Next(w1, e1)
    requires Shaped(w2) && Enabled(w2, e2) && w3 == Next(w2, e2)
    requires Shaped(w3) && Enabled(w3, e3) && w4 == Next(w3, e3)
    requires Shaped(w4) && Enabled(w4, e4) && w5 == Next(w4, e4)
    requires Shaped(w5) && Enabled(w5, e5) && w6 == Next(w5, e5)
    requires Shaped(w6) && Enabled(w6, e6)
    ensures Run(w0, [e0, e1, e2, e3, e4, e5, e6]) == Some(Next(w6, e6))
  {
    hide Run, Next, Table, Enabled, Shaped;
    RunFive(w0, w1, w2, w3, w4, e0, e1, e2, e3, e4);
    RunOneMore(w0, [e0, e1, e2, e3, e4], w5, e5);
    assert [e0, e1, e2, e3, e4] + [e5] == [e0, e1, e2, e3, e4, e5];
    RunOneMore(w0, [e0, e1, e2, e3, e4, e5], w6, e6);
    assert [e0, e1, e2, e3, e4, e5] + [e6] == [e0, e1, e2, e3, e4, e5, e6];
  }

  /** The other flow takes the slot, and its second acknowledgement drops the held one. */
  lemma ExampleDrop(w: World, x: Msg) returns (t: World)
    requires Shaped(w) && ZeroHas(w, FLOW_A, 3, Some(x), None, 1, 2, 0)
    requires x == Msg(2, FLOW_A, 3) && w.offered == {Msg(0, FLOW_A, 1), Msg(1, FLOW_A, 2), x}
    ensures var e := Offer(3, FLOW_B, 1, 5000); Enabled(w, e) && t == Next(w, e) && StaleTake(w, e)
    ensures var e := Offer(4, FLOW_B, 2, 5001);
            Shaped(t) && Enabled(t, e) && x in Next(t, e).dropped && !Covered(Next(t, e))
  {
    hide Run, Next, Inv, InWindow, Compares, Covered, Own, Table, ZeroHas, StaleTake, FlowSlot, Enabled, Shaped;
    t := ExampleStale(w, x, None, 1);
    var after := ExampleCompare(t, 4, FLOW_B, 1, Some(x), None, 10, 5000, 5000, 5001);
    ExampleLoses(t, x, None);
  }

  /** A flow's newest acknowledgement is held while an earlier one is being sent; its timer
      fires in vain, and the earlier one is reported sent; the slot ages out; another flow
      takes the slot, and its second acknowledgement drops the held one, which nothing covers. */
  lemma StaleTakeExample()
    ensures var events := [Offer(0, FLOW_A, 1, 0), Offer(1, FLOW_A, 2, 1), Offer(2, FLOW_A, 3, 2), Fire(0),
                           Sent(Msg(1, FLOW_A, 2)), Offer(3, FLOW_B, 1, 5000), Offer(4, FLOW_B, 2, 5001)];
            var r := RunFrom(10, 4000, 0, events);
            r.Some? && Msg(2, FLOW_A, 3) in r.value.dropped && !Covered(r.value)
  {
    hide Run, Next, Inv, Covered, Table, Init, ZeroHas, StaleTake, Enabled, Shaped;
    StartIsShaped(10, 4000, 0);
    var w1, w2, w3 := ExampleHold();
    var w4 := ExampleFire(w3, Msg(2, FLOW_A, 3), Msg(1, FLOW_A, 2));
    var w5 := ExampleSent(w4, 3, Some(Msg(2, FLOW_A, 3)), Msg(1, FLOW_A, 2), 1, 2);
    var w6 := ExampleDrop(w5, Msg(2, FLOW_A, 3));
    RunSeven(Init(10, 4000, 0), w1, w2, w3, w4, w5, w6, Offer(0, FLOW_A, 1, 0), Offer(1, FLOW_A, 2, 1),
             Offer(2, FLOW_A, 3, 2), Fire(0), Sent(Msg(1, FLOW_A, 2)), Offer(3, FLOW_B, 1, 5000), Offer(4, FLOW_B, 2, 5001));
  }

  lemma ExampleLoses(w: World, x: Msg, inSend: Option<Msg>)
    requires ZeroHas(w, FLOW_B, 1, Some(x), inSend, 10, 5000, 5000) && x == Msg(2, FLOW_A, 3)
    requires w.offered == {Msg(0, FLOW_A, 1), Msg(1, FLOW_A, 2), x, Msg(3, FLOW_B, 1)}
    requires var e := Offer(4, FLOW_B, 2, 5001);
             Enabled(w, e) && InWindow(w, e) && Compares(w, e) && FlowSlot(w, e) == 0
    ensures var t := Next(w, Offer(4, FLOW_B, 2, 5001)); x in t.dropped && !Covered(t)
  {
  }
}
