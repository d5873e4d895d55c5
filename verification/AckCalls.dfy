/**
 What each call into the TCP ACK filter does, told of the slots and of true acknowledgement
 numbers: when a buffer is handed on, held or dropped, and what a call leaves alone.
 */
module AckCalls {
  import opened Bytes
  import opened Wrappers
  import opened AckFilter
  import opened AckRuns

  // ----- the timer

  /** A timer that fires hands on the buffer its slot holds exactly if the slot is in use and no
      other buffer of it is being sent; that one then is.  Otherwise it does nothing. */
  lemma FireExactly(w: World, i: nat)
    requires Shaped(w) && Owned(w) && Enabled(w, Fire(i))
    ensures var t, s := Next(w, Fire(i)), w.m.slots[i];
            var sends := s.busy && s.msgbuf.Some? && s.inSend.None?;
            && Shaped(t) && t.dropped == w.dropped && t.offered == w.offered && t.newest == w.newest
            && (forall x :: x in t.handed <==> x in w.handed || (sends && s.msgbuf == Some(x)))
            && (sends ==> s.msgbuf.value !in w.handed)
            && t.m.slots[i] == (if sends then s.(timer := false, msgbuf := None, inSend := s.msgbuf, dropCnt := 0)
                                else s.(timer := false))
            && t.m == w.m.(slots := w.m.slots[i := t.m.slots[i]])
  {
  }

  /** A held acknowledgement goes out when its timer fires after the one before was sent. */
  lemma FireExample()
    ensures var events := [Offer(0, FLOW_A, 1, 0), Offer(1, FLOW_A, 2, 1), Sent(Msg(1, FLOW_A, 2)),
                           Offer(2, FLOW_A, 3, 2), Fire(0)];
            var r := RunFrom(10, 4000, 0, events);
            && r.Some? && r.value.handed == {Msg(0, FLOW_A, 1), Msg(1, FLOW_A, 2), Msg(2, FLOW_A, 3)}
  {
    hide Run, Next, Inv, Table, Init, ZeroHas, Enabled, Shaped;
    StartIsShaped(10, 4000, 0);
    var w1 := ExampleFirst();
    var w2 := ExampleCompare(w1, 1, FLOW_A, 1, None, None, 10, 0, 0, 1);
    var w3 := ExampleSent(w2, 2, None, Msg(1, FLOW_A, 2), 0, 1);
    var w4 := ExampleCompare(w3, 2, FLOW_A, 2, None, None, 0, 1, 0, 2);
    ExampleFireSends(w4);
    RunFive(Init(10, 4000, 0), w1, w2, w3, w4, Offer(0, FLOW_A, 1, 0), Offer(1, FLOW_A, 2, 1),
            Sent(Msg(1, FLOW_A, 2)), Offer(2, FLOW_A, 3, 2), Fire(0));
  }

  lemma ExampleFireSends(w: World)
    requires Shaped(w) && ZeroHas(w, FLOW_A, 3, Some(Msg(2, FLOW_A, 3)), None, 1, 2, 0) && w.m.slots[0].timer
    ensures Enabled(w, Fire(0)) && Next(w, Fire(0)).handed == w.handed + {Msg(2, FLOW_A, 3)}
  {
    FireExactly(w, 0);
  }

  // ----- an acknowledgement of a known flow

  /** An acknowledgement compared by its flow's slot is handed on exactly if it is no older than
      the newest, and either a received PSH asked for one beyond q and this is one, or no other
      is being sent and enough have been held in a row. */
  lemma HandOnExactly(w: World, e: Event, q: nat)
    requires Inv(w) && Enabled(w, e) && InWindow(w, e) && Compares(w, e)
    requires var s := w.m.slots[FlowSlot(w, e)]; s.pshFlag ==> s.pshSeq == q % 0x1_0000_0000 && Close(e.msg.ack, q)
    ensures var t, i := Next(w, e), FlowSlot(w, e);
            var s, newer := w.m.slots[i], w.newest[i] <= e.msg.ack;
            var quick := s.pshFlag && q < e.msg.ack;
            && Shaped(t)
            && (e.msg in t.handed <==> newer && (quick || (s.inSend.None? && s.dropCnt + 1 >= w.m.maxDropCnt)))
            && t.m.slots[i].lastTime == e.now
            && t.m.slots[i].winScale == (if e.verdict.winScale != 0 then e.verdict.winScale else s.winScale)
            && var r := t.m.slots[i];
               if e.msg in t.handed then
                 r.msgbuf == None && r.inSend == Some(e.msg) && r.dropCnt == 0 && !r.timer && r.pshFlag == (s.pshFlag && !quick)
               else if newer then
                 r.msgbuf == Some(e.msg) && r.inSend == s.inSend && r.dropCnt == s.dropCnt + 1 && r.timer && r.pshFlag == s.pshFlag
               else
                 r.msgbuf == s.msgbuf && r.inSend == s.inSend && r.dropCnt == s.dropCnt && r.timer == s.timer && r.pshFlag == s.pshFlag
  {
    hide Next, Kept, Table;
    var s := w.m.slots[FlowSlot(w, e)];
    TouchedSlot(w, e);
    OtherSlots(w, e);
    BeforeIsOrder(w.newest[FlowSlot(w, e)], e.msg.ack);
    if s.pshFlag { BeforeIsOrder(e.msg.ack, q); }
  }

  /** What is dropped: an older acknowledgement itself, a newer one's predecessor in the slot. */
  lemma DropsExactly(w: World, e: Event)
    requires Inv(w) && Enabled(w, e) && InWindow(w, e) && Compares(w, e)
    ensures var t, i := Next(w, e), FlowSlot(w, e);
            t.dropped == w.dropped +
              if e.msg.ack < w.newest[i] then {e.msg}
              else if w.m.slots[i].msgbuf.Some? then {w.m.slots[i].msgbuf.value} else {}
  {
    hide Next, Kept, Table;
    TouchedSlot(w, e);
    OtherSlots(w, e);
    BeforeIsOrder(w.newest[FlowSlot(w, e)], e.msg.ack);
  }

  /** A received PSH makes the next acknowledgement beyond it go out at once, whatever was held
      and whatever is being sent, and once only. */
  lemma PshIsAnsweredAtOnce(w: World, flow: Flow, q: nat, plen: nat, e: Event)
    requires Inv(w) && w.m.enable && plen <= 200
    requires var v := Next(w, Receive(plen, Some((flow, q % 0x1_0000_0000))));
             Inv(v) && Enabled(v, e) && InWindow(v, e) && Compares(v, e) && e.msg.flow == flow
             && Close(e.msg.ack, q) && q < e.msg.ack && v.newest[FlowSlot(v, e)] <= e.msg.ack
    ensures var v := Next(w, Receive(plen, Some((flow, q % 0x1_0000_0000))));
            var t := Next(v, e);
            Shaped(t) && e.msg in t.handed && !t.m.slots[FlowSlot(v, e)].pshFlag
  {
    var v := Next(w, Receive(plen, Some((flow, q % 0x1_0000_0000))));
    PshIsNoted(w, flow, q % 0x1_0000_0000, plen, e);
    HandOnExactly(v, e, q);
  }

  // ----- what else a call does

  /** A received PSH is noted by the slots in use by its flow, and changes nothing else; nor does
      a frame that is too long, has no PSH, or comes while the filter is disabled. */
  lemma ReceiveExactly(w: World, plen: nat, psh: Option<(Flow, u32)>)
    requires Shaped(w) && Table(w.m)
    ensures var t := Next(w, Receive(plen, psh));
            && Shaped(t) && t == w.(m := w.m.(slots := t.m.slots))
            && forall i :: 0 <= i < 32 ==>
                 var s := w.m.slots[i];
                 t.m.slots[i] == if w.m.enable && plen <= 200 && psh.Some? && s.busy && s.flow == psh.value.0
                                 then s.(pshFlag := true, pshSeq := psh.value.1) else s
  {
  }

  lemma PshIsNoted(w: World, flow: Flow, q: u32, plen: nat, e: Event)
    requires Shaped(w) && Table(w.m) && w.m.enable && plen <= 200
    requires var v := Next(w, Receive(plen, Some((flow, q))));
             Shaped(v) && Table(v.m) && Enabled(v, e) && Compares(v, e) && e.msg.flow == flow
    ensures var v := Next(w, Receive(plen, Some((flow, q))));
            var s := v.m.slots[FlowSlot(v, e)]; s.pshFlag && s.pshSeq == q
  {
    var v := Next(w, Receive(plen, Some((flow, q))));
    ReceiveExactly(w, plen, Some((flow, q)));
    hide Next;
    TouchedSlot(v, e);
  }

  /** A buffer reported sent is no longer waited for by any slot in use; nothing else changes. */
  lemma SentExactly(w: World, x: Msg)
    requires Shaped(w)
    ensures var t := Next(w, Sent(x));
            && Shaped(t) && t == w.(m := w.m.(slots := t.m.slots))
            && forall i :: 0 <= i < 32 ==>
                 var s := w.m.slots[i];
                 t.m.slots[i] == if w.m.enable && s.busy && s.inSend == Some(x) then s.(inSend := None) else s
  {
  }

  /** A frame longer than 200 bytes passes without a trace; one that is no droppable
      acknowledgement passes, and at most old slots are freed. */
  lemma PassesExactly(w: World, e: Event)
    requires Shaped(w) && e.Send? && Enabled(w, e) && (e.plen > 200 || e.verdict.Plain?)
    ensures Next(w, e) == w.(m := if e.plen > 200 then w.m else Update(w.m, e.now),
                             offered := w.offered + {e.msg}, handed := w.handed + {e.msg})
  {
  }

  /** While the filter is disabled a known flow's acknowledgements pass, and only the window scale
      is noted. */
  lemma DisabledPasses(w: World, e: Event)
    requires Shaped(w) && Table(w.m) && Enabled(w, e) && LooksAt(e) && !w.m.enable && FlowSlot(w, e) < 32
    ensures var t, i, m := Next(w, e), FlowSlot(w, e), Update(w.m, e.now);
            && e.msg in t.handed && t.dropped == w.dropped && i < |m.slots|
            && t.m.slots == m.slots[i := if e.verdict.winScale != 0 then m.slots[i].(winScale := e.verdict.winScale) else m.slots[i]]
  {
    UpdateKeepsTable(w.m, e.now);
  }

  /** The first acknowledgement of a flow passes.  It takes a free slot, if there is one, so that
      the next one passes too unless this one is still being sent: as many count as held as it
      takes. */
  lemma FirstExactly(w: World, e: Event)
    requires Shaped(w) && Table(w.m) && Enabled(w, e) && LooksAt(e) && FlowSlot(w, e) == 32
    ensures var t, k, m := Next(w, e), TakenSlot(w, e), Update(w.m, e.now);
            && Shaped(t) && e.msg in t.handed && t.dropped == w.dropped && |m.slots| == 32
            && (k < 0 <==> forall i :: 0 <= i < 32 ==> m.slots[i].busy)
            && (k < 0 ==> t.m.slots == m.slots)
            && (k >= 0 ==>
                  && k < 32 && !m.slots[k].busy
                  && t.m.slots == m.slots[k := t.m.slots[k]]
                  && var s := t.m.slots[k];
                     s.busy && s.flow == e.msg.flow && s.top == e.msg.ack % 0x1_0000_0000 && s.dropCnt == w.m.maxDropCnt
                     && !s.pshFlag && s.lastTime == e.now && s.winScale == (if e.verdict.winScale == 0 then 1 else e.verdict.winScale))
  {
    UpdateKeepsTable(w.m, e.now);
    AllocFindsFree(Update(w.m, e.now));
  }

  // ----- ageing, in true ticks

  /** With true tick counts less than half the range apart, a slot is old exactly when more than
      the timeout has gone by. */
  lemma OldExactly(since: nat, now: nat, timeout: u64)
    requires -0x8000_0000_0000_0000 < now - since - timeout <= 0x8000_0000_0000_0000
    ensures Expired(now % 0x1_0000_0000_0000_0000, since % 0x1_0000_0000_0000_0000, timeout) <==> now - since > timeout
  {
  }

  /** If more than the timeout has gone by since slots were last looked over, an offer frees
      exactly those in use that have been quiet for longer; otherwise it frees none. */
  lemma AgesExactly(m: Manage, last: nat, heard: seq<nat>, now: nat)
    requires Sized(m) && |heard| == 32 && m.lastTime == last % 0x1_0000_0000_0000_0000
    requires forall i :: 0 <= i < 32 ==> m.slots[i].lastTime == heard[i] % 0x1_0000_0000_0000_0000
    requires -0x8000_0000_0000_0000 < now - last - m.timeout <= 0x8000_0000_0000_0000
    requires forall i :: 0 <= i < 32 ==> -0x8000_0000_0000_0000 < now - heard[i] - m.timeout <= 0x8000_0000_0000_0000
    ensures var r := Update(m, now % 0x1_0000_0000_0000_0000);
            && r.lastTime == (if now - last > m.timeout then now % 0x1_0000_0000_0000_0000 else m.lastTime)
            && r.enable == m.enable && r.maxDropCnt == m.maxDropCnt && r.timeout == m.timeout
            && forall i :: 0 <= i < 32 ==>
              r.slots[i] == if now - last > m.timeout && m.slots[i].busy && now - heard[i] > m.timeout
                            then m.slots[i].(busy := false) else m.slots[i]
  {
    hide Expired;
    var n := now % 0x1_0000_0000_0000_0000;
    OldExactly(last, now, m.timeout);
    forall i | 0 <= i < 32
      ensures Aged(m.slots[i], n, m.timeout) <==> m.slots[i].busy && now - heard[i] > m.timeout
    {
      OldExactly(heard[i], now, m.timeout);
    }
    AgeExact(m.(lastTime := n), n, 32);
    AgeKeepsRest(m.(lastTime := n), n, 32);
  }

  lemma {:induction false} AgeKeepsRest(m: Manage, now: u64, n: nat)
    requires Sized(m) && n <= SLOTS
    ensures var r := AgeSlots(m, now, n);
            r.lastTime == m.lastTime && r.enable == m.enable && r.maxDropCnt == m.maxDropCnt && r.timeout == m.timeout
    decreases n
  {
    if n > 0 {
      AgeKeepsRest(if Aged(m.slots[n - 1], now, m.timeout) then
                     m.(freeIndex := n - 1, maxNum := m.maxNum - 1, slots := m.slots[n - 1 := m.slots[n - 1].(busy := false)])
                   else m, now, n - 1);
    }
  }
}
