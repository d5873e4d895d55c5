/**
 Every interleaving of callers, worker, receive path and firmware around the command
 manager.  Each critical section and each unlocked action is one step.  The firmware
 confirms each command it was sent once, whenever it likes, with a message that carries
 nothing but the command's confirmation id; no wait times out.

 Commands are numbered in the order in which the manager accepts them.
 */
module CmdProtocol {
  import opened Wrappers
  import opened CmdManager

  /** What a caller still has to do, outside the lock. */
  datatype Caller =
    | Pushing   // hand its own command to the bus
    | Blocked   // wait for its confirmation, then wake the worker if the list is not empty
    | Testing   // deferred: wake the worker if at most one command is queued
    | Forcing   // deferred by force: wake the worker

  datatype Worker =
    | Idle
    | Scanning             // about to look at the head of the list
    | Chosen(key: nat)     // picked the head, its flag not yet cleared
    | Cleared(key: nat)    // flag cleared, not yet pushed
    | Waiting(key: nat)    // pushed, waiting for its confirmation

  datatype State = State(
    mgr: Mgr,
    accepted: nat,                          // commands accepted so far
    callers: map<nat, Caller>,
    worker: Worker,
    pending: bool,                          // the worker is queued to run
    bus: seq<nat>,                          // commands pushed to the bus, in order
    outstanding: map<nat, nat>,             // pushed, unconfirmed: command and its id
    completed: set<nat>,                    // commands whose completion was signalled
    retired: seq<(nat, Option<nat>)>)       // each confirmation: its cause, what it retired

  datatype Step =
    | Queue(reqid: nat, special: bool)
    | ForceDefer(reqid: nat)
    | CallerPush(key: nat)
    | CallerResume(key: nat)
    | CallerTest(key: nat)
    | CallerWake(key: nat)
    | WorkerStart
    | WorkerScan
    | WorkerClear
    | WorkerPush
    | WorkerResume
    | Confirm(key: nat)

  function Init(): State {
    State(CmdManager.Initial(), 0, map[], Idle, false, [], map[], {}, [])
  }

  predicate Has(s: State, key: nat, phase: Caller) {
    key in s.callers && s.callers[key] == phase
  }

  predicate Enabled(s: State, step: Step) {
    match step
    case Queue(_, _) => true
    case ForceDefer(_) => true
    case CallerPush(key) => Has(s, key, Pushing) && Listed(s.mgr.cmds, key)
    case CallerResume(key) => Has(s, key, Blocked) && key in s.completed
    case CallerTest(key) => Has(s, key, Testing)
    case CallerWake(key) => Has(s, key, Forcing)
    case WorkerStart => s.worker.Idle? && s.pending
    case WorkerScan => s.worker.Scanning?
    case WorkerClear => s.worker.Chosen?
    case WorkerPush => s.worker.Cleared? && Listed(s.mgr.cmds, s.worker.key)
    case WorkerResume => s.worker.Waiting? && s.worker.key in s.completed
    case Confirm(key) => key in s.outstanding
  }

  predicate Listed(cmds: seq<Cmd>, key: nat) {
    exists i :: 0 <= i < |cmds| && cmds[i].key == key
  }

  /** The id the firmware will confirm a command with. */
  function ReqidOf(cmds: seq<Cmd>, key: nat): nat
    requires Listed(cmds, key)
  {
    if cmds[0].key == key then cmds[0].reqid else ReqidOf(cmds[1..], key)
  }

  /** The command reaches the bus, and the firmware. */
  function Push(s: State, key: nat): State
    requires Listed(s.mgr.cmds, key)
  {
    s.(bus := s.bus + [key], outstanding := s.outstanding[key := ReqidOf(s.mgr.cmds, key)])
  }

  /** A queue call leaves its critical section; an accepted command's caller goes on. */
  function Accept(s: State, result: (Mgr, Outcome), deferred: Caller): State {
    match result.1
    case SendNow =>
      s.(mgr := result.0, accepted := s.accepted + 1, callers := s.callers[s.accepted := Pushing])
    case Deferred =>
      s.(mgr := result.0, accepted := s.accepted + 1, callers := s.callers[s.accepted := deferred])
    case _ =>
      s.(mgr := result.0)
  }

  /** The receive path handles the confirmation that command `cause` brought about: it sees
      only the id. */
  function Deliver(s: State, cause: nat): State
    requires cause in s.outstanding
  {
    var (m, found) := MsgIndSection(s.mgr, s.outstanding[cause]);
    s.(mgr := m,
       outstanding := s.outstanding - {cause},
       completed := if found.Some? then s.completed + {found.value} else s.completed,
       retired := s.retired + [(cause, found)])
  }

  function Next(s: State, step: Step): State
    requires Enabled(s, step)
  {
    match step
    case Queue(reqid, special) => Accept(s, QueueSection(s.mgr, s.accepted, reqid, special), Testing)
    case ForceDefer(reqid) => Accept(s, ForceDeferSection(s.mgr, s.accepted, reqid), Forcing)
    case CallerPush(key) => Push(s, key).(callers := s.callers[key := Blocked])
    case CallerResume(key) =>
      s.(callers := s.callers - {key}, pending := s.pending || s.mgr.cmds != [])
    case CallerTest(key) =>
      s.(callers := s.callers - {key}, pending := s.pending || s.mgr.queueSz <= 1)
    case CallerWake(key) => s.(callers := s.callers - {key}, pending := true)
    case WorkerStart => s.(worker := Scanning, pending := false)
    case WorkerScan =>
      s.(worker := match Picked(s.mgr) case Some(key) => Chosen(key) case None => Idle)
    case WorkerClear => s.(mgr := ClearWaitPush(s.mgr, s.worker.key), worker := Cleared(s.worker.key))
    case WorkerPush => Push(s, s.worker.key).(worker := Waiting(s.worker.key))
    case WorkerResume => s.(worker := Scanning)
    case Confirm(key) => Deliver(s, key)
  }

  /** The state after these steps, if each of them is enabled when its turn comes. */
  function Run(steps: seq<Step>): Option<State> {
    if steps == [] then Some(Init())
    else
      var last := |steps| - 1;
      match Run(steps[..last])
      case None => None
      case Some(s) => if Enabled(s, steps[last]) then Some(Next(s, steps[last])) else None
  }

  // ----- the protocol invariant

  predicate HeadPushed(s: State) {
    |s.bus| == |s.retired| + 1
  }

  predicate HeadWaits(s: State) {
    s.mgr.cmds != [] && s.mgr.cmds[0].waitPush
  }

  /** The list holds the commands accepted and not yet retired, in order. */
  predicate ListInv(s: State) {
    && !s.mgr.crashed
    && s.mgr.queueSz == |s.mgr.cmds| <= s.mgr.maxQueueSz == MAX_QUEUED
    && s.accepted == |s.retired| + |s.mgr.cmds|
    && (forall i :: 0 <= i < |s.mgr.cmds| ==> s.mgr.cmds[i].key == |s.retired| + i && s.mgr.cmds[i].waitCfm)
    && (forall i :: 0 < i < |s.mgr.cmds| ==> s.mgr.cmds[i].waitPush)
  }

  /** The bus carries the accepted commands in order; at most one, the head of the list, is
      pushed and unconfirmed. */
  predicate BusInv(s: State) {
    && (forall i :: 0 <= i < |s.bus| ==> s.bus[i] == i)
    && (|s.bus| == |s.retired| || (HeadPushed(s) && s.mgr.cmds != [] && !s.mgr.cmds[0].waitPush))
    && s.outstanding == (if HeadPushed(s) && s.mgr.cmds != [] then map[|s.retired| := s.mgr.cmds[0].reqid] else map[])
  }

  /** Each confirmation retired the command that caused it. */
  ghost predicate RetiredInv(s: State) {
    && (forall i :: 0 <= i < |s.retired| ==> s.retired[i] == (i, Some(i)))
    && (forall k: nat :: k in s.completed <==> 0 <= k < |s.retired|)
  }

  /** The head, once its flag is down, is about to be pushed by exactly one thread; once
      pushed, that thread waits for it. */
  ghost predicate ThreadInv(s: State) {
    && (forall k :: k in s.callers ==> k < s.accepted)
    && (forall k :: k in s.callers && s.callers[k].Pushing? ==>
          k == |s.retired| == |s.bus| && s.mgr.cmds != [] && !HeadWaits(s) && !s.worker.Cleared?)
    && (forall k :: k in s.callers && s.callers[k].Blocked? ==> k < |s.bus|)
    && (s.worker.Chosen? ==> s.worker.key == |s.retired| == |s.bus| && HeadWaits(s))
    && (s.worker.Cleared? ==> s.worker.key == |s.retired| == |s.bus| && s.mgr.cmds != [] && !HeadWaits(s))
    && (s.worker.Waiting? ==> s.worker.key < |s.bus|)
    && (s.mgr.cmds != [] && !HeadWaits(s) && !HeadPushed(s) ==>
          Has(s, |s.retired|, Pushing) || s.worker == Cleared(|s.retired|))
    && (HeadPushed(s) ==> Has(s, |s.retired|, Blocked) || s.worker == Waiting(|s.retired|))
  }

  ghost predicate Inv(s: State) {
    ListInv(s) && BusInv(s) && RetiredInv(s) && ThreadInv(s)
  }

  /** With one command outstanding, its id finds the head of the list. */
  lemma MatchIsHead(s: State, key: nat)
    requires Inv(s) && key in s.outstanding
    ensures key == |s.retired| && HeadPushed(s) && s.mgr.cmds != []
    ensures s.outstanding == map[key := s.mgr.cmds[0].reqid]
    ensures MatchIndex(s.mgr.cmds, s.outstanding[key]) == 0
  {
  }

  lemma AppendKeepsInv(s: State, reqid: nat, waitPush: bool, phase: Caller)
    requires Inv(s) && !IsFull(s.mgr) && (waitPush || s.mgr.cmds == [])
    requires if waitPush then phase.Testing? || phase.Forcing? else phase.Pushing?
    ensures Inv(s.(mgr := Append(s.mgr, s.accepted, reqid, waitPush), accepted := s.accepted + 1,
                   callers := s.callers[s.accepted := phase]))
  {
  }

  lemma QueueKeepsInv(s: State, step: Step)
    requires Inv(s) && (step.Queue? || step.ForceDefer?)
    ensures Inv(Next(s, step))
  {
    hide Inv;
    ListIsBusy(s);
    if !IsFull(s.mgr) {
      var waitPush := step.ForceDefer? || step.special || s.mgr.cmds != [];
      AppendKeepsInv(s, step.reqid, waitPush, if step.ForceDefer? then Forcing else if waitPush then Testing else Pushing);
    }
  }

  lemma ListIsBusy(s: State)
    requires Inv(s)
    ensures !s.mgr.crashed && (s.mgr.cmds != [] ==> LastIsBusy(s.mgr))
  {
  }

  lemma CallerKeepsInv(s: State, step: Step)
    requires Inv(s) && Enabled(s, step)
    requires step.CallerPush? || step.CallerResume? || step.CallerTest? || step.CallerWake?
    ensures Inv(Next(s, step))
  {
  }

  lemma WorkerKeepsInv(s: State, step: Step)
    requires Inv(s) && Enabled(s, step)
    requires step.WorkerStart? || step.WorkerScan? || step.WorkerClear? || step.WorkerPush? || step.WorkerResume?
    ensures Inv(Next(s, step))
  {
  }

  lemma ConfirmKeepsInv(s: State, key: nat)
    requires Inv(s) && key in s.outstanding
    ensures Inv(Next(s, Confirm(key)))
  {
    MatchIsHead(s, key);
  }

  lemma StepKeepsInv(s: State, step: Step)
    requires Inv(s) && Enabled(s, step)
    ensures Inv(Next(s, step))
  {
    hide Inv, Next;
    match step
    case Confirm(key) => ConfirmKeepsInv(s, key);
    case Queue(_, _) => QueueKeepsInv(s, step);
    case ForceDefer(_) => QueueKeepsInv(s, step);
    case CallerPush(_) => CallerKeepsInv(s, step);
    case CallerResume(_) => CallerKeepsInv(s, step);
    case CallerTest(_) => CallerKeepsInv(s, step);
    case CallerWake(_) => CallerKeepsInv(s, step);
    case _ => WorkerKeepsInv(s, step);
  }

  lemma {:induction false} RunKeepsInv(steps: seq<Step>)
    ensures Run(steps).Some? ==> Inv(Run(steps).value)
  {
    if steps != [] {
      var last := |steps| - 1;
      RunKeepsInv(steps[..last]);
      if Run(steps).Some? {
        StepKeepsInv(Run(steps[..last]).value, steps[last]);
      }
    }
  }

  /** In every run each confirmation retires exactly the command that caused it, although
      the manager compares ids only.  At any time at most one command is pushed and
      unconfirmed; it is the head of the list, and every other command waits for its push. */
  lemma ConfirmationsFindTheirCause(steps: seq<Step>)
    requires Run(steps).Some?
    ensures var s := Run(steps).value;
            && (forall i :: 0 <= i < |s.retired| ==> s.retired[i].1 == Some(s.retired[i].0))
            && (forall k, l :: k in s.outstanding && l in s.outstanding ==> k == l)
            && (forall k :: k in s.outstanding ==> s.mgr.cmds != [] && s.mgr.cmds[0].key == k)
            && (forall i :: 0 < i < |s.mgr.cmds| ==> s.mgr.cmds[i].waitPush)
  {
    RunKeepsInv(steps);
  }

  /** In every run the bus carries the accepted commands in the order of acceptance, each
      once, none missing: those retired, then those still listed, of which only the head can
      have been pushed.  The queue size is the length of the list and stays within bounds. */
  lemma BusCarriesAcceptanceOrder(steps: seq<Step>)
    requires Run(steps).Some?
    ensures var s := Run(steps).value;
            && (forall i :: 0 <= i < |s.bus| ==> s.bus[i] == i)
            && (forall i :: 0 <= i < |s.mgr.cmds| ==> s.mgr.cmds[i].key == |s.retired| + i)
            && s.accepted == |s.retired| + |s.mgr.cmds|
            && |s.retired| <= |s.bus| <= |s.retired| + 1
            && s.mgr.queueSz == |s.mgr.cmds| <= MAX_QUEUED
  {
    RunKeepsInv(steps);
  }

  // ----- which commands are accepted, and how

  /** Tokens count the acceptances, in 32 bits. */
  predicate Tokened(s: State) {
    && s.mgr.nextTkn == s.accepted % 0x1_0000_0000
    && forall i :: 0 <= i < |s.mgr.cmds| ==> s.mgr.cmds[i].tkn == s.mgr.cmds[i].key % 0x1_0000_0000
  }

  lemma StepKeepsTokened(s: State, step: Step)
    requires Inv(s) && Tokened(s) && Enabled(s, step)
    ensures Tokened(Next(s, step))
  {
    if step.Confirm? {
      ConfirmKeepsTokened(s, step.key);
    } else if step.Queue? || step.ForceDefer? {
      QueueKeepsTokened(s, step);
    } else {
      hide RetiredInv, ThreadInv, BusInv, ListInv;
    }
  }

  lemma ConfirmKeepsTokened(s: State, key: nat)
    requires Inv(s) && Tokened(s) && key in s.outstanding
    ensures Tokened(Next(s, Confirm(key)))
  {
    hide ThreadInv, RetiredInv;
    MatchIsHead(s, key);
  }

  lemma QueueKeepsTokened(s: State, step: Step)
    requires Inv(s) && Tokened(s) && (step.Queue? || step.ForceDefer?)
    ensures Tokened(Next(s, step))
  {
    hide RetiredInv, ThreadInv, BusInv;
  }

  lemma {:induction false} RunKeepsTokened(steps: seq<Step>)
    ensures Run(steps).Some? ==> Tokened(Run(steps).value)
  {
    if steps != [] {
      hide Inv, Tokened, Next, Enabled;
      var last := |steps| - 1;
      RunKeepsInv(steps[..last]);
      RunKeepsTokened(steps[..last]);
      if Run(steps).Some? {
        StepKeepsTokened(Run(steps[..last]).value, steps[last]);
      }
    }
  }

  /** In every reachable state a queue call is refused exactly when 16 commands are listed, and
      then changes nothing.  Otherwise the command goes to the end of the list with its own id
      and the next token; its caller pushes it exactly if the list was empty and the message is
      not special, and otherwise leaves it to the worker. */
  lemma AdmittedExactly(steps: seq<Step>, reqid: nat, special: bool)
    requires Run(steps).Some?
    ensures var s := Run(steps).value;
            var t, deferred := Next(s, Queue(reqid, special)), special || s.mgr.cmds != [];
            if |s.mgr.cmds| == 16 then t == s
            else
              && t.accepted == s.accepted + 1
              && t.mgr.cmds == s.mgr.cmds + [Cmd(s.accepted, reqid, s.accepted % 0x1_0000_0000, deferred, true)]
              && t.callers == s.callers[s.accepted := if deferred then Testing else Pushing]
  {
    RunKeepsInv(steps);
    RunKeepsTokened(steps);
    hide ThreadInv, Run;
    ListIsBusy(Run(steps).value);
  }

  /** The same for a call that always defers. */
  lemma ForcedExactly(steps: seq<Step>, reqid: nat)
    requires Run(steps).Some?
    ensures var s := Run(steps).value;
            var t := Next(s, ForceDefer(reqid));
            if |s.mgr.cmds| == 16 then t == s
            else
              && t.accepted == s.accepted + 1
              && t.mgr.cmds == s.mgr.cmds + [Cmd(s.accepted, reqid, s.accepted % 0x1_0000_0000, true, true)]
              && t.callers == s.callers[s.accepted := Forcing]
  {
    RunKeepsInv(steps);
    RunKeepsTokened(steps);
  }

  // ----- waking the worker

  /** Somebody other than a caller about to test the queue size will look at the list. */
  ghost predicate OthersAwake(s: State) {
    || s.pending
    || !s.worker.Idle?
    || (exists k :: k in s.callers && s.callers[k].Blocked? && k in s.completed)
    || (exists k :: k in s.callers && s.callers[k].Forcing?)
  }

  ghost predicate TestWillWake(s: State) {
    s.mgr.queueSz <= 1 && exists k :: k in s.callers && s.callers[k].Testing?
  }

  /** A command waiting at the head of the list will be noticed. */
  ghost predicate WakeUpDue(s: State) {
    HeadWaits(s) ==> OthersAwake(s) || TestWillWake(s)
  }

  /** A queue call arrives between another caller's deferral and its test of the queue size,
      when nothing else is going to wake the worker. */
  ghost predicate Hazard(s: State, step: Step) {
    step.Queue? && HeadWaits(s) && !OthersAwake(s)
  }

  /** The queue call that makes the test of an earlier caller fail. */
  lemma HazardLosesWakeUp(s: State, step: Step)
    requires Inv(s) && Enabled(s, step) && WakeUpDue(s) && Hazard(s, step)
    ensures !WakeUpDue(Next(s, step))
  {
  }

  /** A waker survives every step until the worker looks at the list. */
  lemma WakerSurvives(s: State, step: Step)
    requires Inv(s) && Enabled(s, step) && HeadWaits(s) && OthersAwake(s)
    ensures OthersAwake(Next(s, step))
  {
    var t := Next(s, step);
    if !s.pending && s.worker.Idle? {
      var k :| k in s.callers && (s.callers[k].Forcing? || (s.callers[k].Blocked? && k in s.completed));
      assert t.pending || (k in t.callers && t.callers[k] == s.callers[k]);
    }
  }

  /** A command that comes to wait at the head of the list has a waker. */
  lemma NewHeadHasWaker(s: State, step: Step)
    requires Inv(s) && Enabled(s, step) && !HeadWaits(s) && HeadWaits(Next(s, step))
    ensures WakeUpDue(Next(s, step))
  {
    var t := Next(s, step);
    match step
    case Queue(_, _) => assert t.callers[s.accepted].Testing?;
    case ForceDefer(_) => assert t.callers[s.accepted].Forcing?;
    case Confirm(key) =>
      MatchIsHead(s, key);
      assert Has(s, key, Blocked) ==> key in t.callers && t.callers[key].Blocked? && key in t.completed;
    case _ =>
  }

  /** The wake-up is never lost, except by the queue calls that Hazard singles out: an exact
      condition, step by step, on the code as it is (it tests the size after unlocking). */
  lemma WakeUpLostExactlyByHazard(s: State, step: Step)
    requires Inv(s) && Enabled(s, step) && WakeUpDue(s)
    ensures WakeUpDue(Next(s, step)) <==> !Hazard(s, step)
  {
    var t := Next(s, step);
    if Hazard(s, step) {
      HazardLosesWakeUp(s, step);
    } else if !HeadWaits(s) {
      if HeadWaits(t) { NewHeadHasWaker(s, step); }
    } else if OthersAwake(s) {
      WakerSurvives(s, step);
    } else {
      var k :| k in s.callers && s.callers[k].Testing?;
      if step.ForceDefer? {
        assert t.callers[s.accepted].Forcing?;
      } else {
        assert step.CallerTest? && t.pending;
      }
    }
  }

  ghost predicate DueAt(steps: seq<Step>) {
    Run(steps).Some? ==> WakeUpDue(Run(steps).value)
  }

  ghost predicate HazardAt(steps: seq<Step>, step: Step) {
    Run(steps).Some? && Enabled(Run(steps).value, step) && Hazard(Run(steps).value, step)
  }

  /** At every point of this run a command waiting at the head of the list will be noticed. */
  ghost predicate AlwaysDue(steps: seq<Step>) {
    forall n :: 0 <= n <= |steps| ==> DueAt(steps[..n])
  }

  /** No step of this run is a hazard. */
  ghost predicate NeverHazard(steps: seq<Step>) {
    forall n :: 0 <= n < |steps| ==> !HazardAt(steps[..n], steps[n])
  }

  /** Both conditions, one step further. */
  lemma LastStep(steps: seq<Step>)
    requires steps != []
    ensures var last := |steps| - 1;
            && (AlwaysDue(steps) <==> AlwaysDue(steps[..last]) && DueAt(steps))
            && (NeverHazard(steps) <==> NeverHazard(steps[..last]) && !HazardAt(steps[..last], steps[last]))
            && (AlwaysDue(steps[..last]) ==> DueAt(steps[..last]))
  {
    hide DueAt, HazardAt;
    var last := |steps| - 1;
    assert steps[..|steps|] == steps && steps[..last][..last] == steps[..last];
    assert forall n :: 0 <= n <= last ==> steps[..last][..n] == steps[..n];
  }

  /** In every run of the code as it is, the wake-up is due at every point if and only if no
      step is a hazard. */
  lemma {:induction false} NoLostWakeUpExactly(steps: seq<Step>)
    ensures AlwaysDue(steps) <==> NeverHazard(steps)
  {
    if steps != [] {
      hide WakeUpDue, Hazard, Next, Enabled, Inv;
      var last := |steps| - 1;
      NoLostWakeUpExactly(steps[..last]);
      LastStep(steps);
      if Run(steps).Some? && AlwaysDue(steps[..last]) {
        RunKeepsInv(steps[..last]);
        WakeUpLostExactlyByHazard(Run(steps[..last]).value, steps[last]);
      }
    } else {
      assert WakeUpDue(Init());
    }
  }

  /** No queue call of this run comes while another caller has still to test the size: the
      call and its test are one atomic step. */
  ghost predicate TestsAtOnce(steps: seq<Step>) {
    forall i :: 0 <= i < |steps| && steps[i].Queue? && Run(steps[..i]).Some? ==>
      NoTestPending(Run(steps[..i]).value)
  }

  predicate NoTestPending(s: State) {
    forall k :: k in s.callers ==> !s.callers[k].Testing?
  }

  lemma {:induction false} NoLostWakeUpWhenAtomic(steps: seq<Step>)
    requires TestsAtOnce(steps)
    ensures Run(steps).Some? ==> WakeUpDue(Run(steps).value)
  {
    if steps != [] {
      var last := |steps| - 1;
      var prefix := steps[..last];
      forall i | 0 <= i < |prefix| && prefix[i].Queue? && Run(prefix[..i]).Some?
        ensures NoTestPending(Run(prefix[..i]).value)
      {
        assert prefix[..i] == steps[..i];
      }
      NoLostWakeUpWhenAtomic(prefix);
      if Run(steps).Some? {
        RunKeepsInv(prefix);
        WakeUpLostExactlyByHazard(Run(prefix).value, steps[last]);
      }
    }
  }

  /** Without special messages only a forced deferral or a confirmation brings a command to
      wait at the head of the list, and each brings its own waker. */
  lemma OrdinaryStepKeepsWaker(s: State, step: Step)
    requires Inv(s) && Enabled(s, step) && (step.Queue? ==> !step.special)
    requires HeadWaits(s) ==> OthersAwake(s)
    ensures HeadWaits(Next(s, step)) ==> OthersAwake(Next(s, step))
  {
    var t := Next(s, step);
    if HeadWaits(s) {
      WakerSurvives(s, step);
    } else if HeadWaits(t) {
      if step.ForceDefer? {
        assert t.callers[s.accepted].Forcing?;
      } else {
        assert step.Confirm?;
        MatchIsHead(s, step.key);
        assert Has(s, step.key, Blocked) ==> t.callers[step.key].Blocked? && step.key in t.completed;
      }
    }
  }

  /** Without special messages a wake-up is never lost, whatever the interleaving. */
  lemma {:induction false} NoLostWakeUpWithoutSpecials(steps: seq<Step>)
    requires forall i :: 0 <= i < |steps| && steps[i].Queue? ==> !steps[i].special
    ensures Run(steps).Some? && HeadWaits(Run(steps).value) ==> OthersAwake(Run(steps).value)
  {
    if steps != [] {
      hide Inv, Next, Enabled, OthersAwake;
      var last := |steps| - 1;
      NoLostWakeUpWithoutSpecials(steps[..last]);
      RunKeepsInv(steps[..last]);
      if Run(steps).Some? {
        OrdinaryStepKeepsWaker(Run(steps[..last]).value, steps[last]);
      }
    }
  }

  /** A run of the code as it is that loses the wake-up: a special message on an empty list,
      an ordinary command queued before the first caller tests the size, then both tests. */
  lemma LostWakeUpExample()
    ensures var steps := [Queue(1, true), Queue(2, false), CallerTest(0), CallerTest(1)];
            && Run(steps).Some?
            && !WakeUpDue(Run(steps).value)
            && forall step :: Enabled(Run(steps).value, step) ==> step.Queue? || step.ForceDefer?
  {
    var q0, q1, t0, t1 := Queue(1, true), Queue(2, false), CallerTest(0), CallerTest(1);
    var s1 := Next(Init(), q0);
    var s2 := Next(s1, q1);
    var s3 := Next(s2, t0);
    var s4 := Next(s3, t1);
    assert Run([]) == Some(Init());
    assert [q0][..0] == [];
    assert Run([q0]) == Some(s1);
    assert [q0, q1][..1] == [q0];
    assert Run([q0, q1]) == Some(s2);
    assert [q0, q1, t0][..2] == [q0, q1];
    assert Run([q0, q1, t0]) == Some(s3);
    assert [q0, q1, t0, t1][..3] == [q0, q1, t0];
    assert Run([q0, q1, t0, t1]) == Some(s4);
    assert s4.callers == map[];
  }

  /** Once lost, the wake-up stays lost until a command is deferred by force. */
  lemma LostUntilForced(s: State, step: Step)
    requires Inv(s) && Enabled(s, step) && !WakeUpDue(s)
    ensures WakeUpDue(Next(s, step)) <==> step.ForceDefer? && !IsFull(s.mgr)
  {
    var t := Next(s, step);
    if step.ForceDefer? && !IsFull(s.mgr) {
      assert t.callers[s.accepted].Forcing?;
    } else {
      forall k | k in t.callers
        ensures !t.callers[k].Forcing? && !(t.callers[k].Blocked? && k in t.completed)
        ensures t.mgr.queueSz <= 1 ==> !t.callers[k].Testing?
      {
        assert k == s.accepted || (k in s.callers && s.callers[k] == t.callers[k]);
      }
    }
  }
}
