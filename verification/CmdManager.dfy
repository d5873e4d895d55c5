/**
 The firmware command manager: a list of commands shared, under one lock, by the callers
 that queue commands, a worker that pushes deferred ones, and the receive path that
 retires a command when its confirmation arrives.

 This module holds the critical sections.  Each is a method of the class, proved against a
 function on the manager's value; CmdProtocol runs those functions in every interleaving.
 */
module CmdManager {
  import opened Bytes
  import opened Wrappers

  /** A queued command.  `key` names the caller's command structure; the manager itself
      never compares it, and matches confirmations by `reqid` alone. */
  datatype Cmd = Cmd(key: nat, reqid: nat, tkn: u32, waitPush: bool, waitCfm: bool)

  datatype Mgr = Mgr(crashed: bool, nextTkn: u32, queueSz: u32, maxQueueSz: u32, cmds: seq<Cmd>)

  /** How a queue call leaves its critical section. */
  datatype Outcome =
    | BrokenPipe  // the manager has crashed
    | NoMemory    // too many commands already queued
    | SendNow     // the caller pushes the command itself and waits for its confirmation
    | Deferred    // the command waits for the worker

  /** RWNX_CMD_MAX_QUEUED. */
  const MAX_QUEUED: u32 := 16

  function Initial(): Mgr {
    Mgr(false, 0, 0, MAX_QUEUED, [])
  }

  /** The list with one more command at its end. */
  function Append(m: Mgr, key: nat, reqid: nat, waitPush: bool): Mgr {
    m.(cmds := m.cmds + [Cmd(key, reqid, m.nextTkn, waitPush, true)],
       nextTkn := (m.nextTkn + 1) % TWO_32,
       queueSz := (m.queueSz + 1) % TWO_32)
  }

  predicate IsFull(m: Mgr) {
    m.cmds != [] && m.queueSz == m.maxQueueSz
  }

  /** Whether the command at the end of the list has still to be pushed or confirmed. */
  predicate LastIsBusy(m: Mgr) {
    m.cmds != [] && (m.cmds[|m.cmds| - 1].waitPush || m.cmds[|m.cmds| - 1].waitCfm)
  }

  /** The locked part of a queue call.  A `special` message (traffic indication, ARP
      offload) is deferred even when the list is empty. */
  function QueueSection(m: Mgr, key: nat, reqid: nat, special: bool): (Mgr, Outcome) {
    if m.crashed then (m, BrokenPipe)
    else if IsFull(m) then (m, NoMemory)
    else if special || LastIsBusy(m) then (Append(m, key, reqid, true), Deferred)
    else (Append(m, key, reqid, false), SendNow)
  }

  /** The locked part of a queue call that always defers. */
  function ForceDeferSection(m: Mgr, key: nat, reqid: nat): (Mgr, Outcome) {
    if m.crashed then (m, BrokenPipe)
    else if IsFull(m) then (m, NoMemory)
    else (Append(m, key, reqid, true), Deferred)
  }

  /** The command the worker picks: the head of the list, if it still waits to be pushed. */
  function Picked(m: Mgr): Option<nat> {
    if m.cmds != [] && m.cmds[0].waitPush then Some(m.cmds[0].key) else None
  }

  /** The worker, outside the lock, clears the flag of the command it picked. */
  function ClearWaitPush(m: Mgr, key: nat): Mgr {
    m.(cmds := seq(|m.cmds|, i requires 0 <= i < |m.cmds| =>
       if m.cmds[i].key == key then m.cmds[i].(waitPush := false) else m.cmds[i]))
  }

  predicate Matches(c: Cmd, id: nat) {
    c.reqid == id && c.waitCfm
  }

  /** The position of the first command a message with this id confirms; |cmds| if none. */
  function MatchIndex(cmds: seq<Cmd>, id: nat): (i: nat)
    ensures i <= |cmds|
    ensures forall j :: 0 <= j < i ==> !Matches(cmds[j], id)
    ensures i < |cmds| ==> Matches(cmds[i], id)
  {
    if cmds == [] || Matches(cmds[0], id) then 0 else 1 + MatchIndex(cmds[1..], id)
  }

  /** The manager without the command at position i. */
  function Retire(m: Mgr, i: nat): Mgr
    requires i < |m.cmds|
  {
    m.(cmds := m.cmds[..i] + m.cmds[i + 1..], queueSz := (m.queueSz + TWO_32 - 1) % TWO_32)
  }

  /** Retires the first command that waits for a confirmation with this id. */
  function MsgIndSection(m: Mgr, id: nat): (Mgr, Option<nat>) {
    var i := MatchIndex(m.cmds, id);
    if i < |m.cmds| then (Retire(m, i), Some(m.cmds[i].key)) else (m, None)
  }

  class CommandManager {
    var crashed: bool
    var nextTkn: u32
    var queueSz: u32
    const maxQueueSz: u32
    var cmds: seq<Cmd>

    ghost function View(): Mgr
      reads this
    {
      Mgr(crashed, nextTkn, queueSz, maxQueueSz, cmds)
    }

    constructor ()
      ensures View() == Initial()
    {
      crashed, nextTkn, queueSz, maxQueueSz, cmds := false, 0, 0, MAX_QUEUED, [];
    }

    method Queue(key: nat, reqid: nat, special: bool) returns (outcome: Outcome)
      modifies this
      ensures (View(), outcome) == QueueSection(old(View()), key, reqid, special)
      ensures outcome.BrokenPipe? <==> old(crashed)
      ensures outcome.NoMemory? <==> !old(crashed) && old(cmds) != [] && old(queueSz) == maxQueueSz
    {
      if crashed {
        return BrokenPipe;
      }
      var waitPush := false;
      if cmds != [] {
        if queueSz == maxQueueSz {
          return NoMemory;
        }
        var last := cmds[|cmds| - 1];
        if last.waitPush || last.waitCfm {
          waitPush := true;
        }
      }
      var tkn := nextTkn;
      nextTkn := (nextTkn + 1) % TWO_32;
      if special {
        waitPush := true;
      }
      cmds := cmds + [Cmd(key, reqid, tkn, waitPush, true)];
      queueSz := (queueSz + 1) % TWO_32;
      outcome := if waitPush then Deferred else SendNow;
    }

    method ForceDefer(key: nat, reqid: nat) returns (outcome: Outcome)
      modifies this
      ensures (View(), outcome) == ForceDeferSection(old(View()), key, reqid)
      ensures outcome.BrokenPipe? <==> old(crashed)
      ensures outcome.NoMemory? <==> !old(crashed) && old(cmds) != [] && old(queueSz) == maxQueueSz
    {
      if crashed {
        return BrokenPipe;
      }
      if cmds != [] && queueSz == maxQueueSz {
        return NoMemory;
      }
      var tkn := nextTkn;
      nextTkn := (nextTkn + 1) % TWO_32;
      cmds := cmds + [Cmd(key, reqid, tkn, true, true)];
      queueSz := (queueSz + 1) % TWO_32;
      outcome := Deferred;
    }

    /** The worker looks at the head of the list only. */
    method Pick() returns (next: Option<nat>)
      ensures next == Picked(View())
    {
      next := None;
      if cmds != [] && cmds[0].waitPush {
        next := Some(cmds[0].key);
      }
    }

    /** The receive path scans the list for the first command the message confirms. */
    method MsgInd(id: nat) returns (retired: Option<nat>)
      modifies this
      ensures (View(), retired) == MsgIndSection(old(View()), id)
    {
      retired := None;
      var i := 0;
      while i < |cmds|
        invariant i <= |cmds| && MatchIndex(cmds, id) == i + MatchIndex(cmds[i..], id)
        invariant View() == old(View())
      {
        if cmds[i].reqid == id && cmds[i].waitCfm {
          retired := Some(cmds[i].key);
          cmds := cmds[..i] + cmds[i + 1..];
          queueSz := (queueSz + TWO_32 - 1) % TWO_32;
          return;
        }
        assert cmds[i..][1..] == cmds[i + 1..];
        i := i + 1;
      }
    }
  }
}
