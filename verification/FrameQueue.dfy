/**
 The priority queue of frames: eight FIFOs, a total count, and a hint `hiPrio` that is at or
 above the highest non-empty FIFO and is corrected only when a frame is taken.

 The operations are specified on the eight FIFOs alone; the hint and the count are the
 class's own business.  Two forms of enqueue exist: the WLAN driver's refuses when the queue
 is full, the platform driver's may evict a frame of lower priority.
 */
module FrameQueue {
  import opened Wrappers

  const PRIOS: nat := 8

  type Fifos<T> = q: seq<seq<T>> | |q| == 8 witness [[], [], [], [], [], [], [], []]

  // ----- the eight FIFOs

  function Total<T>(q: seq<seq<T>>): nat {
    if q == [] then 0 else Total(q[..|q| - 1]) + |q[|q| - 1]|
  }

  /** The highest non-empty FIFO; -1 if all are empty. */
  function Highest<T>(q: seq<seq<T>>): (p: int)
    ensures -1 <= p < |q|
    ensures p >= 0 ==> q[p] != []
    ensures forall i :: p < i < |q| ==> q[i] == []
  {
    if q == [] then -1 else if q[|q| - 1] != [] then |q| - 1 else Highest(q[..|q| - 1])
  }

  /** The lowest non-empty FIFO; |q| if all are empty. */
  function Lowest<T>(q: seq<seq<T>>): (p: nat)
    ensures p <= |q|
    ensures p < |q| ==> q[p] != []
    ensures forall i :: 0 <= i < p ==> q[i] == []
  {
    if q == [] || q[0] != [] then 0 else 1 + Lowest(q[1..])
  }

  /** The oldest frame of the highest non-empty FIFO is taken. */
  function Taken<T>(q: Fifos<T>): (Fifos<T>, Option<T>) {
    var p := Highest(q);
    if p < 0 then (q, None) else (q[p := q[p][1..]], Some(q[p][0]))
  }

  function Added<T>(q: Fifos<T>, x: T, prio: nat): Fifos<T>
    requires prio < PRIOS
  {
    q[prio := q[prio] + [x]]
  }

  /** Enqueue that refuses when full. */
  function Offered<T>(q: Fifos<T>, qmax: nat, x: T, prio: nat): (Fifos<T>, bool)
    requires prio < PRIOS
  {
    if Total(q) < qmax then (Added(q, x, prio), true) else (q, false)
  }

  /** The FIFO's newest frame replaced. */
  function NewestReplaced<T>(q: Fifos<T>, x: T, prio: nat): Fifos<T>
    requires prio < PRIOS && q[prio] != []
  {
    q[prio := q[prio][..|q[prio]| - 1] + [x]]
  }

  /** Enqueue that evicts: when full, the newcomer takes the place of the newest frame of the
      lowest non-empty FIFO, if that is of strictly lower priority.  Returns the frame
      evicted. */
  function OfferedOrEvicting<T>(q: Fifos<T>, qmax: nat, x: T, prio: nat): (Fifos<T>, bool, Option<T>)
    requires prio < PRIOS
  {
    var low := Lowest(q);
    if Total(q) < qmax then (Added(q, x, prio), true, None)
    else if low < prio && |q[prio]| < qmax then (NewestReplaced(q, x, low), true, Some(q[low][|q[low]| - 1]))
    else (q, false, None)
  }

  // ----- lemmas about the total

  lemma {:induction false} TotalUpdate<T>(q: seq<seq<T>>, i: nat, s: seq<T>)
    requires i < |q|
    ensures Total(q[i := s]) == Total(q) - |q[i]| + |s|
    decreases |q|
  {
    var n := |q| - 1;
    if i < n {
      assert q[i := s][..n] == q[..n][i := s];
      TotalUpdate(q[..n], i, s);
    } else {
      assert q[i := s][..n] == q[..n];
    }
  }

  lemma {:induction false} TotalAtLeast<T>(q: seq<seq<T>>, i: nat)
    requires i < |q|
    ensures |q[i]| <= Total(q)
    decreases |q|
  {
    if i < |q| - 1 { TotalAtLeast(q[..|q| - 1], i); }
  }

  lemma {:induction false} TotalZero<T>(q: seq<seq<T>>)
    ensures Total(q) == 0 <==> Highest(q) == -1
    ensures Total(q) == 0 <==> Lowest(q) == |q|
    decreases |q|
  {
    if Highest(q) >= 0 { TotalAtLeast(q, Highest(q)); }
    if Lowest(q) < |q| { TotalAtLeast(q, Lowest(q)); }
    if q != [] { TotalZero(q[..|q| - 1]); }
  }

  /** Only the FIFOs up to the highest non-empty one count. */
  lemma {:induction false} TotalBelow<T>(q: seq<seq<T>>, n: nat)
    requires n <= |q| && forall i :: n <= i < |q| ==> q[i] == []
    ensures Total(q) == Total(q[..n])
    decreases |q|
  {
    if n < |q| {
      TotalBelow(q[..|q| - 1], n);
      assert q[..|q| - 1][..n] == q[..n];
    } else {
      assert q[..n] == q;
    }
  }

  // ----- the driver's structure

  class FrameQueue<T> {
    var hiPrio: nat
    const qmax: nat
    var qcnt: nat
    const queues: array<seq<T>>

    /** The count is kept in 16 bits, and nothing lies above the hint. */
    ghost predicate Counted()
      reads this, queues
    {
      && queues.Length == PRIOS && hiPrio < PRIOS && qmax < 0x1_0000
      && qcnt == Total(queues[..]) % 0x1_0000
      && forall i :: hiPrio < i < PRIOS ==> queues[i] == []
    }

    ghost predicate Valid()
      reads this, queues
    {
      Counted() && Total(queues[..]) <= qmax
    }

    ghost function Q(): Fifos<T>
      requires queues.Length == PRIOS
      reads this, queues
    {
      queues[..]
    }

    constructor (maxLen: nat)
      requires maxLen < 0x1_0000
      ensures Valid() && qmax == maxLen && fresh(queues)
      ensures forall i :: 0 <= i < PRIOS ==> Q()[i] == []
    {
      queues := new seq<T>[PRIOS](_ => []);
      hiPrio, qmax, qcnt := 0, maxLen, 0;
      new;
      TotalZero(queues[..]);
    }

    /** Appends to one FIFO unless that is full, raising the hint if need be.  It leaves it to
        its callers to see that there is room in all. */
    method Penq(prio: nat, x: T) returns (ok: bool)
      requires Counted() && prio < PRIOS
      modifies this, queues
      ensures Counted() && ok == (|old(Q())[prio]| < qmax)
      ensures Q() == if ok then Added(old(Q()), x, prio) else old(Q())
      ensures Total(Q()) == Total(old(Q())) + if ok then 1 else 0
    {
      if |queues[prio]| >= qmax {
        return false;
      }
      TotalUpdate(queues[..], prio, queues[prio] + [x]);
      queues[prio] := queues[prio] + [x];
      assert queues[..] == old(queues[..])[prio := old(queues[prio]) + [x]];
      qcnt := (qcnt + 1) % 0x1_0000;
      if hiPrio < prio {
        hiPrio := prio;
      }
      ok := true;
    }

    /** The WLAN driver's enqueue. */
    method Enq(x: T, prio: nat) returns (ok: bool)
      requires Valid() && prio < PRIOS
      modifies this, queues
      ensures Valid() && (Q(), ok) == Offered(old(Q()), qmax, x, prio)
    {
      TotalAtLeast(queues[..], prio);
      if |queues[prio]| < qmax && qcnt < qmax {
        ok := Penq(prio, x);
      } else {
        ok := false;
      }
    }

    /** The lowest non-empty FIFO, found up to the hint. */
    method PeekTail() returns (prio: int)
      requires Valid()
      ensures prio == if Lowest(Q()) < PRIOS then Lowest(Q()) else -1
    {
      TotalZero(queues[..]);
      if qcnt == 0 {
        return -1;
      }
      prio := 0;
      while prio < hiPrio
        invariant 0 <= prio <= hiPrio
        invariant forall i :: 0 <= i < prio ==> queues[i] == []
      {
        if queues[prio] != [] {
          break;
        }
        prio := prio + 1;
      }
    }

    /** The platform driver's enqueue. */
    method EnqEvicting(x: T, prio: nat) returns (ok: bool, evicted: Option<T>)
      requires Valid() && prio < PRIOS
      modifies this, queues
      ensures Valid() && (Q(), ok, evicted) == OfferedOrEvicting(old(Q()), qmax, x, prio)
    {
      hide Total;
      TotalAtLeast(queues[..], prio);
      TotalZero(queues[..]);
      evicted := None;
      if |queues[prio]| < qmax && qcnt < qmax {
        ok := Penq(prio, x);
        return;
      }
      var modified := -1;
      if |queues[prio]| >= qmax {
        modified := prio;
      } else if qcnt >= qmax {
        modified := PeekTail();
        if modified > prio {
          return false, None;
        }
      }
      ok := false;
      if modified >= 0 {
        if modified == prio {
          return false, None;
        }
        ghost var q := Q();
        TotalAtLeast(q, modified);
        evicted := DequeueTail(modified);
        ok := Penq(modified, x);
        assert Q() == NewestReplaced(q, x, modified);
      }
    }

    method DequeueTail(prio: nat) returns (p: Option<T>)
      requires Valid() && prio < PRIOS
      modifies this, queues
      ensures Valid()
      ensures if old(Q())[prio] == [] then p == None && Q() == old(Q()) && qcnt == old(qcnt)
              else var last := |old(Q())[prio]| - 1;
                   p == Some(old(Q())[prio][last]) && Q() == old(Q())[prio := old(Q())[prio][..last]] && qcnt == old(qcnt) - 1
    {
      if queues[prio] == [] {
        return None;
      }
      var last := |queues[prio]| - 1;
      TotalUpdate(queues[..], prio, queues[prio][..last]);
      TotalAtLeast(queues[..], prio);
      p := Some(queues[prio][last]);
      queues[prio] := queues[prio][..last];
      assert queues[..] == old(queues[..])[prio := queues[prio]];
      qcnt := qcnt - 1;
    }

    method Dequeue() returns (p: Option<T>)
      requires Valid()
      modifies this, queues
      ensures Valid() && (Q(), p) == Taken(old(Q()))
    {
      TotalZero(queues[..]);
      if qcnt == 0 {
        return None;
      }
      while hiPrio > 0 && queues[hiPrio] == []
        invariant hiPrio < PRIOS && forall i :: hiPrio < i < PRIOS ==> queues[i] == []
        invariant queues[..] == old(queues[..]) && qcnt == old(qcnt)
        decreases hiPrio
      {
        hiPrio := hiPrio - 1;
      }
      assert hiPrio == Highest(queues[..]);
      TotalUpdate(queues[..], hiPrio, queues[hiPrio][1..]);
      TotalAtLeast(queues[..], hiPrio);
      p := Some(queues[hiPrio][0]);
      queues[hiPrio] := queues[hiPrio][1..];
      assert queues[..] == old(queues[..])[hiPrio := queues[hiPrio]];
      qcnt := qcnt - 1;
    }

    /** Adds up the FIFOs up to the hint only. */
    method IsEmpty() returns (empty: bool)
      requires Valid()
      ensures empty <==> forall i :: 0 <= i < PRIOS ==> Q()[i] == []
    {
      var prio, len := 0, 0;
      while prio <= hiPrio
        invariant 0 <= prio <= hiPrio + 1 && len == Total(queues[..prio])
      {
        assert queues[..prio + 1][..prio] == queues[..prio];
        len := len + |queues[prio]|;
        prio := prio + 1;
      }
      assert queues[..][..prio] == queues[..prio];
      TotalBelow(queues[..], prio);
      TotalZero(queues[..]);
      empty := len == 0;
      assert Highest(queues[..]) >= 0 ==> Q()[Highest(queues[..])] != [];
    }

    method Flush()
      requires Valid()
      modifies this, queues
      ensures Valid() && forall i :: 0 <= i < PRIOS ==> Q()[i] == []
    {
      hide Total;
      var prio := 0;
      while prio < PRIOS
        invariant 0 <= prio <= PRIOS && Valid()
        invariant forall i :: 0 <= i < prio ==> queues[i] == []
      {
        while queues[prio] != []
          invariant Valid()
          invariant forall i :: 0 <= i < prio ==> queues[i] == []
          decreases |queues[prio]|
        {
          ghost var before := queues[..];
          TotalUpdate(before, prio, queues[prio][1..]);
          TotalAtLeast(before, prio);
          queues[prio] := queues[prio][1..];
          assert queues[..] == before[prio := queues[prio]];
          qcnt := qcnt - 1;
        }
        prio := prio + 1;
      }
    }
  }

  // ----- what a run keeps

  datatype Op<T> = Offer(x: T, prio: nat) | Take

  /** The queue, and for each FIFO the frames accepted into it and taken from it so far. */
  datatype Log<T> = Log(q: Fifos<T>, accepted: Fifos<T>, taken: Fifos<T>)

  function Do<T>(s: Log<T>, qmax: nat, op: Op<T>): Log<T>
    requires op.Offer? ==> op.prio < PRIOS
  {
    match op
    case Offer(x, prio) =>
      var (q, ok) := Offered(s.q, qmax, x, prio);
      s.(q := q, accepted := if ok then Added(s.accepted, x, prio) else s.accepted)
    case Take =>
      var (q, p) := Taken(s.q);
      s.(q := q, taken := if p.Some? then Added(s.taken, p.value, Highest(s.q)) else s.taken)
  }

  function Run<T>(qmax: nat, ops: seq<Op<T>>): Log<T>
    requires forall i :: 0 <= i < |ops| && ops[i].Offer? ==> ops[i].prio < PRIOS
  {
    if ops == [] then
      var e: Fifos<T> := [[], [], [], [], [], [], [], []];
      Log(e, e, e)
    else Do(Run(qmax, ops[..|ops| - 1]), qmax, ops[|ops| - 1])
  }

  /** What went into each FIFO is what came out of it followed by what is still in it. */
  predicate Accounted<T(==)>(s: Log<T>) {
    forall p :: 0 <= p < PRIOS ==> s.accepted[p] == s.taken[p] + s.q[p]
  }

  lemma OfferAccounted<T>(s: Log<T>, qmax: nat, x: T, prio: nat)
    requires Accounted(s) && Total(s.q) <= qmax && prio < PRIOS
    ensures var t := Do(s, qmax, Offer(x, prio)); Accounted(t) && Total(t.q) <= qmax
  {
    TotalUpdate(s.q, prio, s.q[prio] + [x]);
    assert s.accepted[prio] + [x] == s.taken[prio] + (s.q[prio] + [x]);
  }

  lemma TakeAccounted<T>(s: Log<T>, qmax: nat)
    requires Accounted(s) && Total(s.q) <= qmax
    ensures var t := Do(s, qmax, Take); Accounted(t) && Total(t.q) <= qmax
  {
    var p := Highest(s.q);
    if p >= 0 {
      TotalUpdate(s.q, p, s.q[p][1..]);
      assert s.taken[p] + s.q[p] == (s.taken[p] + [s.q[p][0]]) + s.q[p][1..];
    }
  }

  /** First in, first out at every priority, and the total never exceeds the maximum. */
  lemma {:induction false} EachPriorityIsFifo<T>(qmax: nat, ops: seq<Op<T>>)
    requires forall i :: 0 <= i < |ops| && ops[i].Offer? ==> ops[i].prio < PRIOS
    ensures Accounted(Run(qmax, ops)) && Total(Run(qmax, ops).q) <= qmax
  {
    if ops == [] {
      var t := Run(qmax, ops);
      TotalZero(t.q);
      assert forall p :: 0 <= p < PRIOS ==> t.q[p] == [];
    } else {
      hide Accounted, Do;
      var s, op := Run(qmax, ops[..|ops| - 1]), ops[|ops| - 1];
      EachPriorityIsFifo(qmax, ops[..|ops| - 1]);
      match op
      case Offer(x, prio) => OfferAccounted(s, qmax, x, prio);
      case Take => TakeAccounted(s, qmax);
    }
  }

  /** All the frames queued. */
  function Contents<T>(q: seq<seq<T>>): multiset<T> {
    if q == [] then multiset{} else Contents(q[..|q| - 1]) + multiset(q[|q| - 1])
  }

  lemma {:induction false} ContentsUpdate<T>(q: seq<seq<T>>, i: nat, s: seq<T>)
    requires i < |q|
    ensures Contents(q[i := s]) + multiset(q[i]) == Contents(q) + multiset(s)
    decreases |q|
  {
    var n := |q| - 1;
    var r := q[i := s];
    if i < n {
      assert r[..n] == q[..n][i := s];
      ContentsUpdate(q[..n], i, s);
      AddBoth(Contents(r[..n]), multiset(q[i]), Contents(q[..n]), multiset(s), multiset(q[n]));
    } else {
      assert r[..n] == q[..n];
      assert Contents(r) == Contents(q[..n]) + multiset(s);
      assert Contents(q) == Contents(q[..n]) + multiset(q[n]);
    }
  }

  lemma AddBoth<T>(a: multiset<T>, x: multiset<T>, b: multiset<T>, y: multiset<T>, c: multiset<T>)
    requires a + x == b + y
    ensures a + c + x == b + c + y
  {
    forall e ensures (a + c + x)[e] == (b + c + y)[e] {
      assert (a + x)[e] == (b + y)[e];
    }
  }

  lemma AddedExact<T>(q: Fifos<T>, x: T, prio: nat)
    requires prio < PRIOS
    ensures Total(Added(q, x, prio)) == Total(q) + 1
    ensures Contents(Added(q, x, prio)) == Contents(q) + multiset{x}
  {
    hide Contents, Total;
    var s := q[prio];
    TotalUpdate(q, prio, s + [x]);
    ContentsUpdate(q, prio, s + [x]);
    assert multiset(s + [x]) == multiset{x} + multiset(s);
    Cancel(Contents(q[prio := s + [x]]), Contents(q) + multiset{x}, multiset(s));
  }

  lemma Cancel<T>(a: multiset<T>, b: multiset<T>, c: multiset<T>)
    requires a + c == b + c
    ensures a == b
  {
    forall e ensures a[e] == b[e] {
      assert (a + c)[e] == (b + c)[e];
    }
  }

  lemma Regroup<T>(a: multiset<T>, b: multiset<T>, c: multiset<T>)
    ensures a + (b + c) == a + b + c
  {
  }

  lemma NewestReplacedExact<T>(q: Fifos<T>, x: T, low: nat)
    requires low < PRIOS && q[low] != [] && low == Lowest(q)
    ensures var r := NewestReplaced(q, x, low);
            && Total(r) == Total(q) && Lowest(r) == low
            && Contents(r) + multiset{q[low][|q[low]| - 1]} == Contents(q) + multiset{x}
  {
    hide Contents, Total;
    var s, last := q[low], |q[low]| - 1;
    var t := s[..last];
    var r := NewestReplaced(q, x, low);
    TotalUpdate(q, low, t + [x]);
    ContentsUpdate(q, low, t + [x]);
    assert s == t + [s[last]];
    assert multiset(s) == multiset{s[last]} + multiset(t);
    assert multiset(t + [x]) == multiset{x} + multiset(t);
    Regroup(Contents(r), multiset{s[last]}, multiset(t));
    Regroup(Contents(q), multiset{x}, multiset(t));
    Cancel(Contents(r) + multiset{s[last]}, Contents(q) + multiset{x}, multiset(t));
    forall i | 0 <= i < low ensures r[i] == [] { assert r[i] == q[i]; }
    assert r[low] != [];
  }

  /** The evicting enqueue accepts exactly when there is room or a frame of strictly lower
      priority to throw out.  It throws out one frame, the newest of the lowest non-empty
      FIFO, and only then; the newcomer takes that frame's place, not one in its own FIFO,
      and the total stays what it was. */
  lemma EvictionExact<T>(q: Fifos<T>, qmax: nat, x: T, prio: nat)
    requires prio < PRIOS && Total(q) <= qmax
    ensures var (r, ok, evicted) := OfferedOrEvicting(q, qmax, x, prio);
            && (ok <==> Total(q) < qmax || Lowest(q) < prio)
            && (evicted.Some? <==> ok && Total(q) == qmax)
            && (ok && evicted.None? ==> Total(r) == Total(q) + 1 && Contents(r) == Contents(q) + multiset{x})
            && (evicted.Some? ==>
                  Total(r) == Total(q) == qmax && r[prio] == q[prio] && Lowest(r) == Lowest(q)
                  && evicted.value == q[Lowest(q)][|q[Lowest(q)]| - 1] && r == NewestReplaced(q, x, Lowest(q))
                  && Contents(r) + multiset{evicted.value} == Contents(q) + multiset{x})
            && (ok ==> (r == Added(q, x, prio) <==> Total(q) < qmax))
            && (!ok ==> r == q)
  {
    hide Contents, Total, Lowest, Added, NewestReplaced;
    var low := Lowest(q);
    AddedExact(q, x, prio);
    if low < prio {
      TotalPair(q, low, prio);
      NewestReplacedExact(q, x, low);
      ReplacedElsewhere(q, x, low, prio);
    }
  }

  /** A full queue of one frame, at the lowest priority: the newcomer of priority 3 ends up at
      the lowest. */
  lemma EvictionExample<T>(a: T, x: T)
    ensures var q: Fifos<T> := [[a], [], [], [], [], [], [], []];
            OfferedOrEvicting(q, 1, x, 3) == ([[x], [], [], [], [], [], [], []], true, Some(a))
  {
    var q: Fifos<T> := [[a], [], [], [], [], [], [], []];
    var one: seq<seq<T>> := [[a]];
    TotalBelow(q, 1);
    assert q[..1] == one && one[..0] == [];
    assert Total(q) == 1 && Lowest(q) == 0;
    assert q[0][..0] + [x] == [x];
    assert NewestReplaced(q, x, 0) == [[x], [], [], [], [], [], [], []];
  }

  lemma ReplacedElsewhere<T>(q: Fifos<T>, x: T, low: nat, prio: nat)
    requires low < prio < PRIOS && q[low] != []
    ensures NewestReplaced(q, x, low)[prio] == q[prio]
  {
  }

  /** Two FIFOs count for no more than the total. */
  lemma TotalPair<T>(q: seq<seq<T>>, i: nat, j: nat)
    requires i < |q| && j < |q| && i != j
    ensures |q[i]| + |q[j]| <= Total(q)
  {
    TotalUpdate(q, i, []);
    TotalAtLeast(q[i := []], j);
  }

  /** The refusing enqueue refuses exactly when as many frames as it may hold are queued. */
  lemma OfferedExact<T>(q: Fifos<T>, qmax: nat, x: T, prio: nat)
    requires prio < PRIOS
    ensures var (r, ok) := Offered(q, qmax, x, prio);
            && (ok <==> |q[0]| + |q[1]| + |q[2]| + |q[3]| + |q[4]| + |q[5]| + |q[6]| + |q[7]| < qmax)
            && r == if ok then q[prio := q[prio] + [x]] else q
  {
    TotalOfEight(q);
  }

  lemma TotalOfEight<T>(q: Fifos<T>)
    ensures Total(q) == |q[0]| + |q[1]| + |q[2]| + |q[3]| + |q[4]| + |q[5]| + |q[6]| + |q[7]|
  {
    hide Total;
    TotalPrefix(q, 0);
    TotalPrefix(q, 1);
    TotalPrefix(q, 2);
    TotalPrefix(q, 3);
    TotalPrefix(q, 4);
    TotalPrefix(q, 5);
    TotalPrefix(q, 6);
    TotalPrefix(q, 7);
    assert q[..8] == q;
  }

  lemma TotalPrefix<T>(q: seq<seq<T>>, n: nat)
    requires n < |q|
    ensures Total(q[..n + 1]) == Total(q[..n]) + |q[n]|
    ensures n == 0 ==> Total(q[..n]) == 0
  {
    assert q[..n + 1][..n] == q[..n];
  }

  predicate TakesFrom<T(==)>(q: Fifos<T>, p: nat, x: T, r: Fifos<T>) {
    p < 8 && q[p] != [] && (forall i :: p < i < 8 ==> q[i] == []) && x == q[p][0] && r == q[p := q[p][1..]]
  }

  /** What is taken is the oldest frame of the highest non-empty FIFO, if there is one. */
  lemma TakenHighest<T>(q: Fifos<T>)
    ensures var (r, x) := Taken(q);
            && (x.None? <==> forall i :: 0 <= i < 8 ==> q[i] == [])
            && (x.None? ==> r == q)
            && (x.Some? ==> exists p: nat :: TakesFrom(q, p, x.value, r))
  {
    var (r, x) := Taken(q);
    if x.Some? { assert TakesFrom(q, Highest(q), x.value, r); }
  }

  // ----- what a run with evictions keeps

  /** The queue, and all the frames accepted, taken and evicted so far. */
  datatype Books<T> = Books(q: Fifos<T>, accepted: multiset<T>, taken: multiset<T>, evicted: multiset<T>)

  function Bag<T>(x: Option<T>): multiset<T> {
    if x.Some? then multiset{x.value} else multiset{}
  }

  function DoEvicting<T>(s: Books<T>, qmax: nat, op: Op<T>): Books<T>
    requires op.Offer? ==> op.prio < PRIOS
  {
    match op
    case Offer(x, prio) =>
      var (q, ok, evicted) := OfferedOrEvicting(s.q, qmax, x, prio);
      s.(q := q, accepted := if ok then s.accepted + multiset{x} else s.accepted, evicted := s.evicted + Bag(evicted))
    case Take =>
      var (q, p) := Taken(s.q);
      s.(q := q, taken := s.taken + Bag(p))
  }

  function RunEvicting<T>(qmax: nat, ops: seq<Op<T>>): Books<T>
    requires forall i :: 0 <= i < |ops| && ops[i].Offer? ==> ops[i].prio < PRIOS
  {
    if ops == [] then Books([[], [], [], [], [], [], [], []], multiset{}, multiset{}, multiset{})
    else DoEvicting(RunEvicting(qmax, ops[..|ops| - 1]), qmax, ops[|ops| - 1])
  }

  predicate Balanced<T(==)>(s: Books<T>, qmax: nat) {
    s.accepted == s.taken + s.evicted + Contents(s.q) && Total(s.q) <= qmax
  }

  lemma TakenExact<T>(q: Fifos<T>)
    ensures var (r, p) := Taken(q);
            Contents(r) + Bag(p) == Contents(q) && Total(r) + (if p.Some? then 1 else 0) == Total(q)
  {
    hide Contents, Total;
    var i := Highest(q);
    if i >= 0 {
      var s := q[i];
      TotalUpdate(q, i, s[1..]);
      ContentsUpdate(q, i, s[1..]);
      assert s == [s[0]] + s[1..];
      assert multiset(s) == multiset{s[0]} + multiset(s[1..]);
      Regroup(Contents(q[i := s[1..]]), multiset{s[0]}, multiset(s[1..]));
      Cancel(Contents(q[i := s[1..]]) + multiset{s[0]}, Contents(q), multiset(s[1..]));
    } else {
      assert Contents(q) + multiset{} == Contents(q);
    }
  }

  lemma OfferBalanced<T>(s: Books<T>, qmax: nat, x: T, prio: nat)
    requires Balanced(s, qmax) && prio < PRIOS
    ensures Balanced(DoEvicting(s, qmax, Offer(x, prio)), qmax)
  {
    hide Contents, Total, OfferedOrEvicting;
    EvictionExact(s.q, qmax, x, prio);
    var (q, ok, evicted) := OfferedOrEvicting(s.q, qmax, x, prio);
    if ok {
      Swap(s.taken, s.evicted, Contents(s.q), Contents(q), multiset{x}, Bag(evicted));
    } else {
      assert s.evicted + multiset{} == s.evicted;
    }
  }

  lemma Swap<T>(taken: multiset<T>, evicted: multiset<T>, before: multiset<T>, after: multiset<T>,
                x: multiset<T>, y: multiset<T>)
    requires after + y == before + x
    ensures taken + evicted + before + x == taken + (evicted + y) + after
  {
    forall e ensures (taken + evicted + before + x)[e] == (taken + (evicted + y) + after)[e] {
      assert (after + y)[e] == (before + x)[e];
    }
  }

  lemma TakeBalanced<T>(s: Books<T>, qmax: nat)
    requires Balanced(s, qmax)
    ensures Balanced(DoEvicting(s, qmax, Take), qmax)
  {
    hide Contents, Total, Taken;
    TakenExact(s.q);
  }

  /** With evictions too, over every run: what was accepted was taken, was evicted or is still
      queued, and the total never exceeds the maximum. */
  lemma {:induction false} EvictingConserves<T>(qmax: nat, ops: seq<Op<T>>)
    requires forall i :: 0 <= i < |ops| && ops[i].Offer? ==> ops[i].prio < PRIOS
    ensures var s := RunEvicting(qmax, ops);
            s.accepted == s.taken + s.evicted + Contents(s.q) && Total(s.q) <= qmax
  {
    if ops == [] {
      var s := RunEvicting(qmax, ops);
      TotalZero(s.q);
      NothingQueued(s.q);
    } else {
      hide DoEvicting;
      var s, op := RunEvicting(qmax, ops[..|ops| - 1]), ops[|ops| - 1];
      EvictingConserves(qmax, ops[..|ops| - 1]);
      match op
      case Offer(x, prio) => OfferBalanced(s, qmax, x, prio);
      case Take => TakeBalanced(s, qmax);
    }
  }

  lemma {:induction false} NothingQueued<T>(q: seq<seq<T>>)
    requires forall i :: 0 <= i < |q| ==> q[i] == []
    ensures Contents(q) == multiset{}
    decreases |q|
  {
    if q != [] { NothingQueued(q[..|q| - 1]); }
  }

  // ----- order, with evictions

  /** A frame placed in a FIFO, and whether it was evicted from it since. */
  datatype Slip<T> = Slip(x: T, evicted: bool)

  /** The queue, for each FIFO all the frames ever placed in it, in order, and those taken. */
  datatype Ledger<T> = Ledger(q: Fifos<T>, placed: Fifos<Slip<T>>, taken: Fifos<T>)

  /** The frames not evicted, in the order they were placed. */
  function Kept<T>(slips: seq<Slip<T>>): seq<T> {
    if slips == [] then []
    else
      var last := slips[|slips| - 1];
      Kept(slips[..|slips| - 1]) + (if last.evicted then [] else [last.x])
  }

  /** The newest frame not yet evicted is evicted. */
  function EvictNewest<T>(slips: seq<Slip<T>>): seq<Slip<T>> {
    if slips == [] then []
    else
      var n := |slips| - 1;
      if slips[n].evicted then EvictNewest(slips[..n]) + [slips[n]]
      else slips[..n] + [slips[n].(evicted := true)]
  }

  function Entered<T>(s: Ledger<T>, qmax: nat, x: T, prio: nat): Fifos<Slip<T>>
    requires prio < PRIOS
  {
    var (q, ok, evicted) := OfferedOrEvicting(s.q, qmax, x, prio);
    var low := Lowest(s.q);
    if !ok then s.placed
    else if evicted.None? then s.placed[prio := s.placed[prio] + [Slip(x, false)]]
    else s.placed[low := EvictNewest(s.placed[low]) + [Slip(x, false)]]
  }

  function DoLedger<T>(s: Ledger<T>, qmax: nat, op: Op<T>): Ledger<T>
    requires op.Offer? ==> op.prio < PRIOS
  {
    match op
    case Offer(x, prio) => s.(q := OfferedOrEvicting(s.q, qmax, x, prio).0, placed := Entered(s, qmax, x, prio))
    case Take =>
      var (q, p) := Taken(s.q);
      s.(q := q, taken := if p.Some? then Added(s.taken, p.value, Highest(s.q)) else s.taken)
  }

  function RunLedger<T>(qmax: nat, ops: seq<Op<T>>): Ledger<T>
    requires forall i :: 0 <= i < |ops| && ops[i].Offer? ==> ops[i].prio < PRIOS
  {
    if ops == [] then
      var e: Fifos<T> := [[], [], [], [], [], [], [], []];
      Ledger(e, [[], [], [], [], [], [], [], []], e)
    else DoLedger(RunLedger(qmax, ops[..|ops| - 1]), qmax, ops[|ops| - 1])
  }

  predicate InOrder<T(==)>(s: Ledger<T>) {
    forall p :: 0 <= p < PRIOS ==> Kept(s.placed[p]) == s.taken[p] + s.q[p]
  }

  lemma KeptAppend<T>(slips: seq<Slip<T>>, x: T)
    ensures Kept(slips + [Slip(x, false)]) == Kept(slips) + [x]
  {
    assert (slips + [Slip(x, false)])[..|slips|] == slips;
  }

  lemma {:induction false} KeptEvict<T>(slips: seq<Slip<T>>)
    requires Kept(slips) != []
    ensures Kept(EvictNewest(slips)) == Kept(slips)[..|Kept(slips)| - 1]
    decreases |slips|
  {
    var n := |slips| - 1;
    var after := EvictNewest(slips);
    if slips[n].evicted {
      KeptEvict(slips[..n]);
      assert after[..|after| - 1] == EvictNewest(slips[..n]);
    } else {
      assert after[..|after| - 1] == slips[..n];
    }
  }

  lemma OfferInOrder<T>(s: Ledger<T>, qmax: nat, x: T, prio: nat)
    requires InOrder(s) && Total(s.q) <= qmax && prio < PRIOS
    ensures var t := DoLedger(s, qmax, Offer(x, prio)); InOrder(t) && Total(t.q) <= qmax
  {
    hide Kept, EvictNewest, Total, Contents;
    EvictionExact(s.q, qmax, x, prio);
    var (q, ok, evicted) := OfferedOrEvicting(s.q, qmax, x, prio);
    var low := Lowest(s.q);
    if ok && evicted.None? {
      KeptAppend(s.placed[prio], x);
      assert q == Added(s.q, x, prio);
    } else if ok {
      var n := |s.q[low]| - 1;
      KeptEvict(s.placed[low]);
      KeptAppend(EvictNewest(s.placed[low]), x);
      assert (s.taken[low] + s.q[low])[..|s.taken[low]| + n] == s.taken[low] + s.q[low][..n];
    }
  }

  lemma TakeInOrder<T>(s: Ledger<T>, qmax: nat)
    requires InOrder(s) && Total(s.q) <= qmax
    ensures var t := DoLedger(s, qmax, Take); InOrder(t) && Total(t.q) <= qmax
  {
    hide Kept, Total, Contents;
    TakenExact(s.q);
    var p := Highest(s.q);
    if p >= 0 {
      assert s.taken[p] + s.q[p] == (s.taken[p] + [s.q[p][0]]) + s.q[p][1..];
    }
  }

  /** With evictions too, over every run: what was placed in each FIFO and not evicted from it
      is what came out of it followed by what is still in it, in order. */
  lemma {:induction false} EvictingKeepsOrder<T>(qmax: nat, ops: seq<Op<T>>)
    requires forall i :: 0 <= i < |ops| && ops[i].Offer? ==> ops[i].prio < PRIOS
    ensures var s := RunLedger(qmax, ops);
            && (forall p :: 0 <= p < PRIOS ==> Kept(s.placed[p]) == s.taken[p] + s.q[p])
            && Total(s.q) <= qmax
  {
    if ops == [] {
      TotalZero(RunLedger(qmax, ops).q);
    } else {
      hide DoLedger, Kept, Total;
      var s, op := RunLedger(qmax, ops[..|ops| - 1]), ops[|ops| - 1];
      EvictingKeepsOrder(qmax, ops[..|ops| - 1]);
      match op
      case Offer(x, prio) => OfferInOrder(s, qmax, x, prio);
      case Take => TakeInOrder(s, qmax);
    }
  }
}
