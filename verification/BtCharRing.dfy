/**
 The queue between the Bluetooth stack and the character device: a circular array of 500
 packets, written whole and read as a stream of bytes, a read taking at most one packet and
 leaving the rest of it for the next.
 */
module BtCharRing {
  import opened Bytes

  const QUEUE_SIZE: nat := 500
  const ERESTARTSYS: int := -512

  // ----- the queue as a list of packets

  /** One place of the array always stays empty. */
  predicate Full(q: seq<seq<byte>>) {
    |q| == QUEUE_SIZE - 1
  }

  function Push(q: seq<seq<byte>>, packet: seq<byte>): seq<seq<byte>> {
    if Full(q) then q else q + [packet]
  }

  function PushAll(q: seq<seq<byte>>, packets: seq<seq<byte>>): seq<seq<byte>>
    decreases |packets|
  {
    if packets == [] then q else PushAll(Push(q, packets[0]), packets[1..])
  }

  /** The queue that a read of n bytes finds once it goes on. */
  function Awaited(q: seq<seq<byte>>, n: nat, arrivals: seq<seq<byte>>): seq<seq<byte>> {
    if n > 0 && q == [] then PushAll(q, arrivals) else q
  }

  /** What a read of n bytes returns: from the oldest packet only. */
  function Head(q: seq<seq<byte>>, n: nat): seq<byte> {
    if q == [] then [] else if n >= |q[0]| then q[0] else q[0][..n]
  }

  function Rest(q: seq<seq<byte>>, n: nat): seq<seq<byte>> {
    if q == [] then [] else if n >= |q[0]| then q[1..] else [q[0][n..]] + q[1..]
  }

  // ----- the circular array

  function Next(i: nat): (n: nat)
    requires i < QUEUE_SIZE
    ensures n == if i + 1 == QUEUE_SIZE then 0 else i + 1
  {
    (i + 1) % QUEUE_SIZE
  }

  class Ring {
    const slots: array<seq<byte>>
    var front: nat
    var rear: nat

    ghost predicate Valid()
      reads this
    {
      slots.Length == QUEUE_SIZE && front < QUEUE_SIZE && rear < QUEUE_SIZE
    }

    /** The packets from front to rear, around the end of the array if need be. */
    ghost function Queue(): (q: seq<seq<byte>>)
      requires Valid()
      reads this, slots
      ensures |q| < QUEUE_SIZE
    {
      if front <= rear then slots[front..rear] else slots[front..] + slots[..rear]
    }

    constructor ()
      ensures Valid() && Queue() == [] && fresh(slots)
    {
      slots := new seq<byte>[QUEUE_SIZE](_ => []);
      front, rear := 0, 0;
    }

    /** Refuses the packet when the array is full. */
    method Enqueue(packet: seq<byte>) returns (ret: int)
      requires Valid()
      modifies this, slots
      ensures Valid()
      ensures ret == (if Full(old(Queue())) then -1 else 0)
      ensures Queue() == Push(old(Queue()), packet)
    {
      hide Next;
      ret := 0;
      if front == Next(rear) {
        ret := -1;
      } else {
        slots[rear] := packet;
        rear := Next(rear);
      }
    }

    /** Takes the oldest packet off, or, if it is longer than asked for, the first bytes off
        it.  Returns that packet as it was. */
    method DequeueTry(n: nat) returns (found: bool, packet: seq<byte>)
      requires Valid()
      modifies this, slots
      ensures Valid()
      ensures found <==> old(Queue()) != []
      ensures found ==> packet == old(Queue())[0]
      ensures Queue() == Rest(old(Queue()), n)
    {
      hide Next;
      if front == rear {
        return false, [];
      }
      ghost var q := Queue();
      packet := slots[front];
      found := true;
      assert packet == q[0];
      if n >= |packet| {
        front := Next(front);
      } else {
        slots[front] := packet[n..];
        assert Queue() == [packet[n..]] + q[1..];
      }
    }

    /** Copies out at most n bytes.  On an empty queue a reader waits: for `arrivals`, the
        packets queued by the time it goes on, or, if there are none, for a signal, which ends
        the read. */
    method Read(n: nat, arrivals: seq<seq<byte>>) returns (ret: int, bytes: seq<byte>)
      requires Valid()
      modifies this, slots
      ensures Valid()
      ensures var q := Awaited(old(Queue()), n, arrivals);
              && ret == (if n > 0 && q == [] then ERESTARTSYS else |bytes|)
              && bytes == (if n > 0 then Head(q, n) else [])
              && Queue() == if n > 0 then Rest(q, n) else q
    {
      ret, bytes := 0, [];
      if n > 0 {
        if front == rear {
          if arrivals == [] {
            return ERESTARTSYS, [];
          }
          Arrive(arrivals);
        }
        var found, packet := DequeueTry(n);
        if found {
          var len := if |packet| < n then |packet| else n;
          bytes := packet[..len];
          ret := len;
        }
      }
    }

    /** Packets queued while a reader waits. */
    method Arrive(packets: seq<seq<byte>>)
      requires Valid() && packets != []
      modifies this, slots
      ensures Valid() && Queue() == PushAll(old(Queue()), packets) && Queue() != []
    {
      var i := 0;
      while i < |packets|
        invariant 0 <= i <= |packets| && Valid()
        invariant PushAll(Queue(), packets[i..]) == PushAll(old(Queue()), packets)
        invariant i > 0 ==> Queue() != []
      {
        var ret := Enqueue(packets[i]);
        assert packets[i..][1..] == packets[i + 1..];
        i := i + 1;
      }
    }

    method Count() returns (count: nat)
      requires Valid()
      ensures count == |Queue()|
    {
      if front == rear {
        count := 0;
      } else if rear > front {
        count := rear - front;
      } else {
        count := rear + QUEUE_SIZE - front;
      }
    }

    method Clear()
      requires Valid()
      modifies this, slots
      ensures Valid() && Queue() == []
    {
      hide Next;
      while front != rear
        invariant Valid()
        decreases |Queue()|
      {
        ghost var n := |Queue()|;
        slots[front] := [];
        assert |Queue()| == n;
        front := Next(front);
      }
    }
  }

  // ----- the ring is a byte stream

  datatype Op = Write(packet: seq<byte>) | Take(n: nat)

  /** The queue, the bytes accepted and the bytes read so far. */
  datatype State = State(queue: seq<seq<byte>>, accepted: seq<byte>, read: seq<byte>)

  function Do(s: State, op: Op): State {
    match op
    case Write(packet) =>
      State(Push(s.queue, packet), if Full(s.queue) then s.accepted else s.accepted + packet, s.read)
    case Take(n) =>
      State(Rest(s.queue, n), s.accepted, s.read + Head(s.queue, n))
  }

  function Run(ops: seq<Op>): State {
    if ops == [] then State([], [], []) else Do(Run(ops[..|ops| - 1]), ops[|ops| - 1])
  }

  lemma TakeSplits(q: seq<seq<byte>>, n: nat)
    ensures Concat(q) == Head(q, n) + Concat(Rest(q, n))
  {
    if q != [] {
      ConcatFirst(q);
      if n < |q[0]| {
        var r := Rest(q, n);
        ConcatFirst(r);
        assert r[1..] == q[1..];
        assert q[0] == q[0][..n] + q[0][n..];
      }
    }
  }

  /** Whatever the sizes of packets and reads, the bytes read so far followed by the bytes
      queued are the bytes accepted; and the array never holds more than 499 packets. */
  lemma {:induction false} RingIsByteStream(ops: seq<Op>)
    ensures var s := Run(ops);
            s.accepted == s.read + Concat(s.queue) && |s.queue| < QUEUE_SIZE
  {
    if ops != [] {
      var s, op := Run(ops[..|ops| - 1]), ops[|ops| - 1];
      RingIsByteStream(ops[..|ops| - 1]);
      match op
      case Write(packet) =>
        if !Full(s.queue) {
          assert (s.queue + [packet])[..|s.queue|] == s.queue;
        }
      case Take(n) =>
        TakeSplits(s.queue, n);
    }
  }

  /** A read of n bytes returns the first n bytes of the oldest packet, or all of it if it has
      no more, and leaves the rest of it in its place. */
  lemma ReadExactly(q: seq<seq<byte>>, n: nat)
    requires q != []
    ensures |Head(q, n)| == (if |q[0]| < n then |q[0]| else n) && Head(q, n) <= q[0]
    ensures n < |q[0]| ==> |Rest(q, n)| == |q| && Rest(q, n)[0] == q[0][n..] && Rest(q, n)[1..] == q[1..]
    ensures n >= |q[0]| ==> Rest(q, n) == q[1..]
  {
  }

  /** A packet is refused exactly when 499 are queued. */
  lemma AcceptedExactly(q: seq<seq<byte>>, packet: seq<byte>)
    requires |q| <= 499
    ensures if |q| == 499 then Push(q, packet) == q else Push(q, packet) == q + [packet]
  {
  }
}
