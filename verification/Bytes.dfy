/**
 Bytes, 32-bit quantities and lists of byte strings, shared by the modules of the model.
 */
module Bytes {
  type byte = bv8

  const TWO_32: nat := 0x1_0000_0000

  type u32 = n: nat | n < TWO_32

  type u64 = n: nat | n < 0x1_0000_0000_0000_0000

  function RoundUp4(n: nat): (r: nat)
    ensures n <= r < n + 4 && r % 4 == 0
    ensures n % 4 == 0 ==> r == n
  {
    (n + 3) / 4 * 4
  }

  function Zeros(n: nat): (z: seq<byte>)
    ensures |z| == n
  {
    seq(n, _ => 0)
  }

  /** The byte strings of `pieces`, one after the other. */
  function Concat<T>(pieces: seq<seq<T>>): seq<T> {
    if |pieces| == 0 then [] else Concat(pieces[..|pieces| - 1]) + pieces[|pieces| - 1]
  }

  lemma ConcatLast<T>(pieces: seq<seq<T>>, n: nat)
    requires n < |pieces|
    ensures Concat(pieces[..n + 1]) == Concat(pieces[..n]) + pieces[n]
  {
    assert pieces[..n + 1][..n] == pieces[..n];
  }

  lemma {:induction false} ConcatFirst<T>(q: seq<seq<T>>)
    requires q != []
    ensures Concat(q) == q[0] + Concat(q[1..])
    decreases |q|
  {
    if |q| > 1 {
      ConcatFirst(q[..|q| - 1]);
      assert q[..|q| - 1][1..] == q[1..][..|q| - 2];
    }
  }

  /** memcpy(&b[at], data, |data|). */
  method CopyInto(b: array<byte>, at: nat, data: seq<byte>)
    requires at + |data| <= b.Length
    modifies b
    ensures b[..at] == old(b[..at])
    ensures b[at..at + |data|] == data
    ensures b[at + |data|..] == old(b[at + |data|..])
  {
    forall k | 0 <= k < |data| {
      b[at + k] := data[k];
    }
  }
}
