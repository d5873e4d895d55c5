/**
 The NAT2.5 database: network addresses with the hardware address last seen for each, in a
 hash table of sixteen chains.  The chains are intrusive: every entry points to the next, and
 back to the link that points to it, be that a bucket or another entry's `next`.

 The operations are specified on the finite map that the chains represent.
 */
module Nat25 {
  import opened Bytes
  import opened Wrappers

  const HASH_SIZE: nat := 16
  const ADDR_LEN: nat := 17
  const MAC_LEN: nat := 6

  type Mac = m: seq<byte> | |m| == 6 witness seq(6, _ => 0)

  type Addr = a: seq<byte> | |a| == 17 witness seq(17, _ => 0)

  // ----- hashing

  function Fold(x: byte): (h: nat)
    ensures h < HASH_SIZE
  {
    (x & 0x0f) as nat
  }

  function Both(x: byte, y: byte): byte { x ^ y }

  /** The exclusive or of some bytes. */
  function XorOf(s: seq<byte>): byte {
    if s == [] then 0 else Both(XorOf(s[..|s| - 1]), s[|s| - 1])
  }

  /** The bytes that count, by the protocol in the first byte: IPv4, IPv6, IPX, Apple, PPPoE. */
  function Counted(protocol: byte): (r: (nat, nat))
    ensures r.0 <= r.1 <= ADDR_LEN
  {
    match protocol
    case 0x01 => (7, 11)
    case 0x02 => (1, 17)
    case 0x03 => (1, 11)
    case 0x04 => (1, 4)
    case 0x05 => (0, 9)
    case _ => (0, 17)
  }

  /** The chain of an address. */
  function Hash(a: Addr): (h: nat)
    ensures h < HASH_SIZE
  {
    Fold(XorOf(a[Counted(a[0]).0..Counted(a[0]).1]))
  }

  /** The fallback runs over the whole address. */
  method NetworkHash(a: Addr) returns (h: nat)
    ensures h == Hash(a)
  {
    hide Fold, XorOf;
    if a[0] == 0x01 {
      var x := [a[7], a[8], a[9], a[10]];
      assert x == a[7..11];
      return Fold(XorOf(x));
    } else if a[0] == 0x03 {
      var x := [a[1], a[2], a[3], a[4], a[5], a[6], a[7], a[8], a[9], a[10]];
      assert x == a[1..11];
      return Fold(XorOf(x));
    } else if a[0] == 0x04 {
      var x := [a[1], a[2], a[3]];
      assert x == a[1..4];
      return Fold(XorOf(x));
    } else if a[0] == 0x05 {
      var x := [a[0], a[1], a[2], a[3], a[4], a[5], a[6], a[7], a[8]];
      assert x == a[0..9];
      return Fold(XorOf(x));
    } else if a[0] == 0x02 {
      var x := [a[1], a[2], a[3], a[4], a[5], a[6], a[7], a[8], a[9], a[10], a[11], a[12], a[13], a[14], a[15], a[16]];
      assert x == a[1..17];
      return Fold(XorOf(x));
    }
    var x: byte := 0;
    assert a[..0] == [] && XorOf([]) == 0 by { XorOfNone(); }
    for i := 0 to ADDR_LEN
      invariant x == XorOf(a[..i])
    {
      XorOfNext(a, i);
      x := Both(x, a[i]);
    }
    assert a[..ADDR_LEN] == a[0..17];
    return Fold(x);
  }

  lemma XorOfNone()
    ensures XorOf([]) == 0
  {
  }

  lemma XorOfNext(a: seq<byte>, i: nat)
    requires i < |a|
    ensures XorOf(a[..i + 1]) == Both(XorOf(a[..i]), a[i])
  {
    assert a[..i + 1][..i] == a[..i];
  }

  /** The network address of an IPv4 address. */
  function Ipv4Addr(ip: seq<byte>): Addr
    requires |ip| == 4
  {
    [0x01] + Zeros(6) + ip + Zeros(6)
  }

  // ----- the map

  /** What the database knows of an address. */
  datatype Rec = Rec(mac: Mac, ageing: u64, useCount: int)

  type Table = map<Addr, Rec>

  /** The ageing time, in ticks: 300 seconds at `hz` ticks a second. */
  function Timeout(now: u64, hz: nat): u64 {
    (now - 300 * hz) % 0x1_0000_0000_0000_0000
  }

  /** time_before_eq(ageing, timeout), by the sign of a 64-bit difference. */
  predicate Expired(ageing: u64, now: u64, hz: nat) {
    (Timeout(now, hz) - ageing) % 0x1_0000_0000_0000_0000 < 0x8000_0000_0000_0000
  }

  function Inserted(t: Table, mac: Mac, a: Addr, now: u64): Table {
    t[a := Rec(mac, now, if a in t then t[a].useCount else 1)]
  }

  /** A lookup: a live entry is used once more. */
  function LookedUp(t: Table, a: Addr, now: u64, hz: nat): Table {
    if a in t && !Expired(t[a].ageing, now, hz) then t[a := t[a].(useCount := t[a].useCount + 1)] else t
  }

  function Touched(t: Table, a: Addr, now: u64): Table
    requires a in t
  {
    t[a := t[a].(ageing := now)]
  }

  /** An entry at an expiry pass: kept as it is, one use fewer, or gone. */
  function Survivor(r: Rec, now: u64, hz: nat): Option<Rec> {
    if !Expired(r.ageing, now, hz) then Some(r)
    else if r.useCount <= 1 then None
    else Some(r.(useCount := r.useCount - 1))
  }

  /** The table after an expiry pass over the addresses in `done`. */
  ghost predicate ExpiredOver(before: Table, after: Table, now: u64, hz: nat, done: set<Addr>) {
    && after.Keys <= before.Keys
    && forall a :: a in before ==> EntryAfter(before, after, now, hz, a, a in done)
  }

  ghost predicate EntryAfter(before: Table, after: Table, now: u64, hz: nat, a: Addr, done: bool)
    requires a in before
  {
    var s := if done then Survivor(before[a], now, hz) else Some(before[a]);
    if s.Some? then a in after && after[a] == s.value else a !in after
  }

  /** The table after a whole expiry pass. */
  function AfterExpiry(t: Table, now: u64, hz: nat): Table {
    map a | a in t && Survivor(t[a], now, hz).Some? :: Survivor(t[a], now, hz).value
  }

  lemma ExpiryStep(before: Table, t: Table, now: u64, hz: nat, done: set<Addr>, a: Addr)
    requires ExpiredOver(before, t, now, hz, done) && a in t && a !in done
    ensures ExpiredOver(before, Put(t, a, Survivor(t[a], now, hz)), now, hz, done + {a})
  {
  }

  lemma ExpiryDone(before: Table, t: Table, now: u64, hz: nat, done: set<Addr>)
    requires ExpiredOver(before, t, now, hz, done) && t.Keys <= done
    ensures t == AfterExpiry(before, now, hz)
  {
  }

  /** A table with one entry replaced or, for None, removed. */
  function Put(t: Table, a: Addr, r: Option<Rec>): Table {
    if r.Some? then t[a := r.value] else t - {a}
  }

  // ----- the chains

  datatype Link = Nowhere | Bucket(i: nat) | NextOf(e: Entry)

  class Entry {
    var next: Entry?
    var pprev: Link
    var useCount: int
    var mac: Mac
    var ageing: u64
    const addr: Addr

    constructor (mac: Mac, addr: Addr, now: u64)
      ensures this.mac == mac && this.addr == addr && useCount == 1 && ageing == now
      ensures next == null && pprev == Nowhere
    {
      this.mac, this.addr, useCount, ageing := mac, addr, 1, now;
      next, pprev := null, Nowhere;
    }
  }

  /** A frame of which the driver may rewrite the first bytes, the destination. */
  class Frame {
    var data: seq<byte>

    constructor (data: seq<byte>)
      ensures this.data == data
    {
      this.data := data;
    }
  }

  function RecOf(e: Entry): Rec
    reads e
  {
    Rec(e.mac, e.ageing, e.useCount)
  }

  /** The j-th entry of a chain; null past its end. */
  ghost function At(chain: seq<Entry>, j: nat): Entry? {
    if j < |chain| then chain[j] else null
  }

  ghost function Without(chain: seq<Entry>, j: nat): seq<Entry>
    requires j < |chain|
  {
    chain[..j] + chain[j + 1..]
  }

  /** What a chain may hold: entries of the database, of its own hash, no address twice. */
  ghost predicate ChainFits(c: seq<Entry>, i: nat, repr: set<Entry>) {
    && (forall e: Entry :: e in c ==> e in repr && Hash(e.addr) == i)
    && (forall j: nat, k: nat :: j < k < |c| ==> c[j].addr != c[k].addr)
  }

  /** Every entry is in the chain that its address hashes to, once, and no other entry has
      its address. */
  ghost predicate ShapeOf(chains: seq<seq<Entry>>, repr: set<Entry>, owner: map<Addr, Entry>) {
    && |chains| == HASH_SIZE
    && (forall i: nat :: i < HASH_SIZE ==> ChainFits(chains[i], i, repr))
    && (forall e: Entry :: e in repr ==> e in chains[Hash(e.addr)] && e.addr in owner && owner[e.addr] == e)
    && (forall a: Addr :: a in owner ==> owner[a] in repr && owner[a].addr == a)
  }

  /** An entry has one place. */
  lemma OnePlace(chains: seq<seq<Entry>>, repr: set<Entry>, owner: map<Addr, Entry>, i: nat, j: nat)
    requires ShapeOf(chains, repr, owner) && i < HASH_SIZE && j < |chains[i]|
    ensures forall k: nat, l: nat | k < HASH_SIZE && l < |chains[k]| && chains[k][l] == chains[i][j] :: k == i && l == j
  {
    hide Hash;
    forall k: nat, l: nat | k < HASH_SIZE && l < |chains[k]| && chains[k][l] == chains[i][j]
      ensures k == i && l == j
    {
      assert ChainFits(chains[k], k, repr) && ChainFits(chains[i], i, repr);
      assert chains[i][j] in chains[i] && chains[k][l] in chains[k];
    }
  }

  // ----- what the pointers say, as values

  ghost function Nexts(r: set<Entry>): map<Entry, Entry?>
    reads r
  {
    map e | e in r :: e.next
  }

  ghost function Pprevs(r: set<Entry>): map<Entry, Link>
    reads r
  {
    map e | e in r :: e.pprev
  }

  /** The links of the j-th entry of chain i, both ways. */
  ghost predicate Place(c: seq<Entry>, i: nat, j: nat, next: map<Entry, Entry?>, pprev: map<Entry, Link>)
    requires j < |c|
  {
    c[j] in next && next[c[j]] == At(c, j + 1) && c[j] in pprev && pprev[c[j]] == LinkTo(c, i, j)
  }

  /** The bucket and the links of chain i are what the sequence says. */
  ghost predicate Spells(c: seq<Entry>, i: nat, head: Entry?, next: map<Entry, Entry?>, pprev: map<Entry, Link>) {
    head == At(c, 0) && forall j: nat :: j < |c| ==> Place(c, i, j, next, pprev)
  }

  /** The link that points to the j-th entry of chain i. */
  ghost function LinkTo(c: seq<Entry>, i: nat, j: nat): Link
    requires j <= |c|
  {
    if j == 0 then Bucket(i) else NextOf(c[j - 1])
  }

  ghost predicate AllSpelled(chains: seq<seq<Entry>>, heads: seq<Entry?>, next: map<Entry, Entry?>,
                             pprev: map<Entry, Link>)
  {
    && |chains| == |heads| == HASH_SIZE
    && forall i: nat :: i < HASH_SIZE ==> Spells(chains[i], i, heads[i], next, pprev)
  }

  /** A pointer to an entry, if there is one, set to `l`. */
  ghost function Pointing(pprev: map<Entry, Link>, e: Entry?, l: Link): map<Entry, Link> {
    if e == null then pprev else pprev[e := l]
  }

  /** The bucket or `next` that a link is, set to `target`. */
  ghost function HeadsVia(heads: seq<Entry?>, l: Link, target: Entry?): seq<Entry?> {
    if l.Bucket? && l.i < |heads| then heads[l.i := target] else heads
  }

  ghost function NextsVia(next: map<Entry, Entry?>, l: Link, target: Entry?): map<Entry, Entry?> {
    if l.NextOf? then next[l.e := target] else next
  }

  // ----- linking and unlinking

  lemma ShapeAfterLink(chains: seq<seq<Entry>>, repr: set<Entry>, owner: map<Addr, Entry>, ent: Entry)
    requires ShapeOf(chains, repr, owner) && ent !in repr && ent.addr !in owner
    ensures var h := Hash(ent.addr);
            ShapeOf(chains[h := [ent] + chains[h]], repr + {ent}, owner[ent.addr := ent])
  {
  }

  lemma FitsWithout(c: seq<Entry>, i: nat, repr: set<Entry>, j: nat)
    requires ChainFits(c, i, repr) && j < |c|
    ensures ChainFits(Without(c, j), i, repr - {c[j]})
  {
  }

  lemma ShapeAfterUnlink(chains: seq<seq<Entry>>, repr: set<Entry>, owner: map<Addr, Entry>, i: nat, j: nat)
    requires ShapeOf(chains, repr, owner) && i < HASH_SIZE && j < |chains[i]|
    ensures var ent := chains[i][j];
            ShapeOf(chains[i := Without(chains[i], j)], repr - {ent}, owner - {ent.addr})
  {
    hide Hash;
    var c, ent := chains[i], chains[i][j];
    var after := chains[i := Without(c, j)];
    assert ChainFits(c, i, repr) && ent in c;
    forall e: Entry | e in repr - {ent}
      ensures e in after[Hash(e.addr)]
    {
      assert e in chains[Hash(e.addr)];
      if Hash(e.addr) == i {
        var k :| 0 <= k < |c| && c[k] == e;
        assert Without(c, j)[if k < j then k else k - 1] == e;
      }
    }
    FitsWithout(c, i, repr, j);
    forall k: nat | k < HASH_SIZE && k != i
      ensures ChainFits(after[k], k, repr - {ent})
    {
      assert ChainFits(chains[k], k, repr);
    }
  }

  lemma Newcomer(chains: seq<seq<Entry>>, repr: set<Entry>, owner: map<Addr, Entry>, ent: Entry)
    requires ShapeOf(chains, repr, owner) && ent !in repr
    ensures forall i: nat, j: nat | i < HASH_SIZE && j < |chains[i]| :: chains[i][j] != ent
  {
  }

  lemma HeadsOf(chains: seq<seq<Entry>>, heads: seq<Entry?>, next: map<Entry, Entry?>, pprev: map<Entry, Link>)
    requires AllSpelled(chains, heads, next, pprev)
    ensures |chains| == |heads| == HASH_SIZE
    ensures forall i: nat | i < HASH_SIZE :: heads[i] == At(chains[i], 0)
  {
  }

  lemma Step(chains: seq<seq<Entry>>, heads: seq<Entry?>, next: map<Entry, Entry?>, pprev: map<Entry, Link>,
             h: nat, j: nat)
    requires AllSpelled(chains, heads, next, pprev) && h < HASH_SIZE && j < |chains[h]|
    ensures Place(chains[h], h, j, next, pprev)
  {
  }

  /** The entry of an address, found in its chain. */
  lemma InChain(chains: seq<seq<Entry>>, repr: set<Entry>, owner: map<Addr, Entry>, a: Addr)
    requires ShapeOf(chains, repr, owner)
    ensures var h := Hash(a);
            && (a in owner ==> owner[a] in chains[h] && owner[a].addr == a)
            && forall e: Entry :: e in chains[h] ==> e in repr && (e.addr == a ==> a in owner && owner[a] == e)
  {
  }

  /** A chain whose entries keep their pointers is still spelled out. */
  lemma PointersApart(c: seq<Entry>, i: nat, head: Entry?, next: map<Entry, Entry?>, pprev: map<Entry, Link>,
                      next': map<Entry, Entry?>, pprev': map<Entry, Link>)
    requires Spells(c, i, head, next, pprev)
    requires forall j: nat | j < |c| :: c[j] in next ==> c[j] in next' && next'[c[j]] == next[c[j]]
    requires forall j: nat | j < |c| :: c[j] in pprev ==> c[j] in pprev' && pprev'[c[j]] == pprev[c[j]]
    ensures Spells(c, i, head, next', pprev')
  {
    forall j: nat | j < |c|
      ensures Place(c, i, j, next', pprev')
    {
      assert Place(c, i, j, next, pprev);
    }
  }

  lemma PointersOfFront(c: seq<Entry>, h: nat, next: map<Entry, Entry?>, pprev: map<Entry, Link>, ent: Entry)
    requires Spells(c, h, At(c, 0), next, pprev)
    requires forall j: nat | j < |c| :: c[j] != ent && (c[j] == c[0] ==> j == 0)
    ensures Spells([ent] + c, h, ent, next[ent := At(c, 0)], Pointing(pprev, At(c, 0), NextOf(ent))[ent := Bucket(h)])
  {
    var next', pprev' := next[ent := At(c, 0)], Pointing(pprev, At(c, 0), NextOf(ent))[ent := Bucket(h)];
    var c' := [ent] + c;
    forall j: nat | j < |c'|
      ensures Place(c', h, j, next', pprev')
    {
      if j > 0 { assert Place(c, h, j - 1, next, pprev) && c'[j] == c[j - 1]; }
    }
  }

  /** Taking the j-th entry out: the link before it and the entry after it now meet. */
  lemma PointersOfGap(c: seq<Entry>, h: nat, head: Entry?, next: map<Entry, Entry?>, pprev: map<Entry, Link>, j: nat)
    requires Spells(c, h, head, next, pprev) && j < |c|
    requires forall k: nat | k < |c| :: c[k] == c[j] ==> k == j
    requires j > 0 ==> forall k: nat | k < |c| :: c[k] == c[j - 1] ==> k == j - 1
    requires j + 1 < |c| ==> forall k: nat | k < |c| :: c[k] == c[j + 1] ==> k == j + 1
    ensures var ent, l := c[j], LinkTo(c, h, j);
            && ent in next
            && Spells(Without(c, j), h, if l.Bucket? then next[ent] else head,
                      NextsVia(next, l, next[ent])[ent := null],
                      Pointing(pprev, next[ent], l)[ent := Nowhere])
  {
    var ent, l := c[j], LinkTo(c, h, j);
    assert Place(c, h, j, next, pprev);
    var c' := Without(c, j);
    var next' := NextsVia(next, l, next[ent])[ent := null];
    var pprev' := Pointing(pprev, next[ent], l)[ent := Nowhere];
    forall k: nat | k < |c'|
      ensures Place(c', h, k, next', pprev')
    {
      if k < j {
        assert Place(c, h, k, next, pprev) && c'[k] == c[k];
      } else {
        assert Place(c, h, k + 1, next, pprev) && c'[k] == c[k + 1];
      }
    }
  }

  lemma SpelledAfterLink(chains: seq<seq<Entry>>, repr: set<Entry>, owner: map<Addr, Entry>, heads: seq<Entry?>,
                         next: map<Entry, Entry?>, pprev: map<Entry, Link>, ent: Entry, h: nat)
    requires ShapeOf(chains, repr, owner) && AllSpelled(chains, heads, next, pprev)
    requires ent !in repr && h < HASH_SIZE
    ensures AllSpelled(chains[h := [ent] + chains[h]], heads[h := ent], next[ent := heads[h]],
                       Pointing(pprev, heads[h], NextOf(ent))[ent := Bucket(h)])
  {
    hide Hash, ChainFits, ShapeOf, Spells;
    Newcomer(chains, repr, owner, ent);
    var c := chains[h];
    assert Spells(c, h, heads[h], next, pprev);
    HeadsOf(chains, heads, next, pprev);
    if |c| > 0 { OnePlace(chains, repr, owner, h, 0); }
    PointersOfFront(c, h, next, pprev, ent);
    forall i: nat | i < HASH_SIZE && i != h
      ensures Spells(chains[i], i, heads[i], next[ent := heads[h]],
                     Pointing(pprev, heads[h], NextOf(ent))[ent := Bucket(h)])
    {
      PointersApart(chains[i], i, heads[i], next, pprev, next[ent := heads[h]],
                    Pointing(pprev, heads[h], NextOf(ent))[ent := Bucket(h)]);
    }
  }

  lemma SpelledAfterUnlink(chains: seq<seq<Entry>>, repr: set<Entry>, owner: map<Addr, Entry>, heads: seq<Entry?>,
                           next: map<Entry, Entry?>, pprev: map<Entry, Link>, h: nat, j: nat)
    requires ShapeOf(chains, repr, owner) && AllSpelled(chains, heads, next, pprev)
    requires h < HASH_SIZE && j < |chains[h]|
    ensures var ent, l := chains[h][j], LinkTo(chains[h], h, j);
            && ent in next && next[ent] == At(chains[h], j + 1) && ent in pprev && pprev[ent] == l
            && AllSpelled(chains[h := Without(chains[h], j)], HeadsVia(heads, l, next[ent]),
                          NextsVia(next, l, next[ent])[ent := null],
                          Pointing(pprev, next[ent], l)[ent := Nowhere])
  {
    hide Hash, ChainFits, ShapeOf, Spells;
    var c, ent, l := chains[h], chains[h][j], LinkTo(chains[h], h, j);
    assert Spells(c, h, heads[h], next, pprev);
    HeadsOf(chains, heads, next, pprev);
    Step(chains, heads, next, pprev, h, j);
    OnePlace(chains, repr, owner, h, j);
    if j > 0 { OnePlace(chains, repr, owner, h, j - 1); }
    if j + 1 < |c| { OnePlace(chains, repr, owner, h, j + 1); }
    PointersOfGap(c, h, heads[h], next, pprev, j);
    var next' := NextsVia(next, l, next[ent])[ent := null];
    var pprev' := Pointing(pprev, next[ent], l)[ent := Nowhere];
    forall i: nat | i < HASH_SIZE && i != h
      ensures Spells(chains[i], i, heads[i], next', pprev')
    {
      PointersApart(chains[i], i, heads[i], next, pprev, next', pprev');
    }
  }

  /** The entries around the j-th of a chain are others of the database. */
  lemma Neighbours(chains: seq<seq<Entry>>, repr: set<Entry>, owner: map<Addr, Entry>, i: nat, j: nat)
    requires ShapeOf(chains, repr, owner) && i < HASH_SIZE && j < |chains[i]|
    ensures var c, ent := chains[i], chains[i][j];
            && ent in repr && ent.addr in owner && owner[ent.addr] == ent && Hash(ent.addr) == i
            && LinkTo(c, i, j) == (if j > 0 then NextOf(c[j - 1]) else Bucket(i))
            && (j > 0 ==> c[j - 1] in repr && c[j - 1] != ent)
            && (At(c, j + 1) != null ==> At(c, j + 1) in repr && At(c, j + 1) != ent)
  {
  }

  lemma AllChained(chains: seq<seq<Entry>>, repr: set<Entry>, owner: map<Addr, Entry>, done: set<Addr>)
    requires ShapeOf(chains, repr, owner)
    requires forall k: nat, l: nat | k < HASH_SIZE && l < |chains[k]| :: chains[k][l].addr in done
    ensures owner.Keys <= done
  {
  }

  lemma DistinctAddrs(chains: seq<seq<Entry>>, repr: set<Entry>, owner: map<Addr, Entry>, i: nat, j: nat)
    requires ShapeOf(chains, repr, owner) && i < HASH_SIZE && j < |chains[i]|
    ensures forall l: nat | l < |chains[i]| && l != j :: chains[i][l].addr != chains[i][j].addr
  {
  }

  /** Only what the pointers of the chained entries are matters. */
  lemma NarrowSpelled(chains: seq<seq<Entry>>, repr: set<Entry>, owner: map<Addr, Entry>, heads: seq<Entry?>,
                      next: map<Entry, Entry?>, pprev: map<Entry, Link>,
                      next': map<Entry, Entry?>, pprev': map<Entry, Link>)
    requires ShapeOf(chains, repr, owner) && AllSpelled(chains, heads, next, pprev)
    requires forall e: Entry :: e in repr && e in next ==> e in next' && next'[e] == next[e]
    requires forall e: Entry :: e in repr && e in pprev ==> e in pprev' && pprev'[e] == pprev[e]
    ensures AllSpelled(chains, heads, next', pprev')
  {
    hide Hash;
    forall i: nat | i < HASH_SIZE
      ensures Spells(chains[i], i, heads[i], next', pprev')
    {
      assert Spells(chains[i], i, heads[i], next, pprev) && ChainFits(chains[i], i, repr);
      PointersApart(chains[i], i, heads[i], next, pprev, next', pprev');
    }
  }

  ghost const EMPTY_CACHE: (Entry?, seq<byte>, seq<byte>) := (null, Zeros(MAC_LEN), Zeros(4))

  lemma Owned(chains: seq<seq<Entry>>, repr: set<Entry>, owner: map<Addr, Entry>)
    requires ShapeOf(chains, repr, owner)
    ensures forall a: Addr :: a in owner ==> owner[a] in repr && owner[a].addr == a
    ensures forall e: Entry :: e in repr ==> e.addr in owner && owner[e.addr] == e
  {
  }

  class NatDb {
    const nethash: array<Entry?>
    var scdbEntry: Entry?
    var scdbMac: Mac
    var scdbIp: seq<byte>
    /** The chains, as sequences, and the entries in them. */
    ghost var chains: seq<seq<Entry>>
    ghost var repr: set<Entry>
    /** The entry of each address. */
    ghost var owner: map<Addr, Entry>

    /** The pointers spell out the chains. */
    ghost predicate Linked()
      reads this`chains, this`repr, this`owner, nethash, repr
    {
      && nethash.Length == HASH_SIZE
      && ShapeOf(chains, repr, owner)
      && AllSpelled(chains, nethash[..], Nexts(repr), Pprevs(repr))
    }

    /** The cached entry is one of the chains' and has the cached IP address. */
    ghost predicate CacheLive()
      reads this
    {
      && |scdbIp| == 4
      && (scdbEntry != null ==> scdbEntry in repr && scdbEntry.addr == Ipv4Addr(scdbIp))
    }

    ghost predicate Valid()
      reads this, nethash, repr
    {
      Linked() && CacheLive() && forall e: Entry :: e in repr ==> e.useCount >= 1
    }

    /** The map that the chains represent. */
    ghost function View(): Table
      reads this`repr, this`owner, repr
    {
      map a: Addr | a in owner && owner[a] in repr :: RecOf(owner[a])
    }

    constructor ()
      ensures Valid() && View() == map[] && fresh(nethash) && repr == {}
    {
      nethash := new Entry?[HASH_SIZE](_ => null);
      scdbEntry, scdbMac, scdbIp := null, Zeros(MAC_LEN), Zeros(4);
      chains, repr, owner := seq(HASH_SIZE, _ => []), {}, map[];
    }

    /** Walks the chain of an address. */
    method Find(a: Addr) returns (db: Entry?)
      requires Linked()
      ensures db == (if a in owner then owner[a] else null)
      ensures db != null ==> db in repr && db.addr == a
    {
      hide Hash, ShapeOf, AllSpelled;
      var h := NetworkHash(a);
      HeadsOf(chains, nethash[..], Nexts(repr), Pprevs(repr));
      InChain(chains, repr, owner, a);
      ghost var c, j: nat := chains[h], 0;
      assert nethash[..][h] == nethash[h];
      db := nethash[h];
      while db != null
        invariant j <= |c| && db == At(c, j)
        invariant forall k: nat :: k < j ==> c[k].addr != a
        decreases |c| - j
      {
        if db.addr == a {
          return;
        }
        Step(chains, nethash[..], Nexts(repr), Pprevs(repr), h, j);
        assert db.next == Nexts(repr)[db];
        db := db.next;
        j := j + 1;
      }
    }

    /** The pointer writes of linking. */
    method LinkPointers(ent: Entry, hash: nat)
      requires nethash.Length == HASH_SIZE && hash < HASH_SIZE && ent !in repr
      requires nethash[hash] != null ==> nethash[hash] in repr
      modifies nethash, repr, ent
      ensures nethash[..] == old(nethash[..])[hash := ent]
      ensures Nexts(repr + {ent}) == old(Nexts(repr))[ent := old(nethash[hash])]
      ensures Pprevs(repr + {ent}) == Pointing(old(Pprevs(repr)), old(nethash[hash]), NextOf(ent))[ent := Bucket(hash)]
      ensures forall e: Entry :: e in repr + {ent} ==> RecOf(e) == old(RecOf(e))
    {
      ent.next := nethash[hash];
      if ent.next != null {
        ent.next.pprev := NextOf(ent);
      }
      nethash[hash] := ent;
      ent.pprev := Bucket(hash);
    }

    /** Puts an entry at the front of its chain. */
    method Link(ent: Entry, hash: nat)
      requires Linked() && ent !in repr && ent.addr !in owner && hash == Hash(ent.addr)
      modifies this`chains, this`repr, this`owner, nethash, repr, ent
      ensures Linked() && chains == old(chains)[hash := [ent] + old(chains)[hash]]
      ensures repr == old(repr) + {ent} && owner == old(owner)[ent.addr := ent]
      ensures forall e: Entry :: e in repr ==> RecOf(e) == old(RecOf(e))
    {
      hide Hash, ShapeOf, AllSpelled;
      ghost var heads, next, pprev := nethash[..], Nexts(repr), Pprevs(repr);
      HeadsOf(chains, heads, next, pprev);
      ShapeAfterLink(chains, repr, owner, ent);
      SpelledAfterLink(chains, repr, owner, heads, next, pprev, ent, hash);
      if |chains[hash]| > 0 { Neighbours(chains, repr, owner, hash, 0); }
      LinkPointers(ent, hash);
      chains := chains[hash := [ent] + chains[hash]];
      repr := repr + {ent};
      owner := owner[ent.addr := ent];
    }

    /** The write through a pointer to a link, which may be a bucket or another entry's next. */
    method Redirect(l: Link, target: Entry?)
      requires nethash.Length == HASH_SIZE && l != Nowhere
      requires l.Bucket? ==> l.i < HASH_SIZE
      requires l.NextOf? ==> l.e in repr
      modifies nethash, repr
      ensures nethash[..] == HeadsVia(old(nethash[..]), l, target)
      ensures Nexts(repr) == NextsVia(old(Nexts(repr)), l, target)
      ensures Pprevs(repr) == old(Pprevs(repr)) && forall e: Entry :: e in repr ==> e.pprev == old(e.pprev)
      ensures forall e: Entry :: e in repr ==> RecOf(e) == old(RecOf(e))
    {
      match l {
        case Bucket(i) => nethash[i] := target;
        case NextOf(e) => e.next := target;
      }
    }

    /** The pointer writes of unlinking. */
    method UnlinkPointers(ent: Entry)
      requires nethash.Length == HASH_SIZE && ent in repr && ent.pprev != Nowhere
      requires ent.pprev.Bucket? ==> ent.pprev.i < HASH_SIZE
      requires ent.pprev.NextOf? ==> ent.pprev.e in repr && ent.pprev.e != ent
      requires ent.next != null ==> ent.next in repr && ent.next != ent
      modifies nethash, repr
      ensures nethash[..] == HeadsVia(old(nethash[..]), old(ent.pprev), old(ent.next))
      ensures Nexts(repr) == NextsVia(old(Nexts(repr)), old(ent.pprev), old(ent.next))[ent := null]
      ensures Pprevs(repr) == Pointing(old(Pprevs(repr)), old(ent.next), old(ent.pprev))[ent := Nowhere]
      ensures forall e: Entry :: e in repr ==> RecOf(e) == old(RecOf(e))
    {
      Redirect(ent.pprev, ent.next);
      assert ent.next == Nexts(repr)[ent];
      PassBack(ent);
    }

    /** The back link of an entry goes to the one after it; the entry keeps neither link. */
    method PassBack(ent: Entry)
      requires ent in repr && (ent.next != null ==> ent.next in repr && ent.next != ent)
      modifies repr
      ensures Nexts(repr) == old(Nexts(repr))[ent := null]
      ensures Pprevs(repr) == Pointing(old(Pprevs(repr)), old(ent.next), old(ent.pprev))[ent := Nowhere]
      ensures forall e: Entry :: e in repr ==> RecOf(e) == old(RecOf(e))
    {
      if ent.next != null {
        ent.next.pprev := ent.pprev;
      }
      ent.next := null;
      ent.pprev := Nowhere;
    }

    /** Takes the j-th entry of chain i out of it. */
    method Unlink(ent: Entry, ghost i: nat, ghost j: nat)
      requires Linked() && i < HASH_SIZE && j < |chains[i]| && chains[i][j] == ent
      modifies this`chains, this`repr, this`owner, nethash, repr
      ensures Linked() && chains == old(chains)[i := Without(old(chains)[i], j)]
      ensures repr == old(repr) - {ent} && owner == old(owner) - {ent.addr}
      ensures forall e: Entry :: e in old(repr) ==> RecOf(e) == old(RecOf(e))
    {
      hide Hash, ShapeOf, AllSpelled, Without, HeadsVia, NextsVia, Pointing, RecOf;
      Unlinking(ent, i, j);
      UnlinkPointers(ent);
      chains := chains[i := Without(chains[i], j)];
      repr := repr - {ent};
      owner := owner - {ent.addr};
      NarrowSpelled(chains, repr, owner, nethash[..], Nexts(old(repr)), Pprevs(old(repr)), Nexts(repr), Pprevs(repr));
    }

    /** What unlinking may count on, and what its pointer writes will spell out. */
    lemma Unlinking(ent: Entry, i: nat, j: nat)
      requires Linked() && i < HASH_SIZE && j < |chains[i]| && chains[i][j] == ent
      ensures |chains| == HASH_SIZE && ent in repr && ent.pprev != Nowhere
      ensures ent.pprev.Bucket? ==> ent.pprev.i < HASH_SIZE
      ensures ent.pprev.NextOf? ==> ent.pprev.e in repr && ent.pprev.e != ent
      ensures ent.next != null ==> ent.next in repr && ent.next != ent
      ensures ShapeOf(chains[i := Without(chains[i], j)], repr - {ent}, owner - {ent.addr})
      ensures AllSpelled(chains[i := Without(chains[i], j)], HeadsVia(nethash[..], ent.pprev, ent.next),
                         NextsVia(Nexts(repr), ent.pprev, ent.next)[ent := null],
                         Pointing(Pprevs(repr), ent.next, ent.pprev)[ent := Nowhere])
    {
      hide Hash, ShapeOf, AllSpelled, Spells, Without, At, LinkTo, HeadsVia, NextsVia, Pointing;
      var next, pprev := Nexts(repr), Pprevs(repr);
      HeadsOf(chains, nethash[..], next, pprev);
      ShapeAfterUnlink(chains, repr, owner, i, j);
      SpelledAfterUnlink(chains, repr, owner, nethash[..], next, pprev, i, j);
      Neighbours(chains, repr, owner, i, j);
      assert ent.next == next[ent] && ent.pprev == pprev[ent];
    }

    /** Changes the data of an entry and none of its links. */
    method Write(e: Entry, r: Rec)
      requires Linked() && e in repr
      modifies e
      ensures Linked() && RecOf(e) == r
      ensures View() == old(View())[e.addr := r]
    {
      hide Hash, ShapeOf, AllSpelled;
      Owned(chains, repr, owner);
      ghost var next, pprev := Nexts(repr), Pprevs(repr);
      e.mac, e.ageing, e.useCount := r.mac, r.ageing, r.useCount;
      assert Nexts(repr) == next && Pprevs(repr) == pprev;
    }

    /** Notes the hardware address of a network address.  A failed allocation loses it. */
    method Insert(mac: Mac, a: Addr, now: u64, memory: bool)
      requires Valid()
      modifies this`chains, this`repr, this`owner, nethash, repr
      ensures Valid() && fresh(repr - old(repr))
      ensures View() == if a in old(View()) || memory then Inserted(old(View()), mac, a, now) else old(View())
    {
      hide Hash, ShapeOf, AllSpelled;
      Owned(chains, repr, owner);
      var db := Find(a);
      if db != null {
        Write(db, Rec(mac, now, db.useCount));
        return;
      }
      if !memory {
        return;
      }
      Add(mac, a, now);
    }

    method Add(mac: Mac, a: Addr, now: u64)
      requires Valid() && a !in owner
      modifies this`chains, this`repr, this`owner, nethash, repr
      ensures Valid() && fresh(repr - old(repr))
      ensures View() == old(View())[a := Rec(mac, now, 1)]
    {
      hide Hash, ShapeOf, AllSpelled;
      Owned(chains, repr, owner);
      var hash := NetworkHash(a);
      var db := new Entry(mac, a, now);
      Link(db, hash);
      Owned(chains, repr, owner);
    }

    /** Looks an address up for a frame on its way in: a live entry gives the frame its
        destination and is used once more; a stale one counts as found and does neither. */
    method LookupAndReplace(skb: Frame, a: Addr, now: u64, hz: nat) returns (found: bool)
      requires Valid() && |skb.data| >= MAC_LEN
      modifies repr, skb
      ensures Valid() && found == (a in old(View()))
      ensures var hit := found && !Expired(old(View())[a].ageing, now, hz);
              && View() == LookedUp(old(View()), a, now, hz)
              && skb.data == if hit then old(View())[a].mac + old(skb.data[MAC_LEN..]) else old(skb.data)
    {
      hide Hash, ShapeOf, AllSpelled;
      Owned(chains, repr, owner);
      var db := Find(a);
      if db == null {
        return false;
      }
      if !Expired(db.ageing, now, hz) {
        skb.data := db.mac + skb.data[MAC_LEN..];
        Write(db, Rec(db.mac, db.ageing, db.useCount + 1));
      }
      return true;
    }

    /** Takes an entry out of its chain, and out of the cache if it was there. */
    method Remove(f: Entry, ghost i: nat, ghost j: nat)
      requires Linked() && CacheLive() && i < HASH_SIZE && j < |chains[i]| && chains[i][j] == f
      modifies this, nethash, repr
      ensures Linked() && CacheLive() && repr == old(repr) - {f}
      ensures chains == old(chains)[i := Without(old(chains)[i], j)]
      ensures View() == Put(old(View()), f.addr, None)
      ensures forall e: Entry :: e in old(repr) ==> RecOf(e) == old(RecOf(e))
      ensures Cache() == if old(scdbEntry) == f then EMPTY_CACHE else old(Cache())
    {
      hide Hash, ShapeOf, AllSpelled;
      if scdbEntry == f {
        scdbMac, scdbIp, scdbEntry := Zeros(MAC_LEN), Zeros(4), null;
      }
      Unlink(f, i, j);
      Owned(chains, repr, owner);
    }

    /** One entry at an expiry pass. */
    method ExpireEntry(f: Entry, now: u64, hz: nat, ghost i: nat, ghost j: nat) returns (gone: bool)
      requires Valid() && i < HASH_SIZE && j < |chains[i]| && chains[i][j] == f
      requires f in repr && f.addr in owner && owner[f.addr] == f
      modifies this, nethash, repr
      ensures Valid() && repr == if gone then old(repr) - {f} else old(repr)
      ensures chains == if gone then old(chains)[i := Without(old(chains)[i], j)] else old(chains)
      ensures View() == Put(old(View()), f.addr, Survivor(old(View())[f.addr], now, hz))
      ensures Cache() == if gone && old(scdbEntry) == f then EMPTY_CACHE else old(Cache())
    {
      hide Hash, ShapeOf, AllSpelled;
      gone := false;
      Owned(chains, repr, owner);
      if Expired(f.ageing, now, hz) {
        Write(f, Rec(f.mac, f.ageing, f.useCount - 1));
        if f.useCount == 0 {
          Remove(f, i, j);
          gone := true;
        }
      }
    }

    /** Goes over every chain, fetching the next entry before the present one may go. */
    method Expire(now: u64, hz: nat)
      requires Valid()
      modifies this, nethash, repr
      ensures Valid() && repr <= old(repr)
      ensures View() == AfterExpiry(old(View()), now, hz)
      ensures forall a: Addr :: a in old(View()) && !Expired(old(View())[a].ageing, now, hz) ==>
                a in View() && View()[a] == old(View())[a]
      ensures Cache() == if old(scdbEntry) == null || old(scdbEntry) in repr then old(Cache()) else EMPTY_CACHE
    {
      hide Hash, ShapeOf, AllSpelled;
      ghost var done: set<Addr> := {};
      HeadsOf(chains, nethash[..], Nexts(repr), Pprevs(repr));
      for i := 0 to HASH_SIZE
        invariant Valid() && repr <= old(repr) && |chains| == HASH_SIZE
        invariant ExpiredOver(old(View()), View(), now, hz, done)
        invariant forall k: nat, l: nat :: k < HASH_SIZE && l < |chains[k]| ==> (chains[k][l].addr in done <==> k < i)
        invariant Cache() == if old(scdbEntry) == null || old(scdbEntry) in repr then old(Cache()) else EMPTY_CACHE
      {
        ghost var was, cs := done, chains;
        done := ExpireChain(i, now, hz, old(View()), was);
        forall k: nat, l: nat | k < HASH_SIZE && l < |chains[k]|
          ensures chains[k][l].addr in done <==> k < i + 1
        {
          if k != i {
            assert chains[k] == cs[k];
            Neighbours(chains, repr, owner, k, l);
          }
        }
      }
      AllChained(chains, repr, owner, done);
      Owned(chains, repr, owner);
      ExpiryDone(old(View()), View(), now, hz, done);
    }

    /** The entry that a walk along chain i meets at place j, and the next it goes to. */
    lemma Standing(i: nat, j: nat)
      requires Valid() && i < HASH_SIZE == |chains| && j < |chains[i]|
      ensures var f := chains[i][j];
              && f.next == At(chains[i], j + 1) && Hash(f.addr) == i
              && f in repr && f.addr in owner && owner[f.addr] == f && f.addr in View()
              && forall l: nat | l < |chains[i]| && l != j :: chains[i][l].addr != f.addr
    {
      hide Hash, ShapeOf, AllSpelled;
      Step(chains, nethash[..], Nexts(repr), Pprevs(repr), i, j);
      Neighbours(chains, repr, owner, i, j);
      DistinctAddrs(chains, repr, owner, i, j);
      assert chains[i][j].next == Nexts(repr)[chains[i][j]];
    }

    lemma First(i: nat)
      requires Valid() && i < HASH_SIZE
      ensures |chains| == HASH_SIZE == nethash.Length && nethash[i] == At(chains[i], 0)
      ensures scdbEntry != null ==> scdbEntry in repr
    {
      hide Hash, ShapeOf, AllSpelled;
      HeadsOf(chains, nethash[..], Nexts(repr), Pprevs(repr));
      assert nethash[..][i] == nethash[i];
    }

    method ExpireChain(i: nat, now: u64, hz: nat, ghost before: Table, ghost seen: set<Addr>) returns (ghost done: set<Addr>)
      requires Valid() && i < HASH_SIZE == |chains| && ExpiredOver(before, View(), now, hz, seen)
      requires forall l: nat :: l < |chains[i]| ==> chains[i][l].addr !in seen
      modifies this, nethash, repr
      ensures Valid() && repr <= old(repr) && |chains| == HASH_SIZE
      ensures ExpiredOver(before, View(), now, hz, done) && seen <= done
      ensures forall k: nat :: k < HASH_SIZE && k != i ==> chains[k] == old(chains)[k]
      ensures forall l: nat :: l < |chains[i]| ==> chains[i][l].addr in done
      ensures forall a: Addr :: a in done && a !in seen ==> Hash(a) == i
      ensures Cache() == if old(scdbEntry) == null || old(scdbEntry) in repr then old(Cache()) else EMPTY_CACHE
    {
      hide Hash, Valid, View, ExpiredOver, Survivor;
      done := seen;
      ghost var j: nat := 0;
      First(i);
      var f := nethash[i];
      while f != null
        invariant Valid() && repr <= old(repr) && |chains| == HASH_SIZE
        invariant j <= |chains[i]| && f == At(chains[i], j)
        invariant ExpiredOver(before, View(), now, hz, done) && seen <= done
        invariant forall k: nat :: k < HASH_SIZE && k != i ==> chains[k] == old(chains)[k]
        invariant forall l: nat :: l < |chains[i]| ==> (chains[i][l].addr in done <==> l < j)
        invariant forall a: Addr :: a in done && a !in seen ==> Hash(a) == i
        invariant Cache() == if old(scdbEntry) == null || old(scdbEntry) in repr then old(Cache()) else EMPTY_CACHE
        decreases |chains[i]| - j
      {
        Standing(i, j);
        var g := f.next;
        ExpiryStep(before, View(), now, hz, done, f.addr);
        var gone := ExpireEntry(f, now, hz, i, j);
        done := done + {f.addr};
        if !gone {
          j := j + 1;
        }
        f := g;
      }
    }

    method Cleanup()
      requires Valid()
      modifies this, nethash, repr
      ensures Valid() && repr == {} && View() == map[]
      ensures Cache() == if old(scdbEntry) == null then old(Cache()) else EMPTY_CACHE
    {
      hide Hash, ShapeOf, AllSpelled;
      HeadsOf(chains, nethash[..], Nexts(repr), Pprevs(repr));
      for i := 0 to HASH_SIZE
        invariant Valid() && repr <= old(repr) && |chains| == HASH_SIZE
        invariant forall k: nat :: k < i ==> chains[k] == []
        invariant Cache() == if old(scdbEntry) == null || old(scdbEntry) in repr then old(Cache()) else EMPTY_CACHE
      {
        EmptyChain(i);
      }
      AllChained(chains, repr, owner, {});
      Owned(chains, repr, owner);
    }

    method EmptyChain(i: nat)
      requires Valid() && i < HASH_SIZE == |chains|
      modifies this, nethash, repr
      ensures Valid() && repr <= old(repr) && |chains| == HASH_SIZE
      ensures chains == old(chains)[i := []]
      ensures Cache() == if old(scdbEntry) == null || old(scdbEntry) in repr then old(Cache()) else EMPTY_CACHE
    {
      hide Hash, ShapeOf, AllSpelled, View;
      First(i);
      var f := nethash[i];
      while f != null
        invariant Valid() && repr <= old(repr) && |chains| == HASH_SIZE
        invariant f == At(chains[i], 0) && chains == old(chains)[i := chains[i]]
        invariant Cache() == if old(scdbEntry) == null || old(scdbEntry) in repr then old(Cache()) else EMPTY_CACHE
        decreases |chains[i]|
      {
        Standing(i, 0);
        var g := f.next;
        Remove(f, i, 0);
        f := g;
      }
    }

    /** scdb_findEntry: only the IP address is looked at. */
    method FindEntry(ip: seq<byte>) returns (db: Entry?)
      requires Valid() && |ip| == 4
      ensures db != null <==> Ipv4Addr(ip) in View()
      ensures db != null ==> db in repr && db.addr == Ipv4Addr(ip)
    {
      hide Hash, ShapeOf, AllSpelled;
      Owned(chains, repr, owner);
      db := Find(Ipv4Addr(ip));
    }

    method KeepAlive(e: Entry, now: u64)
      requires Valid() && e in repr
      modifies e
      ensures Valid() && e.addr in old(View()) && View() == Touched(old(View()), e.addr, now)
    {
      hide Hash, ShapeOf, AllSpelled;
      Owned(chains, repr, owner);
      Write(e, Rec(e.mac, now, e.useCount));
    }

    /** Before an IP frame of the bridge goes out, its sender is looked for in the cache, then in
        the chains; the entry found is kept alive.  Whether the frame still needs translation. */
    method CacheSender(sender: Mac, ip: seq<byte>, now: u64) returns (translate: bool)
      requires Valid() && |ip| == 4
      modifies this`scdbEntry, this`scdbMac, this`scdbIp, repr
      ensures Valid()
      ensures translate == if old(scdbMac) == sender then old(scdbEntry) == null else Ipv4Addr(ip) !in old(View())
      ensures translate ==> scdbEntry == null && View() == old(View())
      ensures !translate ==> scdbMac == sender && scdbEntry != null
                             && scdbIp == (if old(scdbMac) == sender then old(scdbIp) else ip)
                             && |scdbIp| == 4 && Ipv4Addr(scdbIp) in old(View())
                             && View() == Touched(old(View()), Ipv4Addr(scdbIp), now)
    {
      hide Hash, ShapeOf, AllSpelled, Ipv4Addr, View, Linked;
      if scdbMac != sender {
        scdbEntry := FindEntry(ip);
        translate := scdbEntry == null;
        if !translate {
          scdbMac, scdbIp := sender, ip;
          KeepAlive(scdbEntry, now);
        }
      } else if scdbEntry != null {
        KeepAlive(scdbEntry, now);
        translate := false;
      } else {
        scdbMac, scdbIp := Zeros(MAC_LEN), Zeros(4);
        translate := true;
      }
    }

    /** The entry that a link leads to. */
    ghost function Deref(l: Link): Entry?
      reads this, nethash, if l.NextOf? then {l.e} else {}
    {
      match l
      case Nowhere => null
      case Bucket(i) => if i < nethash.Length then nethash[i] else null
      case NextOf(e) => e.next
    }

    /** What the driver remembers of the last sender. */
    ghost function Cache(): (Entry?, seq<byte>, seq<byte>)
      reads this
    {
      (scdbEntry, scdbMac, scdbIp)
    }
  }

  /** Every entry's back link designates the link that leads to it, and the entry its forward
      link leads to points back. */
  lemma LinksMeet(db: NatDb, e: Entry)
    requires db.Valid() && e in db.repr
    ensures db.Deref(e.pprev) == e
    ensures e.next != null ==> e.next in db.repr && e.next.pprev == NextOf(e)
  {
    hide Hash, ShapeOf, AllSpelled;
    var cs, h := db.chains, Hash(e.addr);
    var next, pprev := Nexts(db.repr), Pprevs(db.repr);
    HeadsOf(cs, db.nethash[..], next, pprev);
    InChain(cs, db.repr, db.owner, e.addr);
    Owned(cs, db.repr, db.owner);
    var j: nat :| j < |cs[h]| && cs[h][j] == e;
    Neighbours(cs, db.repr, db.owner, h, j);
    Step(cs, db.nethash[..], next, pprev, h, j);
    assert e.pprev == pprev[e] && e.next == next[e];
    assert db.nethash[..][h] == db.nethash[h];
    if j > 0 {
      Step(cs, db.nethash[..], next, pprev, h, j - 1);
      assert cs[h][j - 1].next == next[cs[h][j - 1]];
    }
    if j + 1 < |cs[h]| {
      Step(cs, db.nethash[..], next, pprev, h, j + 1);
      assert e.next.pprev == pprev[e.next];
    }
  }

  /** Every known address is in one place only, in the chain that it hashes to. */
  lemma EachAddressOnce(db: NatDb, a: Addr)
    requires db.Valid() && a in db.View()
    ensures |db.chains| == HASH_SIZE
    ensures exists j: nat :: j < |db.chains[Hash(a)]| && db.chains[Hash(a)][j].addr == a
              && forall k: nat, l: nat | k < HASH_SIZE && l < |db.chains[k]| && db.chains[k][l].addr == a ::
                   k == Hash(a) && l == j
  {
  }

  // ----- what the table says over time

  /** With true tick counts less than half the range apart, an entry is expired exactly when
      300 seconds have gone by, wherever the counter wraps. */
  lemma ExpiredExactly(since: nat, now: nat, hz: nat)
    requires -0x8000_0000_0000_0000 <= now - 300 * hz - since < 0x8000_0000_0000_0000
    ensures Expired(since % 0x1_0000_0000_0000_0000, now % 0x1_0000_0000_0000_0000, hz) <==> now - since >= 300 * hz
  {
    ReducedDifference(now, 300 * hz);
    ReducedDifference(now - 300 * hz, since);
  }

  lemma ReducedDifference(x: int, y: int)
    ensures (x % 0x1_0000_0000_0000_0000 - y) % 0x1_0000_0000_0000_0000 == (x - y) % 0x1_0000_0000_0000_0000
    ensures (x % 0x1_0000_0000_0000_0000 - y % 0x1_0000_0000_0000_0000) % 0x1_0000_0000_0000_0000
            == (x - y) % 0x1_0000_0000_0000_0000
  {
  }

  datatype Op =
    | InsertOp(mac: Mac, a: Addr, now: u64, memory: bool)
    | LookupOp(a: Addr, now: u64)
    | TouchOp(a: Addr, now: u64)
    | ExpireOp(now: u64)
    | CleanupOp

  /** What the methods of NatDb do to the table. */
  function Apply(t: Table, op: Op, hz: nat): Table {
    match op
    case InsertOp(mac, a, now, memory) => if a in t || memory then Inserted(t, mac, a, now) else t
    case LookupOp(a, now) => LookedUp(t, a, now, hz)
    case TouchOp(a, now) => if a in t then Touched(t, a, now) else t
    case ExpireOp(now) => AfterExpiry(t, now, hz)
    case CleanupOp => map[]
  }

  function Run(ops: seq<Op>, hz: nat): Table {
    if ops == [] then map[] else Apply(Run(ops[..|ops| - 1], hz), ops[|ops| - 1], hz)
  }

  /** The hardware address last inserted for a network address. */
  function LastMac(ops: seq<Op>, a: Addr): Option<Mac> {
    if ops == [] then None
    else
      var op := ops[|ops| - 1];
      if op.InsertOp? && op.a == a then Some(op.mac) else LastMac(ops[..|ops| - 1], a)
  }

  /** After any history, an address that the table knows has the hardware address of the last
      insertion for it, and at least one use left. */
  lemma {:induction false} LastInsertionWins(ops: seq<Op>, hz: nat, a: Addr)
    requires a in Run(ops, hz)
    ensures LastMac(ops, a) == Some(Run(ops, hz)[a].mac)
    ensures Run(ops, hz)[a].useCount >= 1
  {
    if ops != [] {
      var earlier := ops[..|ops| - 1];
      if a in Run(earlier, hz) {
        LastInsertionWins(earlier, hz, a);
      }
    }
  }

  function Passes(t: Table, times: seq<u64>, hz: nat): Table {
    if times == [] then t else Passes(AfterExpiry(t, times[0], hz), times[1..], hz)
  }

  /** An entry that stays stale survives as many expiry passes as it has uses, less one. */
  lemma {:induction false} GoneAfterItsUses(t: Table, times: seq<u64>, hz: nat, a: Addr)
    requires a in t && t[a].useCount >= 1
    requires forall k :: 0 <= k < |times| ==> Expired(t[a].ageing, times[k], hz)
    ensures a in Passes(t, times, hz) <==> |times| < t[a].useCount
  {
    hide Expired;
    if times != [] {
      var t' := AfterExpiry(t, times[0], hz);
      assert Expired(t[a].ageing, times[0], hz);
      if t[a].useCount > 1 {
        GoneAfterItsUses(t', times[1..], hz, a);
      } else {
        StaysGone(t', times[1..], hz, a);
      }
    }
  }

  lemma {:induction false} StaysGone(t: Table, times: seq<u64>, hz: nat, a: Addr)
    requires a !in t
    ensures a !in Passes(t, times, hz)
  {
    if times != [] {
      StaysGone(AfterExpiry(t, times[0], hz), times[1..], hz, a);
    }
  }

  /** An entry looked up once, stale since tick 300000: the first expiry pass leaves it, the
      second takes it. */
  lemma KeptByUseExample(a: Addr, mac: Mac)
    ensures var t: Table := map[a := Rec(mac, 0, 2)];
            a in Passes(t, [300000], 1000) && a !in Passes(t, [300000, 300001], 1000)
  {
    var t: Table := map[a := Rec(mac, 0, 2)];
    ExpiredExactly(0, 300000, 1000);
    ExpiredExactly(0, 300001, 1000);
    GoneAfterItsUses(t, [300000], 1000, a);
    GoneAfterItsUses(t, [300000, 300001], 1000, a);
  }

  // ----- what each operation does to an entry

  /** A pass leaves a live entry as it is, and takes a use from a stale one, its last with it. */
  lemma ExpiryExactly(t: Table, now: u64, hz: nat, a: Addr)
    ensures var r := AfterExpiry(t, now, hz);
            && (a in r ==> a in t)
            && (a in t && !Expired(t[a].ageing, now, hz) ==> a in r && r[a] == t[a])
            && (a in t && Expired(t[a].ageing, now, hz) ==>
                  (a in r <==> t[a].useCount > 1) && (a in r ==> r[a] == t[a].(useCount := t[a].useCount - 1)))
  {
  }

  /** An insertion sets the hardware address and the time, and the use count of a new entry only;
      a lookup counts a use of a live entry and nothing else; a touch sets the time.  Each leaves
      the other addresses alone. */
  lemma EntryExactly(t: Table, a: Addr, b: Addr, mac: Mac, now: u64, hz: nat)
    ensures var r := Inserted(t, mac, a, now);
            && a in r && r[a].mac == mac && r[a].ageing == now && r[a].useCount == (if a in t then t[a].useCount else 1)
            && (b != a ==> (b in r <==> b in t) && (b in t ==> r[b] == t[b]))
    ensures var r := LookedUp(t, a, now, hz);
            && r.Keys == t.Keys && (b in t && b != a ==> r[b] == t[b])
            && (a in t ==> r[a].mac == t[a].mac && r[a].ageing == t[a].ageing)
            && (a in t ==> r[a].useCount == t[a].useCount + if Expired(t[a].ageing, now, hz) then 0 else 1)
    ensures a in t ==>
              var r := Touched(t, a, now);
              && r.Keys == t.Keys && (b in t && b != a ==> r[b] == t[b])
              && r[a].mac == t[a].mac && r[a].ageing == now && r[a].useCount == t[a].useCount
  {
  }

  // ----- an entry that is seen often enough

  function RunOn(t: Table, ops: seq<Op>, hz: nat): Table {
    if ops == [] then t else Apply(RunOn(t, ops[..|ops| - 1], hz), ops[|ops| - 1], hz)
  }

  /** When an address that was last seen at `seen` was last inserted or touched, after some more
      operations. */
  function LastSeen(seen: u64, ops: seq<Op>, a: Addr): u64 {
    if ops == [] then seen
    else
      var op := ops[|ops| - 1];
      if (op.InsertOp? || op.TouchOp?) && op.a == a then op.now else LastSeen(seen, ops[..|ops| - 1], a)
  }

  /** The hardware address that an entry then has. */
  function MacAfter(mac: Mac, ops: seq<Op>, a: Addr): Mac {
    if LastMac(ops, a).Some? then LastMac(ops, a).value else mac
  }

  /** How often a live entry was looked up. */
  function Uses(seen: u64, ops: seq<Op>, a: Addr, hz: nat): nat {
    if ops == [] then 0
    else
      var op, before := ops[|ops| - 1], ops[..|ops| - 1];
      Uses(seen, before, a, hz) + if op.LookupOp? && op.a == a && !Expired(LastSeen(seen, before, a), op.now, hz) then 1 else 0
  }

  /** No cleanup, and no expiry pass that finds the entry stale. */
  predicate SeenOften(seen: u64, ops: seq<Op>, a: Addr, hz: nat) {
    forall k :: 0 <= k < |ops| ==>
      !ops[k].CleanupOp? && (ops[k].ExpireOp? ==> !Expired(LastSeen(seen, ops[..k], a), ops[k].now, hz))
  }

  /** An entry that every pass finds live stays, whatever else happens, with the hardware address
      last inserted, the time it was last seen, and one more use for each lookup that found it
      live. */
  lemma {:induction false} SeenOftenStays(t: Table, ops: seq<Op>, a: Addr, hz: nat)
    requires a in t && SeenOften(t[a].ageing, ops, a, hz)
    ensures var r := RunOn(t, ops, hz);
            && a in r
            && r[a] == Rec(MacAfter(t[a].mac, ops, a), LastSeen(t[a].ageing, ops, a),
                           t[a].useCount + Uses(t[a].ageing, ops, a, hz))
  {
    if ops != [] {
      var n := |ops| - 1;
      hide Expired;
      assert SeenOften(t[a].ageing, ops[..n], a, hz) by {
        forall k | 0 <= k < n ensures ops[..n][..k] == ops[..k] {}
      }
      SeenOftenStays(t, ops[..n], a, hz);
      var before := RunOn(t, ops[..n], hz);
      if ops[n].ExpireOp? {
        assert !Expired(LastSeen(t[a].ageing, ops[..n], a), ops[n].now, hz);
        ExpiryExactly(before, ops[n].now, hz, a);
      }
    }
  }

  /** In seconds: an address inserted at tick `since` is known after any lookups, insertions of
      others and expiry passes less than 300 seconds later. */
  lemma KnownFor300Seconds(t: Table, mac: Mac, a: Addr, since: u64, ops: seq<Op>, hz: nat)
    requires forall k :: 0 <= k < |ops| ==> ops[k].LookupOp? || ops[k].ExpireOp? || (ops[k].InsertOp? && ops[k].a != a)
    requires forall k :: 0 <= k < |ops| && ops[k].ExpireOp? ==>
               since <= ops[k].now < 0x8000_0000_0000_0000 && ops[k].now - since < 300 * hz < 0x8000_0000_0000_0000
    ensures var r := RunOn(Inserted(t, mac, a, since), ops, hz); a in r && r[a].mac == mac
  {
    hide Expired;
    var u := Inserted(t, mac, a, since);
    forall k | 0 <= k <= |ops|
      ensures LastSeen(since, ops[..k], a) == since && LastMac(ops[..k], a) == None
    {
      SeenOnce(since, ops[..k], a);
    }
    forall k | 0 <= k < |ops| && ops[k].ExpireOp?
      ensures !Expired(LastSeen(since, ops[..k], a), ops[k].now, hz)
    {
      ExpiredExactly(since, ops[k].now, hz);
    }
    assert ops[..|ops|] == ops;
    SeenOftenStays(u, ops, a, hz);
  }

  lemma {:induction false} SeenOnce(seen: u64, ops: seq<Op>, a: Addr)
    requires forall k :: 0 <= k < |ops| ==> ops[k].LookupOp? || ops[k].ExpireOp? || (ops[k].InsertOp? && ops[k].a != a)
    ensures LastSeen(seen, ops, a) == seen && LastMac(ops, a) == None
  {
    if ops != [] { SeenOnce(seen, ops[..|ops| - 1], a); }
  }

  // ----- which bytes of an address its chain depends on

  /** Whether byte j counts, by the protocol in the first byte. */
  predicate Counts(protocol: byte, j: nat) {
    if protocol == 1 then 7 <= j <= 10
    else if protocol == 2 then 1 <= j <= 16
    else if protocol == 3 then 1 <= j <= 10
    else if protocol == 4 then 1 <= j <= 3
    else if protocol == 5 then 1 <= j <= 8
    else 1 <= j <= 16
  }

  lemma BothLaws(x: byte, y: byte, z: byte)
    ensures Both(Both(x, y), z) == Both(Both(x, z), y)
    ensures Fold(Both(x, Both(y, z))) == Fold(x) <==> y & 0x0f == z & 0x0f
  {
    assert Both(x, Both(y, z)) & 0x0f == x & 0x0f <==> y & 0x0f == z & 0x0f;
    FoldInjective(Both(x, Both(y, z)), x);
  }

  lemma FoldInjective(x: byte, y: byte)
    ensures Fold(x) == Fold(y) <==> x & 0x0f == y & 0x0f
  {
    assert (x & 0x0f) as nat as byte == x & 0x0f && (y & 0x0f) as nat as byte == y & 0x0f;
  }

  /** Changing a byte adds its change. */
  lemma {:induction false} XorFlips(s: seq<byte>, j: nat, b: byte)
    requires j < |s|
    ensures XorOf(s[j := b]) == Both(XorOf(s), Both(s[j], b))
  {
    hide Both, Fold;
    var n := |s| - 1;
    if j < n {
      assert s[j := b][..n] == s[..n][j := b];
      XorFlips(s[..n], j, b);
      BothLaws(XorOf(s[..n]), Both(s[j], b), s[n]);
    } else {
      assert s[j := b][..n] == s[..n];
      Replaced(XorOf(s[..n]), s[n], b);
    }
  }

  lemma Replaced(x: byte, y: byte, z: byte)
    ensures Both(Both(x, y), Both(y, z)) == Both(x, z)
  {
  }

  /** An IPv4 address lies in bytes 7 to 10 behind its protocol; nothing else is set. */
  lemma Ipv4Exactly(ip: seq<byte>)
    requires |ip| == 4
    ensures var a := Ipv4Addr(ip); a[0] == 1 && a[7..11] == ip && forall j :: 1 <= j < 17 && !(7 <= j <= 10) ==> a[j] == 0
  {
  }

  /** Behind the first byte, changing a byte moves an address to another chain exactly if the
      byte counts and the change is in its low four bits. */
  lemma HashExactly(a: Addr, j: nat, b: byte)
    requires 1 <= j < 17
    ensures Hash(a[j := b]) == Hash(a) <==> !Counts(a[0], j) || a[j] & 0x0f == b & 0x0f
  {
    hide Both, Fold, XorOf;
    var (lo, hi) := Counted(a[0]);
    if lo <= j < hi {
      assert a[j := b][lo..hi] == a[lo..hi][j - lo := b];
      XorFlips(a[lo..hi], j - lo, b);
    } else {
      assert a[j := b][lo..hi] == a[lo..hi];
    }
    BothLaws(XorOf(a[lo..hi]), a[j], b);
  }
}
