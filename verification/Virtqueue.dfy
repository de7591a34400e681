/** The split virtqueue as a two-party protocol: what driver and device do to descriptors, free of
    memory layout and index arithmetic. */
module QueueProtocol {

  /** A buffer the driver hands to the device. */
  datatype Buf = Buf(addr: nat, len: nat, write: bool)

  /** An in-flight request: the descriptors it occupies and the buffers they describe, in order. */
  datatype Chain = Chain(descs: seq<nat>, bufs: seq<Buf>)

  /** A completion: head descriptor and number of bytes written. */
  datatype Used = Used(id: nat, len: nat)

  /** `free` lists the free descriptors from the head of the free list; every in-flight chain is
      published and unread (`avail`), being worked on (`taken`) or completed (`done`). */
  datatype Protocol = Protocol(num: nat, free: seq<nat>, chains: map<nat, Chain>, avail: seq<nat>, taken: set<nat>, done: seq<Used>)

  ghost predicate NoRepeats(s: seq<nat>) {
    forall a, b :: 0 <= a < b < |s| ==> s[a] != s[b]
  }

  function Ids(done: seq<Used>): (ids: seq<nat>)
    ensures |ids| == |done| && forall k :: 0 <= k < |done| ==> ids[k] == done[k].id
  {
    seq(|done|, k requires 0 <= k < |done| => done[k].id)
  }

  ghost predicate FreeOk(p: Protocol) {
    NoRepeats(p.free) && forall i :: i in p.free ==> i < p.num
  }

  /** Chains start at their head and no two of them, nor the free list, share a descriptor. */
  ghost predicate ChainsOk(p: Protocol) {
    && (forall h :: h in p.chains ==>
          |p.chains[h].descs| == |p.chains[h].bufs| > 0 && p.chains[h].descs[0] == h)
    && (forall h :: h in p.chains ==> forall k :: 0 <= k < |p.chains[h].descs| ==>
          p.chains[h].descs[k] < p.num && p.chains[h].descs[k] !in p.free)
    && (forall h, h', i :: h in p.chains && h' in p.chains && i in p.chains[h].descs && i in p.chains[h'].descs ==> h == h')
    && (forall h :: h in p.chains ==> NoRepeats(p.chains[h].descs))
  }

  ghost predicate InFlight(p: Protocol, i: nat) {
    exists h :: h in p.chains && i in p.chains[h].descs
  }

  ghost predicate Covered(p: Protocol) {
    forall i: nat :: i < p.num ==> i in p.free || InFlight(p, i)
  }

  /** Every chain is in exactly one of the three stages. */
  ghost predicate StagesOk(p: Protocol) {
    && NoRepeats(p.avail) && NoRepeats(Ids(p.done))
    && (forall h :: h in p.chains <==> h in p.avail || h in p.taken || h in Ids(p.done))
    && (forall h :: h in p.avail ==> h !in p.taken && h !in Ids(p.done))
    && (forall h :: h in p.taken ==> h !in Ids(p.done))
  }

  /** Descriptors are partitioned into the free list and disjoint in-flight chains. */
  ghost predicate Inv(p: Protocol) {
    FreeOk(p) && ChainsOk(p) && Covered(p) && StagesOk(p)
  }

  // ----- steps -----------------------------------------------------------------------------

  function Reverse(s: seq<nat>): (r: seq<nat>)
    ensures |r| == |s| && forall k :: 0 <= k < |s| ==> r[k] == s[|s| - 1 - k]
  {
    seq(|s|, k requires 0 <= k < |s| => s[|s| - 1 - k])
  }

  datatype Move = Post(bufs: seq<Buf>) | Consume | Complete(head: nat, written: nat) | Collect

  ghost predicate Enabled(p: Protocol, e: Move) {
    match e
    case Post(bufs) => 1 <= |bufs| <= |p.free|
    case Consume => p.avail != []
    case Complete(h, _) => h in p.taken
    case Collect => p.done != [] && p.done[0].id in p.chains
  }

  /** Driver moves are Post and Collect; device moves are Consume and Complete, in any order. */
  ghost function Next(p: Protocol, e: Move): Protocol
    requires Enabled(p, e)
  {
    match e
    case Post(bufs) =>
      var n := |bufs|;
      p.(free := p.free[n..], chains := p.chains[p.free[0] := Chain(p.free[..n], bufs)], avail := p.avail + [p.free[0]])
    case Consume => p.(avail := p.avail[1..], taken := p.taken + {p.avail[0]})
    case Complete(h, written) => p.(taken := p.taken - {h}, done := p.done + [Used(h, written)])
    case Collect =>
      var h := p.done[0].id;
      p.(free := Reverse(p.chains[h].descs) + p.free, chains := p.chains - {h}, done := p.done[1..])
  }

  lemma JoinNoRepeats(s: seq<nat>, t: seq<nat>)
    requires NoRepeats(s) && NoRepeats(t) && forall i :: i in s ==> i !in t
    ensures NoRepeats(s + t)
  {
    forall a, b | 0 <= a < b < |s + t| ensures (s + t)[a] != (s + t)[b] {
      if a < |s| <= b {
        assert s[a] in s && t[b - |s|] in t;
      }
    }
  }

  lemma SplitNoRepeats(s: seq<nat>, n: nat)
    requires NoRepeats(s) && n <= |s|
    ensures NoRepeats(s[..n]) && NoRepeats(s[n..]) && forall i :: i in s[..n] ==> i !in s[n..]
  {
  }

  lemma ReverseNoRepeats(s: seq<nat>)
    requires NoRepeats(s)
    ensures NoRepeats(Reverse(s))
  {
    var r := Reverse(s);
    forall a, b | 0 <= a < b < |r| ensures r[a] != r[b] {
      assert r[a] == s[|s| - 1 - a] && r[b] == s[|s| - 1 - b];
    }
  }

  lemma PostKeepsChains(p: Protocol, bufs: seq<Buf>)
    requires Inv(p) && Enabled(p, Post(bufs))
    ensures FreeOk(Next(p, Post(bufs))) && ChainsOk(Next(p, Post(bufs)))
  {
    hide Covered, StagesOk;
    var n := |bufs|;
    SplitNoRepeats(p.free, n);
    forall i | i in p.free[..n] || i in p.free[n..] ensures i in p.free {
    }
    assert forall k :: 0 <= k < n ==> p.free[..n][k] in p.free[..n] && p.free[..n][k] in p.free;
  }

  lemma PostCovers(p: Protocol, bufs: seq<Buf>)
    requires Inv(p) && Enabled(p, Post(bufs))
    ensures p.free[0] !in p.chains && Covered(Next(p, Post(bufs)))
  {
    var n, h := |bufs|, p.free[0];
    var p' := Next(p, Post(bufs));
    assert h in p.free;
    forall i: nat | i < p.num ensures i in p'.free || InFlight(p', i) {
      if i in p.free {
        assert p.free == p.free[..n] + p.free[n..];
        assert i in p'.chains[h].descs || i in p'.free;
      } else {
        assert InFlight(p, i);
        var g :| g in p.chains && i in p.chains[g].descs;
        assert g in p'.chains && i in p'.chains[g].descs;
      }
    }
  }

  lemma PostKeeps(p: Protocol, bufs: seq<Buf>)
    requires Inv(p) && Enabled(p, Post(bufs))
    ensures Inv(Next(p, Post(bufs)))
  {
    hide ChainsOk, Covered, FreeOk;
    PostKeepsChains(p, bufs);
    PostCovers(p, bufs);
  }

  /** Only stages changed. */
  lemma SameChains(p: Protocol, p': Protocol)
    requires FreeOk(p) && ChainsOk(p) && Covered(p) && p'.num == p.num && p'.free == p.free && p'.chains == p.chains
    ensures FreeOk(p') && ChainsOk(p') && Covered(p')
  {
    assert forall i: nat :: InFlight(p, i) ==> InFlight(p', i);
  }

  lemma CompleteKeeps(p: Protocol, h: nat, written: nat)
    requires Inv(p) && Enabled(p, Complete(h, written))
    ensures Inv(Next(p, Complete(h, written)))
  {
    var p' := Next(p, Complete(h, written));
    assert Ids(p'.done) == Ids(p.done) + [h];
    JoinNoRepeats(Ids(p.done), [h]);
    assert StagesOk(p');
    SameChains(p, p');
  }

  lemma ConsumeKeeps(p: Protocol)
    requires Inv(p) && Enabled(p, Consume)
    ensures Inv(Next(p, Consume))
  {
    var p' := Next(p, Consume);
    assert p.avail == [p.avail[0]] + p'.avail;
    FirstIsFirst(p.avail[0], p'.avail);
    assert StagesOk(p');
    SameChains(p, p');
  }

  lemma CollectKeeps(p: Protocol)
    requires Inv(p) && Enabled(p, Collect)
    ensures Inv(Next(p, Collect))
  {
    hide ChainsOk, Covered, FreeOk, StagesOk;
    CollectKeepsFree(p);
    CollectKeepsChains(p);
    CollectCovers(p);
    CollectKeepsStages(p);
  }

  lemma ReverseMembers(c: seq<nat>)
    ensures forall i :: i in Reverse(c) <==> i in c
  {
    forall i | i in c ensures i in Reverse(c) {
      var k :| 0 <= k < |c| && c[k] == i;
      assert Reverse(c)[|c| - 1 - k] == i;
    }
  }

  lemma CollectKeepsFree(p: Protocol)
    requires FreeOk(p) && ChainsOk(p) && Enabled(p, Collect)
    ensures FreeOk(Next(p, Collect))
  {
    var c := p.chains[p.done[0].id].descs;
    ReverseMembers(c);
    ReverseNoRepeats(c);
    JoinNoRepeats(Reverse(c), p.free);
  }

  lemma CollectKeepsChains(p: Protocol)
    requires ChainsOk(p) && Enabled(p, Collect)
    ensures ChainsOk(Next(p, Collect))
  {
    var id := p.done[0].id;
    var c := p.chains[id].descs;
    ReverseMembers(c);
    forall h, k: nat | h in p.chains && h != id && k < |p.chains[h].descs| ensures p.chains[h].descs[k] !in Reverse(c) + p.free {
      assert p.chains[h].descs[k] in p.chains[h].descs;
    }
  }

  lemma CollectCovers(p: Protocol)
    requires Covered(p) && Enabled(p, Collect)
    ensures Covered(Next(p, Collect))
  {
    var p', c := Next(p, Collect), p.chains[p.done[0].id].descs;
    ReverseMembers(c);
    forall i: nat | i < p.num ensures i in p'.free || InFlight(p', i) {
      if i !in p.free && i !in c {
        assert InFlight(p, i);
        var g :| g in p.chains && i in p.chains[g].descs;
        assert g in p'.chains && i in p'.chains[g].descs;
      }
    }
  }

  lemma CollectKeepsStages(p: Protocol)
    requires StagesOk(p) && Enabled(p, Collect)
    ensures StagesOk(Next(p, Collect))
  {
    var h, rest := p.done[0].id, Ids(p.done[1..]);
    assert Ids(p.done) == [h] + rest;
    FirstIsFirst(h, rest);
  }

  lemma FirstIsFirst(h: nat, rest: seq<nat>)
    requires NoRepeats([h] + rest)
    ensures NoRepeats(rest) && h !in rest && forall i :: i in [h] + rest <==> i == h || i in rest
  {
    forall a, b | 0 <= a < b < |rest| ensures rest[a] != rest[b] {
      assert ([h] + rest)[a + 1] == rest[a] && ([h] + rest)[b + 1] == rest[b];
    }
    forall a | 0 <= a < |rest| ensures rest[a] != h {
      assert ([h] + rest)[a + 1] == rest[a] && ([h] + rest)[0] == h;
    }
  }

  lemma NextKeeps(p: Protocol, e: Move)
    requires Inv(p) && Enabled(p, e)
    ensures Inv(Next(p, e))
  {
    match e
    case Post(bufs) => PostKeeps(p, bufs);
    case Consume => ConsumeKeeps(p);
    case Complete(h, written) => CompleteKeeps(p, h, written);
    case Collect => CollectKeeps(p);
  }

  // ----- runs ------------------------------------------------------------------------------

  ghost predicate AllEnabled(p: Protocol, es: seq<Move>)
    decreases |es|
  {
    es == [] || (Enabled(p, es[0]) && AllEnabled(Next(p, es[0]), es[1..]))
  }

  ghost function Run(p: Protocol, es: seq<Move>): Protocol
    requires AllEnabled(p, es)
    decreases |es|
  {
    if es == [] then p else Run(Next(p, es[0]), es[1..])
  }

  /** The queue as initialised: descriptor i is followed by i + 1 on the free list. */
  ghost function Initial(num: nat): Protocol {
    Protocol(num, seq(num, (k: nat) => k), map[], [], {}, [])
  }

  lemma InitialInv(num: nat)
    ensures Inv(Initial(num))
  {
    var p := Initial(num);
    forall i: nat | i < num ensures i in p.free {
      assert p.free[i] == i;
    }
  }

  lemma {:induction false} SetOf(s: seq<nat>) returns (elems: set<nat>)
    requires NoRepeats(s)
    ensures |elems| == |s| && forall i :: i in elems <==> i in s
  {
    elems := {};
    if s != [] {
      var last := |s| - 1;
      elems := SetOf(s[..last]);
      assert s[last] !in s[..last];
      elems := elems + {s[last]};
      assert forall i :: i in s <==> i in s[..last] || i == s[last];
    }
  }

  lemma {:induction false} BelowCount(elems: set<nat>, n: nat)
    requires forall i :: i in elems ==> i < n
    ensures |elems| <= n
    decreases n
  {
    if n == 0 {
      assert elems == {};
    } else {
      BelowCount(elems - {n - 1}, n - 1);
      assert n - 1 in elems ==> |elems| == |elems - {n - 1}| + 1;
      assert n - 1 !in elems ==> elems - {n - 1} == elems;
    }
  }

  lemma DisjointCount(a: set<nat>, b: set<nat>, c: set<nat>)
    requires forall i :: i in a ==> i !in b && i !in c
    requires forall i :: i in b ==> i !in c
    ensures |a + b + c| == |a| + |b| + |c|
  {
    assert a !! b && (a + b) !! c;
  }

  lemma HeadsBelow(p: Protocol)
    requires ChainsOk(p)
    ensures |p.chains.Keys| <= p.num
  {
    forall h | h in p.chains.Keys ensures h < p.num {
      assert p.chains[h].descs[0] in p.chains[h].descs;
    }
    BelowCount(p.chains.Keys, p.num);
  }

  /** Unread, taken and completed requests together never exceed the queue size. */
  lemma NoOverrun(p: Protocol)
    requires Inv(p)
    ensures |p.avail| + |p.taken| + |p.done| == |p.chains| <= p.num
  {
    hide ChainsOk, Covered, FreeOk, NoRepeats;
    var a := SetOf(p.avail);
    var d := SetOf(Ids(p.done));
    assert p.chains.Keys == a + p.taken + d;
    DisjointCount(a, p.taken, d);
    HeadsBelow(p);
  }

  /** For every interleaving of driver and device, the descriptors stay partitioned, neither ring
      is overrun, and whatever is completed is a whole in-flight chain. */
  lemma {:induction false} EveryRunKeeps(p: Protocol, es: seq<Move>)
    requires Inv(p) && AllEnabled(p, es)
    ensures Inv(Run(p, es)) && Run(p, es).num == p.num
    ensures |Run(p, es).avail| <= p.num && |Run(p, es).done| <= p.num
    ensures forall u :: u in Run(p, es).done ==> u.id in Run(p, es).chains
    decreases |es|
  {
    if es == [] {
      NoOverrun(p);
      forall u | u in p.done ensures u.id in p.chains {
        var k :| 0 <= k < |p.done| && p.done[k] == u;
        assert Ids(p.done)[k] in Ids(p.done);
      }
    } else {
      NextKeeps(p, es[0]);
      EveryRunKeeps(Next(p, es[0]), es[1..]);
    }
  }
}

/** The virtqueue in memory: descriptor table, two rings with 16-bit running indices, and the
    driver's bookkeeping, with the device's moves beside the driver's. */
module Virtqueues {
  import opened Powers
  import opened QueueProtocol

  const MAX_SIZE: nat := 128
  const WRAP: nat := 0x1_0000

  /** A descriptor; `hasNext` and `write` are flag bits 0 and 1. */
  datatype Desc = Desc(addr: nat, len: nat, hasNext: bool, write: bool, next: nat)

  /** Queue sizes are powers of two up to 128. */
  predicate QueueSize(n: nat) { n in {1, 2, 4, 8, 16, 32, 64, 128} }

  /** Ring slot of running index `x`. */
  function Slot(x: nat, n: nat): (s: nat)
    requires n > 0
    ensures s < n
  {
    x % n
  }

  lemma {:induction false} AtLeastOnce(n: nat, a: int, b: int)
    requires n > 0 && a < b
    ensures n * b >= n * a + n
    decreases b - a
  {
    assert n * b == n * (b - 1) + n;
    if a < b - 1 {
      AtLeastOnce(n, a, b - 1);
    }
  }

  lemma UniqueQuotient(n: nat, q: int, r: nat, q': int, r': nat)
    requires n > 0 && r < n && r' < n && n * q + r == n * q' + r'
    ensures q == q' && r == r'
  {
    if q < q' {
      AtLeastOnce(n, q, q');
    } else if q' < q {
      AtLeastOnce(n, q', q);
    }
  }

  lemma Euclid(y: int, n: nat, q: int, r: nat)
    requires n > 0 && r < n && y == n * q + r
    ensures y % n == r && y / n == q
  {
    UniqueQuotient(n, q, r, y / n, y % n);
  }

  lemma SlotSkips(n: nat, q: int, r: int)
    requires n > 0
    ensures (n * q + r) % n == r % n
  {
    assert n * q + r == n * (q + r / n) + r % n by {
      assert r == n * (r / n) + r % n;
      assert n * (q + r / n) == n * q + n * (r / n);
    }
    Euclid(n * q + r, n, q + r / n, r % n);
  }

  lemma SizeDividesWrap(n: nat) returns (m: nat)
    requires QueueSize(n)
    ensures n * m == WRAP
  {
    m := WRAP / n;
  }

  /** Wrapping an index at 2^16 does not move its slot. */
  lemma WrapKeepsSlot(x: nat, k: nat, n: nat)
    requires QueueSize(n)
    ensures Slot(x % WRAP + k, n) == Slot(x + k, n)
  {
    var m := SizeDividesWrap(n);
    var q := x / WRAP;
    assert x + k == n * (m * q) + (x % WRAP + k) by {
      assert x == WRAP * q + x % WRAP;
      assert n * m * q == n * (m * q);
    }
    SlotSkips(n, m * q, x % WRAP + k);
  }

  predicate PowerOfPow2(n: nat) { n == 1 || (n > 1 && n % 2 == 0 && PowerOfPow2(n / 2)) }

  lemma OddTimesOdd(a: nat, b: nat)
    requires a % 2 == 1 && b % 2 == 1
    ensures a * b % 2 == 1
  {
    var i, j := a / 2, b / 2;
    assert a * b == 2 * (2 * i * j + i + j) + 1;
  }

  lemma {:induction false} DivisorIsPower(n: nat, q: nat, k: nat)
    requires n * q == Pow2(k)
    ensures PowerOfPow2(n)
    decreases k
  {
    if k == 0 {
      assert n < 2 || q == 0 || n * q >= 2;
    } else if n % 2 == 0 {
      assert 2 * (n / 2 * q) == n * q;
      DivisorIsPower(n / 2, q, k - 1);
    } else if q % 2 == 0 {
      assert 2 * (n * (q / 2)) == n * q;
      DivisorIsPower(n, q / 2, k - 1);
    } else {
      OddTimesOdd(n, q);
    }
  }

  lemma {:induction false} SmallPowers(n: nat)
    requires PowerOfPow2(n) && n <= MAX_SIZE
    ensures QueueSize(n)
  {
    if n > 1 {
      SmallPowers(n / 2);
    }
  }

  lemma WrapIsPower()
    ensures WRAP == Pow2(16)
  {
    assert Pow2(4) == 16 && Pow2(8) == 256 && Pow2(12) == 4096;
  }

  /** The slot survives the wrap of the index at every index exactly for the sizes above. */
  lemma WrapIsSeamlessIff(n: nat)
    requires 0 < n <= MAX_SIZE
    ensures (forall x: nat :: Slot(x % WRAP, n) == Slot(x, n)) <==> QueueSize(n)
  {
    if QueueSize(n) {
      forall x: nat ensures Slot(x % WRAP, n) == Slot(x, n) {
        WrapKeepsSlot(x, 0, n);
      }
    } else if Slot(WRAP % WRAP, n) == Slot(WRAP, n) {
      var q := WRAP / n;
      assert WRAP == n * q + WRAP % n;
      WrapIsPower();
      DivisorIsPower(n, q, 16);
      SmallPowers(n);
    }
  }

  /** Fewer than a whole ring apart, indices have different slots. */
  lemma SlotsDiffer(x: nat, a: nat, b: nat, n: nat)
    requires n > 0 && a < b < a + n
    ensures Slot(x + a, n) != Slot(x + b, n)
  {
    var q, r := (x + a) / n, (x + a) % n;
    assert x + a == n * q + r;
    if r + (b - a) < n {
      Euclid(x + b, n, q, r + (b - a));
    } else {
      assert n * (q + 1) == n * q + n;
      Euclid(x + b, n, q + 1, r + (b - a) - n);
    }
  }

  /** The free list runs through the descriptors' `next` fields. */
  ghost predicate FreeLinked(desc: seq<Desc>, free: seq<nat>) {
    && (forall k :: 0 <= k < |free| ==> free[k] < |desc|)
    && (forall k :: 0 <= k < |free| - 1 ==> desc[free[k]].next == free[k + 1])
  }

  /** Descriptor `i` describes buffer `b`. */
  ghost predicate Describes(d: Desc, b: Buf) { d.addr == b.addr && d.len == b.len && d.write == b.write }

  /** The chain runs through `next` fields guarded by the next flag, and describes its buffers. */
  ghost predicate ChainLinked(desc: seq<Desc>, c: Chain) {
    && |c.descs| == |c.bufs| > 0
    && (forall k :: 0 <= k < |c.descs| ==> c.descs[k] < |desc| && Describes(desc[c.descs[k]], c.bufs[k]))
    && (forall k :: 0 <= k < |c.descs| ==> desc[c.descs[k]].hasNext == (k < |c.descs| - 1))
    && (forall k :: 0 <= k < |c.descs| - 1 ==> desc[c.descs[k]].next == c.descs[k + 1])
  }

  ghost predicate AllLinked(desc: seq<Desc>, chains: map<nat, Chain>) {
    forall h :: h in chains ==> ChainLinked(desc, chains[h])
  }

  /** From running index `from` on, the ring holds `items`. */
  ghost predicate RingHolds<T>(ring: seq<T>, from: nat, items: seq<T>)
    requires |ring| > 0
  {
    forall k :: 0 <= k < |items| ==> ring[Slot(from + k, |ring|)] == items[k]
  }

  /** Publishing one more item overwrites no live slot. */
  lemma RingPush<T>(ring: seq<T>, from: nat, items: seq<T>, x: T)
    requires QueueSize(|ring|) && |items| < |ring| && RingHolds(ring, from, items)
    ensures RingHolds(ring[Slot((from + |items|) % WRAP, |ring|) := x], from, items + [x])
  {
    var n := |ring|;
    WrapKeepsSlot(from + |items|, 0, n);
    var ring' := ring[Slot(from + |items|, n) := x];
    forall k | 0 <= k < |items| ensures ring'[Slot(from + k, n)] == items[k] {
      SlotsDiffer(from, k, |items|, n);
    }
  }

  /** Taking the first item moves the running index on, across the wrap at 2^16. */
  lemma RingPop<T>(ring: seq<T>, from: nat, items: seq<T>)
    requires QueueSize(|ring|) && |items| > 0 && RingHolds(ring, from, items)
    ensures RingHolds(ring, (from + 1) % WRAP, items[1..])
  {
    forall k | 0 <= k < |items| - 1
      ensures ring[Slot((from + 1) % WRAP + k, |ring|)] == items[1..][k]
    {
      WrapKeepsSlot(from + 1, k, |ring|);
    }
  }

  /** What the driver writes for buffer `k` of a chain over descriptors `free[..n]`. */
  ghost function Filled(bufs: seq<Buf>, free: seq<nat>, k: nat): Desc
    requires k < |bufs| <= |free|
  {
    Desc(bufs[k].addr, bufs[k].len, k < |bufs| - 1, bufs[k].write, if k < |bufs| - 1 then free[k + 1] else 0)
  }

  /** The first `n` free descriptors filled in, all others untouched. */
  ghost predicate FilledUpTo(d0: seq<Desc>, desc: seq<Desc>, bufs: seq<Buf>, free: seq<nat>, n: nat)
    requires n <= |bufs| <= |free| && |desc| == |d0| && forall k :: 0 <= k < |free| ==> free[k] < |desc|
  {
    && (forall k :: 0 <= k < n ==> desc[free[k]] == Filled(bufs, free, k))
    && (forall x :: 0 <= x < |desc| && x !in free[..n] ==> desc[x] == d0[x])
  }

  lemma FillStep(d0: seq<Desc>, desc: seq<Desc>, bufs: seq<Buf>, free: seq<nat>, n: nat)
    requires n < |bufs| <= |free| && |desc| == |d0| && NoRepeats(free) && forall k :: 0 <= k < |free| ==> free[k] < |desc|
    requires FilledUpTo(d0, desc, bufs, free, n)
    ensures FilledUpTo(d0, desc[free[n] := Filled(bufs, free, n)], bufs, free, n + 1)
  {
    assert free[..n + 1] == free[..n] + [free[n]];
  }

  /** A chain whose descriptors are as they were is still linked. */
  lemma SameChain(d0: seq<Desc>, desc: seq<Desc>, c: Chain)
    requires ChainLinked(d0, c) && |desc| == |d0| && forall k :: 0 <= k < |c.descs| ==> desc[c.descs[k]] == d0[c.descs[k]]
    ensures ChainLinked(desc, c)
  {
  }

  lemma FillLinksFree(d0: seq<Desc>, desc: seq<Desc>, free: seq<nat>, bufs: seq<Buf>)
    requires NoRepeats(free) && 1 <= |bufs| <= |free| && |desc| == |d0| && FreeLinked(d0, free)
    requires FilledUpTo(d0, desc, bufs, free, |bufs|)
    ensures FreeLinked(desc, free[|bufs|..]) && ChainLinked(desc, Chain(free[..|bufs|], bufs))
  {
    var n := |bufs|;
    SplitNoRepeats(free, n);
    forall k | n <= k < |free| ensures desc[free[k]] == d0[free[k]] {
      assert free[k] == free[n..][k - n];
    }
    forall k | 0 <= k < |free| - n - 1 ensures desc[free[n..][k]].next == free[n..][k + 1] {
      assert desc[free[n + k]] == d0[free[n + k]];
    }
  }

  /** After filling, the new chain and the rest of the free list are linked, and no other chain moved. */
  lemma FillLinks(d0: seq<Desc>, desc: seq<Desc>, p: Protocol, bufs: seq<Buf>)
    requires Inv(p) && 1 <= |bufs| <= |p.free| && |desc| == |d0| == p.num && FreeLinked(d0, p.free) && AllLinked(d0, p.chains)
    requires FilledUpTo(d0, desc, bufs, p.free, |bufs|)
    ensures FreeLinked(desc, p.free[|bufs|..]) && AllLinked(desc, Next(p, Post(bufs)).chains)
  {
    hide Covered, StagesOk, ChainLinked, FreeLinked;
    FillLinksFree(d0, desc, p.free, bufs);
    forall h | h in p.chains ensures ChainLinked(desc, p.chains[h]) {
      var c := p.chains[h];
      forall k | 0 <= k < |c.descs| ensures desc[c.descs[k]] == d0[c.descs[k]] {
        assert c.descs[k] !in p.free[..|bufs|];
      }
      SameChain(d0, desc, c);
    }
  }

  /** While a descriptor is free, the available ring has a free slot. */
  lemma RoomToPost(p: Protocol, bufs: seq<Buf>)
    requires Inv(p) && Enabled(p, Post(bufs))
    ensures |p.avail| < p.num
  {
    hide ChainsOk, Covered, FreeOk, StagesOk;
    PostKeeps(p, bufs);
    NoOverrun(Next(p, Post(bufs)));
  }

  class Virtqueue {
    const num: nat
    const desc: array<Desc>
    const availRing: array<nat>
    const usedRing: array<Used>
    var availIdx: nat
    var usedIdx: nat
    var lastUsed: nat
    var freeHead: nat
    var numFree: nat
    var deviceIdx: nat
    ghost var proto: Protocol

    ghost predicate Sizes()
      reads this
    {
      && 0 < num <= MAX_SIZE && desc.Length == availRing.Length == usedRing.Length == num == proto.num
      && desc as object != availRing && desc as object != usedRing && availRing as object != usedRing
      && availIdx < WRAP && usedIdx < WRAP && lastUsed < WRAP && deviceIdx < WRAP
    }

    /** The descriptor table and the free list are those of `p`. */
    ghost predicate Describe(p: Protocol)
      reads this, desc
    {
      && numFree == |p.free| && (numFree > 0 ==> freeHead == p.free[0])
      && FreeLinked(desc[..], p.free) && AllLinked(desc[..], p.chains)
    }

    /** Memory and bookkeeping say what the protocol state says. */
    ghost predicate Laid()
      reads this, desc, availRing, usedRing
    {
      && Sizes() && Inv(proto) && Describe(proto)
      && availIdx == (deviceIdx + |proto.avail|) % WRAP && RingHolds(availRing[..], deviceIdx, proto.avail)
      && usedIdx == (lastUsed + |proto.done|) % WRAP && RingHolds(usedRing[..], lastUsed, proto.done)
    }

    /** And the indices may wrap around. */
    ghost predicate Valid()
      reads this, desc, availRing, usedRing
    {
      QueueSize(num) && Laid()
    }

    /** `virtqueue_init`: sizes the device offers outside 1..128 become 128. */
    constructor (offered: nat)
      ensures Laid() && (Valid() <==> QueueSize(num)) && fresh(desc) && fresh(availRing) && fresh(usedRing)
      ensures proto == Initial(if offered == 0 || offered > MAX_SIZE then MAX_SIZE else offered)
    {
      var size := if offered == 0 || offered > MAX_SIZE then MAX_SIZE else offered;
      num := size;
      desc := new Desc[size](_ => Desc(0, 0, false, false, 0));
      availRing := new nat[size](_ => 0);
      usedRing := new Used[size](_ => Used(0, 0));
      availIdx, usedIdx, lastUsed, deviceIdx := 0, 0, 0, 0;
      freeHead, numFree := 0, size;
      proto := Initial(size);
      new;
      hide Inv, FreeLinked, AllLinked, RingHolds, Initial, QueueSize;
      InitialFacts(num);
      LinkAll();
      InitialInv(num);
      InitialLinks(desc[..]);
      EmptyRing(availRing[..], 0);
      EmptyRing(usedRing[..], 0);
    }

    /** The loop of `virtqueue_init` that chains all descriptors. */
    method LinkAll()
      requires Sizes()
      modifies desc
      ensures forall k :: 0 <= k < num - 1 ==> desc[k].next == k + 1
    {
      for i := 0 to num - 1
        invariant forall k :: 0 <= k < i ==> desc[k].next == k + 1
      {
        desc[i] := desc[i].(next := i + 1);
      }
      desc[num - 1] := desc[num - 1].(next := 0);
    }

    /** `virtqueue_add_chain`: -1 without enough free descriptors, else the head of the new chain.
        An empty chain publishes the head of the free list without taking anything off it. */
    method AddChain(bufs: seq<Buf>) returns (head: int)
      requires Valid()
      modifies this, desc, availRing
      ensures |bufs| > 0 ==> Valid()
      ensures |old(proto.free)| < |bufs| ==> head == -1 && proto == old(proto)
      ensures 0 < |bufs| <= |old(proto.free)| ==> head == old(proto.free)[0] && proto == Next(old(proto), Post(bufs))
      ensures bufs == [] ==> head == old(freeHead) && availRing[Slot(old(availIdx), num)] == head && availIdx == (old(availIdx) + 1) % WRAP
      ensures bufs == [] ==> proto == old(proto) && Describe(proto) && !Valid()
    {
      hide FreeLinked, AllLinked, Inv, RingHolds, FilledUpTo, QueueSize, Slot;
      if numFree < |bufs| {
        return -1;
      }
      FreeInTable(desc[..], proto.free);
      head := freeHead;
      if |bufs| == 0 {
        var idx := availIdx;
        availRing[Slot(idx, num)] := freeHead;
        availIdx := (idx + 1) % WRAP;
        return;
      }
      ghost var p := proto;
      FillChain(bufs);
      FillLinks(old(desc[..]), desc[..], p, bufs);
      numFree := numFree - |bufs|;
      Publish(head, bufs);
    }

    /** Entering a filled chain in the available ring. */
    method Publish(head: nat, ghost bufs: seq<Buf>)
      requires QueueSize(num) && Sizes() && Inv(proto) && Enabled(proto, Post(bufs)) && head == proto.free[0] && Describe(Next(proto, Post(bufs)))
      requires availIdx == (deviceIdx + |proto.avail|) % WRAP && RingHolds(availRing[..], deviceIdx, proto.avail)
      requires usedIdx == (lastUsed + |proto.done|) % WRAP && RingHolds(usedRing[..], lastUsed, proto.done)
      modifies this`availIdx, this`proto, availRing
      ensures Valid() && proto == Next(old(proto), Post(bufs))
    {
      hide FreeLinked, AllLinked, Inv, RingHolds, QueueSize, Slot;
      RoomToPost(proto, bufs);
      RingPush(availRing[..], deviceIdx, proto.avail, head);
      var idx := availIdx;
      IndexGrows(deviceIdx, |proto.avail|);
      availRing[Slot(idx, num)] := head;
      availIdx := (idx + 1) % WRAP;
      PostKeeps(proto, bufs);
      proto := Next(proto, Post(bufs));
    }

    /** The descriptor loop of `virtqueue_add_chain`. */
    method FillChain(bufs: seq<Buf>)
      requires Sizes() && Inv(proto) && 1 <= |bufs| <= |proto.free| && freeHead == proto.free[0] && FreeLinked(desc[..], proto.free)
      modifies this`freeHead, desc
      ensures FilledUpTo(old(desc[..]), desc[..], bufs, proto.free, |bufs|)
      ensures |bufs| < |proto.free| ==> freeHead == proto.free[|bufs|]
    {
      ghost var d0 := desc[..];
      ghost var free := proto.free;
      var count := |bufs|;
      var curr := freeHead;
      var i := 0;
      while i < count
        invariant 0 <= i <= count
        invariant i < count ==> curr == free[i]
        invariant FilledUpTo(d0, desc[..], bufs, free, i)
        invariant i == count && count < |free| ==> freeHead == free[count]
      {
        assert curr !in free[..i];
        var nextDesc := desc[curr].next;
        FillStep(d0, desc[..], bufs, free, i);
        if i < count - 1 {
          desc[curr] := Desc(bufs[i].addr, bufs[i].len, true, bufs[i].write, nextDesc);
        } else {
          desc[curr] := Desc(bufs[i].addr, bufs[i].len, false, bufs[i].write, 0);
          freeHead := nextDesc;
        }
        curr := nextDesc;
        i := i + 1;
      }
    }
  
    /** `virtqueue_add_buf`: the same as a chain of one buffer. */
    method AddBuf(b: Buf) returns (head: int)
      requires Valid()
      modifies this, desc, availRing
      ensures Valid()
      ensures old(proto.free) == [] ==> head == -1 && proto == old(proto)
      ensures old(proto.free) != [] ==> head == old(proto.free)[0] && proto == Next(old(proto), Post([b]))
    {
      if numFree == 0 {
        return -1;
      }
      head := freeHead;
      ghost var d0 := desc[..];
      FillStep(d0, desc[..], [b], proto.free, 0);
      var nextDesc := desc[freeHead].next;
      desc[freeHead] := Desc(b.addr, b.len, false, b.write, 0);
      FillLinks(d0, desc[..], proto, [b]);
      freeHead := nextDesc;
      numFree := numFree - 1;
      Publish(head, [b]);
    }

    /** `virtqueue_get_buf`: -1 exactly when nothing is completed, else the head and length of the
        oldest completion, whose whole chain goes back to the free list. */
    method GetBuf() returns (head: int, len: nat)
      requires Valid()
      modifies this, desc
      ensures Valid()
      ensures old(proto.done) == [] ==> head == -1 && proto == old(proto)
      ensures old(proto.done) != [] ==>
                Enabled(old(proto), Collect) && head == old(proto.done)[0].id && len == old(proto.done)[0].len &&
                proto == Next(old(proto), Collect)
    {
      hide FreeLinked, AllLinked, Inv, RingHolds, Next, QueueSize, Slot;
      CollectFacts(proto);
      IndexMoves(lastUsed, |proto.done|);
      len := 0;
      if lastUsed == usedIdx {
        return -1, 0;
      }
      var slot := Slot(lastUsed, num);
      RingFirst(usedRing[..], lastUsed, proto.done);
      var id := usedRing[slot].id;
      len := usedRing[slot].len;
      head := id;
      Reclaim(id);
      RingPop(usedRing[..], lastUsed, proto.done);
      lastUsed := (lastUsed + 1) % WRAP;
      CollectKeeps(proto);
      proto := Next(proto, Collect);
    }

    /** Returning the completed chain to the free list. */
    method Reclaim(id: nat)
      requires Sizes() && Inv(proto) && Describe(proto) && Enabled(proto, Collect) && id == proto.done[0].id
      modifies this`freeHead, this`numFree, desc
      ensures Describe(Next(proto, Collect))
    {
      hide FreeLinked, AllLinked, Inv, RingHolds, ChainLinked;
      ghost var c := proto.chains[id];
      ChainFacts(desc[..], proto, id);
      FreeChain(id, c, proto.free);
      ReclaimLinks(old(desc[..]), desc[..], proto);
    }

    /** The walk along the chain from its first descriptor. */
    method FreeChain(id: nat, ghost c: Chain, ghost free: seq<nat>)
      requires desc.Length == num && ChainLinked(desc[..], c) && NoRepeats(c.descs) && forall i :: i in c.descs ==> i !in free
      requires c.descs[0] == id && numFree == |free| && (numFree > 0 ==> freeHead == free[0]) && FreeLinked(desc[..], free)
      modifies this`freeHead, this`numFree, desc
      ensures numFree == |c.descs| + |free| && freeHead == (Reverse(c.descs) + free)[0]
      ensures FreeLinked(desc[..], Reverse(c.descs) + free)
      ensures forall x :: 0 <= x < num && x !in c.descs ==> desc[x] == old(desc[x])
    {
      hide FreeLinked, ChainLinked, NoRepeats, Reverse;
      ghost var d0 := desc[..];
      ghost var k := 0;
      ghost var freed := free;
      var curr := id;
      ChainStart(d0, c, free);
      while true
        invariant 0 <= k < |c.descs| && curr == c.descs[k] && freed == Reverse(c.descs[..k]) + free
        invariant numFree == |freed| && FreeLinked(desc[..], freed) && (numFree > 0 ==> freeHead == freed[0])
        invariant forall x :: 0 <= x < num && x !in c.descs[..k] ==> desc[x] == d0[x]
        decreases |c.descs| - k
      {
        ChainAt(d0, c, k);
        var next := desc[curr].next;
        var hasNext := desc[curr].hasNext;
        PushFree(desc[..], c.descs, k, free, freeHead);
        freed := [curr] + freed;
        assert desc[..][curr := desc[curr].(next := freeHead)] == desc[..][c.descs[k] := desc[..][c.descs[k]].(next := freeHead)];
        desc[curr] := desc[curr].(next := freeHead);
        freeHead := curr;
        numFree := numFree + 1;
        if !hasNext {
          break;
        }
        k := k + 1;
        curr := next;
      }
      assert c.descs[..k + 1] == c.descs;
      ReverseLength(c.descs);
    }

    /** The device reads the next published chain. */
    method DeviceConsume() returns (head: nat, bufs: seq<Buf>)
      requires Valid() && deviceIdx != availIdx
      modifies this`deviceIdx, this`proto
      ensures Valid() && old(proto.avail) != [] && head == old(proto.avail)[0]
      ensures head in proto.chains && bufs == proto.chains[head].bufs && proto == Next(old(proto), Consume)
    {
      hide FreeLinked, AllLinked, Inv, RingHolds, ChainLinked, QueueSize, Slot;
      ConsumeFacts(proto);
      IndexMoves(deviceIdx, |proto.avail|);
      RingFirst(availRing[..], deviceIdx, proto.avail);
      head := availRing[Slot(deviceIdx, num)];
      ChainFacts(desc[..], proto, head);
      bufs := ReadChain(head, proto.chains[head]);
      RingPop(availRing[..], deviceIdx, proto.avail);
      deviceIdx := (deviceIdx + 1) % WRAP;
      ConsumeKeeps(proto);
      proto := Next(proto, Consume);
    }

    /** Following the links from a published head yields the posted buffers in order. */
    method ReadChain(head: nat, ghost c: Chain) returns (bufs: seq<Buf>)
      requires ChainLinked(desc[..], c) && c.descs[0] == head
      ensures bufs == c.bufs
    {
      bufs := [];
      var curr := head;
      while true
        invariant |bufs| < |c.descs| && curr == c.descs[|bufs|] && bufs == c.bufs[..|bufs|]
        decreases |c.descs| - |bufs|
      {
        var d := desc[curr];
        bufs := bufs + [Buf(d.addr, d.len, d.write)];
        if !d.hasNext {
          break;
        }
        curr := d.next;
      }
    }

    /** The device completes any request it has taken. */
    method DeviceComplete(head: nat, written: nat)
      requires Valid() && head in proto.taken
      modifies this`usedIdx, this`proto, usedRing
      ensures Valid() && proto == Next(old(proto), Complete(head, written))
    {
      hide FreeLinked, AllLinked, Inv, RingHolds, QueueSize, Slot;
      RoomToComplete(proto, head, written);
      RingPush(usedRing[..], lastUsed, proto.done, Used(head, written));
      IndexGrows(lastUsed, |proto.done|);
      usedRing[Slot(usedIdx, num)] := Used(head, written);
      usedIdx := (usedIdx + 1) % WRAP;
      CompleteKeeps(proto, head, written);
      proto := Next(proto, Complete(head, written));
    }
  }

  lemma FreeInTable(desc: seq<Desc>, free: seq<nat>)
    requires FreeLinked(desc, free)
    ensures forall k :: 0 <= k < |free| ==> free[k] < |desc|
  {
  }

  lemma InitialFacts(n: nat)
    ensures var p := Initial(n); p.num == n == |p.free| && (n > 0 ==> p.free[0] == 0) && p.avail == [] && p.done == []
  {
  }

  lemma InitialLinks(desc: seq<Desc>)
    requires forall k :: 0 <= k < |desc| - 1 ==> desc[k].next == k + 1
    ensures FreeLinked(desc, Initial(|desc|).free) && AllLinked(desc, Initial(|desc|).chains)
  {
  }

  lemma IndexGrows(x: nat, n: nat)
    ensures ((x + n) % WRAP + 1) % WRAP == (x + (n + 1)) % WRAP
  {
  }

  /** A ring with something in it has indices that differ, and popping keeps the far index. */
  lemma IndexMoves(x: nat, n: nat)
    requires x < WRAP && n <= MAX_SIZE
    ensures (x + n) % WRAP == x <==> n == 0
    ensures n > 0 ==> ((x + 1) % WRAP + (n - 1)) % WRAP == (x + n) % WRAP
  {
  }

  lemma EmptyRing<T>(ring: seq<T>, from: nat)
    requires |ring| > 0
    ensures RingHolds(ring, from, [])
  {
  }

  lemma RingFirst<T>(ring: seq<T>, from: nat, items: seq<T>)
    requires |ring| > 0 && |items| > 0 && RingHolds(ring, from, items)
    ensures ring[Slot(from, |ring|)] == items[0]
  {
    assert ring[Slot(from + 0, |ring|)] == items[0];
  }

  lemma ChainFacts(desc: seq<Desc>, p: Protocol, h: nat)
    requires Inv(p) && AllLinked(desc, p.chains) && h in p.chains
    ensures ChainLinked(desc, p.chains[h]) && |p.chains[h].descs| > 0 && p.chains[h].descs[0] == h && NoRepeats(p.chains[h].descs)
    ensures forall i :: i in p.chains[h].descs ==> i !in p.free
  {
  }

  lemma ConsumeFacts(p: Protocol)
    requires Inv(p)
    ensures |p.avail| <= p.num && (p.avail != [] ==> p.avail[0] in p.chains)
  {
    NoOverrun(p);
    assert p.avail != [] ==> p.avail[0] in p.avail;
  }

  lemma CollectFacts(p: Protocol)
    requires Inv(p)
    ensures |p.done| <= p.num && (p.done != [] ==> p.done[0].id in p.chains)
    ensures p.done != [] ==> var q := Next(p, Collect); q.num == p.num && q.avail == p.avail && q.done == p.done[1..]
  {
    NoOverrun(p);
    assert p.done != [] ==> Ids(p.done)[0] in Ids(p.done);
  }

  lemma RoomToComplete(p: Protocol, h: nat, written: nat)
    requires Inv(p) && h in p.taken
    ensures |p.done| < p.num
  {
    hide ChainsOk, Covered, FreeOk, StagesOk;
    CompleteKeeps(p, h, written);
    NoOverrun(Next(p, Complete(h, written)));
  }

  lemma ChainStart(desc: seq<Desc>, c: Chain, free: seq<nat>)
    requires ChainLinked(desc, c)
    ensures |c.descs| > 0 && Reverse(c.descs[..0]) + free == free
  {
  }

  /** What the driver finds at the `k`-th descriptor of a chain. */
  lemma ChainAt(desc: seq<Desc>, c: Chain, k: nat)
    requires ChainLinked(desc, c) && NoRepeats(c.descs) && k < |c.descs|
    ensures c.descs[k] < |desc| && c.descs[k] !in c.descs[..k] && c.descs[..k + 1] == c.descs[..k] + [c.descs[k]]
    ensures desc[c.descs[k]].hasNext == (k + 1 < |c.descs|)
    ensures k + 1 < |c.descs| ==> desc[c.descs[k]].next == c.descs[k + 1]
  {
  }

  lemma ReverseLength(c: seq<nat>)
    ensures |Reverse(c)| == |c|
  {
  }

  /** Putting descriptor `c[k]` in front of the list freed so far. */
  lemma PushFree(desc: seq<Desc>, c: seq<nat>, k: nat, free: seq<nat>, hd: nat)
    requires NoRepeats(c) && k < |c| && c[k] < |desc| && c[k] !in free
    requires FreeLinked(desc, Reverse(c[..k]) + free)
    requires |Reverse(c[..k]) + free| > 0 ==> hd == (Reverse(c[..k]) + free)[0]
    ensures Reverse(c[..k + 1]) + free == [c[k]] + (Reverse(c[..k]) + free)
    ensures FreeLinked(desc[c[k] := desc[c[k]].(next := hd)], Reverse(c[..k + 1]) + free)
  {
    var f := Reverse(c[..k]) + free;
    assert Reverse(c[..k + 1]) == [c[k]] + Reverse(c[..k]);
    forall a | 0 <= a < |f| ensures f[a] != c[k] {
      if a < k {
        assert f[a] == c[k - 1 - a];
      } else {
        assert f[a] == free[a - k];
      }
    }
  }

  lemma ReclaimLinks(d0: seq<Desc>, desc: seq<Desc>, p: Protocol)
    requires Inv(p) && |desc| == |d0| == p.num && AllLinked(d0, p.chains) && p.done != [] && p.done[0].id in p.chains
    requires forall x :: 0 <= x < |desc| && x !in p.chains[p.done[0].id].descs ==> desc[x] == d0[x]
    ensures AllLinked(desc, Next(p, Collect).chains)
  {
    hide Covered, StagesOk, ChainLinked;
    var id := p.done[0].id;
    forall h | h in p.chains && h != id ensures ChainLinked(desc, p.chains[h]) {
      var c := p.chains[h];
      forall k | 0 <= k < |c.descs| ensures desc[c.descs[k]] == d0[c.descs[k]] {
        assert c.descs[k] in c.descs;
      }
      SameChain(d0, desc, c);
    }
  }
}
