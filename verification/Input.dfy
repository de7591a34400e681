/** The input driver's use of its queue: 32 event buffers, found again by descriptor number. */
module InputQueue {
  import opened QueueProtocol
  import opened Virtqueues

  const EVENTS: nat := 32
  const EVENT_SIZE: nat := 8

  /** Address of `events[k]`, given the address of the array. */
  function EventBuf(events: nat, k: nat): Buf { Buf(events + EVENT_SIZE * k, EVENT_SIZE, true) }

  /** How many buffers fit in the queue. */
  function Posted(num: nat): nat { if num < EVENTS then num else EVENTS }

  /** Descriptors never posted, in free-list order. */
  function Spare(num: nat): seq<nat>
  {
    seq(num - Posted(num), k requires 0 <= k => Posted(num) + k)
  }

  /** Between collecting a buffer and posting it again the driver holds its number, `idx`. */
  datatype Input = Input(queue: Protocol, holding: bool, idx: nat)

  /** Descriptor i carries `events[i]` for every i below 32 that fits, and no other descriptor is
      ever posted; a held descriptor is on top of the free list. */
  ghost predicate Layout(s: Input, events: nat) {
    var p := s.queue;
    && (if s.holding then s.idx < Posted(p.num) && p.free == [s.idx] + Spare(p.num) else p.free == Spare(p.num))
    && (forall h: nat :: h in p.chains <==> h < Posted(p.num) && !(s.holding && h == s.idx))
    && (forall h: nat :: h in p.chains ==> p.chains[h] == Chain([h], [EventBuf(events, h)]))
  }

  ghost predicate InputInv(s: Input, events: nat) { Inv(s.queue) && Layout(s, events) }

  datatype InputMove = Device(move: Move) | Take | Repost

  ghost predicate InputEnabled(s: Input, e: InputMove) {
    match e
    case Device(m) => (m.Consume? || m.Complete?) && Enabled(s.queue, m)
    case Take => !s.holding && Enabled(s.queue, Collect)
    case Repost => s.holding && s.queue.free != []
  }

  /** `Take` is a successful `virtqueue_get_buf`; `Repost` adds `events[idx % 32]` again. */
  ghost function InputNext(s: Input, e: InputMove, events: nat): Input
    requires InputEnabled(s, e)
  {
    match e
    case Device(m) => s.(queue := Next(s.queue, m))
    case Take => Input(Next(s.queue, Collect), true, s.queue.done[0].id)
    case Repost => Input(Next(s.queue, Post([EventBuf(events, s.idx % EVENTS)])), false, 0)
  }

  lemma RepostKeeps(s: Input, events: nat)
    requires InputInv(s, events) && InputEnabled(s, Repost)
    ensures InputInv(InputNext(s, Repost, events), events)
  {
    hide Inv;
    PostKeeps(s.queue, [EventBuf(events, s.idx % EVENTS)]);
    assert s.queue.free[..1] == [s.idx] && s.queue.free[1..] == Spare(s.queue.num);
  }

  lemma TakeKeeps(s: Input, events: nat)
    requires InputInv(s, events) && InputEnabled(s, Take)
    ensures InputInv(InputNext(s, Take, events), events)
    ensures var id := s.queue.done[0].id; s.queue.chains[id].bufs == [EventBuf(events, id % EVENTS)]
  {
    hide Inv;
    var id := s.queue.done[0].id;
    CollectKeeps(s.queue);
    assert s.queue.chains[id] == Chain([id], [EventBuf(events, id)]);
    assert Reverse([id]) == [id];
  }

  lemma DeviceKeeps(s: Input, events: nat, m: Move)
    requires InputInv(s, events) && InputEnabled(s, Device(m))
    ensures InputInv(InputNext(s, Device(m), events), events)
  {
    NextKeeps(s.queue, m);
  }

  ghost predicate AllInputEnabled(s: Input, es: seq<InputMove>, events: nat)
    decreases |es|
  {
    es == [] || (InputEnabled(s, es[0]) && AllInputEnabled(InputNext(s, es[0], events), es[1..], events))
  }

  ghost function InputRun(s: Input, es: seq<InputMove>, events: nat): Input
    requires AllInputEnabled(s, es, events)
    decreases |es|
  {
    if es == [] then s else InputRun(InputNext(s, es[0], events), es[1..], events)
  }

  /** A completed descriptor's number finds the buffer the device filled. */
  ghost predicate FindsBuffers(p: Protocol, events: nat) {
    forall u :: u in p.done ==> u.id in p.chains && p.chains[u.id].bufs == [EventBuf(events, u.id % EVENTS)]
  }

  lemma InvFindsBuffers(s: Input, events: nat)
    requires InputInv(s, events)
    ensures FindsBuffers(s.queue, events)
  {
    hide Inv, Spare;
    var p := s.queue;
    forall u | u in p.done ensures u.id in p.chains && p.chains[u.id].bufs == [EventBuf(events, u.id % EVENTS)] {
      DoneInFlight(p, u);
      assert p.chains[u.id] == Chain([u.id], [EventBuf(events, u.id)]);
    }
  }

  lemma DoneInFlight(p: Protocol, u: Used)
    requires Inv(p) && u in p.done
    ensures u.id in p.chains
  {
    var k :| 0 <= k < |p.done| && p.done[k] == u;
    assert Ids(p.done)[k] in Ids(p.done);
  }

  /** For every interleaving of polling and device moves, each descriptor keeps its own buffer. */
  lemma {:induction false} PollingFindsBuffers(s: Input, es: seq<InputMove>, events: nat)
    requires InputInv(s, events) && AllInputEnabled(s, es, events)
    ensures InputInv(InputRun(s, es, events), events) && FindsBuffers(InputRun(s, es, events).queue, events)
    decreases |es|
  {
    hide Inv, Layout, InputNext, InputEnabled, FindsBuffers;
    if es == [] {
      InvFindsBuffers(s, events);
    } else {
      match es[0] {
        case Device(m) => DeviceKeeps(s, events, m);
        case Take => TakeKeeps(s, events);
        case Repost => RepostKeeps(s, events);
      }
      PollingFindsBuffers(InputNext(s, es[0], events), es[1..], events);
    }
  }

  ghost predicate InBuffer(b: Buf, x: nat) { b.addr <= x < b.addr + b.len }

  /** Whatever the device has at hand: every buffer is one event long, lies in the array and may be
      written, and no two requests share a byte. */
  lemma BuffersApart(s: Input, events: nat, h: nat, h': nat, x: nat)
    requires InputInv(s, events) && h in s.queue.chains && h' in s.queue.chains
    ensures |s.queue.chains[h].bufs| == |s.queue.chains[h'].bufs| == 1
    ensures var b, b' := s.queue.chains[h].bufs[0], s.queue.chains[h'].bufs[0];
            && b.write && b.len == EVENT_SIZE && (InBuffer(b, x) ==> events <= x < events + EVENTS * EVENT_SIZE)
            && (InBuffer(b, x) && InBuffer(b', x) ==> h == h')
  {
    hide Inv;
  }

  /** The posting loop of `virtio_input_init` on a fresh queue; surplus buffers are refused. */
  method PostEvents(vq: Virtqueue, events: nat)
    requires vq.Valid() && vq.proto == Initial(vq.num)
    modifies vq, vq.desc, vq.availRing
    ensures vq.Valid() && InputInv(Input(vq.proto, false, 0), events)
  {
    hide FreeLinked, AllLinked, Inv, RingHolds;
    for j := 0 to EVENTS
      invariant vq.Valid() && PostedSoFar(vq.proto, events, if j < vq.num then j else vq.num)
    {
      var head := vq.AddBuf(EventBuf(events, j));
    }
    assert vq.proto.free == Spare(vq.num);
  }

  /** The first `n` descriptors are posted, each with its own buffer. */
  ghost predicate PostedSoFar(p: Protocol, events: nat, n: nat) {
    && n <= p.num && |p.free| == p.num - n && (forall k :: 0 <= k < |p.free| ==> p.free[k] == n + k)
    && (forall h: nat :: h in p.chains <==> h < n)
    && (forall h: nat :: h in p.chains ==> p.chains[h] == Chain([h], [EventBuf(events, h)]))
  }

  /** One more completion fetched: none left, or the driver now holds the next one. */
  method Fetch(vq: Virtqueue, events: nat) returns (idx: int)
    requires vq.Valid() && InputInv(Input(vq.proto, false, 0), events)
    modifies vq, vq.desc
    ensures vq.Valid() && vq.proto.taken == old(vq.proto.taken)
    ensures old(vq.proto.done) == [] ==> idx == -1 && vq.proto == old(vq.proto)
    ensures old(vq.proto.done) != [] ==>
              idx == old(vq.proto.done)[0].id && vq.proto.done == old(vq.proto.done)[1..] && InputInv(Input(vq.proto, true, idx), events)
  {
    hide FreeLinked, AllLinked, Inv, RingHolds, Layout;
    var len;
    ghost var s := Input(vq.proto, false, 0);
    idx, len := vq.GetBuf();
    if idx != -1 {
      TakeKeeps(s, events);
    }
  }

  /** The polling loop: every completion is handled once, in order, and its buffer posted again. */
  method Poll(vq: Virtqueue, events: nat) returns (handled: seq<nat>)
    requires vq.Valid() && InputInv(Input(vq.proto, false, 0), events)
    modifies vq, vq.desc, vq.availRing
    ensures vq.Valid() && InputInv(Input(vq.proto, false, 0), events)
    ensures handled == Ids(old(vq.proto.done)) && vq.proto.done == [] && vq.proto.taken == old(vq.proto.taken)
  {
    hide FreeLinked, AllLinked, Inv, RingHolds, Layout;
    handled := [];
    ghost var done := vq.proto.done;
    var idx := Fetch(vq, events);
    while idx >= 0
      invariant vq.Valid() && vq.proto.taken == old(vq.proto.taken) && |handled| <= |done| && handled == Ids(done)[..|handled|]
      invariant if idx < 0 then InputInv(Input(vq.proto, false, 0), events) && vq.proto.done == [] && |handled| == |done|
                else InputInv(Input(vq.proto, true, idx), events) && |handled| < |done| && idx == done[|handled|].id
                     && vq.proto.done == done[|handled| + 1..]
      decreases |done| - |handled|
    {
      handled := handled + [idx];
      HeldIsFree(Input(vq.proto, true, idx), events);
      RepostKeeps(Input(vq.proto, true, idx), events);
      var head := vq.AddBuf(EventBuf(events, idx % EVENTS));
      idx := Fetch(vq, events);
    }
  }

  lemma HeldIsFree(s: Input, events: nat)
    requires InputInv(s, events) && s.holding
    ensures s.queue.free != []
  {
  }
}
