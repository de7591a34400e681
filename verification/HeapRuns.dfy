/** Runs of allocations, frees and directory switches by the heap's callers. */
module HeapClients {
  import opened Wrappers
  import opened PhysicalFrames
  import opened Machines
  import opened HeapPages
  import opened HeapBlocks

  datatype Request = Alloc(n: nat) | Release(ptr: nat) | Switched(d: nat)

  /** The heap beside what its callers hold (requested size by pointer), the directories there are,
      and the total size of blocks handed out again after a free. */
  datatype Client = Client(heap: Heap, held: map<nat, nat>, dirs: set<nat>, reused: nat)

  /** The block behind a pointer. */
  ghost function IndexOf(h: Heap, ptr: nat, n: nat): (k: nat)
    requires HeapBlocks.Holds(h, ptr, n)
    ensures k < |h.blocks| && LiveAt(h.blocks[k], ptr, n)
  {
    var k :| 0 <= k < |h.blocks| && LiveAt(h.blocks[k], ptr, n);
    k
  }

  /** Callers hold exactly the blocks in use, each with the room they asked for. */
  ghost predicate ClientInv(c: Client, o: Owners)
    ensures ClientInv(c, o) ==> Shape(c.heap.win.mem)
  {
    && HeapInv(c.heap, o)
    && (forall p :: p in c.held ==> p != 0 && HeapBlocks.Holds(c.heap, p, c.held[p]))
    && (forall b :: b in c.heap.blocks && !b.free ==> b.Payload() in c.held)
    && (forall d: nat :: d in c.dirs ==> IsDir(o, d))
  }

  /** Directory `d` reaches the window through the tables of the loaded one. */
  ghost predicate SharesTables(m: Machine, d: nat) {
    forall i: nat :: FIRST_ENTRY <= i <= LAST_ENTRY ==>
      Present(Get(m.ram, d, i)) == TableAt(m, i) && Get(m.ram, d, i).number == Get(m.ram, m.cur, i).number
  }

  /** Callers free only what they hold, or NULL, ask for sizes that do not wrap around, and switch
      to directories that share the window. */
  ghost predicate Allowed(c: Client, e: Request) {
    match e
    case Alloc(n) => n < TWO_32 && NoWrap(c.heap, n)
    case Release(p) => p == 0 || (p in c.held && HeapBlocks.Holds(c.heap, p, c.held[p]))
    case Switched(d) => d in c.dirs && SharesTables(c.heap.win.mem, d)
  }

  /** Bytes that a request takes from a block used before. */
  ghost function ReusedBy(h: Heap, n: nat): nat {
    var k := FirstFit(h.blocks, Align4(n), 0);
    if n != 0 && k < |h.blocks| then TakenSize(h.blocks[k], Align4(n)) else 0
  }

  /** Size of block `b` once taken for `size` bytes. */
  function TakenSize(b: Block, size: nat): nat {
    if b.size >= size && b.size - size > OVERHEAD + MIN_SPLIT then size else b.size
  }

  ghost function Switch(h: Heap, d: nat): Heap { h.(win := h.win.(mem := h.win.mem.(cur := d))) }

  /** One call; `None` when the kernel halts for want of frames. */
  ghost function Serve(c: Client, e: Request): (r: Option<Client>)
    requires Shape(c.heap.win.mem) && Allowed(c, e)
    ensures r.Some? ==> Shape(r.value.heap.win.mem)
  {
    match e
    case Alloc(n) =>
      (match Malloc(c.heap, n)
       case Halted => None
       case Done(h, p) => Some(c.(heap := h, held := if p == 0 then c.held else c.held[p := n], reused := c.reused + ReusedBy(c.heap, n))))
    case Release(p) =>
      if p == 0 then Some(c)
      else Some(c.(heap := FreeBlock(c.heap, IndexOf(c.heap, p, c.held[p])), held := c.held - {p}))
    case Switched(d) => Some(c.(heap := Switch(c.heap, d)))
  }

  lemma UniqueBlock(bs: seq<Block>, b: Block, b': Block)
    requires Tiled(bs) && b in bs && b' in bs && b.addr == b'.addr
    ensures b == b'
  {
    var i :| 0 <= i < |bs| && bs[i] == b;
    var j :| 0 <= j < |bs| && bs[j] == b';
    if i < j {
      Ordered(bs, i, j);
    } else if j < i {
      Ordered(bs, j, i);
    }
  }

  lemma StillHolds(h: Heap, h': Heap, gone: set<Block>, p: nat, n: nat)
    requires HeapBlocks.Holds(h, p, n) && KeepsLive(h, h', gone) && forall b :: b in gone ==> b.Payload() != p
    ensures HeapBlocks.Holds(h', p, n)
  {
    var b := h.blocks[IndexOf(h, p, n)];
    assert b in h'.blocks;
    var k :| 0 <= k < |h'.blocks| && h'.blocks[k] == b;
    assert LiveAt(h'.blocks[k], p, n);
  }

  /** What holds of the memory around the heap after any run. */
  ghost predicate Around(w: Window, o: Owners, w': Window, o': Owners) {
    SameDirs(o, o') && Conserved(w, w') && UserSame(w.mem, w'.mem, o)
  }

  lemma AroundTwice(w: Window, o: Owners, w1: Window, o1: Owners, w2: Window, o2: Owners)
    requires Around(w, o, w1, o1) && Around(w1, o1, w2, o2)
    ensures Around(w, o, w2, o2)
  {
    ConservedTwice(w, w1, w2);
    hide Conserved, Content;
  }

  lemma {:induction false} ServeKeeps(c: Client, o: Owners, e: Request) returns (o': Owners)
    requires ClientInv(c, o) && Allowed(c, e) && Serve(c, e).Some?
    ensures ClientInv(Serve(c, e).value, o') && Kept(c.heap.win, o, Serve(c, e).value.heap.win, o')
  {
    hide Kept, HeapInv;
    match e
    case Alloc(n) => o' := AllocKeeps(c, o, n);
    case Release(p) =>
      if p == 0 {
        o' := o;
        Unmoved(c.heap.win, o);
      } else {
        o' := ReleaseKeepsClient(c, o, p);
      }
    case Switched(d) =>
      o' := o;
      SwitchKeeps(c.heap, o, d);
  }

  lemma KeptDirs(w: Window, o: Owners, w': Window, o': Owners)
    requires Kept(w, o, w', o')
    ensures forall d: nat :: IsDir(o, d) ==> IsDir(o', d)
  {
  }

  lemma AllocKeeps(c: Client, o: Owners, n: nat) returns (o': Owners)
    requires ClientInv(c, o) && Allowed(c, Alloc(n)) && Serve(c, Alloc(n)).Some?
    ensures ClientInv(Serve(c, Alloc(n)).value, o') && Kept(c.heap.win, o, Serve(c, Alloc(n)).value.heap.win, o')
  {
    hide HeapInv, Kept, NoWrap, Malloc, IsDir, ReusedBy;
    var h, p := Malloc(c.heap, n).heap, Malloc(c.heap, n).ptr;
    o' := MallocServed(c.heap, o, n);
    OnlyNewLive(c.heap, o, n);
    KeptDirs(c.heap.win, o, h.win, o');
    forall q | q in c.held ensures HeapBlocks.Holds(h, q, c.held[q]) {
      StillHolds(c.heap, h, {}, q, c.held[q]);
    }
    forall q | q in c.held ensures p != 0 ==> q != p {
      assert c.heap.blocks[IndexOf(c.heap, q, c.held[q])] in c.heap.blocks;
    }
  }

  /** The only block in use that was not in use before is the one handed out. */
  lemma OnlyNewLive(h: Heap, o: Owners, n: nat)
    requires HeapInv(h, o) && n < TWO_32 && NoWrap(h, n) && Malloc(h, n).Done?
    ensures forall b :: b in Malloc(h, n).heap.blocks && !b.free ==> (b in h.blocks && !b.free) || (Malloc(h, n).ptr != 0 && b.Payload() == Malloc(h, n).ptr)
  {
    hide HeapInv, NoWrap, EnsureSpace, Align4;
    forall b | b in Malloc(h, n).heap.blocks && !b.free
      ensures (b in h.blocks && !b.free) || (Malloc(h, n).ptr != 0 && b.Payload() == Malloc(h, n).ptr)
    {
      if n != 0 && HasFit(h, n) {
        TakeAddsOne(h.blocks, FirstFit(h.blocks, Align4(n), 0), Align4(n), b);
      }
    }
  }

  lemma TakeAddsOne(bs: seq<Block>, k: nat, size: nat, b: Block)
    requires k < |bs| && Fits(bs[k], size) && b in TakeBlock(bs, k, size) && !b.free
    ensures b in bs || b.addr == bs[k].addr
  {
    var bs' := TakeBlock(bs, k, size);
    var i :| 0 <= i < |bs'| && bs'[i] == b;
    if i < k {
      assert bs[i] == b;
    } else if i > k {
      assert bs[if |bs'| == |bs| then i else i - 1] == b;
    }
  }

  lemma ReleaseKeepsClient(c: Client, o: Owners, p: nat) returns (o': Owners)
    requires ClientInv(c, o) && p in c.held
    ensures ClientInv(Serve(c, Release(p)).value, o') && Kept(c.heap.win, o, Serve(c, Release(p)).value.heap.win, o')
  {
    hide Kept, FreeBlock, Tiled, Merged, Backed, KeepsLive, IsDir;
    var k := IndexOf(c.heap, p, c.held[p]);
    var h := FreeBlock(c.heap, k);
    o' := FreeKeeps(c.heap, o, k);
    KeptDirs(c.heap.win, o, h.win, o');
    forall q | q in c.held && q != p ensures HeapBlocks.Holds(h, q, c.held[q]) {
      StillHolds(c.heap, h, {c.heap.blocks[k]}, q, c.held[q]);
    }
    forall b | b in h.blocks && !b.free ensures b.Payload() in c.held && b.Payload() != p {
      FreeAddsNone(c.heap, o, k, b);
      if b.addr == c.heap.blocks[k].addr {
        UniqueBlock(c.heap.blocks, b, c.heap.blocks[k]);
      }
    }
  }

  /** Every block in use after `kfree` was in use before, and was not the freed one. */
  lemma FreeAddsNone(h: Heap, o: Owners, k: nat, b: Block)
    requires HeapInv(h, o) && k < |h.blocks| && !h.blocks[k].free && b in FreeBlock(h, k).blocks && !b.free
    ensures b in h.blocks && b != h.blocks[k]
  {
    hide Tiled, Merged, Backed, MergeNext, MergePrev, TrimTail, ReleasePages;
    var freed := h.blocks[k := h.blocks[k].(free := true)];
    var r := MergeNext(freed, k);
    TrimSubset(MergePrev(r, k), b);
    MergeNextAt(freed, k);
    var i1 := MergePrevAddsNone(r, k, b);
    var i2 := MergeNextAddsNone(freed, k, b);
    DistinctBlocks(h.blocks, i2, k);
  }

  lemma MergeNextAt(bs: seq<Block>, k: nat)
    requires k < |bs|
    ensures MergeNext(bs, k)[k].free == bs[k].free
  {
  }

  /** A block in use after a merge is one of the blocks in use before. */
  lemma MergeNextAddsNone(bs: seq<Block>, k: nat, b: Block) returns (i: nat)
    requires k < |bs| && bs[k].free && b in MergeNext(bs, k) && !b.free
    ensures i < |bs| && i != k && bs[i] == b
  {
    var r := MergeNext(bs, k);
    i :| i < |r| && r[i] == b;
    if |r| < |bs| && i > k {
      i := i + 1;
    }
  }

  lemma MergePrevAddsNone(bs: seq<Block>, k: nat, b: Block) returns (i: nat)
    requires k < |bs| && bs[k].free && b in MergePrev(bs, k) && !b.free
    ensures i < |bs| && i != k && bs[i] == b
  {
    var r := MergePrev(bs, k);
    i :| i < |r| && r[i] == b;
    if |r| < |bs| && i >= k {
      i := i + 1;
    }
  }

  lemma DistinctBlocks(bs: seq<Block>, i: nat, k: nat)
    requires Tiled(bs) && i < |bs| && k < |bs| && i != k
    ensures bs[i] != bs[k]
  {
    if i < k {
      Ordered(bs, i, k);
    } else {
      Ordered(bs, k, i);
    }
  }

  lemma {:induction false} TrimSubset(bs: seq<Block>, b: Block)
    requires b in TrimTail(bs)
    ensures b in bs
    decreases |bs|
  {
    if bs != [] && bs[|bs| - 1].free {
      TrimSubset(bs[..|bs| - 1], b);
    }
  }

  /** Under a directory that shares the window's tables nothing about the heap changes. */
  lemma SwitchKeeps(h: Heap, o: Owners, d: nat)
    requires HeapInv(h, o) && IsDir(o, d) && SharesTables(h.win.mem, d)
    ensures HeapInv(Switch(h, d), o) && Kept(h.win, o, Switch(h, d).win, o)
  {
    hide Tiled, Merged, RoundUp;
    var w, w' := h.win, Switch(h, d).win;
    SwitchBacked(w, o, d);
    forall f: nat ensures (Backs(w', f) <==> Backs(w, f)) && (HeapTable(w'.mem, f) <==> HeapTable(w.mem, f)) {
      SwitchPool(w, o, d, f);
    }
    hide Backed, Backs, HeapTable;
    assert Conserved(w, w');
    assert UserSame(w.mem, w'.mem, o);
  }

  lemma SwitchEntry(m: Machine, d: nat, v: nat)
    requires SharesTables(m, d) && IsPage(v, HEAP_END)
    ensures var m' := m.(cur := d);
            && EntryFor(m', v) == EntryFor(m, v) && TableAt(m', PdIndex(v)) == TableAt(m, PdIndex(v)) && PageData(m', v) == PageData(m, v)
  {
    Indices(v);
  }

  lemma SwitchBacked(w: Window, o: Owners, d: nat)
    requires Backed(w, o) && IsDir(o, d) && SharesTables(w.mem, d)
    ensures Backed(w.(mem := w.mem.(cur := d)), o) && DataSame(w, w.(mem := w.mem.(cur := d)))
  {
    var m' := w.mem.(cur := d);
    forall v: nat | IsPage(v, HEAP_END)
      ensures EntryFor(m', v) == EntryFor(w.mem, v) && TableAt(m', PdIndex(v)) == TableAt(w.mem, PdIndex(v)) && PageData(m', v) == PageData(w.mem, v)
    {
      SwitchEntry(w.mem, d, v);
    }
    assert forall v: nat :: IsPage(v, w.mapped) ==> IsPage(v, HEAP_END);
    assert Inv(m', o);
  }

  lemma SwitchPool(w: Window, o: Owners, d: nat, f: nat)
    requires Backed(w, o) && SharesTables(w.mem, d)
    ensures var w' := w.(mem := w.mem.(cur := d)); (Backs(w', f) <==> Backs(w, f)) && (HeapTable(w'.mem, f) <==> HeapTable(w.mem, f))
  {
    var w' := w.(mem := w.mem.(cur := d));
    forall v: nat | IsPage(v, w.mapped) ensures EntryFor(w'.mem, v) == EntryFor(w.mem, v) {
      assert IsPage(v, HEAP_END) by { WindowBounds(w, o); }
      SwitchEntry(w.mem, d, v);
    }
  }

  // ----- whole runs ------------------------------------------------------------------------

  ghost predicate AllAllowed(c: Client, es: seq<Request>)
    requires Shape(c.heap.win.mem)
    decreases |es|
  {
    es == [] || (Allowed(c, es[0]) && (Serve(c, es[0]).Some? ==> AllAllowed(Serve(c, es[0]).value, es[1..])))
  }

  ghost function ServeAll(c: Client, es: seq<Request>): (r: Option<Client>)
    requires Shape(c.heap.win.mem) && AllAllowed(c, es)
    ensures r.Some? ==> Shape(r.value.heap.win.mem)
    decreases |es|
  {
    if es == [] then Some(c)
    else if Serve(c, es[0]).None? then None
    else ServeAll(Serve(c, es[0]).value, es[1..])
  }

  /** Over every run of allocations, frees and switches the heap stays tiled, merged and backed,
      callers keep what they hold, user memory is untouched, and frames only move between the
      allocator, the window and its tables, up to evictions. */
  lemma {:induction false} EveryRunKeeps(c: Client, o: Owners, es: seq<Request>) returns (o': Owners)
    requires ClientInv(c, o) && AllAllowed(c, es) && ServeAll(c, es).Some?
    ensures ClientInv(ServeAll(c, es).value, o') && Around(c.heap.win, o, ServeAll(c, es).value.heap.win, o')
    decreases |es|
  {
    hide Serve, Allowed, ClientInv, Conserved, UserSame;
    if es == [] {
      o' := o;
      AroundItself(c.heap.win, o);
    } else {
      var c1 := Serve(c, es[0]).value;
      var o1 := ServeKeeps(c, o, es[0]);
      o' := EveryRunKeeps(c1, o1, es[1..]);
      AroundTwice(c.heap.win, o, c1.heap.win, o1, ServeAll(c, es).value.heap.win, o');
    }
  }

  /** After every run, all of the heap is writable for the kernel and out of the user's reach. */
  lemma HeapStaysKernelOnly(c: Client, o: Owners, es: seq<Request>, v: nat)
    requires ClientInv(c, o) && AllAllowed(c, es) && ServeAll(c, es).Some? && IsPage(v, ServeAll(c, es).value.heap.win.mapped)
    ensures KernelOnly(ServeAll(c, es).value.heap.win.mem, v)
  {
    hide Allowed, Around;
    var o' := EveryRunKeeps(c, o, es);
    HeapIsKernelOnly(ServeAll(c, es).value.heap.win, o', v);
  }

  lemma AroundItself(w: Window, o: Owners)
    ensures Around(w, o, w, o)
  {
  }

  /** Held payloads are aligned, inside the mapped window, and disjoint from one another and from
      every block header. */
  lemma PayloadsApart(h: Heap, o: Owners, j: nat, k: nat)
    requires HeapInv(h, o) && j < |h.blocks| && k < |h.blocks| && j != k
    ensures var b, b' := h.blocks[j], h.blocks[k];
            && b.Payload() % 4 == 0 && HEAP_START <= b.addr && b.End() <= h.curr <= h.win.mapped
            && (b.End() <= b'.addr || b'.End() <= b.addr)
  {
    hide Tiled, Merged, Backed, RoundUp;
    AddrAligned(h.blocks, j);
    PageAligned(h.curr);
    if j < k {
      Ordered(h.blocks, j, k);
    } else {
      Ordered(h.blocks, k, j);
    }
  }

  /** The empty heap, in a directory that maps nothing of the window. */
  lemma EmptyHeap(m: Machine, o: Owners, dirs: set<nat>)
    requires Inv(m, o) && TablesApart(m) && forall d: nat :: d in dirs ==> IsDir(o, d)
    requires forall v: nat :: IsPage(v, HEAP_END) ==> PageData(m, v) == None
    ensures ClientInv(Client(Heap([], HEAP_START, 0, Window(HEAP_START, m)), map[], dirs, 0), o)
  {
  }

  // ----- the byte counter ------------------------------------------------------------------

  /** Total size of the blocks in use. */
  function LiveBytes(bs: seq<Block>): nat {
    if bs == [] then 0 else LiveBytes(bs[..|bs| - 1]) + Counted(bs[|bs| - 1])
  }

  function Counted(b: Block): nat { if b.free then 0 else b.size }

  lemma {:induction false} LiveBytesJoin(xs: seq<Block>, ys: seq<Block>)
    ensures LiveBytes(xs + ys) == LiveBytes(xs) + LiveBytes(ys)
    decreases |ys|
  {
    if ys == [] {
      assert xs + ys == xs;
    } else {
      assert (xs + ys)[..|xs + ys| - 1] == xs + ys[..|ys| - 1];
      LiveBytesJoin(xs, ys[..|ys| - 1]);
    }
  }

  lemma LiveBytesSplit(bs: seq<Block>, k: nat)
    requires k < |bs|
    ensures LiveBytes(bs) == LiveBytes(bs[..k]) + Counted(bs[k]) + LiveBytes(bs[k + 1..])
  {
    assert bs == bs[..k + 1] + bs[k + 1..] && bs[..k + 1][..k] == bs[..k];
    LiveBytesJoin(bs[..k + 1], bs[k + 1..]);
  }

  lemma LiveBytesOfTwo(a: Block, b: Block)
    ensures LiveBytes([a]) == Counted(a) && LiveBytes([a, b]) == Counted(a) + Counted(b)
  {
    assert [a][..0] == [] && [a, b][..1] == [a];
  }

  lemma TakeCounts(bs: seq<Block>, k: nat, size: nat)
    requires k < |bs| && Fits(bs[k], size)
    ensures LiveBytes(TakeBlock(bs, k, size)) == LiveBytes(bs) + TakenSize(bs[k], size)
  {
    hide LiveBytes;
    var r := TakeBlock(bs, k, size);
    LiveBytesSplit(bs, k);
    if bs[k].size - size > OVERHEAD + MIN_SPLIT {
      var pair := [Block(bs[k].addr, size, false), Block(bs[k].addr + OVERHEAD + size, bs[k].size - size - OVERHEAD, true)];
      LiveBytesJoin(bs[..k] + pair, bs[k + 1..]);
      LiveBytesJoin(bs[..k], pair);
      LiveBytesOfTwo(pair[0], pair[1]);
    } else {
      LiveBytesSplit(r, k);
      assert r[..k] == bs[..k] && r[k + 1..] == bs[k + 1..];
    }
  }

  lemma FlagCounts(bs: seq<Block>, k: nat)
    requires k < |bs| && !bs[k].free
    ensures LiveBytes(bs[k := bs[k].(free := true)]) == LiveBytes(bs) - bs[k].size
  {
    hide LiveBytes;
    var r := bs[k := bs[k].(free := true)];
    LiveBytesSplit(bs, k);
    LiveBytesSplit(r, k);
    assert r[..k] == bs[..k] && r[k + 1..] == bs[k + 1..];
  }

  /** Replacing two neighbouring free blocks by one free block. */
  lemma JoinCounts(bs: seq<Block>, k: nat, b: Block)
    requires k + 1 < |bs| && bs[k].free && bs[k + 1].free && b.free
    ensures LiveBytes(bs[..k] + [b] + bs[k + 2..]) == LiveBytes(bs)
  {
    hide LiveBytes;
    LiveBytesSplit(bs, k);
    LiveBytesSplit(bs[k + 1..], 0);
    assert bs[k + 1..][1..] == bs[k + 2..] && bs[k + 1..][..0] == [];
    LiveBytesJoin(bs[..k] + [b], bs[k + 2..]);
    LiveBytesJoin(bs[..k], [b]);
    LiveBytesOfTwo(b, b);
    NoBytes();
  }

  lemma NoBytes()
    ensures LiveBytes([]) == 0
  {
  }

  lemma MergeNextCounts(bs: seq<Block>, k: nat)
    requires k < |bs| && bs[k].free
    ensures LiveBytes(MergeNext(bs, k)) == LiveBytes(bs) && MergeNext(bs, k)[k].free
  {
    hide LiveBytes;
    if k + 1 < |bs| && bs[k + 1].free {
      JoinCounts(bs, k, bs[k].(size := bs[k].size + OVERHEAD + bs[k + 1].size));
    }
  }

  lemma MergePrevCounts(bs: seq<Block>, k: nat)
    requires k < |bs| && bs[k].free
    ensures LiveBytes(MergePrev(bs, k)) == LiveBytes(bs)
  {
    hide LiveBytes;
    if k > 0 && bs[k - 1].free {
      var b := bs[k - 1].(size := bs[k - 1].size + OVERHEAD + bs[k].size);
      JoinCounts(bs, k - 1, b);
      assert (k - 1) + 2 == k + 1;
    }
  }

  lemma {:induction false} TrimCounts(bs: seq<Block>)
    ensures LiveBytes(TrimTail(bs)) == LiveBytes(bs)
    decreases |bs|
  {
    if bs != [] && bs[|bs| - 1].free {
      TrimCounts(bs[..|bs| - 1]);
    }
  }

  lemma FreeCounts(bs: seq<Block>, k: nat)
    requires k < |bs| && !bs[k].free
    ensures LiveBytes(FreedList(bs, k)) == LiveBytes(bs) - bs[k].size
  {
    hide LiveBytes, MergeNext, MergePrev, TrimTail;
    var freed := bs[k := bs[k].(free := true)];
    FlagCounts(bs, k);
    MergeNextCounts(freed, k);
    MergePrevCounts(MergeNext(freed, k), k);
    TrimCounts(Coalesce(freed, k));
  }

  /** The counter is behind the bytes in use by what was handed out through reuse, modulo 2^32. */
  ghost predicate Trails(c: Client) {
    c.heap.inUse < TWO_32 && (c.heap.inUse + c.reused) % TWO_32 == LiveBytes(c.heap.blocks) % TWO_32
  }

  lemma ModAdd(a: nat, b: nat, x: nat)
    requires a % TWO_32 == b % TWO_32
    ensures (a + x) % TWO_32 == (b + x) % TWO_32 && (a % TWO_32 + x) % TWO_32 == (a + x) % TWO_32
  {
  }

  lemma ModSubtract(inUse: nat, reused: nat, live: nat, size: nat)
    requires (inUse + reused) % TWO_32 == live % TWO_32 && size <= live
    ensures ((inUse - size) % TWO_32 + reused) % TWO_32 == (live - size) % TWO_32
  {
  }

  lemma AllocTrails(c: Client, o: Owners, n: nat)
    requires HeapInv(c.heap, o) && Trails(c) && Allowed(c, Alloc(n)) && Serve(c, Alloc(n)).Some?
    ensures Trails(Serve(c, Alloc(n)).value)
  {
    hide HeapInv, NoWrap, EnsureSpace, Align4, LiveBytes, TakeBlock, TakenSize;
    var h, k := c.heap, FirstFit(c.heap.blocks, Align4(n), 0);
    if n != 0 && k < |h.blocks| {
      TakeCounts(h.blocks, k, Align4(n));
      ModAdd(h.inUse + c.reused, LiveBytes(h.blocks), TakenSize(h.blocks[k], Align4(n)));
    } else if n != 0 && Malloc(h, n).ptr != 0 {
      var b := Block(Align4(h.curr), Align4(n), false);
      LiveBytesJoin(h.blocks, [b]);
      LiveBytesOfTwo(b, b);
      ModAdd(h.inUse + c.reused, LiveBytes(h.blocks), Align4(n));
      ModAdd(h.inUse + Align4(n), h.inUse + Align4(n), c.reused);
    }
  }

  lemma FreeTrails(c: Client, o: Owners, p: nat)
    requires ClientInv(c, o) && Trails(c) && p in c.held
    ensures Trails(Serve(c, Release(p)).value)
  {
    hide HeapInv, LiveBytes, ReleasePages;
    var h, k := c.heap, IndexOf(c.heap, p, c.held[p]);
    FreeCounts(h.blocks, k);
    BlockCounts(h.blocks, k);
    ModSubtract(h.inUse, c.reused, LiveBytes(h.blocks), h.blocks[k].size);
  }

  lemma BlockCounts(bs: seq<Block>, k: nat)
    requires k < |bs| && !bs[k].free
    ensures bs[k].size <= LiveBytes(bs)
  {
    LiveBytesSplit(bs, k);
  }

  /** Over every run the counter of bytes in use trails the true figure by what was reused; so it is
      right, modulo 2^32, if and only if that total is a multiple of 2^32. */
  lemma {:induction false} CounterTrails(c: Client, o: Owners, es: seq<Request>)
    requires ClientInv(c, o) && Trails(c) && AllAllowed(c, es) && ServeAll(c, es).Some?
    ensures var c' := ServeAll(c, es).value;
            Trails(c') && (c'.heap.inUse == LiveBytes(c'.heap.blocks) % TWO_32 <==> c'.reused % TWO_32 == 0)
    decreases |es|
  {
    hide ClientInv, LiveBytes;
    if es == [] {
      RightIff(c);
    } else {
      var e := es[0];
      match e {
        case Alloc(n) => AllocTrails(c, o, n) by { assert HeapInv(c.heap, o) by { InvOf(c, o); } }
        case Release(p) =>
          if p != 0 {
            FreeTrails(c, o, p);
          }
        case Switched(d) =>
      }
      var o1 := ServeKeeps(c, o, e);
      CounterTrails(Serve(c, e).value, o1, es[1..]);
    }
  }

  lemma InvOf(c: Client, o: Owners)
    requires ClientInv(c, o)
    ensures HeapInv(c.heap, o)
  {
  }

  lemma RightIff(c: Client)
    requires Trails(c)
    ensures c.heap.inUse == LiveBytes(c.heap.blocks) % TWO_32 <==> c.reused % TWO_32 == 0
  {
    hide LiveBytes;
    assert (c.heap.inUse + c.reused) % TWO_32 == (c.heap.inUse + c.reused % TWO_32) % TWO_32;
  }
}
