/** The kernel heap as an address-ordered list of blocks over lazily mapped pages. */
module HeapBlocks {
  import opened Wrappers
  import opened PhysicalFrames
  import opened Machines
  import opened HeapPages

  const OVERHEAD: nat := 16
  const MIN_SPLIT: nat := 32

  /** A header at `addr` followed by `size` payload bytes. */
  datatype Block = Block(addr: nat, size: nat, free: bool) {
    function Payload(): nat { addr + OVERHEAD }
    function End(): nat { addr + OVERHEAD + size }
  }

  /** `curr` is the end of the last block, `inUse` the counter behind `heap_bytes_in_use`. */
  datatype Heap = Heap(blocks: seq<Block>, curr: nat, inUse: nat, win: Window)

  /** `align_up` to 4 bytes and to a page, on 32-bit numbers. */
  function Align4(x: nat): nat { (x + 3) % TWO_32 / 4 * 4 }
  function AlignPage(x: nat): nat { (x + PAGE - 1) % TWO_32 / PAGE * PAGE }

  // ----- invariants ------------------------------------------------------------------------

  function EndOf(bs: seq<Block>): nat {
    if bs == [] then HEAP_START else bs[|bs| - 1].End()
  }

  /** Blocks follow each other without gap from the start of the window. */
  ghost predicate Tiled(bs: seq<Block>) {
    && (bs != [] ==> bs[0].addr == HEAP_START)
    && (forall k :: 0 <= k < |bs| - 1 ==> bs[k + 1].addr == bs[k].End())
    && (forall k :: 0 <= k < |bs| ==> bs[k].size > 0 && bs[k].size % 4 == 0)
  }

  /** No two neighbours are both free and the last block is in use. */
  ghost predicate Merged(bs: seq<Block>) {
    && (forall k :: 0 <= k < |bs| - 1 ==> !(bs[k].free && bs[k + 1].free))
    && (bs != [] ==> !bs[|bs| - 1].free)
  }

  ghost predicate HeapInv(h: Heap, o: Owners)
    ensures HeapInv(h, o) ==> Shape(h.win.mem)
  {
    && Tiled(h.blocks) && Merged(h.blocks) && h.curr == EndOf(h.blocks) <= HEAP_END
    && h.win.mapped == RoundUp(h.curr) && Backed(h.win, o)
  }

  // ----- kmalloc ---------------------------------------------------------------------------

  predicate Fits(b: Block, size: nat) { b.free && b.size >= size }

  /** Index of the first block from `k` on that fits, |bs| if there is none. */
  function FirstFit(bs: seq<Block>, size: nat, k: nat): (r: nat)
    requires k <= |bs|
    ensures k <= r <= |bs| && (r < |bs| ==> Fits(bs[r], size))
    ensures forall i :: k <= i < r ==> !Fits(bs[i], size)
    decreases |bs| - k
  {
    if k == |bs| || Fits(bs[k], size) then k else FirstFit(bs, size, k + 1)
  }

  /** Block `k` taken for `size` bytes; a remainder worth keeping becomes a free block. */
  function TakeBlock(bs: seq<Block>, k: nat, size: nat): seq<Block>
    requires k < |bs| && bs[k].size >= size
  {
    var b := bs[k];
    if b.size - size <= OVERHEAD + MIN_SPLIT then bs[k := b.(free := false)]
    else bs[..k] + [Block(b.addr, size, false), Block(b.addr + OVERHEAD + size, b.size - size - OVERHEAD, true)] + bs[k + 1..]
  }

  datatype Outcome = Halted | Done(heap: Heap, ptr: nat)

  /** `kmalloc`; pointer 0 is NULL. All sums are 32-bit. */
  ghost function Malloc(h: Heap, n: nat): (r: Outcome)
    requires Shape(h.win.mem)
    ensures r.Done? ==> Shape(r.heap.win.mem)
  {
    if n == 0 then Done(h, 0)
    else
      var size := Align4(n);
      var k := FirstFit(h.blocks, size, 0);
      if k < |h.blocks| then Done(h.(blocks := TakeBlock(h.blocks, k, size)), h.blocks[k].Payload())
      else
        var start := Align4(h.curr);
        var end := (start + size + OVERHEAD) % TWO_32;
        if end > HEAP_END then Done(h, 0)
        else
          match EnsureSpace(h.win, end)
          case None => Halted
          case Some(w) =>
            Done(Heap(h.blocks + [Block(start, size, false)], end, (h.inUse + size) % TWO_32, w), start + OVERHEAD)
  }

  // ----- kfree -----------------------------------------------------------------------------

  /** Block `k` joined with a free successor. */
  function MergeNext(bs: seq<Block>, k: nat): (r: seq<Block>)
    requires k < |bs|
    ensures k < |r|
  {
    if k + 1 < |bs| && bs[k + 1].free then
      bs[..k] + [bs[k].(size := bs[k].size + OVERHEAD + bs[k + 1].size)] + bs[k + 2..]
    else bs
  }

  /** Block `k` joined with a free predecessor. */
  function MergePrev(bs: seq<Block>, k: nat): seq<Block>
    requires k < |bs|
  {
    if k > 0 && bs[k - 1].free then
      bs[..k - 1] + [bs[k - 1].(size := bs[k - 1].size + OVERHEAD + bs[k].size)] + bs[k + 1..]
    else bs
  }

  function Coalesce(bs: seq<Block>, k: nat): seq<Block>
    requires k < |bs|
  {
    MergePrev(MergeNext(bs, k), k)
  }

  function TrimTail(bs: seq<Block>): seq<Block> {
    if bs != [] && bs[|bs| - 1].free then TrimTail(bs[..|bs| - 1]) else bs
  }

  /** `heap_trim`. */
  ghost function Trim(h: Heap): Heap
    requires Shape(h.win.mem)
  {
    var bs := TrimTail(h.blocks);
    h.(blocks := bs, curr := EndOf(bs), win := ReleasePages(h.win, AlignPage(EndOf(bs))))
  }

  /** `kfree` of block `k`; freeing a free block changes nothing. */
  ghost function FreeBlock(h: Heap, k: nat): Heap
    requires k < |h.blocks| && Shape(h.win.mem)
  {
    var b := h.blocks[k];
    if b.free then h
    else Trim(h.(blocks := Coalesce(h.blocks[k := b.(free := true)], k),
                 inUse := (h.inUse - b.size) % TWO_32))
  }

  // ----- the block list keeps its shape ----------------------------------------------------

  /** Blocks from `j` to `k` lie in address order. */
  lemma {:induction false} Ordered(bs: seq<Block>, j: nat, k: nat)
    requires Tiled(bs) && j < k < |bs|
    ensures bs[j].End() <= bs[k].addr
    decreases k - j
  {
    if j + 1 < k {
      Ordered(bs, j + 1, k);
    }
  }

  lemma TakeKeeps(bs: seq<Block>, k: nat, size: nat)
    requires Tiled(bs) && Merged(bs) && k < |bs| && Fits(bs[k], size) && size > 0 && size % 4 == 0
    ensures Tiled(TakeBlock(bs, k, size)) && Merged(TakeBlock(bs, k, size)) && EndOf(TakeBlock(bs, k, size)) == EndOf(bs)
    ensures k < |TakeBlock(bs, k, size)| && !TakeBlock(bs, k, size)[k].free && TakeBlock(bs, k, size)[k].addr == bs[k].addr
    ensures size <= TakeBlock(bs, k, size)[k].size
  {
    TakeKeepsTiled(bs, k, size);
    TakeKeepsMerged(bs, k, size);
  }

  /** A block handed out is at most 48 bytes larger than asked for, and what is split off is a free
      block of more than 32 bytes. */
  lemma TakeIsTight(bs: seq<Block>, k: nat, size: nat)
    requires k < |bs| && Fits(bs[k], size)
    ensures var r := TakeBlock(bs, k, size);
            && k < |r| && r[k].size <= size + 48
            && (|r| == |bs| || (|r| == |bs| + 1 && r[k].size == size && r[k + 1].free && r[k + 1].size > 32))
            && (r[k].size == size || r[k].size == bs[k].size)
  {
  }

  lemma TakeKeepsTiled(bs: seq<Block>, k: nat, size: nat)
    requires Tiled(bs) && k < |bs| && Fits(bs[k], size) && size > 0 && size % 4 == 0
    ensures Tiled(TakeBlock(bs, k, size)) && EndOf(TakeBlock(bs, k, size)) == EndOf(bs)
  {
    var bs' := TakeBlock(bs, k, size);
    if bs[k].size - size > OVERHEAD + MIN_SPLIT {
      forall i: nat | i < |bs'| - 1 ensures bs'[i + 1].addr == bs'[i].End() {
        if i + 1 <= k {
          assert bs[i + 1].addr == bs[i].End();
        } else if i > k {
          assert bs'[i + 1] == bs[i] && bs[i].addr == bs[i - 1].End();
        }
      }
      assert (bs[k].size - size - OVERHEAD) % 4 == 0;
    }
  }

  lemma TakeKeepsMerged(bs: seq<Block>, k: nat, size: nat)
    requires Merged(bs) && k < |bs| && Fits(bs[k], size)
    ensures Merged(TakeBlock(bs, k, size))
  {
    var bs' := TakeBlock(bs, k, size);
    assert k + 1 < |bs|;
    if bs[k].size - size > OVERHEAD + MIN_SPLIT {
      assert forall i :: k + 2 <= i < |bs'| ==> bs'[i] == bs[i - 1];
    }
  }

  /** No two neighbours are both free, the last block may be. */
  ghost predicate Sparse(bs: seq<Block>) {
    forall k :: 0 <= k < |bs| - 1 ==> !(bs[k].free && bs[k + 1].free)
  }

  function Live(bs: seq<Block>, k: nat): seq<Block>
    requires k < |bs|
  {
    bs[k := bs[k].(free := false)]
  }

  lemma MergeNextKeeps(bs: seq<Block>, k: nat)
    requires Tiled(bs) && k < |bs| && bs[k].free && Merged(Live(bs, k))
    ensures var r := MergeNext(bs, k);
            && Tiled(r) && EndOf(r) == EndOf(bs) && k < |r| && r[k].free && r[..k] == bs[..k]
            && Merged(Live(r, k)) && (k + 1 < |r| ==> !r[k + 1].free)
  {
    var live, r := Live(bs, k), MergeNext(bs, k);
    if k + 1 < |bs| && bs[k + 1].free {
      assert live[k + 1].free && k + 2 < |bs|;
      assert !live[k + 2].free;
      assert forall i :: k + 1 <= i < |r| ==> r[i] == live[i + 1];
      assert forall i :: 0 <= i < k ==> r[i] == live[i];
      SparseWithout(live, Live(r, k), k);
    } else {
      assert k + 1 < |bs| ==> live[k + 1] == bs[k + 1];
    }
  }

  /** Dropping a block next to a live one keeps the list sparse. */
  lemma SparseWithout(bs: seq<Block>, r: seq<Block>, k: nat)
    requires Sparse(bs) && |r| == |bs| - 1 && k < |r| && !r[k].free
    requires forall i :: 0 <= i < k ==> r[i] == bs[i]
    requires forall i :: k + 1 <= i < |r| ==> r[i] == bs[i + 1]
    ensures Sparse(r)
  {
    forall i | 0 <= i < |r| - 1 ensures !(r[i].free && r[i + 1].free) {
      if i > k {
        assert !(bs[i + 1].free && bs[i + 1 + 1].free);
      }
    }
  }

  lemma MergePrevKeeps(bs: seq<Block>, k: nat)
    requires Tiled(bs) && k < |bs| && bs[k].free && Merged(Live(bs, k)) && (k + 1 < |bs| ==> !bs[k + 1].free)
    ensures Tiled(MergePrev(bs, k)) && EndOf(MergePrev(bs, k)) == EndOf(bs) && Sparse(MergePrev(bs, k))
  {
    var live, r := Live(bs, k), MergePrev(bs, k);
    if k > 0 && bs[k - 1].free {
      assert forall i :: k <= i < |r| ==> r[i] == bs[i + 1];
      assert forall i :: 0 <= i < k - 1 ==> r[i] == bs[i] == live[i];
      forall i | 0 <= i < |r| - 1 ensures !(r[i].free && r[i + 1].free) {
        if i + 1 < k {
          assert !(live[i].free && live[i + 1].free);
        } else if i >= k {
          assert !(live[i + 1].free && live[i + 1 + 1].free);
        }
      }
    } else {
      forall i | 0 <= i < |r| - 1 ensures !(r[i].free && r[i + 1].free) {
        assert !(live[i].free && live[i + 1].free);
      }
    }
  }

  lemma CoalesceKeeps(bs: seq<Block>, k: nat)
    requires Tiled(bs) && Merged(bs) && k < |bs| && !bs[k].free
    ensures var r := Coalesce(bs[k := bs[k].(free := true)], k); Tiled(r) && Sparse(r) && EndOf(r) == EndOf(bs)
  {
    var freed := bs[k := bs[k].(free := true)];
    assert Live(freed, k) == bs;
    MergeNextKeeps(freed, k);
    MergePrevKeeps(MergeNext(freed, k), k);
  }

  /** Trimming drops at most the last block. */
  lemma TrimKeeps(bs: seq<Block>)
    requires Tiled(bs) && Sparse(bs)
    ensures Tiled(TrimTail(bs)) && Merged(TrimTail(bs)) && EndOf(TrimTail(bs)) <= EndOf(bs)
    ensures TrimTail(bs) == if bs != [] && bs[|bs| - 1].free then bs[..|bs| - 1] else bs
  {
    if bs != [] && bs[|bs| - 1].free {
      var rest := bs[..|bs| - 1];
      assert TrimTail(rest) == rest;
    }
  }

  // ----- kmalloc and kfree keep the heap ---------------------------------------------------

  lemma {:induction false} AddrAligned(bs: seq<Block>, k: nat)
    requires Tiled(bs) && k < |bs|
    ensures bs[k].addr % 4 == 0 && HEAP_START <= bs[k].addr && bs[k].End() <= EndOf(bs)
    decreases k
  {
    if k > 0 {
      AddrAligned(bs, k - 1);
    }
    if k + 1 < |bs| {
      Ordered(bs, k, |bs| - 1);
    }
  }

  lemma EndAligned(bs: seq<Block>)
    requires Tiled(bs)
    ensures EndOf(bs) % 4 == 0 && HEAP_START <= EndOf(bs)
  {
    if bs != [] {
      AddrAligned(bs, |bs| - 1);
    }
  }

  /** A live block at payload address `ptr` with room for `n` bytes. */
  ghost predicate Holds(h: Heap, ptr: nat, n: nat) {
    exists k :: 0 <= k < |h.blocks| && LiveAt(h.blocks[k], ptr, n)
  }

  ghost predicate LiveAt(b: Block, ptr: nat, n: nat) { !b.free && b.Payload() == ptr && b.size >= n }

  /** Every block in use in `h`, except `gone`, is a block in use in `h'`, at the same place. */
  ghost predicate KeepsLive(h: Heap, h': Heap, gone: set<Block>) {
    forall b :: b in h.blocks && !b.free && b !in gone ==> b in h'.blocks
  }

  /** What no heap call touches: user memory, pages of the window mapped before and after, and the
      sum of free frames, window frames and window tables, up to evictions. */
  ghost predicate Kept(w: Window, o: Owners, w': Window, o': Owners) {
    SameDirs(o, o') && Conserved(w, w') && UserSame(w.mem, w'.mem, o) && DataSame(w, w')
  }

  ghost predicate Served(h: Heap, o: Owners, h': Heap, o': Owners, ptr: nat, n: nat) {
    && HeapInv(h', o') && Kept(h.win, o, h'.win, o') && KeepsLive(h, h', {})
    && (ptr == 0 || (Holds(h', ptr, n) && ptr % 4 == 0 && forall b :: b in h.blocks && !b.free ==> b.Payload() != ptr))
  }

  ghost predicate Servable(h: Heap, o: Owners, h': Heap, ptr: nat, n: nat) {
    exists o' :: Served(h, o, h', o', ptr, n)
  }

  ghost predicate HasFit(h: Heap, n: nat) { FirstFit(h.blocks, Align4(n), 0) < |h.blocks| }

  /** No 32-bit sum that decides the outcome wraps around. */
  ghost predicate NoWrap(h: Heap, n: nat) {
    || n == 0
    || (n + 3 < TWO_32 && (HasFit(h, n) || h.curr + Align4(n) + OVERHEAD < TWO_32))
    || (!HasFit(h, n) && (h.curr + Align4(n) + OVERHEAD) % TWO_32 > HEAP_END)
  }

  lemma AlignRounds(n: nat)
    requires 0 < n && n + 3 < TWO_32
    ensures n <= Align4(n) < n + 4 && Align4(n) % 4 == 0
  {
  }

  lemma AlignIdle(x: nat)
    requires x % 4 == 0 && x + 3 < TWO_32
    ensures Align4(x) == x
  {
  }

  /** Taking block `k` leaves every block in use where it is. */
  lemma TakeKeepsLive(bs: seq<Block>, k: nat, size: nat, b: Block)
    requires Tiled(bs) && k < |bs| && Fits(bs[k], size) && b in bs && !b.free
    ensures b in TakeBlock(bs, k, size) && b.Payload() != bs[k].Payload()
  {
    var bs' := TakeBlock(bs, k, size);
    var i :| 0 <= i < |bs| && bs[i] == b;
    if i < k {
      Ordered(bs, i, k);
      assert bs'[i] == b;
    } else {
      Ordered(bs, k, i);
      assert bs'[if |bs'| == |bs| then i else i + 1] == b;
    }
  }

  lemma Unmoved(w: Window, o: Owners)
    ensures Kept(w, o, w, o)
  {
  }

  lemma ReuseServes(h: Heap, o: Owners, n: nat)
    requires HeapInv(h, o) && 0 < n && n + 3 < TWO_32 && HasFit(h, n)
    ensures Malloc(h, n).Done? && Served(h, o, Malloc(h, n).heap, o, Malloc(h, n).ptr, n)
  {
    hide Align4, TakeBlock, Tiled, Merged, Backed, Kept, RoundUp, EnsureSpace, FirstFit;
    var size, k := Align4(n), FirstFit(h.blocks, Align4(n), 0);
    var h' := Malloc(h, n).heap;
    AlignRounds(n);
    TakeKeeps(h.blocks, k, size);
    AddrAligned(h.blocks, k);
    Unmoved(h.win, o);
    assert LiveAt(h'.blocks[k], h.blocks[k].Payload(), n);
    forall b | b in h.blocks && !b.free ensures b in h'.blocks && b.Payload() != h.blocks[k].Payload() {
      TakeKeepsLive(h.blocks, k, size, b);
    }
  }

  lemma AppendKeeps(bs: seq<Block>, size: nat)
    requires Tiled(bs) && Merged(bs) && size > 0 && size % 4 == 0
    ensures var r := bs + [Block(EndOf(bs), size, false)]; Tiled(r) && Merged(r) && EndOf(r) == EndOf(bs) + OVERHEAD + size
  {
    var r := bs + [Block(EndOf(bs), size, false)];
    forall i | 0 <= i < |r| - 1 ensures !(r[i].free && r[i + 1].free) && r[i + 1].addr == r[i].End() {
      if i + 1 < |bs| {
        assert r[i] == bs[i] && r[i + 1] == bs[i + 1];
      }
    }
  }

  /** What `kmalloc` does when it has to grow and nothing wraps. */
  lemma GrowResult(h: Heap, o: Owners, n: nat)
    requires HeapInv(h, o) && 0 < n && n + 3 < TWO_32 && !HasFit(h, n) && h.curr + Align4(n) + OVERHEAD < TWO_32
    ensures var size := Align4(n);
            var end := h.curr + size + OVERHEAD;
            Malloc(h, n) ==
            if end > HEAP_END then Done(h, 0)
            else match EnsureSpace(h.win, end)
                 case None => Halted
                 case Some(w) => Done(Heap(h.blocks + [Block(h.curr, size, false)], end, (h.inUse + size) % TWO_32, w), h.curr + OVERHEAD)
  {
    hide Tiled, Merged, Backed, EnsureSpace, RoundUp, FirstFit, Align4;
    EndAligned(h.blocks);
    AlignIdle(h.curr);
  }

  lemma GrowMapped(w: Window, o: Owners, curr: nat, end: nat) returns (o': Owners)
    requires Backed(w, o) && w.mapped == RoundUp(curr) && curr <= end <= HEAP_END && EnsureSpace(w, end).Some?
    ensures var w' := EnsureSpace(w, end).value; Backed(w', o') && Kept(w, o, w', o') && w'.mapped == RoundUp(end)
  {
    hide Backed, Conserved, UserSame, DataSame, Extends, TablesMade, NewCleared;
    o' := EnsureKeeps(w, o, end);
  }

  lemma AppendKeepsLive(bs: seq<Block>, b: Block, c: Block)
    requires Tiled(bs) && b in bs && c.addr == EndOf(bs)
    ensures b in bs + [c] && b.Payload() != c.Payload()
  {
    var i :| 0 <= i < |bs| && bs[i] == b;
    AddrAligned(bs, i);
    assert (bs + [c])[i] == b;
  }

  lemma GrowServes(h: Heap, o: Owners, n: nat) returns (o': Owners)
    requires HeapInv(h, o) && 0 < n && n + 3 < TWO_32 && !HasFit(h, n) && h.curr + Align4(n) + OVERHEAD < TWO_32
    requires Malloc(h, n).Done?
    ensures Served(h, o, Malloc(h, n).heap, o', Malloc(h, n).ptr, n)
  {
    hide Align4, HeapInv, Served, Malloc;
    GrowResult(h, o, n);
    var end := h.curr + Align4(n) + OVERHEAD;
    if end <= HEAP_END {
      o' := GrownServes(h, o, n, Malloc(h, n).heap);
    } else {
      o' := o;
      NothingServed(h, o, n);
    }
  }

  lemma GrownServes(h: Heap, o: Owners, n: nat, h': Heap) returns (o': Owners)
    requires HeapInv(h, o) && 0 < n && n + 3 < TWO_32 && h'.curr == h.curr + Align4(n) + OVERHEAD <= HEAP_END
    requires h'.blocks == h.blocks + [Block(h.curr, Align4(n), false)] && EnsureSpace(h.win, h'.curr) == Some(h'.win)
    ensures Served(h, o, h', o', h.curr + OVERHEAD, n)
  {
    hide Align4, Tiled, Merged, Backed, Kept, EnsureSpace, RoundUp;
    AlignRounds(n);
    EndAligned(h.blocks);
    o' := GrowMapped(h.win, o, h.curr, h'.curr);
    AppendKeeps(h.blocks, Align4(n));
    var c := Block(h.curr, Align4(n), false);
    assert LiveAt(h'.blocks[|h.blocks|], c.Payload(), n);
    forall b | b in h.blocks ensures b in h'.blocks && b.Payload() != c.Payload() {
      AppendKeepsLive(h.blocks, b, c);
    }
  }

  /** A served request leaves a well-formed heap, all other blocks in use where they were, memory
      outside alone, and a payload large enough; this holds exactly when no deciding sum wraps. */
  lemma MallocServesIff(h: Heap, o: Owners, n: nat)
    requires HeapInv(h, o) && n < TWO_32 && Malloc(h, n).Done?
    ensures Servable(h, o, Malloc(h, n).heap, Malloc(h, n).ptr, n) <==> NoWrap(h, n)
  {
    hide HeapInv, Served, Malloc;
    if n == 0 {
      NothingServed(h, o, n);
      assert Malloc(h, n) == Done(h, 0) by { MallocNothing(h); }
    } else if n + 3 < TWO_32 && HasFit(h, n) {
      ReuseServes(h, o, n);
    } else if n + 3 < TWO_32 && h.curr + Align4(n) + OVERHEAD < TWO_32 {
      var o' := GrowServes(h, o, n);
    } else if n + 3 < TWO_32 {
      WrappedSum(h, o, n);
    } else {
      WrappedSize(h, o, n);
    }
  }

  lemma MallocNothing(h: Heap)
    requires Shape(h.win.mem)
    ensures Malloc(h, 0) == Done(h, 0)
  {
  }

  /** The owners after a request that is served. */
  lemma MallocServed(h: Heap, o: Owners, n: nat) returns (o': Owners)
    requires HeapInv(h, o) && n < TWO_32 && NoWrap(h, n) && Malloc(h, n).Done?
    ensures Served(h, o, Malloc(h, n).heap, o', Malloc(h, n).ptr, n)
  {
    hide HeapInv, Served, Malloc, NoWrap;
    MallocServesIff(h, o, n);
    o' :| Served(h, o, Malloc(h, n).heap, o', Malloc(h, n).ptr, n);
  }

  lemma NothingServed(h: Heap, o: Owners, n: nat)
    requires HeapInv(h, o)
    ensures Served(h, o, h, o, 0, n)
  {
    Unmoved(h.win, o);
  }

  /** The end of the new block wraps: it is refused by luck, or the heap is broken. */
  lemma WrappedSum(h: Heap, o: Owners, n: nat)
    requires HeapInv(h, o) && 0 < n && n + 3 < TWO_32 && !HasFit(h, n) && h.curr + Align4(n) + OVERHEAD >= TWO_32
    requires Malloc(h, n).Done?
    ensures Servable(h, o, Malloc(h, n).heap, Malloc(h, n).ptr, n) <==> NoWrap(h, n)
  {
    hide Kept, Backed, KeepsLive, EnsureSpace;
    EndAligned(h.blocks);
    AlignIdle(h.curr);
    if NoWrap(h, n) {
      NothingServed(h, o, n);
    } else {
      var h' := Malloc(h, n).heap;
      assert h'.curr < TWO_32 <= EndOf(h'.blocks);
      assert forall o' :: !HeapInv(h', o');
    }
  }

  /** Rounding the size up wraps to 0: whatever is handed out is too small. */
  lemma WrappedSize(h: Heap, o: Owners, n: nat)
    requires HeapInv(h, o) && n < TWO_32 <= n + 3 && Malloc(h, n).Done?
    ensures Servable(h, o, Malloc(h, n).heap, Malloc(h, n).ptr, n) <==> NoWrap(h, n)
  {
    hide Kept, Backed, KeepsLive, EnsureSpace;
    assert Align4(n) == 0;
    EndAligned(h.blocks);
    AlignIdle(h.curr);
    if NoWrap(h, n) {
      NothingServed(h, o, n);
    } else if HasFit(h, n) {
      TooSmallReuse(h, o, n);
    } else {
      var h' := Malloc(h, n).heap;
      assert h'.blocks[|h.blocks|].size == 0;
      assert forall o' :: !HeapInv(h', o');
    }
  }

  lemma TooSmallReuse(h: Heap, o: Owners, n: nat)
    requires HeapInv(h, o) && n < TWO_32 <= n + 3 && HasFit(h, n)
    ensures !Servable(h, o, Malloc(h, n).heap, Malloc(h, n).ptr, n)
  {
    hide Kept, Backed, KeepsLive;
    assert Align4(n) == 0;
    var k := FirstFit(h.blocks, 0, 0);
    var h' := Malloc(h, n).heap;
    if h.blocks[k].size > OVERHEAD + MIN_SPLIT {
      assert h'.blocks[k].size == 0;
      assert forall o' :: !HeapInv(h', o');
    } else {
      AddrAligned(h.blocks, k);
      forall i: nat | i < |h'.blocks| ensures !LiveAt(h'.blocks[i], h.blocks[k].Payload(), n) {
        if i < k {
          Ordered(h.blocks, i, k);
        } else if i > k {
          Ordered(h.blocks, k, i);
        }
      }
      assert !Holds(h', h.blocks[k].Payload(), n);
    }
  }

  /** The largest request there is, on an empty heap: it is granted, and nothing fits in it. */
  lemma LargestRequestFails(h: Heap, o: Owners)
    requires HeapInv(h, o) && h.blocks == [] && EnsureSpace(h.win, HEAP_START + OVERHEAD).Some?
    ensures var r := Malloc(h, TWO_32 - 1);
            && r.Done? && r.ptr == HEAP_START + OVERHEAD && r.heap.blocks == [Block(HEAP_START, 0, false)]
            && !Servable(h, o, r.heap, r.ptr, TWO_32 - 1)
  {
    hide Backed, EnsureSpace, Servable;
    assert Align4(TWO_32 - 1) == 0 && Align4(h.curr) == HEAP_START;
    assert !NoWrap(h, TWO_32 - 1);
    MallocServesIff(h, o, TWO_32 - 1);
  }

  // ----- kfree -----------------------------------------------------------------------------

  /** Joining blocks loses no block in use. */
  lemma MergesKeepLive(bs: seq<Block>, k: nat, b: Block)
    requires k < |bs| && bs[k].free && b in bs && !b.free
    ensures b in Coalesce(bs, k)
  {
    var i :| 0 <= i < |bs| && bs[i] == b;
    var r := MergeNext(bs, k);
    var i' := if |r| == |bs| || i < k then i else i - 1;
    assert r[i'] == b && r[k].free;
    var s := MergePrev(r, k);
    assert s[if |s| == |r| || i' < k then i' else i' - 1] == b;
  }

  lemma TrimKeepsLive(bs: seq<Block>, b: Block)
    requires b in bs && !b.free
    ensures b in TrimTail(bs)
  {
    if bs[|bs| - 1].free {
      assert b in bs[..|bs| - 1];
      TrimKeepsLive(bs[..|bs| - 1], b);
    }
  }

  lemma PageAligned(x: nat)
    requires x <= HEAP_END
    ensures AlignPage(x) == RoundUp(x) && RoundUp(x) % PAGE == 0 && x <= RoundUp(x)
  {
  }

  lemma RoundUpMonotone(x: nat, y: nat)
    requires x <= y
    ensures RoundUp(x) <= RoundUp(y)
  {
  }

  /** The list that `kfree` of block `k` leaves. */
  ghost function FreedList(bs: seq<Block>, k: nat): seq<Block>
    requires k < |bs|
  {
    TrimTail(Coalesce(bs[k := bs[k].(free := true)], k))
  }

  lemma FreedListKeeps(bs: seq<Block>, k: nat)
    requires Tiled(bs) && Merged(bs) && k < |bs| && !bs[k].free
    ensures Tiled(FreedList(bs, k)) && Merged(FreedList(bs, k)) && HEAP_START <= EndOf(FreedList(bs, k)) <= EndOf(bs)
    ensures forall b :: b in bs && !b.free && b != bs[k] ==> b in FreedList(bs, k)
  {
    hide Tiled, Merged, Coalesce, TrimTail, EndOf;
    var freed := bs[k := bs[k].(free := true)];
    CoalesceKeeps(bs, k);
    TrimKeeps(Coalesce(freed, k));
    EndAligned(FreedList(bs, k));
    forall b | b in bs && !b.free && b != bs[k] ensures b in FreedList(bs, k) {
      var i :| 0 <= i < |bs| && bs[i] == b;
      assert freed[i] == b;
      MergesKeepLive(freed, k, b);
      TrimKeepsLive(Coalesce(freed, k), b);
    }
  }

  /** `kfree` leaves a well-formed heap, every other block in use where it was and memory outside
      alone, and frees exactly the frames behind the pages it drops. */
  lemma FreeKeeps(h: Heap, o: Owners, k: nat) returns (o': Owners)
    requires HeapInv(h, o) && k < |h.blocks|
    ensures var h' := FreeBlock(h, k);
            && HeapInv(h', o') && Kept(h.win, o, h'.win, o') && KeepsLive(h, h', {h.blocks[k]})
            && (forall f: nat :: f in h'.win.mem.free <==> f in h.win.mem.free || BacksFrom(h.win, h'.win.mapped, f))
  {
    hide Tiled, Merged, Backed, Conserved, UserSame, DataSame, Coalesce, TrimTail, AlignPage, RoundUp, ReleasePages, Extends, BacksFrom;
    if h.blocks[k].free {
      o' := o;
      Unmoved(h.win, o);
      NothingAbove(h.win);
    } else {
      FreedListKeeps(h.blocks, k);
      var end := EndOf(FreedList(h.blocks, k));
      PageAligned(end);
      PageAligned(HEAP_START);
      RoundUpMonotone(HEAP_START, end);
      RoundUpMonotone(end, h.curr);
      o' := ReleaseKeeps(h.win, o, RoundUp(end));
    }
  }

  lemma NothingAbove(w: Window)
    ensures forall f: nat :: !BacksFrom(w, w.mapped, f)
  {
  }

  // ----- a request undone ------------------------------------------------------------------

  /** Growth for `n` bytes would need a table that is not there. */
  ghost predicate NeedsTable(h: Heap, n: nat) {
    !HasFit(h, n) && !TablesReady(h.win, h.curr + Align4(n) + OVERHEAD)
  }

  /** Freeing what was just allocated restores the block list, the end of the heap and of the
      window; it restores the free frames and swap slots exactly when no table was missing; and it
      leaves the byte counter low by the size of the block when that was reused, not added. */
  lemma FreeUndoesMalloc(h: Heap, o: Owners, n: nat)
    requires HeapInv(h, o) && 0 < n && n + 3 < TWO_32 && (HasFit(h, n) || h.curr + Align4(n) + OVERHEAD < TWO_32) && h.inUse < TWO_32
    requires Malloc(h, n).Done? && Malloc(h, n).ptr != 0
    ensures var k := FirstFit(h.blocks, Align4(n), 0);
            var h1 := Malloc(h, n).heap;
            && k < |h1.blocks| && h1.blocks[k].Payload() == Malloc(h, n).ptr
            && var h2 := FreeBlock(h1, k);
               && h2.blocks == h.blocks && h2.curr == h.curr && h2.win.mapped == h.win.mapped
               && h2.inUse == (if HasFit(h, n) then (h.inUse - h1.blocks[k].size) % TWO_32 else h.inUse)
               && (h2.win.mem.free == h.win.mem.free && h2.win.mem.slots == h.win.mem.slots <==> !NeedsTable(h, n))
  {
    hide Align4, Tiled, Merged, Backed, TakeBlock, Coalesce, TrimTail, AlignPage, RoundUp, FirstFit, TablesReady;
    var k := FirstFit(h.blocks, Align4(n), 0);
    AlignRounds(n);
    if HasFit(h, n) {
      UndoReuse(h.blocks, k, Align4(n));
      UndoWindow(h, o);
    } else {
      UndoGrow(h, o, n);
    }
  }

  /** Joining a taken block with its remainder gives the old list back, and nothing is trimmed. */
  lemma UndoReuse(bs: seq<Block>, k: nat, size: nat)
    requires Tiled(bs) && Merged(bs) && k < |bs| && Fits(bs[k], size) && size > 0 && size % 4 == 0
    ensures var r := TakeBlock(bs, k, size);
            k < |r| && !r[k].free && r[k].addr == bs[k].addr && Coalesce(r[k := r[k].(free := true)], k) == bs && TrimTail(bs) == bs
  {
    hide Tiled, TakeBlock, MergeNext;
    assert k > 0 ==> !bs[k - 1].free;
    assert k + 1 < |bs| && !bs[k + 1].free;
    RejoinTaken(bs, k, size);
  }

  lemma RejoinTaken(bs: seq<Block>, k: nat, size: nat)
    requires k + 1 < |bs| && !bs[k + 1].free && Fits(bs[k], size)
    ensures var r := TakeBlock(bs, k, size);
            k < |r| && !r[k].free && r[k].addr == bs[k].addr && MergeNext(r[k := r[k].(free := true)], k) == bs
  {
    var r := TakeBlock(bs, k, size);
    var freed := r[k := r[k].(free := true)];
    if bs[k].size - size > OVERHEAD + MIN_SPLIT {
      assert freed[..k] == bs[..k] && freed[k + 2..] == bs[k + 1..];
      assert bs == bs[..k] + [bs[k]] + bs[k + 1..];
    } else {
      assert freed == bs;
    }
  }

  lemma UndoWindow(h: Heap, o: Owners)
    requires HeapInv(h, o)
    ensures ReleasePages(h.win, AlignPage(EndOf(h.blocks))) == h.win
  {
    PageAligned(h.curr);
  }

  lemma UndoGrow(h: Heap, o: Owners, n: nat)
    requires HeapInv(h, o) && 0 < n && n + 3 < TWO_32 && !HasFit(h, n) && h.curr + Align4(n) + OVERHEAD < TWO_32 && h.inUse < TWO_32
    requires Malloc(h, n).Done? && Malloc(h, n).ptr != 0
    ensures var h1 := Malloc(h, n).heap;
            && |h.blocks| < |h1.blocks| && h1.blocks[|h.blocks|].Payload() == Malloc(h, n).ptr
            && var h2 := FreeBlock(h1, |h.blocks|);
               && h2.blocks == h.blocks && h2.curr == h.curr && h2.win.mapped == h.win.mapped && h2.inUse == h.inUse
               && (h2.win.mem.free == h.win.mem.free && h2.win.mem.slots == h.win.mem.slots <==>
                   TablesReady(h.win, h.curr + Align4(n) + OVERHEAD))
  {
    hide Align4, Tiled, Merged, Backed, Malloc, AlignPage, EnsureSpace, TablesReady, ReleasePages, RoundUp, FirstFit, Coalesce, TrimTail;
    GrowResult(h, o, n);
    var h1 := Malloc(h, n).heap;
    var c := h1.blocks[|h.blocks|];
    var freed := h1.blocks[|h.blocks| := c.(free := true)];
    assert freed == h.blocks + [c.(free := true)];
    UndoAppend(h.blocks, c.(free := true));
    PageAligned(h.curr);
    ReleaseRestoresIff(h.win, o, h.curr + Align4(n) + OVERHEAD);
    CounterBack(h.inUse, c.size);
  }

  lemma CounterBack(x: nat, size: nat)
    requires x < TWO_32
    ensures (((x + size) % TWO_32) - size) % TWO_32 == x
  {
  }

  lemma UndoAppend(bs: seq<Block>, c: Block)
    requires Merged(bs) && c.free
    ensures Coalesce(bs + [c], |bs|) == bs + [c] && TrimTail(bs + [c]) == bs
  {
    var s := bs + [c];
    assert MergeNext(s, |bs|) == s && MergePrev(s, |bs|) == s;
    TrimLast(bs, c);
  }

  lemma TrimLast(bs: seq<Block>, c: Block)
    requires c.free && (bs != [] ==> !bs[|bs| - 1].free)
    ensures TrimTail(bs + [c]) == bs
  {
    assert (bs + [c])[..|bs|] == bs;
    assert TrimTail(bs) == bs;
  }

  /** One byte from an empty heap whose first table is missing, and back: the frames or the slots
      are not what they were. */
  lemma FirstTableIsLost(h: Heap, o: Owners)
    requires HeapInv(h, o) && h.blocks == [] && h.inUse == 0 && !TableAt(h.win.mem, FIRST_ENTRY) && Malloc(h, 1).Done?
    ensures Malloc(h, 1).ptr != 0 && |Malloc(h, 1).heap.blocks| == 1
    ensures var m := FreeBlock(Malloc(h, 1).heap, 0).win.mem; m.free != h.win.mem.free || m.slots != h.win.mem.slots
  {
    hide Backed, EnsureSpace, FreeBlock, TablesReady;
    assert Align4(1) == 4 && h.curr == HEAP_START;
    GrowResult(h, o, 1);
    FreeUndoesMalloc(h, o, 1);
    assert !TablesReady(h.win, HEAP_START + 4 + OVERHEAD) by { FirstPageNeedsTable(h.win, o); }
  }

  lemma FirstPageNeedsTable(w: Window, o: Owners)
    requires Backed(w, o) && w.mapped == HEAP_START && !TableAt(w.mem, FIRST_ENTRY)
    ensures !TablesReady(w, HEAP_START + 4 + OVERHEAD)
  {
    assert IsPage(HEAP_START, HEAP_START + 4 + OVERHEAD) && PdIndex(HEAP_START) == FIRST_ENTRY;
  }
}
