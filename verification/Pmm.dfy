/** Physical frame allocator: a bitmap over at most 2^20 frames with a search hint.
    The specification is the set `Free()` of frames a caller could still be given. */
module PhysicalFrames {
  import opened Bitmaps

  const FRAME_SIZE: nat := 4096
  const MAX_FRAMES: nat := 0x10_0000
  const TWO_32: nat := 0x1_0000_0000
  const TWO_64: nat := 0x1_0000_0000_0000_0000

  // ----- the boot memory map ---------------------------------------------------------------

  /** One memory-map entry: 64-bit base and length, 32-bit type (1 means usable RAM). */
  datatype Region = Region(addr: nat, len: nat, kind: nat) {
    ghost predicate Fits() { addr < TWO_64 && len < TWO_64 }

    /** The entry shares at least one byte with frame `f`, in unbounded arithmetic. */
    ghost predicate Overlaps(f: nat) {
      exists b: nat :: addr <= b < addr + len && InFrame(b, f)
    }

    ghost predicate WrapsAround() { addr + len + FRAME_SIZE - 1 >= TWO_64 }

    /** First byte past the entry, with 64-bit wrap-around. */
    function End(): nat { (addr + len) % TWO_64 }

    function FirstFrame(): nat { addr / FRAME_SIZE }

    /** Frame just past the entry, rounded up with 64-bit wrap-around. */
    function EndFrame(): nat { (addr + len + FRAME_SIZE - 1) % TWO_64 / FRAME_SIZE }

    /** The frames `release_region` walks over. */
    ghost predicate Releases(f: nat) { len != 0 && FirstFrame() <= f < EndFrame() }
  }

  ghost predicate InFrame(b: nat, f: nat) { b / FRAME_SIZE == f }

  datatype BootInfo = NoInfo | Info(memLower: nat, memUpper: nat, mmap: seq<Region>)

  function HighestEnd(mmap: seq<Region>): (m: nat)
    ensures m == 0 || exists r :: r in mmap && m == r.End()
    ensures forall r :: r in mmap ==> r.End() <= m
  {
    if mmap == [] then 0
    else
      var last := mmap[|mmap| - 1];
      var rest := HighestEnd(mmap[..|mmap| - 1]);
      assert forall r :: r in mmap ==> r in mmap[..|mmap| - 1] || r == last;
      if last.End() > rest then last.End() else rest
  }

  function AlignFrameUp(addr: nat): nat {
    (addr + FRAME_SIZE - 1) % TWO_32 / FRAME_SIZE
  }

  /** First frame that is not reserved for firmware and kernel image. */
  function BaseFrame(kernelEnd: nat): nat {
    if AlignFrameUp(kernelEnd) < AlignFrameUp(0x10_0000) then AlignFrameUp(0x10_0000) else AlignFrameUp(kernelEnd)
  }

  function Regions(boot: BootInfo): seq<Region> {
    if boot.NoInfo? then [] else boot.mmap
  }

  function MaxAddress(boot: BootInfo): nat {
    var m := HighestEnd(Regions(boot));
    if m == 0 && boot.Info? then (boot.memLower + boot.memUpper) * 1024 else m
  }

  function TotalFrames(boot: BootInfo, kernelEnd: nat): nat {
    var t := MaxAddress(boot) / FRAME_SIZE % TWO_32;
    var capped := if t > MAX_FRAMES then MAX_FRAMES else t;
    if capped < BaseFrame(kernelEnd) then BaseFrame(kernelEnd) else capped
  }

  /** What start-up releases: the type-1 entries, or the whole usable range without a map. */
  ghost predicate BootReleases(boot: BootInfo, f: nat) {
    Regions(boot) == [] || exists r :: r in Regions(boot) && r.kind == 1 && r.Releases(f)
  }

  ghost function InitialFree(boot: BootInfo, kernelEnd: nat): set<nat> {
    set f | BaseFrame(kernelEnd) <= f < TotalFrames(boot, kernelEnd) && BootReleases(boot, f)
  }

  /** A region releases exactly the frames it overlaps if and only if its rounded-up end does
      not wrap around 2^64 (an empty region releases nothing either way). */
  lemma {:induction false} ReleasesExactlyOverlap(r: Region)
    requires r.Fits()
    ensures (forall f: nat :: r.Releases(f) <==> r.Overlaps(f)) <==> r.len == 0 || !r.WrapsAround()
  {
    forall f: nat ensures r.Overlaps(f) <==> r.len != 0 && r.FirstFrame() <= f <= (r.addr + r.len - 1) / FRAME_SIZE {
      if r.len != 0 && r.FirstFrame() <= f <= (r.addr + r.len - 1) / FRAME_SIZE {
        var b := if r.addr <= f * FRAME_SIZE then f * FRAME_SIZE else r.addr;
        assert InFrame(b, f);
      }
    }
    if r.len != 0 && r.WrapsAround() {
      assert r.Overlaps((r.addr + r.len - 1) / FRAME_SIZE);
      assert !r.Releases((r.addr + r.len - 1) / FRAME_SIZE);
    }
  }

  /** Frame `f` lies wholly beyond the first MiB and the kernel image. */
  ghost predicate BeyondKernel(kernelEnd: nat, f: nat) {
    f * FRAME_SIZE >= kernelEnd && f * FRAME_SIZE >= 0x10_0000
  }

  /** The first usable frame is the least one beyond the kernel, if and only if rounding up the end
      of the kernel does not wrap around 2^32. */
  lemma BaseIsLeastIff(kernelEnd: nat)
    requires kernelEnd < TWO_32
    ensures var b := BaseFrame(kernelEnd);
            BeyondKernel(kernelEnd, b) && (forall f: nat :: BeyondKernel(kernelEnd, f) ==> b <= f) <==> kernelEnd + FRAME_SIZE - 1 < TWO_32
  {
    var b := BaseFrame(kernelEnd);
    if kernelEnd + FRAME_SIZE - 1 < TWO_32 {
      forall f: nat | BeyondKernel(kernelEnd, f) ensures b <= f {
        LeastFrame(kernelEnd, f);
        LeastFrame(0x10_0000, f);
      }
    }
  }

  lemma LeastFrame(addr: nat, f: nat)
    requires addr + FRAME_SIZE - 1 < TWO_32
    ensures addr <= f * FRAME_SIZE <==> AlignFrameUp(addr) <= f
  {
  }

  /** Memory is there up to byte `b`: some map entry ends no earlier, or, when no entry has an end,
      the two sizes that the boot loader reports say so. */
  ghost predicate MemoryUpTo(boot: BootInfo, b: nat) {
    || (exists r :: r in Regions(boot) && b <= (r.addr + r.len) % TWO_64)
    || (boot.Info? && (forall r :: r in Regions(boot) ==> (r.addr + r.len) % TWO_64 == 0) && b <= (boot.memLower + boot.memUpper) * 1024)
  }

  ghost predicate InMemory(boot: BootInfo, f: nat) { MemoryUpTo(boot, (f + 1) * FRAME_SIZE) }

  lemma MaxAddressBounds(boot: BootInfo, f: nat)
    ensures InMemory(boot, f) <==> (f + 1) * FRAME_SIZE <= MaxAddress(boot)
  {
  }

  /** The number of frames is right: no frame from the first usable one on is counted that is not in
      memory, and, up to 2^20, all that are in memory are. */
  ghost predicate CountsMemory(boot: BootInfo, kernelEnd: nat) {
    forall f: nat :: f >= BaseFrame(kernelEnd) ==> CountsFrame(boot, kernelEnd, f)
  }

  ghost predicate CountsFrame(boot: BootInfo, kernelEnd: nat, f: nat) {
    f < TotalFrames(boot, kernelEnd) <==> f < MAX_FRAMES && InMemory(boot, f)
  }

  /** Cutting `t` frames to 32 bits does no harm. */
  ghost predicate CutIsHarmless(t: nat) { t < TWO_32 || t % TWO_32 >= MAX_FRAMES }

  /** It is, if and only if cutting it to 32 bits does no harm. */
  lemma TotalCountsMemoryIff(boot: BootInfo, kernelEnd: nat)
    requires kernelEnd < TWO_32
    ensures CountsMemory(boot, kernelEnd) <==> CutIsHarmless(MaxAddress(boot) / FRAME_SIZE)
  {
    hide CutIsHarmless, CountsFrame, MaxAddress;
    var t := MaxAddress(boot) / FRAME_SIZE;
    forall f: nat | f >= BaseFrame(kernelEnd) && CutIsHarmless(t)
      ensures CountsFrame(boot, kernelEnd, f)
    {
      FrameCounted(boot, kernelEnd, f);
    }
    if !CutIsHarmless(t) {
      LastFrameMissed(boot, kernelEnd, MAX_FRAMES - 1);
    }
  }

  lemma FrameCounted(boot: BootInfo, kernelEnd: nat, f: nat)
    requires f >= BaseFrame(kernelEnd) && CutIsHarmless(MaxAddress(boot) / FRAME_SIZE)
    ensures CountsFrame(boot, kernelEnd, f)
  {
    hide MaxAddress, InMemory, BaseFrame;
    MaxAddressBounds(boot, f);
    FramesBelow(MaxAddress(boot), f);
    CutDown(MaxAddress(boot) / FRAME_SIZE, f);
  }

  lemma LastFrameMissed(boot: BootInfo, kernelEnd: nat, f: nat)
    requires kernelEnd < TWO_32 && f == MAX_FRAMES - 1 && !CutIsHarmless(MaxAddress(boot) / FRAME_SIZE)
    ensures BaseFrame(kernelEnd) <= f && !CountsFrame(boot, kernelEnd, f)
  {
    hide MaxAddress, InMemory;
    MaxAddressBounds(boot, f);
    FramesBelow(MaxAddress(boot), f);
  }

  lemma CutDown(t: nat, f: nat)
    requires CutIsHarmless(t)
    ensures f < MAX_FRAMES ==> (f < t % TWO_32 <==> f < t)
  {
  }

  lemma FramesBelow(top: nat, f: nat)
    ensures (f + 1) * FRAME_SIZE <= top <==> f < top / FRAME_SIZE
  {
  }

  /** No matter what is cut off, every frame that start-up frees is in memory, and beyond the kernel
      unless the end of the kernel wraps around. */
  lemma InitialFreeIsMemory(boot: BootInfo, kernelEnd: nat, f: nat)
    requires kernelEnd < TWO_32 && f in InitialFree(boot, kernelEnd)
    ensures f < MAX_FRAMES && InMemory(boot, f) && f * FRAME_SIZE >= 0x10_0000
    ensures kernelEnd + FRAME_SIZE - 1 < TWO_32 ==> f * FRAME_SIZE >= kernelEnd
  {
    hide InMemory;
    MaxAddressBounds(boot, f);
    FramesBelow(MaxAddress(boot), f);
    LeastFrame(0x10_0000, f);
    if kernelEnd + FRAME_SIZE - 1 < TWO_32 {
      LeastFrame(kernelEnd, f);
    }
  }

  /** After start-up a frame is free exactly when it lies beyond the kernel, within memory and the
      first 2^20 frames, and some type-1 entry overlaps it; without a map the last does not matter. */
  lemma InitialFreeIsOverlap(boot: BootInfo, kernelEnd: nat, f: nat)
    requires kernelEnd + FRAME_SIZE - 1 < TWO_32 && MaxAddress(boot) / FRAME_SIZE < TWO_32
    requires forall r :: r in Regions(boot) && r.kind == 1 ==> r.Fits() && !r.WrapsAround()
    ensures f in InitialFree(boot, kernelEnd) <==>
            && BeyondKernel(kernelEnd, f) && f < MAX_FRAMES && InMemory(boot, f)
            && (Regions(boot) == [] || exists r :: r in Regions(boot) && r.kind == 1 && r.Overlaps(f))
  {
    hide BootReleases, BaseFrame, TotalFrames, InMemory, BeyondKernel;
    UsableFrames(boot, kernelEnd, f);
    ReleasedFrames(boot, f);
  }

  lemma UsableFrames(boot: BootInfo, kernelEnd: nat, f: nat)
    requires kernelEnd + FRAME_SIZE - 1 < TWO_32 && MaxAddress(boot) / FRAME_SIZE < TWO_32
    ensures BaseFrame(kernelEnd) <= f < TotalFrames(boot, kernelEnd) <==> BeyondKernel(kernelEnd, f) && f < MAX_FRAMES && InMemory(boot, f)
  {
    hide MaxAddress, InMemory, TotalFrames;
    LeastFrame(kernelEnd, f);
    LeastFrame(0x10_0000, f);
    if BaseFrame(kernelEnd) <= f {
      FrameCounted(boot, kernelEnd, f);
    }
  }

  lemma ReleasedFrames(boot: BootInfo, f: nat)
    requires forall r :: r in Regions(boot) && r.kind == 1 ==> r.Fits() && !r.WrapsAround()
    ensures BootReleases(boot, f) <==> Regions(boot) == [] || exists r :: r in Regions(boot) && r.kind == 1 && r.Overlaps(f)
  {
    hide Region.Overlaps, Region.Releases;
    forall r | r in Regions(boot) && r.kind == 1 ensures r.Releases(f) <==> r.Overlaps(f) {
      ReleasesExactlyOverlap(r);
    }
  }

  lemma SameEntriesSameTotal(boot: BootInfo, boot': BootInfo, kernelEnd: nat)
    requires boot.Info? && boot'.Info?
    requires boot.memLower == boot'.memLower && boot.memUpper == boot'.memUpper
    requires forall r :: r in boot.mmap <==> r in boot'.mmap
    ensures TotalFrames(boot, kernelEnd) == TotalFrames(boot', kernelEnd)
  {
    var m, m' := HighestEnd(boot.mmap), HighestEnd(boot'.mmap);
    if m != 0 {
      var r :| r in boot.mmap && m == r.End();
      assert r in boot'.mmap && m <= m';
    }
    if m' != 0 {
      var r :| r in boot'.mmap && m' == r.End();
      assert r in boot.mmap && m' <= m;
    }
  }

  lemma SameEntriesSameReleases(boot: BootInfo, boot': BootInfo, f: nat)
    requires boot.Info? && boot'.Info?
    requires forall r :: r in boot.mmap <==> r in boot'.mmap
    ensures BootReleases(boot, f) <==> BootReleases(boot', f)
  {
    assert boot.mmap == [] || boot.mmap[0] in boot'.mmap;
    assert boot'.mmap == [] || boot'.mmap[0] in boot.mmap;
  }

  /** Neither the order of the entries nor repetitions of an entry change what is free. */
  lemma InitialFreeIgnoresOrder(boot: BootInfo, boot': BootInfo, kernelEnd: nat)
    requires boot.Info? && boot'.Info?
    requires boot.memLower == boot'.memLower && boot.memUpper == boot'.memUpper
    requires forall r :: r in boot.mmap <==> r in boot'.mmap
    ensures InitialFree(boot, kernelEnd) == InitialFree(boot', kernelEnd)
  {
    SameEntriesSameTotal(boot, boot', kernelEnd);
    forall f: nat ensures BootReleases(boot, f) <==> BootReleases(boot', f) {
      SameEntriesSameReleases(boot, boot', f);
    }
  }

  // ----- the allocator ---------------------------------------------------------------------

  /** The smallest member of a set of frames. */
  ghost function Lowest(s: set<nat>): (f: nat)
    requires s != {}
    ensures f in s && forall g :: g in s ==> f <= g
  {
    HasLowest(s);
    var f :| f in s && forall g :: g in s ==> f <= g;
    f
  }

  lemma HasLowest(s: set<nat>)
    requires s != {}
    ensures exists f :: f in s && forall g :: g in s ==> f <= g
  {
    var x :| x in s;
    if g :| g in s && g < x {
      LowestBelow(s, g);
    }
  }

  lemma {:induction false} LowestBelow(s: set<nat>, x: nat)
    requires x in s
    ensures exists f :: f in s && forall g :: g in s ==> f <= g
    decreases x
  {
    if g :| g in s && g < x {
      LowestBelow(s, g);
    }
  }

  /** Frame number behind an address handed to `pmm_free_frame`, when the call has an effect. */
  ghost function FreeTarget(addr: nat, base: nat, total: nat): set<nat> {
    if addr != 0 && base <= addr / FRAME_SIZE < total then {addr / FRAME_SIZE} else {}
  }

  class Pmm {
    const bits: Bitmap
    var base: nat
    var total: nat
    var freeFrames: nat
    var hint: nat

    ghost function Free(): set<nat>
      reads this, bits.bytes
    {
      set f | base <= f < total && f !in bits.Marked()
    }

    /** `freeFrames` counts the clear usable bits and no usable frame below the hint is free. */
    ghost predicate Valid()
      reads this, bits.bytes
    {
      && bits.Capacity() == MAX_FRAMES
      && (base == total == 0 || 256 <= base <= total <= MAX_FRAMES)
      && freeFrames == |Free()|
      && base <= hint
      && (forall f :: f in Free() ==> hint <= f)
    }

    constructor ()
      ensures Valid() && fresh(bits) && fresh(bits.bytes) && total == 0
    {
      bits := new Bitmap(MAX_FRAMES / 8);
      base, total, freeFrames, hint := 0, 0, 0, 0;
    }

    /** First clear bit of [begin, end), or `end` when there is none. */
    method Scan(begin: nat, end: nat) returns (frame: nat)
      requires bits.Capacity() == MAX_FRAMES && begin <= end <= MAX_FRAMES
      ensures begin <= frame <= end
      ensures frame < end ==> frame !in bits.Marked()
      ensures forall f :: begin <= f < frame ==> f in bits.Marked()
    {
      frame := begin;
      while frame < end && bits.Test(frame)
        invariant begin <= frame <= end
        invariant forall f :: begin <= f < frame ==> f in bits.Marked()
      {
        frame := frame + 1;
      }
    }

    /** Takes frame `f` out of the free set. */
    method Take(f: nat)
      requires Valid() && f in Free()
      modifies this`freeFrames, bits.bytes
      ensures Valid() && Free() == old(Free()) - {f}
    {
      bits.Set(f);
      assert Free() == old(Free()) - {f};
      freeFrames := freeFrames - 1;
    }

    /** Puts usable frame `f` into the free set. */
    method Give(f: nat)
      requires Valid() && base <= f < total && f !in Free()
      modifies this`freeFrames, this`hint, bits.bytes
      ensures Valid() && Free() == old(Free()) + {f}
      ensures hint == if f < old(hint) then f else old(hint)
    {
      hide Bitmap.Marked;
      bits.Clear(f);
      assert Free() == old(Free()) + {f};
      freeFrames := freeFrames + 1;
      if f < hint {
        hint := f;
      }
    }

    /** Lowest free frame, or 0 exactly when nothing is free. */
    method Alloc() returns (addr: nat)
      requires Valid()
      modifies this, bits.bytes
      ensures Valid() && base == old(base) && total == old(total)
      ensures old(Free()) == {} ==> addr == 0 && Free() == {}
      ensures old(Free()) != {} ==>
                addr == Lowest(old(Free())) * FRAME_SIZE && addr != 0 &&
                Free() == old(Free()) - {Lowest(old(Free()))}
    {
      if freeFrames == 0 || total == 0 {
        return 0;
      }
      assert Free() != {};
      ghost var best := Lowest(Free());
      var start := hint;
      assert best !in bits.Marked() && start <= best < total;
      var frame := Scan(start, total);
      assert frame <= best;
      if frame < total {
        assert frame in Free() && frame == best;
        Take(frame);
        hint := frame;
        return frame * FRAME_SIZE;
      }
      // The second pass over [base, start) is dead code: no free frame lies below the hint.
      assert false;
    }

    /** Marks one frame free; the null address, frames outside the usable range and frames
        already free change nothing. */
    method Release(addr: nat)
      requires Valid()
      modifies this, bits.bytes
      ensures Valid() && base == old(base) && total == old(total)
      ensures Free() == old(Free()) + FreeTarget(addr, base, total)
    {
      if addr == 0 {
        return;
      }
      var frame := addr / FRAME_SIZE;
      if frame < base || frame >= total {
        return;
      }
      if !bits.Test(frame) {
        assert frame in Free();
        return;
      }
      Give(frame);
    }

    method ReleaseRegion(r: Region)
      requires Valid()
      requires hint == base
      modifies this`freeFrames, this`hint, bits.bytes
      ensures Valid() && hint == base
      ensures forall f :: f in Free() <==> f in old(Free()) || (base <= f < total && r.Releases(f))
    {
      if r.len == 0 || total == 0 {
        return;
      }
      var start := r.FirstFrame();
      var end := r.EndFrame();
      if start >= end || start >= total {
        return;
      }
      if end > total {
        end := total;
      }
      for frame := start to end
        invariant Valid() && hint == base
        invariant forall f :: f in Free() <==> f in old(Free()) || (base <= f < total && start <= f < frame)
      {
        if frame >= base && bits.Test(frame) {
          Give(frame);
        }
      }
    }

    /** Largest end address of the map, 0 for an empty map. */
    static method HighestAddress(regions: seq<Region>) returns (maxAddr: nat)
      ensures maxAddr == HighestEnd(regions)
    {
      maxAddr := 0;
      for i := 0 to |regions|
        invariant maxAddr == HighestEnd(regions[..i])
      {
        assert regions[..i + 1][..i] == regions[..i];
        var entryEnd := regions[i].End();
        if entryEnd > maxAddr {
          maxAddr := entryEnd;
        }
      }
      assert regions[..|regions|] == regions;
    }

    method ProcessAvailableRegions(boot: BootInfo)
      requires Valid() && hint == base && Free() == {}
      modifies this`freeFrames, this`hint, bits.bytes
      ensures Valid()
      ensures forall f :: f in Free() <==> base <= f < total && BootReleases(boot, f)
    {
      var regions := Regions(boot);
      if regions == [] {
        var whole := Region(base * FRAME_SIZE, (total - base) * FRAME_SIZE, 1);
        ReleaseRegion(whole);
        assert forall f :: base <= f < total ==> whole.Releases(f);
        return;
      }
      for i := 0 to |regions|
        invariant Valid() && hint == base
        invariant forall f :: f in Free() <==>
                    base <= f < total && exists k :: 0 <= k < i && regions[k].kind == 1 && regions[k].Releases(f)
      {
        if regions[i].kind == 1 {
          ReleaseRegion(regions[i]);
        }
      }
    }

    /** Start-up: the free set is the specification's, whatever the map contains. */
    method Init(boot: BootInfo, kernelEnd: nat)
      requires Valid()
      modifies this, bits.bytes
      ensures Valid()
      ensures base == BaseFrame(kernelEnd) && total == TotalFrames(boot, kernelEnd)
      ensures Free() == InitialFree(boot, kernelEnd)
    {
      base := BaseFrame(kernelEnd);
      hint := base;
      var maxAddr := HighestAddress(Regions(boot));
      if maxAddr == 0 && boot.Info? {
        maxAddr := (boot.memLower + boot.memUpper) * 1024;
      }
      total := maxAddr / FRAME_SIZE % TWO_32;
      if total > MAX_FRAMES {
        total := MAX_FRAMES;
      }
      if total < base {
        total := base;
      }
      bits.Fill(true);
      freeFrames := 0;
      assert Free() == {};
      ProcessAvailableRegions(boot);
    }
  }
}
