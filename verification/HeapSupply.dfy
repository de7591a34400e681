/** When the heap gets what it asks for: the exact number of frames growth takes, and the exact
    outcome of every request. */
module HeapSupply {
  import opened Wrappers
  import opened Pages
  import opened PhysicalFrames
  import opened SwapArea
  import opened Machines
  import opened Paging
  import opened Evictions
  import opened UserMemory
  import opened Clock
  import opened MemorySupply
  import opened HeapPages
  import opened HeapBlocks

  // ----- one page --------------------------------------------------------------------------

  /** Mapping where a table is takes the page's frame and nothing else. */
  lemma MapWithTable(w: Window, o: Owners)
    requires Backed(w, o) && w.mapped < HEAP_END && w.mem.free != {} && TableAt(w.mem, PdIndex(w.mapped))
    ensures MapOne(w).Some?
    ensures var m' := MapOne(w).value.mem;
            SameUserHalf(w.mem, o, m') && m'.free == w.mem.free - {Lowest(w.mem.free)} && m'.slots == w.mem.slots && m'.swapOn == w.mem.swapOn
  {
    hide Content, Guarded;
    Indices(w.mapped);
    assert IsDir(o, w.mem.cur);
    assert Machines.Holds(o, Get(w.mem.ram, w.mem.cur, PdIndex(w.mapped)).number, KernelTable);
  }

  /** Without a table and with two free frames, it takes those two. */
  lemma MapWithoutTable(w: Window, o: Owners)
    requires Backed(w, o) && w.mapped < HEAP_END && |w.mem.free| >= 2 && !TableAt(w.mem, PdIndex(w.mapped))
    ensures MapOne(w).Some?
    ensures var m' := MapOne(w).value.mem;
            SameUserHalf(w.mem, o, m') && |m'.free| == |w.mem.free| - 2 && m'.slots == w.mem.slots && m'.swapOn == w.mem.swapOn
  {
    hide Content, Guarded, Put, PutPage;
    Indices(w.mapped);
    assert IsDir(o, w.mem.cur);
    var f := Lowest(w.mem.free);
    var free1 := w.mem.free - {f};
    assert |free1| >= 1 && free1 != {};
    var t := Lowest(free1);
    assert t in free1 && f !in free1;
  }

  lemma MapWithOneFrame(w: Window, o: Owners)
    requires Backed(w, o) && w.mapped < HEAP_END && |w.mem.free| == 1 && !TableAt(w.mem, PdIndex(w.mapped))
    ensures MapOne(w).Some? <==> Evictable(w.mem) > 0
    ensures MapOne(w).Some? ==> MapOne(w).value.mem.free == {}
  {
    hide Inv, Evictable, AllocZero, Backed, Allocated;
    var f := Lowest(w.mem.free);
    var m0, o0 := Taken(w), TakenOwners(w, o);
    TakePlain(w.mem, o, f);
    assert |m0.free| == 0;
    AllocSupply(m0, o0);
    assert Evictable(m0) == Evictable(w.mem) by { TakenSupply(w); }
    if AllocZero(m0).Some? {
      LastFrameTaken(m0, o0);
    }
  }

  lemma TakenSupply(w: Window)
    requires w.mem.free != {}
    ensures Evictable(Taken(w)) == Evictable(w.mem)
  {
    assert Residents(Taken(w)) == Residents(w.mem) by {
      assert forall p: nat :: Resident(Taken(w), p) == Resident(w.mem, p);
    }
  }

  lemma LastFrameTaken(m: Machine, o: Owners)
    requires Inv(m, o) && m.free == {} && AllocZero(m).Some?
    ensures AllocZero(m).value.0.free == {}
  {
    hide Inv;
    var s := AllocOutcome(m, o);
  }

  /** The kernel halts while mapping a page exactly when no frame is free, or no table is there and
      the supply has no second frame. */
  lemma MapOneIff(w: Window, o: Owners)
    requires Backed(w, o) && w.mapped < HEAP_END
    ensures MapOne(w).Some? <==> w.mem.free != {} && (TableAt(w.mem, PdIndex(w.mapped)) || Spare(w.mem) >= 2)
    ensures MapOne(w).Some? ==>
              var m' := MapOne(w).value.mem;
              var cost := if TableAt(w.mem, PdIndex(w.mapped)) then 1 else 2;
              if |w.mem.free| >= cost then |m'.free| == |w.mem.free| - cost && Evictable(m') == Evictable(w.mem)
              else m'.free == {}
  {
    hide Backed, MapOne, SameUserHalf, Residents;
    assert Inv(w.mem, o);
    if w.mem.free == {} {
      assert MapOne(w).None? by { NoFrame(w); }
    } else {
      assert |w.mem.free| >= 1;
      assert Lowest(w.mem.free) in w.mem.free;
      if TableAt(w.mem, PdIndex(w.mapped)) {
        MapWithTable(w, o);
        SameResidents(w.mem, o, MapOne(w).value.mem);
      } else if |w.mem.free| >= 2 {
        MapWithoutTable(w, o);
        SameResidents(w.mem, o, MapOne(w).value.mem);
      } else {
        MapWithOneFrame(w, o);
      }
    }
  }

  lemma NoFrame(w: Window)
    requires Shape(w.mem) && w.mem.free == {}
    ensures MapOne(w).None?
  {
  }

  // ----- growth ----------------------------------------------------------------------------

  /** Frames that page `v` takes when pages are mapped from `start` on: the first page under a
      directory entry without a table takes one for the table too. */
  ghost function PageCost(m: Machine, start: nat, v: nat): nat {
    if !TableAt(m, PdIndex(v)) && (v == start || PtIndex(v) == 0) then 2 else 1
  }

  ghost function Cost(m: Machine, start: nat, v: nat, end: nat): nat
    decreases end - v
  {
    if v >= end then 0 else PageCost(m, start, v) + Cost(m, start, v + PAGE, end)
  }

  ghost function GrowthCost(w: Window, target: nat): nat { Cost(w.mem, w.mapped, w.mapped, target) }

  /** Enough frames are free; the very last one, if it is for a table, may come from an eviction. */
  ghost predicate Enough(w: Window, target: nat) {
    || |w.mem.free| >= GrowthCost(w, target)
    || (|w.mem.free| + 1 == GrowthCost(w, target) && Evictable(w.mem) > 0 && PageCost(w.mem, w.mapped, RoundUp(target) - PAGE) == 2)
  }

  lemma PageCostAfter(w: Window, o: Owners, w': Window, v: nat)
    requires Backed(w, o) && IsPage(w.mapped, HEAP_END) && IsPage(v, HEAP_END) && v > w.mapped && w'.mapped == w.mapped + PAGE
    requires forall i: nat :: FIRST_ENTRY <= i <= LAST_ENTRY ==> (TableAt(w'.mem, i) <==> TableAt(w.mem, i) || i == PdIndex(w.mapped))
    ensures PageCost(w'.mem, w'.mapped, v) == PageCost(w.mem, w.mapped, v)
  {
    hide Backed, TableAt;
    Indices(v);
    Indices(w.mapped);
    NextIndex(w.mapped, v);
  }

  lemma NextIndex(u: nat, v: nat)
    requires IsPage(u, HEAP_END) && IsPage(v, HEAP_END) && u < v
    ensures PdIndex(u) == PdIndex(v) ==> PtIndex(v) != 0
    ensures PdIndex(u) != PdIndex(v) && v == u + PAGE ==> PtIndex(v) == 0
  {
  }

  lemma {:induction false} CostAfter(w: Window, o: Owners, w': Window, v: nat, target: nat)
    requires Backed(w, o) && IsPage(w.mapped, HEAP_END) && w'.mapped == w.mapped + PAGE && target <= HEAP_END
    requires HEAP_START <= v && v % PAGE == 0 && v > w.mapped
    requires forall i: nat :: FIRST_ENTRY <= i <= LAST_ENTRY ==> (TableAt(w'.mem, i) <==> TableAt(w.mem, i) || i == PdIndex(w.mapped))
    ensures Cost(w'.mem, w'.mapped, v, target) == Cost(w.mem, w.mapped, v, target)
    decreases target - v
  {
    hide Backed, TableAt, PageCost;
    if v < target {
      PageCostAfter(w, o, w', v);
      assert (v + PAGE) % PAGE == 0;
      CostAfter(w, o, w', v + PAGE, target);
    }
  }

  lemma {:induction false} CostPositive(m: Machine, start: nat, v: nat, target: nat)
    ensures Cost(m, start, v, target) >= 1 <==> v < target
  {
  }

  lemma LastPage(mapped: nat, target: nat)
    requires mapped % PAGE == 0 && mapped < target
    ensures var v := RoundUp(target) - PAGE; v % PAGE == 0 && mapped <= v < target && (v == mapped <==> mapped + PAGE >= target)
  {
  }

  /** One page mapped, the rest of the growth costs what is left. */
  lemma EnoughAfter(w: Window, o: Owners, target: nat)
    requires Backed(w, o) && w.mapped < target <= HEAP_END && MapOne(w).Some?
    ensures Enough(MapOne(w).value, target) <==> Enough(w, target)
  {
    hide Backed, MapOne, TableAt, PageCost, Cost, Evictable, RoundUp, Grew, PageData, HeapTable;
    var w1 := MapOne(w).value;
    var here, last := PageCost(w.mem, w.mapped, w.mapped), RoundUp(target) - PAGE;
    WindowBounds(w, o);
    var o1 := MapOneKeeps(w, o);
    MapOneIff(w, o);
    HereCost(w);
    CostAfter(w, o, w1, w1.mapped, target);
    CostStep(w.mem, w.mapped, w.mapped, target);
    CostPositive(w1.mem, w1.mapped, w1.mapped, target);
    LastPage(w.mapped, target);
    if last != w.mapped {
      PageCostAfter(w, o, w1, last);
      LastPage(w1.mapped, target);
      CostStep(w1.mem, w1.mapped, w1.mapped, target);
      CostPositive(w1.mem, w1.mapped, w1.mapped + PAGE, target);
      HereCost(w1);
    }
  }

  lemma HereCost(w: Window)
    ensures PageCost(w.mem, w.mapped, w.mapped) == if TableAt(w.mem, PdIndex(w.mapped)) then 1 else 2
  {
  }

  lemma CostStep(m: Machine, start: nat, v: nat, target: nat)
    requires v < target
    ensures Cost(m, start, v, target) == PageCost(m, start, v) + Cost(m, start, v + PAGE, target)
  {
  }

  /** Growing the window halts the kernel exactly when frames run short of its cost. */
  lemma {:induction false} EnsureIff(w: Window, o: Owners, target: nat)
    requires Backed(w, o) && target <= HEAP_END
    ensures EnsureSpace(w, target).Some? <==> w.mapped >= target || Enough(w, target)
    decreases target - w.mapped
  {
    hide Backed, MapOne, Enough, Grew;
    if w.mapped < target {
      if MapOne(w).Some? {
        EnoughAfter(w, o, target);
        var w1 := MapOne(w).value;
        var o1 := MapOneKeeps(w, o);
        GrewBacked(w, o, w1, o1);
        EnsureIff(w1, o1, target);
        if w1.mapped >= target {
          NothingLeft(w1, target);
        }
      } else {
        NotEnough(w, o, target);
      }
    }
  }

  lemma GrewBacked(w: Window, o: Owners, w': Window, o': Owners)
    requires Grew(w, o, w', o')
    ensures Backed(w', o')
  {
  }

  lemma NothingLeft(w: Window, target: nat)
    requires w.mapped >= target
    ensures Enough(w, target)
  {
  }

  lemma NotEnough(w: Window, o: Owners, target: nat)
    requires Backed(w, o) && w.mapped < target <= HEAP_END && MapOne(w).None?
    ensures !Enough(w, target)
  {
    hide Backed, MapOne, TableAt, PageCost, Cost, Evictable, RoundUp;
    WindowBounds(w, o);
    MapOneIff(w, o);
    HereCost(w);
    CostStep(w.mem, w.mapped, w.mapped, target);
    CostPositive(w.mem, w.mapped, w.mapped + PAGE, target);
    LastPage(w.mapped, target);
  }

  // ----- requests --------------------------------------------------------------------------

  /** A request that does not wrap around gets memory exactly when it is not empty and either some
      free block is large enough or the heap can grow: its end stays in the window, and there are
      frames enough. Otherwise it gets NULL, and the kernel halts exactly for want of frames. */
  lemma MallocOutcomeIff(h: Heap, o: Owners, n: nat)
    requires HeapInv(h, o) && n + 3 < TWO_32 && (n == 0 || HasFit(h, n) || h.curr + Align4(n) + OVERHEAD < TWO_32)
    ensures var end := h.curr + Align4(n) + OVERHEAD;
            && (Malloc(h, n).Halted? <==> n != 0 && !HasFit(h, n) && end <= HEAP_END && h.win.mapped < end && !Enough(h.win, end))
            && (Malloc(h, n).Done? ==> (Malloc(h, n).ptr != 0 <==> n != 0 && (HasFit(h, n) || end <= HEAP_END)))
  {
    hide Enough, Align4, FirstFit, EnsureSpace, TakeBlock, Tiled, Merged, Backed, RoundUp;
    var end := h.curr + Align4(n) + OVERHEAD;
    if n != 0 {
      if HasFit(h, n) {
        FitPayload(h, n);
      } else {
        GrowResult(h, o, n);
        if end <= HEAP_END {
          EnsureIff(h.win, o, end);
        }
      }
    }
  }

  lemma FitPayload(h: Heap, n: nat)
    requires Shape(h.win.mem) && n != 0 && HasFit(h, n)
    ensures Malloc(h, n).Done? && Malloc(h, n).ptr != 0
  {
  }
}
