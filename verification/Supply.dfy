/** How much memory the kernel can still hand out: free frames, and user pages that can go to disk. */
module MemorySupply {
  import opened Wrappers
  import opened Pages
  import opened PhysicalFrames
  import opened SwapArea
  import opened Machines
  import opened Paging
  import opened Evictions
  import opened Clock

  /** Positions of the loaded user half whose page is in memory. */
  ghost function Residents(m: Machine): set<nat> { set p: nat | p < POSITIONS && Resident(m, p) }

  function Min(a: nat, b: nat): nat { if a <= b then a else b }

  /** Pages that can be evicted one after the other: each needs a slot. */
  ghost function Evictable(m: Machine): nat {
    if m.swapOn then Min(|Residents(m)|, |UnusedSlots(m.slots)|) else 0
  }

  ghost function Spare(m: Machine): nat { |m.free| + Evictable(m) }

  // ----- what an eviction does to the supply ------------------------------------------------

  /** Swapping out the page under the hand removes exactly its position. */
  lemma EvictedAt(m: Machine, o: Owners, p: nat)
    requires Inv(m, o) && SwapOut(m, m.handPd, m.handPt).1 && p < POSITIONS
    ensures Resident(SwapOut(m, m.handPd, m.handPt).0, p) <==> Resident(m, p) && p != Hand(m)
    ensures Resident(m, Hand(m))
  {
    HandMoves(m, o);
    var t := Get(m.ram, m.cur, m.handPd).number;
    assert Holds(o, t, UserTable(m.cur, m.handPd));
    var pde := Get(m.ram, m.cur, p / 1024);
    assert Get(SwapOut(m, m.handPd, m.handPt).0.ram, m.cur, p / 1024) == pde;
    if Present(pde) {
      assert Holds(o, pde.number, UserTable(m.cur, p / 1024));
    }
  }

  /** A turn keeps the residents, or removes one of them. */
  lemma TurnResidents(m: Machine, o: Owners) returns (p: nat)
    requires Inv(m, o)
    ensures if EvictTurn(m).1 then p in Residents(m) && Residents(EvictTurn(m).0) == Residents(m) - {p}
            else Residents(EvictTurn(m).0) == Residents(m)
  {
    hide Inv, SwapOut, EntryAt;
    var a := Advance(m);
    AdvanceKeeps(m, o);
    HandMoves(a, o);
    p := Hand(a);
    forall q: nat | q < POSITIONS ensures Resident(a, q) == Resident(m, q) {
      AdvanceAt(m, q);
    }
    if EvictTurn(m).1 {
      forall q: nat | q < POSITIONS ensures Resident(EvictTurn(m).0, q) <==> Resident(m, q) && q != p {
        EvictedAt(a, o, q);
      }
      EvictedAt(a, o, p);
    } else {
      forall q: nat | q < POSITIONS ensures Resident(EvictTurn(m).0, q) == Resident(m, q) {
        IdleTurnAt(m, o, q);
      }
    }
  }

  lemma IdleTurnAt(m: Machine, o: Owners, q: nat)
    requires Inv(m, o) && !EvictTurn(m).1 && q < POSITIONS
    ensures Resident(EvictTurn(m).0, q) == Resident(m, q)
  {
    var a := Advance(m);
    AdvanceKeeps(m, o);
    AdvanceAt(m, q);
    if Present(UnderHand(a)) && UnderHand(a).flags.accessed {
      ClearAt(a, o, q);
    }
  }

  lemma {:induction false} EvictResidents(m: Machine, o: Owners, checks: nat) returns (p: nat)
    requires Inv(m, o)
    ensures if Evict(m, checks).1 then p in Residents(m) && Residents(Evict(m, checks).0) == Residents(m) - {p}
            else Residents(Evict(m, checks).0) == Residents(m)
    decreases checks
  {
    hide Inv, EvictTurn, Residents;
    p := 0;
    if checks != 0 {
      p := TurnResidents(m, o);
      if !EvictTurn(m).1 {
        IdleTurnKeeps(m, o);
        p := EvictResidents(EvictTurn(m).0, o, checks - 1);
      }
    }
  }

  lemma {:induction false} SwitchStays(m: Machine, checks: nat)
    requires Shape(m)
    ensures Evict(m, checks).0.swapOn == m.swapOn
    decreases checks
  {
    if checks != 0 {
      SwitchStays(EvictTurn(m).0, checks - 1);
    }
  }

  lemma SomeIsResident(m: Machine)
    ensures SomeResident(m) <==> Residents(m) != {}
  {
    if SomeResident(m) {
      var p: nat :| p < POSITIONS && Resident(m, p);
      assert p in Residents(m);
    }
    if Residents(m) != {} {
      var p :| p in Residents(m);
      assert Resident(m, p);
    }
  }

  /** With nothing free, an eviction works exactly when something is evictable, and uses one up. */
  lemma EvictSupply(m: Machine, o: Owners)
    requires Inv(m, o)
    ensures Evict(m, MAX_CHECKS).1 <==> Evictable(m) > 0
    ensures Evict(m, MAX_CHECKS).1 ==>
              var m' := Evict(m, MAX_CHECKS).0; Evictable(m') == Evictable(m) - 1 && |m'.free| == |m.free| + 1
  {
    hide Inv, Evict, Residents, SomeResident, Resident, UnusedSlots;
    EvictSucceedsIff(m, o);
    SomeIsResident(m);
    if Evict(m, MAX_CHECKS).1 {
      var m' := Evict(m, MAX_CHECKS).0;
      SwitchStays(m, MAX_CHECKS) by { InvShape(m, o); }
      var p := EvictResidents(m, o, MAX_CHECKS);
      var f, s := EvictOutcome(m, o, MAX_CHECKS);
      UnusedLess(m.slots, s);
    }
  }

  lemma UnusedLess(slots: set<nat>, s: nat)
    requires s < SLOTS && s !in slots
    ensures s in UnusedSlots(slots) && UnusedSlots(slots + {s}) == UnusedSlots(slots) - {s}
  {
  }

  lemma InvShape(m: Machine, o: Owners)
    requires Inv(m, o)
    ensures Shape(m)
  {
  }

  /** The user half of the loaded directory is the same, entry by entry. */
  ghost predicate SameUserHalf(m: Machine, o: Owners, m': Machine) {
    && m'.cur == m.cur
    && (forall i: nat :: i < USER_TABLES ==> Get(m'.ram, m.cur, i) == Get(m.ram, m.cur, i))
    && (forall t: nat, j: nat :: t in o.frames && o.frames[t].UserTable? && o.frames[t].dir == m.cur ==> Get(m'.ram, t, j) == Get(m.ram, t, j))
  }

  lemma SameResidents(m: Machine, o: Owners, m': Machine)
    requires Inv(m, o) && SameUserHalf(m, o, m')
    ensures Residents(m') == Residents(m)
  {
    assert IsDir(o, m.cur);
    forall p: nat | p < POSITIONS ensures Resident(m', p) == Resident(m, p) {
      var pde := Get(m.ram, m.cur, p / 1024);
      if Present(pde) {
        assert Holds(o, pde.number, UserTable(m.cur, p / 1024));
      }
    }
  }

  lemma SameSupply(m: Machine, o: Owners, m': Machine)
    requires Inv(m, o) && SameUserHalf(m, o, m') && m'.free == m.free && m'.slots == m.slots && m'.swapOn == m.swapOn
    ensures Spare(m') == Spare(m)
  {
    hide Inv, Residents, SameUserHalf;
    SameResidents(m, o, m');
  }

  // ----- allocation --------------------------------------------------------------------------

  /** Clearing a frame that nobody holds changes no resident. */
  lemma TakeResidents(m: Machine, o: Owners)
    requires Inv(m, o) && m.free != {}
    ensures Residents(TakeLowest(m).0) == Residents(m)
  {
    var m' := TakeLowest(m).0;
    assert IsDir(o, m.cur);
    forall p: nat | p < POSITIONS ensures Resident(m', p) == Resident(m, p) {
      var pde := Get(m.ram, m.cur, p / 1024);
      assert Get(m'.ram, m.cur, p / 1024) == pde;
      if Present(pde) {
        assert Holds(o, pde.number, UserTable(m.cur, p / 1024));
      }
    }
  }

  lemma TakeSupply(m: Machine, o: Owners)
    requires Inv(m, o) && m.free != {}
    ensures Spare(TakeLowest(m).0) == Spare(m) - 1
  {
    hide Inv, Residents;
    TakeResidents(m, o);
    assert Lowest(m.free) in m.free;
  }

  /** An allocation succeeds exactly when the supply is not exhausted, and takes one from it. */
  lemma AllocSupply(m: Machine, o: Owners)
    requires Inv(m, o)
    ensures AllocZero(m).Some? <==> Spare(m) >= 1
    ensures AllocZero(m).Some? ==> Spare(AllocZero(m).value.0) == Spare(m) - 1
  {
    hide Inv, Evict, Evictable;
    if m.free != {} {
      TakeSupply(m, o);
    } else {
      EvictSupply(m, o);
      if Evict(m, MAX_CHECKS).1 {
        var o1 := EvictKeeps(m, o, MAX_CHECKS);
        TakeSupply(Evict(m, MAX_CHECKS).0, o1);
      }
    }
  }

  /** `n` allocations in a row. */
  ghost function AllocMany(m: Machine, n: nat): (r: Option<Machine>)
    requires Shape(m)
    ensures r.Some? ==> Shape(r.value)
    decreases n
  {
    if n == 0 then Some(m)
    else
      match AllocZero(m)
      case None => None
      case Some((m1, _)) => AllocMany(m1, n - 1)
  }

  /** The kernel can allocate `n` frames in a row without halting exactly when the supply has them. */
  lemma {:induction false} AllocManyIff(m: Machine, o: Owners, n: nat)
    requires Inv(m, o)
    ensures AllocMany(m, n).Some? <==> Spare(m) >= n
    decreases n
  {
    hide Inv, AllocZero, Spare, Untouched, HandedOut;
    if n != 0 {
      AllocSupply(m, o);
      if AllocZero(m).Some? {
        var o1 := AllocKeeps(m, o);
        AllocManyIff(AllocZero(m).value.0, o1, n - 1);
      }
    }
  }
}
