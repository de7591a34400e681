/** When paging operations go through: swap-outs, faults and accesses succeed exactly when the page
    and the supply of memory allow it. */
module Faults {
  import opened Wrappers
  import opened Pages
  import opened PhysicalFrames
  import opened SwapArea
  import opened Machines
  import opened Paging
  import opened UserMemory
  import opened AddressSpaces
  import opened MemorySupply

  // ----- swapping out ----------------------------------------------------------------------

  /** Entry `j` of table `t` went to slot `s`: the slot now holds the page, the entry names the slot,
      the allocator has the frame back if it was its own, and nothing else changed. */
  ghost predicate WentToSlot(m: Machine, m': Machine, t: nat, j: nat, s: nat) {
    var f := Get(m.ram, t, j).number;
    && IsSwapped(Get(m'.ram, t, j)) && Get(m'.ram, t, j).number == s
    && (forall g: nat, k: nat :: g != t || k != j ==> Get(m'.ram, g, k) == Get(m.ram, g, k))
    && s < SLOTS && s !in m.slots && m'.slots == m.slots + {s}
    && StoredPage(m'.store, s) == PageAt(m.ram, f)
    && (forall u: nat :: u != s ==> StoredPage(m'.store, u) == StoredPage(m.store, u))
    && m'.free == m.free + (if m.base <= f < |m.ram| then {f} else {})
    && m'.cur == m.cur && m'.base == m.base && m'.swapOn == m.swapOn && m'.handPd == m.handPd && m'.handPt == m.handPt
  }

  /** A swap-out succeeds exactly when the page is in memory, a disk is there and a slot is unused,
      whatever the flags of the page; it takes the least unused slot. */
  lemma SwapOutIff(m: Machine, o: Owners, i: nat, j: nat)
    requires Inv(m, o) && i < RECURSIVE && j < ENTRIES
    ensures var (m', ok) := SwapOut(m, i, j);
            && (ok <==> Mapped(m, i, j) && m.swapOn && exists s: nat :: s < SLOTS && s !in m.slots)
            && (!ok ==> m' == m)
            && (ok ==> exists s: nat :: WentToSlot(m, m', Get(m.ram, m.cur, i).number, j, s)
                                         && forall u: nat :: u < SLOTS && u !in m.slots ==> s <= u)
  {
    var (m', ok) := SwapOut(m, i, j);
    var t := Get(m.ram, m.cur, i).number;
    if s: nat :| s < SLOTS && s !in m.slots {
      assert s in UnusedSlots(m.slots);
    }
    if ok {
      assert IsTable(o, t);
      var s := Lowest(UnusedSlots(m.slots));
      assert s in UnusedSlots(m.slots);
      forall u: nat | u < SLOTS && u !in m.slots ensures s <= u {
        assert u in UnusedSlots(m.slots);
      }
      assert WentToSlot(m, m', t, j, s);
    }
  }

  // ----- faults and accesses ---------------------------------------------------------------

  /** Frames that mapping page (i, _) takes: one for the page, one for a table that is missing. */
  ghost function Needed(m: Machine, i: nat): nat { if Present(Get(m.ram, m.cur, i)) then 1 else 2 }

  /** The fault handler returns exactly when the page is on disk or a user touches an absent page,
      and the supply has the frames it takes; a slot is given back even if it could not be read. */
  lemma FaultReturnsIff(m: Machine, o: Owners, i: nat, j: nat, present: bool, user: bool, readOk: bool)
    requires Inv(m, o) && i < RECURSIVE && j < ENTRIES
    ensures Fault(m, i, j, present, user, readOk).Some? <==>
            (SlotOf(m, i, j).Some? || (!present && user)) && Spare(m) >= Needed(m, i)
    ensures Fault(m, i, j, present, user, readOk).Some? && SlotOf(m, i, j).Some? ==>
              SlotOf(m, i, j).value !in Fault(m, i, j, present, user, readOk).value.slots
  {
    hide Inv, AllocZero, Spare, HandedOut;
    AllocSupply(m, o);
    if AllocZero(m).Some? {
      var o1 := AllocKeeps(m, o);
      var (m1, f) := AllocZero(m).value;
      AllocSupply(m1, o1);
      assert Get(m1.ram, m1.cur, i) == Get(m.ram, m.cur, i) by { LoadedEntry(m, o, m1, o1, i); }
    }
  }

  lemma LoadedEntry(m: Machine, o: Owners, m1: Machine, o1: Owners, i: nat)
    requires Inv(m, o) && Untouched(m, o, m1, o1)
    ensures Get(m1.ram, m1.cur, i) == Get(m.ram, m.cur, i)
  {
    assert IsDir(o, m.cur);
  }

  /** The processor's marks on the page it went through. */
  ghost predicate Marked(m: Machine, i: nat, j: nat, write: bool) {
    EntryOf(m, i, j).flags.accessed && (write ==> EntryOf(m, i, j).flags.dirty)
  }

  /** A mapped page is accessed exactly as its protection allows. Any other page can be read and
      written once it is brought in, by the user always and by the kernel if it was on disk, as long
      as the supply has the frames for it. */
  lemma AccessIff(m: Machine, o: Owners, i: nat, j: nat, user: bool, write: bool)
    requires Inv(m, o) && i < RECURSIVE && j < ENTRIES
    ensures Access(m, i, j, user, write).Some? <==>
            if Mapped(m, i, j) then Allowed(m, i, j, user, write)
            else (user || SlotOf(m, i, j).Some?) && Spare(m) >= Needed(m, i)
    ensures Access(m, i, j, user, write).Some? ==> Marked(Access(m, i, j, user, write).value, i, j, write)
  {
    hide Inv, Fault, Spare, SameBut, Needed;
    if Mapped(m, i, j) {
      MarkMarks(m, o, i, j, write);
    } else {
      FaultReturnsIff(m, o, i, j, false, user, true);
      if Fault(m, i, j, false, user, true).Some? {
        var o1 := FaultKeeps(m, o, i, j, user, true);
        var m1 := Fault(m, i, j, false, user, true).value;
        assert Get(m1.ram, m1.cur, i).flags.writable by { LoadedWritable(m1, o1, i); }
        MarkMarks(m1, o1, i, j, write);
      }
    }
  }

  lemma LoadedWritable(m: Machine, o: Owners, i: nat)
    requires Inv(m, o) && i < RECURSIVE && Present(Get(m.ram, m.cur, i))
    ensures Get(m.ram, m.cur, i).flags.writable
  {
    assert IsDir(o, m.cur);
  }

  lemma MarkMarks(m: Machine, o: Owners, i: nat, j: nat, write: bool)
    requires Inv(m, o) && i < RECURSIVE && j < ENTRIES && Mapped(m, i, j)
    ensures Marked(Mark(m, i, j, write), i, j, write)
  {
    assert Holds(o, Get(m.ram, m.cur, i).number, TableRole(m.cur, i));
  }

  /** With two free frames, a user's access to an absent page always goes through. */
  lemma FirstTouch(m: Machine, o: Owners, i: nat, j: nat, write: bool)
    requires Inv(m, o) && i < RECURSIVE && j < ENTRIES && !Mapped(m, i, j) && |m.free| >= 2
    ensures Access(m, i, j, true, write).Some?
  {
    hide Inv, Access, Evictable;
    AccessIff(m, o, i, j, true, write);
  }

  /** A user page that goes to disk can be accessed again right away, by anybody and even if nothing
      else is free, and all of user memory is what it was. */
  lemma SwapRoundTrip(m: Machine, o: Owners, i: nat, j: nat, user: bool, write: bool)
    requires Inv(m, o) && i < USER_TABLES && j < ENTRIES && SwapOut(m, i, j).1
    ensures Access(SwapOut(m, i, j).0, i, j, user, write).Some?
    ensures var m' := Access(SwapOut(m, i, j).0, i, j, user, write).value;
            forall d: nat, i': nat, j': nat :: IsDir(o, d) && i' < USER_TABLES ==> Content(m', d, i', j') == Content(m, d, i', j')
  {
    hide Inv, Access, Evictable, SwapOut;
    var m1 := SwapOut(m, i, j).0;
    var o1 := SwapOutKeeps(m, o, i, j);
    NowOnDisk(m, o, i, j);
    AccessIff(m1, o1, i, j, user, write);
    var o2 := AccessKeeps(m1, o1, i, j, user, write);
    assert Content(m1, m.cur, i, j).Some?;
  }

  lemma NowOnDisk(m: Machine, o: Owners, i: nat, j: nat)
    requires Inv(m, o) && i < USER_TABLES && j < ENTRIES && SwapOut(m, i, j).1
    ensures var m1 := SwapOut(m, i, j).0;
            !Mapped(m1, i, j) && SlotOf(m1, i, j).Some? && Present(Get(m1.ram, m1.cur, i)) && m1.free != {} && |m1.free| >= 1
  {
    var t := Get(m.ram, m.cur, i).number;
    assert Holds(o, t, UserTable(m.cur, i)) && IsTable(o, t);
    assert Get(m.ram, t, j).number in SwapOut(m, i, j).0.free;
  }

  /** A directory can be made exactly when the supply has a frame. */
  lemma CreateSucceedsIff(m: Machine, o: Owners)
    requires Inv(m, o)
    ensures Create(m).Some? <==> Spare(m) >= 1
  {
    hide Inv, AllocZero, Spare;
    AllocSupply(m, o);
  }
}
