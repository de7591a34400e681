/** The paging operations as functions on machine states, each keeping the ownership invariant.
    `None` means that the kernel halts. */
module Paging {
  import opened Wrappers
  import opened Pages
  import opened PhysicalFrames
  import opened SwapArea
  import opened Machines

  const MAX_CHECKS: nat := 768 * 1024 * 2

  // ----- swapping a page out ---------------------------------------------------------------

  /** `paging_swap_out` on page (i, j) of the loaded directory. */
  ghost function SwapOut(m: Machine, i: nat, j: nat): (r: (Machine, bool))
    requires Shape(m)
    ensures Shape(r.0)
  {
    var pde := Get(m.ram, m.cur, i);
    if !Present(pde) || !Present(Get(m.ram, pde.number, j)) then (m, false)
    else if !m.swapOn || UnusedSlots(m.slots) == {} then (m, false)
    else (MovedOut(m, pde.number, j, Lowest(UnusedSlots(m.slots))), true)
  }

  /** What making room may not touch: contents, directory entries, kernel frames, absent entries. */
  ghost predicate Untouched(m: Machine, o: Owners, m': Machine, o': Owners) {
    && SameDirs(o, o') && KeepsRoles(o, o') && SameContents(m, m', o)
    && m'.cur == m.cur && m'.base == m.base && |m'.ram| == |m.ram| && m'.swapOn == m.swapOn
    && (forall g: nat :: Holds(o, g, Kernel) ==> PageAt(m'.ram, g) == PageAt(m.ram, g))
    && (forall d: nat, k: nat :: IsDir(o, d) ==> Get(m'.ram, d, k) == Get(m.ram, d, k))
    && (forall t: nat, k: nat :: IsTable(o, t) && !Present(Get(m.ram, t, k)) ==> Get(m'.ram, t, k) == Get(m.ram, t, k))
  }

  lemma UntouchedTwice(m0: Machine, o0: Owners, m1: Machine, o1: Owners, m2: Machine, o2: Owners)
    requires Untouched(m0, o0, m1, o1) && Untouched(m1, o1, m2, o2)
    ensures Untouched(m0, o0, m2, o2)
  {
  }

  lemma Untouchable(m: Machine, o: Owners)
    ensures Untouched(m, o, m, o)
  {
  }

  lemma SwapOutKeeps(m: Machine, o: Owners, i: nat, j: nat) returns (o': Owners)
    requires Inv(m, o) && i < RECURSIVE && j < ENTRIES
    ensures Inv(SwapOut(m, i, j).0, o') && Untouched(m, o, SwapOut(m, i, j).0, o')
    ensures !SwapOut(m, i, j).1 ==> o' == o
  {
    o' := o;
    if SwapOut(m, i, j).1 {
      o' := MovePageOut(m, o, Get(m.ram, m.cur, i).number, j, Lowest(UnusedSlots(m.slots)));
    }
  }

  // ----- the clock -------------------------------------------------------------------------

  /** The hand moved on by one slot, wrapping at the end of user space. */
  ghost function Advance(m: Machine): Machine {
    if m.handPt + 1 < ENTRIES then m.(handPt := m.handPt + 1)
    else if m.handPd + 1 < USER_TABLES then m.(handPd := m.handPd + 1, handPt := 0)
    else m.(handPd := 0, handPt := 0)
  }

  /** The entry under the hand; an empty directory entry counts as an empty entry. */
  ghost function UnderHand(m: Machine): Word {
    var pde := Get(m.ram, m.cur, m.handPd);
    if Present(pde) then Get(m.ram, pde.number, m.handPt) else ZeroWord()
  }

  ghost function ClearUnderHand(m: Machine): Machine {
    var t := Get(m.ram, m.cur, m.handPd).number;
    m.(ram := Put(m.ram, t, m.handPt, ClearAccessed(Get(m.ram, t, m.handPt))))
  }

  /** One turn of the eviction loop. */
  ghost function EvictTurn(m: Machine): (r: (Machine, bool))
    requires Shape(m)
    ensures Shape(r.0)
  {
    var a := Advance(m);
    if !Present(Get(a.ram, a.cur, a.handPd)) then (a.(handPt := ENTRIES - 1), false)
    else if !Present(UnderHand(a)) then (a, false)
    else if UnderHand(a).flags.accessed then (ClearUnderHand(a), false)
    else SwapOut(a, a.handPd, a.handPt)
  }

  /** `paging_evict_page` with `checks` turns left. */
  ghost function Evict(m: Machine, checks: nat): (r: (Machine, bool))
    requires Shape(m)
    ensures Shape(r.0)
    decreases checks
  {
    if checks == 0 then (m, false)
    else
      var (m', done) := EvictTurn(m);
      if done then (m', true) else Evict(m', checks - 1)
  }

  lemma AdvanceKeeps(m: Machine, o: Owners)
    requires Inv(m, o)
    ensures Inv(Advance(m), o)
  {
  }

  lemma ClearKeeps(m: Machine, o: Owners)
    requires Inv(m, o) && Present(UnderHand(m))
    ensures Inv(ClearUnderHand(m), o) && Untouched(m, o, ClearUnderHand(m), o)
  {
    var t := Get(m.ram, m.cur, m.handPd).number;
    FlagWrite(m, o, t, m.handPt, ClearAccessed(Get(m.ram, t, m.handPt)));
  }

  lemma EvictTurnKeeps(m: Machine, o: Owners) returns (o': Owners)
    requires Inv(m, o)
    ensures Inv(EvictTurn(m).0, o') && Untouched(m, o, EvictTurn(m).0, o')
    ensures !EvictTurn(m).1 ==> o' == o
  {
    hide Inv, Untouched, SwapOut, Advance;
    var a := Advance(m);
    HandStays(m, o);
    o' := o;
    if !Present(Get(a.ram, a.cur, a.handPd)) {
    } else if !Present(UnderHand(a)) {
    } else if UnderHand(a).flags.accessed {
      ClearKeeps(a, o);
      UntouchedTwice(m, o, a, o, EvictTurn(m).0, o');
    } else {
      o' := SwapOutKeeps(a, o, a.handPd, a.handPt);
      UntouchedTwice(m, o, a, o, EvictTurn(m).0, o');
    }
  }

  /** Moving the hand touches nothing else. */
  lemma HandStays(m: Machine, o: Owners)
    requires Inv(m, o)
    ensures var a := Advance(m);
            && Inv(a, o) && Untouched(m, o, a, o) && a.handPd < USER_TABLES && a.handPt < ENTRIES
            && Inv(a.(handPt := ENTRIES - 1), o) && Untouched(m, o, a.(handPt := ENTRIES - 1), o)
  {
    var a := Advance(m);
    assert SameContents(m, a, o) && SameContents(m, a.(handPt := ENTRIES - 1), o);
  }

  lemma {:induction false} EvictKeeps(m: Machine, o: Owners, checks: nat) returns (o': Owners)
    requires Inv(m, o)
    ensures Inv(Evict(m, checks).0, o') && Untouched(m, o, Evict(m, checks).0, o')
    decreases checks
  {
    hide Inv, Untouched, EvictTurn;
    o' := o;
    if checks == 0 {
      Untouchable(m, o);
    } else {
      o' := EvictTurnKeeps(m, o);
      if !EvictTurn(m).1 {
        var o1 := o';
        o' := EvictKeeps(EvictTurn(m).0, o1, checks - 1);
        UntouchedTwice(m, o, EvictTurn(m).0, o1, Evict(m, checks).0, o');
      }
    }
  }

  // ----- allocation ------------------------------------------------------------------------

  /** The lowest free frame, zeroed and taken. */
  ghost function TakeLowest(m: Machine): (r: (Machine, UInt20))
    requires Shape(m) && m.free != {}
    ensures Shape(r.0)
  {
    var f := Lowest(m.free);
    (m.(ram := PutPage(m.ram, f, ZeroPage()), free := m.free - {f}), f)
  }

  /** `alloc_frame_zero`: evicts a page when nothing is free, halts when that does not help. */
  ghost function AllocZero(m: Machine): (r: Option<(Machine, UInt20)>)
    requires Shape(m)
    ensures r.Some? ==> Shape(r.value.0)
  {
    if m.free != {} then Some(TakeLowest(m))
    else
      var (m', done) := Evict(m, MAX_CHECKS);
      if done && m'.free != {} then Some(TakeLowest(m')) else None
  }

  ghost predicate HandedOut(m: Machine, o: Owners, f: nat) {
    Holds(o, f, Kernel) && PageAt(m.ram, f) == ZeroPage()
  }

  lemma TakeLowestKeeps(m: Machine, o: Owners) returns (o': Owners)
    requires Inv(m, o) && m.free != {}
    ensures var (m', f) := TakeLowest(m);
            Inv(m', o') && Untouched(m, o, m', o') && HandedOut(m', o', f) && f !in o.frames
  {
    var m';
    m', o' := TakeFrame(m, o, Lowest(m.free));
  }

  lemma AllocKeeps(m: Machine, o: Owners) returns (o': Owners)
    requires Inv(m, o) && AllocZero(m).Some?
    ensures var (m', f) := AllocZero(m).value;
            Inv(m', o') && Untouched(m, o, m', o') && HandedOut(m', o', f) && !Holds(o, f, Kernel)
  {
    if m.free != {} {
      o' := TakeLowestKeeps(m, o);
    } else {
      var o1 := EvictKeeps(m, o, MAX_CHECKS);
      o' := TakeLowestKeeps(Evict(m, MAX_CHECKS).0, o1);
      UntouchedTwice(m, o, Evict(m, MAX_CHECKS).0, o1, AllocZero(m).value.0, o');
    }
  }

  // ----- tables and mappings ---------------------------------------------------------------

  /** Directory flags of a new table. */
  function TableFlags(user: bool): Flags { UserFlags().(user := user) }

  /** `get_page_table` with `create` set: the table behind directory entry `i`, made when missing. */
  ghost function NeedTable(m: Machine, i: nat, user: bool): (r: Option<(Machine, nat)>)
    requires Shape(m)
    ensures r.Some? ==> Shape(r.value.0)
  {
    var pde := Get(m.ram, m.cur, i);
    if Present(pde) then
      Some((if user && !pde.flags.user then m.(ram := Put(m.ram, m.cur, i, SetUser(pde))) else m, pde.number))
    else
      match AllocZero(m)
      case None => None
      case Some((m1, f)) =>
        Some((m1.(ram := Put(m1.ram, m1.cur, i, Word(f, TableFlags(user)))), f))
  }

  /** `paging_map` of frame `f` at page (i, j) of the loaded directory. */
  ghost function MapPage(m: Machine, i: nat, j: nat, f: UInt20, flags: Flags): (r: Option<Machine>)
    requires Shape(m)
    ensures r.Some? ==> Shape(r.value)
  {
    match NeedTable(m, i, flags.user)
    case None => None
    case Some((m1, t)) => Some(m1.(ram := Put(m1.ram, t, j, Word(f, flags.(present := true)))))
  }

  /** Finding or making a table leaves all contents, kernel frames and absent entries alone. */
  ghost predicate TableMade(m: Machine, o: Owners, m': Machine, o': Owners, i: nat, t: nat) {
    && SameDirs(o, o') && SameContents(m, m', o)
    && m'.cur == m.cur && m'.base == m.base && |m'.ram| == |m.ram| && m'.swapOn == m.swapOn
    && (forall g: nat :: Holds(o, g, Kernel) ==> Holds(o', g, Kernel) && PageAt(m'.ram, g) == PageAt(m.ram, g))
    && (forall t: nat, k: nat :: IsTable(o, t) && !Present(Get(m.ram, t, k)) ==> Get(m'.ram, t, k) == Get(m.ram, t, k))
    && (forall k: nat :: Present(Get(m.ram, m.cur, k)) ==> SameTarget(Get(m.ram, m.cur, k), Get(m'.ram, m.cur, k)))
    && Present(Get(m'.ram, m.cur, i)) && Get(m'.ram, m.cur, i).number == t && Holds(o', t, TableRole(m.cur, i))
  }

  lemma NeedTableKeeps(m: Machine, o: Owners, i: nat, user: bool) returns (o': Owners)
    requires Inv(m, o) && i < RECURSIVE && NeedTable(m, i, user).Some?
    ensures var (m', t) := NeedTable(m, i, user).value;
            && Inv(m', o') && TableMade(m, o, m', o', i, t)
            && (Get(m'.ram, m.cur, i).flags.user <==> user || (Present(Get(m.ram, m.cur, i)) && Get(m.ram, m.cur, i).flags.user))
  {
    var pde := Get(m.ram, m.cur, i);
    if Present(pde) {
      o' := o;
      if user && !pde.flags.user {
        FlagWrite(m, o, m.cur, i, SetUser(pde));
      }
    } else {
      hide AllocZero;
      var (m1, f) := AllocZero(m).value;
      var o1 := AllocKeeps(m, o);
      o' := NewTableKeeps(m, o, m1, o1, i, f, user);
    }
  }

  lemma NewTableKeeps(m: Machine, o: Owners, m1: Machine, o1: Owners, i: nat, f: UInt20, user: bool) returns (o': Owners)
    requires Inv(m, o) && Inv(m1, o1) && Untouched(m, o, m1, o1) && HandedOut(m1, o1, f) && !Holds(o, f, Kernel)
    requires i < RECURSIVE && !Present(Get(m.ram, m.cur, i))
    ensures var m' := m1.(ram := Put(m1.ram, m1.cur, i, Word(f, TableFlags(user))));
            Inv(m', o') && TableMade(m, o, m', o', i, f) && (Get(m'.ram, m.cur, i).flags.user <==> user)
  {
    var m2;
    m2, o' := LinkTable(m1, o1, m.cur, i, f, TableFlags(user));
  }

  // ----- installing a page -----------------------------------------------------------------

  /** The slot of page (i, j) of the loaded directory, if it is on disk. */
  ghost function SlotOf(m: Machine, i: nat, j: nat): Option<UInt20> {
    var pde := Get(m.ram, m.cur, i);
    if Present(pde) && IsSwapped(Get(m.ram, pde.number, j)) then Some(Get(m.ram, pde.number, j).number) else None
  }

  ghost predicate Mapped(m: Machine, i: nat, j: nat) {
    Present(Get(m.ram, m.cur, i)) && Present(Get(m.ram, Get(m.ram, m.cur, i).number, j))
  }

  ghost function DropSlot(m: Machine, slot: Option<UInt20>): Machine {
    if slot.Some? then m.(slots := m.slots - {slot.value}) else m
  }

  /** Making a table changes neither the presence nor the slot of a page that is not mapped. */
  lemma StillUnmapped(m: Machine, o: Owners, m1: Machine, o1: Owners, i: nat, j: nat, t: nat)
    requires Inv(m, o) && TableMade(m, o, m1, o1, i, t) && i < RECURSIVE && !Mapped(m, i, j)
    ensures !Present(Get(m1.ram, t, j))
    ensures SlotOf(m, i, j) == if IsSwapped(Get(m1.ram, t, j)) then Some(Get(m1.ram, t, j).number) else None
  {
    var pde := Get(m.ram, m.cur, i);
    assert Content(m1, m.cur, i, j) == Content(m, m.cur, i, j);
    if Present(pde) {
      assert IsTable(o, pde.number);
      assert SameTarget(pde, Get(m1.ram, m.cur, i));
    }
  }

  lemma SameThenBut(m: Machine, o: Owners, m1: Machine, o1: Owners, m2: Machine, t: nat, j: nat, p: Page)
    requires SameContents(m, m1, o) && SameDirs(o, o1) && SameBut(m1, m2, o1, t, j, p)
    ensures SameBut(m, m2, o, t, j, p)
  {
  }

  ghost function Installed(m: Machine, i: nat, j: nat, f: UInt20, flags: Flags): Machine
    requires Shape(m) && MapPage(m, i, j, f, flags).Some?
  {
    DropSlot(MapPage(m, i, j, f, flags).value, SlotOf(m, i, j))
  }

  ghost predicate InPlace(m: Machine, o: Owners, i: nat, j: nat, f: UInt20, flags: Flags) {
    var t := Get(m.ram, m.cur, i).number;
    && Mapped(m, i, j) && Get(m.ram, t, j) == Word(f, flags)
    && Holds(o, t, TableRole(m.cur, i)) && Holds(o, f, PageOf(t, j))
    && (flags.user ==> Get(m.ram, m.cur, i).flags.user)
  }

  /** Mapping a kernel frame where no page is mapped: that page alone changes, to the frame's bytes. */
  lemma InstallKeeps(m: Machine, o: Owners, i: nat, j: nat, f: UInt20, flags: Flags) returns (o': Owners)
    requires Inv(m, o) && i < RECURSIVE && j < ENTRIES && !Mapped(m, i, j)
    requires Holds(o, f, Kernel) && flags.present && MapPage(m, i, j, f, flags).Some?
    ensures var m' := Installed(m, i, j, f, flags);
            && Inv(m', o') && SameDirs(o, o') && InPlace(m', o', i, j, f, flags) && m'.cur == m.cur && m'.swapOn == m.swapOn
            && SameBut(m, m', o, Get(m'.ram, m.cur, i).number, j, PageAt(m.ram, f))
  {
    var (m1, t) := NeedTable(m, i, flags.user).value;
    var o1 := NeedTableKeeps(m, o, i, flags.user);
    StillUnmapped(m, o, m1, o1, i, j, t);
    o' := LinkPage(m1, o1, t, j, f, flags);
    var m2 := Linked(m1, t, j, f, flags);
    SameThenBut(m, o, m1, o1, m2, t, j, PageAt(m.ram, f));
    InstalledIsLinked(m, m1, i, j, t, f, flags);
  }

  lemma InstalledIsLinked(m: Machine, m1: Machine, i: nat, j: nat, t: nat, f: UInt20, flags: Flags)
    requires Shape(m) && NeedTable(m, i, flags.user) == Some((m1, t)) && flags.present
    requires SlotOf(m, i, j) == if IsSwapped(Get(m1.ram, t, j)) then Some(Get(m1.ram, t, j).number) else None
    ensures Installed(m, i, j, f, flags) == Linked(m1, t, j, f, flags)
  {
    assert flags.(present := true) == flags;
  }
}
