/** Which runs of the memory subsystem go on: the exact condition under which each step returns. */
module RunSupply {
  import opened Wrappers
  import opened Pages
  import opened PhysicalFrames
  import opened SwapArea
  import opened Machines
  import opened Paging
  import opened UserMemory
  import opened AddressSpaces
  import opened Cloning
  import opened CloningElsewhere
  import opened CloningSupply
  import opened CloningCost
  import opened MemorySupply
  import opened Faults
  import opened MemoryRuns

  /** Mapping a new frame takes a free one, and a second one from the supply if there is no table. */
  lemma MapFreshIff(m: Machine, o: Owners, i: nat, j: nat, flags: Flags)
    requires Inv(m, o) && i < RECURSIVE && j < ENTRIES
    ensures MapFresh(m, i, j, flags).Some? <==> m.free != {} && Spare(m) >= Needed(m, i)
  {
    hide Inv, AllocZero, Evictable;
    if m.free != {} {
      var f: UInt20 := Lowest(m.free);
      var m0, o0 := m.(free := m.free - {f}), o.(frames := o.frames[f := Kernel]);
      TakePlain(m, o, f);
      AllocSupply(m0, o0);
      assert Evictable(m0) == Evictable(m) by { SameEvictable(m, m0.free); }
      assert |m0.free| == |m.free| - 1;
    }
  }

  lemma SameEvictable(m: Machine, free: set<nat>)
    ensures Evictable(m.(free := free)) == Evictable(m)
  {
    assert Residents(m.(free := free)) == Residents(m);
  }

  ghost predicate CanAccess(m: Machine, i: nat, j: nat, user: bool, write: bool) {
    if Mapped(m, i, j) then Allowed(m, i, j, user, write)
    else (user || SlotOf(m, i, j).Some?) && Spare(m) >= Needed(m, i)
  }

  /** What a step needs: permission or a page to bring in, and frames. */
  ghost predicate Supplied(m: Machine, e: Event) {
    match e
    case Loaded(i, j, user) => CanAccess(m, i, j, user, false)
    case Stored(i, j, _, _, user) => CanAccess(m, i, j, user, true)
    case MappedFresh(i, _, _, _) => m.free != {} && Spare(m) >= Needed(m, i)
    case Created(_) => Spare(m) >= 1
    case Cloned(src, _) => src == m.cur || Spare(m) >= 1 + FramesFrom(m.ram, src, 0)
    case _ => true
  }

  /** The frames that an event records are the ones the kernel would hand out. */
  ghost predicate Recorded(m: Machine, e: Event)
    requires Shape(m)
  {
    match e
    case MappedFresh(_, _, _, p) => m.free != {} ==> PageAt(m.ram, Lowest(m.free)) == p
    case Created(d) => Create(m).Some? ==> Create(m).value.1 == d
    case Cloned(src, d) => Clone(m, src).Some? ==> Clone(m, src).value.1 == d
    case _ => true
  }

  /** A step of a run returns exactly when what it needs is there; otherwise the kernel halts. */
  lemma StepReturnsIff(m: Machine, o: Owners, v: View, e: Event)
    requires Inv(m, o) && Knows(v, m, o) && Legal(m, v, e) && Recorded(m, e)
    ensures Step(m, e).Some? <==> Supplied(m, e)
  {
    hide Inv, Access, MapFresh, Create, Clone, Spare, FramesFrom, Mapped, Needed;
    match e
    case Loaded(i, j, user) => AccessIff(m, o, i, j, user, false);
    case Stored(i, j, _, _, user) => AccessIff(m, o, i, j, user, true);
    case MappedFresh(i, j, flags, _) => MapFreshIff(m, o, i, j, flags);
    case Created(_) => CreateSucceedsIff(m, o);
    case Cloned(src, _) =>
      if src == m.cur {
        CloneUndoneIff(m, o, src);
      } else {
        CloneElsewhereSucceedsIff(m, o, src);
      }
    case _ =>
  }
}
