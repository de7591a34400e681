/** Copying the loaded address space when frames run out: the allocation for a page's copy may evict
    that very page, and the copy then refers to a swap slot that is really a frame number. */
module CloningLoaded {
  import opened Wrappers
  import opened Pages
  import opened PhysicalFrames
  import opened SwapArea
  import opened Machines
  import opened Paging
  import opened UserMemory
  import opened AddressSpaces
  import opened Clock
  import opened Cloning

  // ----- the only page there is to evict ---------------------------------------------------

  lemma SweepOneDirectory(m: Machine, o: Owners, k: nat)
    requires Inv(m, o)
    ensures Get(SweepOne(m).ram, m.cur, k) == Get(m.ram, m.cur, k)
  {
    var a := Advance(m);
    AdvanceKeeps(m, o);
    if Present(UnderHand(a)) {
      ClearKeeps(a, o);
    }
  }

  lemma SweepOnePages(m: Machine, o: Owners)
    requires Inv(m, o)
    ensures |SweepOne(m).ram| == |m.ram| && SweepOne(m).base == m.base
    ensures forall f: nat :: f in o.frames && o.frames[f].PageOf? ==> PageAt(SweepOne(m).ram, f) == PageAt(m.ram, f)
  {
    var a := Advance(m);
    if Present(UnderHand(a)) {
      assert Holds(o, Get(a.ram, a.cur, a.handPd).number, UserTable(a.cur, a.handPd));
    }
  }

  lemma {:induction false} SweepResidents(m: Machine, o: Owners, n: nat)
    requires Inv(m, o)
    ensures Inv(Sweep(m, n), o) && Sweep(m, n).cur == m.cur
    ensures forall p: nat :: p < POSITIONS ==> Resident(Sweep(m, n), p) == Resident(m, p) && EntryAt(Sweep(m, n), p).number == EntryAt(m, p).number
    ensures forall k: nat :: Get(Sweep(m, n).ram, m.cur, k) == Get(m.ram, m.cur, k)
    ensures SameResources(m, Sweep(m, n)) && |Sweep(m, n).ram| == |m.ram| && Sweep(m, n).base == m.base
    ensures forall f: nat :: f in o.frames && o.frames[f].PageOf? ==> PageAt(Sweep(m, n).ram, f) == PageAt(m.ram, f)
    decreases n
  {
    hide Inv, EntryAt, Hand, SweepOne, Ahead;
    if n != 0 {
      SweepOneAt(m, o);
      forall p: nat | p < POSITIONS ensures Resident(SweepOne(m), p) == Resident(m, p) && EntryAt(SweepOne(m), p).number == EntryAt(m, p).number {
        assert Present(EntryAt(SweepOne(m), p)) == Present(EntryAt(m, p));
      }
      forall k: nat ensures Get(SweepOne(m).ram, m.cur, k) == Get(m.ram, m.cur, k) {
        SweepOneDirectory(m, o, k);
      }
      SweepOnePages(m, o);
      SweepResidents(SweepOne(m), o, n - 1);
    }
  }

  /** Page (i, j) is the only user page of the loaded directory in memory. */
  ghost predicate OnlyResident(m: Machine, i: nat, j: nat) {
    && i < USER_TABLES && j < ENTRIES && Resident(m, i * 1024 + j)
    && forall p: nat :: p < POSITIONS && Resident(m, p) ==> p == i * 1024 + j
  }

  /** The only page, (i, j), moved to the lowest slot. */
  ghost predicate MovedOnly(m: Machine, i: nat, j: nat, m': Machine) {
    var t := Get(m.ram, m.cur, i).number;
    var f := Get(m.ram, t, j).number;
    && m.base <= f < |m.ram| && |m'.ram| == |m.ram| && UnusedSlots(m.slots) != {} && |m.store| == SLOTS
    && Get(m'.ram, t, j).flags == NoFlags().(swapped := true)
    && m'.free == m.free + {f} && m'.store == m.store[Lowest(UnusedSlots(m.slots)) := PageAt(m.ram, f)]
  }

  lemma EvictedIsOnly(m: Machine, o: Owners, i: nat, j: nat, n: nat)
    requires Inv(m, o) && OnlyResident(m, i, j) && EvictsAhead(m, n, MAX_CHECKS)
    ensures MovedOnly(m, i, j, Evict(m, MAX_CHECKS).0)
  {
    hide Sweep, Evict, Inv;
    SweepResidents(m, o, n - 1);
    EvictsTheOnly(Sweep(m, n - 1), o, i, j);
    OnlyEntry(m, i, j);
    OnlyEntry(Sweep(m, n - 1), i, j);
    PageRole(m, o, i, j);
  }

  lemma OnlyEntry(m: Machine, i: nat, j: nat)
    requires i < USER_TABLES && j < ENTRIES
    ensures EntryAt(m, i * 1024 + j) == if Present(Get(m.ram, m.cur, i)) then Get(m.ram, Get(m.ram, m.cur, i).number, j) else ZeroWord()
  {
    assert (i * 1024 + j) / 1024 == i && (i * 1024 + j) % 1024 == j;
  }

  lemma PageRole(m: Machine, o: Owners, i: nat, j: nat)
    requires Inv(m, o) && i < USER_TABLES && j < ENTRIES && Resident(m, i * 1024 + j)
    ensures var t := Get(m.ram, m.cur, i).number;
            && Present(Get(m.ram, m.cur, i)) && Holds(o, t, UserTable(m.cur, i)) && Present(Get(m.ram, t, j))
            && Holds(o, Get(m.ram, t, j).number, PageOf(t, j)) && Get(m.ram, m.cur, i).flags.writable
  {
    OnlyEntry(m, i, j);
  }

  lemma EvictsTheOnly(s: Machine, o: Owners, i: nat, j: nat)
    requires Inv(s, o) && forall p: nat :: p < POSITIONS && Resident(s, p) ==> p == i * 1024 + j
    requires i < USER_TABLES && j < ENTRIES && SwapOut(Advance(s), Advance(s).handPd, Advance(s).handPt).1
    ensures MovedOnly(s, i, j, SwapOut(Advance(s), Advance(s).handPd, Advance(s).handPt).0)
  {
    var a := Advance(s);
    AdvanceKeeps(s, o);
    HandMoves(a, o);
    AdvanceAt(s, Hand(a));
    assert Resident(s, Hand(a));
    assert a.handPd == i && a.handPt == j;
    PageRole(s, o, i, j);
  }

  /** The copy of the only page begins: its own frame is handed out for it. */
  ghost predicate HandedItself(m: Machine, i: nat, j: nat, m1: Machine, f: UInt20) {
    var t := Get(m.ram, m.cur, i).number;
    && f == Get(m.ram, t, j).number && |m1.ram| == |m.ram| && UnusedSlots(m.slots) != {} && |m.store| == SLOTS && m1.cur == m.cur
    && (forall k: nat :: Get(m1.ram, m.cur, k) == Get(m.ram, m.cur, k))
    && (forall k: nat :: k != j ==> !Present(Get(m1.ram, t, k))) && Get(m1.ram, t, j).flags == NoFlags().(swapped := true)
    && m1.store == m.store[Lowest(UnusedSlots(m.slots)) := PageAt(m.ram, f)]
  }

  /** When nothing is free and the page being copied is the only one to evict, the allocation
      evicts that very page: the entry is then re-read as a swapped one. */
  lemma OnlyPageIsEvicted(m: Machine, o: Owners, i: nat, j: nat) returns (m1: Machine, f: UInt20)
    requires Inv(m, o) && m.free == {} && CanSwap(m) && OnlyResident(m, i, j)
    ensures AllocZero(m) == Some((m1, f)) && HandedItself(m, i, j, m1, f)
  {
    hide Inv, Evict, EvictsAhead, CanSwap, VictimAhead, OnlyResident, Untouched, TakeLowest;
    assert SomeResident(m) by { SomeFromOnly(m, i, j); }
    AllocSucceedsIff(m, o);
    var n := VictimExists(m, o);
    EvictIsSecondChance(m, o, n);
    EvictedIsOnly(m, o, i, j, n);
    var o1 := EvictKeeps(m, o, MAX_CHECKS);
    m1, f := AllocZero(m).value.0, AllocZero(m).value.1;
    TakenBack(m, o, Evict(m, MAX_CHECKS).0, o1, i, j);
  }

  lemma TakenBack(m: Machine, o: Owners, m1: Machine, o1: Owners, i: nat, j: nat)
    requires Inv(m, o) && Inv(m1, o1) && Untouched(m, o, m1, o1) && m.free == {} && OnlyResident(m, i, j) && MovedOnly(m, i, j, m1)
    ensures m1.free != {} && HandedItself(m, i, j, TakeLowest(m1).0, TakeLowest(m1).1)
  {
    hide Inv, Untouched, OnlyResident, SameContents;
    var t := Get(m.ram, m.cur, i).number;
    var f := Get(m.ram, t, j).number;
    SomeFromOnly(m, i, j);
    OnlyLeft(m, o, m1, o1, i, j);
    SameDirectory(m, o, m1, o1);
    assert m1.free == {f};
    assert f != t && f != m.cur;
  }

  lemma OnlyLeft(m: Machine, o: Owners, m1: Machine, o1: Owners, i: nat, j: nat)
    requires Inv(m, o) && Inv(m1, o1) && Untouched(m, o, m1, o1) && OnlyResident(m, i, j) && |m1.ram| == |m.ram|
    ensures var t := Get(m.ram, m.cur, i).number;
            (forall k: nat :: k != j ==> !Present(Get(m1.ram, t, k))) && t !in m1.free && m.cur !in m1.free
  {
    var t := Get(m.ram, m.cur, i).number;
    SomeFromOnly(m, i, j);
    PageRole(m, o, i, j);
    assert Holds(o1, t, UserTable(m.cur, i)) && IsDir(o1, m.cur);
    RolesNotFree(m1, o1, t);
    RolesNotFree(m1, o1, m.cur);
    hide Inv, SameContents, OnlyResident;
    forall k: nat | k != j ensures !Present(Get(m1.ram, t, k)) {
      if k < ENTRIES {
        NoOther(m, i, j, k);
      }
    }
  }

  lemma SameDirectory(m: Machine, o: Owners, m1: Machine, o1: Owners)
    requires Inv(m, o) && Untouched(m, o, m1, o1)
    ensures (forall k: nat :: Get(m1.ram, m.cur, k) == Get(m.ram, m.cur, k)) && m1.cur == m.cur
  {
    assert IsDir(o, m.cur);
  }

  lemma SomeFromOnly(m: Machine, i: nat, j: nat)
    requires OnlyResident(m, i, j)
    ensures SomeResident(m) && Present(Get(m.ram, m.cur, i)) && i < USER_TABLES && j < ENTRIES
  {
    assert (i * 1024 + j) / 1024 == i;
  }

  // ----- the copy of the loaded directory --------------------------------------------------

  lemma {:induction false} SkipPages(m: Machine, s: nat, t: nat, a: nat, b: nat)
    requires Shape(m) && a <= b <= ENTRIES && forall k: nat :: a <= k < b ==> !Present(Get(m.ram, s, k))
    ensures CopyPages(m, s, t, a) == CopyPages(m, s, t, b)
    decreases b - a
  {
    if a < b {
      SkipPages(m, s, t, a + 1, b);
    }
  }

  lemma {:induction false} SkipTables(m: Machine, src: nat, d: nat, a: nat, b: nat)
    requires Shape(m) && a <= b <= USER_TABLES && forall k: nat :: a <= k < b ==> !Present(Get(m.ram, src, k))
    ensures CopyTables(m, src, d, a) == CopyTables(m, src, d, b)
    decreases b - a
  {
    if a < b {
      SkipTables(m, src, d, a + 1, b);
    }
  }

  /** Page (i, j) is the only user page in memory and entry `i` the only user table. */
  ghost predicate Single(m: Machine, i: nat, j: nat) {
    OnlyResident(m, i, j) && forall k: nat :: k < USER_TABLES && k != i ==> !Present(Get(m.ram, m.cur, k))
  }

  /** Taking a free frame disturbs neither tables nor the disk. */
  lemma TakeKeepsSingle(m: Machine, o: Owners, i: nat, j: nat) returns (o': Owners)
    requires Inv(m, o) && m.free != {} && Single(m, i, j) && CanSwap(m)
    ensures var (m', f) := TakeLowest(m);
            && Inv(m', o') && Single(m', i, j) && CanSwap(m') && m'.cur == m.cur && m'.slots == m.slots && m'.store == m.store
            && |m'.ram| == |m.ram| && m'.free == m.free - {f} && f in m.free && Holds(o', f, Kernel)
            && (forall g: nat :: g !in m.free ==> PageAt(m'.ram, g) == PageAt(m.ram, g))
            && (forall k: nat :: Get(m'.ram, f, k) == ZeroWord())
  {
    o' := TakeLowestKeeps(m, o);
    var m' := TakeLowest(m).0;
    assert IsDir(o, m.cur);
    forall p: nat | p < POSITIONS ensures Resident(m', p) == Resident(m, p) {
      assert Present(Get(m.ram, m.cur, p / 1024)) ==> Holds(o, Get(m.ram, m.cur, p / 1024).number, UserTable(m.cur, p / 1024));
    }
  }

  /** The page of the only table copied with nothing free. */
  lemma CopyOnlyPage(m: Machine, o: Owners, i: nat, j: nat, t: nat) returns (m4: Machine)
    requires Inv(m, o) && m.free == {} && CanSwap(m) && Single(m, i, j) && t < |m.ram| && Holds(o, t, Kernel)
    ensures var s := Get(m.ram, m.cur, i).number;
            var f := Get(m.ram, s, j).number;
            && CopyPages(m, s, t, 0) == Some(m4) && |m4.ram| == |m.ram| && UnusedSlots(m.slots) != {} && |m.store| == SLOTS
            && (forall k: nat :: Get(m4.ram, m.cur, k) == Get(m.ram, m.cur, k))
            && Get(m4.ram, t, j) == Word(f, NoFlags().(swapped := true))
            && m4.store == m.store[Lowest(UnusedSlots(m.slots)) := PageAt(m.ram, f)]
  {
    var s := Get(m.ram, m.cur, i).number;
    SomeFromOnly(m, i, j);
    PageRole(m, o, i, j);
    assert s != t && IsDir(o, m.cur);
    var m1, f := OnlyPageIsEvicted(m, o, i, j);
    assert f != s && f != t && f != m.cur;
    assert Shape(m1) by { assert AllocZero(m).value.0 == m1; }
    hide AllocZero, Inv, CanSwap;
    forall k: nat | k < ENTRIES && k != j ensures !Present(Get(m.ram, s, k)) {
      NoOther(m, i, j, k);
    }
    SkipPages(m, s, t, 0, j);
    m4 := CopyPage(m, s, t, j).value;
    assert CopyPages(m, s, t, j) == CopyPages(m4, s, t, j + 1);
    assert forall k: nat :: Get(m4.ram, s, k) == Get(m1.ram, s, k);
    SkipPages(m4, s, t, j + 1, ENTRIES);
  }

  lemma NoOther(m: Machine, i: nat, j: nat, k: nat)
    requires OnlyResident(m, i, j) && k < ENTRIES && k != j
    ensures !Present(Get(m.ram, Get(m.ram, m.cur, i).number, k))
  {
    SomeFromOnly(m, i, j);
    OnlyEntry(m, i, k);
    assert Resident(m, i * 1024 + k) ==> i * 1024 + k == i * 1024 + j;
  }

  /** Cloning the loaded directory with frames for the directory and the table only. The copy of the
      only page is the right one exactly when the slot whose number is the page's frame happens to
      hold the same bytes, or is the slot the page was moved to. */
  lemma CloneWithoutRoomIff(m: Machine, o: Owners, i: nat, j: nat)
    requires Inv(m, o) && |m.free| == 2 && CanSwap(m) && Single(m, i, j)
    ensures Clone(m, m.cur).Some? && UnusedSlots(m.slots) != {}
    ensures var (m', d) := Clone(m, m.cur).value;
            var f := Get(m.ram, Get(m.ram, m.cur, i).number, j).number;
            && Content(m, m.cur, i, j) == Some(PageAt(m.ram, f))
            && (Content(m', d, i, j) == Content(m, m.cur, i, j) <==>
                f == Lowest(UnusedSlots(m.slots)) || StoredPage(m.store, f) == PageAt(m.ram, f))
  {
    var s := Get(m.ram, m.cur, i).number;
    var f := Get(m.ram, s, j).number;
    SomeFromOnly(m, i, j);
    PageRole(m, o, i, j);
    hide Inv, TakeLowest, CanSwap, CopyPages;
    assert m.free != {};
    var (m1, d) := TakeLowest(m);
    var o1 := TakeKeepsSingle(m, o, i, j);
    assert m1.free != {} && |m1.free - {Lowest(m1.free)}| == 0;
    var (m2, t) := TakeLowest(m1);
    var o2 := TakeKeepsSingle(m1, o1, i, j);
    OwnedStay(m, o, m1, m2, i, j);
    var m4 := CopyOnlyPage(m2, o2, i, j, t);
    CloneSteps(m, o, i, j, m1, d, m2, t, m4);
    StoredAfter(m.store, Lowest(UnusedSlots(m.slots)), PageAt(m.ram, f), f);
  }

  lemma OwnedStay(m: Machine, o: Owners, m1: Machine, m2: Machine, i: nat, j: nat)
    requires Inv(m, o) && Single(m, i, j) && m1.cur == m.cur && m2.cur == m.cur && m1.free <= m.free && |m1.ram| == |m.ram| && |m2.ram| == |m.ram|
    requires forall g: nat :: g !in m.free ==> PageAt(m1.ram, g) == PageAt(m.ram, g)
    requires forall g: nat :: g !in m1.free ==> PageAt(m2.ram, g) == PageAt(m1.ram, g)
    ensures var s := Get(m.ram, m.cur, i).number;
            var f := Get(m.ram, s, j).number;
            && (forall k: nat :: Get(m2.ram, m.cur, k) == Get(m1.ram, m.cur, k) == Get(m.ram, m.cur, k))
            && Get(m1.ram, s, j) == Get(m.ram, s, j) == Get(m2.ram, s, j) && PageAt(m2.ram, f) == PageAt(m.ram, f)
            && m.cur !in m.free && s !in m.free && f !in m.free
  {
    SomeFromOnly(m, i, j);
    PageRole(m, o, i, j);
    assert IsDir(o, m.cur);
  }

  /** Putting the pieces of the copy together. */
  lemma CloneSteps(m: Machine, o: Owners, i: nat, j: nat, m1: Machine, d: UInt20, m2: Machine, t: UInt20, m4: Machine)
    requires Shape(m) && Shape(m1) && Shape(m4) && i < USER_TABLES && j < ENTRIES && |m4.ram| == |m.ram| && d < |m.ram| && t < |m.ram|
    requires AllocZero(m) == Some((m1, d)) && AllocZero(m1) == Some((m2, t)) && d != t && m.cur != d
    requires Present(Get(m.ram, m.cur, i)) && forall k: nat :: k < USER_TABLES && k != i ==> !Present(Get(m.ram, m.cur, k))
    requires forall k: nat :: Get(m1.ram, m.cur, k) == Get(m.ram, m.cur, k) && Get(m4.ram, m.cur, k) == Get(m.ram, m.cur, k)
    requires CopyPages(m2, Get(m.ram, m.cur, i).number, t, 0) == Some(m4) && IsSwapped(Get(m4.ram, t, j))
    ensures Clone(m, m.cur).Some? && Clone(m, m.cur).value.1 == d
    ensures Content(Clone(m, m.cur).value.0, d, i, j) == Some(StoredPage(m4.store, Get(m4.ram, t, j).number))
  {
    hide AllocZero, CopyPages;
    var src := m.cur;
    SkipTables(m1, src, d, 0, i);
    var m5 := m4.(ram := Put(m4.ram, d, i, Word(t, Get(m4.ram, src, i).flags)));
    assert CopyTable(m1, src, d, i) == Some(m5);
    assert forall k: nat :: Get(m5.ram, src, k) == Get(m.ram, src, k);
    SkipTables(m5, src, d, i + 1, USER_TABLES);
    var m' := m5.(ram := PutPage(m5.ram, d, ClonedPage(m5, src, d)));
    assert Clone(m, src) == Some((m', d));
    assert Get(m'.ram, d, i) == ClonedPage(m5, src, d)[i] == Get(m5.ram, d, i);
    assert Get(m'.ram, t, j) == Get(m4.ram, t, j);
  }

  lemma StoredAfter(store: seq<Page>, s: nat, p: Page, f: nat)
    requires s < |store|
    ensures StoredPage(store[s := p], f) == p <==> f == s || StoredPage(store, f) == p
  {
  }

  /** Any non-zero page in a frame numbered beyond the swap area is lost. */
  lemma CloneLosesPage(m: Machine, o: Owners, i: nat, j: nat)
    requires Inv(m, o) && |m.free| == 2 && CanSwap(m) && Single(m, i, j)
    requires var f := Get(m.ram, Get(m.ram, m.cur, i).number, j).number; f >= SLOTS && PageAt(m.ram, f) != ZeroPage()
    ensures Clone(m, m.cur).Some?
    ensures var (m', d) := Clone(m, m.cur).value; Content(m', d, i, j) != Content(m, m.cur, i, j)
  {
    hide Clone, Content, Single, CanSwap;
    CloneWithoutRoomIff(m, o, i, j);
  }
}
