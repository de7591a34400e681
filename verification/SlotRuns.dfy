/** Swap slots over whole runs: exactly which steps lose a slot, and that a lost slot stays lost. */
module SlotRuns {
  import opened Wrappers
  import opened Pages
  import opened PhysicalFrames
  import opened SwapArea
  import opened Machines
  import opened Paging
  import opened UserMemory
  import opened AddressSpaces
  import opened SwapSlots
  import opened Cloning
  import opened CloningElsewhere
  import opened MemoryRuns

  /** Slot `s` is marked but no page of a live directory is in it. */
  ghost predicate Lost(m: Machine, o: Owners, s: nat) { s in m.slots && !Named(m, o, s) }

  ghost predicate SameLost(m: Machine, o: Owners, m': Machine, o': Owners) {
    forall s: nat :: Lost(m', o', s) <==> Lost(m, o, s)
  }

  lemma CarriedLost(m: Machine, o: Owners, m': Machine, o': Owners)
    requires CarriesNames(m, o, m', o')
    ensures SameLost(m, o, m', o')
  {
    hide Named;
  }

  lemma LostSame(m: Machine, o: Owners, o': Owners, s: nat)
    requires SameDirs(o, o')
    ensures Lost(m, o, s) <==> Lost(m, o', s)
  {
    SameNamed(m, o, o', s);
  }

  // ----- entries that are overwritten ------------------------------------------------------

  lemma SwappedIsMarked(m: Machine, o: Owners, t: nat, j: nat)
    requires Inv(m, o) && IsTable(o, t) && IsSwapped(Get(m.ram, t, j))
    ensures HoldsSlot(o, Get(m.ram, t, j).number, t, j) && Get(m.ram, t, j).number in m.slots
  {
  }

  /** Overwriting an entry by one that is not swapped takes its slot's only name. */
  lemma EntryNames(m: Machine, o: Owners, t: nat, j: nat, w: Word, s: nat)
    requires Inv(m, o) && IsTable(o, t) && j < ENTRIES && !IsSwapped(w)
    ensures Named(m.(ram := Put(m.ram, t, j, w)), o, s) <==>
            Named(m, o, s) && !(IsSwapped(Get(m.ram, t, j)) && Get(m.ram, t, j).number == s)
  {
    var m' := m.(ram := Put(m.ram, t, j, w));
    if Named(m', o, s) {
      var d: nat, i: nat, k: nat :| IsDir(o, d) && i < RECURSIVE && SwappedAt(m', d, i, k, s);
      assert Get(m'.ram, d, i) == Get(m.ram, d, i);
      var u := Get(m.ram, d, i).number;
      assert Holds(o, u, TableRole(d, i)) && (u != t || k != j);
      assert SwappedAt(m, d, i, k, s);
      SwappedIsMarked(m, o, u, k);
    }
    if Named(m, o, s) && !(IsSwapped(Get(m.ram, t, j)) && Get(m.ram, t, j).number == s) {
      var d: nat, i: nat, k: nat :| IsDir(o, d) && i < RECURSIVE && SwappedAt(m, d, i, k, s);
      assert Get(m'.ram, d, i) == Get(m.ram, d, i);
      assert Get(m.ram, d, i).number != t || k != j;
      assert SwappedAt(m', d, i, k, s);
    }
  }

  lemma SlotIsNamed(m: Machine, o: Owners, i: nat, j: nat)
    requires Inv(m, o) && i < RECURSIVE && SlotOf(m, i, j).Some?
    ensures Named(m, o, SlotOf(m, i, j).value) && SlotOf(m, i, j).value in m.slots
  {
    assert IsDir(o, m.cur) && Holds(o, Get(m.ram, m.cur, i).number, TableRole(m.cur, i));
    SwappedIsMarked(m, o, Get(m.ram, m.cur, i).number, j);
    assert SwappedAt(m, m.cur, i, j, SlotOf(m, i, j).value);
  }

  /** Unmapping a page that is on disk loses its slot, and that is all it loses. */
  lemma UnmapLost(m: Machine, o: Owners, i: nat, j: nat, s: nat)
    requires Inv(m, o) && i < RECURSIVE && j < ENTRIES
    ensures Lost(Unmap(m, i, j), o, s) <==> Lost(m, o, s) || SlotOf(m, i, j) == Some(s)
  {
    var t := Get(m.ram, m.cur, i).number;
    if Present(Get(m.ram, m.cur, i)) {
      assert IsDir(o, m.cur) && Holds(o, t, TableRole(m.cur, i));
      EntryNames(m, o, t, j, ZeroWord(), s);
    }
    if SlotOf(m, i, j).Some? {
      SlotIsNamed(m, o, i, j);
    }
  }

  /** A zeroed table entered in an empty directory entry names nothing. */
  lemma NewTableNames(m: Machine, o: Owners, d: nat, i: nat, t: UInt20, flags: Flags)
    requires Inv(m, o) && IsDir(o, d) && i < RECURSIVE && !Present(Get(m.ram, d, i)) && HandedOut(m, o, t)
    ensures KeepsNames(m, o, m.(ram := Put(m.ram, d, i, Word(t, flags))))
  {
    var m' := m.(ram := Put(m.ram, d, i, Word(t, flags)));
    assert t != d && forall k: nat :: Get(m'.ram, t, k) == ZeroWord();
    forall s: nat | Named(m, o, s) ensures Named(m', o, s) {
      var g: nat, k: nat, x: nat :| IsDir(o, g) && k < RECURSIVE && SwappedAt(m, g, k, x, s);
      assert Holds(o, Get(m.ram, g, k).number, TableRole(g, k));
      assert SwappedAt(m', g, k, x, s);
    }
    forall s: nat | Named(m', o, s) ensures Named(m, o, s) {
      var g: nat, k: nat, x: nat :| IsDir(o, g) && k < RECURSIVE && SwappedAt(m', g, k, x, s);
      assert g != d || k != i;
      assert Holds(o, Get(m.ram, g, k).number, TableRole(g, k));
      assert SwappedAt(m, g, k, x, s);
    }
  }

  /** Finding or making a table loses nothing. */
  lemma TableLost(m: Machine, o: Owners, i: nat, user: bool, s: nat)
    requires Inv(m, o) && i < RECURSIVE && NeedTable(m, i, user).Some?
    ensures Lost(NeedTable(m, i, user).value.0, o, s) <==> Lost(m, o, s)
  {
    var pde := Get(m.ram, m.cur, i);
    if Present(pde) {
      FlagNames(m, o, m.cur, i, SetUser(pde));
    } else {
      hide AllocZero;
      var (m1, t) := AllocZero(m).value;
      AllocNames(m, o);
      var o1 := AllocKeeps(m, o);
      assert IsDir(o1, m.cur) && m1.cur == m.cur && !Present(Get(m1.ram, m.cur, i)) by { assert IsDir(o, m.cur); }
      NewTableNames(m1, o1, m.cur, i, t, TableFlags(user));
      var m2 := m1.(ram := Put(m1.ram, m1.cur, i, Word(t, TableFlags(user))));
      NamesSame(m1, o1, o, m2);
      NamesTwice(m, o, m1, m2);
    }
  }

  /** Mapping over a page that is on disk loses its slot, and that is all it loses. */
  lemma MapLost(m: Machine, o: Owners, i: nat, j: nat, f: UInt20, flags: Flags, s: nat)
    requires Inv(m, o) && i < RECURSIVE && j < ENTRIES && MapPage(m, i, j, f, flags).Some?
    ensures Lost(MapPage(m, i, j, f, flags).value, o, s) <==> Lost(m, o, s) || SlotOf(m, i, j) == Some(s)
  {
    var (m1, t) := NeedTable(m, i, flags.user).value;
    TableLost(m, o, i, flags.user, s);
    var o1 := NeedTableKeeps(m, o, i, flags.user);
    assert IsTable(o1, t) && SlotAfter(m, o, m1, o1, i, j, t) by { SlotStays(m, o, m1, o1, i, j, t, flags.user); }
    EntryNames(m1, o1, t, j, Word(f, flags.(present := true)), s);
    LostSame(m1, o1, o, s);
    LostSame(MapPage(m, i, j, f, flags).value, o1, o, s);
    if SlotOf(m, i, j).Some? {
      SlotIsNamed(m, o, i, j);
    }
    SwappedMeans(m1, o1, t, j);
  }

  lemma SwappedMeans(m: Machine, o: Owners, t: nat, j: nat)
    requires Inv(m, o) && IsTable(o, t)
    ensures IsSwapped(Get(m.ram, t, j)) ==> Get(m.ram, t, j).number in m.slots
  {
  }

  /** The entry about to be overwritten is swapped exactly if the page was. */
  ghost predicate SlotAfter(m: Machine, o: Owners, m1: Machine, o1: Owners, i: nat, j: nat, t: nat) {
    && SameDirs(o, o1)
    && (SlotOf(m, i, j) == if IsSwapped(Get(m1.ram, t, j)) then Some(Get(m1.ram, t, j).number) else None)
  }

  lemma SlotStays(m: Machine, o: Owners, m1: Machine, o1: Owners, i: nat, j: nat, t: nat, user: bool)
    requires Inv(m, o) && Inv(m1, o1) && i < RECURSIVE && NeedTable(m, i, user) == Some((m1, t)) && TableMade(m, o, m1, o1, i, t)
    ensures IsTable(o1, t) && SlotAfter(m, o, m1, o1, i, j, t)
  {
    if Mapped(m, i, j) {
      assert IsDir(o, m.cur) && Holds(o, t, TableRole(m.cur, i));
      assert Get(m1.ram, t, j) == Get(m.ram, t, j);
    } else {
      StillUnmapped(m, o, m1, o1, i, j, t);
    }
  }

  // ----- faults, loads and stores ----------------------------------------------------------

  /** The bytes of a page name no slot. */
  lemma WriteNames(m: Machine, o: Owners, f: nat, p: Page)
    requires Inv(m, o) && f in o.frames && o.frames[f].PageOf?
    ensures KeepsNames(m, o, m.(ram := PutPage(m.ram, f, p)))
  {
    var m' := m.(ram := PutPage(m.ram, f, p));
    forall s: nat | Named(m, o, s) ensures Named(m', o, s) {
      var g: nat, k: nat, x: nat :| IsDir(o, g) && k < RECURSIVE && SwappedAt(m, g, k, x, s);
      assert Holds(o, Get(m.ram, g, k).number, TableRole(g, k));
      assert SwappedAt(m', g, k, x, s);
    }
    forall s: nat | Named(m', o, s) ensures Named(m, o, s) {
      var g: nat, k: nat, x: nat :| IsDir(o, g) && k < RECURSIVE && SwappedAt(m', g, k, x, s);
      assert Get(m'.ram, g, k) == Get(m.ram, g, k);
      assert Holds(o, Get(m.ram, g, k).number, TableRole(g, k));
      assert SwappedAt(m, g, k, x, s);
    }
  }

  /** Reading a page back gives its slot back and loses none. */
  lemma SwapInLost(m: Machine, o: Owners, o2: Owners, i: nat, j: nat, f: UInt20, slot: UInt20, s: nat)
    requires Inv(m.(slots := m.slots - {slot}), o2) && SameDirs(o, o2) && Holds(o2, f, PageOf(Get(m.ram, m.cur, i).number, j))
    ensures Lost(SwapIn(m, slot, f, true), o, s) <==> Lost(m, o, s) && s != slot
  {
    var x := m.(slots := m.slots - {slot});
    var m' := SwapIn(m, slot, f, true);
    WriteNames(x, o2, f, StoredPage(m.store, slot));
    var y := x.(ram := PutPage(x.ram, f, StoredPage(m.store, slot)));
    forall z: nat ensures Named(m', o, z) <==> Named(m, o, z) {
      SameNamed(m', o, o2, z);
      SameNamed(m, o, o2, z);
      RamNames(m, o2, x, z);
      RamNames(m', o2, y, z);
      RamNames(m', o2, x, z);
    }
  }

  lemma RamNames(m: Machine, o: Owners, m': Machine, s: nat)
    ensures m'.ram == m.ram ==> (Named(m, o, s) <==> Named(m', o, s))
  {
    if m'.ram == m.ram {
      assert forall d: nat, i: nat, j: nat :: SwappedAt(m, d, i, j, s) <==> SwappedAt(m', d, i, j, s);
    }
  }

  lemma FaultLost(m: Machine, o: Owners, i: nat, j: nat, user: bool, s: nat)
    requires Inv(m, o) && i < RECURSIVE && j < ENTRIES && !Mapped(m, i, j) && Fault(m, i, j, false, user, true).Some?
    ensures Lost(Fault(m, i, j, false, user, true).value, o, s) <==> Lost(m, o, s)
  {
    hide Inv, MapPage, AllocZero, Named, Untouched, SameBut, SwapIn;
    var (m1, f) := AllocZero(m).value;
    var o1 := AllocKeeps(m, o);
    AllocKeepsSlot(m, o, m1, o1, i, j);
    assert Lost(m1, o, s) <==> Lost(m, o, s) by {
      AllocNames(m, o);
      CarriedLost(m, o, m1, o);
    }
    var m2 := MapPage(m1, i, j, f, UserFlags()).value;
    MapLost(m1, o1, i, j, f, UserFlags(), s);
    assert SameDirs(o, o1) by { DirsOfUntouched(m, o, m1, o1); }
    LostSame(m1, o1, o, s);
    LostSame(m2, o1, o, s);
    var slot := SlotOf(m1, i, j);
    if slot.Some? {
      var o2 := InstallKeeps(m1, o1, i, j, f, UserFlags());
      assert Installed(m1, i, j, f, UserFlags()) == m2.(slots := m2.slots - {slot.value});
      SwapInLost(m2, o, o2, i, j, f, slot.value, s);
      assert !Lost(m1, o1, slot.value) by { SlotIsNamed(m1, o1, i, j); }
      LostSame(m1, o1, o, slot.value);
    }
  }

  lemma MarkNames(m: Machine, o: Owners, i: nat, j: nat, write: bool)
    ensures KeepsNames(m, o, Mark(m, i, j, write))
  {
    var pde := Get(m.ram, m.cur, i);
    FlagNames(m, o, m.cur, i, SetAccessed(pde));
    var m1 := m.(ram := Put(m.ram, m.cur, i, SetAccessed(pde)));
    var pte := Get(m1.ram, pde.number, j);
    FlagNames(m1, o, pde.number, j, pte.(flags := pte.flags.(accessed := true, dirty := pte.flags.dirty || write)));
    hide Named, Put;
    NamesTwice(m, o, m1, Mark(m, i, j, write));
  }

  lemma AccessLost(m: Machine, o: Owners, i: nat, j: nat, user: bool, write: bool, s: nat)
    requires Inv(m, o) && i < RECURSIVE && j < ENTRIES && Access(m, i, j, user, write).Some?
    ensures Lost(Access(m, i, j, user, write).value, o, s) <==> Lost(m, o, s)
  {
    hide Inv, Fault, Mark, Named;
    var ready := if Mapped(m, i, j) then m else Fault(m, i, j, false, user, true).value;
    if !Mapped(m, i, j) {
      FaultLost(m, o, i, j, user, s);
    }
    MarkNames(ready, o, i, j, write);
    CarriedLost(ready, o, Mark(ready, i, j, write), o);
  }

  lemma StoreLost(m: Machine, o: Owners, i: nat, j: nat, k: Index, w: Word, user: bool, s: nat)
    requires Inv(m, o) && i < USER_TABLES && j < ENTRIES && Store(m, i, j, k, w, user).Some?
    ensures Lost(Store(m, i, j, k, w, user).value, o, s) <==> Lost(m, o, s)
  {
    hide Access, Named, OnlyPage;
    AccessLost(m, o, i, j, user, true, s);
    var o1 := AccessKeeps(m, o, i, j, user, true);
    var m1 := Access(m, i, j, user, true).value;
    var f := FrameAt(m1, i, j);
    assert f in o1.frames && o1.frames[f].PageOf? by {
      assert Holds(o1, Get(m1.ram, m1.cur, i).number, UserTable(m1.cur, i));
    }
    hide Inv;
    WriteNames(m1, o1, f, SetWord(PageAt(m1.ram, f), k, w));
    CarriedLost(m1, o1, Store(m, i, j, k, w, user).value, o1);
    LostSame(m1, o1, o, s);
    LostSame(Store(m, i, j, k, w, user).value, o1, o, s);
  }

  // ----- directories -----------------------------------------------------------------------

  lemma CreateLost(m: Machine, o: Owners, o': Owners, s: nat)
    requires Inv(m, o) && Create(m).Some? && Inv(Create(m).value.0, o') && AddsDir(o, o', Create(m).value.1)
    ensures Lost(Create(m).value.0, o', s) <==> Lost(m, o, s)
  {
    hide AllocZero;
    var (m1, d) := AllocZero(m).value;
    var m' := Create(m).value.0;
    AllocNames(m, o);
    var o1 := AllocKeeps(m, o);
    assert Named(m', o', s) <==> Named(m1, o, s) by { NewDirectoryNames(m1, o, o1, d, o', s); }
    CarriedLost(m, o, m1, o);
  }

  /** The new directory names what the loaded one names in the kernel half. */
  lemma NewDirectoryNames(m: Machine, o: Owners, o1: Owners, d: UInt20, o': Owners, s: nat)
    requires Inv(m, o1) && SameDirs(o, o1) && Holds(o1, d, Kernel) && AddsDir(o, o', d)
    ensures Named(m.(ram := PutPage(m.ram, d, DirectoryPage(m, d))), o', s) <==> Named(m, o, s)
  {
    var m' := m.(ram := PutPage(m.ram, d, DirectoryPage(m, d)));
    assert forall k: nat :: k < ENTRIES ==> Get(m'.ram, d, k) == DirectoryEntry(m, d, k);
    if Named(m, o, s) {
      var g: nat, k: nat, x: nat :| IsDir(o, g) && k < RECURSIVE && SwappedAt(m, g, k, x, s);
      assert IsDir(o1, g) && Holds(o1, Get(m.ram, g, k).number, TableRole(g, k));
      assert SwappedAt(m', g, k, x, s) && IsDir(o', g);
    }
    if Named(m', o', s) {
      var g: nat, k: nat, x: nat :| IsDir(o', g) && k < RECURSIVE && SwappedAt(m', g, k, x, s);
      var g' := if g == d then m.cur else g;
      assert IsDir(o1, m.cur) && IsDir(o, g') && IsDir(o1, g');
      assert Get(m.ram, g', k) == Get(m'.ram, g, k);
      assert Holds(o1, Get(m.ram, g', k).number, TableRole(g', k));
      assert SwappedAt(m, g', k, x, s);
    }
  }

  /** Another directory reaches the table behind entry `i` of `d`. */
  ghost predicate SharedTable(m: Machine, o: Owners, d: nat, i: nat) {
    exists g: nat, k: nat :: g != d && IsDir(o, g) && k < RECURSIVE && Present(Get(m.ram, g, k)) && Get(m.ram, g, k).number == Get(m.ram, d, i).number
  }

  /** A page of `d` that only `d` reaches is in slot `s`. */
  ghost predicate OnlyIn(m: Machine, o: Owners, d: nat, s: nat) {
    exists i: nat, j: nat :: i < RECURSIVE && SwappedAt(m, d, i, j, s) && !SharedTable(m, o, d, i)
  }

  /** Destroying a directory loses exactly the slots of the pages that only it reaches. */
  lemma DestroyLost(m: Machine, o: Owners, d: nat, o': Owners, s: nat)
    requires Inv(m, o) && IsDir(o, d) && d != m.cur && forall g: nat :: IsDir(o', g) <==> IsDir(o, g) && g != d
    ensures Lost(Destroy(m, d), o', s) <==> Lost(m, o, s) || OnlyIn(m, o, d, s)
  {
    var m' := Destroy(m, d);
    forall g: nat, i: nat, j: nat ensures SwappedAt(m', g, i, j, s) <==> SwappedAt(m, g, i, j, s) {
    }
    if OnlyIn(m, o, d, s) {
      OnlyInIsLost(m, o, d, o', s);
    } else if s in m.slots && Named(m, o, s) {
      var g: nat, i: nat, j: nat :| IsDir(o, g) && i < RECURSIVE && SwappedAt(m, g, i, j, s);
      if g == d {
        assert SharedTable(m, o, d, i);
        var h: nat, k: nat :| h != d && IsDir(o, h) && k < RECURSIVE && Present(Get(m.ram, h, k)) && Get(m.ram, h, k).number == Get(m.ram, d, i).number;
        assert SwappedAt(m', h, k, j, s) && IsDir(o', h);
      } else {
        assert SwappedAt(m', g, i, j, s) && IsDir(o', g);
      }
    } else if Named(m', o', s) {
      var g: nat, i: nat, j: nat :| IsDir(o', g) && i < RECURSIVE && SwappedAt(m', g, i, j, s);
      assert IsDir(o, g) && SwappedAt(m, g, i, j, s);
    }
  }

  lemma OnlyInIsLost(m: Machine, o: Owners, d: nat, o': Owners, s: nat)
    requires Inv(m, o) && IsDir(o, d) && OnlyIn(m, o, d, s) && forall g: nat :: IsDir(o', g) <==> IsDir(o, g) && g != d
    ensures s in m.slots && !Named(m, o', s)
  {
    var i: nat, j: nat :| i < RECURSIVE && SwappedAt(m, d, i, j, s) && !SharedTable(m, o, d, i);
    var t := Get(m.ram, d, i).number;
    assert Holds(o, t, TableRole(d, i));
    SwappedIsMarked(m, o, t, j);
    forall g: nat, k: nat, x: nat | IsDir(o', g) && k < RECURSIVE ensures !SwappedAt(m, g, k, x, s) {
      if SwappedAt(m, g, k, x, s) {
        assert IsDir(o, g) && Holds(o, Get(m.ram, g, k).number, TableRole(g, k));
        SwappedIsMarked(m, o, Get(m.ram, g, k).number, x);
      }
    }
  }

  /** User tables are never shared, and a kernel half that is the loaded directory's always is: so
      destroying such a directory loses a slot exactly if one of its user pages is on disk. */
  lemma DestroyLosesIff(m: Machine, o: Owners, d: nat)
    requires Inv(m, o) && IsDir(o, d) && d != m.cur
    requires forall k: nat :: USER_TABLES <= k < RECURSIVE && Present(Get(m.ram, d, k)) ==>
               Present(Get(m.ram, m.cur, k)) && Get(m.ram, m.cur, k).number == Get(m.ram, d, k).number
    ensures (forall s: nat :: !OnlyIn(m, o, d, s)) <==> AllInMemory(m, d)
  {
    assert IsDir(o, m.cur);
    if i: nat, j: nat :| i < USER_TABLES && j < ENTRIES && SwappedIn(m, d, i, j) {
      var t := Get(m.ram, d, i).number;
      assert Holds(o, t, UserTable(d, i));
      assert !SharedTable(m, o, d, i) by { UserTableUnshared(m, o, d, i); }
      assert SwappedAt(m, d, i, j, Get(m.ram, t, j).number);
      assert OnlyIn(m, o, d, Get(m.ram, t, j).number);
    } else {
      forall s: nat, i: nat, j: nat | i < RECURSIVE && SwappedAt(m, d, i, j, s) ensures SharedTable(m, o, d, i) {
        assert i >= USER_TABLES || SwappedIn(m, d, i, j);
        assert j < ENTRIES;
      }
    }
  }

  lemma UserTableUnshared(m: Machine, o: Owners, d: nat, i: nat)
    requires Inv(m, o) && IsDir(o, d) && i < USER_TABLES && Present(Get(m.ram, d, i))
    ensures !SharedTable(m, o, d, i)
  {
    assert Holds(o, Get(m.ram, d, i).number, UserTable(d, i));
    forall g: nat, k: nat | g != d && IsDir(o, g) && k < RECURSIVE && Present(Get(m.ram, g, k))
      ensures Get(m.ram, g, k).number != Get(m.ram, d, i).number
    {
      assert Holds(o, Get(m.ram, g, k).number, TableRole(g, k));
    }
  }

  // ----- steps and runs --------------------------------------------------------------------

  /** The steps that lose slot `s`. */
  ghost predicate Loses(m: Machine, o: Owners, e: Event, s: nat) {
    match e
    case Unmapped(i, j) => SlotOf(m, i, j) == Some(s)
    case MappedFresh(i, j, _, _) => SlotOf(m, i, j) == Some(s)
    case Destroyed(d) => d != m.cur && OnlyIn(m, o, d, s)
    case _ => false
  }

  lemma FreshLost(m: Machine, o: Owners, i: nat, j: nat, flags: Flags, s: nat)
    requires Inv(m, o) && i < RECURSIVE && j < ENTRIES && MapFresh(m, i, j, flags).Some?
    ensures Lost(MapFresh(m, i, j, flags).value, o, s) <==> Lost(m, o, s) || SlotOf(m, i, j) == Some(s)
  {
    hide Inv, MapPage;
    var f: UInt20 := Lowest(m.free);
    var m0, o0 := m.(free := m.free - {f}), o.(frames := o.frames[f := Kernel]);
    TakePlain(m, o, f);
    MapLost(m0, o0, i, j, f, flags, s);
    LostSame(MapFresh(m, i, j, flags).value, o, o0, s);
    LostSame(m0, o, o0, s);
    RamNames(m, o, m0, s);
  }

  /** Owners with the directories of a view and nothing else; slots are named by directories only. */
  ghost function Holders(v: View): Owners { Owners(map d | d in v.dirs :: Directory, map[]) }

  lemma HoldersKnow(v: View, m: Machine, o: Owners)
    requires Knows(v, m, o)
    ensures SameDirs(o, Holders(v))
  {
  }

  lemma CreatedLost(m: Machine, o: Owners, v: View, d: nat, s: nat)
    requires Inv(m, o) && Knows(v, m, o) && Step(m, Created(d)).Some?
    ensures Lost(Step(m, Created(d)).value, Holders(ViewStep(v, Created(d))), s) <==> Lost(m, o, s)
  {
    var o' := CreateKeeps(m, o);
    CreateLost(m, o, o', s);
    LostSame(Step(m, Created(d)).value, o', Holders(ViewStep(v, Created(d))), s);
  }

  lemma ClonedLost(m: Machine, o: Owners, v: View, src: nat, d: nat, s: nat)
    requires Inv(m, o) && Knows(v, m, o) && Legal(m, v, Cloned(src, d)) && Step(m, Cloned(src, d)).Some?
    ensures Lost(Step(m, Cloned(src, d)).value, Holders(ViewStep(v, Cloned(src, d))), s) <==> Lost(m, o, s)
  {
    hide Inv, Clone, Named, RoomToClone;
    var o' := CloneFaithful(m, o, src);
    var m' := Step(m, Cloned(src, d)).value;
    CarriedLost(m, o, m', o');
    LostSame(m', o', Holders(ViewStep(v, Cloned(src, d))), s);
  }

  lemma SameOnlyIn(m: Machine, o: Owners, o': Owners, d: nat, s: nat)
    requires SameDirs(o, o')
    ensures OnlyIn(m, o, d, s) <==> OnlyIn(m, o', d, s)
  {
    forall i: nat ensures SharedTable(m, o, d, i) <==> SharedTable(m, o', d, i) {
      if SharedTable(m, o, d, i) {
        var g: nat, k: nat :| g != d && IsDir(o, g) && k < RECURSIVE && Present(Get(m.ram, g, k)) && Get(m.ram, g, k).number == Get(m.ram, d, i).number;
        assert IsDir(o', g);
      }
      if SharedTable(m, o', d, i) {
        var g: nat, k: nat :| g != d && IsDir(o', g) && k < RECURSIVE && Present(Get(m.ram, g, k)) && Get(m.ram, g, k).number == Get(m.ram, d, i).number;
        assert IsDir(o, g);
      }
    }
  }

  lemma DestroyedLost(m: Machine, o: Owners, v: View, d: nat, s: nat)
    requires Inv(m, o) && Knows(v, m, o) && d in v.dirs
    ensures Lost(Destroy(m, d), Holders(ViewStep(v, Destroyed(d))), s) <==> Lost(m, o, s) || (d != m.cur && OnlyIn(m, o, d, s))
  {
    if d == m.cur {
      HoldersKnow(v, m, o);
      LostSame(m, o, Holders(v), s);
    } else {
      DestroyLost(m, o, d, Holders(ViewStep(v, Destroyed(d))), s);
    }
  }

  lemma SwitchedLost(m: Machine, o: Owners, v: View, d: nat, s: nat)
    requires Knows(v, m, o)
    ensures Lost(m.(cur := d), Holders(v.(cur := d)), s) <==> Lost(m, o, s)
  {
    HoldersKnow(v, m, o);
    LostSame(m, o, Holders(v), s);
    RamNames(m, Holders(v), m.(cur := d), s);
    assert Holders(v.(cur := d)) == Holders(v);
  }

  /** A slot is lost after a step exactly if it was lost before or the step loses it. */
  lemma StepLostIff(m: Machine, o: Owners, v: View, e: Event, s: nat)
    requires Inv(m, o) && Knows(v, m, o) && Legal(m, v, e) && Step(m, e).Some?
    ensures Lost(Step(m, e).value, Holders(ViewStep(v, e)), s) <==> Lost(m, Holders(v), s) || Loses(m, Holders(v), e, s)
  {
    HoldersKnow(v, m, o);
    LostSame(m, o, Holders(v), s);
    hide Inv, Lost, Knows, SlotOf, OnlyIn, SameDirs;
    match e
    case Loaded(i, j, user) =>
      hide Access;
      AccessLost(m, o, i, j, user, false, s);
      LostSame(Step(m, e).value, o, Holders(v), s);
    case Stored(i, j, k, w, user) =>
      hide Store;
      StoreLost(m, o, i, j, k, w, user, s);
      LostSame(Step(m, e).value, o, Holders(v), s);
    case SwappedOut(i, j) =>
      hide SwapOut;
      SwapOutNames(m, o, i, j);
      CarriedLost(m, o, Step(m, e).value, o);
      LostSame(Step(m, e).value, o, Holders(v), s);
    case Unmapped(i, j) =>
      hide Unmap;
      UnmapLost(m, o, i, j, s);
      LostSame(Step(m, e).value, o, Holders(v), s);
    case MappedFresh(i, j, flags, _) =>
      hide MapFresh;
      FreshLost(m, o, i, j, flags, s);
      LostSame(Step(m, e).value, o, Holders(v), s);
    case Switched(d) => SwitchedLost(m, o, v, d, s);
    case Created(d) => CreatedLost(m, o, v, d, s);
    case Cloned(src, d) => ClonedLost(m, o, v, src, d, s);
    case Destroyed(d) =>
      DestroyedLost(m, o, v, d, s);
      SameOnlyIn(m, o, Holders(v), d, s);
  }

  /** Some step of the run loses slot `s`. */
  ghost predicate RunLoses(m: Machine, v: View, es: seq<Event>, s: nat)
    requires Shape(m)
    decreases |es|
  {
    es != [] && (Loses(m, Holders(v), es[0], s) ||
                 (Step(m, es[0]).Some? && RunLoses(Step(m, es[0]).value, ViewStep(v, es[0]), es[1..], s)))
  }

  /** Over every run, a slot ends up lost exactly if it started so or some step lost it: unmapping
      or mapping over a page on disk, and destroying the only directory that reaches one. */
  lemma {:induction false} LostRunIff(m: Machine, o: Owners, v: View, es: seq<Event>, s: nat)
    requires Inv(m, o) && Knows(v, m, o) && LegalRun(m, v, es) && Run(m, es).Some?
    ensures Lost(Run(m, es).value, Holders(ViewRun(v, es)), s) <==> Lost(m, Holders(v), s) || RunLoses(m, v, es, s)
    decreases |es|
  {
    hide Inv, Knows, Step, Legal, ViewStep, Lost, Loses;
    if es != [] {
      StepLostIff(m, o, v, es[0], s);
      var p: Plain := (d: nat, i: nat, j: nat) => Content(m, d, i, j);
      assert Agrees(m, o, p);
      var o1 := StepRefines(m, o, v, es[0], p);
      LostRunIff(Step(m, es[0]).value, o1, ViewStep(v, es[0]), es[1..], s);
    }
  }

  ghost predicate RunLosesSome(m: Machine, v: View, es: seq<Event>)
    requires Shape(m)
  {
    exists s: nat :: RunLoses(m, v, es, s)
  }

  /** So a run that starts without lost slots ends without them exactly if no step loses one. */
  lemma SlotsKeptIff(m: Machine, o: Owners, v: View, es: seq<Event>)
    requires Inv(m, o) && Knows(v, m, o) && LegalRun(m, v, es) && Run(m, es).Some? && NoLostSlots(m, o)
    ensures NoLostSlots(Run(m, es).value, Holders(ViewRun(v, es))) <==> !RunLosesSome(m, v, es)
  {
    hide Inv, Step, Legal, Loses, Named;
    HoldersKnow(v, m, o);
    forall s: nat ensures Lost(Run(m, es).value, Holders(ViewRun(v, es)), s) <==> RunLoses(m, v, es, s) {
      LostRunIff(m, o, v, es, s);
      LostSame(m, o, Holders(v), s);
    }
    var m', h := Run(m, es).value, Holders(ViewRun(v, es));
    if s: nat :| RunLoses(m, v, es, s) {
      assert Lost(m', h, s);
    } else {
      forall s | s in m'.slots ensures Named(m', h, s) {
        assert !Lost(m', h, s);
      }
    }
  }
}
