/** The heap's address window over the page tables of the loaded directory: pages are mapped one
    by one at its end and unmapped from there, on the same machine user memory lives in. */
module HeapPages {
  import opened Wrappers
  import opened Pages
  import opened PhysicalFrames
  import opened SwapArea
  import opened Machines
  import opened Paging
  import opened Evictions
  import opened UserMemory
  import opened AddressSpaces

  const HEAP_START: nat := 0xC100_0000
  const HEAP_END: nat := 0xC200_0000
  const PAGE: nat := 4096

  /** Directory entries the window lies under. */
  const FIRST_ENTRY: nat := 772
  const LAST_ENTRY: nat := 775

  /** The window up to `mapped`, in memory `mem`. */
  datatype Window = Window(mapped: nat, mem: Machine)

  /** Page `v` of the window is below `end`. */
  ghost predicate IsPage(v: nat, end: nat) { HEAP_START <= v < end && v % PAGE == 0 }

  lemma Indices(v: nat)
    requires IsPage(v, HEAP_END)
    ensures FIRST_ENTRY <= PdIndex(v) <= LAST_ENTRY && PtIndex(v) < ENTRIES
    ensures v == PdIndex(v) * 0x40_0000 + PtIndex(v) * PAGE
  {
  }

  lemma PagesDiffer(v: nat, v': nat)
    requires IsPage(v, HEAP_END) && IsPage(v', HEAP_END) && v != v'
    ensures PdIndex(v) != PdIndex(v') || PtIndex(v) != PtIndex(v')
  {
    Indices(v);
    Indices(v');
  }

  ghost function EntryFor(m: Machine, v: nat): Word { EntryOf(m, PdIndex(v), PtIndex(v)) }

  /** The flags the heap maps its pages with: present and RW. */
  function KernelFlags(): Flags { NoFlags().(present := true, writable := true) }

  // ----- one page more, one page less ------------------------------------------------------

  /** `map_new_page` at the end of the window: the lowest free frame is taken, mapped (which may
      make a table, and evict a user page for it) and cleared. `None` when the kernel halts. */
  ghost function MapOne(w: Window): (r: Option<Window>)
    requires Shape(w.mem)
    ensures r.Some? ==> Shape(r.value.mem)
  {
    if w.mem.free == {} then None
    else
      var f: UInt20 := Lowest(w.mem.free);
      match MapPage(w.mem.(free := w.mem.free - {f}), PdIndex(w.mapped), PtIndex(w.mapped), f, KernelFlags())
      case None => None
      case Some(m) => Some(Window(w.mapped + PAGE, m.(ram := PutPage(m.ram, f, ZeroPage()))))
  }

  /** `pmm_free_frame` of frame `f`. */
  ghost function Released(m: Machine, f: nat): Machine {
    if m.base <= f < |m.ram| then m.(free := m.free + {f}) else m
  }

  /** The last page looked up, unmapped and its frame released; a page that the loaded directory
      does not map has no frame to release. */
  ghost function UnmapOne(w: Window): (w': Window)
    requires Shape(w.mem) && w.mapped >= PAGE
    ensures Shape(w'.mem) && w'.mapped == w.mapped - PAGE
  {
    var v := w.mapped - PAGE;
    var i, j := PdIndex(v), PtIndex(v);
    var m := Unmap(w.mem, i, j);
    Window(v, if Mapped(w.mem, i, j) then Released(m, EntryFor(w.mem, v).number) else m)
  }

  // ----- the invariant ---------------------------------------------------------------------

  ghost predicate TableAt(m: Machine, i: nat) { Present(Get(m.ram, m.cur, i)) }

  /** No two directory entries of the window share a table. */
  ghost predicate TablesApart(m: Machine) {
    forall i: nat, i': nat :: FIRST_ENTRY <= i < i' <= LAST_ENTRY && TableAt(m, i) && TableAt(m, i') ==>
      Get(m.ram, m.cur, i).number != Get(m.ram, m.cur, i').number
  }

  /** The kernel may write through entry `w`, the user may not even read. */
  ghost predicate Guarded(w: Word) { w.flags.writable && !w.flags.user }

  /** Exactly the pages below `mapped` are in memory, each on a frame of the allocator and out of
      the user's reach. */
  ghost predicate Backed(w: Window, o: Owners)
    ensures Backed(w, o) ==> Inv(w.mem, o) && Shape(w.mem)
  {
    && Inv(w.mem, o) && TablesApart(w.mem) && w.mapped % PAGE == 0 && HEAP_START <= w.mapped <= HEAP_END
    && (forall v: nat :: IsPage(v, w.mapped) ==>
          Mapped(w.mem, PdIndex(v), PtIndex(v)) && w.mem.base <= EntryFor(w.mem, v).number && Guarded(EntryFor(w.mem, v)))
    && (forall v: nat :: IsPage(v, HEAP_END) && v >= w.mapped ==> Content(w.mem, w.mem.cur, PdIndex(v), PtIndex(v)) == None)
  }

  /** By page protection, the kernel may write page `v` and the user may not read it. */
  ghost predicate KernelOnly(m: Machine, v: nat) {
    Allowed(m, PdIndex(v), PtIndex(v), false, true) && !Allowed(m, PdIndex(v), PtIndex(v), true, false)
  }

  /** That is so of every page of the window. */
  lemma HeapIsKernelOnly(w: Window, o: Owners, v: nat)
    requires Backed(w, o) && IsPage(v, w.mapped)
    ensures KernelOnly(w.mem, v)
  {
    Indices(v);
    assert IsDir(o, w.mem.cur);
  }

  /** Frame `f` backs a page of the window. */
  ghost predicate Backs(w: Window, f: nat) {
    exists v: nat :: IsPage(v, w.mapped) && EntryFor(w.mem, v).number == f
  }

  /** Frame `f` is a table of the window. */
  ghost predicate HeapTable(m: Machine, f: nat) {
    exists i: nat :: FIRST_ENTRY <= i <= LAST_ENTRY && TableAt(m, i) && Get(m.ram, m.cur, i).number == f
  }

  /** The frames the heap deals with: free ones, those behind its pages, and its tables. */
  ghost predicate InPool(w: Window, f: nat) { f in w.mem.free || Backs(w, f) || HeapTable(w.mem, f) }

  lemma BackRole(w: Window, o: Owners, v: nat)
    requires Backed(w, o) && IsPage(v, w.mapped)
    ensures var i := PdIndex(v);
            && Holds(o, Get(w.mem.ram, w.mem.cur, i).number, KernelTable)
            && Holds(o, EntryFor(w.mem, v).number, PageOf(Get(w.mem.ram, w.mem.cur, i).number, PtIndex(v)))
  {
    Indices(v);
    var t := Get(w.mem.ram, w.mem.cur, PdIndex(v)).number;
    assert Holds(o, t, TableRole(w.mem.cur, PdIndex(v)));
    assert Present(Get(w.mem.ram, t, PtIndex(v)));
  }

  lemma TableRoleOf(m: Machine, o: Owners, f: nat)
    requires Inv(m, o) && HeapTable(m, f)
    ensures Holds(o, f, KernelTable)
  {
    var i: nat :| FIRST_ENTRY <= i <= LAST_ENTRY && TableAt(m, i) && Get(m.ram, m.cur, i).number == f;
    assert Holds(o, f, TableRole(m.cur, i));
  }

  lemma BacksRole(w: Window, o: Owners, f: nat)
    requires Backed(w, o) && Backs(w, f)
    ensures f in o.frames && o.frames[f].PageOf? && Holds(o, o.frames[f].table, KernelTable)
  {
    var v: nat :| IsPage(v, w.mapped) && EntryFor(w.mem, v).number == f;
    BackRole(w, o, v);
  }

  // ----- mapping a page --------------------------------------------------------------------

  /** What mapping a page under a kernel entry does to directory, kernel tables and pools. */
  ghost predicate MappedUnder(m: Machine, o: Owners, m': Machine, i: nat, j: nat, s: nat) {
    var t' := Get(m'.ram, m.cur, i).number;
    && m'.cur == m.cur && m'.base == m.base && |m'.ram| == |m.ram| && TableAt(m', i)
    && (forall k: nat :: k != i ==> Get(m'.ram, m.cur, k) == Get(m.ram, m.cur, k))
    && (forall t: nat, k: nat :: Holds(o, t, KernelTable) && (t != t' || k != j) ==> Get(m'.ram, t, k) == Get(m.ram, t, k))
    && (if TableAt(m, i) then Get(m'.ram, m.cur, i) == Get(m.ram, m.cur, i) && SamePools(m, m')
        else Allocated(m, o, m', t', s) && !Holds(o, t', KernelTable))
  }

  lemma MapOutcome(m: Machine, o: Owners, i: nat, j: nat, f: UInt20) returns (s: nat)
    requires Inv(m, o) && USER_TABLES <= i < RECURSIVE && j < ENTRIES && MapPage(m, i, j, f, KernelFlags()).Some?
    ensures MappedUnder(m, o, MapPage(m, i, j, f, KernelFlags()).value, i, j, s)
  {
    s := 0;
    var m' := MapPage(m, i, j, f, KernelFlags()).value;
    if TableAt(m, i) {
      assert Holds(o, Get(m.ram, m.cur, i).number, KernelTable);
      assert IsDir(o, m.cur);
    } else {
      var (m1, t) := AllocZero(m).value;
      s := AllocOutcome(m, o);
      var o1 := AllocKeeps(m, o);
      NewTableOutcome(m, o, m1, o1, i, j, f, t, s);
    }
  }

  lemma NewTableOutcome(m: Machine, o: Owners, m1: Machine, o1: Owners, i: nat, j: nat, f: UInt20, t: UInt20, s: nat)
    requires Inv(m, o) && Inv(m1, o1) && Untouched(m, o, m1, o1) && HandedOut(m1, o1, t) && Spares(m, o, m1) && Allocated(m, o, m1, t, s)
    requires USER_TABLES <= i < RECURSIVE && j < ENTRIES && !TableAt(m, i)
    ensures var ram := Put(m1.ram, m1.cur, i, Word(t, TableFlags(false)));
            MappedUnder(m, o, m1.(ram := Put(ram, t, j, Word(f, KernelFlags()))), i, j, s)
  {
    hide Put;
    assert IsDir(o, m.cur) && IsDir(o1, m.cur);
    assert t != m.cur;
    assert !Holds(o, t, KernelTable);
    forall g: nat, k: nat | Holds(o, g, KernelTable) && (g != t || k != j)
      ensures Get(m1.ram, g, k) == Get(m.ram, g, k) && g != m.cur
    {
      SparesEntries(m, o, m1, g, k);
    }
  }

  /** The page that `MapOne` adds, and the machine with its frame taken. */
  ghost function Taken(w: Window): Machine
    requires w.mem.free != {}
  {
    w.mem.(free := w.mem.free - {Lowest(w.mem.free)})
  }

  ghost function TakenOwners(w: Window, o: Owners): Owners
    requires w.mem.free != {}
  {
    o.(frames := o.frames[Lowest(w.mem.free) := Kernel])
  }

  /** One page was added: all that the results below follow from. */
  ghost predicate PageAdded(w: Window, o: Owners, w': Window, o': Owners, s: nat) {
    var i, j := PdIndex(w.mapped), PtIndex(w.mapped);
    && w.mem.free != {} && Inv(w'.mem, o') && SameDirs(o, o') && w'.mapped == w.mapped + PAGE
    && MappedUnder(Taken(w), TakenOwners(w, o), w'.mem, i, j, s)
    && EntryFor(w'.mem, w.mapped).number == Lowest(w.mem.free) && Present(EntryFor(w'.mem, w.mapped)) && Guarded(EntryFor(w'.mem, w.mapped))
    && Holds(o', Get(w'.mem.ram, w.mem.cur, i).number, KernelTable)
    && SameBut(w.mem, w'.mem, o, Get(w'.mem.ram, w.mem.cur, i).number, j, ZeroPage())
  }

  lemma MapOneAdds(w: Window, o: Owners) returns (o': Owners, s: nat)
    requires Backed(w, o) && w.mapped < HEAP_END && MapOne(w).Some?
    ensures PageAdded(w, o, MapOne(w).value, o', s)
  {
    hide Inv, MapPage, SameBut, MappedUnder;
    var f: UInt20 := Lowest(w.mem.free);
    var i, j := PdIndex(w.mapped), PtIndex(w.mapped);
    Indices(w.mapped);
    var m0, o0 := Taken(w), TakenOwners(w, o);
    TakePlain(w.mem, o, f);
    var m1 := MapPage(m0, i, j, f, KernelFlags()).value;
    s := MapOutcome(m0, o0, i, j, f);
    assert !Mapped(m0, i, j) && SlotOf(m0, i, j) == None by { NothingThere(w.mem, i, j); }
    o' := InstallKeeps(m0, o0, i, j, f, KernelFlags());
    var t := Get(m1.ram, m1.cur, i).number;
    var m2 := WriteThrough(m1, o', t, j, ZeroPage());
    ClearKeepsOutcome(m0, o0, m1, o', i, j, s, f);
    TwoChanges(w.mem, o, m0, o0, m1, o', m2, t, j, PageAt(m0.ram, f));
  }

  lemma NothingThere(m: Machine, i: nat, j: nat)
    requires Content(m, m.cur, i, j) == None
    ensures forall free :: !Mapped(m.(free := free), i, j) && SlotOf(m.(free := free), i, j) == None
  {
  }

  lemma ClearKeepsOutcome(m0: Machine, o0: Owners, m1: Machine, o1: Owners, i: nat, j: nat, s: nat, f: UInt20)
    requires Inv(m0, o0) && Inv(m1, o1) && SameDirs(o0, o1) && MappedUnder(m0, o0, m1, i, j, s) && Holds(o0, f, Kernel)
    requires USER_TABLES <= i < RECURSIVE && InPlace(m1, o1, i, j, f, KernelFlags())
    ensures var m2 := m1.(ram := PutPage(m1.ram, f, ZeroPage()));
            && MappedUnder(m0, o0, m2, i, j, s) && Get(m2.ram, m1.cur, i) == Get(m1.ram, m1.cur, i)
            && Get(m2.ram, Get(m2.ram, m1.cur, i).number, j) == Word(f, KernelFlags())
  {
    assert IsDir(o0, m0.cur) && IsDir(o1, m0.cur);
    assert f != m0.cur && !IsTable(o0, f);
  }

  lemma TwoChanges(m: Machine, o: Owners, m0: Machine, o0: Owners, m1: Machine, o1: Owners, m2: Machine, t: nat, j: nat, p: Page)
    requires m0.ram == m.ram && m0.store == m.store && SameDirs(o, o0) && SameDirs(o0, o1)
    requires SameBut(m0, m1, o0, t, j, p) && SameBut(m1, m2, o1, t, j, ZeroPage())
    requires forall d: nat, i: nat :: IsDir(o, d) ==> Get(m2.ram, d, i) == Get(m1.ram, d, i)
    ensures SameBut(m, m2, o, t, j, ZeroPage())
  {
    forall d: nat, i: nat, k: nat | IsDir(o, d) && i < RECURSIVE
      ensures Content(m2, d, i, k) ==
              if Present(Get(m2.ram, d, i)) && Get(m2.ram, d, i).number == t && k == j then Some(ZeroPage()) else Content(m, d, i, k)
    {
      assert IsDir(o0, d) && IsDir(o1, d);
      assert Content(m0, d, i, k) == Content(m, d, i, k);
    }
  }

  // ----- what one more page changes --------------------------------------------------------

  /** Pages and tables that were there are there, in the same place. */
  ghost predicate Extends(w: Window, w': Window) {
    && w'.mapped >= w.mapped && w'.mem.cur == w.mem.cur && w'.mem.base == w.mem.base
    && (forall v: nat :: IsPage(v, w.mapped) ==> EntryFor(w'.mem, v).number == EntryFor(w.mem, v).number)
    && (forall i: nat :: FIRST_ENTRY <= i <= LAST_ENTRY && TableAt(w.mem, i) ==>
          TableAt(w'.mem, i) && Get(w'.mem.ram, w'.mem.cur, i).number == Get(w.mem.ram, w.mem.cur, i).number)
  }

  lemma AddedExtends(w: Window, o: Owners, w': Window, o': Owners, s: nat)
    requires Backed(w, o) && w.mapped < HEAP_END && PageAdded(w, o, w', o', s)
    ensures Extends(w, w')
    ensures forall v: nat :: IsPage(v, w.mapped) ==> EntryFor(w'.mem, v) == EntryFor(w.mem, v)
    ensures forall i: nat :: FIRST_ENTRY <= i <= LAST_ENTRY ==> (TableAt(w'.mem, i) <==> TableAt(w.mem, i) || i == PdIndex(w.mapped))
  {
    hide Inv, SameBut, Allocated;
    Indices(w.mapped);
    forall v: nat | IsPage(v, w.mapped) ensures EntryFor(w'.mem, v) == EntryFor(w.mem, v) {
      Indices(v);
      PagesDiffer(v, w.mapped);
      BackRole(w, o, v);
      var t := Get(w.mem.ram, w.mem.cur, PdIndex(v)).number;
      assert t != Lowest(w.mem.free) by { OwnedNotFree(w.mem, o, t); }
      assert Holds(TakenOwners(w, o), t, KernelTable);
    }
  }

  lemma OwnedNotFree(m: Machine, o: Owners, f: nat)
    requires Inv(m, o) && f in o.frames
    ensures f !in m.free
  {
  }

  lemma AddedBacked(w: Window, o: Owners, w': Window, o': Owners, s: nat)
    requires Backed(w, o) && w.mapped < HEAP_END && PageAdded(w, o, w', o', s)
    ensures Backed(w', o')
  {
    hide Inv, Allocated;
    Indices(w.mapped);
    AddedExtends(w, o, w', o', s);
    AddedApart(w, o, w', o', s);
    var m, m' := w.mem, w'.mem;
    assert m.base <= Lowest(m.free);
    forall v: nat | IsPage(v, w'.mapped)
      ensures Mapped(m', PdIndex(v), PtIndex(v)) && m'.base <= EntryFor(m', v).number && Guarded(EntryFor(m', v))
    {
      Indices(v);
    }
    forall v: nat | IsPage(v, HEAP_END) && v >= w'.mapped ensures Content(m', m'.cur, PdIndex(v), PtIndex(v)) == None {
      Indices(v);
      StillNothing(w, o, w', o', s, v);
    }
  }

  lemma StillNothing(w: Window, o: Owners, w': Window, o': Owners, s: nat, v: nat)
    requires Backed(w, o) && w.mapped < HEAP_END && PageAdded(w, o, w', o', s) && IsPage(v, HEAP_END) && v > w.mapped
    ensures Content(w'.mem, w.mem.cur, PdIndex(v), PtIndex(v)) == None
  {
    hide Allocated;
    Indices(v);
    Indices(w.mapped);
    PagesDiffer(v, w.mapped);
    AddedApart(w, o, w', o', s);
    assert IsDir(o, w.mem.cur);
    assert Content(w.mem, w.mem.cur, PdIndex(v), PtIndex(v)) == None;
    assert TableAt(w'.mem, PdIndex(w.mapped)) by { assert Present(EntryFor(w'.mem, w.mapped)); }
  }

  lemma AddedApart(w: Window, o: Owners, w': Window, o': Owners, s: nat)
    requires Backed(w, o) && w.mapped < HEAP_END && PageAdded(w, o, w', o', s)
    ensures TablesApart(w'.mem) && TableAt(w'.mem, PdIndex(w.mapped))
    ensures !TableAt(w.mem, PdIndex(w.mapped)) ==> !HeapTable(w.mem, Get(w'.mem.ram, w.mem.cur, PdIndex(w.mapped)).number)
  {
    hide SameBut, Allocated;
    Indices(w.mapped);
    if !TableAt(w.mem, PdIndex(w.mapped)) {
      var t := Get(w'.mem.ram, w.mem.cur, PdIndex(w.mapped)).number;
      if HeapTable(w.mem, t) {
        TableRoleOf(w.mem, o, t);
        OwnedNotFree(w.mem, o, t);
      }
    }
  }

  /** Frames only move between the free set, the window and its tables, except that each evicted
      user page, which takes a swap slot, brings its frame in. */
  ghost predicate Conserved(w: Window, w': Window) {
    && (forall f: nat :: InPool(w, f) ==> InPool(w', f)) && w.mem.slots <= w'.mem.slots
    && ((forall f: nat :: InPool(w', f) ==> InPool(w, f)) <==> w'.mem.slots == w.mem.slots)
  }

  lemma AddedBacks(w: Window, o: Owners, w': Window, o': Owners, s: nat, g: nat)
    requires Backed(w, o) && w.mapped < HEAP_END && PageAdded(w, o, w', o', s)
    ensures Backs(w', g) <==> Backs(w, g) || g == Lowest(w.mem.free)
  {
    hide Inv, SameBut, MappedUnder, Backed, EntryFor, IsPage;
    AddedExtends(w, o, w', o', s);
    NextPages(w, o);
    if Backs(w, g) {
      var v: nat :| IsPage(v, w.mapped) && EntryFor(w.mem, v).number == g;
      assert IsPage(v, w'.mapped) && EntryFor(w'.mem, v).number == g;
    } else if g == Lowest(w.mem.free) {
      assert IsPage(w.mapped, w'.mapped) && EntryFor(w'.mem, w.mapped).number == g;
    }
  }

  lemma NextPages(w: Window, o: Owners)
    requires Backed(w, o)
    ensures forall v: nat :: IsPage(v, w.mapped + PAGE) <==> IsPage(v, w.mapped) || v == w.mapped
  {
    WindowBounds(w, o);
    forall v: nat ensures IsPage(v, w.mapped + PAGE) <==> IsPage(v, w.mapped) || v == w.mapped {
      PageAfter(v, w.mapped);
    }
  }

  lemma PageAfter(v: nat, end: nat)
    requires end % PAGE == 0 && HEAP_START <= end
    ensures IsPage(v, end + PAGE) <==> IsPage(v, end) || v == end
  {
  }

  lemma WindowBounds(w: Window, o: Owners)
    requires Backed(w, o)
    ensures w.mapped % PAGE == 0 && HEAP_START <= w.mapped <= HEAP_END
  {
  }

  lemma AddedTables(w: Window, o: Owners, w': Window, o': Owners, s: nat, g: nat)
    requires Backed(w, o) && w.mapped < HEAP_END && PageAdded(w, o, w', o', s)
    ensures HeapTable(w'.mem, g) <==> HeapTable(w.mem, g) || g == Get(w'.mem.ram, w.mem.cur, PdIndex(w.mapped)).number
  {
    hide Inv, SameBut, Backed, Allocated;
    Indices(w.mapped) by { WindowBounds(w, o); }
    AddedExtends(w, o, w', o', s);
    var i := PdIndex(w.mapped);
    if HeapTable(w.mem, g) {
      var k: nat :| FIRST_ENTRY <= k <= LAST_ENTRY && TableAt(w.mem, k) && Get(w.mem.ram, w.mem.cur, k).number == g;
      assert TableAt(w'.mem, k);
    } else if HeapTable(w'.mem, g) {
      var k: nat :| FIRST_ENTRY <= k <= LAST_ENTRY && TableAt(w'.mem, k) && Get(w'.mem.ram, w'.mem.cur, k).number == g;
      assert k != i ==> Get(w.mem.ram, w.mem.cur, k) == Get(w'.mem.ram, w.mem.cur, k);
    } else {
      assert TableAt(w'.mem, i);
    }
  }

  lemma AddedConserves(w: Window, o: Owners, w': Window, o': Owners, s: nat)
    requires Backed(w, o) && w.mapped < HEAP_END && PageAdded(w, o, w', o', s)
    ensures Conserved(w, w')
  {
    hide Inv, SameBut, Backed, Backs, HeapTable;
    var f, t := Lowest(w.mem.free), Get(w'.mem.ram, w.mem.cur, PdIndex(w.mapped)).number;
    forall g: nat ensures Backs(w', g) <==> Backs(w, g) || g == f {
      AddedBacks(w, o, w', o', s, g);
    }
    forall g: nat ensures HeapTable(w'.mem, g) <==> HeapTable(w.mem, g) || g == t {
      AddedTables(w, o, w', o', s, g);
    }
    if TableAt(w.mem, PdIndex(w.mapped)) {
      assert HeapTable(w.mem, t) by { OldTable(w, o, w', o', s); }
    } else if Taken(w).free == {} {
      assert !InPool(w, t) by { EvictedIsNew(w, o, t); }
      assert InPool(w', t);
    }
  }

  lemma OldTable(w: Window, o: Owners, w': Window, o': Owners, s: nat)
    requires Backed(w, o) && w.mapped < HEAP_END && PageAdded(w, o, w', o', s) && TableAt(w.mem, PdIndex(w.mapped))
    ensures HeapTable(w.mem, Get(w'.mem.ram, w.mem.cur, PdIndex(w.mapped)).number)
  {
    Indices(w.mapped);
  }

  /** A frame that held a user page is none of the heap's. */
  lemma EvictedIsNew(w: Window, o: Owners, t: nat)
    requires Backed(w, o) && w.mem.free != {} && t in TakenOwners(w, o).frames
    requires TakenOwners(w, o).frames[t].PageOf? && OfLoaded(w.mem, TakenOwners(w, o), TakenOwners(w, o).frames[t].table)
    ensures !InPool(w, t)
  {
    assert t in o.frames && o.frames[t] == TakenOwners(w, o).frames[t];
    OwnedNotFree(w.mem, o, t);
    if Backs(w, t) {
      BacksRole(w, o, t);
    }
    if HeapTable(w.mem, t) {
      TableRoleOf(w.mem, o, t);
    }
  }

  /** User memory holds what it held. */
  ghost predicate UserSame(m: Machine, m': Machine, o: Owners) {
    forall d: nat, i: nat, j: nat :: IsDir(o, d) && i < USER_TABLES ==> Content(m', d, i, j) == Content(m, d, i, j)
  }

  /** The bytes of page `v` of the window. */
  ghost function PageData(m: Machine, v: nat): Option<Page> { Content(m, m.cur, PdIndex(v), PtIndex(v)) }

  /** Pages in the window before and after hold what they held. */
  ghost predicate DataSame(w: Window, w': Window) {
    forall v: nat :: IsPage(v, w.mapped) && IsPage(v, w'.mapped) ==> PageData(w'.mem, v) == PageData(w.mem, v)
  }

  lemma UserTableElsewhere(m: Machine, o: Owners, d: nat, i: nat, t: nat)
    requires Inv(m, o) && IsDir(o, d) && i < USER_TABLES && Holds(o, t, KernelTable)
    ensures Present(Get(m.ram, d, i)) ==> Get(m.ram, d, i).number != t
  {
    assert Present(Get(m.ram, d, i)) ==> Holds(o, Get(m.ram, d, i).number, UserTable(d, i));
  }

  lemma AddedData(w: Window, o: Owners, w': Window, o': Owners, s: nat)
    requires Backed(w, o) && w.mapped < HEAP_END && PageAdded(w, o, w', o', s)
    ensures UserSame(w.mem, w'.mem, o) && DataSame(w, w') && PageData(w'.mem, w.mapped) == Some(ZeroPage())
  {
    hide MappedUnder;
    Indices(w.mapped);
    AddedApart(w, o, w', o', s);
    AddedExtends(w, o, w', o', s);
    assert IsDir(o, w.mem.cur) && IsDir(o', w.mem.cur);
    var t, j := Get(w'.mem.ram, w.mem.cur, PdIndex(w.mapped)).number, PtIndex(w.mapped);
    forall d: nat, i: nat, k: nat | IsDir(o, d) && i < USER_TABLES ensures Content(w'.mem, d, i, k) == Content(w.mem, d, i, k) {
      assert IsDir(o', d);
      UserTableElsewhere(w'.mem, o', d, i, t);
    }
    forall v: nat | IsPage(v, w.mapped) ensures PageData(w'.mem, v) == PageData(w.mem, v) {
      Indices(v);
      PagesDiffer(v, w.mapped);
    }
  }

  /** All that holds after one more page. */
  ghost predicate Grew(w: Window, o: Owners, w': Window, o': Owners) {
    && Backed(w', o') && SameDirs(o, o') && Extends(w, w') && Conserved(w, w') && UserSame(w.mem, w'.mem, o) && DataSame(w, w')
  }

  lemma MapOneKeeps(w: Window, o: Owners) returns (o': Owners)
    requires Backed(w, o) && w.mapped < HEAP_END && MapOne(w).Some?
    ensures var w' := MapOne(w).value;
            && Grew(w, o, w', o') && w'.mapped == w.mapped + PAGE && PageData(w'.mem, w.mapped) == Some(ZeroPage())
            && (TableAt(w.mem, PdIndex(w.mapped)) ==> w'.mem.slots == w.mem.slots && forall f :: HeapTable(w'.mem, f) ==> HeapTable(w.mem, f))
            && (!TableAt(w.mem, PdIndex(w.mapped)) ==> exists f :: HeapTable(w'.mem, f) && !HeapTable(w.mem, f))
            && (forall i: nat :: FIRST_ENTRY <= i <= LAST_ENTRY ==> (TableAt(w'.mem, i) <==> TableAt(w.mem, i) || i == PdIndex(w.mapped)))
  {
    hide Inv, SameBut, Backed, HeapTable, MapOne, Extends, Conserved, UserSame, DataSame;
    var w', s := MapOne(w).value, 0;
    o', s := MapOneAdds(w, o);
    AddedBacked(w, o, w', o', s);
    AddedExtends(w, o, w', o', s);
    AddedConserves(w, o, w', o', s);
    AddedData(w, o, w', o', s);
    AddedApart(w, o, w', o', s);
    forall g: nat ensures HeapTable(w'.mem, g) <==> HeapTable(w.mem, g) || g == Get(w'.mem.ram, w.mem.cur, PdIndex(w.mapped)).number {
      AddedTables(w, o, w', o', s, g);
    }
    if TableAt(w.mem, PdIndex(w.mapped)) {
      OldTable(w, o, w', o', s);
    }
  }

  // ----- unmapping a page ------------------------------------------------------------------

  /** Clearing the only entry of a page and freeing its frame. */
  lemma DropKeeps(m: Machine, o: Owners, t: nat, j: nat, f: nat)
    requires Inv(m, o) && IsTable(o, t) && Present(Get(m.ram, t, j)) && Get(m.ram, t, j).number == f && Holds(o, f, PageOf(t, j))
    ensures var m' := m.(ram := Put(m.ram, t, j, ZeroWord()), free := m.free + {f});
            var o' := o.(frames := o.frames - {f});
            Inv(m', o') && SameDirs(o, o') && f !in m.free && m.base <= f < |m.ram|
  {
    var m' := m.(ram := Put(m.ram, t, j, ZeroWord()), free := m.free + {f});
    var o' := o.(frames := o.frames - {f});
    assert forall g: nat :: IsTable(o', g) <==> IsTable(o, g);
    assert forall g: nat, r :: Holds(o, g, r) && r != PageOf(t, j) ==> Holds(o', g, r);
  }

  /** The frame behind the last page. */
  ghost function LastFrame(w: Window): nat
    requires w.mapped >= PAGE
  {
    EntryFor(w.mem, w.mapped - PAGE).number
  }

  ghost predicate PageDropped(w: Window, o: Owners, w': Window, o': Owners)
    requires w.mapped >= PAGE
  {
    var v, f := w.mapped - PAGE, LastFrame(w);
    var i, j := PdIndex(v), PtIndex(v);
    var t := Get(w.mem.ram, w.mem.cur, i).number;
    && Inv(w'.mem, o') && SameDirs(o, o') && w'.mapped == v && f !in w.mem.free && w.mem.base <= f < |w.mem.ram|
    && Holds(o, t, KernelTable) && Holds(o, f, PageOf(t, j)) && IsPage(v, w.mapped)
    && w'.mem == w.mem.(ram := Put(w.mem.ram, t, j, ZeroWord()), free := w.mem.free + {f})
  }

  lemma UnmapOneDrops(w: Window, o: Owners) returns (o': Owners)
    requires Backed(w, o) && w.mapped > HEAP_START
    ensures PageDropped(w, o, UnmapOne(w), o')
  {
    var v := w.mapped - PAGE;
    assert IsPage(v, w.mapped);
    BackRole(w, o, v);
    Indices(v);
    hide Inv, Backed;
    o' := o.(frames := o.frames - {LastFrame(w)});
    DropKeeps(w.mem, o, Get(w.mem.ram, w.mem.cur, PdIndex(v)).number, PtIndex(v), LastFrame(w));
  }

  lemma DroppedEntries(w: Window, o: Owners, w': Window, o': Owners)
    requires Backed(w, o) && w.mapped > HEAP_START && PageDropped(w, o, w', o')
    ensures forall k: nat :: Get(w'.mem.ram, w.mem.cur, k) == Get(w.mem.ram, w.mem.cur, k)
    ensures forall v: nat :: IsPage(v, HEAP_END) && v != w'.mapped && TableAt(w.mem, PdIndex(v)) ==> EntryFor(w'.mem, v) == EntryFor(w.mem, v)
    ensures EntryFor(w'.mem, w'.mapped) == ZeroWord()
  {
    assert IsDir(o, w.mem.cur);
    Indices(w'.mapped);
    forall v: nat | IsPage(v, HEAP_END) && v != w'.mapped && TableAt(w.mem, PdIndex(v)) ensures EntryFor(w'.mem, v) == EntryFor(w.mem, v) {
      Indices(v);
      PagesDiffer(v, w'.mapped);
      assert TableAt(w.mem, PdIndex(w'.mapped));
    }
  }

  lemma DroppedBacked(w: Window, o: Owners, w': Window, o': Owners)
    requires Backed(w, o) && w.mapped > HEAP_START && PageDropped(w, o, w', o')
    ensures Backed(w', o') && DataSame(w, w')
  {
    hide Inv, Content, EntryFor, Mapped, Put, TablesApart;
    DroppedApart(w, o, w', o');
    forall v: nat | IsPage(v, w'.mapped)
      ensures Mapped(w'.mem, PdIndex(v), PtIndex(v)) && PageData(w'.mem, v) == PageData(w.mem, v) && EntryFor(w'.mem, v) == EntryFor(w.mem, v)
    {
      DroppedData(w, o, w', o', v);
    }
    forall v: nat | IsPage(v, HEAP_END) && v >= w'.mapped ensures PageData(w'.mem, v) == None {
      if v != w'.mapped {
        assert v >= w.mapped;
        DroppedNothing(w, o, w', o', v);
      }
    }
  }

  lemma DroppedApart(w: Window, o: Owners, w': Window, o': Owners)
    requires Backed(w, o) && w.mapped > HEAP_START && PageDropped(w, o, w', o')
    ensures TablesApart(w'.mem) && PageData(w'.mem, w'.mapped) == None
  {
    hide Inv, Put;
    DroppedEntries(w, o, w', o');
  }

  lemma DroppedData(w: Window, o: Owners, w': Window, o': Owners, v: nat)
    requires Backed(w, o) && w.mapped > HEAP_START && PageDropped(w, o, w', o') && IsPage(v, w'.mapped)
    ensures Mapped(w'.mem, PdIndex(v), PtIndex(v)) && EntryFor(w'.mem, v) == EntryFor(w.mem, v) && PageData(w'.mem, v) == PageData(w.mem, v)
  {
    assert IsPage(v, w.mapped) && IsPage(v, HEAP_END);
    DroppedEntries(w, o, w', o');
    BackRole(w, o, v);
  }

  lemma DroppedNothing(w: Window, o: Owners, w': Window, o': Owners, v: nat)
    requires Backed(w, o) && w.mapped > HEAP_START && PageDropped(w, o, w', o') && IsPage(v, HEAP_END) && v > w'.mapped
    requires PageData(w.mem, v) == None
    ensures PageData(w'.mem, v) == None
  {
    hide Inv, Backed, PageDropped, IsPage;
    DroppedEntries(w, o, w', o');
    DroppedFrom(w, o, w', o');
  }

  lemma DroppedUser(w: Window, o: Owners, w': Window, o': Owners)
    requires Backed(w, o) && w.mapped > HEAP_START && PageDropped(w, o, w', o')
    ensures UserSame(w.mem, w'.mem, o)
  {
    var t := Get(w.mem.ram, w.mem.cur, PdIndex(w'.mapped)).number;
    forall d: nat, i: nat, j: nat | IsDir(o, d) && i < USER_TABLES ensures Content(w'.mem, d, i, j) == Content(w.mem, d, i, j) {
      UserTableElsewhere(w.mem, o, d, i, t);
      assert d != t;
      var u := Get(w.mem.ram, d, i).number;
      if Present(Get(w.mem.ram, d, i)) {
        assert Holds(o, u, UserTable(d, i));
        assert Present(Get(w.mem.ram, u, j)) ==> Get(w.mem.ram, u, j).number != t;
      }
    }
  }

  lemma DroppedBacks(w: Window, o: Owners, w': Window, o': Owners, g: nat)
    requires Backed(w, o) && w.mapped > HEAP_START && PageDropped(w, o, w', o')
    ensures Backs(w, g) <==> Backs(w', g) || g == LastFrame(w)
    ensures HeapTable(w'.mem, g) <==> HeapTable(w.mem, g)
  {
    DroppedEntries(w, o, w', o');
    DroppedBacked(w, o, w', o');
    hide Inv, Backed, EntryFor, IsPage, PageDropped;
    NextPages(w', o');
    assert w'.mapped + PAGE == w.mapped && w'.mem.cur == w.mem.cur by { DroppedFrom(w, o, w', o'); }
    if Backs(w, g) {
      var v: nat :| IsPage(v, w.mapped) && EntryFor(w.mem, v).number == g;
      if v != w'.mapped {
        DroppedData(w, o, w', o', v);
        assert IsPage(v, w'.mapped) && EntryFor(w'.mem, v).number == g;
      }
    } else if Backs(w', g) {
      var v: nat :| IsPage(v, w'.mapped) && EntryFor(w'.mem, v).number == g;
      DroppedData(w, o, w', o', v);
    }
    DroppedTables(w.mem, w'.mem, g);
  }

  lemma DroppedFrom(w: Window, o: Owners, w': Window, o': Owners)
    requires w.mapped >= PAGE && PageDropped(w, o, w', o')
    ensures w'.mapped + PAGE == w.mapped && w'.mem.cur == w.mem.cur
  {
  }

  lemma DroppedTables(m: Machine, m': Machine, g: nat)
    requires m'.cur == m.cur && forall k: nat :: Get(m'.ram, m.cur, k) == Get(m.ram, m.cur, k)
    ensures HeapTable(m', g) <==> HeapTable(m, g)
  {
    assert forall i: nat :: TableAt(m', i) <==> TableAt(m, i);
  }

  /** All that holds after one page less. */
  ghost predicate Shrank(w: Window, o: Owners, w': Window, o': Owners) {
    && Backed(w', o') && SameDirs(o, o') && Extends(w', w) && Conserved(w, w') && UserSame(w.mem, w'.mem, o) && DataSame(w, w')
    && w'.mem.slots == w.mem.slots && (forall f: nat :: HeapTable(w'.mem, f) <==> HeapTable(w.mem, f))
  }

  /** The last page's frame, and no other, becomes free. */
  lemma UnmapOneKeeps(w: Window, o: Owners) returns (o': Owners)
    requires Backed(w, o) && w.mapped > HEAP_START
    ensures Shrank(w, o, UnmapOne(w), o')
    ensures LastFrame(w) !in w.mem.free && UnmapOne(w).mem.free == w.mem.free + {LastFrame(w)}
  {
    hide Inv, Backed, UnmapOne, Backs, HeapTable, UserSame, DataSame, Put;
    var w' := UnmapOne(w);
    o' := UnmapOneDrops(w, o);
    DroppedBacked(w, o, w', o');
    DroppedUser(w, o, w', o');
    forall g: nat ensures (Backs(w, g) <==> Backs(w', g) || g == LastFrame(w)) && (HeapTable(w'.mem, g) <==> HeapTable(w.mem, g)) {
      DroppedBacks(w, o, w', o', g);
    }
    DroppedEntries(w, o, w', o');
    forall v: nat | IsPage(v, w'.mapped) ensures EntryFor(w'.mem, v) == EntryFor(w.mem, v) {
      DroppedData(w, o, w', o', v);
    }
  }

  /** A page's frame comes back exactly when the loaded directory reaches the page through the same
      table as the directory `d` it was mapped in. */
  lemma UnmapReturnsFrameIff(w: Window, o: Owners, d: nat)
    requires Inv(w.mem, o) && IsDir(o, d) && w.mapped >= PAGE && IsPage(w.mapped - PAGE, HEAP_END)
    requires var i := PdIndex(w.mapped - PAGE);
             var entry := Get(w.mem.ram, Get(w.mem.ram, d, i).number, PtIndex(w.mapped - PAGE));
             Present(Get(w.mem.ram, d, i)) && Present(entry) && w.mem.base <= entry.number
    ensures var i := PdIndex(w.mapped - PAGE);
            var f := Get(w.mem.ram, Get(w.mem.ram, d, i).number, PtIndex(w.mapped - PAGE)).number;
            f in UnmapOne(w).mem.free <==> TableAt(w.mem, i) && Get(w.mem.ram, w.mem.cur, i).number == Get(w.mem.ram, d, i).number
  {
    var i, j := PdIndex(w.mapped - PAGE), PtIndex(w.mapped - PAGE);
    Indices(w.mapped - PAGE);
    var t, t' := Get(w.mem.ram, d, i).number, Get(w.mem.ram, w.mem.cur, i).number;
    var f, f' := Get(w.mem.ram, t, j).number, Get(w.mem.ram, t', j).number;
    assert Holds(o, t, KernelTable) && Holds(o, f, PageOf(t, j));
    assert f !in w.mem.free && f < |w.mem.ram|;
    if TableAt(w.mem, i) && t != t' {
      assert Holds(o, t', KernelTable);
      assert Present(Get(w.mem.ram, t', j)) ==> f' != f;
    }
  }

  // ----- many pages ------------------------------------------------------------------------

  function RoundUp(x: nat): nat { (x + PAGE - 1) / PAGE * PAGE }

  /** `ensure_space`: maps pages up to `target`; `None` when the kernel halts. */
  ghost function EnsureSpace(w: Window, target: nat): (r: Option<Window>)
    requires Shape(w.mem)
    ensures r.Some? ==> Shape(r.value.mem)
    decreases target - w.mapped
  {
    if w.mapped >= target then Some(w)
    else
      match MapOne(w)
      case None => None
      case Some(w') => EnsureSpace(w', target)
  }

  /** Unmaps the pages from `target` up. */
  ghost function ReleasePages(w: Window, target: nat): (w': Window)
    requires Shape(w.mem)
    ensures Shape(w'.mem)
    decreases w.mapped
  {
    if w.mapped <= target || w.mapped < PAGE then w else ReleasePages(UnmapOne(w), target)
  }

  /** Every page from `w.mapped` to `target` has its table already. */
  ghost predicate TablesReady(w: Window, target: nat) {
    forall v: nat :: IsPage(v, target) && v >= w.mapped ==> TableAt(w.mem, PdIndex(v))
  }

  /** Pages that are new in `w'` are cleared. */
  ghost predicate NewCleared(w: Window, w': Window) {
    forall v: nat :: IsPage(v, w'.mapped) && v >= w.mapped ==> PageData(w'.mem, v) == Some(ZeroPage())
  }

  /** Whether growing made a table. */
  ghost predicate TablesMade(w: Window, w': Window, made: bool) {
    if made then exists f: nat :: HeapTable(w'.mem, f) && !HeapTable(w.mem, f)
    else w'.mem.slots == w.mem.slots && forall f: nat :: HeapTable(w'.mem, f) ==> HeapTable(w.mem, f)
  }

  lemma ExtendsTables(w: Window, w': Window, f: nat)
    requires Extends(w, w') && HeapTable(w.mem, f)
    ensures HeapTable(w'.mem, f)
  {
    var i: nat :| FIRST_ENTRY <= i <= LAST_ENTRY && TableAt(w.mem, i) && Get(w.mem.ram, w.mem.cur, i).number == f;
    assert TableAt(w'.mem, i);
  }

  lemma ExtendsTwice(w: Window, w1: Window, w2: Window)
    requires Extends(w, w1) && Extends(w1, w2)
    ensures Extends(w, w2)
  {
    forall v: nat | IsPage(v, w.mapped) ensures EntryFor(w2.mem, v).number == EntryFor(w.mem, v).number {
      assert IsPage(v, w1.mapped);
    }
  }

  lemma ConservedTwice(w: Window, w1: Window, w2: Window)
    requires Conserved(w, w1) && Conserved(w1, w2)
    ensures Conserved(w, w2)
  {
    hide InPool;
    if w2.mem.slots == w.mem.slots {
      assert w1.mem.slots == w.mem.slots;
    } else if forall f: nat :: InPool(w2, f) ==> InPool(w, f) {
      assert forall f: nat :: InPool(w1, f) ==> InPool(w, f);
    }
  }

  lemma GrewTwice(w: Window, o: Owners, w1: Window, o1: Owners, w2: Window, o2: Owners)
    requires Grew(w, o, w1, o1) && Grew(w1, o1, w2, o2)
    ensures Grew(w, o, w2, o2)
  {
    ExtendsTwice(w, w1, w2);
    ConservedTwice(w, w1, w2);
    hide Backed, Conserved, PageData;
    forall v: nat | IsPage(v, w.mapped) ensures PageData(w2.mem, v) == PageData(w.mem, v) {
      assert IsPage(v, w1.mapped) && IsPage(v, w2.mapped);
    }
  }

  lemma GrewItself(w: Window, o: Owners)
    requires Backed(w, o)
    ensures Grew(w, o, w, o)
  {
  }

  lemma ReadyNext(w: Window, o: Owners, w': Window, target: nat)
    requires Backed(w, o) && w.mapped < target <= HEAP_END && w'.mapped == w.mapped + PAGE
    requires forall i: nat :: FIRST_ENTRY <= i <= LAST_ENTRY ==> (TableAt(w'.mem, i) <==> TableAt(w.mem, i) || i == PdIndex(w.mapped))
    ensures TablesReady(w, target) <==> TableAt(w.mem, PdIndex(w.mapped)) && TablesReady(w', target)
  {
    assert IsPage(w.mapped, target);
    forall v: nat | IsPage(v, target) ensures FIRST_ENTRY <= PdIndex(v) <= LAST_ENTRY && (v > w.mapped ==> v >= w'.mapped) {
      Indices(v);
    }
  }

  lemma MadeNext(w: Window, w1: Window, w2: Window, first: bool, rest: bool)
    requires Extends(w, w1) && Extends(w1, w2) && TablesMade(w, w1, first) && TablesMade(w1, w2, rest)
    ensures TablesMade(w, w2, first || rest)
  {
    if first {
      var f: nat :| HeapTable(w1.mem, f) && !HeapTable(w.mem, f);
      ExtendsTables(w1, w2, f);
    } else if rest {
      var f: nat :| HeapTable(w2.mem, f) && !HeapTable(w1.mem, f);
      if HeapTable(w.mem, f) {
        ExtendsTables(w, w1, f);
      }
    }
  }

  lemma ClearedNext(w: Window, o: Owners, w1: Window, o1: Owners, w2: Window, o2: Owners)
    requires Backed(w, o) && w1.mapped == w.mapped + PAGE && PageData(w1.mem, w.mapped) == Some(ZeroPage())
    requires Grew(w1, o1, w2, o2) && NewCleared(w1, w2)
    ensures NewCleared(w, w2)
  {
    hide PageData, Conserved, UserSame, Inv;
    NextPages(w, o);
    forall v: nat | IsPage(v, w2.mapped) && v >= w.mapped ensures PageData(w2.mem, v) == Some(ZeroPage()) {
      if v < w1.mapped {
        assert IsPage(v, w1.mapped);
      }
    }
  }

  /** Growing maps exactly the pages up to the round-up of the target, all cleared; it makes a table
      exactly when one was missing, and leaves user memory and earlier pages alone. */
  lemma {:induction false} EnsureKeeps(w: Window, o: Owners, target: nat) returns (o': Owners)
    requires Backed(w, o) && target <= HEAP_END && EnsureSpace(w, target).Some?
    ensures var w' := EnsureSpace(w, target).value;
            && Grew(w, o, w', o') && NewCleared(w, w') && TablesMade(w, w', !TablesReady(w, target))
            && w'.mapped == if target <= w.mapped then w.mapped else RoundUp(target)
    decreases target - w.mapped
  {
    if w.mapped < target {
      hide Backed, MapOne, Grew, RoundUp, TablesReady, HeapTable, PageData;
      var w1, w2 := MapOne(w).value, EnsureSpace(w, target).value;
      var o1 := MapOneKeeps(w, o);
      assert Backed(w1, o1) && Extends(w, w1) by { GrewFacts(w, o, w1, o1); }
      WindowBounds(w1, o1);
      o' := EnsureKeeps(w1, o1, target);
      GrewFacts(w1, o1, w2, o');
      ReadyNext(w, o, w1, target);
      MadeNext(w, w1, w2, !TableAt(w.mem, PdIndex(w.mapped)), !TablesReady(w1, target));
      ClearedNext(w, o, w1, o1, w2, o');
      GrewTwice(w, o, w1, o1, w2, o');
      NextPage(w, o, target);
    } else {
      o' := o;
      GrewItself(w, o);
    }
  }

  lemma GrewFacts(w: Window, o: Owners, w': Window, o': Owners)
    requires Grew(w, o, w', o')
    ensures Backed(w', o') && Extends(w, w') && SameDirs(o, o')
  {
  }

  lemma NextPage(w: Window, o: Owners, target: nat)
    requires Backed(w, o) && w.mapped < target
    ensures target <= w.mapped + PAGE ==> RoundUp(target) == w.mapped + PAGE
  {
  }

  /** Frame `f` is behind a page from `target` up. */
  ghost predicate BacksFrom(w: Window, target: nat, f: nat) {
    exists v: nat :: IsPage(v, w.mapped) && v >= target && EntryFor(w.mem, v).number == f
  }

  lemma ShrankTwice(w: Window, o: Owners, w1: Window, o1: Owners, w2: Window, o2: Owners)
    requires Shrank(w, o, w1, o1) && Shrank(w1, o1, w2, o2)
    ensures Shrank(w, o, w2, o2)
  {
    ExtendsTwice(w2, w1, w);
    ConservedTwice(w, w1, w2);
    hide Backed, Conserved, PageData, HeapTable;
    forall v: nat | IsPage(v, w2.mapped) ensures PageData(w2.mem, v) == PageData(w.mem, v) {
      assert IsPage(v, w1.mapped) && IsPage(v, w.mapped);
    }
  }

  lemma ShrankItself(w: Window, o: Owners)
    requires Backed(w, o)
    ensures Shrank(w, o, w, o)
  {
  }

  lemma ShrankFacts(w: Window, o: Owners, w': Window, o': Owners)
    requires Shrank(w, o, w', o')
    ensures Backed(w', o') && Extends(w', w) && SameDirs(o, o') && w'.mem.slots == w.mem.slots
  {
  }

  lemma WholePage(w: Window, o: Owners, target: nat)
    requires Backed(w, o) && target % PAGE == 0 && w.mapped > target
    ensures w.mapped >= target + PAGE
  {
  }

  lemma BacksFromNext(w: Window, o: Owners, w1: Window, target: nat, f: nat)
    requires Backed(w, o) && w.mapped > target >= HEAP_START && target % PAGE == 0 && w1.mapped == w.mapped - PAGE && Extends(w1, w)
    ensures BacksFrom(w, target, f) <==> BacksFrom(w1, target, f) || f == LastFrame(w)
  {
    assert forall v: nat :: IsPage(v, w.mapped) <==> IsPage(v, w1.mapped) || v == w1.mapped;
    hide Backed, IsPage, EntryFor;
    if BacksFrom(w, target, f) {
      var v: nat :| IsPage(v, w.mapped) && v >= target && EntryFor(w.mem, v).number == f;
      assert v != w1.mapped ==> IsPage(v, w1.mapped) && EntryFor(w1.mem, v).number == f;
    }
  }

  /** Unmapping to a target frees exactly the frames behind the pages dropped, and leaves user
      memory, tables and the other pages alone. */
  lemma {:induction false} ReleaseKeeps(w: Window, o: Owners, target: nat) returns (o': Owners)
    requires Backed(w, o) && HEAP_START <= target && target % PAGE == 0
    ensures var w' := ReleasePages(w, target);
            && Shrank(w, o, w', o') && w'.mapped == (if w.mapped <= target then w.mapped else target)
            && (forall f: nat :: f in w'.mem.free <==> f in w.mem.free || BacksFrom(w, target, f))
    decreases w.mapped
  {
    if w.mapped > target {
      hide Backed, UnmapOne, Shrank, BacksFrom, LastFrame;
      var w1, w2 := UnmapOne(w), ReleasePages(w, target);
      var o1 := UnmapOneKeeps(w, o);
      ShrankFacts(w, o, w1, o1);
      WholePage(w, o, target);
      o' := ReleaseKeeps(w1, o1, target);
      ShrankTwice(w, o, w1, o1, w2, o');
      forall f: nat ensures BacksFrom(w, target, f) <==> BacksFrom(w1, target, f) || f == LastFrame(w) {
        BacksFromNext(w, o, w1, target, f);
      }
    } else {
      o' := o;
      ShrankItself(w, o);
    }
  }

  // ----- growing undone --------------------------------------------------------------------

  lemma FreeApart(w: Window, o: Owners, f: nat)
    requires Backed(w, o)
    ensures f in w.mem.free <==> InPool(w, f) && !Backs(w, f) && !HeapTable(w.mem, f)
  {
    if Backs(w, f) {
      BacksRole(w, o, f);
      OwnedNotFree(w.mem, o, f);
    }
    if HeapTable(w.mem, f) {
      TableRoleOf(w.mem, o, f);
      OwnedNotFree(w.mem, o, f);
    }
  }

  lemma SameBacks(w: Window, w1: Window, w2: Window, f: nat)
    requires Extends(w, w1) && Extends(w2, w1) && w2.mapped == w.mapped
    ensures Backs(w2, f) <==> Backs(w, f)
  {
    if Backs(w, f) {
      var v: nat :| IsPage(v, w.mapped) && EntryFor(w.mem, v).number == f;
      assert IsPage(v, w2.mapped) && EntryFor(w2.mem, v).number == f;
    }
  }

  /** Growing and shrinking back restores the free frames and the swap slots if and only if no table
      had to be made on the way: tables are never given back, and when no frame is left for one, a
      user page goes to disk. */
  lemma ReleaseRestoresIff(w: Window, o: Owners, target: nat)
    requires Backed(w, o) && target <= HEAP_END && EnsureSpace(w, target).Some?
    ensures var w2 := ReleasePages(EnsureSpace(w, target).value, w.mapped);
            && w2.mapped == w.mapped
            && (w2.mem.free == w.mem.free && w2.mem.slots == w.mem.slots <==> TablesReady(w, target))
  {
    hide Backed, Grew, Shrank, RoundUp, TablesReady, Backs, HeapTable, EnsureSpace, ReleasePages;
    WindowBounds(w, o);
    var w1 := EnsureSpace(w, target).value;
    var o1 := EnsureKeeps(w, o, target);
    GrewFacts(w, o, w1, o1);
    var w2 := ReleasePages(w1, w.mapped);
    var o2 := ReleaseKeeps(w1, o1, w.mapped);
    ShrankFacts(w1, o1, w2, o2);
    assert Conserved(w, w2) && forall f: nat :: HeapTable(w2.mem, f) <==> HeapTable(w1.mem, f) by {
      ThereAndBack(w, o, w1, o1, w2, o2);
    }
    forall f: nat
      ensures (Backs(w2, f) <==> Backs(w, f)) && (HeapTable(w.mem, f) ==> HeapTable(w1.mem, f))
      ensures f in w.mem.free <==> InPool(w, f) && !Backs(w, f) && !HeapTable(w.mem, f)
      ensures f in w2.mem.free <==> InPool(w2, f) && !Backs(w2, f) && !HeapTable(w2.mem, f)
    {
      SameBacks(w, w1, w2, f);
      FreeApart(w, o, f);
      FreeApart(w2, o2, f);
      if HeapTable(w.mem, f) {
        ExtendsTables(w, w1, f);
      }
    }
    if TablesReady(w, target) {
      assert w2.mem.free == w.mem.free;
    } else if w2.mem.slots == w.mem.slots {
      var t: nat :| HeapTable(w1.mem, t) && !HeapTable(w.mem, t);
      BacksNoTable(w2, o2, t);
      assert InPool(w2, t);
      assert t in w.mem.free && t !in w2.mem.free;
    }
  }

  lemma BacksNoTable(w: Window, o: Owners, t: nat)
    requires Backed(w, o) && HeapTable(w.mem, t)
    ensures !Backs(w, t)
  {
    TableRoleOf(w.mem, o, t);
    if Backs(w, t) {
      BacksRole(w, o, t);
    }
  }

  lemma ThereAndBack(w: Window, o: Owners, w1: Window, o1: Owners, w2: Window, o2: Owners)
    requires Grew(w, o, w1, o1) && Shrank(w1, o1, w2, o2)
    ensures Conserved(w, w2) && forall f: nat :: HeapTable(w2.mem, f) <==> HeapTable(w1.mem, f)
  {
    ConservedTwice(w, w1, w2);
  }
}
