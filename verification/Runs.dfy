/** Runs of the whole memory subsystem: whatever is swapped, mapped, created, copied or destroyed on
    the way, user memory behaves like plain memory. */
module MemoryRuns {
  import opened Wrappers
  import opened Pages
  import opened PhysicalFrames
  import opened SwapArea
  import opened Machines
  import opened Paging
  import opened UserMemory
  import opened AddressSpaces
  import opened Cloning
  import opened CloningElsewhere

  // ----- a caller maps a fresh frame -------------------------------------------------------

  /** `pmm_alloc_frame` followed by `paging_map`, as the program loader does: the frame is not
      cleared, and whatever the page was before is forgotten. */
  ghost function MapFresh(m: Machine, i: nat, j: nat, flags: Flags): (r: Option<Machine>)
    requires Shape(m)
    ensures r.Some? ==> Shape(r.value)
  {
    if m.free == {} then None
    else
      var f: UInt20 := Lowest(m.free);
      MapPage(m.(free := m.free - {f}), i, j, f, flags)
  }

  lemma PutOver(ram: Ram, t: nat, j: nat, w: Word, w': Word)
    ensures Put(Put(ram, t, j, w), t, j, w') == Put(ram, t, j, w')
  {
    if t < |ram| && j < ENTRIES {
      assert Put(Put(ram, t, j, w), t, j, w')[t] == Put(ram, t, j, w')[t];
    }
  }

  lemma PutApart(ram: Ram, d: nat, i: nat, w: Word, t: nat, j: nat, w': Word)
    requires d != t
    ensures Put(Put(ram, d, i, w), t, j, w') == Put(Put(ram, t, j, w'), d, i, w)
  {
    var a, b := Put(Put(ram, d, i, w), t, j, w'), Put(Put(ram, t, j, w'), d, i, w);
    forall g: nat | g < |ram| ensures a[g] == b[g] {
    }
  }

  /** Mapping a page forgets what its entry was. */
  lemma MapForgets(m: Machine, o: Owners, i: nat, j: nat, f: UInt20, flags: Flags)
    requires Inv(m, o) && i < RECURSIVE
    ensures MapPage(m, i, j, f, flags) == MapPage(Unmap(m, i, j), i, j, f, flags)
  {
    var pde := Get(m.ram, m.cur, i);
    if Present(pde) {
      var t, w := pde.number, Word(f, flags.(present := true));
      assert IsDir(o, m.cur) && Holds(o, t, TableRole(m.cur, i)) && t != m.cur;
      PutOver(m.ram, t, j, ZeroWord(), w);
      PutOver(Put(m.ram, m.cur, i, SetUser(pde)), t, j, ZeroWord(), w);
      PutApart(m.ram, m.cur, i, SetUser(pde), t, j, ZeroWord());
    }
  }

  /** Exactly one page changes: it holds what the frame held. */
  lemma MapFreshKeeps(m: Machine, o: Owners, i: nat, j: nat, flags: Flags) returns (o': Owners)
    requires Inv(m, o) && i < RECURSIVE && j < ENTRIES && MapFresh(m, i, j, flags).Some?
    ensures var m' := MapFresh(m, i, j, flags).value;
            && Inv(m', o') && SameDirs(o, o') && m'.cur == m.cur && OnlyPage(m, m', o, m.cur, i, j, PageAt(m.ram, Lowest(m.free)))
  {
    hide Inv, MapPage, SameBut;
    var f: UInt20 := Lowest(m.free);
    var m0, o0 := m.(free := m.free - {f}), o.(frames := o.frames[f := Kernel]);
    TakePlain(m, o, f);
    UnmapKeeps(m0, o0, i, j);
    MapForgets(m0, o0, i, j, f, flags);
    MapForgets(m0, o0, i, j, f, flags.(present := true));
    var mu := Unmap(m0, i, j);
    assert !Mapped(mu, i, j) && SlotOf(mu, i, j) == None && PageAt(mu.ram, f) == PageAt(m.ram, f) by { UnmapClears(m0, o0, i, j, f); }
    SamePresent(mu, i, j, f, flags);
    o' := InstallKeeps(mu, o0, i, j, f, flags.(present := true));
    var m' := MapFresh(m, i, j, flags).value;
    ButIsOnly(mu, m', o0, o', i, j, Get(m'.ram, m.cur, i).number, PageAt(m.ram, f));
    OnlyThenOnly(m, m0, mu, m', o, o0, i, j, PageAt(m.ram, f));
  }

  lemma SamePresent(m: Machine, i: nat, j: nat, f: UInt20, flags: Flags)
    requires Shape(m)
    ensures MapPage(m, i, j, f, flags.(present := true)) == MapPage(m, i, j, f, flags)
  {
    hide NeedTable, Put;
    assert flags.(present := true).(present := true) == flags.(present := true);
  }

  lemma UnmapClears(m: Machine, o: Owners, i: nat, j: nat, f: nat)
    requires Inv(m, o) && i < RECURSIVE && j < ENTRIES && Holds(o, f, Kernel)
    ensures var mu := Unmap(m, i, j); !Mapped(mu, i, j) && SlotOf(mu, i, j) == None && PageAt(mu.ram, f) == PageAt(m.ram, f)
  {
    var pde := Get(m.ram, m.cur, i);
    if Present(pde) {
      assert IsDir(o, m.cur) && Holds(o, pde.number, TableRole(m.cur, i));
    }
  }

  lemma OnlyThenOnly(m: Machine, m0: Machine, mu: Machine, m': Machine, o: Owners, o0: Owners, i: nat, j: nat, p: Page)
    requires m0.ram == m.ram && m0.store == m.store && m0.cur == m.cur && mu.cur == m.cur && m'.cur == m.cur && SameDirs(o, o0)
    requires forall d: nat, i': nat, j': nat :: IsDir(o0, d) && i' < USER_TABLES ==>
               Content(mu, d, i', j') == if d == m.cur && i' == i && j' == j then None else Content(m0, d, i', j')
    requires OnlyPage(mu, m', o0, m.cur, i, j, p)
    ensures OnlyPage(m, m', o, m.cur, i, j, p)
  {
    forall d: nat, i': nat, j': nat | IsDir(o, d) && i' < USER_TABLES
      ensures Content(m', d, i', j') == if d == m.cur && i' == i && j' == j then Some(p) else Content(m, d, i', j')
    {
      assert IsDir(o0, d);
      assert Content(m0, d, i', j') == Content(m, d, i', j');
    }
  }

  // ----- steps -----------------------------------------------------------------------------

  /** One step of the memory subsystem. Loads and stores include the faults they cause, and every
      allocation may evict pages. `MappedFresh` records what the fresh frame held. */
  datatype Event =
    | Loaded(i: nat, j: nat, user: bool)
    | Stored(i: nat, j: nat, k: Index, w: Word, user: bool)
    | SwappedOut(i: nat, j: nat)
    | Unmapped(i: nat, j: nat)
    | MappedFresh(i: nat, j: nat, flags: Flags, p: Page)
    | Switched(d: nat)
    | Created(d: nat)
    | Cloned(src: nat, d: nat)
    | Destroyed(d: nat)

  /** What a caller knows: the loaded directory and the address spaces that exist. */
  datatype View = View(cur: nat, dirs: set<nat>)

  /** No user page of directory `d` is on disk. */
  ghost predicate AllInMemory(m: Machine, d: nat) {
    forall i: nat, j: nat :: i < USER_TABLES && j < ENTRIES ==> !SwappedIn(m, d, i, j)
  }

  /** Callers pass addresses below the recursive slot and directories they were given; stores are
      to the user half; a directory is cloned while all of it is in memory, and the loaded one only
      with room for the copy. */
  ghost predicate Legal(m: Machine, v: View, e: Event) {
    match e
    case Loaded(i, j, _) => i < RECURSIVE && j < ENTRIES
    case Stored(i, j, _, _, _) => i < USER_TABLES && j < ENTRIES
    case SwappedOut(i, j) => i < RECURSIVE && j < ENTRIES
    case Unmapped(i, j) => i < RECURSIVE && j < ENTRIES
    case MappedFresh(i, j, _, _) => i < RECURSIVE && j < ENTRIES
    case Switched(d) => d in v.dirs
    case Created(_) => true
    case Cloned(src, _) => src in v.dirs && AllInMemory(m, src) && (src != v.cur || RoomToClone(m, src))
    case Destroyed(d) => d in v.dirs
  }

  /** The step on the machine; `None` if the kernel halts or a new frame is not the recorded one. */
  ghost function Step(m: Machine, e: Event): (r: Option<Machine>)
    requires Shape(m)
    ensures r.Some? ==> Shape(r.value)
  {
    match e
    case Loaded(i, j, user) => Access(m, i, j, user, false)
    case Stored(i, j, k, w, user) => Store(m, i, j, k, w, user)
    case SwappedOut(i, j) => Some(SwapOut(m, i, j).0)
    case Unmapped(i, j) => Some(Unmap(m, i, j))
    case MappedFresh(i, j, flags, p) => if m.free != {} && PageAt(m.ram, Lowest(m.free)) == p then MapFresh(m, i, j, flags) else None
    case Switched(d) => Some(m.(cur := d))
    case Created(d) => if Create(m).Some? && Create(m).value.1 == d then Some(Create(m).value.0) else None
    case Cloned(src, d) => if Clone(m, src).Some? && Clone(m, src).value.1 == d then Some(Clone(m, src).value.0) else None
    case Destroyed(d) => Some(Destroy(m, d))
  }

  ghost function ViewStep(v: View, e: Event): View {
    match e
    case Switched(d) => v.(cur := d)
    case Created(d) => v.(dirs := v.dirs + {d})
    case Cloned(_, d) => v.(dirs := v.dirs + {d})
    case Destroyed(d) => if d == v.cur then v else v.(dirs := v.dirs - {d})
    case _ => v
  }

  // ----- plain memory ----------------------------------------------------------------------

  /** Plain memory: the page at (i, j) of each address space, `None` until first touched. There are
      no frames in it, no disk, no eviction. */
  type Plain = (nat, nat, nat) -> Option<Page>

  ghost function PlainStep(p: Plain, v: View, e: Event): Plain {
    match e
    case Loaded(i0, j0, _) => (d: nat, i: nat, j: nat) => if d == v.cur && i == i0 && j == j0 then Some(Bytes(p(d, i, j))) else p(d, i, j)
    case Stored(i0, j0, k, w, _) => (d: nat, i: nat, j: nat) => if d == v.cur && i == i0 && j == j0 then Some(SetWord(Bytes(p(d, i, j)), k, w)) else p(d, i, j)
    case Unmapped(i0, j0) => (d: nat, i: nat, j: nat) => if d == v.cur && i == i0 && j == j0 then None else p(d, i, j)
    case MappedFresh(i0, j0, _, q) => (d: nat, i: nat, j: nat) => if d == v.cur && i == i0 && j == j0 then Some(q) else p(d, i, j)
    case Created(d0) => (d: nat, i: nat, j: nat) => if d == d0 then None else p(d, i, j)
    case Cloned(src, d0) => (d: nat, i: nat, j: nat) => if d == d0 then p(src, i, j) else p(d, i, j)
    case _ => p
  }

  /** The machine's user memory is the plain memory, for every address space that exists. */
  ghost predicate Agrees(m: Machine, o: Owners, p: Plain) {
    forall d: nat, i: nat, j: nat :: IsDir(o, d) && i < USER_TABLES && j < ENTRIES ==> Content(m, d, i, j) == p(d, i, j)
  }

  ghost predicate Knows(v: View, m: Machine, o: Owners) {
    v.cur == m.cur && forall d: nat :: d in v.dirs <==> IsDir(o, d)
  }

  ghost predicate Refined(m': Machine, o': Owners, v: View, e: Event, p: Plain) {
    Inv(m', o') && Knows(ViewStep(v, e), m', o') && Agrees(m', o', PlainStep(p, v, e))
  }

  ghost predicate Ready(m: Machine, o: Owners, v: View, e: Event, p: Plain) {
    Inv(m, o) && Knows(v, m, o) && Agrees(m, o, p) && Legal(m, v, e) && Step(m, e).Some?
  }

  /** A step that changes one page of the loaded directory. */
  lemma OnlyPageRefines(m: Machine, o: Owners, m': Machine, o': Owners, i: nat, j: nat, q: Page, v: View, e: Event, p: Plain)
    requires Knows(v, m, o) && Agrees(m, o, p) && Inv(m', o') && SameDirs(o, o') && m'.cur == m.cur && OnlyPage(m, m', o, m.cur, i, j, q)
    requires ViewStep(v, e) == v && i < RECURSIVE && j < ENTRIES
    requires i < USER_TABLES ==> PlainStep(p, v, e)(m.cur, i, j) == Some(q)
    requires forall d: nat, i': nat, j': nat :: d != m.cur || i' != i || j' != j ==> PlainStep(p, v, e)(d, i', j') == p(d, i', j')
    ensures Refined(m', o', v, e, p)
  {
    hide Inv, Content, PlainStep;
    forall d: nat, i': nat, j': nat | IsDir(o', d) && i' < USER_TABLES && j' < ENTRIES ensures Content(m', d, i', j') == PlainStep(p, v, e)(d, i', j') {
      assert IsDir(o, d);
    }
  }

  lemma AccessRefines(m: Machine, o: Owners, v: View, e: Event, p: Plain) returns (o': Owners)
    requires Ready(m, o, v, e, p) && (e.Loaded? || e.Stored?)
    ensures Refined(Step(m, e).value, o', v, e, p)
  {
    hide Inv, Access, Store, OnlyPage, Refined, Content;
    var m', q := Step(m, e).value, Bytes(Content(m, m.cur, e.i, e.j));
    assert IsDir(o, m.cur) by { LoadedIsDir(m, o); }
    assert e.i < USER_TABLES ==> Content(m, m.cur, e.i, e.j) == p(m.cur, e.i, e.j);
    if e.Loaded? {
      o' := AccessKeeps(m, o, e.i, e.j, e.user, false);
      OnlyPageRefines(m, o, m', o', e.i, e.j, q, v, e, p);
    } else {
      o' := StoreKeeps(m, o, e.i, e.j, e.k, e.w, e.user, m');
      OnlyPageRefines(m, o, m', o', e.i, e.j, SetWord(q, e.k, e.w), v, e, p);
    }
  }

  lemma LoadedIsDir(m: Machine, o: Owners)
    requires Inv(m, o)
    ensures IsDir(o, m.cur)
  {
  }

  lemma RemapRefines(m: Machine, o: Owners, v: View, e: Event, p: Plain) returns (o': Owners)
    requires Ready(m, o, v, e, p) && (e.SwappedOut? || e.Unmapped? || e.MappedFresh?)
    ensures Refined(Step(m, e).value, o', v, e, p)
  {
    hide MapFresh, OnlyPage;
    match e
    case SwappedOut(i, j) =>
      o' := SwapOutKeeps(m, o, i, j);
      hide Inv, SwapOut;
      var m' := Step(m, e).value;
      assert forall d: nat, i': nat, j': nat :: IsDir(o, d) && i' < USER_TABLES ==> Content(m', d, i', j') == Content(m, d, i', j');
    case Unmapped(i, j) =>
      o' := o;
      UnmapKeeps(m, o, i, j);
      hide Inv, Unmap;
    case MappedFresh(i, j, flags, q) =>
      o' := MapFreshKeeps(m, o, i, j, flags);
      OnlyPageRefines(m, o, Step(m, e).value, o', i, j, q, v, e, p);
  }

  lemma SpaceRefines(m: Machine, o: Owners, v: View, e: Event, p: Plain) returns (o': Owners)
    requires Ready(m, o, v, e, p) && (e.Switched? || e.Created? || e.Destroyed? || e.Cloned?)
    ensures Refined(Step(m, e).value, o', v, e, p)
  {
    match e
    case Switched(d) =>
      o' := o;
      assert SameContents(m, m.(cur := d), o);
    case Created(d) =>
      hide Inv, Create;
      o' := CreateKeeps(m, o);
      NewSpaceAgrees(m, o, Step(m, e).value, o', d, p, PlainStep(p, v, e));
    case Destroyed(d) =>
      o' := DestroyKeeps(m, o, d);
      hide Inv, Destroy;
      forall g: nat, i: nat, j: nat | IsDir(o', g) && i < USER_TABLES && j < ENTRIES ensures Content(Step(m, e).value, g, i, j) == p(g, i, j) {
        assert IsDir(o, g);
      }
    case Cloned(src, d) =>
      hide Inv, Clone;
      o' := CloneFaithful(m, o, src);
      NewSpaceAgrees(m, o, Step(m, e).value, o', d, p, PlainStep(p, v, e));
  }

  /** A new address space beside the old ones. */
  lemma NewSpaceAgrees(m: Machine, o: Owners, m': Machine, o': Owners, d: nat, p: Plain, p': Plain)
    requires Agrees(m, o, p) && AddsDir(o, o', d) && SameContents(m, m', o)
    requires forall i: nat, j: nat :: i < USER_TABLES && j < ENTRIES ==> Content(m', d, i, j) == p'(d, i, j)
    requires forall g: nat, i: nat, j: nat :: g != d ==> p'(g, i, j) == p(g, i, j)
    ensures Agrees(m', o', p')
  {
    hide Content;
    forall g: nat, i: nat, j: nat | IsDir(o', g) && i < USER_TABLES && j < ENTRIES ensures Content(m', g, i, j) == p'(g, i, j) {
      assert g == d || IsDir(o, g);
    }
  }

  /** Every step does to user memory what it does to plain memory. */
  lemma StepRefines(m: Machine, o: Owners, v: View, e: Event, p: Plain) returns (o': Owners)
    requires Ready(m, o, v, e, p)
    ensures Refined(Step(m, e).value, o', v, e, p)
  {
    hide Ready, Refined;
    if e.Loaded? || e.Stored? {
      o' := AccessRefines(m, o, v, e, p) by { assert Ready(m, o, v, e, p); }
    } else if e.SwappedOut? || e.Unmapped? || e.MappedFresh? {
      o' := RemapRefines(m, o, v, e, p);
    } else {
      o' := SpaceRefines(m, o, v, e, p);
    }
  }

  // ----- runs ------------------------------------------------------------------------------

  ghost function Run(m: Machine, es: seq<Event>): (r: Option<Machine>)
    requires Shape(m)
    ensures r.Some? ==> Shape(r.value)
    decreases |es|
  {
    if es == [] then Some(m)
    else if Step(m, es[0]).None? then None
    else Run(Step(m, es[0]).value, es[1..])
  }

  ghost predicate LegalRun(m: Machine, v: View, es: seq<Event>)
    requires Shape(m)
    decreases |es|
  {
    es == [] || (Legal(m, v, es[0]) && (Step(m, es[0]).Some? ==> LegalRun(Step(m, es[0]).value, ViewStep(v, es[0]), es[1..])))
  }

  ghost function ViewRun(v: View, es: seq<Event>): View
    decreases |es|
  {
    if es == [] then v else ViewRun(ViewStep(v, es[0]), es[1..])
  }

  ghost function PlainRun(p: Plain, v: View, es: seq<Event>): Plain
    decreases |es|
  {
    if es == [] then p else PlainRun(PlainStep(p, v, es[0]), ViewStep(v, es[0]), es[1..])
  }

  /** Swapping is invisible: over every run that does not halt, every page of every address space
      holds what plain memory holds after the same run, and the ownership invariant survives. */
  lemma {:induction false} RunRefines(m: Machine, o: Owners, v: View, es: seq<Event>, p: Plain) returns (o': Owners)
    requires Inv(m, o) && Knows(v, m, o) && Agrees(m, o, p) && LegalRun(m, v, es) && Run(m, es).Some?
    ensures Inv(Run(m, es).value, o') && Knows(ViewRun(v, es), Run(m, es).value, o')
    ensures Agrees(Run(m, es).value, o', PlainRun(p, v, es))
    decreases |es|
  {
    hide Inv, Knows, Agrees, Step, Legal, ViewStep, PlainStep;
    if es == [] {
      o' := o;
    } else {
      var o1 := StepRefines(m, o, v, es[0], p);
      o' := RunRefines(Step(m, es[0]).value, o1, ViewStep(v, es[0]), es[1..], PlainStep(p, v, es[0]));
    }
  }

  /** A load after any run returns the word that plain memory holds after the same run. */
  lemma LoadAfterRun(m: Machine, o: Owners, v: View, es: seq<Event>, p: Plain, i: nat, j: nat, k: nat, user: bool)
    requires Inv(m, o) && Knows(v, m, o) && Agrees(m, o, p) && LegalRun(m, v, es) && Run(m, es).Some?
    requires i < USER_TABLES && j < ENTRIES && k < PAGE_WORDS && Load(Run(m, es).value, i, j, k, user).Some?
    ensures Load(Run(m, es).value, i, j, k, user).value.1 == Bytes(PlainRun(p, v, es)(ViewRun(v, es).cur, i, j))[k]
  {
    hide Inv, LegalRun, Run, PlainRun, ViewRun, Load;
    var o' := RunRefines(m, o, v, es, p);
    var o'' := LoadReturnsContent(Run(m, es).value, o', i, j, k, user);
    LoadedIsDir(Run(m, es).value, o');
  }

  // ----- a machine to start from -----------------------------------------------------------

  ghost function FreshOwners(m: Machine, tables: set<nat>): Owners {
    Owners((map t | t in tables :: KernelTable)[m.cur := Directory], map[])
  }

  /** A machine with one directory, empty in the user half, over kernel tables that map the kernel
      image, meets the invariant and agrees with empty memory; entry 1023 may be anything. */
  lemma FreshMachine(m: Machine, tables: set<nat>)
    requires Shape(m) && m.base <= m.cur < |m.ram| && m.cur !in m.free && m.cur !in tables && m.slots == {} && m.handPd == 0 && m.handPt == 0
    requires forall t :: t in tables ==> m.base <= t < |m.ram| && t !in m.free
    requires forall k: nat :: k < USER_TABLES ==> !Present(Get(m.ram, m.cur, k))
    requires forall k: nat :: k < RECURSIVE && Present(Get(m.ram, m.cur, k)) ==> Get(m.ram, m.cur, k).number in tables && Get(m.ram, m.cur, k).flags.writable
    requires forall t: nat, k: nat :: t in tables ==> !IsSwapped(Get(m.ram, t, k)) && (Present(Get(m.ram, t, k)) ==> Get(m.ram, t, k).number < m.base)
    ensures Inv(m, FreshOwners(m, tables)) && Knows(View(m.cur, {m.cur}), m, FreshOwners(m, tables))
    ensures Agrees(m, FreshOwners(m, tables), (d: nat, i: nat, j: nat) => None)
  {
    var o := FreshOwners(m, tables);
    assert forall d: nat :: IsDir(o, d) <==> d == m.cur;
    assert forall t: nat :: IsTable(o, t) <==> t in tables;
  }
}
