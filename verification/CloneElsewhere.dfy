/** Copying an address space that is not the loaded one: whatever is evicted on the way belongs to
    another directory, so the copy is as faithful as with room to spare. */
module CloningElsewhere {
  import opened Wrappers
  import opened Pages
  import opened PhysicalFrames
  import opened SwapArea
  import opened Machines
  import opened Paging
  import opened Evictions
  import opened UserMemory
  import opened AddressSpaces
  import opened SwapSlots
  import opened Cloning

  // ----- tables out of the evictor's reach -------------------------------------------------

  /** Table `t` and the pages it maps are as they were. */
  ghost predicate TableSame(m: Machine, m': Machine, t: nat) {
    && (forall k: nat :: Get(m'.ram, t, k) == Get(m.ram, t, k))
    && (forall k: nat :: Present(Get(m.ram, t, k)) ==> PageAt(m'.ram, Get(m.ram, t, k).number) == PageAt(m.ram, Get(m.ram, t, k).number))
  }

  lemma TableSameTwice(m: Machine, m1: Machine, m2: Machine, t: nat)
    requires TableSame(m, m1, t) && TableSame(m1, m2, t)
    ensures TableSame(m, m2, t)
  {
  }

  /** Table `t` is a user table of a directory that is not loaded. */
  ghost predicate Elsewhere(m: Machine, o: Owners, t: nat) {
    t in o.frames && o.frames[t].UserTable? && o.frames[t].dir != m.cur
  }

  /** User tables of other directories, except `but`, are as they were. */
  ghost predicate OthersSame(m: Machine, o: Owners, m': Machine, o': Owners, but: nat) {
    forall t: nat :: Elsewhere(m, o, t) && t != but ==> Holds(o', t, o.frames[t]) && TableSame(m, m', t)
  }

  lemma SparedTable(m: Machine, o: Owners, m': Machine, t: nat)
    requires Inv(m, o) && Spares(m, o, m') && Elsewhere(m, o, t)
    ensures TableSame(m, m', t)
  {
    forall k: nat ensures Get(m'.ram, t, k) == Get(m.ram, t, k) {
      SparesEntries(m, o, m', t, k);
    }
    forall k: nat | Present(Get(m.ram, t, k))
      ensures PageAt(m'.ram, Get(m.ram, t, k).number) == PageAt(m.ram, Get(m.ram, t, k).number)
    {
      assert Holds(o, Get(m.ram, t, k).number, PageOf(t, k));
    }
  }

  /** What a step of the copy keeps: all contents, all directories, tables of other directories. */
  ghost predicate StepKeeps(m: Machine, o: Owners, m': Machine, o': Owners, but: nat) {
    && Inv(m', o') && SameDirs(o, o') && SameContents(m, m', o) && m'.cur == m.cur && |m'.ram| == |m.ram|
    && (forall g: nat, k: nat :: IsDir(o, g) ==> Get(m'.ram, g, k) == Get(m.ram, g, k))
    && OthersSame(m, o, m', o', but) && KeepsNames(m, o, m')
  }

  lemma AllocStep(m: Machine, o: Owners, but: nat) returns (o': Owners)
    requires Inv(m, o) && AllocZero(m).Some?
    ensures var (m', f) := AllocZero(m).value; StepKeeps(m, o, m', o', but) && HandedOut(m', o', f) && !Elsewhere(m, o, f) && !IsDir(o, f)
  {
    var (m', f) := AllocZero(m).value;
    var s := AllocOutcome(m, o);
    AllocNames(m, o);
    o' := AllocKeeps(m, o);
    forall t: nat | Elsewhere(m, o, t) ensures Holds(o', t, o.frames[t]) && TableSame(m, m', t) {
      SparedTable(m, o, m', t);
    }
  }

  lemma StepTwice(m: Machine, o: Owners, m1: Machine, o1: Owners, m2: Machine, o2: Owners, but: nat)
    requires StepKeeps(m, o, m1, o1, but) && StepKeeps(m1, o1, m2, o2, but)
    ensures StepKeeps(m, o, m2, o2, but)
  {
    hide Inv, TableSame, KeepsNames;
    NamesSame(m1, o1, o, m2);
    NamesTwice(m, o, m1, m2);
    forall t: nat | Elsewhere(m, o, t) && t != but ensures Holds(o2, t, o.frames[t]) && TableSame(m, m2, t) {
      assert Elsewhere(m1, o1, t);
      TableSameTwice(m, m1, m2, t);
    }
  }

  // ----- one page --------------------------------------------------------------------------

  /** Table `t` is being filled for entry `i` of directory `d`, which does not point to it yet. */
  ghost predicate Filling(m: Machine, o: Owners, t: nat, d: nat, i: nat) {
    && IsDir(o, d) && d != m.cur && i < USER_TABLES && Holds(o, t, UserTable(d, i)) && !Present(Get(m.ram, d, i))
  }

  lemma Unreached(m: Machine, o: Owners, t: nat, d: nat, i: nat)
    requires Inv(m, o) && Filling(m, o, t, d, i)
    ensures forall g: nat, k: nat :: IsDir(o, g) && k < RECURSIVE && Present(Get(m.ram, g, k)) ==> Get(m.ram, g, k).number != t
  {
    forall g: nat, k: nat | IsDir(o, g) && k < RECURSIVE && Present(Get(m.ram, g, k)) ensures Get(m.ram, g, k).number != t {
      assert Holds(o, Get(m.ram, g, k).number, TableRole(g, k));
    }
  }

  /** A fresh frame linked in the table being filled. */
  lemma FillStep(m: Machine, o: Owners, t: nat, d: nat, i: nat, j: nat, f: UInt20, p: Page, flags: Flags) returns (o': Owners)
    requires Inv(m, o) && Filling(m, o, t, d, i) && j < ENTRIES && Get(m.ram, t, j) == ZeroWord() && Holds(o, f, Kernel) && flags.present
    ensures var m' := m.(ram := Put(PutPage(m.ram, f, p), t, j, Word(f, flags)));
            && StepKeeps(m, o, m', o', t) && Filling(m', o', t, d, i)
            && Get(m'.ram, t, j) == Word(f, flags) && PageAt(m'.ram, f) == p
            && (forall k: nat :: k != j ==> Get(m'.ram, t, k) == Get(m.ram, t, k))
            && (forall g: nat :: g != t && g != f ==> PageAt(m'.ram, g) == PageAt(m.ram, g))
  {
    var m1 := m.(ram := PutPage(m.ram, f, p));
    KernelWrite(m, o, f, p);
    o' := LinkPage(m1, o, t, j, f, flags);
    var m' := m.(ram := Put(PutPage(m.ram, f, p), t, j, Word(f, flags)));
    Unreached(m, o, t, d, i);
    assert IsDir(o, d) && t != d && t != f;
    FillContents(m, o, m1, m', t, j, f, p);
    FillNames(m, o, m', t, f);
    forall g: nat | Elsewhere(m, o, g) && g != t ensures Holds(o', g, o.frames[g]) && TableSame(m, m', g) {
      assert g != f;
      FillOthers(m, o, m', t, f, g);
    }
  }

  lemma FillNames(m: Machine, o: Owners, m': Machine, t: nat, f: nat)
    requires Inv(m, o) && Holds(o, f, Kernel) && IsTable(o, t) && |m'.ram| == |m.ram| && m'.slots == m.slots
    requires forall x: nat :: x != t && x != f ==> PageAt(m'.ram, x) == PageAt(m.ram, x)
    requires forall g: nat, k: nat :: IsDir(o, g) && k < RECURSIVE && Present(Get(m.ram, g, k)) ==> Get(m.ram, g, k).number != t
    ensures KeepsNames(m, o, m')
  {
    forall s: nat | Named(m, o, s) ensures Named(m', o, s) {
      var g: nat, k: nat, x: nat :| IsDir(o, g) && k < RECURSIVE && SwappedAt(m, g, k, x, s);
      var u := Get(m.ram, g, k).number;
      assert Holds(o, u, TableRole(g, k));
      assert PageAt(m'.ram, g) == PageAt(m.ram, g) && PageAt(m'.ram, u) == PageAt(m.ram, u);
      assert SwappedAt(m', g, k, x, s);
    }
    forall s: nat | Named(m', o, s) ensures Named(m, o, s) {
      var g: nat, k: nat, x: nat :| IsDir(o, g) && k < RECURSIVE && SwappedAt(m', g, k, x, s);
      assert PageAt(m'.ram, g) == PageAt(m.ram, g);
      var u := Get(m.ram, g, k).number;
      assert Holds(o, u, TableRole(g, k));
      assert PageAt(m'.ram, u) == PageAt(m.ram, u);
      assert SwappedAt(m, g, k, x, s);
    }
  }

  lemma FillOthers(m: Machine, o: Owners, m': Machine, t: nat, f: nat, g: nat)
    requires Inv(m, o) && Elsewhere(m, o, g) && g != t && Holds(o, f, Kernel) && IsTable(o, t) && |m'.ram| == |m.ram|
    requires forall x: nat :: x != t && x != f ==> PageAt(m'.ram, x) == PageAt(m.ram, x)
    ensures TableSame(m, m', g)
  {
    assert PageAt(m'.ram, g) == PageAt(m.ram, g);
    forall k: nat | Present(Get(m.ram, g, k))
      ensures PageAt(m'.ram, Get(m.ram, g, k).number) == PageAt(m.ram, Get(m.ram, g, k).number)
    {
      assert Holds(o, Get(m.ram, g, k).number, PageOf(g, k));
    }
  }

  lemma FillContents(m: Machine, o: Owners, m1: Machine, m': Machine, t: nat, j: nat, f: nat, p: Page)
    requires Inv(m, o) && IsTable(o, t) && Holds(o, f, Kernel) && m1 == m.(ram := PutPage(m.ram, f, p)) && |m'.ram| == |m.ram|
    requires SameBut(m1, m', o, t, j, p)
    requires forall g: nat, k: nat :: IsDir(o, g) ==> Get(m'.ram, g, k) == Get(m.ram, g, k)
    requires forall g: nat, k: nat :: IsDir(o, g) && k < RECURSIVE && Present(Get(m.ram, g, k)) ==> Get(m.ram, g, k).number != t
    ensures SameContents(m, m', o)
  {
    forall g: nat, i: nat, k: nat | IsDir(o, g) && i < RECURSIVE ensures Content(m', g, i, k) == Content(m, g, i, k) {
      assert Content(m', g, i, k) == Content(m1, g, i, k);
      var w := Get(m.ram, g, i);
      if Present(w) {
        assert Holds(o, w.number, TableRole(g, i)) && w.number != f;
        assert Present(Get(m.ram, w.number, k)) ==> Get(m.ram, w.number, k).number != f;
      }
    }
  }

  // ----- one table -------------------------------------------------------------------------

  /** Up to entry `j`, table `t` has the flags and bytes of what table `s` mapped in `m0`; swapped
      and absent entries are left out. */
  ghost predicate CopiedTo(m0: Machine, s: nat, m: Machine, t: nat, j: nat) {
    forall k: nat ::
      if k < j && Present(Get(m0.ram, s, k)) then
        && Get(m.ram, t, k).flags == Get(m0.ram, s, k).flags
        && PageAt(m.ram, Get(m.ram, t, k).number) == PageAt(m0.ram, Get(m0.ram, s, k).number)
      else Get(m.ram, t, k) == ZeroWord()
  }

  ghost predicate Copying(m0: Machine, m: Machine, o: Owners, s: nat, t: nat, d: nat, i: nat, j: nat) {
    Inv(m, o) && Filling(m, o, t, d, i) && Elsewhere(m, o, s) && s != t && TableSame(m0, m, s) && CopiedTo(m0, s, m, t, j)
  }

  lemma StepIsStep(m: Machine, o: Owners, m': Machine, o': Owners, t: nat)
    requires StepKeeps(m, o, m', o', m.cur) && Inv(m, o)
    ensures StepKeeps(m, o, m', o', t)
    ensures forall g: nat :: Elsewhere(m, o, g) ==> Holds(o', g, o.frames[g]) && TableSame(m, m', g)
  {
    hide TableSame;
    assert IsDir(o, m.cur);
  }

  lemma CopyingAfterAlloc(m0: Machine, m: Machine, o: Owners, m1: Machine, o1: Owners, s: nat, t: nat, d: nat, i: nat, j: nat)
    requires Copying(m0, m, o, s, t, d, i, j) && StepKeeps(m, o, m1, o1, m.cur)
    ensures Copying(m0, m1, o1, s, t, d, i, j)
  {
    hide Inv, SameContents;
    StepIsStep(m, o, m1, o1, t);
    assert Elsewhere(m, o, t);
    TableSameTwice(m0, m, m1, s);
    forall k: nat ensures if k < j && Present(Get(m0.ram, s, k)) then
        && Get(m1.ram, t, k).flags == Get(m0.ram, s, k).flags
        && PageAt(m1.ram, Get(m1.ram, t, k).number) == PageAt(m0.ram, Get(m0.ram, s, k).number)
      else Get(m1.ram, t, k) == ZeroWord()
    {
      assert Get(m1.ram, t, k) == Get(m.ram, t, k);
    }
  }

  lemma CopyPageAny(m0: Machine, m: Machine, o: Owners, s: nat, t: nat, d: nat, i: nat, j: nat) returns (o': Owners)
    requires Copying(m0, m, o, s, t, d, i, j) && j < ENTRIES && Present(Get(m0.ram, s, j)) && CopyPage(m, s, t, j).Some?
    ensures var m' := CopyPage(m, s, t, j).value; StepKeeps(m, o, m', o', t) && Copying(m0, m', o', s, t, d, i, j + 1)
  {
    hide Inv, AllocZero, SameContents;
    var (m1, f) := AllocZero(m).value;
    var o1 := AllocStep(m, o, m.cur);
    CopyingAfterAlloc(m0, m, o, m1, o1, s, t, d, i, j);
    StepIsStep(m, o, m1, o1, t);
    var w := Get(m1.ram, s, j);
    assert w == Get(m0.ram, s, j) && s != f;
    var p := PageAt(m1.ram, w.number);
    o' := FillStep(m1, o1, t, d, i, j, f, p, w.flags);
    var m' := CopyPage(m, s, t, j).value;
    StepTwice(m, o, m1, o1, m', o', t);
    CopiedOneMore(m0, m1, o1, m', s, t, d, i, j, f);
    TableSameTwice(m0, m1, m', s);
  }

  lemma CopiedOneMore(m0: Machine, m: Machine, o: Owners, m': Machine, s: nat, t: nat, d: nat, i: nat, j: nat, f: UInt20)
    requires Copying(m0, m, o, s, t, d, i, j) && Present(Get(m0.ram, s, j)) && Holds(o, f, Kernel)
    requires Get(m'.ram, t, j) == Word(f, Get(m0.ram, s, j).flags) && PageAt(m'.ram, f) == PageAt(m0.ram, Get(m0.ram, s, j).number)
    requires forall k: nat :: k != j ==> Get(m'.ram, t, k) == Get(m.ram, t, k)
    requires forall g: nat :: g != t && g != f ==> PageAt(m'.ram, g) == PageAt(m.ram, g)
    ensures CopiedTo(m0, s, m', t, j + 1)
  {
    forall k: nat | k < j && Present(Get(m0.ram, s, k))
      ensures PageAt(m'.ram, Get(m.ram, t, k).number) == PageAt(m.ram, Get(m.ram, t, k).number)
    {
      assert Present(Get(m.ram, t, k)) && IsTable(o, t);
      assert Holds(o, Get(m.ram, t, k).number, PageOf(t, k));
    }
  }

  lemma {:induction false} CopyPagesAny(m0: Machine, m: Machine, o: Owners, s: nat, t: nat, d: nat, i: nat, j: nat) returns (o': Owners)
    requires Copying(m0, m, o, s, t, d, i, j) && j <= ENTRIES && CopyPages(m, s, t, j).Some?
    ensures var m' := CopyPages(m, s, t, j).value; StepKeeps(m, o, m', o', t) && Copying(m0, m', o', s, t, d, i, ENTRIES)
    decreases ENTRIES - j
  {
    hide Inv, CopyPage, Filling, Elsewhere, CopiedTo, OthersSame, SameContents;
    if j == ENTRIES {
      o' := o;
      StepItself(m, o, t);
    } else {
      assert Get(m.ram, s, j) == Get(m0.ram, s, j);
      if Present(Get(m.ram, s, j)) {
        var o1 := CopyPageAny(m0, m, o, s, t, d, i, j);
        var m1 := CopyPage(m, s, t, j).value;
        o' := CopyPagesAny(m0, m1, o1, s, t, d, i, j + 1);
        StepTwice(m, o, m1, o1, CopyPages(m, s, t, j).value, o', t);
      } else {
        NothingToCopy(m0, s, m, t, j);
        o' := CopyPagesAny(m0, m, o, s, t, d, i, j + 1);
      }
    }
  }

  lemma StepItself(m: Machine, o: Owners, but: nat)
    requires Inv(m, o)
    ensures StepKeeps(m, o, m, o, but)
  {
  }

  lemma NothingToCopy(m0: Machine, s: nat, m: Machine, t: nat, j: nat)
    requires CopiedTo(m0, s, m, t, j) && !Present(Get(m0.ram, s, j))
    ensures CopiedTo(m0, s, m, t, j + 1)
  {
  }

  // ----- the whole copy --------------------------------------------------------------------

  /** Page (k, j) of the copy, once the first `i` tables are done. */
  ghost function Expected(m0: Machine, src: nat, i: nat, k: nat, j: nat): Option<Page> {
    if k < i && ResidentIn(m0, src, k, j) then Content(m0, src, k, j) else None
  }

  /** The first `i` tables are copied; everything else is as it was in `m0`. */
  ghost predicate Underway(m0: Machine, o0: Owners, m: Machine, o: Owners, src: nat, d: nat, i: nat) {
    && Inv(m0, o0) && Inv(m, o) && IsDir(o0, src) && src != m0.cur && m.cur == m0.cur && |m.ram| == |m0.ram|
    && AddsDir(o0, o, d) && d != m.cur && SameContents(m0, m, o0)
    && (forall g: nat, k: nat :: IsDir(o0, g) ==> Get(m.ram, g, k) == Get(m0.ram, g, k))
    && OthersSame(m0, o0, m, o, m0.cur)
    && (forall k: nat, j: nat :: k < USER_TABLES && j < ENTRIES ==> Content(m, d, k, j) == Expected(m0, src, i, k, j))
    && (forall k: nat :: i <= k ==> Get(m.ram, d, k) == ZeroWord())
    && CarriesNames(m0, o0, m, o)
  }

  lemma SourceTableOf(m0: Machine, o0: Owners, m: Machine, o: Owners, src: nat, d: nat, i: nat)
    requires Underway(m0, o0, m, o, src, d, i) && i < USER_TABLES && Present(Get(m0.ram, src, i))
    ensures var s := Get(m0.ram, src, i).number;
            && Elsewhere(m, o, s) && Holds(o, s, UserTable(src, i)) && TableSame(m0, m, s) && Get(m0.ram, src, i).flags.writable
  {
    var s := Get(m0.ram, src, i).number;
    assert Holds(o0, s, UserTable(src, i));
    assert Elsewhere(m0, o0, s) && s != m0.cur by { assert IsDir(o0, m0.cur); }
  }

  /** Entering the filled table in the directory changes nothing but that entry. */
  lemma EnterTable(m: Machine, o: Owners, t: UInt20, d: nat, i: nat, flags: Flags)
    requires Inv(m, o) && Filling(m, o, t, d, i) && flags.present && flags.writable
    ensures var m' := m.(ram := Put(m.ram, d, i, Word(t, flags)));
            && Inv(m', o) && Get(m'.ram, d, i) == Word(t, flags)
            && (forall g: nat, k: nat :: g != d || k != i ==> Get(m'.ram, g, k) == Get(m.ram, g, k))
            && (forall g: nat, k: nat, j: nat :: IsDir(o, g) && k < RECURSIVE && (g != d || k != i) ==> Content(m', g, k, j) == Content(m, g, k, j))
            && (forall g: nat :: IsTable(o, g) ==> TableSame(m, m', g) || Holds(o, g, KernelTable))
            && (forall j: nat :: Content(m', d, i, j) == TableContent(m, t, j))
  {
    LinkFilled(m, o, d, i, t, flags);
    var m' := m.(ram := Put(m.ram, d, i, Word(t, flags)));
    assert d < |m.ram|;
    forall g: nat, k: nat | IsTable(o, g) ensures TableContent(m', g, k) == TableContent(m, g, k) {
      assert g != d && (Present(Get(m.ram, g, k)) ==> Get(m.ram, g, k).number != d);
    }
    forall g: nat | IsTable(o, g) && !Holds(o, g, KernelTable) ensures TableSame(m, m', g) {
      forall k: nat | Present(Get(m.ram, g, k))
        ensures PageAt(m'.ram, Get(m.ram, g, k).number) == PageAt(m.ram, Get(m.ram, g, k).number)
      {
        assert Holds(o, Get(m.ram, g, k).number, PageOf(g, k));
      }
    }
  }

  lemma EnterNames(m: Machine, o: Owners, t: UInt20, d: nat, i: nat, flags: Flags)
    requires Inv(m, o) && Filling(m, o, t, d, i) && forall k: nat :: !IsSwapped(Get(m.ram, t, k))
    ensures KeepsNames(m, o, m.(ram := Put(m.ram, d, i, Word(t, flags))))
  {
    var m' := m.(ram := Put(m.ram, d, i, Word(t, flags)));
    forall s: nat | Named(m, o, s) ensures Named(m', o, s) {
      var g: nat, k: nat, x: nat :| IsDir(o, g) && k < RECURSIVE && SwappedAt(m, g, k, x, s);
      assert Holds(o, Get(m.ram, g, k).number, TableRole(g, k));
      assert SwappedAt(m', g, k, x, s);
    }
    forall s: nat | Named(m', o, s) ensures Named(m, o, s) {
      var g: nat, k: nat, x: nat :| IsDir(o, g) && k < RECURSIVE && SwappedAt(m', g, k, x, s);
      assert t != d && Get(m'.ram, t, x) == Get(m.ram, t, x);
      assert g != d || k != i;
      assert Holds(o, Get(m.ram, g, k).number, TableRole(g, k));
      assert SwappedAt(m, g, k, x, s);
    }
  }

  lemma StartFilling(m: Machine, o: Owners, d: nat, i: nat) returns (o1: Owners)
    requires Inv(m, o) && IsDir(o, d) && d != m.cur && i < USER_TABLES && !Present(Get(m.ram, d, i)) && AllocZero(m).Some?
    ensures var (m1, t) := AllocZero(m).value;
            && StepKeeps(m, o, m1, o1, m.cur) && Filling(m1, o1, t, d, i) && !Elsewhere(m, o, t)
            && (forall k: nat :: Get(m1.ram, t, k) == ZeroWord())
  {
    hide AllocZero;
    var (m1, t) := AllocZero(m).value;
    var o0 := AllocStep(m, o, m.cur);
    AdoptTable(m1, o0, t, d, i);
    o1 := o0.(frames := o0.frames[t := UserTable(d, i)]);
    hide Inv, TableSame, SameContents;
    assert forall g: nat :: IsDir(o0, g) <==> IsDir(o1, g);
    forall g: nat | Elsewhere(m, o, g) && g != m.cur ensures Holds(o1, g, o.frames[g]) && TableSame(m, m1, g) {
      assert g != t;
    }
  }

  /** From the copied table to the pages of the new directory entry. */
  lemma CopiedContent(m0: Machine, src: nat, i: nat, m: Machine, t: nat, j: nat)
    requires i < USER_TABLES && Present(Get(m0.ram, src, i)) && CopiedTo(m0, Get(m0.ram, src, i).number, m, t, ENTRIES) && j < ENTRIES
    ensures TableContent(m, t, j) == Expected(m0, src, i + 1, i, j)
  {
  }

  lemma OthersTwice(m: Machine, o: Owners, m1: Machine, o1: Owners, m2: Machine, o2: Owners, t: nat)
    requires OthersSame(m, o, m1, o1, m.cur) && m1.cur == m.cur && !Elsewhere(m, o, t)
    requires forall g: nat :: Elsewhere(m1, o1, g) && g != t ==> Holds(o2, g, o1.frames[g]) && TableSame(m1, m2, g)
    ensures OthersSame(m, o, m2, o2, m.cur)
  {
    forall g: nat | Elsewhere(m, o, g) && g != m.cur ensures Holds(o2, g, o.frames[g]) && TableSame(m, m2, g) {
      assert Elsewhere(m1, o1, g) && g != t;
      TableSameTwice(m, m1, m2, g);
    }
  }

  /** The table built for entry `i`, not entered yet. */
  ghost predicate Built(m0: Machine, o0: Owners, m: Machine, o: Owners, src: nat, d: nat, i: nat, m2: Machine, o2: Owners, t: nat) {
    && Underway(m0, o0, m, o, src, d, i) && i < USER_TABLES && Present(Get(m0.ram, src, i))
    && Inv(m2, o2) && Filling(m2, o2, t, d, i) && SameDirs(o, o2) && SameContents(m, m2, o) && m2.cur == m.cur && |m2.ram| == |m.ram|
    && (forall g: nat, k: nat :: IsDir(o, g) ==> Get(m2.ram, g, k) == Get(m.ram, g, k))
    && KeepsNames(m, o, m2) && OthersSame(m, o, m2, o2, m.cur) && CopiedTo(m0, Get(m0.ram, src, i).number, m2, t, ENTRIES)
    && !Elsewhere(m0, o0, t)
  }

  lemma BuildAny(m0: Machine, o0: Owners, m: Machine, o: Owners, src: nat, d: nat, i: nat) returns (m2: Machine, o2: Owners, t: UInt20)
    requires Underway(m0, o0, m, o, src, d, i) && i < USER_TABLES && Present(Get(m0.ram, src, i)) && CopyTable(m, src, d, i).Some?
    ensures Built(m0, o0, m, o, src, d, i, m2, o2, t)
    ensures CopyTable(m, src, d, i) == Some(m2.(ram := Put(m2.ram, d, i, Word(t, Get(m0.ram, src, i).flags))))
  {
    hide Inv, AllocZero, CopyPages, SameContents, Expected, TableSame;
    var s := Get(m0.ram, src, i).number;
    SourceTableOf(m0, o0, m, o, src, d, i);
    assert Get(m.ram, src, i) == Get(m0.ram, src, i);
    var m1 := AllocZero(m).value.0;
    t := AllocZero(m).value.1;
    var o1 := StartFilling(m, o, d, i);
    StepIsStep(m, o, m1, o1, t);
    TableSameTwice(m0, m, m1, s);
    assert !Elsewhere(m0, o0, t) by { NotThereBefore(m0, o0, m, o, src, d, i, t); }
    o2 := CopyPagesAny(m0, m1, o1, s, t, d, i, 0);
    m2 := CopyPages(m1, s, t, 0).value;
    OthersTwice(m, o, m1, o1, m2, o2, t);
    SameTwice(m, o, m1, o1, m2);
    assert KeepsNames(m, o, m2) by {
      NamesSame(m1, o1, o, m2);
      NamesTwice(m, o, m1, m2);
    }
    assert IsDir(o, src);
  }

  lemma NotThereBefore(m0: Machine, o0: Owners, m: Machine, o: Owners, src: nat, d: nat, i: nat, t: nat)
    requires Underway(m0, o0, m, o, src, d, i) && !Elsewhere(m, o, t)
    ensures !Elsewhere(m0, o0, t)
  {
    assert IsDir(o0, m0.cur);
    assert Elsewhere(m0, o0, t) ==> Holds(o, t, o0.frames[t]);
  }

  lemma SameTwice(m: Machine, o: Owners, m1: Machine, o1: Owners, m2: Machine)
    requires SameContents(m, m1, o) && SameDirs(o, o1) && SameContents(m1, m2, o1)
    ensures SameContents(m, m2, o)
  {
  }

  lemma EnterKeeps(m0: Machine, o0: Owners, m: Machine, o: Owners, src: nat, d: nat, i: nat, m2: Machine, o2: Owners, t: UInt20)
    requires Built(m0, o0, m, o, src, d, i, m2, o2, t) && Get(m0.ram, src, i).flags.writable
    ensures Underway(m0, o0, m2.(ram := Put(m2.ram, d, i, Word(t, Get(m0.ram, src, i).flags))), o2, src, d, i + 1)
  {
    var m' := m2.(ram := Put(m2.ram, d, i, Word(t, Get(m0.ram, src, i).flags)));
    EnterTable(m2, o2, t, d, i, Get(m0.ram, src, i).flags);
    hide Inv, TableSame, CopiedTo;
    forall k: nat, j: nat | k < USER_TABLES && j < ENTRIES ensures Content(m', d, k, j) == Expected(m0, src, i + 1, k, j) {
      EnteredContent(m0, o0, m, o, src, d, i, m2, o2, t, k, j);
    }
    assert SameContents(m0, m', o0) by { EnteredSame(m0, o0, m, o, src, d, i, m2, o2, t); }
    assert OthersSame(m0, o0, m', o2, m0.cur) by { EnteredOthers(m0, o0, m, o, src, d, i, m2, o2, t); }
    assert CarriesNames(m0, o0, m', o2) by { EnteredNames(m0, o0, m, o, src, d, i, m2, o2, t); }
  }

  lemma EnteredContent(m0: Machine, o0: Owners, m: Machine, o: Owners, src: nat, d: nat, i: nat, m2: Machine, o2: Owners, t: UInt20, k: nat, j: nat)
    requires Built(m0, o0, m, o, src, d, i, m2, o2, t) && Get(m0.ram, src, i).flags.writable && k < USER_TABLES && j < ENTRIES
    ensures Content(m2.(ram := Put(m2.ram, d, i, Word(t, Get(m0.ram, src, i).flags))), d, k, j) == Expected(m0, src, i + 1, k, j)
  {
    EnterTable(m2, o2, t, d, i, Get(m0.ram, src, i).flags);
    hide Inv, TableSame, OthersSame;
    assert IsDir(o, d) && IsDir(o2, d);
    if k == i {
      CopiedContent(m0, src, i, m2, t, j);
    } else {
      assert Content(m2, d, k, j) == Content(m, d, k, j) == Expected(m0, src, i, k, j);
    }
  }

  lemma EnteredSame(m0: Machine, o0: Owners, m: Machine, o: Owners, src: nat, d: nat, i: nat, m2: Machine, o2: Owners, t: UInt20)
    requires Built(m0, o0, m, o, src, d, i, m2, o2, t) && Get(m0.ram, src, i).flags.writable
    ensures SameContents(m0, m2.(ram := Put(m2.ram, d, i, Word(t, Get(m0.ram, src, i).flags))), o0)
  {
    var m' := m2.(ram := Put(m2.ram, d, i, Word(t, Get(m0.ram, src, i).flags)));
    EnterTable(m2, o2, t, d, i, Get(m0.ram, src, i).flags);
    hide Inv, TableSame, OthersSame, CopiedTo, Content;
    forall g: nat, k: nat, j: nat | IsDir(o0, g) && k < RECURSIVE ensures Content(m', g, k, j) == Content(m0, g, k, j) {
      assert IsDir(o, g) && IsDir(o2, g) && g != d;
    }
  }

  lemma EnteredOthers(m0: Machine, o0: Owners, m: Machine, o: Owners, src: nat, d: nat, i: nat, m2: Machine, o2: Owners, t: UInt20)
    requires Built(m0, o0, m, o, src, d, i, m2, o2, t) && Get(m0.ram, src, i).flags.writable
    ensures OthersSame(m0, o0, m2.(ram := Put(m2.ram, d, i, Word(t, Get(m0.ram, src, i).flags))), o2, m0.cur)
  {
    var m' := m2.(ram := Put(m2.ram, d, i, Word(t, Get(m0.ram, src, i).flags)));
    EnterTable(m2, o2, t, d, i, Get(m0.ram, src, i).flags);
    assert IsDir(o, m.cur);
    hide Inv, TableSame, CopiedTo, SameContents, Expected;
    forall g: nat | Elsewhere(m0, o0, g) && g != m0.cur ensures Holds(o2, g, o0.frames[g]) && TableSame(m0, m', g) {
      assert Elsewhere(m, o, g) && g != m.cur;
      assert TableSame(m, m2, g) && Holds(o2, g, o0.frames[g]);
      TableSameTwice(m0, m, m2, g);
      assert IsTable(o2, g);
      TableSameTwice(m0, m2, m', g);
    }
  }

  lemma NoneSwapped(m0: Machine, s: nat, m: Machine, t: nat)
    requires CopiedTo(m0, s, m, t, ENTRIES)
    ensures forall k: nat :: !IsSwapped(Get(m.ram, t, k))
  {
  }

  lemma EnteredNames(m0: Machine, o0: Owners, m: Machine, o: Owners, src: nat, d: nat, i: nat, m2: Machine, o2: Owners, t: UInt20)
    requires Built(m0, o0, m, o, src, d, i, m2, o2, t) && Get(m0.ram, src, i).flags.writable
    ensures CarriesNames(m0, o0, m2.(ram := Put(m2.ram, d, i, Word(t, Get(m0.ram, src, i).flags))), o2)
  {
    hide Inv, SameContents, OthersSame, CopiedTo, Expected, Named;
    var m' := m2.(ram := Put(m2.ram, d, i, Word(t, Get(m0.ram, src, i).flags)));
    NoneSwapped(m0, Get(m0.ram, src, i).number, m2, t);
    EnterNames(m2, o2, t, d, i, Get(m0.ram, src, i).flags);
    NamesSame(m2, o2, o, m');
    NamesTwice(m, o, m2, m');
    CarriesTwice(m0, o0, m, o, m');
    forall s: nat ensures Named(m', o, s) <==> Named(m', o2, s) {
      SameNamed(m', o, o2, s);
    }
  }

  lemma {:induction false} CopyTablesAny(m0: Machine, o0: Owners, m: Machine, o: Owners, src: nat, d: nat, i: nat) returns (o': Owners)
    requires Underway(m0, o0, m, o, src, d, i) && i <= USER_TABLES && CopyTables(m, src, d, i).Some?
    ensures Underway(m0, o0, CopyTables(m, src, d, i).value, o', src, d, USER_TABLES)
    decreases USER_TABLES - i
  {
    hide Inv, CopyTable, SameContents, OthersSame, Expected;
    o' := o;
    if i < USER_TABLES {
      assert Get(m.ram, src, i) == Get(m0.ram, src, i);
      if Present(Get(m.ram, src, i)) {
        var m2, o2, t := BuildAny(m0, o0, m, o, src, d, i);
        SourceTableOf(m0, o0, m, o, src, d, i);
        EnterKeeps(m0, o0, m, o, src, d, i, m2, o2, t);
        o' := CopyTablesAny(m0, o0, CopyTable(m, src, d, i).value, o2, src, d, i + 1);
      } else {
        NoTable(m0, o0, m, o, src, d, i);
        o' := CopyTablesAny(m0, o0, m, o, src, d, i + 1);
      }
    }
  }

  lemma NoTable(m0: Machine, o0: Owners, m: Machine, o: Owners, src: nat, d: nat, i: nat)
    requires Underway(m0, o0, m, o, src, d, i) && !Present(Get(m0.ram, src, i))
    ensures Underway(m0, o0, m, o, src, d, i + 1)
  {
    forall k: nat, j: nat | k < USER_TABLES && j < ENTRIES ensures Expected(m0, src, i + 1, k, j) == Expected(m0, src, i, k, j) {
    }
  }

  lemma StartAny(m: Machine, o: Owners, src: nat) returns (o1: Owners)
    requires Inv(m, o) && IsDir(o, src) && src != m.cur && AllocZero(m).Some?
    ensures Underway(m, o, AllocZero(m).value.0, o1, src, AllocZero(m).value.1, 0)
  {
    hide AllocZero;
    var (m1, d) := AllocZero(m).value;
    var o0 := AllocStep(m, o, m.cur);
    o1 := o0.(frames := o0.frames[d := Directory]);
    assert forall k: nat :: Get(m1.ram, d, k) == ZeroWord();
    assert Inv(m1, o1);
    assert IsDir(o0, m.cur) && d != m.cur;
    MoreDirectories(m, o, m1, o1);
    hide Inv, TableSame, SameContents;
    forall g: nat | Elsewhere(m, o, g) && g != m.cur ensures Holds(o1, g, o.frames[g]) && TableSame(m, m1, g) {
      assert g != d;
    }
  }

  lemma FinishAny(m: Machine, o: Owners, m2: Machine, o2: Owners, src: nat, d: UInt20)
    requires Underway(m, o, m2, o2, src, d, USER_TABLES)
    ensures var m' := m2.(ram := PutPage(m2.ram, d, ClonedPage(m2, src, d)));
            && Inv(m', o2) && SameContents(m, m', o) && CarriesNames(m, o, m', o2)
            && (forall i: nat, j: nat :: i < USER_TABLES && j < ENTRIES ==> Content(m', d, i, j) == Expected(m, src, USER_TABLES, i, j))
  {
    var m' := m2.(ram := PutPage(m2.ram, d, ClonedPage(m2, src, d)));
    assert src != d && IsDir(o2, src);
    ClonesKernelHalf(m2, o2, src, d);
    forall t: nat, k: nat | IsTable(o2, t) ensures TableContent(m', t, k) == TableContent(m2, t, k) {
      assert t != d && (Present(Get(m2.ram, t, k)) ==> Get(m2.ram, t, k).number != d);
    }
    FinishNames(m2, o2, m', src, d);
    CarriesTwice(m, o, m2, o2, m');
    hide OthersSame, Expected;
    forall g: nat, i: nat, j: nat | IsDir(o2, g) && i < RECURSIVE && (g != d || i < USER_TABLES) ensures Content(m', g, i, j) == Content(m2, g, i, j) {
      assert Get(m'.ram, g, i) == Get(m2.ram, g, i);
      assert Present(Get(m2.ram, g, i)) ==> Holds(o2, Get(m2.ram, g, i).number, TableRole(g, i));
    }
  }

  /** Filling in the kernel half takes no slot from anyone. */
  lemma FinishNames(m: Machine, o: Owners, m': Machine, src: nat, d: nat)
    requires Inv(m, o) && IsDir(o, src) && IsDir(o, d) && src != d && |m'.ram| == |m.ram| && m'.slots == m.slots
    requires forall g: nat :: g != d ==> PageAt(m'.ram, g) == PageAt(m.ram, g)
    requires forall k: nat :: k < USER_TABLES ==> Get(m'.ram, d, k) == Get(m.ram, d, k)
    requires forall k: nat :: USER_TABLES <= k ==> Get(m.ram, d, k) == ZeroWord()
    requires forall k: nat :: USER_TABLES <= k < RECURSIVE ==> Get(m'.ram, d, k) == Get(m.ram, src, k)
    ensures KeepsNames(m, o, m')
  {
    forall s: nat | Named(m, o, s) ensures Named(m', o, s) {
      var g: nat, k: nat, x: nat :| IsDir(o, g) && k < RECURSIVE && SwappedAt(m, g, k, x, s);
      var u := Get(m.ram, g, k).number;
      assert Holds(o, u, TableRole(g, k));
      assert PageAt(m'.ram, u) == PageAt(m.ram, u);
      assert g != d ==> PageAt(m'.ram, g) == PageAt(m.ram, g);
      assert SwappedAt(m', g, k, x, s);
    }
    forall s: nat | Named(m', o, s) ensures Named(m, o, s) {
      var g: nat, k: nat, x: nat :| IsDir(o, g) && k < RECURSIVE && SwappedAt(m', g, k, x, s);
      var g' := if g == d && k >= USER_TABLES then src else g;
      assert g != d ==> PageAt(m'.ram, g) == PageAt(m.ram, g);
      assert Get(m.ram, g', k) == Get(m'.ram, g, k);
      var u := Get(m.ram, g', k).number;
      assert IsDir(o, g') && Holds(o, u, TableRole(g', k));
      assert PageAt(m'.ram, u) == PageAt(m.ram, u);
      assert SwappedAt(m, g', k, x, s);
    }
  }

  /** The copy of a directory that is not loaded, whatever it takes to find frames: it holds exactly
      what the source holds if and only if no user page of the source is on disk. */
  lemma CloneElsewhereIff(m: Machine, o: Owners, src: nat) returns (o': Owners)
    requires Inv(m, o) && IsDir(o, src) && src != m.cur && Clone(m, src).Some?
    ensures var (m', d) := Clone(m, src).value;
            && Inv(m', o') && AddsDir(o, o', d) && SameContents(m, m', o) && CarriesNames(m, o, m', o') && m'.cur == m.cur
            && ((forall i: nat, j: nat :: i < USER_TABLES && j < ENTRIES ==> Content(m', d, i, j) == Content(m, src, i, j))
                <==> forall i: nat, j: nat :: i < USER_TABLES && j < ENTRIES ==> !SwappedIn(m, src, i, j))
  {
    hide Inv, AllocZero, CopyTables, SameContents, OthersSame, Content;
    var (m1, d) := AllocZero(m).value;
    var o1 := StartAny(m, o, src);
    o' := CopyTablesAny(m, o, m1, o1, src, d, 0);
    FinishAny(m, o, CopyTables(m1, src, d, 0).value, o', src, d);
    var m' := Clone(m, src).value.0;
    forall i: nat, j: nat | i < USER_TABLES && j < ENTRIES
      ensures Content(m', d, i, j) == Content(m, src, i, j) <==> !SwappedIn(m, src, i, j)
    {
      assert Content(m', d, i, j) == Expected(m, src, USER_TABLES, i, j);
      ResidentOrNot(m, src, i, j);
    }
  }

  lemma ResidentOrNot(m: Machine, src: nat, i: nat, j: nat)
    ensures ResidentIn(m, src, i, j) ==> Content(m, src, i, j).Some? && !SwappedIn(m, src, i, j)
    ensures SwappedIn(m, src, i, j) ==> Content(m, src, i, j).Some?
    ensures !ResidentIn(m, src, i, j) && !SwappedIn(m, src, i, j) ==> Content(m, src, i, j) == None
  {
  }

  /** A copy made with room to spare moves nothing to disk and no slot changes hands. */
  lemma CopyCarries(m: Machine, o: Owners, src: nat, m': Machine, o': Owners, d: nat)
    requires IsCopy(m, o, src, m', o', d)
    ensures CarriesNames(m, o, m', o') && m'.cur == m.cur
  {
    hide DirCopied, Reaches;
    forall s: nat | Named(m, o, s) ensures Named(m', o', s) {
      var g: nat, k: nat, x: nat :| IsDir(o, g) && k < RECURSIVE && SwappedAt(m, g, k, x, s);
      var u := Get(m.ram, g, k).number;
      assert Holds(o, u, TableRole(g, k));
      assert g !in m.free && u !in m.free;
      assert SwappedAt(m', g, k, x, s) && IsDir(o', g);
    }
    forall s: nat | Named(m', o', s) ensures Named(m, o, s) {
      var g: nat, k: nat, x: nat :| IsDir(o', g) && k < RECURSIVE && SwappedAt(m', g, k, x, s);
      if g == d && k < USER_TABLES {
        CopyNamesNothing(m, o, src, m', o', d, k, x);
      }
      var g' := if g == d then src else g;
      assert IsDir(o, g') && g' !in m.free;
      assert Get(m.ram, g', k) == Get(m'.ram, g, k);
      var u := Get(m.ram, g', k).number;
      assert Holds(o, u, TableRole(g', k)) && u !in m.free;
      assert SwappedAt(m, g', k, x, s);
    }
  }

  lemma CopyNamesNothing(m: Machine, o: Owners, src: nat, m': Machine, o': Owners, d: nat, k: nat, x: nat)
    requires IsCopy(m, o, src, m', o', d) && k < USER_TABLES && Present(Get(m'.ram, d, k))
    ensures !IsSwapped(Get(m'.ram, Get(m'.ram, d, k).number, x))
  {
    assert TableCopied(m, Get(m.ram, src, k), m', Get(m'.ram, d, k));
    var s, t := Get(m.ram, src, k).number, Get(m'.ram, d, k).number;
    assert Copied(m, s, m', t, ENTRIES);
    if x < ENTRIES && Present(Get(m.ram, s, x)) {
      assert EntryCopied(m, Get(m.ram, s, x), m', Get(m'.ram, t, x));
    }
  }

  /** Faithful copies in general: with room for everything, or of a directory that is not loaded. */
  lemma CloneFaithful(m: Machine, o: Owners, src: nat) returns (o': Owners)
    requires Inv(m, o) && IsDir(o, src) && (RoomToClone(m, src) || (src != m.cur && Clone(m, src).Some?))
    ensures Clone(m, src).Some?
    ensures var (m', d) := Clone(m, src).value;
            && Inv(m', o') && AddsDir(o, o', d) && SameContents(m, m', o) && CarriesNames(m, o, m', o') && m'.cur == m.cur
            && ((forall i: nat, j: nat :: i < USER_TABLES && j < ENTRIES ==> Content(m', d, i, j) == Content(m, src, i, j))
                <==> forall i: nat, j: nat :: i < USER_TABLES && j < ENTRIES ==> !SwappedIn(m, src, i, j))
  {
    hide Inv, Clone, SameContents, Content, Named;
    if src != m.cur && Clone(m, src).Some? {
      o' := CloneElsewhereIff(m, o, src);
    } else {
      o' := CloneFaithfulIff(m, o, src);
      var (m', d) := Clone(m, src).value;
      assert CarriesNames(m, o, m', o') && m'.cur == m.cur by { CopyCarries(m, o, src, m', o', d); }
    }
  }
}
