/** Copying an address space, and undoing the copy. */
module Cloning {
  import opened Wrappers
  import opened Pages
  import opened PhysicalFrames
  import opened SwapArea
  import opened Machines
  import opened Paging
  import opened UserMemory
  import opened AddressSpaces

  // ----- paging_clone_directory ------------------------------------------------------------

  /** Copying entry `j` of table `s` to table `t`: the entry is looked at before the allocation,
      and read again after it, first for the frame and then for the flags. */
  ghost function CopyPage(m: Machine, s: nat, t: nat, j: nat): (r: Option<Machine>)
    requires Shape(m)
    ensures r.Some? ==> Shape(r.value)
  {
    match AllocZero(m)
    case None => None
    case Some((m1, f)) =>
      var ram1 := PutPage(m1.ram, f, PageAt(m1.ram, Get(m1.ram, s, j).number));
      Some(m1.(ram := Put(ram1, t, j, Word(f, Get(ram1, s, j).flags))))
  }

  /** The inner loop, from entry `j` on. */
  ghost function CopyPages(m: Machine, s: nat, t: nat, j: nat): (r: Option<Machine>)
    requires Shape(m)
    ensures r.Some? ==> Shape(r.value)
    decreases ENTRIES - j
  {
    if j >= ENTRIES then Some(m)
    else if !Present(Get(m.ram, s, j)) then CopyPages(m, s, t, j + 1)
    else
      match CopyPage(m, s, t, j)
      case None => None
      case Some(m') => CopyPages(m', s, t, j + 1)
  }

  ghost function CopyTable(m: Machine, src: nat, d: nat, i: nat): (r: Option<Machine>)
    requires Shape(m)
    ensures r.Some? ==> Shape(r.value)
  {
    match AllocZero(m)
    case None => None
    case Some((m1, t)) =>
      match CopyPages(m1, Get(m.ram, src, i).number, t, 0)
      case None => None
      case Some(m2) => Some(m2.(ram := Put(m2.ram, d, i, Word(t, Get(m2.ram, src, i).flags))))
  }

  /** The outer loop over the user half, from directory entry `i` on. */
  ghost function CopyTables(m: Machine, src: nat, d: nat, i: nat): (r: Option<Machine>)
    requires Shape(m)
    ensures r.Some? ==> Shape(r.value)
    decreases USER_TABLES - i
  {
    if i >= USER_TABLES then Some(m)
    else if !Present(Get(m.ram, src, i)) then CopyTables(m, src, d, i + 1)
    else
      match CopyTable(m, src, d, i)
      case None => None
      case Some(m') => CopyTables(m', src, d, i + 1)
  }

  /** Entry `k` of the finished copy: the kernel half is shared. */
  ghost function ClonedEntry(m: Machine, src: nat, d: UInt20, k: nat): Word {
    if k < USER_TABLES then Get(m.ram, d, k) else if k < RECURSIVE then Get(m.ram, src, k) else Word(d, TableFlags(false))
  }

  ghost function ClonedPage(m: Machine, src: nat, d: UInt20): (p: Page)
    ensures forall k :: 0 <= k < ENTRIES ==> p[k] == ClonedEntry(m, src, d, k)
  {
    var p := seq(PAGE_WORDS, (k: nat) => ClonedEntry(m, src, d, k));
    p
  }

  ghost function Clone(m: Machine, src: nat): Option<(Machine, UInt20)>
    requires Shape(m)
  {
    match AllocZero(m)
    case None => None
    case Some((m1, d)) =>
      match CopyTables(m1, src, d, 0)
      case None => None
      case Some(m2) => Some((m2.(ram := PutPage(m2.ram, d, ClonedPage(m2, src, d))), d))
  }

  // ----- how many frames a copy takes ------------------------------------------------------

  ghost function PagesFrom(ram: Ram, s: nat, j: nat): nat
    decreases ENTRIES - j
  {
    if j >= ENTRIES then 0 else (if Present(Get(ram, s, j)) then 1 else 0) + PagesFrom(ram, s, j + 1)
  }

  ghost function FramesFrom(ram: Ram, src: nat, i: nat): nat
    decreases USER_TABLES - i
  {
    if i >= USER_TABLES then 0
    else (if Present(Get(ram, src, i)) then 1 + PagesFrom(ram, Get(ram, src, i).number, 0) else 0) + FramesFrom(ram, src, i + 1)
  }

  /** Enough frames are free for the copy not to evict anything: a directory, and a frame for
      every table and every resident page. */
  ghost predicate RoomToClone(m: Machine, src: nat) {
    |m.free| >= 1 + FramesFrom(m.ram, src, 0)
  }

  lemma {:induction false} SamePagesFrom(ram: Ram, ram': Ram, s: nat, j: nat)
    requires PageAt(ram, s) == PageAt(ram', s) && |ram| == |ram'|
    ensures PagesFrom(ram, s, j) == PagesFrom(ram', s, j)
    decreases ENTRIES - j
  {
    if j < ENTRIES {
      assert Get(ram, s, j) == Get(ram', s, j);
      SamePagesFrom(ram, ram', s, j + 1);
    }
  }

  // ----- one page --------------------------------------------------------------------------

  /** Every role is kept, and new frames come from the free set. */
  ghost predicate Grows(m: Machine, o: Owners, m': Machine, o': Owners) {
    && (forall g :: g in o.frames ==> Holds(o', g, o.frames[g]))
    && SameDirs(o, o') && m'.free <= m.free && |m'.ram| == |m.ram| && o'.slots == o.slots
    && m' == m.(ram := m'.ram, free := m'.free)
  }

  /** Frames in use other than `t` keep their bytes. */
  ghost predicate Frozen(m: Machine, m': Machine, t: nat) {
    forall g: nat :: g !in m.free && g != t ==> PageAt(m'.ram, g) == PageAt(m.ram, g)
  }

  lemma KernelWrite(m: Machine, o: Owners, f: nat, p: Page)
    requires Inv(m, o) && Holds(o, f, Kernel)
    ensures Inv(m.(ram := PutPage(m.ram, f, p)), o)
  {
  }

  /** With a frame to spare, copying an entry links a fresh frame with the same bytes and flags. */
  lemma CopyPageOk(m: Machine, o: Owners, s: nat, t: nat, j: nat) returns (o': Owners, f: nat)
    requires Inv(m, o) && m.free != {} && IsTable(o, s) && IsTable(o, t) && s != t && j < ENTRIES
    requires Present(Get(m.ram, s, j)) && Get(m.ram, t, j) == ZeroWord()
    ensures CopyPage(m, s, t, j).Some?
    ensures var m' := CopyPage(m, s, t, j).value;
            && Inv(m', o') && Grows(m, o, m', o') && Frozen(m, m', t) && f in m.free && m'.free == m.free - {f}
            && Get(m'.ram, t, j) == Word(f, Get(m.ram, s, j).flags)
            && (forall k: nat :: k != j ==> Get(m'.ram, t, k) == Get(m.ram, t, k))
            && PageAt(m'.ram, f) == PageAt(m.ram, Get(m.ram, s, j).number)
  {
    f := Lowest(m.free);
    var m1, o1 := TakeFrame(m, o, f);
    var w := Get(m.ram, s, j);
    assert Get(m1.ram, s, j) == w && PageAt(m1.ram, w.number) == PageAt(m.ram, w.number);
    var p := PageAt(m1.ram, w.number);
    KernelWrite(m1, o1, f, p);
    var m2 := m1.(ram := PutPage(m1.ram, f, p));
    o' := LinkPage(m2, o1, t, j, f, w.flags);
    forall g | g in o.frames ensures Holds(o', g, o.frames[g]) {
      assert g in o1.frames && g != f;
    }
  }

  // ----- one table -------------------------------------------------------------------------

  /** Up to entry `j`, table `t` copies what table `s` held in `m0`: same flags and bytes, on
      frames that were free. Swapped and absent entries are left out. */
  ghost predicate Copied(m0: Machine, s: nat, m: Machine, t: nat, j: nat) {
    forall k: nat ::
      if k < j && Present(Get(m0.ram, s, k)) then
        EntryCopied(m0, Get(m0.ram, s, k), m, Get(m.ram, t, k))
      else Get(m.ram, t, k) == ZeroWord()
  }

  ghost predicate EntryCopied(m0: Machine, w0: Word, m: Machine, w: Word) {
    w.flags == w0.flags && w.number in m0.free && PageAt(m.ram, w.number) == PageAt(m0.ram, w0.number)
  }

  lemma {:induction false} CopyPagesOk(m0: Machine, m: Machine, o: Owners, s: nat, t: nat, j: nat) returns (o': Owners)
    requires Inv(m, o) && IsTable(o, s) && IsTable(o, t) && s != t && t !in m.free && j <= ENTRIES
    requires m.free <= m0.free && PageAt(m.ram, s) == PageAt(m0.ram, s) && |m.ram| == |m0.ram| && OldPages(m0, s, m)
    requires |m.free| >= PagesFrom(m.ram, s, j) && Copied(m0, s, m, t, j)
    ensures CopyPages(m, s, t, j).Some?
    ensures var m' := CopyPages(m, s, t, j).value;
            && Inv(m', o') && Grows(m, o, m', o') && Frozen(m, m', t) && Copied(m0, s, m', t, ENTRIES)
            && |m'.free| == |m.free| - PagesFrom(m.ram, s, j)
            && (forall f :: f in m.free && f !in m'.free ==> TableReaches(m', t, f))
            && (forall k: nat :: k < j ==> Get(m'.ram, t, k) == Get(m.ram, t, k))
    decreases ENTRIES - j
  {
    hide Inv, Copied, CopyPage, OldPages, TableReaches;
    o' := o;
    if j < ENTRIES {
      assert Get(m.ram, s, j) == Get(m0.ram, s, j);
      if Present(Get(m.ram, s, j)) {
        assert Get(m.ram, t, j) == ZeroWord() by { CopiedRest(m0, s, m, t, j); }
        var o1, f := CopyPageOk(m, o, s, t, j);
        var m1 := CopyPage(m, s, t, j).value;
        CopiedNext(m0, s, m, o, m1, t, j, f);
        assert s !in m.free by { RolesNotFree(m, o, s); }
        SamePagesFrom(m.ram, m1.ram, s, j + 1);
        o' := CopyPagesOk(m0, m1, o1, s, t, j + 1);
        ReachedAfter(m, m1, CopyPages(m, s, t, j).value, t, j, f);
      } else {
        CopiedSkip(m0, s, m, t, j);
        o' := CopyPagesOk(m0, m, o, s, t, j + 1);
      }
    }
  }

  lemma CopiedRest(m0: Machine, s: nat, m: Machine, t: nat, j: nat)
    requires Copied(m0, s, m, t, j)
    ensures Get(m.ram, t, j) == ZeroWord()
  {
  }

  lemma CopiedSkip(m0: Machine, s: nat, m: Machine, t: nat, j: nat)
    requires Copied(m0, s, m, t, j) && !Present(Get(m0.ram, s, j))
    ensures Copied(m0, s, m, t, j + 1)
  {
  }

  lemma RolesNotFree(m: Machine, o: Owners, f: nat)
    requires Inv(m, o) && f in o.frames
    ensures f !in m.free && f < MAX_FRAMES
  {
  }

  /** The pages table `s` refers to still hold what they held in `m0`. */
  ghost predicate OldPages(m0: Machine, s: nat, m: Machine) {
    forall k: nat :: Present(Get(m0.ram, s, k)) ==>
      PageAt(m.ram, Get(m0.ram, s, k).number) == PageAt(m0.ram, Get(m0.ram, s, k).number)
  }

  lemma CopiedNext(m0: Machine, s: nat, m: Machine, o: Owners, m1: Machine, t: nat, j: nat, f: nat)
    requires Inv(m, o) && IsTable(o, t) && IsTable(o, s) && s != t && j < ENTRIES && OldPages(m0, s, m)
    requires PageAt(m.ram, s) == PageAt(m0.ram, s) && |m.ram| == |m0.ram|
    requires Copied(m0, s, m, t, j) && Frozen(m, m1, t) && f in m.free && m.free <= m0.free
    requires Present(Get(m.ram, s, j)) && f < MAX_FRAMES && Get(m1.ram, t, j) == Word(f, Get(m.ram, s, j).flags)
    requires forall k: nat :: k != j ==> Get(m1.ram, t, k) == Get(m.ram, t, k)
    requires PageAt(m1.ram, f) == PageAt(m.ram, Get(m.ram, s, j).number)
    ensures Copied(m0, s, m1, t, j + 1) && OldPages(m0, s, m1)
  {
    forall k: nat | Present(Get(m0.ram, s, k))
      ensures PageAt(m1.ram, Get(m0.ram, s, k).number) == PageAt(m0.ram, Get(m0.ram, s, k).number)
    {
      var w := Get(m0.ram, s, k);
      assert Get(m.ram, s, k) == w;
      assert w.number !in m.free && w.number != t;
    }
  }

  lemma ReachedAfter(m: Machine, m1: Machine, m': Machine, t: nat, j: nat, f: nat)
    requires m1.free == m.free - {f} && f < MAX_FRAMES
    requires Present(Get(m1.ram, t, j)) && Get(m1.ram, t, j).number == f && Get(m'.ram, t, j) == Get(m1.ram, t, j)
    requires forall g :: g in m1.free && g !in m'.free ==> TableReaches(m', t, g)
    ensures forall g :: g in m.free && g !in m'.free ==> TableReaches(m', t, g)
  {
    assert TableReaches(m', t, f);
  }

  // ----- the user half ---------------------------------------------------------------------

  /** Up to entry `i`, directory `d` copies the user half that `src` had in `m0`. */
  ghost predicate DirCopied(m0: Machine, src: nat, m: Machine, d: nat, i: nat) {
    forall k: nat :: k < USER_TABLES ==>
      if k < i && Present(Get(m0.ram, src, k)) then TableCopied(m0, Get(m0.ram, src, k), m, Get(m.ram, d, k))
      else Get(m.ram, d, k) == ZeroWord()
  }

  ghost predicate TableCopied(m0: Machine, w0: Word, m: Machine, w: Word) {
    w.flags == w0.flags && w.number in m0.free && Copied(m0, w0.number, m, w.number, ENTRIES)
  }

  /** The copy is under way: everything in use before is as it was, and every frame taken since
      belongs to the copy. */
  ghost predicate Underway(m0: Machine, o0: Owners, m: Machine, o: Owners, src: nat, d: nat, i: nat) {
    && Inv(m0, o0) && Inv(m, o) && IsDir(o0, src) && IsDir(o, d) && d in m0.free && d !in m.free
    && (forall g :: g in o0.frames ==> Holds(o, g, o0.frames[g]))
    && m.free <= m0.free && |m.ram| == |m0.ram| && m == m0.(ram := m.ram, free := m.free)
    && (forall g: nat :: g !in m0.free ==> PageAt(m.ram, g) == PageAt(m0.ram, g))
    && DirCopied(m0, src, m, d, i)
    && (forall f :: f in m0.free && f !in m.free ==> Reaches(m, d, f))
    && (forall g: nat :: IsDir(o, g) <==> IsDir(o0, g) || g == d)
  }

  /** An empty table joins the copy before anything points to it. */
  lemma AdoptTable(m: Machine, o: Owners, t: nat, d: nat, i: nat)
    requires Inv(m, o) && HandedOut(m, o, t)
    ensures Inv(m, o.(frames := o.frames[t := UserTable(d, i)]))
  {
    assert forall k: nat :: Get(m.ram, t, k) == ZeroWord();
  }

  lemma LinkFilled(m: Machine, o: Owners, d: nat, i: nat, t: UInt20, flags: Flags)
    requires Inv(m, o) && IsDir(o, d) && i < USER_TABLES && Holds(o, t, UserTable(d, i)) && flags.present && flags.writable
    ensures Inv(m.(ram := Put(m.ram, d, i, Word(t, flags))), o)
  {
  }

  /** A zeroed frame taken as table of entry `i` of directory `d`. */
  lemma NewTable(m: Machine, o: Owners, d: nat, i: nat) returns (m1: Machine, o1: Owners, t: UInt20)
    requires Inv(m, o) && m.free != {}
    ensures t in m.free && AllocZero(m) == Some((m1, t)) && m1.free == m.free - {t}
    ensures Inv(m1, o1) && Grows(m, o, m1, o1) && Holds(o1, t, UserTable(d, i))
    ensures forall g: nat :: g !in m.free ==> PageAt(m1.ram, g) == PageAt(m.ram, g)
    ensures forall k: nat :: Get(m1.ram, t, k) == ZeroWord()
  {
    var o0;
    t := Lowest(m.free);
    m1, o0 := TakeFrame(m, o, t);
    AdoptTable(m1, o0, t, d, i);
    o1 := o0.(frames := o0.frames[t := UserTable(d, i)]);
  }

  /** Table `t` was built as the copy of `s`, out of frames free in `m`. */
  ghost predicate Built(m0: Machine, s: nat, m: Machine, o: Owners, m2: Machine, o2: Owners, t: nat, d: nat, i: nat) {
    && Inv(m2, o2) && Grows(m, o, m2, o2) && t in m.free && t !in m2.free && Holds(o2, t, UserTable(d, i))
    && (forall g: nat :: g !in m.free ==> PageAt(m2.ram, g) == PageAt(m.ram, g))
    && Copied(m0, s, m2, t, ENTRIES)
    && (forall f :: f in m.free && f !in m2.free ==> f == t || TableReaches(m2, t, f))
  }

  lemma BuildTable(m0: Machine, m: Machine, o: Owners, s: nat, d: nat, i: nat) returns (m2: Machine, o2: Owners, t: UInt20)
    requires Inv(m, o) && IsTable(o, s) && s !in m.free && |m.free| >= 1 + PagesFrom(m.ram, s, 0)
    requires m.free <= m0.free && PageAt(m.ram, s) == PageAt(m0.ram, s) && |m.ram| == |m0.ram| && OldPages(m0, s, m)
    requires forall k: nat :: Present(Get(m0.ram, s, k)) ==> Get(m0.ram, s, k).number !in m0.free
    ensures Built(m0, s, m, o, m2, o2, t, d, i) && |m2.free| == |m.free| - 1 - PagesFrom(m.ram, s, 0)
    ensures AllocZero(m).Some? && AllocZero(m).value.1 == t && CopyPages(AllocZero(m).value.0, s, t, 0) == Some(m2)
  {
    hide Inv, AllocZero, CopyPages;
    var m1, o1;
    m1, o1, t := NewTable(m, o, d, i);
    SamePagesFrom(m.ram, m1.ram, s, 0);
    o2 := CopyPagesOk(m0, m1, o1, s, t, 0);
    m2 := CopyPages(m1, s, t, 0).value;
  }

  lemma SourceTable(m0: Machine, o0: Owners, m: Machine, o: Owners, src: nat, d: nat, i: nat)
    requires Underway(m0, o0, m, o, src, d, i) && i < USER_TABLES && Present(Get(m.ram, src, i))
    ensures Get(m.ram, src, i) == Get(m0.ram, src, i) && Get(m.ram, src, i).flags.writable
    ensures var s := Get(m.ram, src, i).number;
            s in o0.frames && IsTable(o, s) && PageAt(m.ram, s) == PageAt(m0.ram, s) && s !in m0.free && OldPages(m0, s, m)
            && forall k: nat :: Present(Get(m0.ram, s, k)) ==> Get(m0.ram, s, k).number !in m0.free
  {
    assert src in o0.frames && src !in m0.free;
    assert Get(m.ram, src, i) == Get(m0.ram, src, i);
    var s := Get(m0.ram, src, i).number;
    assert Holds(o0, s, UserTable(src, i));
    assert s in o0.frames;
  }

  /** The table is copied and linked. */
  lemma CopyTableOk(m0: Machine, o0: Owners, m: Machine, o: Owners, src: nat, d: nat, i: nat)
    returns (m2: Machine, o2: Owners, t: UInt20)
    requires Underway(m0, o0, m, o, src, d, i) && i < USER_TABLES && Present(Get(m.ram, src, i))
    requires |m.free| >= 1 + PagesFrom(m.ram, Get(m.ram, src, i).number, 0)
    ensures var s := Get(m0.ram, src, i).number;
            Built(m0, s, m, o, m2, o2, t, d, i) && |m2.free| == |m.free| - 1 - PagesFrom(m.ram, s, 0)
    ensures CopyTable(m, src, d, i) == Some(m2.(ram := Put(m2.ram, d, i, Word(t, Get(m0.ram, src, i).flags))))
    ensures Inv(CopyTable(m, src, d, i).value, o2)
  {
    SourceTable(m0, o0, m, o, src, d, i);
    var s := Get(m.ram, src, i).number;
    m2, o2, t := BuildTable(m0, m, o, s, d, i);
    SourceEntry(m0, o0, m, o, m2, src, d, i);
    LinkFilled(m2, o2, d, i, t, Get(m.ram, src, i).flags);
  }

  lemma SourceEntry(m0: Machine, o0: Owners, m: Machine, o: Owners, m2: Machine, src: nat, d: nat, i: nat)
    requires Underway(m0, o0, m, o, src, d, i) && |m2.ram| == |m.ram|
    requires forall g: nat :: g !in m.free ==> PageAt(m2.ram, g) == PageAt(m.ram, g)
    ensures Get(m2.ram, src, i) == Get(m.ram, src, i)
  {
    assert src in o0.frames;
  }

  /** Tables copied earlier are unaffected by building and linking the next one. */
  lemma KeepsCopies(m0: Machine, o0: Owners, m: Machine, o: Owners, src: nat, d: nat, i: nat, m2: Machine, w: Word, k: nat)
    requires Underway(m0, o0, m, o, src, d, i) && k < i < USER_TABLES && Present(Get(m0.ram, src, k)) && |m2.ram| == |m.ram|
    requires forall g: nat :: g !in m.free ==> PageAt(m2.ram, g) == PageAt(m.ram, g)
    ensures var m' := m2.(ram := Put(m2.ram, d, i, w));
            Get(m'.ram, d, k) == Get(m.ram, d, k) && TableCopied(m0, Get(m0.ram, src, k), m', Get(m'.ram, d, k))
            && forall f: nat :: TableReaches(m, Get(m.ram, d, k).number, f) ==> TableReaches(m', Get(m.ram, d, k).number, f)
  {
    var m' := m2.(ram := Put(m2.ram, d, i, w));
    var w0, wk := Get(m0.ram, src, k), Get(m.ram, d, k);
    assert TableCopied(m0, w0, m, wk);
    assert Present(wk) && Holds(o, wk.number, UserTable(d, k));
    assert wk.number !in m.free && wk.number != d;
    forall j: nat ensures Get(m'.ram, wk.number, j) == Get(m.ram, wk.number, j) {
      assert PageAt(m2.ram, wk.number) == PageAt(m.ram, wk.number);
    }
    forall j: nat | Present(Get(m.ram, wk.number, j))
      ensures PageAt(m'.ram, Get(m.ram, wk.number, j).number) == PageAt(m.ram, Get(m.ram, wk.number, j).number)
    {
      assert Holds(o, Get(m.ram, wk.number, j).number, PageOf(wk.number, j));
    }
    CopiedSame(m0, w0.number, m, m', wk.number);
  }

  lemma CopiedSame(m0: Machine, s: nat, m: Machine, m': Machine, t: nat)
    requires Copied(m0, s, m, t, ENTRIES)
    requires forall j: nat :: Get(m'.ram, t, j) == Get(m.ram, t, j)
    requires forall j: nat :: Present(Get(m.ram, t, j)) ==> PageAt(m'.ram, Get(m.ram, t, j).number) == PageAt(m.ram, Get(m.ram, t, j).number)
    ensures Copied(m0, s, m', t, ENTRIES)
  {
    forall k: nat | k < ENTRIES && Present(Get(m0.ram, s, k))
      ensures EntryCopied(m0, Get(m0.ram, s, k), m', Get(m'.ram, t, k))
    {
      assert EntryCopied(m0, Get(m0.ram, s, k), m, Get(m.ram, t, k));
    }
  }

  /** The new entry copies its table. */
  lemma NewEntryCopied(m0: Machine, o0: Owners, m: Machine, o: Owners, src: nat, d: nat, i: nat, m2: Machine, o2: Owners, t: UInt20)
    requires Underway(m0, o0, m, o, src, d, i) && i < USER_TABLES && Present(Get(m0.ram, src, i))
    requires Built(m0, Get(m0.ram, src, i).number, m, o, m2, o2, t, d, i)
    ensures var m' := m2.(ram := Put(m2.ram, d, i, Word(t, Get(m0.ram, src, i).flags)));
            TableCopied(m0, Get(m0.ram, src, i), m', Get(m'.ram, d, i))
            && forall f: nat :: TableReaches(m2, t, f) ==> TableReaches(m', t, f)
  {
    var m' := m2.(ram := Put(m2.ram, d, i, Word(t, Get(m0.ram, src, i).flags)));
    assert t != d && Holds(o2, d, Directory);
    forall j: nat | Present(Get(m2.ram, t, j))
      ensures PageAt(m'.ram, Get(m2.ram, t, j).number) == PageAt(m2.ram, Get(m2.ram, t, j).number)
    {
      assert Holds(o2, Get(m2.ram, t, j).number, PageOf(t, j));
    }
    CopiedSame(m0, Get(m0.ram, src, i).number, m2, m', t);
    assert d < |m2.ram| && i < ENTRIES;
  }

  lemma DirCopiedNext(m0: Machine, o0: Owners, m: Machine, o: Owners, src: nat, d: nat, i: nat, m2: Machine, o2: Owners, t: UInt20)
    requires Underway(m0, o0, m, o, src, d, i) && i < USER_TABLES && Present(Get(m0.ram, src, i))
    requires Built(m0, Get(m0.ram, src, i).number, m, o, m2, o2, t, d, i)
    ensures DirCopied(m0, src, m2.(ram := Put(m2.ram, d, i, Word(t, Get(m0.ram, src, i).flags))), d, i + 1)
  {
    var m' := m2.(ram := Put(m2.ram, d, i, Word(t, Get(m0.ram, src, i).flags)));
    NewEntryCopied(m0, o0, m, o, src, d, i, m2, o2, t);
    forall k: nat | k < USER_TABLES && k != i
      ensures if k < i + 1 && Present(Get(m0.ram, src, k)) then TableCopied(m0, Get(m0.ram, src, k), m', Get(m'.ram, d, k))
              else Get(m'.ram, d, k) == ZeroWord()
    {
      assert PageAt(m2.ram, d) == PageAt(m.ram, d);
      assert Get(m'.ram, d, k) == Get(m.ram, d, k);
      if k < i && Present(Get(m0.ram, src, k)) {
        KeepsCopies(m0, o0, m, o, src, d, i, m2, Word(t, Get(m0.ram, src, i).flags), k);
      }
    }
  }

  lemma ReachesNext(m0: Machine, o0: Owners, m: Machine, o: Owners, src: nat, d: nat, i: nat, m2: Machine, o2: Owners, t: UInt20, f: nat)
    requires Underway(m0, o0, m, o, src, d, i) && i < USER_TABLES && Present(Get(m0.ram, src, i))
    requires Built(m0, Get(m0.ram, src, i).number, m, o, m2, o2, t, d, i)
    requires f in m0.free && f !in m2.free
    ensures Reaches(m2.(ram := Put(m2.ram, d, i, Word(t, Get(m0.ram, src, i).flags))), d, f)
  {
    var m' := m2.(ram := Put(m2.ram, d, i, Word(t, Get(m0.ram, src, i).flags)));
    NewEntryCopied(m0, o0, m, o, src, d, i, m2, o2, t);
    if f in m.free {
      assert f == t || TableReaches(m', t, f);
      assert Present(Get(m'.ram, d, i)) && Get(m'.ram, d, i).number == t;
    } else if f != d {
      assert Reaches(m, d, f);
      var k: nat :| k < USER_TABLES && Present(Get(m.ram, d, k)) &&
        (Get(m.ram, d, k).number == f || TableReaches(m, Get(m.ram, d, k).number, f));
      assert k < i && Present(Get(m0.ram, src, k));
      KeepsCopies(m0, o0, m, o, src, d, i, m2, Word(t, Get(m0.ram, src, i).flags), k);
      assert Get(m'.ram, d, k) == Get(m.ram, d, k);
    }
  }

  lemma UnderwayNext(m0: Machine, o0: Owners, m: Machine, o: Owners, src: nat, d: nat, i: nat, m2: Machine, o2: Owners, t: UInt20)
    requires Underway(m0, o0, m, o, src, d, i) && i < USER_TABLES && Present(Get(m0.ram, src, i))
    requires Built(m0, Get(m0.ram, src, i).number, m, o, m2, o2, t, d, i)
    requires Inv(m2.(ram := Put(m2.ram, d, i, Word(t, Get(m0.ram, src, i).flags))), o2)
    ensures Underway(m0, o0, m2.(ram := Put(m2.ram, d, i, Word(t, Get(m0.ram, src, i).flags))), o2, src, d, i + 1)
  {
    hide Inv, DirCopied, Copied;
    DirCopiedNext(m0, o0, m, o, src, d, i, m2, o2, t);
    forall f | f in m0.free && f !in m2.free
      ensures Reaches(m2.(ram := Put(m2.ram, d, i, Word(t, Get(m0.ram, src, i).flags))), d, f)
    {
      ReachesNext(m0, o0, m, o, src, d, i, m2, o2, t, f);
    }
  }

  lemma {:induction false} CopyTablesOk(m0: Machine, o0: Owners, m: Machine, o: Owners, src: nat, d: nat, i: nat) returns (o': Owners)
    requires Underway(m0, o0, m, o, src, d, i) && i <= USER_TABLES && |m.free| >= FramesFrom(m0.ram, src, i)
    ensures CopyTables(m, src, d, i).Some?
    ensures Underway(m0, o0, CopyTables(m, src, d, i).value, o', src, d, USER_TABLES)
    decreases USER_TABLES - i
  {
    hide Inv, DirCopied, Copied, CopyTable, Reaches;
    o' := o;
    if i < USER_TABLES {
      SourceEntryKept(m0, o0, m, o, src, d, i);
      if Present(Get(m.ram, src, i)) {
        SourceTable(m0, o0, m, o, src, d, i);
        SamePagesFrom(m0.ram, m.ram, Get(m0.ram, src, i).number, 0);
        var m2, o2, t := CopyTableOk(m0, o0, m, o, src, d, i);
        UnderwayNext(m0, o0, m, o, src, d, i, m2, o2, t);
        o' := CopyTablesOk(m0, o0, CopyTable(m, src, d, i).value, o2, src, d, i + 1);
      } else {
        SkipAbsent(m0, o0, m, o, src, d, i);
        o' := CopyTablesOk(m0, o0, m, o, src, d, i + 1);
      }
    }
  }

  lemma SourceEntryKept(m0: Machine, o0: Owners, m: Machine, o: Owners, src: nat, d: nat, i: nat)
    requires Underway(m0, o0, m, o, src, d, i)
    ensures Get(m.ram, src, i) == Get(m0.ram, src, i)
  {
    assert src in o0.frames;
  }

  lemma SkipAbsent(m0: Machine, o0: Owners, m: Machine, o: Owners, src: nat, d: nat, i: nat)
    requires Underway(m0, o0, m, o, src, d, i) && !Present(Get(m0.ram, src, i))
    ensures Underway(m0, o0, m, o, src, d, i + 1)
  {
    hide Inv, Reaches, Copied;
  }

  /** The empty directory the copy starts from. */
  lemma CloneStarts(m: Machine, o: Owners, src: nat) returns (m1: Machine, o1: Owners, d: UInt20)
    requires Inv(m, o) && IsDir(o, src) && m.free != {}
    ensures AllocZero(m) == Some((m1, d)) && m1.free == m.free - {d} && d in m.free
    ensures Underway(m, o, m1, o1, src, d, 0)
  {
    d := Lowest(m.free);
    var o0;
    m1, o0 := TakeFrame(m, o, d);
    o1 := o0.(frames := o0.frames[d := Directory]);
    assert forall k: nat :: Get(m1.ram, d, k) == ZeroWord();
    assert Inv(m1, o1);
  }

  lemma ClonesKernelHalf(m: Machine, o: Owners, src: nat, d: UInt20)
    requires Inv(m, o) && IsDir(o, src) && IsDir(o, d) && src != d
    ensures var m' := m.(ram := PutPage(m.ram, d, ClonedPage(m, src, d)));
            && Inv(m', o) && (forall g: nat :: g != d ==> PageAt(m'.ram, g) == PageAt(m.ram, g))
            && (forall k: nat :: k < ENTRIES ==> Get(m'.ram, d, k) == ClonedEntry(m, src, d, k))
  {
    var m' := m.(ram := PutPage(m.ram, d, ClonedPage(m, src, d)));
    assert forall k: nat :: k < ENTRIES ==> Get(m'.ram, d, k) == ClonedEntry(m, src, d, k);
    assert forall t: nat, k: nat :: IsTable(o, t) ==> Get(m'.ram, t, k) == Get(m.ram, t, k);
  }

  /** What a finished copy is: the same resident pages with the same bytes and flags, on frames
      that were free, with the kernel half shared and nothing else changed. */
  ghost predicate IsCopy(m: Machine, o: Owners, src: nat, m': Machine, o': Owners, d: nat) {
    && Underway(m, o, m', o', src, d, USER_TABLES)
    && (forall k: nat :: USER_TABLES <= k < RECURSIVE ==> Get(m'.ram, d, k) == Get(m.ram, src, k))
  }

  /** With room to spare, cloning makes a copy. */
  lemma CloneCopies(m: Machine, o: Owners, src: nat) returns (o': Owners)
    requires Inv(m, o) && IsDir(o, src) && RoomToClone(m, src)
    ensures Clone(m, src).Some? && IsCopy(m, o, src, Clone(m, src).value.0, o', Clone(m, src).value.1)
  {
    hide Inv, Underway, CopyTables, AllocZero;
    assert m.free != {};
    var m1, o1, d := CloneStarts(m, o, src);
    o' := CopyTablesOk(m, o, m1, o1, src, d, 0);
    var m2 := CopyTables(m1, src, d, 0).value;
    FinishCopy(m, o, m2, o', src, d);
  }

  lemma FinishCopy(m: Machine, o: Owners, m2: Machine, o2: Owners, src: nat, d: UInt20)
    requires Underway(m, o, m2, o2, src, d, USER_TABLES)
    ensures IsCopy(m, o, src, m2.(ram := PutPage(m2.ram, d, ClonedPage(m2, src, d))), o2, d)
  {
    var m' := m2.(ram := PutPage(m2.ram, d, ClonedPage(m2, src, d)));
    SourceEntryKept(m, o, m2, o2, src, d, USER_TABLES);
    assert src in o.frames && src != d && IsDir(o2, src);
    ClonesKernelHalf(m2, o2, src, d);
  }

  // ----- what a copy means -----------------------------------------------------------------

  ghost predicate ResidentIn(m: Machine, d: nat, i: nat, j: nat) {
    Present(Get(m.ram, d, i)) && Present(Get(m.ram, Get(m.ram, d, i).number, j))
  }

  ghost predicate SwappedIn(m: Machine, d: nat, i: nat, j: nat) {
    Present(Get(m.ram, d, i)) && IsSwapped(Get(m.ram, Get(m.ram, d, i).number, j))
  }

  /** Page by page: resident pages are copied with bytes and flags, all others are missing. */
  lemma CopiedPage(m: Machine, o: Owners, src: nat, m': Machine, o': Owners, d: nat, i: nat, j: nat)
    requires IsCopy(m, o, src, m', o', d) && i < USER_TABLES && j < ENTRIES
    ensures if ResidentIn(m, src, i, j) then
              var w, w' := Get(m.ram, Get(m.ram, src, i).number, j), Get(m'.ram, Get(m'.ram, d, i).number, j);
              && ResidentIn(m', d, i, j) && Content(m', d, i, j) == Content(m, src, i, j)
              && w'.flags == w.flags && Get(m'.ram, d, i).flags == Get(m.ram, src, i).flags && w'.number != w.number
            else Content(m', d, i, j) == None
  {
    var pde := Get(m.ram, src, i);
    if Present(pde) {
      assert TableCopied(m, pde, m', Get(m'.ram, d, i));
      var w := Get(m.ram, pde.number, j);
      if Present(w) {
        assert EntryCopied(m, w, m', Get(m'.ram, Get(m'.ram, d, i).number, j));
        assert Holds(o, pde.number, UserTable(src, i)) && Holds(o, w.number, PageOf(pde.number, j));
      }
    }
  }

  /** Every other address space, and the source itself, is as it was. */
  lemma CloneKeepsOthers(m: Machine, o: Owners, src: nat, m': Machine, o': Owners, d: nat)
    requires IsCopy(m, o, src, m', o', d)
    ensures SameContents(m, m', o) && AddsDir(o, o', d) && Inv(m', o')
  {
    forall g: nat, i: nat, j: nat | IsDir(o, g) && i < RECURSIVE ensures Content(m', g, i, j) == Content(m, g, i, j) {
      SameEntries(m, o, src, m', o', d, g, i, j);
    }
    assert d !in o.frames;
  }

  lemma SameEntries(m: Machine, o: Owners, src: nat, m': Machine, o': Owners, d: nat, g: nat, i: nat, j: nat)
    requires IsCopy(m, o, src, m', o', d) && IsDir(o, g) && i < RECURSIVE
    ensures Content(m', g, i, j) == Content(m, g, i, j)
  {
    hide DirCopied, Reaches;
    assert g !in m.free;
    var pde := Get(m.ram, g, i);
    assert Get(m'.ram, g, i) == pde;
    if Present(pde) {
      assert pde.number !in m.free;
      var w := Get(m.ram, pde.number, j);
      assert Get(m'.ram, pde.number, j) == w;
      if Present(w) {
        assert w.number !in m.free;
      }
    }
  }

  /** The copy holds exactly what the source holds if and only if no user page of the source is
      on disk: swapped pages are the ones a clone loses. */
  lemma CloneFaithfulIff(m: Machine, o: Owners, src: nat) returns (o': Owners)
    requires Inv(m, o) && IsDir(o, src) && RoomToClone(m, src)
    ensures Clone(m, src).Some? && IsCopy(m, o, src, Clone(m, src).value.0, o', Clone(m, src).value.1)
    ensures var (m', d) := Clone(m, src).value;
            && Inv(m', o') && AddsDir(o, o', d) && SameContents(m, m', o)
            && ((forall i: nat, j: nat :: i < USER_TABLES && j < ENTRIES ==> Content(m', d, i, j) == Content(m, src, i, j))
                <==> forall i: nat, j: nat :: i < USER_TABLES && j < ENTRIES ==> !SwappedIn(m, src, i, j))
  {
    o' := CloneCopies(m, o, src);
    var (m', d) := Clone(m, src).value;
    CopyFaithful(m, o, src, m', o', d);
  }

  lemma CopyFaithful(m: Machine, o: Owners, src: nat, m': Machine, o': Owners, d: nat)
    requires IsCopy(m, o, src, m', o', d)
    ensures Inv(m', o') && AddsDir(o, o', d) && SameContents(m, m', o)
    ensures (forall i: nat, j: nat :: i < USER_TABLES && j < ENTRIES ==> Content(m', d, i, j) == Content(m, src, i, j))
            <==> forall i: nat, j: nat :: i < USER_TABLES && j < ENTRIES ==> !SwappedIn(m, src, i, j)
  {
    hide IsCopy, Inv;
    CloneKeepsOthers(m, o, src, m', o', d);
    forall i: nat, j: nat | i < USER_TABLES && j < ENTRIES
      ensures Content(m', d, i, j) == Content(m, src, i, j) <==> !SwappedIn(m, src, i, j)
    {
      CopiedPage(m, o, src, m', o', d, i, j);
    }
  }

  /** A store in either address space is invisible in the other. */
  lemma CloneIsolated(m: Machine, o: Owners, src: nat, m': Machine, o': Owners, d: nat,
                      i: nat, j: nat, k: Index, w: Word, user: bool, i': nat, j': nat)
    requires IsCopy(m, o, src, m', o', d) && (m'.cur == src || m'.cur == d)
    requires i < USER_TABLES && j < ENTRIES && i' < USER_TABLES && Store(m', i, j, k, w, user).Some?
    ensures var other := if m'.cur == src then d else src;
            Content(Store(m', i, j, k, w, user).value, other, i', j') == Content(m', other, i', j')
  {
    hide DirCopied, Reaches;
    var o'' := StoreKeeps(m', o', i, j, k, w, user, Store(m', i, j, k, w, user).value);
    assert IsDir(o', src) && IsDir(o', d) && src != d by { assert src in o.frames; }
  }

  /** Destroying a clone gives back exactly the frames that cloning took. */
  lemma DestroyUndoesClone(m: Machine, o: Owners, src: nat)
    requires Inv(m, o) && IsDir(o, src) && RoomToClone(m, src)
    ensures Clone(m, src).Some?
    ensures var (m', d) := Clone(m, src).value;
            d != m'.cur && Destroy(m', d).free == m.free && m'.slots == m.slots && m'.store == m.store
  {
    var o' := CloneCopies(m, o, src);
    var (m', d) := Clone(m, src).value;
    CopyFreed(m, o, src, m', o', d);
  }

  lemma CopyFreed(m: Machine, o: Owners, src: nat, m': Machine, o': Owners, d: nat)
    requires IsCopy(m, o, src, m', o', d)
    ensures d != m'.cur && m'.free + Freed(m', d) == m.free
  {
    forall f | f in Freed(m', d) ensures f in m.free {
      ReachedWasFree(m, o, src, m', o', d, f);
    }
  }

  lemma ReachedWasFree(m: Machine, o: Owners, src: nat, m': Machine, o': Owners, d: nat, f: nat)
    requires IsCopy(m, o, src, m', o', d) && Reaches(m', d, f)
    ensures f in m.free
  {
    if f != d {
      var i: nat :| i < USER_TABLES && Present(Get(m'.ram, d, i)) &&
        (Get(m'.ram, d, i).number == f || TableReaches(m', Get(m'.ram, d, i).number, f));
      var w0, w := Get(m.ram, src, i), Get(m'.ram, d, i);
      assert TableCopied(m, w0, m', w);
      if w.number != f {
        var j: nat :| Present(Get(m'.ram, w.number, j)) && Get(m'.ram, w.number, j).number == f;
        assert EntryCopied(m, Get(m.ram, w0.number, j), m', Get(m'.ram, w.number, j));
      }
    }
  }
}
