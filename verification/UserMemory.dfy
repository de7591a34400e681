/** Page faults, processor accesses and runs: whatever the kernel swaps, user memory behaves like
    plain memory that reads as zeros until first written. */
module UserMemory {
  import opened Wrappers
  import opened Pages
  import opened PhysicalFrames
  import opened SwapArea
  import opened Machines
  import opened Paging

  // ----- the page-fault handler ------------------------------------------------------------

  /** Reading a slot into frame `f` and giving the slot back, whether or not the read worked. */
  ghost function SwapIn(m: Machine, slot: UInt20, f: UInt20, readOk: bool): Machine {
    var ram := if m.swapOn && slot < SLOTS && readOk then PutPage(m.ram, f, StoredPage(m.store, slot)) else m.ram;
    m.(ram := ram, slots := m.slots - {slot})
  }

  /** `page_fault_handler` for page (i, j); `present` and `user` are the error-code bits. */
  ghost function Fault(m: Machine, i: nat, j: nat, present: bool, user: bool, readOk: bool): (r: Option<Machine>)
    requires Shape(m)
    ensures r.Some? ==> Shape(r.value)
  {
    var slot := SlotOf(m, i, j);
    if slot.None? && (present || !user) then None
    else
      match AllocZero(m)
      case None => None
      case Some((m1, f)) =>
        match MapPage(m1, i, j, f, UserFlags())
        case None => None
        case Some(m2) => Some(if slot.Some? then SwapIn(m2, slot.value, f, readOk) else m2)
  }

  /** What the faulting page must hold afterwards. */
  ghost function Restored(m: Machine, i: nat, j: nat, readOk: bool): Page {
    match SlotOf(m, i, j)
    case None => ZeroPage()
    case Some(slot) => if readOk then StoredPage(m.store, slot) else ZeroPage()
  }

  ghost predicate UserPage(m: Machine, o: Owners, i: nat, j: nat) {
    Mapped(m, i, j) && InPlace(m, o, i, j, Get(m.ram, Get(m.ram, m.cur, i).number, j).number, UserFlags())
  }

  /** Only the faulting page changes. */
  lemma FaultKeeps(m: Machine, o: Owners, i: nat, j: nat, user: bool, readOk: bool) returns (o': Owners)
    requires Inv(m, o) && i < RECURSIVE && j < ENTRIES && !Mapped(m, i, j)
    requires Fault(m, i, j, false, user, readOk).Some?
    ensures var m' := Fault(m, i, j, false, user, readOk).value;
            && Inv(m', o') && SameDirs(o, o') && m'.cur == m.cur && UserPage(m', o', i, j)
            && SameBut(m, m', o, Get(m'.ram, m.cur, i).number, j, Restored(m, i, j, readOk))
  {
    var (m1, f) := AllocZero(m).value;
    var o1 := AllocKeeps(m, o);
    AllocKeepsSlot(m, o, m1, o1, i, j);
    o' := InstallKeeps(m1, o1, i, j, f, UserFlags());
    var m2 := Installed(m1, i, j, f, UserFlags());
    var t := Get(m2.ram, m.cur, i).number;
    SameThenBut(m, o, m1, o1, m2, t, j, ZeroPage());
    var slot := SlotOf(m, i, j);
    if slot.Some? && readOk {
      SwapInKeeps(m, o, m2, o', i, j, f, t, StoredPage(m.store, slot.value));
      FaultIsSwapIn(m, o, m1, o1, m2, i, j, f, user);
    }
  }

  lemma AllocKeepsSlot(m: Machine, o: Owners, m1: Machine, o1: Owners, i: nat, j: nat)
    requires Inv(m, o) && Inv(m1, o1) && Untouched(m, o, m1, o1) && i < RECURSIVE && !Mapped(m, i, j)
    ensures !Mapped(m1, i, j) && SlotOf(m1, i, j) == SlotOf(m, i, j)
    ensures SlotOf(m, i, j).Some? ==>
              var s := SlotOf(m, i, j).value; m1.swapOn && s < SLOTS && StoredPage(m1.store, s) == StoredPage(m.store, s)
  {
    var pde := Get(m.ram, m.cur, i);
    assert Get(m1.ram, m.cur, i) == pde;
    if Present(pde) {
      assert IsTable(o, pde.number);
      assert Content(m1, m.cur, i, j) == Content(m, m.cur, i, j);
    }
  }

  lemma SwapInKeeps(m: Machine, o: Owners, m2: Machine, o2: Owners, i: nat, j: nat, f: UInt20, t: nat, p: Page)
    requires Inv(m2, o2) && SameDirs(o, o2) && InPlace(m2, o2, i, j, f, UserFlags()) && t == Get(m2.ram, m2.cur, i).number
    requires SameBut(m, m2, o, t, j, ZeroPage())
    ensures var m3 := m2.(ram := PutPage(m2.ram, f, p));
            Inv(m3, o2) && InPlace(m3, o2, i, j, f, UserFlags()) && SameBut(m, m3, o, t, j, p)
            && Get(m3.ram, m2.cur, i) == Get(m2.ram, m2.cur, i)
  {
    var m3 := WriteThrough(m2, o2, t, j, p);
    assert forall d: nat, k: nat :: IsDir(o2, d) ==> Get(m3.ram, d, k) == Get(m2.ram, d, k);
    assert Get(m3.ram, t, j) == Get(m2.ram, t, j);
  }

  lemma FaultIsSwapIn(m: Machine, o: Owners, m1: Machine, o1: Owners, m2: Machine, i: nat, j: nat, f: UInt20, user: bool)
    requires Inv(m, o) && Inv(m1, o1) && Untouched(m, o, m1, o1) && i < RECURSIVE && !Mapped(m, i, j)
    requires AllocZero(m) == Some((m1, f)) && MapPage(m1, i, j, f, UserFlags()).Some? && SlotOf(m, i, j).Some?
    requires m2 == Installed(m1, i, j, f, UserFlags())
    requires StoredPage(m2.store, SlotOf(m, i, j).value) == StoredPage(m.store, SlotOf(m, i, j).value)
    ensures Fault(m, i, j, false, user, true) ==
            Some(m2.(ram := PutPage(m2.ram, f, StoredPage(m.store, SlotOf(m, i, j).value))))
  {
    AllocKeepsSlot(m, o, m1, o1, i, j);
  }

  /** A page that goes to disk and comes back has the flags every faulted page gets, so its flags
      survive exactly when they were those. */
  lemma SwapKeepsFlagsIff(m: Machine, o: Owners, i: nat, j: nat, user: bool, readOk: bool, m1: Machine, m2: Machine)
    requires Inv(m, o) && i < USER_TABLES && j < ENTRIES && Mapped(m, i, j)
    requires SwapOut(m, i, j) == (m1, true) && Fault(m1, i, j, false, user, readOk) == Some(m2)
    ensures Mapped(m2, i, j)
    ensures EntryOf(m2, i, j).flags == EntryOf(m, i, j).flags <==> EntryOf(m, i, j).flags == UserFlags()
  {
    hide Fault, SwapOut, Inv;
    assert !Mapped(m1, i, j) by { SwappedIsUnmapped(m, o, i, j, m1); }
    var o1 := SwapOutKeeps(m, o, i, j);
    var o2 := FaultKeeps(m1, o1, i, j, user, readOk);
  }

  ghost function EntryOf(m: Machine, i: nat, j: nat): Word { Get(m.ram, Get(m.ram, m.cur, i).number, j) }

  lemma SwappedIsUnmapped(m: Machine, o: Owners, i: nat, j: nat, m1: Machine)
    requires Inv(m, o) && i < USER_TABLES && j < ENTRIES && SwapOut(m, i, j) == (m1, true)
    ensures !Mapped(m1, i, j)
  {
    assert Holds(o, Get(m.ram, m.cur, i).number, UserTable(m.cur, i));
  }

  // ----- processor accesses ----------------------------------------------------------------

  /** Page protection of a mapped page, with write protection also enforced for the kernel. */
  ghost predicate Allowed(m: Machine, i: nat, j: nat, user: bool, write: bool) {
    var pde := Get(m.ram, m.cur, i);
    var pte := Get(m.ram, pde.number, j);
    (user ==> pde.flags.user && pte.flags.user) && (write ==> pde.flags.writable && pte.flags.writable)
  }

  /** The processor's marks on the two entries it went through. */
  ghost function Mark(m: Machine, i: nat, j: nat, write: bool): Machine {
    var pde := Get(m.ram, m.cur, i);
    var ram1 := Put(m.ram, m.cur, i, SetAccessed(pde));
    var pte := Get(ram1, pde.number, j);
    m.(ram := Put(ram1, pde.number, j, pte.(flags := pte.flags.(accessed := true, dirty := pte.flags.dirty || write))))
  }

  /** An access to page (i, j): faults when the page is not mapped, then goes through it.
      A protection violation reaches the handler's halting branch. */
  ghost function Access(m: Machine, i: nat, j: nat, user: bool, write: bool): (r: Option<Machine>)
    requires Shape(m)
    ensures r.Some? ==> Shape(r.value)
  {
    var ready := if Mapped(m, i, j) then Some(m) else Fault(m, i, j, false, user, true);
    if ready.None? || !Mapped(ready.value, i, j) || !Allowed(ready.value, i, j, user, write) then None
    else Some(Mark(ready.value, i, j, write))
  }

  ghost function FrameAt(m: Machine, i: nat, j: nat): nat {
    Get(m.ram, Get(m.ram, m.cur, i).number, j).number
  }

  /** Reading word `k` of page (i, j). */
  ghost function Load(m: Machine, i: nat, j: nat, k: nat, user: bool): Option<(Machine, Word)>
    requires Shape(m) && k < PAGE_WORDS
  {
    match Access(m, i, j, user, false)
    case None => None
    case Some(m') => Some((m', PageAt(m'.ram, FrameAt(m', i, j))[k]))
  }

  /** Writing word `k` of page (i, j). */
  ghost function Store(m: Machine, i: nat, j: nat, k: Index, w: Word, user: bool): (r: Option<Machine>)
    requires Shape(m)
    ensures r.Some? ==> Shape(r.value)
  {
    match Access(m, i, j, user, true)
    case None => None
    case Some(m') =>
      var f := FrameAt(m', i, j);
      Some(m'.(ram := PutPage(m'.ram, f, SetWord(PageAt(m'.ram, f), k, w))))
  }

  function SetWord(p: Page, k: Index, w: Word): Page { p[k := w] }

  /** A page that was never touched reads as zeros. */
  function Bytes(c: Option<Page>): Page { if c.Some? then c.value else ZeroPage() }

  /** In the user half, only page (d0, i0, j0) changes, and it now holds `p`. */
  ghost predicate OnlyPage(m: Machine, m': Machine, o: Owners, d0: nat, i0: nat, j0: nat, p: Page) {
    forall d: nat, i: nat, j: nat :: IsDir(o, d) && i < USER_TABLES ==>
      Content(m', d, i, j) == if d == d0 && i == i0 && j == j0 then Some(p) else Content(m, d, i, j)
  }

  /** Tables of the user half belong to one directory entry, so one page changes at most. */
  lemma ButIsOnly(m: Machine, m': Machine, o: Owners, o': Owners, i: nat, j: nat, t: nat, p: Page)
    requires Inv(m', o') && SameDirs(o, o') && i < RECURSIVE && Present(Get(m'.ram, m'.cur, i))
    requires t == Get(m'.ram, m'.cur, i).number && SameBut(m, m', o, t, j, p)
    ensures OnlyPage(m, m', o, m'.cur, i, j, p)
  {
    assert IsDir(o', m'.cur) && Holds(o', t, TableRole(m'.cur, i));
    forall d: nat, i': nat, j': nat | IsDir(o, d) && i' < USER_TABLES
      ensures Content(m', d, i', j') == if d == m'.cur && i' == i && j' == j then Some(p) else Content(m, d, i', j')
    {
      assert IsDir(o', d);
      var pde := Get(m'.ram, d, i');
      if Present(pde) && pde.number == t {
        assert Holds(o', t, UserTable(d, i'));
      }
    }
  }

  lemma MarkKeeps(m: Machine, o: Owners, i: nat, j: nat, write: bool)
    requires Inv(m, o) && i < RECURSIVE && Mapped(m, i, j)
    ensures var m' := Mark(m, i, j, write);
            && Inv(m', o) && SameContents(m, m', o) && m'.cur == m.cur && Mapped(m', i, j) && FrameAt(m', i, j) == FrameAt(m, i, j)
            && Get(m'.ram, m.cur, i).number == Get(m.ram, m.cur, i).number
  {
    var pde := Get(m.ram, m.cur, i);
    FlagWrite(m, o, m.cur, i, SetAccessed(pde));
    var m1 := m.(ram := Put(m.ram, m.cur, i, SetAccessed(pde)));
    var pte := Get(m1.ram, pde.number, j);
    FlagWrite(m1, o, pde.number, j, pte.(flags := pte.flags.(accessed := true, dirty := pte.flags.dirty || write)));
  }

  /** Every access that goes through leaves user memory as it was, zero-filling an untouched page. */
  lemma AccessKeeps(m: Machine, o: Owners, i: nat, j: nat, user: bool, write: bool) returns (o': Owners)
    requires Inv(m, o) && i < RECURSIVE && j < ENTRIES && Access(m, i, j, user, write).Some?
    ensures var m' := Access(m, i, j, user, write).value;
            && Inv(m', o') && SameDirs(o, o') && m'.cur == m.cur && Mapped(m', i, j)
            && OnlyPage(m, m', o, m.cur, i, j, Bytes(Content(m, m.cur, i, j)))
  {
    if Mapped(m, i, j) {
      o' := o;
      MarkKeeps(m, o, i, j, write);
    } else {
      o' := FaultKeeps(m, o, i, j, user, true);
      var m1 := Fault(m, i, j, false, user, true).value;
      ButIsOnly(m, m1, o, o', i, j, Get(m1.ram, m.cur, i).number, Restored(m, i, j, true));
      assert Restored(m, i, j, true) == Bytes(Content(m, m.cur, i, j));
      MarkKeeps(m1, o', i, j, write);
    }
  }

  lemma MappedContent(m: Machine, i: nat, j: nat)
    requires Mapped(m, i, j)
    ensures Content(m, m.cur, i, j) == Some(PageAt(m.ram, FrameAt(m, i, j)))
  {
  }

  /** A load returns the word user memory holds, wherever the page was, and changes nothing else. */
  lemma LoadReturnsContent(m: Machine, o: Owners, i: nat, j: nat, k: nat, user: bool) returns (o': Owners)
    requires Inv(m, o) && i < USER_TABLES && j < ENTRIES && k < PAGE_WORDS && Load(m, i, j, k, user).Some?
    ensures var (m', w) := Load(m, i, j, k, user).value;
            && Inv(m', o') && SameDirs(o, o') && m'.cur == m.cur
            && w == Bytes(Content(m, m.cur, i, j))[k]
            && OnlyPage(m, m', o, m.cur, i, j, Bytes(Content(m, m.cur, i, j)))
  {
    o' := AccessKeeps(m, o, i, j, user, false);
    MappedContent(Access(m, i, j, user, false).value, i, j);
  }

  /** A store changes exactly one word of user memory. */
  lemma StoreKeeps(m: Machine, o: Owners, i: nat, j: nat, k: Index, w: Word, user: bool, m': Machine) returns (o': Owners)
    requires Inv(m, o) && i < USER_TABLES && j < ENTRIES && Store(m, i, j, k, w, user) == Some(m')
    ensures Inv(m', o') && SameDirs(o, o') && m'.cur == m.cur
    ensures OnlyPage(m, m', o, m.cur, i, j, SetWord(Bytes(Content(m, m.cur, i, j)), k, w))
  {
    hide Inv, Access, OnlyPage;
    o' := AccessKeeps(m, o, i, j, user, true);
    var m1 := Access(m, i, j, user, true).value;
    var p := SetWord(PageAt(m1.ram, FrameAt(m1, i, j)), k, w);
    PageOfAccess(m, m1, o, i, j);
    WriteIsOnly(m1, o', i, j, p, m');
    OnlyTwice(m, m1, m', o, o', m.cur, i, j, Bytes(Content(m, m.cur, i, j)), p);
  }

  lemma PageOfAccess(m: Machine, m1: Machine, o: Owners, i: nat, j: nat)
    requires Inv(m, o) && i < USER_TABLES && m1.cur == m.cur && Mapped(m1, i, j)
    requires OnlyPage(m, m1, o, m.cur, i, j, Bytes(Content(m, m.cur, i, j)))
    ensures PageAt(m1.ram, FrameAt(m1, i, j)) == Bytes(Content(m, m.cur, i, j))
  {
    MappedContent(m1, i, j);
  }

  /** Writing the frame of a mapped user page changes that page only. */
  lemma WriteIsOnly(m: Machine, o: Owners, i: nat, j: nat, p: Page, m': Machine)
    requires Inv(m, o) && i < USER_TABLES && j < ENTRIES && Mapped(m, i, j) && m' == m.(ram := PutPage(m.ram, FrameAt(m, i, j), p))
    ensures Inv(m', o) && OnlyPage(m, m', o, m.cur, i, j, p)
  {
    var t := Get(m.ram, m.cur, i).number;
    assert Holds(o, t, UserTable(m.cur, i));
    var m2 := WriteThrough(m, o, t, j, p);
    WrittenKeepsPath(m, o, i, j, p);
    ButIsOnly(m, m', o, o, i, j, t, p);
  }

  lemma WrittenKeepsPath(m: Machine, o: Owners, i: nat, j: nat, p: Page)
    requires Inv(m, o) && i < USER_TABLES && Mapped(m, i, j)
    ensures Get(PutPage(m.ram, FrameAt(m, i, j), p), m.cur, i) == Get(m.ram, m.cur, i)
  {
    assert Holds(o, Get(m.ram, m.cur, i).number, UserTable(m.cur, i));
  }

  lemma OnlyTwice(m: Machine, m1: Machine, m2: Machine, o: Owners, o1: Owners, d: nat, i: nat, j: nat, p: Page, q: Page)
    requires SameDirs(o, o1) && OnlyPage(m, m1, o, d, i, j, p) && OnlyPage(m1, m2, o1, d, i, j, q)
    ensures OnlyPage(m, m2, o, d, i, j, q)
  {
  }
}
