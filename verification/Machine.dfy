/** 32-bit paging over physical memory: the machine state the memory subsystem works on, what
    user memory holds in it, and the ownership invariant. Directories and tables are frames of
    physical memory like any other. */
module Machines {
  import opened Wrappers
  import opened Pages
  import opened PhysicalFrames
  import opened SwapArea

  /** Directory entries 0..767 cover user space; entry 1023 maps the directory onto itself. */
  const USER_TABLES: nat := 768
  const RECURSIVE: nat := 1023
  const ENTRIES: nat := 1024

  /** Directory and table index of a virtual address. */
  function PdIndex(virt: nat): nat { virt / 0x40_0000 }
  function PtIndex(virt: nat): nat { virt / 4096 % 1024 }

  /** The two indices and the offset make up the address. */
  lemma AddressSplits(virt: nat)
    requires virt < TWO_32
    ensures PdIndex(virt) < ENTRIES && PtIndex(virt) < ENTRIES
    ensures virt == PdIndex(virt) * 0x40_0000 + PtIndex(virt) * 0x1000 + virt % 0x1000
  {
  }

  // ----- entry words -----------------------------------------------------------------------

  predicate Present(w: Word) { w.flags.present }

  /** A page on disk: bits 12-31 are its swap slot. */
  predicate IsSwapped(w: Word) { !w.flags.present && w.flags.swapped }

  function SwapEntry(slot: nat): Word
    requires slot < SLOTS
  {
    Word(slot, NoFlags().(swapped := true))
  }

  /** The flags the fault handler maps pages with: present, RW and USER. */
  function UserFlags(): Flags { NoFlags().(present := true, writable := true, user := true) }

  /** Same frame or slot, same kind of entry; only the other flag bits may differ. */
  predicate SameTarget(w: Word, w': Word) {
    w.number == w'.number && w.flags.present == w'.flags.present && w.flags.swapped == w'.flags.swapped
  }

  function ClearAccessed(w: Word): Word { w.(flags := w.flags.(accessed := false)) }
  function SetAccessed(w: Word): Word { w.(flags := w.flags.(accessed := true)) }
  function SetUser(w: Word): Word { w.(flags := w.flags.(user := true)) }

  // ----- machine state ---------------------------------------------------------------------

  type Ram = seq<Page>

  /** `free` is the allocator's free set over frames from `base` on, `slots` the marked swap
      slots, `store` the page each slot holds, `cur` the frame of the loaded directory,
      (`handPd`, `handPt`) the clock position. */
  datatype Machine = Machine(
    ram: Ram, base: nat, free: set<nat>,
    slots: set<nat>, store: seq<Page>, swapOn: bool,
    cur: nat, handPd: nat, handPt: nat)

  /** Sizes every machine has: at most 2^20 frames, the allocator within them, 4096 slots. */
  ghost predicate Shape(m: Machine) {
    && 1 <= m.base <= |m.ram| <= MAX_FRAMES
    && (forall f :: f in m.free ==> m.base <= f < |m.ram|)
    && |m.store| == SLOTS
  }

  function Get(ram: Ram, f: nat, j: nat): Word {
    if f < |ram| && j < ENTRIES then ram[f][j] else ZeroWord()
  }

  function Put(ram: Ram, f: nat, j: nat, w: Word): (ram': Ram)
    ensures |ram'| == |ram|
    ensures forall g: nat, k: nat ::
              Get(ram', g, k) == if g == f && k == j && f < |ram| && j < ENTRIES then w else Get(ram, g, k)
    ensures forall g: nat :: g != f ==> PageAt(ram', g) == PageAt(ram, g)
  {
    if f < |ram| && j < ENTRIES then ram[f := ram[f][j := w]] else ram
  }

  function PageAt(ram: Ram, f: nat): Page {
    if f < |ram| then ram[f] else ZeroPage()
  }

  function PutPage(ram: Ram, f: nat, p: Page): (ram': Ram)
    ensures |ram'| == |ram|
    ensures forall g: nat :: g != f ==> PageAt(ram', g) == PageAt(ram, g)
    ensures forall g: nat, k: nat :: g != f ==> Get(ram', g, k) == Get(ram, g, k)
    ensures f < |ram| ==> PageAt(ram', f) == p
  {
    if f < |ram| then ram[f := p] else ram
  }

  function StoredPage(store: seq<Page>, slot: nat): Page {
    if slot < |store| then store[slot] else ZeroPage()
  }

  // ----- what memory holds -----------------------------------------------------------------

  /** The page entry `j` of table `t` stands for: a frame's bytes, a swap slot's bytes, or nothing. */
  function TableContent(m: Machine, t: nat, j: nat): Option<Page> {
    var w := Get(m.ram, t, j);
    if Present(w) then Some(PageAt(m.ram, w.number))
    else if IsSwapped(w) then Some(StoredPage(m.store, w.number))
    else None
  }

  /** Abstract contents of page (i, j) of directory `d`. */
  function Content(m: Machine, d: nat, i: nat, j: nat): Option<Page> {
    var pde := Get(m.ram, d, i);
    if Present(pde) then TableContent(m, pde.number, j) else None
  }

  // ----- ownership -------------------------------------------------------------------------

  /** What an allocated frame is used for. Kernel tables are shared between directories. */
  datatype Role = Directory | UserTable(dir: nat, index: nat) | KernelTable | PageOf(table: nat, entry: nat) | Kernel

  /** Who holds each allocated frame and each swap slot; being maps, they give every frame and
      every slot at most one holder. */
  datatype Owners = Owners(frames: map<nat, Role>, slots: map<nat, (nat, nat)>)

  predicate Holds(o: Owners, f: nat, r: Role) { f in o.frames && o.frames[f] == r }
  predicate IsDir(o: Owners, d: nat) { Holds(o, d, Directory) }
  predicate IsTable(o: Owners, t: nat) { t in o.frames && (o.frames[t].UserTable? || o.frames[t].KernelTable?) }
  predicate HoldsSlot(o: Owners, s: nat, t: nat, j: nat) { s in o.slots && o.slots[s] == (t, j) }

  /** The role a table hanging off entry `i` of directory `d` must have. */
  function TableRole(d: nat, i: nat): Role { if i < USER_TABLES then UserTable(d, i) else KernelTable }

  ghost predicate FramesOk(m: Machine, o: Owners) {
    && Shape(m)
    && (forall f :: f in m.free ==> f !in o.frames)
    && (forall f :: f in o.frames ==> m.base <= f < |m.ram|)
    && IsDir(o, m.cur)
    && m.handPd < USER_TABLES && m.handPt < ENTRIES
  }

  ghost predicate SlotsOk(m: Machine, o: Owners) {
    && (forall s :: s in m.slots ==> s < SLOTS)
    && (forall s :: s in o.slots ==> s in m.slots && m.swapOn)
  }

  /** A present directory entry points to the frame that is its table, and is writable. */
  ghost predicate DirsOk(m: Machine, o: Owners) {
    forall d: nat, i: nat :: IsDir(o, d) && i < RECURSIVE && Present(Get(m.ram, d, i)) ==>
      Holds(o, Get(m.ram, d, i).number, TableRole(d, i)) && Get(m.ram, d, i).flags.writable
  }

  /** A present table entry points to the frame that is its page; a kernel table may also point
      below the allocator's range, at the kernel image. */
  ghost predicate TablesOk(m: Machine, o: Owners) {
    forall t: nat, j: nat :: IsTable(o, t) && Present(Get(m.ram, t, j)) ==>
      || Holds(o, Get(m.ram, t, j).number, PageOf(t, j))
      || (Holds(o, t, KernelTable) && Get(m.ram, t, j).number < m.base)
  }

  /** A swapped table entry names the slot that is its. */
  ghost predicate SwappedOk(m: Machine, o: Owners) {
    forall t: nat, j: nat :: IsTable(o, t) && IsSwapped(Get(m.ram, t, j)) ==>
      HoldsSlot(o, Get(m.ram, t, j).number, t, j)
  }

  ghost predicate Inv(m: Machine, o: Owners)
    ensures Inv(m, o) ==> Shape(m)
  {
    FramesOk(m, o) && SlotsOk(m, o) && DirsOk(m, o) && TablesOk(m, o) && SwappedOk(m, o)
  }

  ghost predicate SameDirs(o: Owners, o': Owners) {
    forall d: nat :: IsDir(o, d) <==> IsDir(o', d)
  }

  /** Directories, tables and kernel frames stay what they are; only pages may move. */
  ghost predicate KeepsRoles(o: Owners, o': Owners) {
    forall f :: f in o.frames && !o.frames[f].PageOf? ==> Holds(o', f, o.frames[f])
  }

  /** Every page of every directory of `o` holds the same in both machines. */
  ghost predicate SameContents(m: Machine, m': Machine, o: Owners) {
    forall d: nat, i: nat, j: nat :: IsDir(o, d) && i < RECURSIVE ==> Content(m', d, i, j) == Content(m, d, i, j)
  }

  /** The same, except that pages reached through entry `j0` of table `t0` now hold `p`. */
  ghost predicate SameBut(m: Machine, m': Machine, o: Owners, t0: nat, j0: nat, p: Page) {
    forall d: nat, i: nat, j: nat :: IsDir(o, d) && i < RECURSIVE ==>
      Content(m', d, i, j) ==
      if Present(Get(m'.ram, d, i)) && Get(m'.ram, d, i).number == t0 && j == j0 then Some(p) else Content(m, d, i, j)
  }

  // ----- primitive steps -------------------------------------------------------------------

  /** Rewriting flag bits of a directory or table entry changes nothing a page holds. */
  lemma FlagWrite(m: Machine, o: Owners, f: nat, j: nat, w: Word)
    requires Inv(m, o) && SameTarget(Get(m.ram, f, j), w) && (IsDir(o, f) || IsTable(o, f))
    requires Get(m.ram, f, j).flags.writable ==> w.flags.writable
    ensures Inv(m.(ram := Put(m.ram, f, j, w)), o)
    ensures SameContents(m, m.(ram := Put(m.ram, f, j, w)), o)
  {
    var m' := m.(ram := Put(m.ram, f, j, w));
    assert forall t: nat, k: nat :: IsTable(o, t) ==> TableContent(m', t, k) == TableContent(m, t, k);
  }

  /** Handing a free frame to the kernel, zeroed. */
  lemma TakeFrame(m: Machine, o: Owners, f: nat) returns (m': Machine, o': Owners)
    requires Inv(m, o) && f in m.free
    ensures m' == m.(ram := PutPage(m.ram, f, ZeroPage()), free := m.free - {f})
    ensures o' == o.(frames := o.frames[f := Kernel])
    ensures Inv(m', o') && SameDirs(o, o') && SameContents(m, m', o)
  {
    m' := m.(ram := PutPage(m.ram, f, ZeroPage()), free := m.free - {f});
    o' := o.(frames := o.frames[f := Kernel]);
    assert forall t: nat, k: nat :: IsTable(o, t) ==> TableContent(m', t, k) == TableContent(m, t, k);
  }

  /** The same, with the bytes it has. */
  lemma TakePlain(m: Machine, o: Owners, f: nat)
    requires Inv(m, o) && f in m.free
    ensures Inv(m.(free := m.free - {f}), o.(frames := o.frames[f := Kernel])) && SameDirs(o, o.(frames := o.frames[f := Kernel]))
  {
    var o' := o.(frames := o.frames[f := Kernel]);
    assert forall t: nat :: IsTable(o', t) <==> IsTable(o, t);
    assert forall g: nat, r :: Holds(o, g, r) ==> Holds(o', g, r);
  }

  /** Linking a zeroed kernel frame as the table of an empty directory entry. */
  lemma LinkTable(m: Machine, o: Owners, d: nat, i: nat, f: UInt20, flags: Flags) returns (m': Machine, o': Owners)
    requires Inv(m, o) && IsDir(o, d) && i < RECURSIVE && !Present(Get(m.ram, d, i))
    requires Holds(o, f, Kernel) && PageAt(m.ram, f) == ZeroPage() && flags.present && flags.writable
    ensures m' == m.(ram := Put(m.ram, d, i, Word(f, flags)))
    ensures o' == o.(frames := o.frames[f := TableRole(d, i)])
    ensures Inv(m', o') && SameDirs(o, o') && SameContents(m, m', o)
  {
    m' := m.(ram := Put(m.ram, d, i, Word(f, flags)));
    o' := o.(frames := o.frames[f := TableRole(d, i)]);
    hide Put;
    assert forall k: nat :: Get(m'.ram, f, k) == ZeroWord();
    assert SameContents(m, m', o) by {
      assert forall t: nat, k: nat :: IsTable(o, t) ==> TableContent(m', t, k) == TableContent(m, t, k);
    }
  }

  /** Frame `f` linked as page `j` of table `t`; if the entry was swapped, its slot is given back. */
  ghost function Linked(m: Machine, t: nat, j: nat, f: UInt20, flags: Flags): Machine {
    var w := Get(m.ram, t, j);
    m.(ram := Put(m.ram, t, j, Word(f, flags)), slots := if IsSwapped(w) then m.slots - {w.number} else m.slots)
  }

  ghost function LinkedOwners(m: Machine, o: Owners, t: nat, j: nat, f: UInt20): Owners {
    var w := Get(m.ram, t, j);
    Owners(o.frames[f := PageOf(t, j)], if IsSwapped(w) then o.slots - {w.number} else o.slots)
  }

  ghost predicate CanLink(m: Machine, o: Owners, t: nat, j: nat, f: UInt20, flags: Flags) {
    && Inv(m, o) && IsTable(o, t) && j < ENTRIES && !Present(Get(m.ram, t, j))
    && Holds(o, f, Kernel) && flags.present
  }

  /** Linking a kernel frame where nothing was mapped changes that page alone. */
  lemma LinkPage(m: Machine, o: Owners, t: nat, j: nat, f: UInt20, flags: Flags) returns (o': Owners)
    requires CanLink(m, o, t, j, f, flags)
    ensures Inv(Linked(m, t, j, f, flags), o') && SameDirs(o, o') && Holds(o', f, PageOf(t, j))
    ensures forall g :: g in o.frames && g != f ==> Holds(o', g, o.frames[g])
    ensures IsSwapped(Get(m.ram, t, j)) || o'.slots == o.slots
    ensures SameBut(m, Linked(m, t, j, f, flags), o, t, j, PageAt(m.ram, f))
  {
    o' := LinkedOwners(m, o, t, j, f);
    LinkKeepsTables(m, o, t, j, f, flags);
    LinkKeepsContents(m, o, t, j, f, flags);
  }

  lemma LinkKeepsTables(m: Machine, o: Owners, t: nat, j: nat, f: UInt20, flags: Flags)
    requires CanLink(m, o, t, j, f, flags)
    ensures var m', o' := Linked(m, t, j, f, flags), LinkedOwners(m, o, t, j, f);
            DirsOk(m', o') && TablesOk(m', o') && SwappedOk(m', o')
  {
    var m', o' := Linked(m, t, j, f, flags), LinkedOwners(m, o, t, j, f);
    assert forall g: nat :: IsTable(o, g) <==> IsTable(o', g);
    assert forall g: nat, r :: Holds(o, g, r) && g != f ==> Holds(o', g, r);
  }

  lemma LinkKeepsContents(m: Machine, o: Owners, t: nat, j: nat, f: UInt20, flags: Flags)
    requires CanLink(m, o, t, j, f, flags)
    ensures SameBut(m, Linked(m, t, j, f, flags), o, t, j, PageAt(m.ram, f))
  {
    var m' := Linked(m, t, j, f, flags);
    assert forall g: nat, k: nat :: IsTable(o, g) ==>
      TableContent(m', g, k) == if g == t && k == j then Some(PageAt(m.ram, f)) else TableContent(m, g, k);
  }

  /** Page `j` of table `t` moved to `slot`, its frame released if the allocator owns it. */
  ghost function MovedOut(m: Machine, t: nat, j: nat, slot: nat): Machine
    requires slot < SLOTS && Shape(m)
    ensures Shape(MovedOut(m, t, j, slot))
  {
    var f := Get(m.ram, t, j).number;
    m.(ram := Put(m.ram, t, j, SwapEntry(slot)),
       free := if m.base <= f < |m.ram| then m.free + {f} else m.free,
       slots := m.slots + {slot}, store := m.store[slot := PageAt(m.ram, f)])
  }

  ghost function MovedOwners(m: Machine, o: Owners, t: nat, j: nat, slot: nat): Owners {
    Owners(o.frames - {Get(m.ram, t, j).number}, o.slots[slot := (t, j)])
  }

  ghost predicate CanMove(m: Machine, o: Owners, t: nat, j: nat, slot: nat) {
    && Inv(m, o) && IsTable(o, t) && j < ENTRIES && Present(Get(m.ram, t, j))
    && slot < SLOTS && slot !in m.slots && m.swapOn
  }

  lemma MovePageOut(m: Machine, o: Owners, t: nat, j: nat, slot: nat) returns (o': Owners)
    requires CanMove(m, o, t, j, slot)
    ensures Inv(MovedOut(m, t, j, slot), o') && SameDirs(o, o') && SameContents(m, MovedOut(m, t, j, slot), o)
    ensures KeepsRoles(o, o')
  {
    o' := MovedOwners(m, o, t, j, slot);
    MoveKeepsRoles(m, o, t, j, slot);
    MoveKeepsTables(m, o, t, j, slot);
    MoveKeepsContents(m, o, t, j, slot);
  }

  lemma MoveKeepsRoles(m: Machine, o: Owners, t: nat, j: nat, slot: nat)
    requires CanMove(m, o, t, j, slot)
    ensures var o' := MovedOwners(m, o, t, j, slot);
            && FramesOk(MovedOut(m, t, j, slot), o') && SlotsOk(MovedOut(m, t, j, slot), o')
            && SameDirs(o, o') && (forall g: nat :: IsTable(o, g) <==> IsTable(o', g))
            && KeepsRoles(o, o')
            && (forall g: nat, r :: Holds(o, g, r) && r != PageOf(t, j) ==> Holds(o', g, r))
  {
  }

  lemma MoveKeepsTables(m: Machine, o: Owners, t: nat, j: nat, slot: nat)
    requires CanMove(m, o, t, j, slot)
    ensures var m', o' := MovedOut(m, t, j, slot), MovedOwners(m, o, t, j, slot);
            DirsOk(m', o') && TablesOk(m', o') && SwappedOk(m', o')
  {
    MoveKeepsRoles(m, o, t, j, slot);
  }

  lemma MoveKeepsContents(m: Machine, o: Owners, t: nat, j: nat, slot: nat)
    requires CanMove(m, o, t, j, slot)
    ensures SameContents(m, MovedOut(m, t, j, slot), o)
  {
    var m' := MovedOut(m, t, j, slot);
    assert forall g: nat, k: nat :: IsTable(o, g) ==> TableContent(m', g, k) == TableContent(m, g, k);
  }

  /** Storing into the frame of page `j` of table `t`. */
  lemma WriteThrough(m: Machine, o: Owners, t: nat, j: nat, p: Page) returns (m': Machine)
    requires Inv(m, o) && IsTable(o, t) && Present(Get(m.ram, t, j))
    requires Holds(o, Get(m.ram, t, j).number, PageOf(t, j))
    ensures m' == m.(ram := PutPage(m.ram, Get(m.ram, t, j).number, p))
    ensures Inv(m', o) && SameBut(m, m', o, t, j, p)
  {
    var f := Get(m.ram, t, j).number;
    m' := m.(ram := PutPage(m.ram, f, p));
    assert forall g: nat, k: nat :: IsTable(o, g) ==>
      TableContent(m', g, k) == if g == t && k == j then Some(p) else TableContent(m, g, k);
  }
}
