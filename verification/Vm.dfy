/** The memory subsystem as the kernel runs it: physical memory, the frame allocator and the swap
    area updated in place. Every method does to the state what its specification function says. */
module VirtualMemory {
  import opened Wrappers
  import opened Pages
  import opened PhysicalFrames
  import opened SwapArea
  import opened Machines
  import opened Paging
  import opened UserMemory
  import opened AddressSpaces
  import opened Cloning

  class Vm {
    const ram: array<Page>
    const pmm: Pmm
    const swap: Swap
    var cur: nat
    var handPd: nat
    var handPt: nat

    ghost predicate Valid()
      reads this, ram, pmm, pmm.bits.bytes, swap, swap.bits.bytes
    {
      && pmm.Valid() && swap.Valid() && pmm.bits.bytes != swap.bits.bytes
      && ram as object != pmm.bits.bytes && ram as object != swap.bits.bytes
      && pmm.total == ram.Length && 1 <= pmm.base
      && handPd < USER_TABLES && handPt < ENTRIES
    }

    ghost function Snapshot(): (m: Machine)
      requires Valid()
      reads this, ram, pmm, pmm.bits.bytes, swap, swap.bits.bytes
      ensures Shape(m)
    {
      Machine(ram[..], pmm.base, pmm.Free(), swap.Used(), swap.Store(), swap.Available(), cur, handPd, handPt)
    }

    /** Memory behind an initialised allocator and swap area, with `cur` as directory frame. */
    constructor (ram: array<Page>, pmm: Pmm, swap: Swap, cur: nat)
      requires pmm.Valid() && swap.Valid() && pmm.bits.bytes != swap.bits.bytes
      requires ram as object != pmm.bits.bytes && ram as object != swap.bits.bytes
      requires pmm.total == ram.Length && 1 <= pmm.base
      ensures Valid() && this.ram == ram && this.pmm == pmm && this.swap == swap
      ensures Snapshot() == Machine(ram[..], pmm.base, pmm.Free(), swap.Used(), swap.Store(), swap.Available(), cur, 0, 0)
    {
      this.ram, this.pmm, this.swap, this.cur := ram, pmm, swap, cur;
      handPd, handPt := 0, 0;
    }

    method ReadWord(f: nat, j: nat) returns (w: Word)
      ensures w == Get(ram[..], f, j)
    {
      w := if f < ram.Length && j < ENTRIES then ram[f][j] else ZeroWord();
    }

    method WriteWord(f: nat, j: nat, w: Word)
      requires Valid()
      modifies ram
      ensures Valid() && Snapshot() == old(Snapshot()).(ram := Put(old(ram[..]), f, j, w))
    {
      if f < ram.Length && j < ENTRIES {
        ram[f] := ram[f][j := w];
        assert ram[..] == Put(old(ram[..]), f, j, w);
      }
    }

    method WritePage(f: nat, p: Page)
      requires Valid()
      modifies ram
      ensures Valid() && Snapshot() == old(Snapshot()).(ram := PutPage(old(ram[..]), f, p))
    {
      if f < ram.Length {
        ram[f] := p;
        assert ram[..] == PutPage(old(ram[..]), f, p);
      }
    }

    method ReadPage(f: nat) returns (p: Page)
      ensures p == PageAt(ram[..], f)
    {
      p := if f < ram.Length then ram[f] else ZeroPage();
    }

    /** The page goes to the lowest unused slot, if there is one. */
    method StoreInSlot(page: Page) returns (slot: int)
      requires Valid()
      modifies swap, swap.bits.bytes
      ensures Valid()
      ensures var m := old(Snapshot());
              if !m.swapOn || UnusedSlots(m.slots) == {} then slot == -1 && Snapshot() == m
              else slot == Lowest(UnusedSlots(m.slots)) && slot < SLOTS &&
                   Snapshot() == m.(slots := m.slots + {slot}, store := m.store[slot := page])
    {
      slot := swap.Out(page, SECTORS_PER_PAGE);
    }

    /** `pmm_free_frame` of frame `f`. */
    method FreeFrame(f: nat)
      requires Valid()
      modifies pmm, pmm.bits.bytes
      ensures Valid()
      ensures var m := old(Snapshot());
              Snapshot() == m.(free := if m.base <= f < |m.ram| then m.free + {f} else m.free)
    {
      pmm.Release(f * FRAME_SIZE);
      assert f * FRAME_SIZE / FRAME_SIZE == f;
    }

    /** `paging_swap_out`. */
    method SwapOut(i: nat, j: nat) returns (ok: bool)
      requires Valid() && j < ENTRIES
      modifies ram, pmm, pmm.bits.bytes, swap, swap.bits.bytes
      ensures Valid() && (Snapshot(), ok) == Paging.SwapOut(old(Snapshot()), i, j)
    {
      var pde := ReadWord(cur, i);
      if !Present(pde) {
        return false;
      }
      var entry := ReadWord(pde.number, j);
      if !Present(entry) {
        return false;
      }
      var page := ReadPage(entry.number);
      var slot := StoreInSlot(page);
      if slot == -1 {
        return false;
      }
      WriteWord(pde.number, j, SwapEntry(slot));
      FreeFrame(entry.number);
      ok := true;
    }

    /** `paging_evict_page`. */
    method EvictPage() returns (ok: bool)
      requires Valid()
      modifies this, ram, pmm, pmm.bits.bytes, swap, swap.bits.bytes
      ensures Valid() && (Snapshot(), ok) == Evict(old(Snapshot()), MAX_CHECKS)
    {
      hide EvictTurn;
      var checked := 0;
      while checked < MAX_CHECKS
        invariant 0 <= checked <= MAX_CHECKS
        invariant Valid() && Evict(old(Snapshot()), MAX_CHECKS) == Evict(Snapshot(), MAX_CHECKS - checked)
      {
        ok := EvictStep();
        if ok {
          return;
        }
        checked := checked + 1;
      }
      ok := false;
    }

    /** Moves the clock hand to the next entry, over the end of the user half. */
    method AdvanceHand()
      requires Valid()
      modifies this`handPt, this`handPd
      ensures Valid() && Snapshot() == Advance(old(Snapshot()))
    {
      handPt := handPt + 1;
      if handPt >= ENTRIES {
        handPt := 0;
        handPd := handPd + 1;
        if handPd >= USER_TABLES {
          handPd := 0;
        }
      }
    }

    /** One turn of the loop above. */
    method EvictStep() returns (ok: bool)
      requires Valid()
      modifies this, ram, pmm, pmm.bits.bytes, swap, swap.bits.bytes
      ensures Valid() && (Snapshot(), ok) == EvictTurn(old(Snapshot()))
    {
      hide Paging.SwapOut, Advance;
      AdvanceHand();
      ok := false;
      var pde := ReadWord(cur, handPd);
      if Present(pde) {
        var entry := ReadWord(pde.number, handPt);
        if Present(entry) {
          if entry.flags.accessed {
            WriteWord(pde.number, handPt, ClearAccessed(entry));
          } else {
            ok := SwapOut(handPd, handPt);
          }
        }
      } else {
        handPt := ENTRIES - 1;
      }
    }
  
    /** `pmm_alloc_frame`, 0 when nothing is free. */
    method TakeFrame() returns (f: nat)
      requires Valid()
      modifies pmm, pmm.bits.bytes
      ensures Valid()
      ensures var m := old(Snapshot());
              if m.free == {} then f == 0 && Snapshot() == m
              else f == Lowest(m.free) && f != 0 && Snapshot() == m.(free := m.free - {f})
    {
      var addr := pmm.Alloc();
      f := addr / FRAME_SIZE;
    }

    /** `alloc_frame_zero`. */
    method AllocFrameZero() returns (halted: bool, f: nat)
      requires Valid()
      modifies this, ram, pmm, pmm.bits.bytes, swap, swap.bits.bytes
      ensures Valid() && halted == AllocZero(old(Snapshot())).None?
      ensures !halted ==> f < MAX_FRAMES && AllocZero(old(Snapshot())) == Some((Snapshot(), f))
    {
      f := TakeFrame();
      if f == 0 {
        var evicted := EvictPage();
        if evicted {
          f := TakeFrame();
        }
        if f == 0 {
          return true, 0;
        }
      }
      WritePage(f, ZeroPage());
      halted := false;
    }

    /** `get_page_table` with `create` set. */
    method GetPageTable(i: nat, user: bool) returns (halted: bool, t: nat)
      requires Valid()
      modifies this, ram, pmm, pmm.bits.bytes, swap, swap.bits.bytes
      ensures Valid() && halted == NeedTable(old(Snapshot()), i, user).None?
      ensures !halted ==> NeedTable(old(Snapshot()), i, user) == Some((Snapshot(), t))
    {
      halted := false;
      var entry := ReadWord(cur, i);
      if !Present(entry) {
        halted, t := AllocFrameZero();
        if halted {
          return;
        }
        WriteWord(cur, i, Word(t, TableFlags(user)));
      } else {
        if user && !entry.flags.user {
          WriteWord(cur, i, SetUser(entry));
        }
        t := entry.number;
      }
    }

    /** `paging_map` of frame `f`. */
    method Map(i: nat, j: nat, f: UInt20, flags: Flags) returns (halted: bool)
      requires Valid()
      modifies this, ram, pmm, pmm.bits.bytes, swap, swap.bits.bytes
      ensures Valid() && halted == MapPage(old(Snapshot()), i, j, f, flags).None?
      ensures !halted ==> MapPage(old(Snapshot()), i, j, f, flags) == Some(Snapshot())
    {
      var t;
      halted, t := GetPageTable(i, flags.user);
      if halted {
        return;
      }
      WriteWord(t, j, Word(f, flags.(present := true)));
    }

    /** `paging_unmap`. */
    method UnmapPage(i: nat, j: nat)
      requires Valid()
      modifies ram
      ensures Valid() && Snapshot() == Unmap(old(Snapshot()), i, j)
    {
      var pde := ReadWord(cur, i);
      if !Present(pde) {
        return;
      }
      WriteWord(pde.number, j, ZeroWord());
    }

    /** `paging_virt_to_phys`: the byte a virtual address stands for, 0 when not mapped. */
    method VirtToPhys(virt: nat) returns (phys: nat)
      requires Valid()
      ensures var i, j := PdIndex(virt), PtIndex(virt);
              phys == if Mapped(Snapshot(), i, j) then FrameAt(Snapshot(), i, j) * 4096 + virt % 4096 else 0
    {
      var pde := ReadWord(cur, PdIndex(virt));
      if !Present(pde) {
        return 0;
      }
      var entry := ReadWord(pde.number, PtIndex(virt));
      if !Present(entry) {
        return 0;
      }
      phys := entry.number * 4096 + virt % 4096;
    }

    /** `page_fault_handler`; `readOk` is the disk's answer to a read. */
    method PageFault(i: nat, j: nat, present: bool, user: bool, readOk: bool) returns (halted: bool)
      requires Valid()
      modifies this, ram, pmm, pmm.bits.bytes, swap, swap.bits.bytes
      ensures Valid() && halted == Fault(old(Snapshot()), i, j, present, user, readOk).None?
      ensures !halted ==> Fault(old(Snapshot()), i, j, present, user, readOk) == Some(Snapshot())
    {
      hide AllocZero, MapPage, SwapIn, Shape;
      var pde := ReadWord(cur, i);
      var f;
      if Present(pde) {
        var entry := ReadWord(pde.number, j);
        if IsSwapped(entry) {
          var slot := entry.number;
          halted, f := AllocFrameZero();
          if halted {
            return;
          }
          halted := Map(i, j, f, UserFlags());
          if halted {
            return;
          }
          ReadSlot(slot, f, readOk);
          return false;
        }
      }
      if !present && user {
        halted, f := AllocFrameZero();
        if halted {
          return;
        }
        halted := Map(i, j, f, UserFlags());
        return;
      }
      halted := true;
    }

    /** `swap_in` into frame `f`, then `swap_free`. */
    method ReadSlot(slot: UInt20, f: UInt20, readOk: bool)
      requires Valid()
      modifies ram, swap.bits.bytes
      ensures Valid() && Snapshot() == SwapIn(old(Snapshot()), slot, f, readOk)
    {
      var ok, page := swap.In(slot, readOk);
      if ok {
        WritePage(f, page);
      }
      swap.Release(slot);
    }
  
    /** `paging_create_directory`. */
    method CreateDirectory() returns (halted: bool, d: nat)
      requires Valid()
      modifies this, ram, pmm, pmm.bits.bytes, swap, swap.bits.bytes
      ensures Valid() && halted == Create(old(Snapshot())).None?
      ensures !halted ==> d < MAX_FRAMES && Create(old(Snapshot())) == Some((Snapshot(), d))
    {
      halted, d := AllocFrameZero();
      if halted {
        return;
      }
      ghost var m := Snapshot();
      CopyKernelEntries(cur, d, m);
      assert d < |m.ram|;
      assert Snapshot().ram == PutPage(m.ram, d, DirectoryPage(m, d)) by {
        SamePage(Snapshot().ram, PutPage(m.ram, d, DirectoryPage(m, d)), d);
      }
    }

    /** Kernel entries of `src` copied to `d`, then the recursive entry. */
    method CopyKernelEntries(src: nat, d: UInt20, ghost m: Machine)
      requires Valid() && Snapshot() == m && d < |m.ram|
      modifies ram
      ensures Valid() && Snapshot() == m.(ram := Snapshot().ram) && |Snapshot().ram| == |m.ram|
      ensures forall g: nat :: g != d ==> PageAt(Snapshot().ram, g) == PageAt(m.ram, g)
      ensures forall k: nat :: k < ENTRIES ==> Get(Snapshot().ram, d, k) == ClonedEntry(m, src, d, k)
    {
      for k := USER_TABLES to ENTRIES
        invariant Valid() && Snapshot() == m.(ram := Snapshot().ram) && |Snapshot().ram| == |m.ram|
        invariant forall g: nat :: g != d ==> PageAt(Snapshot().ram, g) == PageAt(m.ram, g)
        invariant forall n: nat :: n < ENTRIES ==>
                    Get(Snapshot().ram, d, n) == if USER_TABLES <= n < k then Get(m.ram, src, n) else Get(m.ram, d, n)
      {
        var w := ReadWord(src, k);
        assert w == Get(m.ram, src, k) by {
          assert src != d ==> PageAt(Snapshot().ram, src) == PageAt(m.ram, src);
        }
        WriteWord(d, k, w);
      }
      WriteWord(d, RECURSIVE, Word(d, TableFlags(false)));
    }

    /** One page of the clone loop. */
    method CloneEntry(s: nat, t: nat, j: nat) returns (halted: bool)
      requires Valid()
      modifies this, ram, pmm, pmm.bits.bytes, swap, swap.bits.bytes
      ensures Valid() && halted == CopyPage(old(Snapshot()), s, t, j).None?
      ensures !halted ==> CopyPage(old(Snapshot()), s, t, j) == Some(Snapshot())
    {
      hide AllocZero, Shape;
      var f;
      halted, f := AllocFrameZero();
      if halted {
        return;
      }
      var entry := ReadWord(s, j);
      var page := ReadPage(entry.number);
      WritePage(f, page);
      entry := ReadWord(s, j);
      WriteWord(t, j, Word(f, entry.flags));
    }

    /** The clone's inner loop. */
    method CloneEntries(s: nat, t: nat) returns (halted: bool)
      requires Valid()
      modifies this, ram, pmm, pmm.bits.bytes, swap, swap.bits.bytes
      ensures Valid() && halted == CopyPages(old(Snapshot()), s, t, 0).None?
      ensures !halted ==> CopyPages(old(Snapshot()), s, t, 0) == Some(Snapshot())
    {
      hide CopyPage, Shape;
      var j := 0;
      while j < ENTRIES
        invariant j <= ENTRIES
        invariant Valid() && CopyPages(old(Snapshot()), s, t, 0) == CopyPages(Snapshot(), s, t, j)
      {
        var entry := ReadWord(s, j);
        if Present(entry) {
          halted := CloneEntry(s, t, j);
          if halted {
            return;
          }
        }
        j := j + 1;
      }
      halted := false;
    }

    /** One table of the clone loop. */
    method CloneTable(src: nat, d: nat, i: nat) returns (halted: bool)
      requires Valid()
      modifies this, ram, pmm, pmm.bits.bytes, swap, swap.bits.bytes
      ensures Valid() && halted == CopyTable(old(Snapshot()), src, d, i).None?
      ensures !halted ==> CopyTable(old(Snapshot()), src, d, i) == Some(Snapshot())
    {
      hide AllocZero, CopyPages, Shape;
      var pde := ReadWord(src, i);
      var t;
      halted, t := AllocFrameZero();
      if halted {
        return;
      }
      halted := CloneEntries(pde.number, t);
      if halted {
        return;
      }
      pde := ReadWord(src, i);
      WriteWord(d, i, Word(t, pde.flags));
    }

    /** The clone's loop over the user half. */
    method CloneTables(src: nat, d: nat) returns (halted: bool)
      requires Valid()
      modifies this, ram, pmm, pmm.bits.bytes, swap, swap.bits.bytes
      ensures Valid() && halted == CopyTables(old(Snapshot()), src, d, 0).None?
      ensures !halted ==> CopyTables(old(Snapshot()), src, d, 0) == Some(Snapshot())
    {
      hide CopyTable, Shape;
      var i := 0;
      while i < USER_TABLES
        invariant i <= USER_TABLES
        invariant Valid() && CopyTables(old(Snapshot()), src, d, 0) == CopyTables(Snapshot(), src, d, i)
      {
        var pde := ReadWord(src, i);
        if Present(pde) {
          halted := CloneTable(src, d, i);
          if halted {
            return;
          }
        }
        i := i + 1;
      }
      halted := false;
    }

    /** `paging_clone_directory`. */
    method CloneDirectory(src: nat) returns (halted: bool, d: nat)
      requires Valid()
      modifies this, ram, pmm, pmm.bits.bytes, swap, swap.bits.bytes
      ensures Valid() && halted == Clone(old(Snapshot()), src).None?
      ensures !halted ==> d < MAX_FRAMES && Clone(old(Snapshot()), src) == Some((Snapshot(), d))
    {
      hide AllocZero, CopyTables;
      halted, d := AllocFrameZero();
      if halted {
        return;
      }
      FrameInRange(old(Snapshot()));
      assert d < ram.Length;
      halted := CloneTables(src, d);
      if halted {
        return;
      }
      ghost var m := Snapshot();
      CopyKernelEntries(src, d, m);
      assert Snapshot().ram == PutPage(m.ram, d, ClonedPage(m, src, d)) by {
        SamePage(Snapshot().ram, PutPage(m.ram, d, ClonedPage(m, src, d)), d);
      }
    }

    /** Pages of one table given back to the allocator. */
    method FreePages(t: nat)
      requires Valid()
      modifies pmm, pmm.bits.bytes
      ensures Valid() && Snapshot() == old(Snapshot()).(free := Snapshot().free)
      ensures var m := old(Snapshot());
              forall f :: f in Snapshot().free <==> f in m.free || (m.base <= f < |m.ram| && TableReaches(m, t, f))
    {
      ghost var m := Snapshot();
      for j := 0 to ENTRIES
        invariant Valid() && Snapshot() == m.(free := Snapshot().free)
        invariant forall f :: f in Snapshot().free <==> f in m.free || (m.base <= f < |m.ram| && ListedBefore(m, t, j, f))
      {
        hide ListedBefore;
        var entry := ReadWord(t, j);
        assert entry == Get(m.ram, t, j);
        if Present(entry) {
          FreeFrame(entry.number);
        }
        ListedNext(m, t, j);
      }
      AllListed(m, t);
    }

    /** Tables of the user half and their pages given back. */
    method FreeTables(d: nat)
      requires Valid()
      modifies pmm, pmm.bits.bytes
      ensures Valid() && Snapshot() == old(Snapshot()).(free := Snapshot().free)
      ensures var m := old(Snapshot());
              forall f :: f in Snapshot().free <==> f in m.free || (m.base <= f < |m.ram| && ReachedBefore(m, d, USER_TABLES, f))
    {
      ghost var m := Snapshot();
      for i := 0 to USER_TABLES
        invariant Valid() && Snapshot() == m.(free := Snapshot().free)
        invariant forall f :: f in Snapshot().free <==> f in m.free || (m.base <= f < |m.ram| && ReachedBefore(m, d, i, f))
      {
        var pde := ReadWord(d, i);
        assert pde == Get(m.ram, d, i);
        ghost var m1 := Snapshot();
        if Present(pde) {
          FreePages(pde.number);
          FreeFrame(pde.number);
          assert forall f: nat :: TableReaches(m1, pde.number, f) == TableReaches(m, pde.number, f);
        }
        forall f ensures ReachedBefore(m, d, i + 1, f) <==>
                         ReachedBefore(m, d, i, f) || (Present(pde) && (pde.number == f || TableReaches(m, pde.number, f)))
        {
          ReachedNext(m, d, i, f);
        }
      }
    }

    /** `paging_destroy_directory`. */
    method DestroyDirectory(d: nat)
      requires Valid()
      modifies pmm, pmm.bits.bytes
      ensures Valid() && Snapshot() == Destroy(old(Snapshot()), d)
    {
      if d == cur {
        return;
      }
      ghost var m := Snapshot();
      FreeTables(d);
      FreeFrame(d);
      FreedAll(m, Snapshot(), d);
    }

    /** `paging_switch_directory`. */
    method SwitchDirectory(d: nat)
      requires Valid()
      modifies this`cur
      ensures Valid() && Snapshot() == old(Snapshot()).(cur := d)
    {
      if d == cur {
        return;
      }
      cur := d;
    }
  }

  /** Frame `f` is one of the present pages among the first `j` entries of table `t`. */
  ghost predicate ListedBefore(m: Machine, t: nat, j: nat, f: nat) {
    exists k: nat :: k < j && Present(Get(m.ram, t, k)) && Get(m.ram, t, k).number == f
  }

  lemma ListedNext(m: Machine, t: nat, j: nat)
    ensures forall f: nat :: ListedBefore(m, t, j + 1, f) <==>
                               ListedBefore(m, t, j, f) || (Present(Get(m.ram, t, j)) && Get(m.ram, t, j).number == f)
  {
    forall f: nat | ListedBefore(m, t, j, f) ensures ListedBefore(m, t, j + 1, f) {
      var k: nat :| k < j && Present(Get(m.ram, t, k)) && Get(m.ram, t, k).number == f;
    }
  }

  lemma AllListed(m: Machine, t: nat)
    ensures forall f: nat :: ListedBefore(m, t, ENTRIES, f) <==> TableReaches(m, t, f)
  {
    forall f: nat | TableReaches(m, t, f) ensures ListedBefore(m, t, ENTRIES, f) {
      var j: nat :| Present(Get(m.ram, t, j)) && Get(m.ram, t, j).number == f;
      assert j < ENTRIES;
    }
  }

  /** Frame `f` is one of the first `i` tables of `d`, or a present page of one. */
  ghost predicate ReachedBefore(m: Machine, d: nat, i: nat, f: nat) {
    exists k: nat :: k < i && Present(Get(m.ram, d, k)) &&
      (Get(m.ram, d, k).number == f || TableReaches(m, Get(m.ram, d, k).number, f))
  }

  lemma FreedAll(m: Machine, m': Machine, d: nat)
    requires Shape(m) && m' == m.(free := m'.free)
    requires forall f :: f in m'.free <==>
               f in m.free || (m.base <= f < |m.ram| && (f == d || ReachedBefore(m, d, USER_TABLES, f)))
    ensures m' == m.(free := m.free + Freed(m, d))
  {
    forall f: nat ensures Reaches(m, d, f) <==> f == d || ReachedBefore(m, d, USER_TABLES, f) {
    }
    assert m'.free == m.free + Freed(m, d);
  }

  lemma ReachedNext(m: Machine, d: nat, i: nat, f: nat)
    ensures ReachedBefore(m, d, i + 1, f) <==>
            ReachedBefore(m, d, i, f) ||
            (Present(Get(m.ram, d, i)) && (Get(m.ram, d, i).number == f || TableReaches(m, Get(m.ram, d, i).number, f)))
  {
  }

  lemma FrameInRange(m: Machine)
    requires Shape(m) && AllocZero(m).Some?
    ensures AllocZero(m).value.1 < |AllocZero(m).value.0.ram|
  {
  }

  lemma SamePage(ram: Ram, ram': Ram, d: nat)
    requires |ram| == |ram'| && d < |ram|
    requires forall g: nat :: g != d ==> PageAt(ram, g) == PageAt(ram', g)
    requires forall k: nat :: k < ENTRIES ==> Get(ram, d, k) == Get(ram', d, k)
    ensures ram == ram'
  {
    assert ram[d] == ram'[d] by {
      forall k: nat | k < ENTRIES ensures ram[d][k] == ram'[d][k] {
        assert Get(ram, d, k) == Get(ram', d, k);
      }
    }
    forall g: nat | g < |ram| ensures ram[g] == ram'[g] {
      assert g != d ==> PageAt(ram, g) == PageAt(ram', g);
    }
  }
}
