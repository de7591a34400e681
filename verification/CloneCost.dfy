/** What a clone costs: it leaves the swap area alone, and can be undone, exactly when there was room. */
module CloningCost {
  import opened Wrappers
  import opened Pages
  import opened PhysicalFrames
  import opened SwapArea
  import opened Machines
  import opened Paging
  import opened AddressSpaces
  import opened Cloning

  // ----- evictions take slots and nothing on the way gives one back -------------------------

  lemma {:induction false} EvictTakesSlot(m: Machine, checks: nat)
    requires Shape(m)
    ensures if Evict(m, checks).1 then m.slots < Evict(m, checks).0.slots else m.slots == Evict(m, checks).0.slots
    decreases checks
  {
    if checks != 0 {
      TurnTakesSlot(m);
      hide EvictTurn;
      EvictTakesSlot(EvictTurn(m).0, checks - 1);
    }
  }

  lemma TurnTakesSlot(m: Machine)
    requires Shape(m)
    ensures if EvictTurn(m).1 then m.slots < EvictTurn(m).0.slots else m.slots == EvictTurn(m).0.slots
  {
    var a := Advance(m);
    if EvictTurn(m).1 {
      assert Lowest(UnusedSlots(a.slots)) in UnusedSlots(a.slots);
      assert Lowest(UnusedSlots(a.slots)) in EvictTurn(m).0.slots;
    }
  }

  lemma AllocTakesSlot(m: Machine)
    requires Shape(m) && AllocZero(m).Some?
    ensures m.slots <= AllocZero(m).value.0.slots && (m.slots == AllocZero(m).value.0.slots ==> m.free != {})
  {
    if m.free == {} {
      EvictTakesSlot(m, MAX_CHECKS);
    }
  }

  lemma {:induction false} CopyPagesSlots(m: Machine, s: nat, t: nat, j: nat)
    requires Shape(m) && CopyPages(m, s, t, j).Some?
    ensures m.slots <= CopyPages(m, s, t, j).value.slots
    decreases ENTRIES - j
  {
    if j < ENTRIES {
      hide AllocZero;
      if Present(Get(m.ram, s, j)) {
        AllocTakesSlot(m);
        CopyPagesSlots(CopyPage(m, s, t, j).value, s, t, j + 1);
      } else {
        CopyPagesSlots(m, s, t, j + 1);
      }
    }
  }

  lemma CopyTableSlots(m: Machine, src: nat, d: nat, i: nat)
    requires Shape(m) && CopyTable(m, src, d, i).Some?
    ensures m.slots <= CopyTable(m, src, d, i).value.slots
  {
    hide AllocZero, CopyPages;
    AllocTakesSlot(m);
    var (m1, t) := AllocZero(m).value;
    CopyPagesSlots(m1, Get(m.ram, src, i).number, t, 0);
  }

  lemma {:induction false} CopyTablesSlots(m: Machine, src: nat, d: nat, i: nat)
    requires Shape(m) && CopyTables(m, src, d, i).Some?
    ensures m.slots <= CopyTables(m, src, d, i).value.slots
    decreases USER_TABLES - i
  {
    if i < USER_TABLES {
      hide CopyTable;
      if Present(Get(m.ram, src, i)) {
        CopyTableSlots(m, src, d, i);
        CopyTablesSlots(CopyTable(m, src, d, i).value, src, d, i + 1);
      } else {
        CopyTablesSlots(m, src, d, i + 1);
      }
    }
  }

  // ----- without an eviction, every copy takes its frame from the free set -------------------

  /** Between `m0` and `m` nothing was evicted, and frames in use at `m0` were only read. */
  ghost predicate Quiet(m0: Machine, m: Machine)
    ensures Quiet(m0, m) ==> Shape(m)
  {
    && Shape(m0) && Shape(m) && m.slots == m0.slots && m.free <= m0.free && |m.ram| == |m0.ram|
    && forall g: nat :: g !in m0.free ==> PageAt(m.ram, g) == PageAt(m0.ram, g)
  }

  lemma AllocQuiet(m0: Machine, m: Machine)
    requires Quiet(m0, m) && AllocZero(m).Some? && AllocZero(m).value.0.slots <= m0.slots
    ensures var (m1, f) := AllocZero(m).value; Quiet(m0, m1) && f in m0.free && |m.free| == |m1.free| + 1
  {
    AllocTakesSlot(m);
    assert AllocZero(m).value == TakeLowest(m);
  }

  lemma PutQuiet(m0: Machine, m: Machine, t: nat, j: nat, w: Word)
    requires Quiet(m0, m) && t in m0.free && j < ENTRIES
    ensures Quiet(m0, m.(ram := Put(m.ram, t, j, w)))
  {
  }

  lemma PutPageQuiet(m0: Machine, m: Machine, f: nat, p: Page)
    requires Quiet(m0, m) && f in m0.free
    ensures Quiet(m0, m.(ram := PutPage(m.ram, f, p)))
  {
  }

  lemma CopyPageQuiet(m0: Machine, m: Machine, s: nat, t: nat, j: nat)
    requires Quiet(m0, m) && t in m0.free && j < ENTRIES
    requires CopyPage(m, s, t, j).Some? && CopyPage(m, s, t, j).value.slots <= m0.slots
    ensures Quiet(m0, CopyPage(m, s, t, j).value) && |m.free| == |CopyPage(m, s, t, j).value.free| + 1
  {
    hide AllocZero, Quiet;
    var (m1, f) := AllocZero(m).value;
    AllocQuiet(m0, m);
    var p := PageAt(m1.ram, Get(m1.ram, s, j).number);
    PutPageQuiet(m0, m1, f, p);
    var m2 := m1.(ram := PutPage(m1.ram, f, p));
    PutQuiet(m0, m2, t, j, Word(f, Get(m2.ram, s, j).flags));
  }

  lemma QuietEntry(m0: Machine, m: Machine, s: nat, j: nat)
    requires Quiet(m0, m) && s !in m0.free
    ensures Get(m.ram, s, j) == Get(m0.ram, s, j)
  {
    assert PageAt(m.ram, s) == PageAt(m0.ram, s);
  }

  lemma {:induction false} CopyPagesSpend(m0: Machine, m: Machine, s: nat, t: nat, j: nat)
    requires Quiet(m0, m) && t in m0.free && s !in m0.free
    requires CopyPages(m, s, t, j).Some? && CopyPages(m, s, t, j).value.slots <= m0.slots
    ensures Quiet(m0, CopyPages(m, s, t, j).value)
    ensures |m.free| == |CopyPages(m, s, t, j).value.free| + PagesFrom(m0.ram, s, j)
    decreases ENTRIES - j
  {
    if j < ENTRIES {
      hide Quiet, CopyPage;
      QuietEntry(m0, m, s, j);
      if Present(Get(m.ram, s, j)) {
        var m1 := CopyPage(m, s, t, j).value;
        CopyPagesSlots(m1, s, t, j + 1);
        CopyPageQuiet(m0, m, s, t, j);
        CopyPagesSpend(m0, m1, s, t, j + 1);
      } else {
        CopyPagesSpend(m0, m, s, t, j + 1);
      }
    }
  }

  lemma CopyTableSpends(m0: Machine, m: Machine, src: nat, d: nat, i: nat)
    requires Quiet(m0, m) && d in m0.free && i < ENTRIES && Get(m.ram, src, i).number !in m0.free
    requires CopyTable(m, src, d, i).Some? && CopyTable(m, src, d, i).value.slots <= m0.slots
    ensures Quiet(m0, CopyTable(m, src, d, i).value)
    ensures |m.free| == |CopyTable(m, src, d, i).value.free| + 1 + PagesFrom(m0.ram, Get(m.ram, src, i).number, 0)
  {
    hide AllocZero, CopyPages, Quiet, PagesFrom;
    var (m1, t) := AllocZero(m).value;
    var s := Get(m.ram, src, i).number;
    CopyPagesSlots(m1, s, t, 0);
    AllocQuiet(m0, m);
    CopyPagesSpend(m0, m1, s, t, 0);
    var m2 := CopyPages(m1, s, t, 0).value;
    PutQuiet(m0, m2, d, i, Word(t, Get(m2.ram, src, i).flags));
  }

  lemma {:induction false} CopyTablesSpend(m0: Machine, o: Owners, m: Machine, src: nat, d: nat, i: nat)
    requires Inv(m0, o) && IsDir(o, src) && Quiet(m0, m) && d in m0.free
    requires CopyTables(m, src, d, i).Some? && CopyTables(m, src, d, i).value.slots <= m0.slots
    ensures |m.free| >= FramesFrom(m0.ram, src, i)
    decreases USER_TABLES - i
  {
    if i < USER_TABLES {
      hide Quiet, CopyTable, CopyTables, Inv, FramesFrom, PagesFrom, Get, Present, Shape;
      FramesStep(m0.ram, src, i);
      TablesStep(m, src, d, i);
      SourceInUse(m0, o, src, i);
      QuietEntry(m0, m, src, i);
      if Present(Get(m.ram, src, i)) {
        var m1 := CopyTable(m, src, d, i).value;
        CopyTablesSlots(m1, src, d, i + 1);
        CopyTableSpends(m0, m, src, d, i);
        CopyTablesSpend(m0, o, m1, src, d, i + 1);
      } else {
        CopyTablesSpend(m0, o, m, src, d, i + 1);
      }
    }
  }

  lemma FramesStep(ram: Ram, src: nat, i: nat)
    requires i < USER_TABLES
    ensures FramesFrom(ram, src, i) ==
            (if Present(Get(ram, src, i)) then 1 + PagesFrom(ram, Get(ram, src, i).number, 0) else 0) + FramesFrom(ram, src, i + 1)
  {
  }

  lemma TablesStep(m: Machine, src: nat, d: nat, i: nat)
    requires Shape(m) && i < USER_TABLES && CopyTables(m, src, d, i).Some?
    ensures if Present(Get(m.ram, src, i))
            then CopyTable(m, src, d, i).Some? && CopyTables(m, src, d, i) == CopyTables(CopyTable(m, src, d, i).value, src, d, i + 1)
            else CopyTables(m, src, d, i) == CopyTables(m, src, d, i + 1)
  {
  }

  lemma SourceInUse(m: Machine, o: Owners, src: nat, i: nat)
    requires Inv(m, o) && IsDir(o, src) && i < USER_TABLES
    ensures src !in m.free && (Present(Get(m.ram, src, i)) ==> Get(m.ram, src, i).number !in m.free)
  {
    assert src in o.frames;
    if Present(Get(m.ram, src, i)) {
      assert Holds(o, Get(m.ram, src, i).number, UserTable(src, i));
    }
  }

  lemma QuietRoom(m: Machine, o: Owners, src: nat)
    requires Inv(m, o) && IsDir(o, src) && Clone(m, src).Some? && Clone(m, src).value.0.slots == m.slots
    ensures RoomToClone(m, src)
  {
    hide AllocZero, CopyTables, Inv, FramesFrom;
    var (m1, d) := AllocZero(m).value;
    assert Quiet(m, m) by { InvShape(m, o); }
    CopyTablesSlots(m1, src, d, 0);
    AllocQuiet(m, m);
    CopyTablesSpend(m, o, m1, src, d, 0);
  }

  /** Entry 1023 of directory `d` maps it onto itself, for the kernel to write. */
  ghost predicate MapsItself(m: Machine, d: nat) {
    var w := Get(m.ram, d, RECURSIVE);
    w.number == d && w.flags.present && w.flags.writable && !w.flags.user
  }

  lemma {:induction false} EvictLength(m: Machine, checks: nat)
    requires Shape(m)
    ensures |Evict(m, checks).0.ram| == |m.ram|
    decreases checks
  {
    if checks != 0 {
      EvictLength(EvictTurn(m).0, checks - 1);
    }
  }

  lemma AllocLength(m: Machine)
    requires Shape(m) && AllocZero(m).Some?
    ensures var (m', f) := AllocZero(m).value; |m'.ram| == |m.ram| && f < |m.ram|
  {
    if m.free == {} {
      EvictLength(m, MAX_CHECKS);
    }
  }

  lemma {:induction false} CopyPagesLength(m: Machine, s: nat, t: nat, j: nat)
    requires Shape(m) && CopyPages(m, s, t, j).Some?
    ensures |CopyPages(m, s, t, j).value.ram| == |m.ram|
    decreases ENTRIES - j
  {
    hide AllocZero;
    if j < ENTRIES {
      if Present(Get(m.ram, s, j)) {
        AllocLength(m);
        CopyPagesLength(CopyPage(m, s, t, j).value, s, t, j + 1);
      } else {
        CopyPagesLength(m, s, t, j + 1);
      }
    }
  }

  lemma {:induction false} CopyTablesLength(m: Machine, src: nat, d: nat, i: nat)
    requires Shape(m) && CopyTables(m, src, d, i).Some?
    ensures |CopyTables(m, src, d, i).value.ram| == |m.ram|
    decreases USER_TABLES - i
  {
    hide AllocZero, CopyPages;
    if i < USER_TABLES {
      if Present(Get(m.ram, src, i)) {
        AllocLength(m);
        var (m1, t) := AllocZero(m).value;
        CopyPagesLength(m1, Get(m.ram, src, i).number, t, 0);
        CopyTablesLength(CopyTable(m, src, d, i).value, src, d, i + 1);
      } else {
        CopyTablesLength(m, src, d, i + 1);
      }
    }
  }

  lemma NewDirectoriesMapThemselves(m: Machine, o: Owners, src: nat)
    requires Inv(m, o) && IsDir(o, src)
    ensures Create(m).Some? ==> MapsItself(Create(m).value.0, Create(m).value.1)
    ensures Clone(m, src).Some? ==> MapsItself(Clone(m, src).value.0, Clone(m, src).value.1)
  {
    hide Inv, AllocZero, CopyTables;
    assert Shape(m) by { InvShape(m, o); }
    if Create(m).Some? {
      AllocLength(m);
      var (m1, d) := AllocZero(m).value;
      assert DirectoryPage(m1, d)[RECURSIVE] == DirectoryEntry(m1, d, RECURSIVE);
    }
    if Clone(m, src).Some? {
      AllocLength(m);
      var (m1, d) := AllocZero(m).value;
      CopyTablesLength(m1, src, d, 0);
      var m2 := CopyTables(m1, src, d, 0).value;
      assert ClonedPage(m2, src, d)[RECURSIVE] == ClonedEntry(m2, src, d, RECURSIVE);
    }
  }

  /** Destroying a new directory restores free frames and slots exactly if a frame was free. */
  lemma CreateUndoneIff(m: Machine, o: Owners)
    requires Inv(m, o) && Create(m).Some?
    ensures var (m', d) := Create(m).value;
            Destroy(m', d).free == m.free && m'.slots == m.slots <==> m.free != {}
  {
    hide Inv, AllocZero;
    AllocTakesSlot(m);
    if m.free != {} {
      FreshReaches(m, o);
    }
  }

  lemma FreshReaches(m: Machine, o: Owners)
    requires Inv(m, o) && m.free != {} && Create(m).Some?
    ensures var (m', d) := Create(m).value; d != m'.cur && m'.slots == m.slots && m'.free + Freed(m', d) == m.free
  {
    var (m', d) := Create(m).value;
    assert d in m.free && IsDir(o, m.cur);
    assert forall k: nat :: k < USER_TABLES ==> Get(m'.ram, d, k) == ZeroWord();
  }

  lemma InvShape(m: Machine, o: Owners)
    requires Inv(m, o)
    ensures Shape(m)
  {
  }

  /** With room a clone succeeds; whenever it succeeds, the swap area is as it was exactly if there
      was room, and exactly then does destroying the clone restore free frames, slots and disk. */
  lemma CloneUndoneIff(m: Machine, o: Owners, src: nat)
    requires Inv(m, o) && IsDir(o, src)
    ensures RoomToClone(m, src) ==> Clone(m, src).Some?
    ensures Clone(m, src).Some? ==>
              var (m', d) := Clone(m, src).value;
              && (m'.slots == m.slots <==> RoomToClone(m, src))
              && (Destroy(m', d).free == m.free && m'.slots == m.slots && m'.store == m.store <==> RoomToClone(m, src))
  {
    hide Inv, Clone, Destroy;
    if RoomToClone(m, src) {
      DestroyUndoesClone(m, o, src);
    } else if Clone(m, src).Some? && Clone(m, src).value.0.slots == m.slots {
      QuietRoom(m, o, src);
    }
  }
}
