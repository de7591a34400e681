/** Copying a directory that is not loaded succeeds exactly when the supply has the frames for it. */
module CloningSupply {
  import opened Wrappers
  import opened Pages
  import opened PhysicalFrames
  import opened SwapArea
  import opened Machines
  import opened Paging
  import opened AddressSpaces
  import opened Cloning
  import opened CloningElsewhere
  import opened MemorySupply

  /** One page takes one frame. */
  lemma CopyPageSupply(m0: Machine, m: Machine, o: Owners, s: nat, t: nat, d: nat, i: nat, j: nat)
    requires Copying(m0, m, o, s, t, d, i, j) && j < ENTRIES && Present(Get(m0.ram, s, j))
    ensures CopyPage(m, s, t, j).Some? <==> Spare(m) >= 1
    ensures CopyPage(m, s, t, j).Some? ==> Spare(CopyPage(m, s, t, j).value) == Spare(m) - 1
  {
    hide Inv, AllocZero, SameContents, Spare, CopiedTo, TableSame;
    AllocSupply(m, o);
    if AllocZero(m).Some? {
      var (m1, f) := AllocZero(m).value;
      var o1 := AllocStep(m, o, m.cur);
      CopyingAfterAlloc(m0, m, o, m1, o1, s, t, d, i, j);
      var m' := CopyPage(m, s, t, j).value;
      assert SameUserHalf(m1, o1, m') by { FilledElsewhere(m1, o1, m', t, d, i, f); }
      SameSupply(m1, o1, m');
    }
  }

  lemma FilledElsewhere(m: Machine, o: Owners, m': Machine, t: nat, d: nat, i: nat, f: nat)
    requires Inv(m, o) && Filling(m, o, t, d, i) && Holds(o, f, Kernel) && m'.cur == m.cur
    requires forall g: nat, k: nat :: g != t && g != f ==> Get(m'.ram, g, k) == Get(m.ram, g, k)
    ensures SameUserHalf(m, o, m')
  {
    assert IsDir(o, m.cur);
  }

  /** A table's pages take a frame each. */
  lemma {:induction false} CopyPagesSupply(m0: Machine, m: Machine, o: Owners, s: nat, t: nat, d: nat, i: nat, j: nat)
    requires Copying(m0, m, o, s, t, d, i, j) && j <= ENTRIES
    ensures CopyPages(m, s, t, j).Some? <==> Spare(m) >= PagesFrom(m0.ram, s, j)
    ensures CopyPages(m, s, t, j).Some? ==> Spare(CopyPages(m, s, t, j).value) == Spare(m) - PagesFrom(m0.ram, s, j)
    decreases ENTRIES - j
  {
    hide Inv, CopyPage, Filling, Elsewhere, CopiedTo, StepKeeps, Spare;
    if j < ENTRIES {
      assert Get(m.ram, s, j) == Get(m0.ram, s, j);
      if Present(Get(m.ram, s, j)) {
        CopyPageSupply(m0, m, o, s, t, d, i, j);
        if CopyPage(m, s, t, j).Some? {
          var o1 := CopyPageAny(m0, m, o, s, t, d, i, j);
          CopyPagesSupply(m0, CopyPage(m, s, t, j).value, o1, s, t, d, i, j + 1);
        }
      } else {
        NothingToCopy(m0, s, m, t, j);
        CopyPagesSupply(m0, m, o, s, t, d, i, j + 1);
      }
    }
  }

  /** A table takes a frame for itself and one for each of its pages. */
  lemma CopyTableSupply(m0: Machine, o0: Owners, m: Machine, o: Owners, src: nat, d: nat, i: nat)
    requires CloningElsewhere.Underway(m0, o0, m, o, src, d, i) && i < USER_TABLES && Present(Get(m0.ram, src, i))
    ensures var cost := 1 + PagesFrom(m0.ram, Get(m0.ram, src, i).number, 0);
            && (CopyTable(m, src, d, i).Some? <==> Spare(m) >= cost)
            && (CopyTable(m, src, d, i).Some? ==> Spare(CopyTable(m, src, d, i).value) == Spare(m) - cost)
  {
    hide Inv, AllocZero, CopyPages, SameContents, Expected, TableSame, Spare, PagesFrom;
    var s := Get(m0.ram, src, i).number;
    SourceTableOf(m0, o0, m, o, src, d, i);
    assert Get(m.ram, src, i) == Get(m0.ram, src, i);
    AllocSupply(m, o);
    if AllocZero(m).Some? {
      var (m1, t) := AllocZero(m).value;
      var o1 := StartFilling(m, o, d, i);
      StepIsStep(m, o, m1, o1, t);
      TableSameTwice(m0, m, m1, s);
      CopyPagesSupply(m0, m1, o1, s, t, d, i, 0);
      if CopyPages(m1, s, t, 0).Some? {
        var m2 := CopyPages(m1, s, t, 0).value;
        var o2 := CopyPagesAny(m0, m1, o1, s, t, d, i, 0);
        var m' := CopyTable(m, src, d, i).value;
        assert SameUserHalf(m2, o2, m') by { EnteredElsewhere(m2, o2, m', t, d, i); }
        SameSupply(m2, o2, m');
      }
    }
  }

  lemma EnteredElsewhere(m: Machine, o: Owners, m': Machine, t: nat, d: nat, i: nat)
    requires Inv(m, o) && Filling(m, o, t, d, i) && m'.cur == m.cur
    requires forall g: nat, k: nat :: g != d ==> Get(m'.ram, g, k) == Get(m.ram, g, k)
    ensures SameUserHalf(m, o, m')
  {
    assert IsDir(o, d);
  }

  lemma {:induction false} CopyTablesSupply(m0: Machine, o0: Owners, m: Machine, o: Owners, src: nat, d: nat, i: nat)
    requires CloningElsewhere.Underway(m0, o0, m, o, src, d, i) && i <= USER_TABLES
    ensures CopyTables(m, src, d, i).Some? <==> Spare(m) >= FramesFrom(m0.ram, src, i)
    decreases USER_TABLES - i
  {
    hide Inv, CopyTable, SameContents, OthersSame, Expected, Spare, PagesFrom;
    if i < USER_TABLES {
      assert Get(m.ram, src, i) == Get(m0.ram, src, i);
      if Present(Get(m.ram, src, i)) {
        CopyTableSupply(m0, o0, m, o, src, d, i);
        if CopyTable(m, src, d, i).Some? {
          var m2, o2, t := BuildAny(m0, o0, m, o, src, d, i);
          SourceTableOf(m0, o0, m, o, src, d, i);
          EnterKeeps(m0, o0, m, o, src, d, i, m2, o2, t);
          CopyTablesSupply(m0, o0, CopyTable(m, src, d, i).value, o2, src, d, i + 1);
        }
      } else {
        NoTable(m0, o0, m, o, src, d, i);
        CopyTablesSupply(m0, o0, m, o, src, d, i + 1);
      }
    }
  }

  /** The clone of a directory that is not loaded succeeds exactly when the supply has a frame for
      the directory, for every table and for every page in memory; otherwise the kernel halts. */
  lemma CloneElsewhereSucceedsIff(m: Machine, o: Owners, src: nat)
    requires Inv(m, o) && IsDir(o, src) && src != m.cur
    ensures Clone(m, src).Some? <==> Spare(m) >= 1 + FramesFrom(m.ram, src, 0)
  {
    hide Inv, AllocZero, CopyTables, CloningElsewhere.Underway, FramesFrom, Spare;
    AllocSupply(m, o);
    if AllocZero(m).Some? {
      var (m1, d) := AllocZero(m).value;
      var o1 := StartAny(m, o, src);
      CopyTablesSupply(m, o, m1, o1, src, d, 0);
    }
  }
}
