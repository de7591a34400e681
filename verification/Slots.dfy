/** Swap slots and the entries that name them: which steps can leave a slot marked that nothing
    refers to any more. */
module SwapSlots {
  import opened Wrappers
  import opened Pages
  import opened PhysicalFrames
  import opened SwapArea
  import opened Machines
  import opened Paging
  import opened Evictions

  /** Page (i, j) of directory `d` is in slot `s`. */
  ghost predicate SwappedAt(m: Machine, d: nat, i: nat, j: nat, s: nat) {
    var t := Get(m.ram, d, i).number;
    Present(Get(m.ram, d, i)) && IsSwapped(Get(m.ram, t, j)) && Get(m.ram, t, j).number == s
  }

  /** Some page of a live directory is in slot `s`. */
  ghost predicate Named(m: Machine, o: Owners, s: nat) {
    exists d: nat, i: nat, j: nat :: IsDir(o, d) && i < RECURSIVE && SwappedAt(m, d, i, j, s)
  }

  /** Every marked slot holds a page of a live directory. */
  ghost predicate NoLostSlots(m: Machine, o: Owners) {
    forall s :: s in m.slots ==> Named(m, o, s)
  }

  /** From directories `o` to directories `o'`: marked slots stay marked, those in use stay in use,
      those lost stay lost, and every new one is in use. */
  ghost predicate CarriesNames(m: Machine, o: Owners, m': Machine, o': Owners) {
    && m.slots <= m'.slots
    && (forall s: nat :: Named(m, o, s) ==> Named(m', o', s))
    && (forall s: nat :: s in m.slots && Named(m', o', s) ==> Named(m, o, s))
    && (forall s :: s in m'.slots && s !in m.slots ==> Named(m', o', s))
  }

  /** The same with the directories as they are. */
  ghost predicate KeepsNames(m: Machine, o: Owners, m': Machine) { CarriesNames(m, o, m', o) }

  lemma CarriesTwice(m: Machine, o: Owners, m1: Machine, o1: Owners, m2: Machine)
    requires CarriesNames(m, o, m1, o1) && KeepsNames(m1, o1, m2)
    ensures CarriesNames(m, o, m2, o1)
  {
    hide Named;
  }

  /** More directories name more slots. */
  lemma MoreDirectories(m: Machine, o: Owners, m': Machine, o': Owners)
    requires KeepsNames(m, o, m') && forall d: nat :: IsDir(o, d) ==> IsDir(o', d)
    requires forall d: nat, i: nat :: IsDir(o', d) && !IsDir(o, d) ==> !Present(Get(m'.ram, d, i))
    ensures CarriesNames(m, o, m', o')
  {
    forall s: nat | Named(m', o', s) ensures Named(m', o, s) {
      var d: nat, i: nat, j: nat :| IsDir(o', d) && i < RECURSIVE && SwappedAt(m', d, i, j, s);
      assert IsDir(o, d);
    }
    forall s: nat | Named(m', o, s) ensures Named(m', o', s) {
      var d: nat, i: nat, j: nat :| IsDir(o, d) && i < RECURSIVE && SwappedAt(m', d, i, j, s);
      assert IsDir(o', d);
    }
  }

  lemma NamesTwice(m: Machine, o: Owners, m1: Machine, m2: Machine)
    requires KeepsNames(m, o, m1) && KeepsNames(m1, o, m2)
    ensures KeepsNames(m, o, m2)
  {
    hide Named;
  }

  lemma NamesSame(m: Machine, o: Owners, o': Owners, m': Machine)
    requires KeepsNames(m, o, m') && SameDirs(o, o')
    ensures KeepsNames(m, o', m')
  {
    forall x: Machine, s: nat ensures Named(x, o, s) <==> Named(x, o', s) {
      SameNamed(x, o, o', s);
    }
  }

  lemma SameNamed(m: Machine, o: Owners, o': Owners, s: nat)
    requires SameDirs(o, o')
    ensures Named(m, o, s) <==> Named(m, o', s)
  {
    if Named(m, o, s) {
      var d: nat, i: nat, j: nat :| IsDir(o, d) && i < RECURSIVE && SwappedAt(m, d, i, j, s);
      assert IsDir(o', d);
    }
    if Named(m, o', s) {
      var d: nat, i: nat, j: nat :| IsDir(o', d) && i < RECURSIVE && SwappedAt(m, d, i, j, s);
      assert IsDir(o, d);
    }
  }

  /** What makes room never touches an entry that is not present. */
  lemma UntouchedNames(m: Machine, o: Owners, m': Machine, o': Owners, s: nat)
    requires Inv(m, o) && Untouched(m, o, m', o') && Named(m, o, s)
    ensures Named(m', o, s)
  {
    var d: nat, i: nat, j: nat :| IsDir(o, d) && i < RECURSIVE && SwappedAt(m, d, i, j, s);
    var t := Get(m.ram, d, i).number;
    assert Holds(o, t, TableRole(d, i));
    assert Get(m'.ram, d, i) == Get(m.ram, d, i) && Get(m'.ram, t, j) == Get(m.ram, t, j);
    assert SwappedAt(m', d, i, j, s);
  }

  /** An entry that is swapped where none was before got a new slot. */
  lemma OldNames(m: Machine, o: Owners, m': Machine, s: nat)
    requires Inv(m, o) && Named(m', o, s)
    requires forall d: nat, i: nat :: IsDir(o, d) ==> Get(m'.ram, d, i) == Get(m.ram, d, i)
    requires forall t: nat, k: nat :: IsTable(o, t) && IsSwapped(Get(m'.ram, t, k)) && Get(m'.ram, t, k).number == s ==>
               SameTarget(Get(m.ram, t, k), Get(m'.ram, t, k))
    ensures Named(m, o, s)
  {
    var d: nat, i: nat, j: nat :| IsDir(o, d) && i < RECURSIVE && SwappedAt(m', d, i, j, s);
    assert Holds(o, Get(m.ram, d, i).number, TableRole(d, i));
    assert SwappedAt(m, d, i, j, s);
  }

  lemma SwapOutNames(m: Machine, o: Owners, i: nat, j: nat)
    requires Inv(m, o) && i < RECURSIVE && j < ENTRIES
    ensures KeepsNames(m, o, SwapOut(m, i, j).0)
  {
    var m' := SwapOut(m, i, j).0;
    forall s: nat | s in m.slots && Named(m', o, s) ensures Named(m, o, s) {
      if SwapOut(m, i, j).1 {
        assert IsDir(o, m.cur) && Holds(o, Get(m.ram, m.cur, i).number, TableRole(m.cur, i));
        OldNames(m, o, m', s);
      }
    }
    var o' := SwapOutKeeps(m, o, i, j);
    forall s: nat | Named(m, o, s) ensures Named(m', o, s) {
      UntouchedNames(m, o, m', o', s);
    }
    if SwapOut(m, i, j).1 {
      var s := Lowest(UnusedSlots(m.slots));
      assert Holds(o, Get(m.ram, m.cur, i).number, TableRole(m.cur, i)) && IsDir(o, m.cur);
      assert SwappedAt(m', m.cur, i, j, s);
    }
  }

  lemma TurnNames(m: Machine, o: Owners)
    requires Inv(m, o)
    ensures KeepsNames(m, o, EvictTurn(m).0)
  {
    var m', a := EvictTurn(m).0, Advance(m);
    HandStays(m, o);
    SameRamNames(m, o, a);
    hide Inv, Untouched, SwapOut, Advance, KeepsNames;
    if !Present(Get(a.ram, a.cur, a.handPd)) || !Present(UnderHand(a)) {
      SameRamNames(a, o, m');
    } else if UnderHand(a).flags.accessed {
      FlagNames(a, o, Get(a.ram, a.cur, a.handPd).number, a.handPt, ClearAccessed(UnderHand(a)));
    } else {
      SwapOutNames(a, o, a.handPd, a.handPt);
    }
    NamesTwice(m, o, a, m');
  }

  lemma SameRamNames(m: Machine, o: Owners, m': Machine)
    requires m'.ram == m.ram && m'.slots == m.slots
    ensures KeepsNames(m, o, m')
  {
    forall s: nat ensures Named(m, o, s) <==> Named(m', o, s) {
      assert forall d: nat, i: nat, j: nat :: SwappedAt(m, d, i, j, s) <==> SwappedAt(m', d, i, j, s);
    }
  }

  /** Flag bits other than present and swapped name nothing. */
  lemma FlagNames(m: Machine, o: Owners, f: nat, j: nat, w: Word)
    requires SameTarget(Get(m.ram, f, j), w)
    ensures KeepsNames(m, o, m.(ram := Put(m.ram, f, j, w)))
  {
    var m' := m.(ram := Put(m.ram, f, j, w));
    forall g: nat, k: nat ensures SameTarget(Get(m.ram, g, k), Get(m'.ram, g, k)) {
    }
    forall s: nat ensures Named(m, o, s) <==> Named(m', o, s) {
      SameTargetsName(m, o, m', s);
    }
  }

  lemma SameTargetsName(m: Machine, o: Owners, m': Machine, s: nat)
    requires forall g: nat, k: nat :: SameTarget(Get(m.ram, g, k), Get(m'.ram, g, k))
    ensures Named(m, o, s) <==> Named(m', o, s)
  {
    forall d: nat, i: nat, j: nat ensures SwappedAt(m, d, i, j, s) <==> SwappedAt(m', d, i, j, s) {
      assert SameTarget(Get(m.ram, d, i), Get(m'.ram, d, i));
      assert SameTarget(Get(m.ram, Get(m.ram, d, i).number, j), Get(m'.ram, Get(m.ram, d, i).number, j));
    }
  }

  lemma {:induction false} EvictNames(m: Machine, o: Owners, checks: nat)
    requires Inv(m, o)
    ensures KeepsNames(m, o, Evict(m, checks).0)
    decreases checks
  {
    hide Inv, EvictTurn, Named, Untouched;
    if checks != 0 {
      TurnNames(m, o);
      if !EvictTurn(m).1 {
        var o1 := EvictTurnKeeps(m, o);
        EvictNames(EvictTurn(m).0, o, checks - 1);
        NamesTwice(m, o, EvictTurn(m).0, Evict(m, checks).0);
      }
    }
  }

  lemma TakeNames(m: Machine, o: Owners)
    requires Inv(m, o) && m.free != {}
    ensures KeepsNames(m, o, TakeLowest(m).0)
  {
    var m' := TakeLowest(m).0;
    var o' := TakeLowestKeeps(m, o);
    forall s: nat | Named(m, o, s) ensures Named(m', o, s) {
      UntouchedNames(m, o, m', o', s);
    }
    forall s: nat | Named(m', o, s) ensures Named(m, o, s) {
      OldNames(m, o, m', s);
    }
  }

  lemma AllocNames(m: Machine, o: Owners)
    requires Inv(m, o) && AllocZero(m).Some?
    ensures KeepsNames(m, o, AllocZero(m).value.0)
  {
    hide Inv, Named, Untouched, TakeLowest;
    if m.free != {} {
      TakeNames(m, o);
    } else {
      var m1 := Evict(m, MAX_CHECKS).0;
      EvictNames(m, o, MAX_CHECKS);
      var o1 := EvictKeeps(m, o, MAX_CHECKS);
      TakeNames(m1, o1);
      assert SameDirs(o1, o) by { DirsOfUntouched(m, o, m1, o1); }
      NamesSame(m1, o1, o, TakeLowest(m1).0);
      NamesTwice(m, o, m1, TakeLowest(m1).0);
    }
  }

  lemma DirsOfUntouched(m: Machine, o: Owners, m': Machine, o': Owners)
    requires Untouched(m, o, m', o')
    ensures SameDirs(o', o)
  {
  }
}
