/** What eviction and allocation cost, exactly: one page, one slot, one frame, and no entry of any
    table that does not belong to the loaded directory's user half. */
module Evictions {
  import opened Wrappers
  import opened Pages
  import opened PhysicalFrames
  import opened SwapArea
  import opened Machines
  import opened Paging

  /** Table `t` is a user table of the loaded directory. */
  ghost predicate OfLoaded(m: Machine, o: Owners, t: nat) {
    t in o.frames && o.frames[t].UserTable? && o.frames[t].dir == m.cur
  }

  /** Frame `g` is a user table of the loaded directory or a page of one. */
  ghost predicate InLoaded(m: Machine, o: Owners, g: nat) {
    OfLoaded(m, o, g) || (g in o.frames && o.frames[g].PageOf? && OfLoaded(m, o, o.frames[g].table))
  }

  /** All other frames in use are as they were. */
  ghost predicate Spares(m: Machine, o: Owners, m': Machine) {
    |m'.ram| == |m.ram| && forall g: nat :: g in o.frames && !InLoaded(m, o, g) ==> PageAt(m'.ram, g) == PageAt(m.ram, g)
  }

  lemma SparesEntries(m: Machine, o: Owners, m': Machine, t: nat, k: nat)
    requires Spares(m, o, m') && IsTable(o, t) && !OfLoaded(m, o, t)
    ensures Get(m'.ram, t, k) == Get(m.ram, t, k)
  {
    assert PageAt(m'.ram, t) == PageAt(m.ram, t);
  }

  /** A page of the loaded user half left frame `f` for slot `s`. */
  ghost predicate Evicted(m: Machine, o: Owners, m': Machine, f: nat, s: nat) {
    && f in o.frames && o.frames[f].PageOf? && OfLoaded(m, o, o.frames[f].table)
    && f !in m.free && m'.free == m.free + {f}
    && s < SLOTS && s !in m.slots && m'.slots == m.slots + {s}
  }

  ghost predicate SamePools(m: Machine, m': Machine) {
    m'.free == m.free && m'.slots == m.slots && m'.store == m.store
  }

  /** One turn: either the pools are as they were or the page under the hand was evicted. */
  lemma TurnOutcome(m: Machine, o: Owners) returns (f: nat, s: nat)
    requires Inv(m, o)
    ensures Spares(m, o, EvictTurn(m).0)
    ensures if EvictTurn(m).1 then Evicted(m, o, EvictTurn(m).0, f, s) else SamePools(m, EvictTurn(m).0)
  {
    f, s := 0, 0;
    var a := Advance(m);
    var t := Get(a.ram, a.cur, a.handPd).number;
    if Present(Get(a.ram, a.cur, a.handPd)) {
      assert Holds(o, t, UserTable(m.cur, a.handPd));
      assert OfLoaded(m, o, t);
      if EvictTurn(m).1 {
        f, s := Get(a.ram, t, a.handPt).number, Lowest(UnusedSlots(m.slots));
        assert Holds(o, f, PageOf(t, a.handPt));
      }
    }
  }

  /** The whole scan: a success evicts exactly one page, a failure changes no pool. */
  lemma {:induction false} EvictOutcome(m: Machine, o: Owners, checks: nat) returns (f: nat, s: nat)
    requires Inv(m, o)
    ensures Spares(m, o, Evict(m, checks).0)
    ensures if Evict(m, checks).1 then Evicted(m, o, Evict(m, checks).0, f, s) else SamePools(m, Evict(m, checks).0)
    decreases checks
  {
    hide Inv, EvictTurn, Untouched;
    f, s := 0, 0;
    if checks != 0 {
      f, s := TurnOutcome(m, o);
      if !EvictTurn(m).1 {
        var m1 := EvictTurn(m).0;
        var o1 := EvictTurnKeeps(m, o);
        assert m1.cur == m.cur by { SameLoaded(m, o, m1, o1); }
        f, s := EvictOutcome(m1, o, checks - 1);
      }
    }
  }

  lemma SameLoaded(m: Machine, o: Owners, m': Machine, o': Owners)
    requires Untouched(m, o, m', o')
    ensures m'.cur == m.cur && KeepsRoles(o, o') && SameDirs(o, o')
  {
  }

  /** Frame `f` came from the free set, or from an evicted page when nothing was free. */
  ghost predicate Allocated(m: Machine, o: Owners, m': Machine, f: nat, s: nat) {
    if m.free != {} then f == Lowest(m.free) && m'.free == m.free - {f} && m'.slots == m.slots && m'.store == m.store
    else
      && f in o.frames && o.frames[f].PageOf? && OfLoaded(m, o, o.frames[f].table)
      && m'.free == {} && s < SLOTS && s !in m.slots && m'.slots == m.slots + {s}
  }

  lemma AllocOutcome(m: Machine, o: Owners) returns (s: nat)
    requires Inv(m, o) && AllocZero(m).Some?
    ensures var (m', f) := AllocZero(m).value; Spares(m, o, m') && Allocated(m, o, m', f, s)
  {
    s := 0;
    if m.free == {} {
      var g;
      g, s := EvictOutcome(m, o, MAX_CHECKS);
      var m1 := Evict(m, MAX_CHECKS).0;
      assert m1.free == {g};
    }
  }
}
