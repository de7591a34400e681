/** The eviction scan, which skips empty directory entries, is a plain cyclic second-chance scan
    of all 768 * 1024 user pages. */
module Clock {
  import opened Wrappers
  import opened Pages
  import opened PhysicalFrames
  import opened SwapArea
  import opened Machines
  import opened Paging

  const POSITIONS: nat := 768 * 1024

  /** Linear position of the hand, and the position `n` slots further on, for n up to a full turn. */
  function Hand(m: Machine): nat { m.handPd * 1024 + m.handPt }
  function Ahead(p: nat, n: nat): nat { if p + n < POSITIONS then p + n else p + n - POSITIONS }

  /** The entry at position `p` of the loaded directory's user half. */
  ghost function EntryAt(m: Machine, p: nat): Word {
    var pde := Get(m.ram, m.cur, p / 1024);
    if Present(pde) then Get(m.ram, pde.number, p % 1024) else ZeroWord()
  }

  ghost predicate Resident(m: Machine, p: nat) { Present(EntryAt(m, p)) }
  ghost predicate Idle(m: Machine, p: nat) { Resident(m, p) && !EntryAt(m, p).flags.accessed }

  /** The hand moved one slot, giving the page it meets a second chance. */
  ghost function SweepOne(m: Machine): Machine {
    var a := Advance(m);
    if Present(UnderHand(a)) then ClearUnderHand(a) else a
  }

  /** `n` slots swept one by one, skipping nothing. */
  ghost function Sweep(m: Machine, n: nat): Machine
    decreases n
  {
    if n == 0 then m else Sweep(SweepOne(m), n - 1)
  }

  /** Swapping out the page `n` slots ahead, after sweeping over everything before it. */
  ghost function EvictAhead(m: Machine, n: nat): (Machine, bool)
    requires n > 0 && Shape(Sweep(m, n - 1))
  {
    var a := Advance(Sweep(m, n - 1));
    SwapOut(a, a.handPd, a.handPt)
  }

  /** `checks` turns of the eviction loop do exactly that, successfully. */
  ghost predicate EvictsAhead(m: Machine, n: nat, checks: nat) {
    && n > 0 && Shape(m) && Shape(Sweep(m, n - 1))
    && EvictAhead(m, n).1 && Evict(m, checks) == EvictAhead(m, n)
  }

  lemma HandMoves(m: Machine, o: Owners)
    requires Inv(m, o)
    ensures Hand(m) < POSITIONS && Hand(Advance(m)) == Ahead(Hand(m), 1)
    ensures UnderHand(m) == EntryAt(m, Hand(m)) && Hand(m) / 1024 == m.handPd && Hand(m) % 1024 == m.handPt
  {
  }

  lemma ClearAt(m: Machine, o: Owners, p: nat)
    requires Inv(m, o) && Present(UnderHand(m)) && p < POSITIONS
    ensures EntryAt(ClearUnderHand(m), p) == if p == Hand(m) then ClearAccessed(EntryAt(m, p)) else EntryAt(m, p)
  {
    HandMoves(m, o);
    var t := Get(m.ram, m.cur, m.handPd).number;
    assert Holds(o, t, UserTable(m.cur, m.handPd));
    var pde := Get(m.ram, m.cur, p / 1024);
    assert Get(ClearUnderHand(m).ram, m.cur, p / 1024) == pde;
    if Present(pde) {
      assert Holds(o, pde.number, UserTable(m.cur, p / 1024));
    }
  }

  /** A page swapped out of the user half always gives a frame back. */
  lemma EvictFrees(m: Machine, o: Owners)
    requires Inv(m, o) && SwapOut(m, m.handPd, m.handPt).1
    ensures SwapOut(m, m.handPd, m.handPt).0.free != {}
  {
    var t := Get(m.ram, m.cur, m.handPd).number;
    assert Holds(o, t, UserTable(m.cur, m.handPd));
    assert Get(m.ram, t, m.handPt).number in SwapOut(m, m.handPd, m.handPt).0.free;
  }

  lemma ClearStays(m: Machine)
    ensures Hand(ClearUnderHand(m)) == Hand(m) && SameResources(m, ClearUnderHand(m))
  {
  }

  lemma HandOnly(m: Machine)
    ensures SameResources(m, Advance(m)) && SameResources(m, SweepOne(m)) && Hand(SweepOne(m)) == Hand(Advance(m))
  {
  }

  lemma AdvanceAt(m: Machine, p: nat)
    ensures EntryAt(Advance(m), p) == EntryAt(m, p)
  {
  }

  ghost predicate SameResources(m: Machine, m': Machine) {
    m'.free == m.free && m'.slots == m.slots && m'.store == m.store && m'.swapOn == m.swapOn && m'.cur == m.cur
  }

  /** Sweeping one slot touches the entry met there and no other. */
  lemma SweepOneAt(m: Machine, o: Owners)
    requires Inv(m, o)
    ensures Inv(SweepOne(m), o) && Hand(SweepOne(m)) == Ahead(Hand(m), 1) && SameResources(m, SweepOne(m))
    ensures forall p: nat :: p < POSITIONS ==>
              EntryAt(SweepOne(m), p) ==
              if p == Ahead(Hand(m), 1) && Resident(m, p) then ClearAccessed(EntryAt(m, p)) else EntryAt(m, p)
  {
    hide EntryAt, ClearUnderHand, Inv, Hand, Ahead;
    var a := Advance(m);
    AdvanceKeeps(m, o);
    HandMoves(m, o);
    HandMoves(a, o);
    if Present(UnderHand(a)) {
      ClearKeeps(a, o);
      ClearStays(a);
    }
    assert SameResources(m, SweepOne(m)) && Hand(SweepOne(m)) == Hand(a) by { HandOnly(m); }
    forall p: nat | p < POSITIONS
      ensures EntryAt(SweepOne(m), p) ==
              if p == Ahead(Hand(m), 1) && Resident(m, p) then ClearAccessed(EntryAt(m, p)) else EntryAt(m, p)
    {
      AdvanceAt(m, p);
      AdvanceAt(m, Ahead(Hand(m), 1));
      if Present(UnderHand(a)) {
        ClearAt(a, o, p);
      }
    }
  }

  // ----- the skip --------------------------------------------------------------------------

  /** Sweeping on through an empty directory entry only moves the hand. */
  lemma {:induction false} SweepEmptyTable(m: Machine, o: Owners, n: nat)
    requires Inv(m, o) && m.handPt + n < ENTRIES && !Present(Get(m.ram, m.cur, m.handPd))
    ensures Sweep(m, n) == m.(handPt := m.handPt + n)
    decreases n
  {
    if n != 0 {
      SweepEmptyTable(m.(handPt := m.handPt + 1), o, n - 1);
    }
  }

  lemma {:induction false} SweepTwice(m: Machine, n: nat, k: nat)
    ensures Sweep(m, n + k) == Sweep(Sweep(m, n), k)
    decreases n
  {
    if n != 0 {
      SweepTwice(SweepOne(m), n - 1, k);
    }
  }

  /** How many slots one turn of the eviction loop covers. */
  ghost function Covers(m: Machine): nat {
    var a := Advance(m);
    if !Present(Get(a.ram, a.cur, a.handPd)) && a.handPt < ENTRIES then ENTRIES - a.handPt else 1
  }

  lemma CoversSkipsEmpty(m: Machine, o: Owners, n: nat)
    requires Inv(m, o) && 1 < n <= Covers(m)
    ensures !Resident(m, Ahead(Hand(m), n))
  {
    var a := Advance(m);
    HandMoves(m, o);
    assert Ahead(Hand(m), n) == a.handPd * 1024 + (a.handPt + n - 1) && a.handPt + n - 1 < 1024;
    assert Ahead(Hand(m), n) / 1024 == a.handPd;
  }

  /** A turn that does not evict is a plain sweep of the slots it covers. */
  lemma TurnIsSweep(m: Machine, o: Owners)
    requires Inv(m, o) && !Idle(m, Ahead(Hand(m), 1))
    ensures EvictTurn(m) == (Sweep(m, Covers(m)), false)
  {
    var a := Advance(m);
    AdvanceKeeps(m, o);
    HandMoves(m, o);
    HandMoves(a, o);
    AdvanceAt(m, Hand(a));
    if !Present(Get(a.ram, a.cur, a.handPd)) {
      var n := ENTRIES - 1 - a.handPt;
      SweepEmptyTable(a, o, n);
      assert SweepOne(m) == a;
      assert Sweep(m, n + 1) == Sweep(a, n);
    } else {
      assert Sweep(m, 1) == Sweep(SweepOne(m), 0) == SweepOne(m);
    }
  }

  lemma AheadAdds(h: nat, n: nat, k: nat)
    requires h < POSITIONS && n <= k <= POSITIONS
    ensures Ahead(h, n) < POSITIONS && Ahead(Ahead(h, n), k - n) == Ahead(h, k)
    ensures 0 < n < k ==> Ahead(h, n) != Ahead(h, k)
  {
  }

  /** A sweep changes no entry it has not come to yet. */
  lemma {:induction false} SweepAt(m: Machine, o: Owners, n: nat)
    requires Inv(m, o) && n <= POSITIONS
    ensures Inv(Sweep(m, n), o) && Hand(Sweep(m, n)) == Ahead(Hand(m), n) && SameResources(m, Sweep(m, n))
    ensures forall k: nat :: n < k <= POSITIONS ==> EntryAt(Sweep(m, n), Ahead(Hand(m), k)) == EntryAt(m, Ahead(Hand(m), k))
    decreases n
  {
    hide Inv, SweepOne, EntryAt, Hand;
    HandMoves(m, o);
    if n != 0 {
      SweepOneAt(m, o);
      SweepAt(SweepOne(m), o, n - 1);
      AheadAdds(Hand(m), 1, n);
      forall k: nat | n < k <= POSITIONS
        ensures EntryAt(Sweep(m, n), Ahead(Hand(m), k)) == EntryAt(m, Ahead(Hand(m), k))
      {
        AheadAdds(Hand(m), 1, k);
      }
    }
  }

  ghost predicate CanSwap(m: Machine) { m.swapOn && UnusedSlots(m.slots) != {} }

  /** The first idle page ahead of the hand is `n` slots away. */
  ghost predicate FirstIdle(m: Machine, n: nat) {
    1 <= n <= POSITIONS && Idle(m, Ahead(Hand(m), n)) && forall k: nat :: 1 <= k < n ==> !Idle(m, Ahead(Hand(m), k))
  }

  /** A sweep that stops short of the first idle page brings it nearer. */
  lemma SweepNearer(m: Machine, o: Owners, c: nat, n: nat)
    requires Inv(m, o) && FirstIdle(m, n) && c < n
    ensures Inv(Sweep(m, c), o) && SameResources(m, Sweep(m, c)) && FirstIdle(Sweep(m, c), n - c)
  {
    hide Inv, EntryAt, Hand;
    HandMoves(m, o);
    SweepAt(m, o, c);
    var m1 := Sweep(m, c);
    forall k: nat | 1 <= k <= n - c
      ensures Idle(m1, Ahead(Hand(m1), k)) == Idle(m, Ahead(Hand(m), k + c))
    {
      AheadAdds(Hand(m), c, k + c);
    }
  }

  lemma TurnBeforeIdle(m: Machine, o: Owners, n: nat)
    requires Inv(m, o) && FirstIdle(m, n) && n > 1
    ensures 1 <= Covers(m) < n && EvictTurn(m) == (Sweep(m, Covers(m)), false)
  {
    hide Inv, EntryAt, EvictTurn;
    HandMoves(m, o);
    var c := Covers(m);
    if c >= n {
      CoversSkipsEmpty(m, o, n);
    }
    TurnIsSweep(m, o);
  }

  lemma EvictAheadShift(m: Machine, n: nat, k: nat)
    requires k > 0 && Shape(Sweep(Sweep(m, n), k - 1))
    ensures Shape(Sweep(m, n + k - 1)) && EvictAhead(Sweep(m, n), k) == EvictAhead(m, n + k)
  {
    hide SwapOut, Sweep;
    SweepTwice(m, n, k - 1);
  }

  /** A sweeping turn followed by an eviction is that eviction seen from further away. */
  lemma TurnThenEvict(m: Machine, n: nat, c: nat, checks: nat)
    requires Shape(m) && c < n && checks > 0 && EvictTurn(m) == (Sweep(m, c), false)
    requires EvictsAhead(Sweep(m, c), n - c, checks - 1)
    ensures EvictsAhead(m, n, checks)
  {
    hide EvictTurn, EvictAhead, Sweep;
    EvictAheadShift(m, c, n - c);
  }

  /** The scan evicts the first idle page it comes to, after sweeping over all earlier ones. */
  lemma {:induction false} ScanFindsIdle(m: Machine, o: Owners, n: nat, checks: nat)
    requires Inv(m, o) && CanSwap(m) && FirstIdle(m, n) && n <= checks
    ensures Inv(Sweep(m, n - 1), o) && EvictsAhead(m, n, checks)
    decreases n
  {
    hide Inv, EvictTurn, Covers, EntryAt, Hand, Ahead, EvictAhead, EvictsAhead, Sweep;
    SweepNearer(m, o, n - 1, n);
    if n == 1 {
      FirstIsIdle(m, o, checks);
    } else {
      TurnBeforeIdle(m, o, n);
      var c := Covers(m);
      SweepNearer(m, o, c, n);
      ScanFindsIdle(Sweep(m, c), o, n - c, checks - 1);
      TurnThenEvict(m, n, c, checks);
    }
  }

  lemma FirstIsIdle(m: Machine, o: Owners, checks: nat)
    requires Inv(m, o) && CanSwap(m) && FirstIdle(m, 1) && checks > 0
    ensures EvictsAhead(m, 1, checks)
  {
    var a := Advance(m);
    AdvanceKeeps(m, o);
    HandMoves(m, o);
    HandMoves(a, o);
    AdvanceAt(m, Hand(a));
    assert Sweep(m, 0) == m;
    assert EvictTurn(m) == EvictAhead(m, 1) && EvictAhead(m, 1).1;
  }

  // ----- the second pass -------------------------------------------------------------------

  /** The first resident page ahead of the hand is `n` slots away. */
  ghost predicate FirstResident(m: Machine, n: nat) {
    1 <= n <= POSITIONS && Resident(m, Ahead(Hand(m), n)) && forall k: nat :: 1 <= k < n ==> !Resident(m, Ahead(Hand(m), k))
  }

  ghost predicate AllAccessed(m: Machine) {
    forall p: nat :: p < POSITIONS ==> !Idle(m, p)
  }

  /** How far ahead the second-chance rule puts the victim: the first idle page, or, when every
      resident page was accessed, the first resident page on the next turn. */
  ghost predicate VictimAhead(m: Machine, n: nat) {
    FirstIdle(m, n) || (AllAccessed(m) && n > POSITIONS && FirstResident(m, n - POSITIONS))
  }

  /** Sweeping exactly to the first resident page makes it the only idle page, a full turn away. */
  lemma SweepToResident(m: Machine, o: Owners, n: nat)
    requires Inv(m, o) && AllAccessed(m) && FirstResident(m, n)
    ensures Inv(Sweep(m, n), o) && SameResources(m, Sweep(m, n)) && FirstIdle(Sweep(m, n), POSITIONS)
  {
    hide Inv, EntryAt, Hand, SweepOne;
    HandMoves(m, o);
    var m0 := Sweep(m, n - 1);
    SweepAt(m, o, n - 1);
    SweepOneAt(m0, o);
    AheadAdds(Hand(m), n - 1, n);
    SweepTwice(m, n - 1, 1);
    assert Sweep(m0, 1) == Sweep(SweepOne(m0), 0) == SweepOne(m0);
    SweptStayAccessed(m, o, n - 1);
    var h := Ahead(Hand(m), n);
    assert Ahead(h, POSITIONS) == h;
    assert EntryAt(SweepOne(m0), h) == ClearAccessed(EntryAt(m, h));
    forall k: nat | 1 <= k < POSITIONS ensures !Idle(SweepOne(m0), Ahead(h, k)) {
      assert Ahead(h, k) != h && Ahead(h, k) < POSITIONS;
      assert !Idle(m0, Ahead(h, k));
    }
  }

  /** Sweeping over empty slots only, nothing becomes idle. */
  lemma {:induction false} SweptStayAccessed(m: Machine, o: Owners, n: nat)
    requires Inv(m, o) && AllAccessed(m) && n < POSITIONS && forall k: nat :: 1 <= k <= n ==> !Resident(m, Ahead(Hand(m), k))
    ensures Inv(Sweep(m, n), o) && AllAccessed(Sweep(m, n))
    decreases n
  {
    hide Inv, EntryAt, Hand, SweepOne;
    HandMoves(m, o);
    if n != 0 {
      SweepOneAt(m, o);
      var m1 := SweepOne(m);
      forall k: nat | 1 <= k <= n - 1 ensures !Resident(m1, Ahead(Hand(m1), k)) {
        AheadAdds(Hand(m), 1, k + 1);
      }
      forall p: nat | p < POSITIONS ensures !Idle(m1, p) {
        assert !Idle(m, p);
      }
      SweptStayAccessed(m1, o, n - 1);
    }
  }

  /** The scan reaches the first resident page, idle or not, by plain sweeping. */
  lemma {:induction false} ScanReaches(m: Machine, o: Owners, n: nat, checks: nat) returns (turns: nat)
    requires Inv(m, o) && AllAccessed(m) && FirstResident(m, n) && n <= checks
    ensures turns <= n && Inv(Sweep(m, n), o) && Evict(m, checks) == Evict(Sweep(m, n), checks - turns)
    decreases n
  {
    hide Inv, EntryAt, Hand, EvictTurn, Covers, SweepOne;
    HandMoves(m, o);
    AheadAdds(Hand(m), 1, n);
    assert !Idle(m, Ahead(Hand(m), 1));
    TurnIsSweep(m, o);
    SweepToResident(m, o, n);
    var c := TurnBeforeResident(m, o, n);
    turns := 1;
    if c < n {
      ResidentNearer(m, o, c, n);
      SweptStayAccessed(m, o, c);
      turns := ScanReaches(Sweep(m, c), o, n - c, checks - 1);
      turns := turns + 1;
      SweepTwice(m, c, n - c);
    }
  }

  lemma TurnBeforeResident(m: Machine, o: Owners, n: nat) returns (c: nat)
    requires Inv(m, o) && FirstResident(m, n)
    ensures c == Covers(m) && 1 <= c <= n
  {
    hide Inv, EntryAt;
    c := Covers(m);
    HandMoves(m, o);
    if c > n && n > 1 {
      CoversSkipsEmpty(m, o, n);
    } else if c > n {
      CoversFirstEmpty(m, o);
    }
  }

  lemma CoversFirstEmpty(m: Machine, o: Owners)
    requires Inv(m, o) && Covers(m) > 1
    ensures !Resident(m, Ahead(Hand(m), 1))
  {
    HandMoves(m, o);
    AdvanceKeeps(m, o);
    HandMoves(Advance(m), o);
  }

  lemma ResidentNearer(m: Machine, o: Owners, c: nat, n: nat)
    requires Inv(m, o) && FirstResident(m, n) && c < n
    ensures Inv(Sweep(m, c), o) && FirstResident(Sweep(m, c), n - c)
  {
    hide Inv, EntryAt, Hand;
    HandMoves(m, o);
    SweepAt(m, o, c);
    var m1 := Sweep(m, c);
    forall k: nat | 1 <= k <= n - c
      ensures Resident(m1, Ahead(Hand(m1), k)) == Resident(m, Ahead(Hand(m), k + c))
    {
      AheadAdds(Hand(m), c, k + c);
    }
  }

  lemma CanSwapStill(m: Machine, m': Machine)
    requires SameResources(m, m') && CanSwap(m)
    ensures CanSwap(m')
  {
  }

  lemma IdleBound(m: Machine, n: nat)
    requires FirstIdle(m, n)
    ensures 1 <= n <= POSITIONS
  {
  }

  lemma BoundOf(m: Machine, n: nat)
    requires FirstResident(m, n)
    ensures 1 <= n <= POSITIONS
  {
  }

  lemma SecondTurn(m: Machine, o: Owners, n: nat, turn: nat, checks: nat)
    requires Inv(m, o) && CanSwap(m) && AllAccessed(m) && FirstResident(m, n) && turn == POSITIONS && checks == MAX_CHECKS
    ensures Inv(Sweep(m, n + turn - 1), o) && EvictsAhead(m, n + turn, checks)
  {
    hide Inv, Evict, EvictAhead, Sweep, FirstIdle, FirstResident, AllAccessed, CanSwap;
    BoundOf(m, n);
    var turns := ScanReaches(m, o, n, checks);
    SweepToResident(m, o, n);
    CanSwapStill(m, Sweep(m, n));
    ScanFindsIdle(Sweep(m, n), o, turn, checks - turns);
    SweepTwice(m, n, turn - 1);
    EvictAheadShift(m, n, turn);
  }

  /** The eviction loop picks the second-chance victim, and its bound of two turns suffices. */
  lemma EvictIsSecondChance(m: Machine, o: Owners, n: nat)
    requires Inv(m, o) && CanSwap(m) && VictimAhead(m, n)
    ensures 1 <= n <= 2 * POSITIONS && Inv(Sweep(m, n - 1), o) && EvictsAhead(m, n, MAX_CHECKS)
  {
    hide Inv, FirstIdle, FirstResident, AllAccessed, EvictsAhead, Sweep;
    if FirstIdle(m, n) {
      IdleBound(m, n);
      ScanFindsIdle(m, o, n, MAX_CHECKS);
    } else {
      BoundOf(m, n - POSITIONS);
      SecondTurn(m, o, n - POSITIONS, POSITIONS, MAX_CHECKS);
    }
  }

  // ----- when eviction succeeds ------------------------------------------------------------

  /** Some page of the loaded directory's user half is in memory. */
  ghost predicate SomeResident(m: Machine) {
    exists p: nat :: p < POSITIONS && Resident(m, p)
  }

  lemma {:induction false} FindFirst(m: Machine, o: Owners, p: nat, idle: bool, n: nat) returns (first: nat)
    requires Inv(m, o) && p < POSITIONS && 1 <= n <= POSITIONS && p == Ahead(Hand(m), n)
    requires if idle then Idle(m, p) else Resident(m, p)
    ensures if idle then FirstIdle(m, first) else FirstResident(m, first)
    decreases n
  {
    hide Inv, EntryAt, Hand;
    first := n;
    if k: nat :| 1 <= k < n && (if idle then Idle(m, Ahead(Hand(m), k)) else Resident(m, Ahead(Hand(m), k))) {
      HandMoves(m, o);
      AheadAdds(Hand(m), k, n);
      first := FindFirst(m, o, Ahead(Hand(m), k), idle, k);
    }
  }

  lemma DistanceTo(h: nat, p: nat) returns (n: nat)
    requires h < POSITIONS && p < POSITIONS
    ensures 1 <= n <= POSITIONS && p == Ahead(h, n)
  {
    n := if h < p then p - h else p + POSITIONS - h;
  }

  /** As long as something is resident there is a victim. */
  lemma VictimExists(m: Machine, o: Owners) returns (n: nat)
    requires Inv(m, o) && SomeResident(m)
    ensures VictimAhead(m, n)
  {
    hide Inv, EntryAt, Hand, Ahead;
    HandMoves(m, o);
    if p: nat :| p < POSITIONS && Idle(m, p) {
      n := DistanceTo(Hand(m), p);
      n := FindFirst(m, o, p, true, n);
    } else {
      var p: nat :| p < POSITIONS && Resident(m, p);
      n := DistanceTo(Hand(m), p);
      n := FindFirst(m, o, p, false, n);
      n := n + POSITIONS;
    }
  }

  lemma EvictingTurnNeeds(m: Machine, o: Owners)
    requires Inv(m, o) && EvictTurn(m).1
    ensures CanSwap(m) && SomeResident(m)
  {
    var a := Advance(m);
    AdvanceKeeps(m, o);
    HandMoves(a, o);
    AdvanceAt(m, Hand(a));
    assert Resident(m, Hand(a));
  }

  /** A turn that finds no victim leaves the resident set and the resources alone. */
  lemma IdleTurnKeeps(m: Machine, o: Owners)
    requires Inv(m, o) && !EvictTurn(m).1
    ensures Inv(EvictTurn(m).0, o) && SameResources(m, EvictTurn(m).0)
  {
    var a := Advance(m);
    AdvanceKeeps(m, o);
    if Present(UnderHand(a)) && UnderHand(a).flags.accessed {
      ClearKeeps(a, o);
    }
  }

  lemma IdleTurnResidents(m: Machine, o: Owners, p: nat)
    requires Inv(m, o) && !EvictTurn(m).1 && p < POSITIONS && Resident(EvictTurn(m).0, p)
    ensures Resident(m, p)
  {
    var a := Advance(m);
    AdvanceKeeps(m, o);
    AdvanceAt(m, p);
    if Present(UnderHand(a)) && UnderHand(a).flags.accessed {
      ClearAt(a, o, p);
    }
  }

  lemma {:induction false} EvictNeeds(m: Machine, o: Owners, checks: nat)
    requires Inv(m, o) && Evict(m, checks).1
    ensures CanSwap(m) && SomeResident(m)
    decreases checks
  {
    hide Inv, EntryAt, EvictTurn;
    if EvictTurn(m).1 {
      EvictingTurnNeeds(m, o);
    } else {
      IdleTurnKeeps(m, o);
      EvictNeeds(EvictTurn(m).0, o, checks - 1);
      var p: nat :| p < POSITIONS && Resident(EvictTurn(m).0, p);
      IdleTurnResidents(m, o, p);
    }
  }

  /** Eviction succeeds exactly when a user page is in memory, a disk is there and a slot is free. */
  lemma EvictSucceedsIff(m: Machine, o: Owners)
    requires Inv(m, o)
    ensures Evict(m, MAX_CHECKS).1 <==> CanSwap(m) && SomeResident(m)
  {
    hide Inv, EntryAt, EvictTurn, SomeResident, CanSwap, VictimAhead;
    if Evict(m, MAX_CHECKS).1 {
      EvictNeeds(m, o, MAX_CHECKS);
    }
    if CanSwap(m) && SomeResident(m) {
      var n := VictimExists(m, o);
      EvictIsSecondChance(m, o, n);
    }
  }

  /** The kernel halts for want of memory exactly when nothing is free and nothing can be evicted. */
  lemma AllocSucceedsIff(m: Machine, o: Owners)
    requires Inv(m, o)
    ensures AllocZero(m).Some? <==> m.free != {} || (CanSwap(m) && SomeResident(m))
  {
    hide Inv, EntryAt, EvictTurn, SomeResident, CanSwap, VictimAhead, Sweep;
    EvictSucceedsIff(m, o);
    if m.free == {} && Evict(m, MAX_CHECKS).1 {
      var n := VictimExists(m, o);
      EvictIsSecondChance(m, o, n);
      AdvanceKeeps(Sweep(m, n - 1), o);
      EvictFrees(Advance(Sweep(m, n - 1)), o);
    }
  }
}
