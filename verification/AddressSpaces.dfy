/** Creating, switching and destroying address spaces, and runs of the whole memory subsystem. */
module AddressSpaces {
  import opened Wrappers
  import opened Pages
  import opened PhysicalFrames
  import opened SwapArea
  import opened Machines
  import opened Paging
  import opened UserMemory

  // ----- creating a directory --------------------------------------------------------------

  /** An empty user half, the loaded directory's kernel half, and the recursive entry. */
  ghost function DirectoryEntry(m: Machine, f: UInt20, k: nat): Word {
    if k < USER_TABLES then ZeroWord()
    else if k < RECURSIVE then Get(m.ram, m.cur, k)
    else Word(f, TableFlags(false))
  }

  ghost function DirectoryPage(m: Machine, f: UInt20): (p: Page)
    ensures forall k :: 0 <= k < ENTRIES ==> p[k] == DirectoryEntry(m, f, k)
  {
    var p := seq(PAGE_WORDS, (k: nat) => DirectoryEntry(m, f, k));
    p
  }

  /** `paging_create_directory`. */
  ghost function Create(m: Machine): (r: Option<(Machine, UInt20)>)
    requires Shape(m)
    ensures r.Some? ==> Shape(r.value.0)
  {
    match AllocZero(m)
    case None => None
    case Some((m1, f)) => Some((m1.(ram := PutPage(m1.ram, f, DirectoryPage(m1, f))), f))
  }

  ghost predicate AddsDir(o: Owners, o': Owners, d: nat) {
    !IsDir(o, d) && forall g: nat :: IsDir(o', g) <==> IsDir(o, g) || g == d
  }

  /** A new address space starts with an empty user half and shares the kernel half. */
  lemma CreateKeeps(m: Machine, o: Owners) returns (o': Owners)
    requires Inv(m, o) && Create(m).Some?
    ensures var (m', d) := Create(m).value;
            && Inv(m', o') && AddsDir(o, o', d) && m'.cur == m.cur && SameContents(m, m', o)
            && (forall i: nat, j: nat :: i < USER_TABLES ==> Content(m', d, i, j) == None)
            && (forall i: nat, j: nat :: USER_TABLES <= i < RECURSIVE ==> Content(m', d, i, j) == Content(m', m.cur, i, j))
  {
    var (m1, d) := AllocZero(m).value;
    var o1 := AllocKeeps(m, o);
    o' := AdoptDirectory(m1, o1, d);
  }

  lemma AdoptDirectory(m: Machine, o: Owners, d: UInt20) returns (o': Owners)
    requires Inv(m, o) && Holds(o, d, Kernel)
    ensures var m' := m.(ram := PutPage(m.ram, d, DirectoryPage(m, d)));
            && Inv(m', o') && AddsDir(o, o', d) && SameContents(m, m', o)
            && (forall i: nat, j: nat :: i < USER_TABLES ==> Content(m', d, i, j) == None)
            && (forall i: nat, j: nat :: USER_TABLES <= i < RECURSIVE ==> Content(m', d, i, j) == Content(m', m.cur, i, j))
  {
    var m' := m.(ram := PutPage(m.ram, d, DirectoryPage(m, d)));
    o' := o.(frames := o.frames[d := Directory]);
    assert forall k: nat :: k < ENTRIES ==> Get(m'.ram, d, k) == DirectoryEntry(m, d, k);
    assert forall g: nat :: IsTable(o, g) <==> IsTable(o', g);
    assert forall g: nat, r :: Holds(o, g, r) && g != d ==> Holds(o', g, r);
    assert forall t: nat, k: nat :: IsTable(o, t) ==> TableContent(m', t, k) == TableContent(m, t, k);
  }

  // ----- destroying a directory ------------------------------------------------------------

  /** Frame `f` is the directory, one of its user tables, or a present page of one. */
  ghost predicate Reaches(m: Machine, d: nat, f: nat) {
    f == d || exists i: nat :: i < USER_TABLES && Present(Get(m.ram, d, i)) &&
                (Get(m.ram, d, i).number == f || TableReaches(m, Get(m.ram, d, i).number, f))
  }

  ghost predicate TableReaches(m: Machine, t: nat, f: nat) {
    exists j: nat :: Present(Get(m.ram, t, j)) && Get(m.ram, t, j).number == f
  }

  ghost function Freed(m: Machine, d: nat): set<nat> {
    set f | m.base <= f < |m.ram| && Reaches(m, d, f)
  }

  /** `paging_destroy_directory`: refuses the loaded directory; swap slots are not given back. */
  ghost function Destroy(m: Machine, d: nat): Machine {
    if d == m.cur then m else m.(free := m.free + Freed(m, d))
  }

  /** Only frames of the destroyed address space are freed, and every other one is unaffected. */
  lemma DestroyKeeps(m: Machine, o: Owners, d: nat) returns (o': Owners)
    requires Inv(m, o) && IsDir(o, d)
    ensures Inv(Destroy(m, d), o')
    ensures forall g: nat :: IsDir(o', g) <==> IsDir(o, g) && (g != d || d == m.cur)
    ensures SameContents(m, Destroy(m, d), o)
  {
    o' := o;
    if d != m.cur {
      o' := o.(frames := o.frames - Freed(m, d));
      forall f | f in Freed(m, d) ensures FreedRole(o, d, f) {
        FreedRoles(m, o, d, f);
      }
      assert forall t: nat :: IsTable(o', t) ==> IsTable(o, t);
      assert forall g: nat, r :: Holds(o', g, r) ==> Holds(o, g, r);
    }
  }

  ghost predicate FreedRole(o: Owners, d: nat, f: nat) {
    && f in o.frames
    && match o.frames[f]
       case Directory => f == d
       case UserTable(d', _) => d' == d
       case PageOf(t, _) => t in o.frames && o.frames[t].UserTable? && o.frames[t].dir == d
       case _ => false
  }

  lemma FreedRoles(m: Machine, o: Owners, d: nat, f: nat)
    requires Inv(m, o) && IsDir(o, d) && Reaches(m, d, f)
    ensures FreedRole(o, d, f)
  {
    if f != d {
      var i: nat :| i < USER_TABLES && Present(Get(m.ram, d, i)) &&
        (Get(m.ram, d, i).number == f || TableReaches(m, Get(m.ram, d, i).number, f));
      var t := Get(m.ram, d, i).number;
      assert Holds(o, t, UserTable(d, i));
    }
  }

  // ----- unmapping -------------------------------------------------------------------------

  /** `paging_unmap` of page (i, j) of the loaded directory. */
  ghost function Unmap(m: Machine, i: nat, j: nat): Machine {
    var pde := Get(m.ram, m.cur, i);
    if Present(pde) then m.(ram := Put(m.ram, pde.number, j, ZeroWord())) else m
  }

  lemma UnmapKeeps(m: Machine, o: Owners, i: nat, j: nat)
    requires Inv(m, o) && i < RECURSIVE && j < ENTRIES
    ensures Inv(Unmap(m, i, j), o)
    ensures forall d: nat, i': nat, j': nat :: IsDir(o, d) && i' < USER_TABLES ==>
              Content(Unmap(m, i, j), d, i', j') ==
              if d == m.cur && i' == i && j' == j then None else Content(m, d, i', j')
  {
    var m', t := Unmap(m, i, j), Get(m.ram, m.cur, i).number;
    if Present(Get(m.ram, m.cur, i)) {
      assert Holds(o, t, TableRole(m.cur, i));
      assert forall g: nat, k: nat :: IsTable(o, g) ==>
        TableContent(m', g, k) == if g == t && k == j then None else TableContent(m, g, k);
    }
  }

  // ----- single ownership ------------------------------------------------------------------

  /** Distinct user pages never share a frame or a slot, and neither is ever up for grabs. */
  lemma NoSharing(m: Machine, o: Owners, d: nat, i: nat, j: nat, d': nat, i': nat, j': nat)
    requires Inv(m, o) && IsDir(o, d) && IsDir(o, d') && i < USER_TABLES && i' < USER_TABLES
    requires Present(Get(m.ram, d, i)) && Present(Get(m.ram, d', i')) && (d, i, j) != (d', i', j')
    ensures var w, w' := Get(m.ram, Get(m.ram, d, i).number, j), Get(m.ram, Get(m.ram, d', i').number, j');
            && (Present(w) ==> m.base <= w.number < |m.ram| && w.number !in m.free)
            && (IsSwapped(w) ==> w.number in m.slots)
            && (Present(w) && Present(w') ==> w.number != w'.number)
            && (IsSwapped(w) && IsSwapped(w') ==> w.number != w'.number)
  {
    var t, t' := Get(m.ram, d, i).number, Get(m.ram, d', i').number;
    assert Holds(o, t, UserTable(d, i)) && Holds(o, t', UserTable(d', i'));
  }
}
