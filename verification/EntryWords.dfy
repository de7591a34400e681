/** The entries the kernel writes, as the 32-bit numbers it writes them as. */
module EntryWords {
  import opened Powers
  import opened Pages
  import opened SwapArea
  import opened Machines
  import opened Paging
  import opened HeapPages

  /** Setting a clear bit adds its weight. */
  lemma {:induction false} SetBitValue(bits: seq<bool>, k: nat)
    requires k < |bits| && !bits[k]
    ensures BitsValue(bits[k := true]) == BitsValue(bits) + Pow2(k)
  {
    var set1 := bits[k := true];
    if k == 0 {
      assert set1[1..] == bits[1..];
    } else {
      assert set1[1..] == bits[1..][k - 1 := true];
      SetBitValue(bits[1..], k - 1);
    }
  }

  lemma {:induction false} NoBitsValue(bits: seq<bool>)
    requires forall k :: 0 <= k < |bits| ==> !bits[k]
    ensures BitsValue(bits) == 0
  {
    if bits != [] {
      NoBitsValue(bits[1..]);
    }
  }

  function FlagValue(f: Flags): nat { BitsValue(FlagRow(f)) }

  /** Flags `f'` are `f` with bit `k` set. */
  lemma SetFlag(f: Flags, f': Flags, k: nat)
    requires k < 12 && !FlagAt(f, k) && FlagAt(f', k) && forall i: nat :: i < 12 && i != k ==> FlagAt(f', i) == FlagAt(f, i)
    ensures FlagValue(f') == FlagValue(f) + Pow2(k)
  {
    assert FlagRow(f') == FlagRow(f)[k := true];
    SetBitValue(FlagRow(f), k);
  }

  lemma Weights()
    ensures Pow2(0) == 0x1 && Pow2(1) == 0x2 && Pow2(2) == 0x4 && Pow2(5) == 0x20 && Pow2(9) == 0x200
  {
    assert Pow2(3) == 0x8 && Pow2(6) == 0x40;
  }

  lemma NoFlagsValue()
    ensures FlagValue(NoFlags()) == 0
  {
    NoBitsValue(FlagRow(NoFlags()));
  }

  lemma PresentValue()
    ensures FlagValue(NoFlags().(present := true)) == 1
  {
    hide FlagValue, Pow2;
    Weights();
    NoFlagsValue();
    SetFlag(NoFlags(), NoFlags().(present := true), 0);
  }

  lemma KernelValue()
    ensures FlagValue(KernelFlags()) == 3
  {
    hide FlagValue, Pow2;
    Weights();
    PresentValue();
    SetFlag(NoFlags().(present := true), KernelFlags(), 1);
  }

  lemma UserValue()
    ensures FlagValue(UserFlags()) == 7
  {
    hide FlagValue, Pow2;
    Weights();
    KernelValue();
    SetFlag(KernelFlags(), UserFlags(), 2);
  }

  lemma SwappedValue()
    ensures FlagValue(NoFlags().(swapped := true)) == 0x200
  {
    hide FlagValue, Pow2;
    Weights();
    NoFlagsValue();
    SetFlag(NoFlags(), NoFlags().(swapped := true), 9);
  }

  lemma WordValue(w: Word)
    ensures ToNumber(w) == w.number * 4096 + FlagValue(w.flags)
  {
  }

  /** Pages brought in are written as frame | 7, tables as frame | 3 (| 4 for the user), heap pages as
      frame | 3, pages on disk as slot << 12 | 0x200. */
  lemma NewEntries(f: UInt20, slot: nat, user: bool)
    requires slot < SLOTS
    ensures ToNumber(Word(f, UserFlags())) == f * 4096 + 7
    ensures ToNumber(Word(f, TableFlags(user))) == f * 4096 + (if user then 7 else 3)
    ensures ToNumber(Word(f, KernelFlags())) == f * 4096 + 3
    ensures ToNumber(SwapEntry(slot)) == slot * 4096 + 0x200
  {
    hide ToNumber, FlagValue;
    KernelValue();
    UserValue();
    SwappedValue();
    WordValue(Word(f, UserFlags()));
    WordValue(Word(f, TableFlags(user)));
    WordValue(Word(f, KernelFlags()));
    WordValue(SwapEntry(slot));
    assert TableFlags(user) == if user then UserFlags() else KernelFlags();
  }

  lemma ClearedFlag(f: Flags)
    requires f.accessed
    ensures FlagValue(f) == FlagValue(f.(accessed := false)) + 0x20
  {
    hide FlagValue, Pow2;
    Weights();
    SetFlag(f.(accessed := false), f, 5);
  }

  lemma OpenedFlag(f: Flags)
    requires !f.user
    ensures FlagValue(f.(user := true)) == FlagValue(f) + 0x4
  {
    hide FlagValue, Pow2;
    Weights();
    SetFlag(f, f.(user := true), 2);
  }

  /** Giving a page a second chance clears bit 5 of its entry and nothing else. */
  lemma ClearedEntry(w: Word)
    ensures ToNumber(ClearAccessed(w)) == if w.flags.accessed then ToNumber(w) - 0x20 else ToNumber(w)
  {
    hide ToNumber, FlagValue;
    if w.flags.accessed {
      WordValue(w);
      WordValue(ClearAccessed(w));
      ClearedFlag(w.flags);
    } else {
      assert ClearAccessed(w) == w;
    }
  }

  /** Opening a table to the user sets bit 2 of its entry and nothing else. */
  lemma OpenedEntry(w: Word)
    ensures ToNumber(SetUser(w)) == if w.flags.user then ToNumber(w) else ToNumber(w) + 0x4
  {
    hide ToNumber, FlagValue;
    if w.flags.user {
      assert SetUser(w) == w;
    } else {
      WordValue(w);
      WordValue(SetUser(w));
      OpenedFlag(w.flags);
    }
  }
}
