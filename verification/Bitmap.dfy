/** The byte bitmaps of the frame allocator and of the swap area: bit `f` lives in byte `f / 8`
    at position `f % 8`. Everything bit-level is proved here; the rest of the model only sees
    `Marked()`, the set of positions whose bit is 1. */
module Bitmaps {

  function Mask(k: nat): (m: bv8)
    requires k < 8
  {
    (1 as bv8) << k
  }

  predicate TestBit(b: bv8, k: nat)
    requires k < 8
  {
    b & Mask(k) != 0
  }

  lemma SetBit(b: bv8, k: nat, j: nat)
    requires k < 8 && j < 8
    ensures TestBit(b | Mask(k), j) <==> j == k || TestBit(b, j)
  {
    MaskTable(k);
    MaskTable(j);
  }

  lemma ClearBit(b: bv8, k: nat, j: nat)
    requires k < 8 && j < 8
    ensures TestBit(b & !Mask(k), j) <==> j != k && TestBit(b, j)
  {
    MaskTable(k);
    MaskTable(j);
  }

  lemma MaskTable(k: nat)
    requires k < 8
    ensures Mask(k) == [1, 2, 4, 8, 16, 32, 64, 128][k]
  {
    if k == 0 {} else if k == 1 {} else if k == 2 {} else if k == 3 {}
    else if k == 4 {} else if k == 5 {} else if k == 6 {} else {}
  }

  class Bitmap {
    const bytes: array<bv8>

    /** The positions whose bit is set. */
    ghost function Marked(): set<nat>
      reads bytes
    {
      set f: nat | f < 8 * bytes.Length && TestBit(bytes[f / 8], f % 8)
    }

    function Capacity(): nat {
      8 * bytes.Length
    }

    constructor (size: nat)
      ensures fresh(bytes) && bytes.Length == size
      ensures Marked() == {}
    {
      bytes := new bv8[size](_ => 0);
    }

    predicate Test(f: nat)
      requires f < Capacity()
      reads bytes
      ensures Test(f) <==> f in Marked()
    {
      TestBit(bytes[f / 8], f % 8)
    }

    method Set(f: nat)
      requires f < Capacity()
      modifies bytes
      ensures Marked() == old(Marked()) + {f}
    {
      bytes[f / 8] := bytes[f / 8] | Mask(f % 8);
      forall g: nat | g < Capacity()
        ensures TestBit(bytes[g / 8], g % 8) <==> g == f || old(TestBit(bytes[g / 8], g % 8))
      {
        if g / 8 == f / 8 {
          SetBit(old(bytes[f / 8]), f % 8, g % 8);
        }
      }
    }

    method Clear(f: nat)
      requires f < Capacity()
      modifies bytes
      ensures Marked() == old(Marked()) - {f}
    {
      bytes[f / 8] := bytes[f / 8] & !Mask(f % 8);
      forall g: nat | g < Capacity()
        ensures TestBit(bytes[g / 8], g % 8) <==> g != f && old(TestBit(bytes[g / 8], g % 8))
      {
        if g / 8 == f / 8 {
          ClearBit(old(bytes[f / 8]), f % 8, g % 8);
        }
      }
    }

    /** Sets every bit (value 0xFF) or clears every bit (value 0). */
    method Fill(on: bool)
      modifies bytes
      ensures forall f: nat :: f in Marked() <==> on && f < Capacity()
    {
      var value: bv8 := if on then 0xFF else 0;
      for i := 0 to bytes.Length
        invariant forall k :: 0 <= k < i ==> bytes[k] == value
      {
        bytes[i] := value;
      }
      forall g: nat | g < Capacity()
        ensures TestBit(bytes[g / 8], g % 8) <==> on
      {
        MaskTable(g % 8);
        assert bytes[g / 8] == value;
      }
    }
  }
}
