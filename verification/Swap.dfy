/** Machine words by bit field, and pages of 1024 words. */
module Pages {
  import opened Powers

  const PAGE_WORDS: nat := 1024

  type UInt20 = n: nat | n < 0x10_0000

  /** Index of a word within a page. */
  type Index = n: nat | n < PAGE_WORDS

  /** Bits 0-11 of a word, as the paging hardware and the kernel name them. */
  datatype Flags = Flags(
    present: bool, writable: bool, user: bool, bit3: bool, bit4: bool, accessed: bool,
    dirty: bool, bit7: bool, bit8: bool, swapped: bool, bit10: bool, bit11: bool)

  /** A 32-bit word: `number` is bits 12-31 (a frame or a swap slot), `flags` bits 0-11. */
  datatype Word = Word(number: UInt20, flags: Flags)

  function NoFlags(): Flags {
    Flags(false, false, false, false, false, false, false, false, false, false, false, false)
  }

  function ZeroWord(): Word { Word(0, NoFlags()) }

  /** Little-endian value of a row of bits, and the row of the `k` low bits of a number. */
  function BitsValue(bits: seq<bool>): nat {
    if bits == [] then 0 else (if bits[0] then 1 else 0) + 2 * BitsValue(bits[1..])
  }
  function LowBits(n: nat, k: nat): (bits: seq<bool>)
    ensures |bits| == k
  {
    if k == 0 then [] else [n % 2 == 1] + LowBits(n / 2, k - 1)
  }

  /** Bit 0 is PRESENT, 1 RW, 2 USER, 5 ACCESSED, 6 DIRTY, 9 SWAPPED. */
  function FlagAt(f: Flags, k: nat): bool {
    match k
    case 0 => f.present case 1 => f.writable case 2 => f.user case 3 => f.bit3
    case 4 => f.bit4 case 5 => f.accessed case 6 => f.dirty case 7 => f.bit7
    case 8 => f.bit8 case 9 => f.swapped case 10 => f.bit10 case _ => f.bit11
  }

  function FlagRow(f: Flags): (bits: seq<bool>)
    ensures |bits| == 12
  {
    seq(12, (k: nat) => FlagAt(f, k))
  }
  function RowFlags(b: seq<bool>): Flags
    requires |b| == 12
  {
    Flags(b[0], b[1], b[2], b[3], b[4], b[5], b[6], b[7], b[8], b[9], b[10], b[11])
  }

  /** The 32-bit number a word stands for, and back. */
  function ToNumber(w: Word): nat { w.number * 4096 + BitsValue(FlagRow(w.flags)) }
  function FromNumber(n: nat): Word
    requires n < 0x1_0000_0000
  {
    Word(n / 4096, RowFlags(LowBits(n % 4096, 12)))
  }

  type Page = p: seq<Word> | |p| == PAGE_WORDS witness seq(PAGE_WORDS, _ => ZeroWord())

  function ZeroPage(): Page {
    seq(PAGE_WORDS, _ => ZeroWord())
  }

  lemma {:induction false} BitsRoundTrip(bits: seq<bool>)
    ensures BitsValue(bits) < Pow2(|bits|) && LowBits(BitsValue(bits), |bits|) == bits
  {
    if bits != [] {
      BitsRoundTrip(bits[1..]);
    }
  }

  lemma {:induction false} NumberRoundTrip(n: nat, k: nat)
    requires n < Pow2(k)
    ensures BitsValue(LowBits(n, k)) == n
  {
    if k != 0 {
      NumberRoundTrip(n / 2, k - 1);
      assert LowBits(n, k)[1..] == LowBits(n / 2, k - 1);
    }
  }

  lemma RowsAreFlags(f: Flags, row: seq<bool>)
    requires |row| == 12
    ensures RowFlags(FlagRow(f)) == f && FlagRow(RowFlags(row)) == row
  {
  }

  lemma Pow2Of12()
    ensures Pow2(12) == 4096
  {
    assert Pow2(6) == 64;
  }

  /** The bit-field view loses nothing: words and 32-bit numbers correspond one to one. */
  lemma WordsAreNumbers(w: Word, n: nat)
    requires n < 0x1_0000_0000
    ensures ToNumber(w) < 0x1_0000_0000 && FromNumber(ToNumber(w)) == w
    ensures ToNumber(FromNumber(n)) == n
  {
    WordRoundTrip(w.number, FlagRow(w.flags), w);
    var row := LowBits(n % 4096, 12);
    RowsAreFlags(w.flags, row);
    Pow2Of12();
    NumberRoundTrip(n % 4096, 12);
  }

  /** A number halved `k` times. */
  function Halved(n: nat, k: nat): nat { if k == 0 then n else Halved(n / 2, k - 1) }

  lemma {:induction false} BitAt(bits: seq<bool>, k: nat)
    requires k < |bits|
    ensures Halved(BitsValue(bits), k) % 2 == 1 <==> bits[k]
  {
    if k > 0 {
      BitAt(bits[1..], k - 1);
    }
  }

  /** The number has each flag at the bit where the header file and the processor have it. */
  lemma FlagPositions(w: Word)
    ensures var n := ToNumber(w);
            var low := n % 0x1000;
            && n / 0x1000 == w.number && (low % 2 == 1 <==> w.flags.present) && (low / 0x2 % 2 == 1 <==> w.flags.writable)
            && (low / 0x4 % 2 == 1 <==> w.flags.user) && (low / 0x20 % 2 == 1 <==> w.flags.accessed)
            && (low / 0x40 % 2 == 1 <==> w.flags.dirty) && (low / 0x200 % 2 == 1 <==> w.flags.swapped)
  {
    hide BitsValue, Halved;
    var row := FlagRow(w.flags);
    BitsRoundTrip(row);
    Pow2Of12();
    var v := BitsValue(row);
    forall k: nat | k < 12 ensures Halved(v, k) % 2 == 1 <==> FlagAt(w.flags, k) {
      BitAt(row, k);
    }
    Halvings(v);
    assert (w.number * 4096 + v) / 4096 == w.number && (w.number * 4096 + v) % 4096 == v;
  }

  lemma {:induction false} HalvedOnce(n: nat, k: nat)
    ensures Halved(n, k + 1) == Halved(n, k) / 2
    decreases k
  {
    if k > 0 {
      HalvedOnce(n / 2, k - 1);
    }
  }

  lemma Halvings(v: nat)
    ensures Halved(v, 0) == v && Halved(v, 1) == v / 0x2 && Halved(v, 2) == v / 0x4
    ensures Halved(v, 5) == v / 0x20 && Halved(v, 6) == v / 0x40 && Halved(v, 9) == v / 0x200
  {
    assert Halved(v, 0) == v;
    hide Halved;
    forall k: nat | k < 9 ensures Halved(v, k + 1) == Halved(v, k) / 2 {
      HalvedOnce(v, k);
    }
    assert Halved(v, 3) == v / 0x8 && Halved(v, 4) == v / 0x10;
    assert Halved(v, 7) == v / 0x80 && Halved(v, 8) == v / 0x100;
  }

  lemma WordRoundTrip(number: UInt20, row: seq<bool>, w: Word)
    requires |row| == 12 && w == Word(number, RowFlags(row)) && row == FlagRow(w.flags)
    ensures ToNumber(w) < 0x1_0000_0000 && FromNumber(ToNumber(w)) == w
  {
    BitsRoundTrip(row);
    Pow2Of12();
    var v := BitsValue(row);
    assert (number * 4096 + v) / 4096 == number && (number * 4096 + v) % 4096 == v;
  }
}

/** The swap area: 4096 page slots of eight consecutive disk sectors each, and a slot bitmap. */
module SwapArea {
  import opened Bitmaps
  import opened Pages
  import opened PhysicalFrames

  const SWAP_START_LBA: nat := 200000
  const SLOTS: nat := 4096
  const SECTORS_PER_PAGE: nat := 8
  const SECTOR_WORDS: nat := 128

  type Sector = s: seq<Word> | |s| == SECTOR_WORDS witness seq(SECTOR_WORDS, _ => ZeroWord())

  /** Sectors the device has ever held; a missing one reads as zeros. */
  type Disk = map<nat, Sector>

  function Lba(slot: nat): nat {
    SWAP_START_LBA + slot * SECTORS_PER_PAGE
  }

  function ReadSector(disk: Disk, lba: nat): Sector {
    if lba in disk then disk[lba] else seq(SECTOR_WORDS, _ => ZeroWord())
  }

  /** Eight sectors starting at `lba`, one after the other. */
  function ReadPage(disk: Disk, lba: nat): Page {
    seq(PAGE_WORDS, (k: nat) requires k < PAGE_WORDS => ReadSector(disk, lba + k / SECTOR_WORDS)[k % SECTOR_WORDS])
  }

  /** Transfers the first `count` sectors of a page to consecutive addresses. */
  function WriteSectors(disk: Disk, lba: nat, p: Page, count: nat): Disk
    requires count <= SECTORS_PER_PAGE
  {
    if count == 0 then disk
    else WriteSectors(disk, lba, p, count - 1)[lba + count - 1 := PageSector(p, count - 1)]
  }

  lemma {:induction false} WriteSectorsAt(disk: Disk, lba: nat, p: Page, count: nat, x: nat)
    requires count <= SECTORS_PER_PAGE
    ensures ReadSector(WriteSectors(disk, lba, p, count), x) ==
            if lba <= x < lba + count then PageSector(p, x - lba) else ReadSector(disk, x)
  {
    if count != 0 {
      WriteSectorsAt(disk, lba, p, count - 1, x);
    }
  }

  function WritePage(disk: Disk, lba: nat, p: Page): Disk {
    WriteSectors(disk, lba, p, SECTORS_PER_PAGE)
  }

  function PageSector(p: Page, k: nat): Sector
    requires k < SECTORS_PER_PAGE
  {
    p[k * SECTOR_WORDS..(k + 1) * SECTOR_WORDS]
  }

  /** The page each slot of the disk holds. */
  function SlotPages(disk: Disk): seq<Page> {
    seq(SLOTS, (s: nat) => ReadPage(disk, Lba(s)))
  }

  /** A written slot reads back as written and no other slot changes. */
  lemma SlotsAreDisjoint(disk: Disk, slot: nat, other: nat, p: Page)
    ensures ReadPage(WritePage(disk, Lba(slot), p), Lba(other)) ==
            if slot == other then p else ReadPage(disk, Lba(other))
  {
    hide WritePage;
    var disk' := WritePage(disk, Lba(slot), p);
    forall k: nat | k < PAGE_WORDS
      ensures ReadPage(disk', Lba(other))[k] == if slot == other then p[k] else ReadPage(disk, Lba(other))[k]
    {
      if slot == other {
        WrittenWord(disk, slot, p, k);
      } else {
        OtherSector(disk, slot, other, p, k / SECTOR_WORDS);
      }
    }
  }

  lemma WrittenWord(disk: Disk, slot: nat, p: Page, k: nat)
    requires k < PAGE_WORDS
    ensures ReadSector(WritePage(disk, Lba(slot), p), Lba(slot) + k / SECTOR_WORDS)[k % SECTOR_WORDS] == p[k]
  {
    WriteSectorsAt(disk, Lba(slot), p, SECTORS_PER_PAGE, Lba(slot) + k / SECTOR_WORDS);
    assert PageSector(p, k / SECTOR_WORDS)[k % SECTOR_WORDS] == p[k];
  }

  lemma OtherSector(disk: Disk, slot: nat, other: nat, p: Page, s: nat)
    requires slot != other && s < SECTORS_PER_PAGE
    ensures ReadSector(WritePage(disk, Lba(slot), p), Lba(other) + s) == ReadSector(disk, Lba(other) + s)
  {
    WriteSectorsAt(disk, Lba(slot), p, SECTORS_PER_PAGE, Lba(other) + s);
  }

  /** A transfer that breaks off changes no other slot either. */
  lemma OtherPage(disk: Disk, slot: nat, other: nat, p: Page, count: nat)
    requires slot != other && count <= SECTORS_PER_PAGE
    ensures ReadPage(WriteSectors(disk, Lba(slot), p, count), Lba(other)) == ReadPage(disk, Lba(other))
  {
    hide WriteSectors;
    var disk' := WriteSectors(disk, Lba(slot), p, count);
    forall k: nat | k < PAGE_WORDS ensures ReadPage(disk', Lba(other))[k] == ReadPage(disk, Lba(other))[k] {
      WriteSectorsAt(disk, Lba(slot), p, count, Lba(other) + k / SECTOR_WORDS);
    }
  }

  /** Bytes of the disk that are not the swap area's: the first 100 million, and all from 120 million on. */
  ghost predicate ForeignSector(x: nat) { x * 512 < 100_000_000 || x * 512 >= 120_000_000 }

  /** Whatever is written to a slot, the rest of the disk stays as it is. */
  lemma ForeignSectors(disk: Disk, slot: nat, p: Page, count: nat, x: nat)
    requires slot < SLOTS && count <= SECTORS_PER_PAGE && ForeignSector(x)
    ensures ReadSector(WriteSectors(disk, Lba(slot), p, count), x) == ReadSector(disk, x)
  {
    WriteSectorsAt(disk, Lba(slot), p, count, x);
  }

  ghost function UnusedSlots(used: set<nat>): set<nat> {
    set s: nat | s < SLOTS && s !in used
  }

  class Swap {
    const bits: Bitmap
    var port: int
    var disk: Disk

    ghost predicate Valid() { bits.Capacity() == SLOTS }

    ghost function Used(): set<nat>
      reads bits.bytes
    {
      bits.Marked()
    }

    ghost function Store(): seq<Page>
      reads this
    {
      SlotPages(disk)
    }

    /** A disk is attached. */
    predicate Available()
      reads this
    {
      port != -1
    }

    constructor (disk: Disk)
      ensures Valid() && fresh(bits) && fresh(bits.bytes) && Used() == {} && !Available()
      ensures this.disk == disk
    {
      bits := new Bitmap(SLOTS / 8);
      port := -1;
      this.disk := disk;
    }

    /** Picks the first connected port, or keeps the port there is; without one the swap area stays
        disabled. */
    method Init(connected: seq<bool>)
      requires Valid() && |connected| == 32
      modifies this`port, bits.bytes
      ensures Valid() && disk == old(disk)
      ensures if forall i :: 0 <= i < 32 ==> !connected[i] then port == old(port)
              else 0 <= port < 32 && connected[port] && (forall i :: 0 <= i < port ==> !connected[i])
      ensures Used() == if port == -1 then old(Used()) else {}
    {
      for i := 0 to 32
        invariant port == old(port) && (forall k :: 0 <= k < i ==> !connected[k])
      {
        if connected[i] {
          port := i;
          break;
        }
      }
      if port == -1 {
        return;
      }
      bits.Fill(false);
    }

    method FindFreeSlot() returns (slot: int)
      requires Valid()
      ensures slot == -1 ==> UnusedSlots(Used()) == {}
      ensures slot != -1 ==> UnusedSlots(Used()) != {} && slot == Lowest(UnusedSlots(Used()))
    {
      for i := 0 to SLOTS
        invariant forall k :: 0 <= k < i ==> k in Used()
      {
        if !bits.Test(i) {
          assert i in UnusedSlots(Used());
          return i;
        }
      }
      assert UnusedSlots(Used()) == {};
      return -1;
    }

    /** Stores a page in the lowest unused slot; fails exactly without a disk or a slot, or when the
        disk stops before all sectors are written, `moved` being those that are. */
    method Out(p: Page, moved: nat) returns (slot: int)
      requires Valid() && moved <= SECTORS_PER_PAGE
      modifies this`disk, bits.bytes
      ensures Valid()
      ensures slot == -1 <==> !Available() || UnusedSlots(old(Used())) == {} || moved < SECTORS_PER_PAGE
      ensures slot == -1 ==> Used() == old(Used()) && (forall s :: s in Used() ==> Store()[s] == old(Store())[s])
      ensures slot == -1 && moved == SECTORS_PER_PAGE ==> Store() == old(Store())
      ensures slot != -1 ==>
                slot == Lowest(UnusedSlots(old(Used()))) &&
                Used() == old(Used()) + {slot} && Store() == old(Store())[slot := p]
      ensures forall x: nat :: ForeignSector(x) ==> ReadSector(disk, x) == old(ReadSector(disk, x))
    {
      if port == -1 {
        return -1;
      }
      slot := FindFreeSlot();
      if slot == -1 {
        return;
      }
      disk := WriteSectors(disk, Lba(slot), p, moved);
      forall x: nat | ForeignSector(x) ensures ReadSector(disk, x) == old(ReadSector(disk, x)) {
        ForeignSectors(old(disk), slot, p, moved, x);
      }
      if moved < SECTORS_PER_PAGE {
        forall s: nat | s < SLOTS && s != slot ensures Store()[s] == old(Store())[s] {
          OtherPage(old(disk), slot, s, p, moved);
        }
        return -1;
      }
      forall s: nat | s < SLOTS ensures Store()[s] == if s == slot then p else old(Store())[s] {
        SlotsAreDisjoint(old(disk), slot, s, p);
      }
      bits.Set(slot);
    }

    /** Reads a slot back; `transferOk` is the disk's answer. */
    method In(slot: nat, transferOk: bool) returns (ok: bool, p: Page)
      ensures ok <==> Available() && slot < SLOTS && transferOk
      ensures ok ==> p == Store()[slot]
    {
      p := ZeroPage();
      if port == -1 || slot >= SLOTS {
        return false, p;
      }
      if !transferOk {
        return false, p;
      }
      p := ReadPage(disk, Lba(slot));
      ok := true;
    }

    method Release(slot: nat)
      requires Valid()
      modifies bits.bytes
      ensures Valid() && Used() == old(Used()) - {slot}
    {
      if slot < SLOTS {
        bits.Clear(slot);
      }
    }
  }
}
