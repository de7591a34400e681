/** The kernel heap in memory: block headers linked both ways, edited in place. */
module KernelHeaps {
  import opened Wrappers
  import opened Pages
  import opened PhysicalFrames
  import opened Machines
  import opened Paging
  import opened AddressSpaces
  import opened VirtualMemory
  import opened HeapPages
  import opened HeapBlocks
  import opened HeapClients

  /** A block header; address 0 is NULL. */
  datatype Header = Header(next: nat, prev: nat, size: nat, free: bool)

  type Headers = map<nat, Header>

  /** The header block `k` of the list must have: links to its neighbours are mutually inverse. */
  function HeaderOf(bs: seq<Block>, k: nat): Header
    requires k < |bs|
  {
    Header(if k + 1 < |bs| then bs[k + 1].addr else 0, if k > 0 then bs[k - 1].addr else 0, bs[k].size, bs[k].free)
  }

  function HeadOf(bs: seq<Block>): nat { if bs == [] then 0 else bs[0].addr }

  ghost predicate DoublyLinked(m: Headers, bs: seq<Block>) {
    forall k: nat :: k < |bs| ==> bs[k].addr in m && m[bs[k].addr] == HeaderOf(bs, k)
  }

  /** Where the walk stands after `k` blocks. */
  function AddrAt(bs: seq<Block>, k: nat): nat { if k < |bs| then bs[k].addr else 0 }

  ghost predicate Distinct(bs: seq<Block>) {
    && (forall i: nat, j: nat :: i < j < |bs| ==> bs[i].addr != bs[j].addr)
    && (forall i: nat :: i < |bs| ==> bs[i].addr != 0)
  }

  lemma TiledIsDistinct(bs: seq<Block>)
    requires Tiled(bs)
    ensures Distinct(bs)
  {
    forall i: nat, j: nat | i < j < |bs| ensures bs[i].addr != bs[j].addr {
      Ordered(bs, i, j);
    }
    forall i: nat | i < |bs| ensures bs[i].addr != 0 {
      AddrAligned(bs, i);
    }
  }

  function SetFree(m: Headers, a: nat, free: bool): Headers { if a in m then m[a := m[a].(free := free)] else m }
  function SetNext(m: Headers, a: nat, next: nat): Headers { if a in m then m[a := m[a].(next := next)] else m }
  function SetPrev(m: Headers, a: nat, prev: nat): Headers { if a in m then m[a := m[a].(prev := prev)] else m }
  function SetSize(m: Headers, a: nat, size: nat): Headers { if a in m then m[a := m[a].(size := size)] else m }

  /** `split_block` on the headers. */
  function SplitHeaders(m: Headers, block: nat, size: nat): Headers
    requires block in m && m[block].size >= size
  {
    var b := m[block];
    if b.size - size <= OVERHEAD + MIN_SPLIT then m
    else
      var addr := block + OVERHEAD + size;
      var m1 := m[addr := Header(b.next, block, b.size - size - OVERHEAD, true)];
      var m2 := if b.next != 0 then SetPrev(m1, b.next, addr) else m1;
      SetSize(SetNext(m2, block, addr), block, size)
  }

  /** The headers after a split, address by address. */
  lemma SplitHeadersAt(m: Headers, block: nat, size: nat, x: nat)
    requires block in m && m[block].size - size > OVERHEAD + MIN_SPLIT && m[block].next != block
    requires m[block].next != block + OVERHEAD + size && (m[block].next != 0 ==> m[block].next in m)
    ensures var b, addr, m' := m[block], block + OVERHEAD + size, SplitHeaders(m, block, size);
            && block in m' && m'[block] == Header(addr, b.prev, size, b.free)
            && addr in m' && m'[addr] == Header(b.next, block, b.size - size - OVERHEAD, true)
            && (b.next != 0 ==> b.next in m' && m'[b.next] == m[b.next].(prev := addr))
            && (x in m && x != block && x != addr && (x != b.next || b.next == 0) ==> x in m' && m'[x] == m[x])
  {
  }

  /** List `r` is `bs` with block `k` split into two. */
  ghost predicate IsSplit(bs: seq<Block>, r: seq<Block>, k: nat, size: nat) {
    && k < |bs| && |r| == |bs| + 1 && bs[k].size - size > OVERHEAD + MIN_SPLIT
    && r[k] == Block(bs[k].addr, size, false)
    && r[k + 1] == Block(bs[k].addr + OVERHEAD + size, bs[k].size - size - OVERHEAD, true)
    && (forall i :: 0 <= i < k ==> r[i] == bs[i])
    && (forall i :: k + 1 < i < |r| ==> r[i] == bs[i - 1])
  }

  lemma TakeIsSplit(bs: seq<Block>, k: nat, size: nat)
    requires k < |bs| && bs[k].size - size > OVERHEAD + MIN_SPLIT
    ensures IsSplit(bs, TakeBlock(bs, k, size), k, size)
  {
  }

  lemma SplitLinkedAt(m: Headers, bs: seq<Block>, r: seq<Block>, k: nat, size: nat, i: nat)
    requires Distinct(bs) && DoublyLinked(m, bs) && IsSplit(bs, r, k, size) && !bs[k].free && Distinct(r) && i < |r|
    ensures r[i].addr in SplitHeaders(m, bs[k].addr, size) && SplitHeaders(m, bs[k].addr, size)[r[i].addr] == HeaderOf(r, i)
  {
    hide SplitHeaders;
    if k + 1 < |bs| {
      assert r[k + 2] == bs[k + 1];
      assert r[k + 1].addr != r[k + 2].addr;
      assert bs[k].addr != bs[k + 1].addr;
    }
    assert m[bs[k].addr] == HeaderOf(bs, k);
    SplitHeadersAt(m, bs[k].addr, size, r[i].addr);
    if i > k + 1 {
      assert m[bs[i - 1].addr] == HeaderOf(bs, i - 1);
      assert r[k].addr != r[i].addr && r[k + 1].addr != r[i].addr;
      assert i > k + 2 ==> r[k + 2].addr != r[i].addr && r[i - 1] == bs[i - 2];
      assert i + 1 < |r| ==> r[i + 1] == bs[i];
    } else if i < k {
      assert m[bs[i].addr] == HeaderOf(bs, i);
      assert r[i].addr != r[k].addr && r[i].addr != r[k + 1].addr;
      assert k + 1 < |bs| ==> r[i].addr != r[k + 2].addr;
      assert r[i + 1].addr == bs[i + 1].addr;
    }
  }

  lemma FreeFlagLinked(m: Headers, bs: seq<Block>, k: nat, free: bool)
    requires Distinct(bs) && DoublyLinked(m, bs) && k < |bs|
    ensures DoublyLinked(SetFree(m, bs[k].addr, free), bs[k := bs[k].(free := free)])
  {
    var r, m' := bs[k := bs[k].(free := free)], SetFree(m, bs[k].addr, free);
    forall i: nat | i < |r| ensures r[i].addr in m' && m'[r[i].addr] == HeaderOf(r, i) {
      assert m[bs[i].addr] == HeaderOf(bs, i);
      assert HeaderOf(r, i) == HeaderOf(bs, i).(free := r[i].free);
      assert i != k ==> bs[i].addr != bs[k].addr;
    }
  }

  lemma TakenFirst(bs: seq<Block>, k: nat, size: nat)
    requires k < |bs| && bs[k].size >= size
    ensures TakeBlock(bs[k := bs[k].(free := false)], k, size) == TakeBlock(bs, k, size)
  {
    var live := bs[k := bs[k].(free := false)];
    assert live[..k] == bs[..k] && live[k + 1..] == bs[k + 1..];
  }

  lemma SplitLinked(m: Headers, bs: seq<Block>, k: nat, size: nat)
    requires Tiled(bs) && DoublyLinked(m, bs) && k < |bs| && Fits(bs[k], size)
    ensures DoublyLinked(SplitHeaders(SetFree(m, bs[k].addr, false), bs[k].addr, size), TakeBlock(bs, k, size))
  {
    hide Tiled, SplitHeaders, Distinct, IsSplit;
    var r := TakeBlock(bs, k, size);
    TiledIsDistinct(bs);
    var live, m1 := bs[k := bs[k].(free := false)], SetFree(m, bs[k].addr, false);
    FreeFlagLinked(m, bs, k, false);
    TakenFirst(bs, k, size);
    if bs[k].size - size > OVERHEAD + MIN_SPLIT {
      SameAddrsDistinct(bs, live);
      TakeIsSplit(live, k, size);
      SplitDistinct(bs, live, r, k, size);
      forall i: nat | i < |r|
        ensures var m' := SplitHeaders(m1, bs[k].addr, size); r[i].addr in m' && m'[r[i].addr] == HeaderOf(r, i)
      {
        SplitLinkedAt(m1, live, r, k, size, i);
      }
    } else {
      assert SplitHeaders(m1, bs[k].addr, size) == m1 by { NoSplit(m1, bs[k].addr, size); }
    }
  }

  /** The new header lies inside the block that was split, so it is no other block's. */
  lemma SplitDistinct(bs: seq<Block>, live: seq<Block>, r: seq<Block>, k: nat, size: nat)
    requires Tiled(bs) && |live| == |bs| && (forall i: nat :: i < |bs| ==> live[i].addr == bs[i].addr && live[i].size == bs[i].size)
    requires IsSplit(live, r, k, size)
    ensures Distinct(r)
  {
    TiledIsDistinct(bs);
    forall i: nat | i < |bs| && i != k ensures bs[i].addr != r[k + 1].addr {
      if i < k {
        Ordered(bs, i, k);
      } else {
        Ordered(bs, k, i);
      }
    }
    forall i: nat, j: nat | i < j < |r| ensures r[i].addr != r[j].addr {
      if i != k + 1 && j != k + 1 {
        var i', j' := if i <= k then i else i - 1, if j <= k then j else j - 1;
        assert r[i].addr == bs[i'].addr && r[j].addr == bs[j'].addr && i' < j';
      }
    }
    forall i: nat | i < |r| ensures r[i].addr != 0 {
      assert i != k + 1 ==> r[i].addr == bs[if i <= k then i else i - 1].addr;
    }
  }

  lemma NoSplit(m: Headers, block: nat, size: nat)
    requires block in m && m[block].size >= size && m[block].size - size <= OVERHEAD + MIN_SPLIT
    ensures SplitHeaders(m, block, size) == m
  {
  }

  lemma SameAddrsDistinct(bs: seq<Block>, bs': seq<Block>)
    requires Distinct(bs) && |bs| == |bs'| && forall i: nat :: i < |bs| ==> bs[i].addr == bs'[i].addr
    ensures Distinct(bs')
  {
  }

  /** Adding block `c` at the end of the list, as `kmalloc` does after `request_block`. */
  function AppendHeaders(m: Headers, bs: seq<Block>, c: Block): Headers {
    if bs == [] then m[c.addr := Header(0, 0, c.size, false)]
    else SetPrev(SetNext(m[c.addr := Header(0, 0, c.size, false)], bs[|bs| - 1].addr, c.addr), c.addr, bs[|bs| - 1].addr)
  }

  lemma AppendLinked(m: Headers, bs: seq<Block>, c: Block)
    requires Tiled(bs) && DoublyLinked(m, bs) && c.addr == EndOf(bs) && !c.free
    ensures DoublyLinked(AppendHeaders(m, bs, c), bs + [c])
  {
    hide Tiled;
    var r := bs + [c];
    forall i: nat | i < |bs| ensures bs[i].addr < c.addr {
      AddrAligned(bs, i);
    }
    TiledIsDistinct(bs);
    forall i: nat | i < |r| ensures r[i].addr in AppendHeaders(m, bs, c) && AppendHeaders(m, bs, c)[r[i].addr] == HeaderOf(r, i) {
      if i < |bs| {
        assert i < |bs| - 1 ==> bs[i].addr != bs[|bs| - 1].addr;
        assert i + 1 < |bs| ==> r[i + 1] == bs[i + 1];
      }
    }
  }

  // ----- joining and dropping blocks -------------------------------------------------------

  /** Block at `a` absorbs its successor: both halves of `coalesce` do this. */
  function JoinHeaders(m: Headers, a: nat): Headers
    requires a in m && m[a].next in m
  {
    var b := m[m[a].next];
    var m1 := SetNext(SetSize(m, a, m[a].size + OVERHEAD + b.size), a, b.next);
    if b.next != 0 then SetPrev(m1, b.next, a) else m1
  }

  lemma JoinHeadersAt(m: Headers, a: nat, x: nat)
    requires a in m && m[a].next in m && m[m[a].next].next != a && (m[m[a].next].next != 0 ==> m[m[a].next].next in m)
    ensures var b, m' := m[m[a].next], JoinHeaders(m, a);
            && a in m' && m'[a] == m[a].(size := m[a].size + OVERHEAD + b.size, next := b.next)
            && (b.next != 0 ==> b.next in m' && m'[b.next] == m[b.next].(prev := a))
            && (x in m && x != a && (x != b.next || b.next == 0) ==> x in m' && m'[x] == m[x])
  {
  }

  /** List `r` is `bs` with blocks `k` and `k + 1` joined. */
  ghost predicate IsJoin(bs: seq<Block>, r: seq<Block>, k: nat) {
    && k + 1 < |bs| && |r| == |bs| - 1
    && r[k] == bs[k].(size := bs[k].size + OVERHEAD + bs[k + 1].size)
    && (forall i :: 0 <= i < k ==> r[i] == bs[i])
    && (forall i :: k < i < |r| ==> r[i] == bs[i + 1])
  }

  lemma JoinLinkedAt(m: Headers, bs: seq<Block>, r: seq<Block>, k: nat, i: nat)
    requires Distinct(bs) && DoublyLinked(m, bs) && IsJoin(bs, r, k) && i < |r|
    requires m[bs[k].addr].next in m
    ensures r[i].addr in JoinHeaders(m, bs[k].addr) && JoinHeaders(m, bs[k].addr)[r[i].addr] == HeaderOf(r, i)
  {
    hide JoinHeaders;
    assert m[bs[k].addr] == HeaderOf(bs, k) && m[bs[k + 1].addr] == HeaderOf(bs, k + 1);
    if k + 2 < |bs| {
      assert bs[k].addr != bs[k + 2].addr;
      assert m[bs[k + 2].addr] == HeaderOf(bs, k + 2) && r[k + 1] == bs[k + 2];
    }
    JoinHeadersAt(m, bs[k].addr, r[i].addr);
    if i > k {
      assert r[i] == bs[i + 1] && m[bs[i + 1].addr] == HeaderOf(bs, i + 1);
      assert bs[k].addr != bs[i + 1].addr;
      assert i > k + 1 ==> bs[k + 2].addr != bs[i + 1].addr && r[i - 1] == bs[i];
      assert i + 1 < |r| ==> r[i + 1] == bs[i + 1 + 1];
    } else if i < k {
      assert m[bs[i].addr] == HeaderOf(bs, i) && bs[i].addr != bs[k].addr;
      assert k + 2 < |bs| ==> bs[i].addr != bs[k + 2].addr;
      assert r[i + 1].addr == bs[i + 1].addr;
    }
  }

  lemma JoinLinked(m: Headers, bs: seq<Block>, r: seq<Block>, k: nat)
    requires Distinct(bs) && DoublyLinked(m, bs) && IsJoin(bs, r, k)
    ensures bs[k].addr in m && m[bs[k].addr].next == bs[k + 1].addr && bs[k + 1].addr in m && m[bs[k + 1].addr] == HeaderOf(bs, k + 1)
    ensures DoublyLinked(JoinHeaders(m, bs[k].addr), r) && Distinct(r)
  {
    assert m[bs[k].addr] == HeaderOf(bs, k) && m[bs[k + 1].addr] == HeaderOf(bs, k + 1);
    forall i: nat | i < |r| ensures r[i].addr in JoinHeaders(m, bs[k].addr) && JoinHeaders(m, bs[k].addr)[r[i].addr] == HeaderOf(r, i) {
      JoinLinkedAt(m, bs, r, k, i);
    }
    JoinDistinct(bs, r, k);
  }

  lemma JoinDistinct(bs: seq<Block>, r: seq<Block>, k: nat)
    requires Distinct(bs) && IsJoin(bs, r, k)
    ensures Distinct(r)
  {
    forall i: nat, j: nat | i < j < |r| ensures r[i].addr != r[j].addr {
      var i', j' := if i <= k then i else i + 1, if j <= k then j else j + 1;
      assert r[i].addr == bs[i'].addr && r[j].addr == bs[j'].addr && i' < j';
    }
    forall i: nat | i < |r| ensures r[i].addr != 0 {
      assert r[i].addr == bs[if i <= k then i else i + 1].addr;
    }
  }

  /** Dropping the last block: its predecessor becomes the tail. */
  lemma DropLinked(m: Headers, bs: seq<Block>)
    requires Distinct(bs) && DoublyLinked(m, bs) && bs != []
    ensures var r := bs[..|bs| - 1];
            Distinct(r) && (if r == [] then DoublyLinked(m, r) else DoublyLinked(SetNext(m, r[|r| - 1].addr, 0), r))
  {
    var r := bs[..|bs| - 1];
    if r != [] {
      forall i: nat | i < |r| ensures var m' := SetNext(m, r[|r| - 1].addr, 0); r[i].addr in m' && m'[r[i].addr] == HeaderOf(r, i) {
        assert m[bs[i].addr] == HeaderOf(bs, i);
        assert i < |r| - 1 ==> bs[i].addr != bs[|r| - 1].addr;
      }
    }
  }

  // ----- where the code writes -------------------------------------------------------------

  ghost predicate IsHeader(bs: seq<Block>, a: nat) { exists k: nat :: k < |bs| && bs[k].addr == a }

  /** The header at `a` is not what it was. */
  ghost predicate Changed(m: Headers, m': Headers, a: nat) {
    (a in m) != (a in m') || (a in m && m[a] != m'[a])
  }

  /** Only headers of list `bs` changed. */
  ghost predicate Within(m: Headers, m': Headers, bs: seq<Block>) {
    forall a: nat :: Changed(m, m', a) ==> IsHeader(bs, a)
  }

  /** Only headers of the old or the new list changed. */
  ghost predicate Confined(bs: seq<Block>, m: Headers, bs': seq<Block>, m': Headers) {
    forall a: nat :: Changed(m, m', a) ==> IsHeader(bs, a) || IsHeader(bs', a)
  }

  ghost predicate SubList(bs': seq<Block>, bs: seq<Block>) {
    forall a: nat :: IsHeader(bs', a) ==> IsHeader(bs, a)
  }

  lemma WithinTwice(m: Headers, m1: Headers, bs1: seq<Block>, m2: Headers, bs: seq<Block>)
    requires Within(m, m1, bs) && Within(m1, m2, bs1) && SubList(bs1, bs)
    ensures Within(m, m2, bs)
  {
    hide IsHeader;
    forall a: nat | Changed(m, m2, a) ensures IsHeader(bs, a) {
      assert Changed(m, m1, a) || Changed(m1, m2, a);
    }
  }

  lemma SubListTwice(bs2: seq<Block>, bs1: seq<Block>, bs: seq<Block>)
    requires SubList(bs2, bs1) && SubList(bs1, bs)
    ensures SubList(bs2, bs)
  {
    hide IsHeader;
  }

  lemma HeaderAt(bs: seq<Block>, k: nat)
    requires k < |bs|
    ensures IsHeader(bs, bs[k].addr)
  {
  }

  lemma FlagWithin(m: Headers, bs: seq<Block>, k: nat, free: bool)
    requires k < |bs|
    ensures Within(m, SetFree(m, bs[k].addr, free), bs) && SubList(bs[k := bs[k].(free := free)], bs)
  {
    HeaderAt(bs, k);
    var r := bs[k := bs[k].(free := free)];
    forall a: nat | IsHeader(r, a) ensures IsHeader(bs, a) {
      var i: nat :| i < |r| && r[i].addr == a;
      HeaderAt(bs, i);
    }
  }

  lemma JoinWithin(m: Headers, bs: seq<Block>, r: seq<Block>, k: nat)
    requires Distinct(bs) && DoublyLinked(m, bs) && IsJoin(bs, r, k) && bs[k].addr in m && m[bs[k].addr].next in m
    ensures Within(m, JoinHeaders(m, bs[k].addr), bs) && SubList(r, bs)
  {
    assert m[bs[k].addr] == HeaderOf(bs, k) && m[bs[k + 1].addr] == HeaderOf(bs, k + 1);
    HeaderAt(bs, k);
    if k + 2 < |bs| {
      HeaderAt(bs, k + 2);
    }
    forall a: nat | IsHeader(r, a) ensures IsHeader(bs, a) {
      var i: nat :| i < |r| && r[i].addr == a;
      HeaderAt(bs, if i <= k then i else i + 1);
    }
  }

  lemma DropWithin(m: Headers, bs: seq<Block>)
    requires |bs| > 0
    ensures SubList(bs[..|bs| - 1], bs) && (|bs| > 1 ==> Within(m, SetNext(m, bs[|bs| - 2].addr, 0), bs)) && Within(m, m, bs)
  {
    var r := bs[..|bs| - 1];
    forall a: nat | IsHeader(r, a) ensures IsHeader(bs, a) {
      var i: nat :| i < |r| && r[i].addr == a;
      HeaderAt(bs, i);
    }
    if |bs| > 1 {
      HeaderAt(bs, |bs| - 2);
    }
  }

  lemma SplitConfined(m: Headers, bs: seq<Block>, k: nat, size: nat)
    requires DoublyLinked(m, bs) && k < |bs| && Fits(bs[k], size)
    ensures bs[k].addr in m && SetFree(m, bs[k].addr, false)[bs[k].addr].size >= size
    ensures Confined(bs, m, TakeBlock(bs, k, size), SplitHeaders(SetFree(m, bs[k].addr, false), bs[k].addr, size))
  {
    assert m[bs[k].addr] == HeaderOf(bs, k);
    hide DoublyLinked, SplitHeaders, TakeBlock;
    var block := bs[k].addr;
    var m' := SplitHeaders(SetFree(m, block, false), block, size);
    HeaderAt(bs, k);
    forall a: nat | Changed(m, m', a) ensures IsHeader(bs, a) || IsHeader(TakeBlock(bs, k, size), a) {
      SplitChanges(m, block, size, a);
      if a != block && bs[k].size - size > OVERHEAD + MIN_SPLIT {
        SplitHeaderAt(bs, k, size);
        if a != block + OVERHEAD + size {
          HeaderAt(bs, k + 1);
        }
      }
    }
  }

  lemma SplitHeaderAt(bs: seq<Block>, k: nat, size: nat)
    requires k < |bs| && bs[k].size - size > OVERHEAD + MIN_SPLIT
    ensures IsHeader(TakeBlock(bs, k, size), bs[k].addr + OVERHEAD + size)
  {
    HeaderAt(TakeBlock(bs, k, size), k + 1);
  }

  lemma SplitChanges(m: Headers, block: nat, size: nat, a: nat)
    requires block in m && m[block].size >= size && Changed(m, SplitHeaders(SetFree(m, block, false), block, size), a)
    ensures a == block || (m[block].size - size > OVERHEAD + MIN_SPLIT && (a == block + OVERHEAD + size || (a == m[block].next && a != 0)))
  {
  }

  lemma AppendConfined(m: Headers, bs: seq<Block>, c: Block)
    ensures Confined(bs, m, bs + [c], AppendHeaders(m, bs, c))
  {
    HeaderAt(bs + [c], |bs|);
    if bs != [] {
      HeaderAt(bs, |bs| - 1);
    }
  }

  /** A header of a list lies outside the payload of each of its blocks. */
  lemma HeaderOutside(bs: seq<Block>, b: Block, a: nat)
    requires Tiled(bs) && b in bs && IsHeader(bs, a)
    ensures a + OVERHEAD <= b.Payload() || b.End() <= a
  {
    var i: nat :| i < |bs| && bs[i] == b;
    var k: nat :| k < |bs| && bs[k].addr == a;
    if i < k {
      Ordered(bs, i, k);
    } else if k < i {
      Ordered(bs, k, i);
    }
  }

  /** Byte `x` is written by a call, as part of a header, or of a page cleared or unmapped. */
  ghost predicate Touched(h: Heap, m: Headers, h': Heap, m': Headers, x: nat) {
    || (exists a: nat :: Changed(m, m', a) && a <= x < a + OVERHEAD)
    || h.win.mapped <= x < h'.win.mapped || h'.win.mapped <= x < h.win.mapped
  }

  /** A call leaves every byte of a payload that is in use before and after it alone. */
  lemma PayloadSpared(h: Heap, o: Owners, m: Headers, h': Heap, o': Owners, m': Headers, b: Block, x: nat)
    requires HeapInv(h, o) && HeapInv(h', o') && Confined(h.blocks, m, h'.blocks, m')
    requires b in h.blocks && b in h'.blocks && b.Payload() <= x < b.End()
    ensures !Touched(h, m, h', m', x)
  {
    hide Tiled, Merged, Backed, RoundUp, IsHeader;
    BlockBelow(h.blocks, b);
    BlockBelow(h'.blocks, b);
    PageAligned(h.curr);
    PageAligned(h'.curr);
    forall a: nat | Changed(m, m', a) ensures a + OVERHEAD <= b.Payload() || b.End() <= a {
      if IsHeader(h.blocks, a) {
        HeaderOutside(h.blocks, b, a);
      } else {
        HeaderOutside(h'.blocks, b, a);
      }
    }
  }

  lemma BlockBelow(bs: seq<Block>, b: Block)
    requires Tiled(bs) && b in bs
    ensures b.End() <= EndOf(bs)
  {
    var i: nat :| i < |bs| && bs[i] == b;
    AddrAligned(bs, i);
  }

  // ----- payloads over whole runs ----------------------------------------------------------

  /** Header maps along a run, each step writing only where the code does. */
  ghost predicate Writes(c: Client, es: seq<Request>, ms: seq<Headers>)
    requires Shape(c.heap.win.mem) && AllAllowed(c, es) && ServeAll(c, es).Some?
    decreases |es|
  {
    && |ms| == |es| + 1
    && (es != [] ==>
          var c1 := Serve(c, es[0]).value;
          Confined(c.heap.blocks, ms[0], c1.heap.blocks, ms[1]) && Writes(c1, es[1..], ms[1..]))
  }

  /** Some step of the run touches byte `x`. */
  ghost predicate RunTouches(c: Client, es: seq<Request>, ms: seq<Headers>, x: nat)
    requires Shape(c.heap.win.mem) && AllAllowed(c, es) && ServeAll(c, es).Some? && |ms| == |es| + 1
    decreases |es|
  {
    es != [] &&
    var c1 := Serve(c, es[0]).value;
    Touched(c.heap, ms[0], c1.heap, ms[1], x) || RunTouches(c1, es[1..], ms[1..], x)
  }

  /** Over every run, no byte of a payload is touched while its holder does not free it. */
  lemma {:induction false} PayloadUntouched(c: Client, o: Owners, es: seq<Request>, ms: seq<Headers>, p: nat, x: nat)
    requires ClientInv(c, o) && AllAllowed(c, es) && ServeAll(c, es).Some? && Writes(c, es, ms)
    requires p in c.held && Release(p) !in es && p <= x < p + c.held[p]
    ensures !RunTouches(c, es, ms, x) && p in ServeAll(c, es).value.held && ServeAll(c, es).value.held[p] == c.held[p]
    decreases |es|
  {
    hide ClientInv, Confined, Touched, Serve, Allowed;
    if es != [] {
      var c1 := Serve(c, es[0]).value;
      var o1 := ServeKeeps(c, o, es[0]);
      StepSpares(c, o, es[0], o1, ms[0], ms[1], p, x);
      assert forall e :: e in es[1..] ==> e in es;
      PayloadUntouched(c1, o1, es[1..], ms[1..], p, x);
    }
  }

  lemma StepSpares(c: Client, o: Owners, e: Request, o': Owners, m: Headers, m': Headers, p: nat, x: nat)
    requires ClientInv(c, o) && Allowed(c, e) && Serve(c, e).Some? && ClientInv(Serve(c, e).value, o')
    requires p in c.held && e != Release(p) && p <= x < p + c.held[p]
    requires Confined(c.heap.blocks, m, Serve(c, e).value.heap.blocks, m')
    ensures p in Serve(c, e).value.held && Serve(c, e).value.held[p] == c.held[p]
    ensures !Touched(c.heap, m, Serve(c, e).value.heap, m', x)
  {
    hide HeapInv, Confined, Touched;
    var c' := Serve(c, e).value;
    var b := c.heap.blocks[IndexOf(c.heap, p, c.held[p])];
    StepKeepsBlock(c, o, e, b);
    StepKeepsHeld(c, o, e, p);
    PayloadSpared(c.heap, o, m, c'.heap, o', m', b, x);
  }

  lemma StepKeepsHeld(c: Client, o: Owners, e: Request, p: nat)
    requires ClientInv(c, o) && Allowed(c, e) && Serve(c, e).Some? && p in c.held && e != Release(p)
    ensures p in Serve(c, e).value.held && Serve(c, e).value.held[p] == c.held[p]
  {
    hide HeapInv, NoWrap, Malloc, FreeBlock, KeepsLive, Kept;
    if e.Alloc? && Malloc(c.heap, e.n).ptr != 0 {
      var o' := MallocServed(c.heap, o, e.n);
      assert c.heap.blocks[IndexOf(c.heap, p, c.held[p])] in c.heap.blocks;
    }
  }

  /** A block in use that is not freed is in the list after the step. */
  lemma StepKeepsBlock(c: Client, o: Owners, e: Request, b: Block)
    requires ClientInv(c, o) && Allowed(c, e) && Serve(c, e).Some?
    requires b in c.heap.blocks && !b.free && e != Release(b.Payload())
    ensures b in Serve(c, e).value.heap.blocks
  {
    hide HeapInv, NoWrap, Malloc, FreeBlock, Kept;
    match e
    case Alloc(n) =>
      var o' := MallocServed(c.heap, o, n);
    case Release(p) =>
      if p != 0 {
        var o' := FreeKeeps(c.heap, o, IndexOf(c.heap, p, c.held[p]));
      }
    case Switched(d) =>
  }

  // ----- the heap object -------------------------------------------------------------------

  class KernelHeap {
    const vm: Vm
    var headers: Headers
    var head: nat
    var curr: nat
    var mappedEnd: nat
    var inUse: nat
    ghost var blocks: seq<Block>
    ghost var owners: Owners

    ghost function Win(): (w: Window)
      requires vm.Valid()
      reads this, vm, vm.ram, vm.pmm, vm.pmm.bits.bytes, vm.swap, vm.swap.bits.bytes
      ensures Shape(w.mem)
    {
      Window(mappedEnd, vm.Snapshot())
    }

    ghost function Snapshot(): (h: Heap)
      requires vm.Valid()
      reads this, vm, vm.ram, vm.pmm, vm.pmm.bits.bytes, vm.swap, vm.swap.bits.bytes
      ensures Shape(h.win.mem)
    {
      Heap(blocks, curr, inUse, Win())
    }

    /** The headers are linked as the block list says. */
    ghost predicate Chained()
      reads this
    {
      DoublyLinked(headers, blocks) && head == HeadOf(blocks)
    }

    /** The header list is linked over a well-formed heap. */
    ghost predicate Valid()
      reads this, vm, vm.ram, vm.pmm, vm.pmm.bits.bytes, vm.swap, vm.swap.bits.bytes
    {
      vm.Valid() && HeapInv(Snapshot(), owners) && Chained() && inUse < TWO_32
    }

    /** `heap_init`, in a directory that maps nothing of the window. */
    constructor (vm: Vm, ghost owners: Owners)
      requires vm.Valid() && Inv(vm.Snapshot(), owners) && TablesApart(vm.Snapshot())
      requires forall v: nat :: IsPage(v, HEAP_END) ==> PageData(vm.Snapshot(), v) == None
      ensures Valid() && this.vm == vm && this.owners == owners && blocks == []
      ensures Snapshot() == Heap([], HEAP_START, 0, Window(HEAP_START, vm.Snapshot()))
    {
      this.vm, this.owners := vm, owners;
      headers, head, curr, mappedEnd, inUse := map[], 0, HEAP_START, HEAP_START, 0;
      blocks := [];
    }

    /** First fit, walking the links. */
    method FindFit(size: nat) returns (block: nat, ghost k: nat)
      requires Tiled(blocks) && DoublyLinked(headers, blocks) && head == HeadOf(blocks)
      ensures k == FirstFit(blocks, size, 0) && block == AddrAt(blocks, k) && (block == 0 <==> k == |blocks|)
    {
      TiledIsDistinct(blocks);
      block := head;
      k := 0;
      while block != 0
        invariant k <= |blocks| && block == AddrAt(blocks, k) && FirstFit(blocks, size, 0) == FirstFit(blocks, size, k)
        decreases |blocks| - k
      {
        assert headers[blocks[k].addr] == HeaderOf(blocks, k);
        if headers[block].free && headers[block].size >= size {
          return;
        }
        block := headers[block].next;
        k := k + 1;
      }
    }

    /** Last block of the list, 0 when it is empty. */
    method Tail() returns (tail: nat)
      requires Distinct(blocks) && DoublyLinked(headers, blocks) && head == HeadOf(blocks)
      ensures tail == if blocks == [] then 0 else blocks[|blocks| - 1].addr
    {
      tail := head;
      if tail == 0 {
        return;
      }
      ghost var k := 0;
      assert headers[blocks[k].addr] == HeaderOf(blocks, k);
      while headers[tail].next != 0
        invariant k < |blocks| && tail == blocks[k].addr && headers[blocks[k].addr] == HeaderOf(blocks, k) && tail in headers
        decreases |blocks| - k
      {
        tail := headers[tail].next;
        k := k + 1;
        assert headers[blocks[k].addr] == HeaderOf(blocks, k);
      }
    }

    /** `map_new_page` at the end of the window. */
    method MapNewPage() returns (halted: bool)
      requires vm.Valid()
      modifies vm, vm.ram, vm.pmm, vm.pmm.bits.bytes, vm.swap, vm.swap.bits.bytes
      ensures vm.Valid() && halted == MapOne(old(Win())).None?
      ensures !halted ==> MapOne(old(Win())) == Some(Window(mappedEnd + PAGE, vm.Snapshot()))
    {
      hide MapPage;
      var f := vm.TakeFrame();
      if f == 0 {
        return true;
      }
      halted := vm.Map(PdIndex(mappedEnd), PtIndex(mappedEnd), f, KernelFlags());
      if halted {
        return;
      }
      vm.WritePage(f, ZeroPage());
    }

    /** `ensure_space`: maps pages up to `target`; halts when there is no frame left. */
    method MapUpTo(target: nat) returns (halted: bool)
      requires vm.Valid()
      modifies this`mappedEnd, vm, vm.ram, vm.pmm, vm.pmm.bits.bytes, vm.swap, vm.swap.bits.bytes
      ensures vm.Valid() && halted == EnsureSpace(old(Win()), target).None?
      ensures !halted ==> EnsureSpace(old(Win()), target) == Some(Win())
    {
      hide MapOne;
      while mappedEnd < target
        invariant vm.Valid() && EnsureSpace(old(Win()), target) == EnsureSpace(Win(), target)
        decreases target - mappedEnd
      {
        halted := MapNewPage();
        if halted {
          return;
        }
        mappedEnd := mappedEnd + PAGE;
      }
      halted := false;
    }

    /** `split_block` after the block was marked in use. */
    method Split(block: nat, size: nat)
      requires block in headers && headers[block].size >= size
      modifies this`headers
      ensures headers == SplitHeaders(old(headers), block, size)
    {
      var remaining := headers[block].size - size;
      if remaining <= OVERHEAD + MIN_SPLIT {
        return;
      }
      var addr := block + OVERHEAD + size;
      var next := headers[block].next;
      headers := headers[addr := Header(next, block, remaining - OVERHEAD, true)];
      if next != 0 {
        headers := SetPrev(headers, next, addr);
      }
      headers := SetNext(headers, block, addr);
      headers := SetSize(headers, block, size);
    }

    /** `kmalloc`; pointer 0 is NULL. It computes the specified outcome whatever wraps around, keeps
        the links and writes headers of the list only; the heap stays well formed unless a deciding
        sum wraps. */
    method Kmalloc(n: nat) returns (halted: bool, ptr: nat)
      requires Valid() && n < TWO_32
      modifies this, vm, vm.ram, vm.pmm, vm.pmm.bits.bytes, vm.swap, vm.swap.bits.bytes
      ensures vm.Valid() && halted == Malloc(old(Snapshot()), n).Halted?
      ensures !halted ==> Malloc(old(Snapshot()), n) == Done(Snapshot(), ptr) && Chained()
      ensures !halted ==> Confined(old(blocks), old(headers), blocks, headers)
      ensures !halted && NoWrap(old(Snapshot()), n) ==> Valid() && Served(old(Snapshot()), old(owners), Snapshot(), owners, ptr, n)
    {
      hide HeapInv, DoublyLinked, Align4, NoWrap, Malloc, Served, Confined;
      ghost var h, o := Snapshot(), owners;
      halted := false;
      if n == 0 {
        ptr := 0;
        MallocNothing(h);
        NothingConfined(headers, blocks);
      } else {
        assert Tiled(blocks) by { InvTiled(h, o); }
        var block;
        ghost var k;
        block, k := FindFit(Align4(n));
        if block != 0 {
          ptr := block + OVERHEAD;
          Reuse(block, k, n);
        } else {
          halted, ptr := Grow(n);
        }
      }
      if !halted && NoWrap(h, n) {
        owners := MallocServed(h, o, n);
        assert HeapInv(Snapshot(), owners) by { ServedInv(h, o, Snapshot(), owners, ptr, n); }
        assert inUse < TWO_32 by { CounterStays(h, n); }
      }
    }

    /** The reuse path of `kmalloc`. */
    method Reuse(block: nat, ghost k: nat, n: nat)
      requires Valid() && 0 < n < TWO_32
      requires k == FirstFit(blocks, Align4(n), 0) < |blocks| && block == blocks[k].addr
      modifies this`headers, this`blocks
      ensures vm.Valid() && Malloc(old(Snapshot()), n) == Done(Snapshot(), block + OVERHEAD) && Chained()
      ensures Confined(old(blocks), old(headers), blocks, headers)
    {
      hide SplitHeaders, HeapInv, DoublyLinked, TakeBlock, Align4, Confined;
      assert Tiled(blocks) by { InvTiled(Snapshot(), owners); }
      hide Tiled;
      var size := Align4(n);
      SplitLinked(headers, blocks, k, size);
      SplitConfined(headers, blocks, k, size);
      BlockHeader(headers, blocks, k);
      TakenHead(blocks, k, size);
      headers := SetFree(headers, block, false);
      Split(block, size);
      blocks := TakeBlock(blocks, k, size);
    }

    /** The growing path of `kmalloc`. */
    method Grow(n: nat) returns (halted: bool, ptr: nat)
      requires Valid() && 0 < n < TWO_32 && !HasFit(Snapshot(), n)
      modifies this, vm, vm.ram, vm.pmm, vm.pmm.bits.bytes, vm.swap, vm.swap.bits.bytes
      ensures vm.Valid() && halted == Malloc(old(Snapshot()), n).Halted?
      ensures !halted ==> Malloc(old(Snapshot()), n) == Done(Snapshot(), ptr) && Chained()
      ensures !halted ==> Confined(old(blocks), old(headers), blocks, headers)
    {
      hide HeapInv, DoublyLinked, AppendHeaders, Align4, EnsureSpace, HasFit, Malloc, Confined, Distinct;
      ghost var h := Snapshot();
      GrowFacts(h, owners, n);
      hide Tiled;
      GrowCase(h, n);
      var size := Align4(n);
      var start := Align4(curr);
      var end := (start + size + OVERHEAD) % TWO_32;
      if end > HEAP_END {
        NothingConfined(headers, blocks);
        return false, 0;
      }
      halted := MapUpTo(end);
      if halted {
        return true, 0;
      }
      curr := end;
      AppendBlock(start, size);
      inUse := (inUse + size) % TWO_32;
      ptr := start + OVERHEAD;
    }

    /** Writes the header of a new block behind the last one and links it in. */
    method AppendBlock(start: nat, size: nat)
      requires Tiled(blocks) && Distinct(blocks) && Chained() && start == EndOf(blocks)
      modifies this`headers, this`head, this`blocks
      ensures blocks == old(blocks) + [Block(start, size, false)] && Chained()
      ensures Confined(old(blocks), old(headers), blocks, headers)
    {
      hide DoublyLinked, AppendHeaders, Confined, Distinct, Tiled;
      ghost var c := Block(start, size, false);
      AddrsNonZero(blocks);
      AppendLinked(headers, blocks, c);
      AppendConfined(headers, blocks, c);
      AppendSteps(headers, blocks, c);
      var tail := Tail();
      headers := headers[start := Header(0, 0, size, false)];
      if head == 0 {
        head := start;
      } else {
        headers := SetNext(headers, tail, start);
        headers := SetPrev(headers, start, tail);
      }
      blocks := blocks + [c];
    }

    /** Absorbing the successor of the block at `a`. */
    method Absorb(a: nat)
      requires a in headers && headers[a].next in headers
      modifies this`headers
      ensures headers == JoinHeaders(old(headers), a)
    {
      var next := headers[a].next;
      var after := headers[next].next;
      headers := SetSize(headers, a, headers[a].size + OVERHEAD + headers[next].size);
      headers := SetNext(headers, a, after);
      if after != 0 {
        headers := SetPrev(headers, after, a);
      }
    }

    /** First half of `coalesce`: a free successor is absorbed. */
    method AbsorbNext(block: nat, ghost k: nat)
      requires Distinct(blocks) && DoublyLinked(headers, blocks) && k < |blocks| && block == blocks[k].addr
      modifies this`headers, this`blocks
      ensures blocks == MergeNext(old(blocks), k) && Distinct(blocks) && DoublyLinked(headers, blocks)
      ensures HeadOf(blocks) == HeadOf(old(blocks)) && blocks[k].addr == block
      ensures Within(old(headers), headers, old(blocks)) && SubList(blocks, old(blocks))
    {
      hide DoublyLinked, Distinct, JoinHeaders, IsJoin, Within, SubList;
      BlockHeader(headers, blocks, k);
      AddrsNonZero(blocks);
      NothingWithin(headers, blocks);
      var next := headers[block].next;
      if next != 0 {
        BlockHeader(headers, blocks, k + 1);
        if headers[next].free {
          MergeNextIsJoin(blocks, k);
          JoinLinked(headers, blocks, MergeNext(blocks, k), k);
          JoinWithin(headers, blocks, MergeNext(blocks, k), k);
          Absorb(block);
          blocks := MergeNext(blocks, k);
        }
      }
    }

    /** Second half of `coalesce`: the block is absorbed by a free predecessor. */
    method AbsorbIntoPrev(block: nat, ghost k: nat)
      requires Distinct(blocks) && DoublyLinked(headers, blocks) && k < |blocks| && block == blocks[k].addr
      modifies this`headers, this`blocks
      ensures blocks == MergePrev(old(blocks), k) && Distinct(blocks) && DoublyLinked(headers, blocks) && HeadOf(blocks) == HeadOf(old(blocks))
      ensures Within(old(headers), headers, old(blocks)) && SubList(blocks, old(blocks))
    {
      hide DoublyLinked, Distinct, JoinHeaders, IsJoin, Within, SubList;
      BlockHeader(headers, blocks, k);
      AddrsNonZero(blocks);
      NothingWithin(headers, blocks);
      var prev := headers[block].prev;
      if prev != 0 {
        BlockHeader(headers, blocks, k - 1);
        if headers[prev].free {
          MergePrevIsJoin(blocks, k);
          JoinLinked(headers, blocks, MergePrev(blocks, k), k - 1);
          JoinWithin(headers, blocks, MergePrev(blocks, k), k - 1);
          Absorb(prev);
          blocks := MergePrev(blocks, k);
        }
      }
    }

    /** Unlinks the free block at the end of the list. */
    method DropTail(tail: nat)
      requires Distinct(blocks) && DoublyLinked(headers, blocks) && head == HeadOf(blocks) && blocks != [] && tail == blocks[|blocks| - 1].addr
      modifies this`headers, this`head, this`curr, this`blocks
      ensures blocks == old(blocks)[..|old(blocks)| - 1] && Distinct(blocks) && DoublyLinked(headers, blocks) && head == HeadOf(blocks)
      ensures Within(old(headers), headers, old(blocks)) && SubList(blocks, old(blocks))
    {
      hide DoublyLinked, Distinct, Within, SubList;
      AddrsNonZero(blocks);
      ghost var last := |blocks| - 1;
      BlockHeader(headers, blocks, last);
      DropLinked(headers, blocks);
      DropWithin(headers, blocks);
      var prev := headers[tail].prev;
      if prev != 0 {
        headers := SetNext(headers, prev, 0);
      } else {
        head := 0;
      }
      curr := tail;
      blocks := blocks[..last];
    }

    /** The unlinking loop of `heap_trim`. */
    method TrimBlocks()
      requires Distinct(blocks) && DoublyLinked(headers, blocks) && head == HeadOf(blocks)
      modifies this`headers, this`head, this`curr, this`blocks
      ensures blocks == TrimTail(old(blocks)) && Distinct(blocks) && DoublyLinked(headers, blocks) && head == HeadOf(blocks) && curr == EndOf(blocks)
      ensures Within(old(headers), headers, old(blocks)) && SubList(blocks, old(blocks))
    {
      hide DoublyLinked, Distinct, Within, SubList;
      NothingWithin(headers, blocks);
      while true
        invariant Distinct(blocks) && DoublyLinked(headers, blocks) && head == HeadOf(blocks) && TrimTail(blocks) == TrimTail(old(blocks))
        invariant Within(old(headers), headers, old(blocks)) && SubList(blocks, old(blocks))
        decreases |blocks|
      {
        AddrsNonZero(blocks);
        var tail := Tail();
        if tail == 0 {
          curr := HEAP_START;
          break;
        }
        BlockHeader(headers, blocks, |blocks| - 1);
        if !headers[tail].free {
          curr := tail + OVERHEAD + headers[tail].size;
          break;
        }
        ghost var m, bs := headers, blocks;
        DropTail(tail);
        WithinTwice(old(headers), m, bs, headers, old(blocks));
        SubListTwice(blocks, bs, old(blocks));
      }
    }

    /** Looks the last page up, unmaps it and frees its frame. */
    method UnmapLast()
      requires vm.Valid() && mappedEnd >= PAGE && mappedEnd % PAGE == 0
      modifies this`mappedEnd, vm, vm.ram, vm.pmm, vm.pmm.bits.bytes, vm.swap, vm.swap.bits.bytes
      ensures vm.Valid() && Win() == UnmapOne(old(Win()))
    {
      hide Unmap, PdIndex, PtIndex;
      ghost var w := Win();
      mappedEnd := mappedEnd - PAGE;
      var phys := vm.VirtToPhys(mappedEnd);
      vm.UnmapPage(PdIndex(mappedEnd), PtIndex(mappedEnd));
      if phys != 0 {
        assert phys / FRAME_SIZE == EntryFor(w.mem, mappedEnd).number;
        vm.FreeFrame(phys / FRAME_SIZE);
      }
    }

    /** The unmapping loop of `heap_trim`. */
    method UnmapDownTo(target: nat)
      requires vm.Valid() && mappedEnd % PAGE == 0 && HEAP_START <= target
      modifies this`mappedEnd, vm, vm.ram, vm.pmm, vm.pmm.bits.bytes, vm.swap, vm.swap.bits.bytes
      ensures vm.Valid() && Win() == ReleasePages(old(Win()), target)
    {
      hide UnmapOne;
      while mappedEnd > target
        invariant vm.Valid() && mappedEnd % PAGE == 0 && ReleasePages(old(Win()), target) == ReleasePages(Win(), target)
        decreases mappedEnd
      {
        UnmapLast();
      }
    }

    /** `kfree`; `k` is the index of the block behind `ptr`. */
    method Kfree(ptr: nat, ghost k: nat)
      requires Valid() && (ptr != 0 ==> k < |blocks| && blocks[k].Payload() == ptr)
      modifies this, vm, vm.ram, vm.pmm, vm.pmm.bits.bytes, vm.swap, vm.swap.bits.bytes
      ensures Valid() && Confined(old(blocks), old(headers), blocks, headers)
      ensures Snapshot() == if ptr == 0 then old(Snapshot()) else FreeBlock(old(Snapshot()), k)
      ensures Kept(old(Win()), old(owners), Win(), owners)
    {
      hide HeapInv, DoublyLinked, Coalesce, TrimTail, Confined, Kept;
      NothingConfined(headers, blocks);
      Unmoved(Win(), owners);
      if ptr == 0 {
        return;
      }
      var block := ptr - OVERHEAD;
      BlockHeader(headers, blocks, k);
      if headers[block].free {
        return;
      }
      FreeLive(block, k);
    }

    /** The effective part of `kfree`. */
    method FreeLive(block: nat, ghost k: nat)
      requires Valid() && k < |blocks| && blocks[k].addr == block && !blocks[k].free
      modifies this, vm, vm.ram, vm.pmm, vm.pmm.bits.bytes, vm.swap, vm.swap.bits.bytes
      ensures Valid() && Snapshot() == FreeBlock(old(Snapshot()), k)
      ensures Confined(old(blocks), old(headers), blocks, headers) && Kept(old(Win()), old(owners), Win(), owners)
    {
      hide Distinct, HeapInv, DoublyLinked, MergeNext, MergePrev, TrimTail, AlignPage, ReleasePages, Within, SubList, Confined, Kept;
      ghost var h, o := Snapshot(), owners;
      ghost var o' := FreeFacts(h, o, k);
      UnlinkBlock(block, k);
      UnmapDownTo(AlignPage(curr));
      owners := o';
    }

    /** Marking the block free, merging and trimming: the list part of `kfree`. */
    method UnlinkBlock(block: nat, ghost k: nat)
      requires Distinct(blocks) && DoublyLinked(headers, blocks) && head == HeadOf(blocks) && k < |blocks| && blocks[k].addr == block
      modifies this`headers, this`head, this`curr, this`inUse, this`blocks
      ensures blocks == FreedList(old(blocks), k) && curr == EndOf(blocks) && DoublyLinked(headers, blocks) && head == HeadOf(blocks)
      ensures inUse == (old(inUse) - old(blocks[k]).size) % TWO_32
      ensures Confined(old(blocks), old(headers), blocks, headers)
    {
      hide Distinct, DoublyLinked, MergeNext, MergePrev, TrimTail, Within, SubList, Confined;
      ghost var m0, bs0 := headers, blocks;
      BlockHeader(headers, blocks, k);
      FreeFlagLinked(headers, blocks, k, true);
      FlagWithin(headers, blocks, k, true);
      inUse := (inUse - headers[block].size) % TWO_32;
      headers := SetFree(headers, block, true);
      blocks := blocks[k := blocks[k].(free := true)];
      SameAddrsDistinct(bs0, blocks);
      ghost var m1, bs1 := headers, blocks;
      AbsorbNext(block, k);
      WithinTwice(m0, m1, bs1, headers, bs0);
      SubListTwice(blocks, bs1, bs0);
      ghost var m2, bs2 := headers, blocks;
      AbsorbIntoPrev(block, k);
      WithinTwice(m0, m2, bs2, headers, bs0);
      SubListTwice(blocks, bs2, bs0);
      ghost var m3, bs3 := headers, blocks;
      TrimBlocks();
      WithinTwice(m0, m3, bs3, headers, bs0);
      WithinIsConfined(m0, headers, bs0, blocks);
    }
  }

  lemma WithinIsConfined(m: Headers, m': Headers, bs: seq<Block>, bs': seq<Block>)
    requires Within(m, m', bs)
    ensures Confined(bs, m, bs', m')
  {
  }

  lemma NothingWithin(m: Headers, bs: seq<Block>)
    ensures Within(m, m, bs) && SubList(bs, bs)
  {
  }

  lemma NothingConfined(m: Headers, bs: seq<Block>)
    ensures Confined(bs, m, bs, m)
  {
  }

  lemma MergeNextIsJoin(bs: seq<Block>, k: nat)
    requires k + 1 < |bs| && bs[k + 1].free
    ensures IsJoin(bs, MergeNext(bs, k), k)
  {
  }

  lemma MergePrevIsJoin(bs: seq<Block>, k: nat)
    requires 0 < k < |bs| && bs[k - 1].free
    ensures IsJoin(bs, MergePrev(bs, k), k - 1)
  {
    assert (k - 1) + 2 == k + 1;
  }

  lemma AddrsNonZero(bs: seq<Block>)
    requires Distinct(bs)
    ensures forall i: nat :: i < |bs| ==> bs[i].addr != 0
  {
  }

  lemma InvTiled(h: Heap, o: Owners)
    requires HeapInv(h, o)
    ensures Tiled(h.blocks)
  {
  }

  lemma FreeFacts(h: Heap, o: Owners, k: nat) returns (o': Owners)
    requires HeapInv(h, o) && k < |h.blocks| && !h.blocks[k].free
    ensures Distinct(h.blocks) && h.win.mapped % PAGE == 0 && HEAP_START <= AlignPage(EndOf(FreedList(h.blocks, k)))
    ensures HeapInv(FreeBlock(h, k), o') && Kept(h.win, o, FreeBlock(h, k).win, o')
  {
    hide Tiled, Merged, Backed, Kept, RoundUp, AlignPage, Coalesce, TrimTail, ReleasePages;
    o' := FreeKeeps(h, o, k);
    TiledIsDistinct(h.blocks);
    WindowBounds(h.win, o);
    FreedListKeeps(h.blocks, k);
    PageAligned(EndOf(FreedList(h.blocks, k)));
  }

  lemma BlockHeader(m: Headers, bs: seq<Block>, k: nat)
    requires DoublyLinked(m, bs) && k < |bs|
    ensures bs[k].addr in m && m[bs[k].addr] == HeaderOf(bs, k)
  {
  }

  lemma TakenHead(bs: seq<Block>, k: nat, size: nat)
    requires k < |bs| && bs[k].size >= size
    ensures HeadOf(TakeBlock(bs, k, size)) == HeadOf(bs)
  {
  }

  lemma GrowFacts(h: Heap, o: Owners, n: nat)
    requires HeapInv(h, o)
    ensures Tiled(h.blocks) && Distinct(h.blocks) && h.curr == EndOf(h.blocks) && Align4(h.curr) == h.curr && (h.blocks != [] ==> HeadOf(h.blocks) != 0)
  {
    hide Backed;
    EndAligned(h.blocks);
    AlignIdle(h.curr);
    TiledIsDistinct(h.blocks);
  }

  /** `kmalloc` when no block fits. */
  lemma GrowCase(h: Heap, n: nat)
    requires Shape(h.win.mem) && 0 < n && !HasFit(h, n)
    ensures var size, start := Align4(n), Align4(h.curr);
            var end := (start + size + OVERHEAD) % TWO_32;
            Malloc(h, n) ==
            if end > HEAP_END then Done(h, 0)
            else match EnsureSpace(h.win, end)
                 case None => Halted
                 case Some(w) => Done(Heap(h.blocks + [Block(start, size, false)], end, (h.inUse + size) % TWO_32, w), start + OVERHEAD)
  {
    hide EnsureSpace, Align4;
  }

  lemma ServedInv(h: Heap, o: Owners, h': Heap, o': Owners, ptr: nat, n: nat)
    requires Served(h, o, h', o', ptr, n)
    ensures HeapInv(h', o')
  {
  }

  lemma CounterStays(h: Heap, n: nat)
    requires Shape(h.win.mem) && h.inUse < TWO_32 && Malloc(h, n).Done?
    ensures Malloc(h, n).heap.inUse < TWO_32
  {
    hide EnsureSpace, Align4, FirstFit, TakeBlock;
  }

  lemma AppendSteps(m: Headers, bs: seq<Block>, c: Block)
    requires !c.free
    ensures var m1 := m[c.addr := Header(0, 0, c.size, false)];
            AppendHeaders(m, bs, c) ==
            if bs == [] then m1 else SetPrev(SetNext(m1, bs[|bs| - 1].addr, c.addr), c.addr, bs[|bs| - 1].addr)
  {
  }
}
