/** The kernel heap as a list of blocks (kernel/mm/heap.c): first fit, splitting, coalescing and
    the counters, over every run of the allocator. */
module HeapBlocks {
  import opened Bits

  const HEADER: nat := 40
  const MIN_BLOCK: nat := 64

  /** The largest request whose rounding and header do not wrap. */
  const MAX_REQUEST: nat := WORD - 48

  datatype Block = Block(addr: nat, size: nat, used: bool) {
    function End(): nat { addr + size }
  }

  /** The bytes of a block behind its header. */
  function PayloadSize(b: Block): nat {
    if b.size < HEADER then 0 else b.size - HEADER
  }

  // ----- tilings

  /** The blocks cover [start, end) in address order, without gaps. */
  predicate Tiling(bs: seq<Block>, start: nat, end: nat)
    decreases |bs|
  {
    if bs == [] then start == end
    else bs[0].addr == start && bs[0].size >= HEADER && Tiling(bs[1..], bs[0].End(), end)
  }

  /** No two neighbours are both free. */
  predicate Coalesced(bs: seq<Block>)
    decreases |bs|
  {
    |bs| < 2 || ((bs[0].used || bs[1].used) && Coalesced(bs[1..]))
  }

  function UsedBytes(bs: seq<Block>): nat
    decreases |bs|
  {
    if bs == [] then 0 else (if bs[0].used then bs[0].size else 0) + UsedBytes(bs[1..])
  }

  function FreeBytes(bs: seq<Block>): nat
    decreases |bs|
  {
    if bs == [] then 0 else (if bs[0].used then 0 else bs[0].size) + FreeBytes(bs[1..])
  }

  function UsedCount(bs: seq<Block>): nat
    decreases |bs|
  {
    if bs == [] then 0 else (if bs[0].used then 1 else 0) + UsedCount(bs[1..])
  }

  function Live(bs: seq<Block>): set<Block> {
    set b | b in bs && b.used
  }

  /** First block of a list, as an address; `none` when the list is empty. */
  function First(bs: seq<Block>, none: nat): nat {
    if bs == [] then none else bs[0].addr
  }

  function Last(bs: seq<Block>, none: nat): nat {
    if bs == [] then none else bs[|bs| - 1].addr
  }

  predicate Touch(a: seq<Block>, b: seq<Block>) {
    a != [] && b != [] && !a[|a| - 1].used && !b[0].used
  }

  lemma {:induction false} TilingJoin(a: seq<Block>, b: seq<Block>, start: nat, mid: nat, end: nat)
    requires Tiling(a, start, mid) && Tiling(b, mid, end)
    ensures Tiling(a + b, start, end)
    decreases |a|
  {
    if a == [] {
      assert a + b == b;
    } else {
      TilingJoin(a[1..], b, a[0].End(), mid, end);
      assert (a + b)[1..] == a[1..] + b;
    }
  }

  lemma {:induction false} TilingSplit(a: seq<Block>, b: seq<Block>, start: nat, end: nat)
    requires Tiling(a + b, start, end)
    ensures Tiling(a, start, First(b, end)) && Tiling(b, First(b, end), end)
    decreases |a|
  {
    if a == [] {
      assert a + b == b;
    } else {
      assert (a + b)[1..] == a[1..] + b;
      TilingSplit(a[1..], b, a[0].End(), end);
    }
  }

  lemma {:induction false} TilingBounds(bs: seq<Block>, start: nat, end: nat)
    requires Tiling(bs, start, end)
    ensures start <= end
    ensures forall b :: b in bs ==> start <= b.addr && b.size >= HEADER && b.End() <= end
    decreases |bs|
  {
    if bs != [] {
      TilingBounds(bs[1..], bs[0].End(), end);
      assert bs == [bs[0]] + bs[1..];
    }
  }

  lemma {:induction false} CoalescedJoin(a: seq<Block>, b: seq<Block>)
    ensures Coalesced(a + b) <==> Coalesced(a) && Coalesced(b) && !Touch(a, b)
    decreases |a|
  {
    if a == [] {
      assert a + b == b;
    } else {
      CoalescedJoin(a[1..], b);
      assert (a + b)[1..] == a[1..] + b;
    }
  }

  lemma {:induction false} SumsJoin(a: seq<Block>, b: seq<Block>)
    ensures UsedBytes(a + b) == UsedBytes(a) + UsedBytes(b)
    ensures FreeBytes(a + b) == FreeBytes(a) + FreeBytes(b)
    ensures UsedCount(a + b) == UsedCount(a) + UsedCount(b)
    ensures Live(a + b) == Live(a) + Live(b)
    decreases |a|
  {
    if a == [] {
      assert a + b == b;
    } else {
      SumsJoin(a[1..], b);
      assert (a + b)[1..] == a[1..] + b;
    }
  }

  lemma {:induction false} SumsTile(bs: seq<Block>, start: nat, end: nat)
    requires Tiling(bs, start, end)
    ensures UsedBytes(bs) + FreeBytes(bs) == end - start
    ensures start <= end
    decreases |bs|
  {
    if bs != [] { SumsTile(bs[1..], bs[0].End(), end); }
  }

  // ----- the layout is determined by the live blocks

  /** A coalesced tiling is determined by its live blocks. */
  lemma {:induction false} LayoutUnique(a: seq<Block>, b: seq<Block>, start: nat, end: nat)
    requires Tiling(a, start, end) && Tiling(b, start, end)
    requires Coalesced(a) && Coalesced(b) && Live(a) == Live(b)
    ensures a == b
    decreases |a|
  {
    TilingBounds(a, start, end);
    TilingBounds(b, start, end);
    if a == [] || b == [] { return; }
    HeadsAgree(a, b, start, end);
    assert a == [a[0]] + a[1..] && b == [b[0]] + b[1..];
    TailLive(a, start, end);
    TailLive(b, start, end);
    LayoutUnique(a[1..], b[1..], a[0].End(), end);
  }

  lemma TailLive(a: seq<Block>, start: nat, end: nat)
    requires a != [] && Tiling(a, start, end)
    ensures Live(a[1..]) == Live(a) - {a[0]}
  {
    TilingBounds(a[1..], a[0].End(), end);
    assert a == [a[0]] + a[1..];
    assert a[0] !in a[1..];
  }

  lemma HeadsAgree(a: seq<Block>, b: seq<Block>, start: nat, end: nat)
    requires Tiling(a, start, end) && Tiling(b, start, end) && a != [] && b != []
    requires Coalesced(a) && Coalesced(b) && Live(a) == Live(b)
    ensures a[0] == b[0]
  {
    if a[0].used { UsedHead(a, b, start, end); }
    if b[0].used { UsedHead(b, a, start, end); }
    if !a[0].used && !b[0].used {
      HeadNotShorter(a, b, start, end);
      HeadNotShorter(b, a, start, end);
    }
  }

  lemma UsedHead(a: seq<Block>, b: seq<Block>, start: nat, end: nat)
    requires Tiling(a, start, end) && Tiling(b, start, end) && a != [] && b != []
    requires Live(a) <= Live(b) && a[0].used
    ensures a[0] == b[0]
  {
    assert a[0] in Live(a);
    TilingBounds(b[1..], b[0].End(), end);
    assert b == [b[0]] + b[1..];
  }

  /** Two free heads: a shorter one would be followed by a live block inside the other. */
  lemma HeadNotShorter(a: seq<Block>, b: seq<Block>, start: nat, end: nat)
    requires Tiling(a, start, end) && Tiling(b, start, end) && a != [] && b != []
    requires Coalesced(a) && Live(a) <= Live(b) && !a[0].used && !b[0].used
    ensures a[0].size >= b[0].size
  {
    TilingBounds(b, start, end);
    TilingBounds(b[1..], b[0].End(), end);
    assert b == [b[0]] + b[1..];
    if |a| > 1 {
      assert a[1] in Live(a);
      assert a[1].addr == a[0].End();
    }
  }

  // ----- kmalloc

  /** `(n + 15) & ~15` plus the header, in 64-bit arithmetic. */
  function Total(n: U64): U64 {
    Wrap(AlignUp(n, 16) + HEADER)
  }

  /** The rounded total covers the request exactly when nothing wraps; in between, the total is
      smaller than a header, and at the very top it is just a header. It is always an odd multiple
      of 8, because the header is. */
  lemma TotalCovers(n: U64)
    ensures Total(n) >= n + HEADER <==> n <= WORD - 48
    ensures n <= WORD - 48 ==> Total(n) < n + HEADER + 16
    ensures Total(n) % 16 == 8
    ensures Total(n) < HEADER <==> WORD - 48 < n <= WORD - 16
    ensures n > WORD - 16 ==> Total(n) == HEADER
  {
    hide AlignUp, Wrap;
    RoundUp16(n);
    var r := AlignUp(n, 16);
    AddHeader(r);
    assert Total(n) == Wrap(r + HEADER);
  }

  /** The rounded total, spelled out. */
  lemma TotalValue(n: U64)
    requires n <= WORD - 48
    ensures Total(n) == (n + 15) / 16 * 16 + 40
  {
    hide AlignUp, Wrap;
    RoundUp16(n);
    var r := AlignUp(n, 16);
    AddHeader(r);
    var q := r / 16;
    assert r == 16 * q;
    DivModUnique(n + 15, 16, q, n + 15 - r);
  }

  lemma AddHeader(r: U64)
    requires r % 16 == 0
    ensures Wrap(r + HEADER) == if r <= WORD - 48 then r + HEADER else r + HEADER - WORD
    ensures Wrap(r + HEADER) % 16 == 8
    ensures r <= WORD - 48 || r == WORD - 32 || r == WORD - 16
  {
    hide Wrap;
    if r <= WORD - 48 { WrapSmall(r + HEADER); } else { WrapOver(r + HEADER); }
  }

  lemma RoundUp16(n: U64)
    ensures var r := AlignUp(n, 16);
            && r % 16 == 0
            && (n <= WORD - 16 ==> n <= r < n + 16)
            && (n > WORD - 16 ==> r == 0)
  {
    hide AlignUp;
    assert Pow2(4) == 16;
    AlignUpIsCeiling(n, 4);
    var r := AlignUp(n, 16);
    var q: nat :| r == Pow2(4) * q;
    DivModUnique(r, 16, q, 0);
  }

  predicate Fits(b: Block, n: nat) {
    !b.used && b.size >= n
  }

  /** Index of the first free block of at least n bytes; |bs| if there is none. */
  function FirstFit(bs: seq<Block>, n: nat): (k: nat)
    ensures k <= |bs|
    ensures k < |bs| ==> Fits(bs[k], n)
    ensures forall i :: 0 <= i < k ==> !Fits(bs[i], n)
    decreases |bs|
  {
    if bs == [] || Fits(bs[0], n) then 0 else 1 + FirstFit(bs[1..], n)
  }

  /** The blocks that replace free block b when n bytes are taken from it. */
  function Taken(b: Block, n: nat): seq<Block>
    requires b.size >= n
  {
    if b.size > n + MIN_BLOCK
    then [Block(b.addr, n, true), Block(b.addr + n, b.size - n, false)]
    else [Block(b.addr, b.size, true)]
  }

  /** The size of the block that taking n bytes from b yields. */
  function NewSize(b: Block, n: nat): nat {
    if b.size > n + MIN_BLOCK then n else b.size
  }

  lemma AllocatedAt(bs: seq<Block>, k: nat, n: nat)
    requires k < |bs| && Fits(bs[k], n)
    ensures k < |Allocate(bs, k, n)| && Allocate(bs, k, n)[k] == Block(bs[k].addr, NewSize(bs[k], n), true)
  {
  }

  /** Taking n bytes from b leaves room for every header: the front part holds its own, or b is taken
      as a whole. */
  predicate Takeable(b: Block, n: nat) {
    n >= HEADER || b.size <= n + MIN_BLOCK
  }

  function Allocate(bs: seq<Block>, k: nat, n: nat): seq<Block>
    requires k < |bs| && Fits(bs[k], n)
  {
    bs[..k] + Taken(bs[k], n) + bs[k + 1..]
  }

  // ----- kfree

  /** The first loop of merge_blocks: b swallows the free blocks that follow it. */
  function AbsorbNext(b: Block, c: seq<Block>): (r: (Block, seq<Block>))
    decreases |c|
  {
    if c == [] || c[0].used then (b, c)
    else AbsorbNext(Block(b.addr, b.size + c[0].size, b.used), c[1..])
  }

  /** The second loop: the free blocks before b swallow it. */
  function AbsorbPrev(a: seq<Block>, b: Block): (r: (seq<Block>, Block))
    decreases |a|
  {
    if a == [] || a[|a| - 1].used then (a, b)
    else AbsorbPrev(a[..|a| - 1], Block(a[|a| - 1].addr, a[|a| - 1].size + b.size, false))
  }

  function Release(bs: seq<Block>, k: nat): seq<Block>
    requires k < |bs|
  {
    var (b1, c1) := AbsorbNext(Block(bs[k].addr, bs[k].size, false), bs[k + 1..]);
    var (a1, b2) := AbsorbPrev(bs[..k], b1);
    a1 + [b2] + c1
  }

  // ----- the invariant

  datatype Heap = Heap(start: nat, end: nat, blocks: seq<Block>,
                       used: nat, free: nat, allocations: U32, frees: U32)

  /** Counters of 32 bits: allocations minus frees is the number of live blocks, modulo 2^32. */
  predicate Balanced(allocations: U32, frees: U32, live: nat) {
    (allocations - frees - live) % 0x1_0000_0000 == 0
  }

  function Inc32(x: U32): U32 {
    (x + 1) % 0x1_0000_0000
  }

  lemma BalancedUp(allocations: U32, frees: U32, live: nat)
    requires Balanced(allocations, frees, live)
    ensures Balanced(Inc32(allocations), frees, live + 1)
  {
  }

  lemma BalancedDown(allocations: U32, frees: U32, live: nat)
    requires Balanced(allocations, frees, live) && live > 0
    ensures Balanced(allocations, Inc32(frees), live - 1)
  {
  }

  /** Blocks tile the heap, free neighbours are merged, and the counters are the real sums. */
  predicate Inv(h: Heap) {
    && 0 < h.start < h.end <= WORD
    && Tiling(h.blocks, h.start, h.end)
    && Coalesced(h.blocks)
    && h.used == UsedBytes(h.blocks)
    && h.free == FreeBytes(h.blocks)
    && Balanced(h.allocations, h.frees, UsedCount(h.blocks))
  }

  function Cut(bs: seq<Block>, k: nat): (r: (seq<Block>, Block, seq<Block>))
    requires k < |bs|
    ensures r.0 + [r.1] + r.2 == bs
  {
    (bs[..k], bs[k], bs[k + 1..])
  }

  /** Everything the invariant says about a + mid + c, in terms of the three parts. */
  lemma Parts(a: seq<Block>, mid: seq<Block>, c: seq<Block>, start: nat, end: nat)
    requires mid != []
    requires Tiling(a + mid + c, start, end)
    ensures Tiling(a, start, mid[0].addr) && Tiling(mid, mid[0].addr, First(c, end)) && Tiling(c, First(c, end), end)
  {
    TilingSplit(a + mid, c, start, end);
    TilingSplit(a, mid, start, First(c, end));
  }

  lemma PartsCoalesced(a: seq<Block>, mid: seq<Block>, c: seq<Block>)
    requires mid != []
    ensures Coalesced(a + mid + c) <==>
            Coalesced(a) && Coalesced(mid) && Coalesced(c) && !Touch(a, mid) && !Touch(mid, c)
  {
    CoalescedJoin(a + mid, c);
    CoalescedJoin(a, mid);
  }

  lemma PartsSums(a: seq<Block>, mid: seq<Block>, c: seq<Block>)
    ensures UsedBytes(a + mid + c) == UsedBytes(a) + UsedBytes(mid) + UsedBytes(c)
    ensures FreeBytes(a + mid + c) == FreeBytes(a) + FreeBytes(mid) + FreeBytes(c)
    ensures UsedCount(a + mid + c) == UsedCount(a) + UsedCount(mid) + UsedCount(c)
    ensures Live(a + mid + c) == Live(a) + Live(mid) + Live(c)
  {
    SumsJoin(a + mid, c);
    SumsJoin(a, mid);
  }

  lemma SameAddressSameBlock(bs: seq<Block>, start: nat, end: nat, x: Block, y: Block)
    requires Tiling(bs, start, end) && x in bs && y in bs && x.addr == y.addr
    ensures x == y
  {
    var k :| 0 <= k < |bs| && bs[k] == x;
    var (a, b, c) := Cut(bs, k);
    FreshBlock(a, b, c, start, end);
  }

  lemma AllocateKeeps(bs: seq<Block>, k: nat, n: nat, start: nat, end: nat)
    requires Tiling(bs, start, end) && Coalesced(bs)
    requires k < |bs| && Fits(bs[k], n) && Takeable(bs[k], n)
    ensures var bs' := Allocate(bs, k, n);
            && k < |bs'| && Tiling(bs', start, end) && Coalesced(bs')
            && UsedBytes(bs') == UsedBytes(bs) + bs'[k].size
            && FreeBytes(bs') == FreeBytes(bs) - bs'[k].size
            && UsedCount(bs') == UsedCount(bs) + 1
            && bs'[k].used && bs'[k].addr == bs[k].addr && n <= bs'[k].size <= n + MIN_BLOCK
            && bs'[k] !in bs && Live(bs') == Live(bs) + {bs'[k]}
  {
    hide Tiling, Coalesced, UsedBytes, FreeBytes, UsedCount, Live, Taken;
    var (a, b, c) := Cut(bs, k);
    var t := Taken(b, n);
    TakenFacts(b, n);
    Parts(a, [b], c, start, end);
    TakenTiling(b, n, First(c, end));
    TilingJoin(a, t, start, b.addr, First(c, end));
    TilingJoin(a + t, c, start, First(c, end), end);
    PartsCoalesced(a, [b], c);
    PartsCoalesced(a, t, c);
    PartsSums(a, [b], c);
    PartsSums(a, t, c);
    FreshBlock(a, b, c, start, end);
  }

  /** In the window where the total wraps below a header, a split leaves a block that cannot hold
      its own header: the list stays a tiling exactly when the chosen block is too small to split. */
  lemma WrappedSplit(bs: seq<Block>, k: nat, n: U64, start: nat, end: nat)
    requires Tiling(bs, start, end) && k < |bs| && Fits(bs[k], Total(n))
    requires WORD - 48 < n <= WORD - 16
    ensures Tiling(Allocate(bs, k, Total(n)), start, end) <==> bs[k].size <= Total(n) + MIN_BLOCK
  {
    hide Total;
    TotalCovers(n);
    var t := Total(n);
    var (a, b, c) := Cut(bs, k);
    if b.size > t + MIN_BLOCK {
      var bs' := Allocate(bs, k, t);
      assert bs'[k] == Block(b.addr, t, true) && bs'[k] in bs';
      if Tiling(bs', start, end) { TilingBounds(bs', start, end); }
    } else {
      Parts(a, [b], c, start, end);
      assert Tiling(Taken(b, t), b.addr, First(c, end));
      TilingJoin(a, Taken(b, t), start, b.addr, First(c, end));
      TilingJoin(a + Taken(b, t), c, start, First(c, end), end);
    }
  }

  lemma TakenFacts(b: Block, n: nat)
    requires Fits(b, n) && Takeable(b, n)
    ensures var t := Taken(b, n);
            && t != [] && Coalesced(t) && t[0].used && t[0].addr == b.addr && n <= t[0].size <= n + MIN_BLOCK
            && UsedBytes(t) == t[0].size && UsedBytes(t) + FreeBytes(t) == b.size && UsedCount(t) == 1
            && Live(t) == {t[0]}
    ensures UsedBytes([b]) == 0 && FreeBytes([b]) == b.size && UsedCount([b]) == 0 && Live([b]) == {}
  {
    var t := Taken(b, n);
    if |t| == 2 {
      assert t == [t[0]] + [t[1]];
      SumsJoin([t[0]], [t[1]]);
    }
  }

  lemma TakenTiling(b: Block, n: nat, end: nat)
    requires Fits(b, n) && Takeable(b, n) && Tiling([b], b.addr, end)
    ensures Tiling(Taken(b, n), b.addr, end)
  {
  }

  /** No other block of a tiling has the address of b. */
  lemma FreshBlock(a: seq<Block>, b: Block, c: seq<Block>, start: nat, end: nat)
    requires Tiling(a + [b] + c, start, end)
    ensures forall x :: x in a + [b] + c && x.addr == b.addr ==> x == b
    ensures forall x :: x in a ==> x.End() <= b.addr
    ensures forall x :: x in c ==> b.End() <= x.addr
  {
    Parts(a, [b], c, start, end);
    TilingBounds(a, start, b.addr);
    TilingBounds(c, First(c, end), end);
  }

  /** The first merge loop, on a coalesced list: at most one round, and only free space moves. */
  lemma {:induction false} AbsorbNextKeeps(b: Block, c: seq<Block>, start: nat, end: nat)
    requires !b.used && Tiling([b] + c, start, end) && Coalesced(c)
    ensures var (b1, c1) := AbsorbNext(b, c);
            && !b1.used && b1.addr == b.addr && Tiling([b1] + c1, start, end)
            && Coalesced(c1) && (c1 == [] || c1[0].used) && |c| - 1 <= |c1| <= |c|
            && b1.size + FreeBytes(c1) == b.size + FreeBytes(c)
            && UsedBytes(c1) == UsedBytes(c) && UsedCount(c1) == UsedCount(c) && Live(c1) == Live(c)
    decreases |c|
  {
    if c != [] && !c[0].used {
      var b' := Block(b.addr, b.size + c[0].size, b.used);
      assert AbsorbNext(b', c[1..]) == (b', c[1..]);
      assert ([b] + c)[1..] == c && ([b'] + c[1..])[1..] == c[1..];
      assert c == [c[0]] + c[1..];
      SumsJoin([c[0]], c[1..]);
    }
  }

  lemma MergedTile(l: Block, b: Block, end: nat)
    requires Tiling([l, b], l.addr, end)
    ensures Tiling([Block(l.addr, l.size + b.size, false)], l.addr, end)
  {
    assert [l, b][1..] == [b];
    assert Tiling([b], l.End(), end);
    assert Tiling([b][1..], b.End(), end);
  }

  /** The second merge loop, likewise. */
  lemma {:induction false} AbsorbPrevKeeps(a: seq<Block>, b: Block, start: nat, end: nat)
    requires !b.used && Tiling(a + [b], start, end) && Coalesced(a)
    ensures var (a1, b1) := AbsorbPrev(a, b);
            && !b1.used && Tiling(a1 + [b1], start, end)
            && Coalesced(a1) && (a1 == [] || a1[|a1| - 1].used) && |a| - 1 <= |a1| <= |a|
            && b1.size + FreeBytes(a1) == b.size + FreeBytes(a)
            && UsedBytes(a1) == UsedBytes(a) && UsedCount(a1) == UsedCount(a) && Live(a1) == Live(a)
    decreases |a|
  {
    if a != [] && !a[|a| - 1].used {
      var p, l := a[..|a| - 1], a[|a| - 1];
      var b' := Block(l.addr, l.size + b.size, false);
      assert a == p + [l];
      CoalescedJoin(p, [l]);
      assert AbsorbPrev(p, b') == (p, b');
      SumsJoin(p, [l]);
      assert a + [b] == p + [l, b];
      TilingSplit(p, [l, b], start, end);
      MergedTile(l, b, end);
      TilingJoin(p, [b'], start, l.addr, end);
    }
  }

  lemma ReleaseKeeps(bs: seq<Block>, k: nat, start: nat, end: nat)
    requires Tiling(bs, start, end) && Coalesced(bs) && k < |bs| && bs[k].used
    ensures var bs' := Release(bs, k);
            && Tiling(bs', start, end) && Coalesced(bs')
            && UsedBytes(bs') == UsedBytes(bs) - bs[k].size
            && FreeBytes(bs') == FreeBytes(bs) + bs[k].size
            && UsedCount(bs') == UsedCount(bs) - 1
            && Live(bs') == Live(bs) - {bs[k]}
  {
    hide Tiling, Coalesced, UsedBytes, FreeBytes, UsedCount, Live, AbsorbNext, AbsorbPrev;
    var (a, b, c) := Cut(bs, k);
    var b0 := Block(b.addr, b.size, false);
    var (b1, c1) := AbsorbNext(b0, c);
    var (a1, b2) := AbsorbPrev(a, b1);
    ReleaseParts(a, b, c, start, end);
    AbsorbNextKeeps(b0, c, b.addr, end);
    ReleaseMiddle(a, b1, c1, start, end);
    AbsorbPrevKeeps(a, b1, start, First(c1, end));
    ReleaseJoin(a1, b2, c1, start, end);
    PartsSums(a, [b], c);
    PartsSums(a1, [b2], c1);
    SingleSums(b);
    SingleSums(b2);
    NotLiveElsewhere(a, b, c, start, end);
  }

  lemma NotLiveElsewhere(a: seq<Block>, b: Block, c: seq<Block>, start: nat, end: nat)
    requires Tiling(a + [b] + c, start, end)
    ensures b !in Live(a) && b !in Live(c)
  {
    FreshBlock(a, b, c, start, end);
    Parts(a, [b], c, start, end);
  }

  lemma SingleSums(b: Block)
    ensures UsedBytes([b]) == (if b.used then b.size else 0) && FreeBytes([b]) == (if b.used then 0 else b.size)
    ensures UsedCount([b]) == (if b.used then 1 else 0) && Live([b]) == if b.used then {b} else {}
  {
  }

  lemma ReleaseParts(a: seq<Block>, b: Block, c: seq<Block>, start: nat, end: nat)
    requires Tiling(a + [b] + c, start, end) && Coalesced(a + [b] + c)
    ensures Tiling([Block(b.addr, b.size, false)] + c, b.addr, end)
    ensures Tiling(a, start, b.addr) && Coalesced(a) && Coalesced(c)
  {
    var b0 := Block(b.addr, b.size, false);
    Parts(a, [b], c, start, end);
    PartsCoalesced(a, [b], c);
    TilingJoin([b0], c, b.addr, First(c, end), end);
  }

  lemma ReleaseMiddle(a: seq<Block>, b: Block, c: seq<Block>, start: nat, end: nat)
    requires Tiling(a, start, b.addr) && Tiling([b] + c, b.addr, end)
    ensures Tiling(a + [b], start, First(c, end)) && Tiling(c, First(c, end), end)
  {
    TilingSplit([b], c, b.addr, end);
    TilingJoin(a, [b], start, b.addr, First(c, end));
  }

  lemma ReleaseJoin(a: seq<Block>, b: Block, c: seq<Block>, start: nat, end: nat)
    requires Tiling(a + [b], start, First(c, end)) && Tiling(c, First(c, end), end)
    requires Coalesced(a) && Coalesced(c) && (a == [] || a[|a| - 1].used) && (c == [] || c[0].used)
    ensures Tiling(a + [b] + c, start, end) && Coalesced(a + [b] + c)
  {
    TilingJoin(a + [b], c, start, First(c, end), end);
    PartsCoalesced(a, [b], c);
  }
}
