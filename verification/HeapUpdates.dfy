/** What the allocator's header writes do to the represented block list, to payload bytes and to
    stale headers (kernel/mm/heap.c). */
module HeapUpdates {
  import opened Bits
  import opened Memory
  import opened HeapBlocks
  import opened HeapRuns
  import opened HeapMemory

  lemma FirstFitUnique(bs: seq<Block>, n: nat, k: nat)
    requires k <= |bs| && (k < |bs| ==> Fits(bs[k], n))
    requires forall i :: 0 <= i < k ==> !Fits(bs[i], n)
    ensures k == FirstFit(bs, n)
  {
  }

  function InitialSize(n: U64): U64 {
    AlignUp(if n < 0x1000 then 0x1000 else n, 0x1000)
  }

  /** The size is rounded up to whole pages, at least one; it becomes 0 if that wraps. */
  lemma InitialSizeValue(n: U64)
    ensures InitialSize(n) % 0x1000 == 0
    ensures n < 0x1000 ==> InitialSize(n) == 0x1000
    ensures 0x1000 <= n <= WORD - 0x1000 ==> n <= InitialSize(n) < n + 0x1000
    ensures n > WORD - 0x1000 ==> InitialSize(n) == 0
  {
    hide AlignUp;
    assert Pow2(12) == 0x1000 by {
      Pow2Byte();
      assert Pow2(4) == 16;
      Pow2Add(8, 4);
    }
    var x: U64 := if n < 0x1000 then 0x1000 else n;
    AlignUpIsCeiling(x, 12);
    var q: nat :| AlignUp(x, 0x1000) == 0x1000 * q;
  }

  /** The list after merge_blocks has run both its loops on block k. */
  function Merged(bs: seq<Block>, k: nat): seq<Block>
    requires k < |bs|
  {
    var (b1, c1) := AbsorbNext(bs[k], bs[k + 1..]);
    var (a1, b2) := AbsorbPrev(bs[..k], b1);
    a1 + [b2] + c1
  }

  /** Splitting and then marking is Allocate. */
  lemma SplitThenMark(bs: seq<Block>, k: nat, n: nat)
    requires k < |bs| && Fits(bs[k], n)
    ensures var bs1 := SplitAt(bs, k, n);
            && k < |bs1| && bs1[k].addr == bs[k].addr
            && bs1[k := Block(bs[k].addr, bs1[k].size, true)] == Allocate(bs, k, n)
  {
  }

  lemma MarkedPayloads(m: Bytes, m1: Bytes, m2: Bytes, bs: seq<Block>, k: nat, n: nat)
    requires k < |bs| && Fits(bs[k], n)
    requires PayloadsKept(m, m1, Live(bs)) && PayloadsKept(m1, m2, Live(SplitAt(bs, k, n)))
    ensures PayloadsKept(m, m2, Live(bs))
  {
    assert Live(bs) <= Live(SplitAt(bs, k, n));
  }

  lemma AllocatedSize(bs: seq<Block>, k: nat, n: nat, start: nat, end: nat)
    requires Tiling(bs, start, end) && Coalesced(bs) && k < |bs| && Fits(bs[k], n) && Takeable(bs[k], n)
    ensures k < |Allocate(bs, k, n)| && Allocate(bs, k, n)[k].size <= FreeBytes(bs)
    ensures Allocate(bs, k, n)[k].addr == bs[k].addr
  {
    AllocateKeeps(bs, k, n, start, end);
  }

  /** What a kcalloc block is worth: it holds all elements exactly when `count * size`, rounded and with
      a header, does not wrap 64 bits. */
  lemma CallocHolds(h: Heap, count: U64, size: U64, b: Block)
    requires Inv(h) && Servable(h, Product(count, size))
    requires var (h', p) := Malloc(h, Product(count, size));
             p != 0 && b in h'.blocks && b.addr + HEADER == p
    ensures count * size <= PayloadSize(b) <==> count * size <= MAX_REQUEST
  {
    hide Inv, Live, Malloc, Product, Servable, Total, FirstFit, NewSize;
    var n := Product(count, size);
    var (h', p) := Malloc(h, n);
    var k := NewBlock(h, n);
    InBlock(h', b);
    SameBlock(h', b, h'.blocks[k]);
    RoomForRequest(h.blocks, n);
    ProductFits(count, size);
  }

  lemma ProductFits(count: U64, size: U64)
    ensures count * size < WORD ==> Product(count, size) == count * size
    ensures count * size >= 0
  {
    if count * size < WORD { WrapSmall(count * size); }
  }

  lemma InBlock(h: Heap, b: Block)
    requires Inv(h) && b in h.blocks
    ensures HEADER <= b.size && b.End() <= WORD
  {
    TilingBounds(h.blocks, h.start, h.end);
  }

  lemma SameBlock(h: Heap, x: Block, y: Block)
    requires Inv(h) && x in h.blocks && y in h.blocks && x.addr == y.addr
    ensures x == y
  {
    SameAddressSameBlock(h.blocks, h.start, h.end, x, y);
  }

  lemma RequestAdmissible(n: U64)
    requires n <= MAX_REQUEST
    ensures Admissible(n) && Total(n) >= n + HEADER
  {
    TotalCovers(n);
  }

  /** The block a successful kmalloc returns: its place, its size, and that it is new. */
  lemma NewBlock(h: Heap, n: U64) returns (k: nat)
    requires Inv(h) && Servable(h, n)
    ensures var (h', p) := Malloc(h, n);
            p != 0 ==>
              && k == FirstFit(h.blocks, Total(n)) < |h.blocks|
              && Inv(h') && k < |h'.blocks| && h'.blocks[k].used && h'.blocks[k].addr + HEADER == p
              && h'.blocks[k].size == NewSize(h.blocks[k], Total(n)) && h'.blocks[k] !in h.blocks
              && Live(h'.blocks) == Live(h.blocks) + {h'.blocks[k]}
  {
    hide Tiling, Coalesced, Live, Total, Balanced, Inc32, Allocate, NewSize;
    k := FirstFit(h.blocks, Total(n));
    MallocInv(h, n);
    if n != 0 && k < |h.blocks| {
      AllocateKeeps(h.blocks, k, Total(n), h.start, h.end);
      AllocatedAt(h.blocks, k, Total(n));
    }
  }

  /** The size of the block kmalloc returns for a request that does not wrap: the request rounded to 16
      plus 40, or the whole free block if that is at most 64 bytes more. */
  lemma NewBlockSize(h: Heap, n: U64, b: Block)
    requires Inv(h) && 0 < n <= WORD - 48 && Servable(h, n) && Malloc(h, n).1 != 0
    requires b in Malloc(h, n).0.blocks && b.addr + 40 == Malloc(h, n).1
    ensures var t, k := (n + 15) / 16 * 16 + 40, FirstFit(h.blocks, Total(n));
            && k < |h.blocks| && !h.blocks[k].used && t <= h.blocks[k].size
            && b.size == (if h.blocks[k].size > t + 64 then t else h.blocks[k].size)
            && n + 40 <= t <= b.size <= t + 64
  {
    hide Inv, Live, Malloc, Servable, Total;
    var k := NewBlock(h, n);
    TotalValue(n);
    TotalCovers(n);
    SameBlock(Malloc(h, n).0, b, Malloc(h, n).0.blocks[k]);
  }

  /** Before the call it is known how many bytes the new block will hold. */
  lemma RoomMeans(h: Heap, n: U64, b: Block, bytes: nat)
    requires Inv(h) && Servable(h, n) && Malloc(h, n).1 != 0
    requires b in Malloc(h, n).0.blocks && b.addr + HEADER == Malloc(h, n).1
    ensures Room(h.blocks, n, bytes) <==> Malloc(h, n).1 + bytes <= b.End()
  {
    hide Inv, Live, Malloc, Servable, Total, FirstFit, NewSize;
    var k := NewBlock(h, n);
    SameBlock(Malloc(h, n).0, b, Malloc(h, n).0.blocks[k]);
  }

  /** A copy that does not fit: reallocating a block of 64 bytes to 2^64 - 1 takes a block with no
      payload at all. */
  lemma RoomFails()
    ensures var h := Heap(0x1000, 0x2000, [Block(0x1000, 104, true), Block(0x1068, 3992, false)], 104, 3992, 1, 0);
            && Inv(h) && Admissible(WORD - 1) && !Room(h.blocks, WORD - 1, 64)
            && Malloc(h, WORD - 1).1 == 0x1090
            && Malloc(h, WORD - 1).0.blocks[1] == Block(0x1068, HEADER, true)
  {
    var x, y := Block(0x1000, 104, true), Block(0x1068, 3992, false);
    var bs := [x, y];
    assert bs[1..] == [y] && [y][1..] == [];
    hide Total;
    TotalCovers(WORD - 1);
    assert FirstFit([y], HEADER) == 0;
    assert FirstFit(bs, HEADER) == 1;
  }

  lemma NewLive(bs: seq<Block>, b: Block)
    requires b !in bs
    ensures Live(bs) + {b} - {b} == Live(bs)
  {
  }

  lemma LiveAt(bs: seq<Block>, k: nat)
    requires k < |bs| && bs[k].used
    ensures bs[k] in Live(bs)
  {
  }

  lemma SingleTiling(b: Block, end: nat)
    ensures Tiling([b], b.addr, end) <==> b.size >= HEADER && b.End() == end
  {
  }

  lemma SplitAtSmall(bs: seq<Block>, k: nat, n: nat)
    requires k < |bs| && bs[k].size <= n + MIN_BLOCK
    ensures SplitAt(bs, k, n) == bs
  {
  }

  lemma PayloadsRefl(m: Bytes, bs: set<Block>)
    ensures PayloadsKept(m, m, bs)
  {
  }

  /** Splitting and marking block k leave every other block's payload alone. */
  lemma MarkedOthers(m: Bytes, m1: Bytes, m2: Bytes, bs: seq<Block>, k: nat, n: nat)
    requires k < |bs| && PayloadsKept(m, m1, Others(bs, k))
    requires k < |SplitAt(bs, k, n)| && PayloadsKept(m1, m2, Others(SplitAt(bs, k, n), k))
    ensures PayloadsKept(m, m2, Others(bs, k))
  {
    hide PayloadsKept;
    var bs1 := SplitAt(bs, k, n);
    assert bs1[..k] == bs[..k];
    assert bs1 == bs || bs1[k + 1..] == [bs1[k + 1]] + bs[k + 1..];
    assert Others(bs, k) <= Others(bs1, k);
    KeptSubset(m1, m2, Others(bs1, k), Others(bs, k));
    PayloadsTrans(m, m1, m2, Others(bs, k));
  }

  lemma PayloadsTrans(m: Bytes, m1: Bytes, m2: Bytes, live: set<Block>)
    requires PayloadsKept(m, m1, live) && PayloadsKept(m1, m2, live)
    ensures PayloadsKept(m, m2, live)
  {
  }

  /** m' holds at r the n bytes that m holds at p. */
  ghost predicate HasBytes(m': Bytes, r: nat, m: Bytes, p: nat, n: nat) {
    r + n <= |m'| && p + n <= |m| && forall x :: r <= x < r + n ==> m'[x] == m[x - r + p]
  }

  /** What is promised about payload bytes, byte by byte. */
  lemma KeptMeans(m: Bytes, m': Bytes, bs: set<Block>, r: nat, p: nat, n: nat)
    ensures PayloadsKept(m, m', bs) <==>
            |m'| == |m| && forall b, x :: b in bs && b.addr + 40 <= x < b.addr + b.size && x < |m| ==> m'[x] == m[x]
    ensures HasBytes(m', r, m, p, n) <==>
            r + n <= |m'| && p + n <= |m| && forall i :: r <= i < r + n ==> m'[i] == m[i - r + p]
  {
  }

  lemma PayloadsPart(m: Bytes, m': Bytes, live: set<Block>, other: set<Block>)
    requires PayloadsKept(m, m', live)
    ensures PayloadsKept(m, m', live * other) && PayloadsKept(m, m', other * live)
  {
  }

  /** The block being reallocated is still live, and distinct from the new one, after kmalloc. */
  lemma OldStaysLive(h0: Heap, h1: Heap, ptr: nat, o: Block, b: Block)
    requires Inv(h0) && Inv(h1) && o in h0.blocks && o.used && o.addr + HEADER == ptr
    requires Live(h1.blocks) == Live(h0.blocks) + {b} && b !in h0.blocks && b.used
    ensures LiveIndex(h1.blocks, ptr) < |h1.blocks| && h1.blocks[LiveIndex(h1.blocks, ptr)] == o
    ensures LiveIndex(h0.blocks, ptr) < |h0.blocks| && h0.blocks[LiveIndex(h0.blocks, ptr)] == o
    ensures b.addr + HEADER != ptr
  {
    hide Inv;
    assert o in Live(h0.blocks) && o in Live(h1.blocks) && b in Live(h1.blocks);
    SameBlock(h1, h1.blocks[LiveIndex(h1.blocks, ptr)], o);
    SameBlock(h0, h0.blocks[LiveIndex(h0.blocks, ptr)], o);
    if b.addr == o.addr {
      SameBlock(h1, b, o);
      assert false;
    }
  }

  /** The size krealloc reads from the header before ptr, less the header. */
  function StoredSize(m: Bytes, ptr: nat): nat
    requires HEADER <= ptr <= |m|
  {
    var size := HeaderAt(m, ptr - HEADER).size;
    if size < HEADER then 0 else size - HEADER
  }

  /** What krealloc does to the heap: a pointer that was freed, and whose space has not been allocated
      again, is taken for a live one until the free at the end, which then does nothing. */
  ghost function Reallocated(h: Heap, m: Bytes, ptr: nat, n: U64): (Heap, nat)
    requires Inv(h) && Servable(h, n) && (ptr != 0 ==> HEADER <= ptr <= |m|)
  {
    if ptr != 0 && n != 0 && Stale(m, h.blocks, ptr - HEADER)
    then if n <= StoredSize(m, ptr) then (h, ptr) else Malloc(h, n)
    else Realloc(h, ptr, n)
  }

  lemma ReallocMoves(h: Heap, ptr: nat, n: U64, b: Block)
    requires Inv(h) && Servable(h, n) && n != 0 && b in h.blocks && b.used && b.addr + HEADER == ptr && n > PayloadSize(b)
    ensures Inv(Malloc(h, n).0)
    ensures Realloc(h, ptr, n) == if Malloc(h, n).1 == 0 then Malloc(h, n) else (Free(Malloc(h, n).0, ptr), Malloc(h, n).1)
  {
    hide Inv, Malloc, Free, Total, Servable;
    MallocInv(h, n);
    assert b in Live(h.blocks);
    SameBlock(h, h.blocks[LiveIndex(h.blocks, ptr)], b);
    InBlock(h, b);
  }

  /** A new block is live, also after another one is freed. */
  lemma NewIsLive(h: Heap, n: U64)
    requires Inv(h) && Servable(h, n) && Malloc(h, n).1 != 0
    ensures Inv(Malloc(h, n).0) && IsLive(Malloc(h, n).0, Malloc(h, n).1)
    ensures forall ptr: nat :: ptr != Malloc(h, n).1 ==> IsLive(Free(Malloc(h, n).0, ptr), Malloc(h, n).1)
  {
    hide Inv, Servable, Malloc, Free, Total, NewSize, FirstFit;
    var k := NewBlock(h, n);
    var (h1, p) := Malloc(h, n);
    var b := h1.blocks[k];
    LiveAt(h1.blocks, k);
    forall ptr: nat | ptr != p ensures IsLive(Free(h1, ptr), p) {
      FreeLive(h1, ptr);
      assert b in Live(Free(h1, ptr).blocks);
    }
  }

  lemma LiveFits(h: Heap, ptr: nat, n: U64, b: Block)
    requires Inv(h) && Servable(h, n) && n != 0 && ptr != 0 && b in h.blocks && b.used && b.addr + HEADER == ptr && n <= PayloadSize(b)
    ensures Realloc(h, ptr, n) == (h, ptr)
  {
    hide Inv, Malloc, Free, Total, Servable;
    assert b in Live(h.blocks);
    SameBlock(h, h.blocks[LiveIndex(h.blocks, ptr)], b);
    InBlock(h, b);
  }

  /** When krealloc leaves the heap as it is. */
  lemma ReallocKeeps(h: Heap, ptr: nat, n: U64)
    requires Inv(h) && Servable(h, n) && (ptr == 0 || n != 0)
    requires Malloc(h, n).1 == 0 || (ptr != 0 && IsLive(h, ptr) && n <= PayloadSize(h.blocks[LiveIndex(h.blocks, ptr)]))
    ensures Realloc(h, ptr, n).0 == h
    ensures Realloc(h, ptr, n).1 == 0 || (ptr != 0 && IsLive(h, ptr) && n <= PayloadSize(h.blocks[LiveIndex(h.blocks, ptr)]))
  {
    hide Inv, Servable, Malloc, Free, LiveIndex;
    MallocInv(h, n);
    LiveIndexFacts(h.blocks, ptr);
    if IsLive(h, ptr) { InBlock(h, h.blocks[LiveIndex(h.blocks, ptr)]); }
  }

  lemma StaleWitness(m: Bytes, bs: seq<Block>, b: Block, q: nat)
    requires b in bs && StaleIn(m, b, q)
    ensures Stale(m, bs, q)
  {
  }

  lemma NotFirstFit(bs: seq<Block>, n: nat, b: Block, q: nat)
    requires b.addr <= q < b.End()
    requires b.used || var k := FirstFit(bs, n); k < |bs| ==> !(bs[k].addr <= q < bs[k].End())
    ensures var k := FirstFit(bs, n); k < |bs| ==> bs[k] != b
  {
  }

  lemma CopiedOnly(m: Bytes, r: nat, p: nat, n: nat)
    requires r + n <= |m| && p + n <= |m|
    ensures SameExcept(m, Copied(m, r, p, n), r, n)
  {
  }

  /** Freeing the old block afterwards leaves the moved bytes in place. */
  lemma MovedKept(m: Bytes, m2: Bytes, m3: Bytes, bs0: seq<Block>, bs1: seq<Block>, bs2: seq<Block>, b: Block, ptr: nat, n: nat)
    requires b.used && n <= PayloadSize(b) && b.addr + HEADER != ptr
    requires Live(bs1) == Live(bs0) + {b} && Live(bs2) == Except(Live(bs1), ptr)
    requires PayloadsKept(m, m2, Live(bs0)) && PayloadsKept(m2, m3, Live(bs2))
    requires HasBytes(m2, b.addr + HEADER, m, ptr, n)
    ensures PayloadsKept(m, m3, Live(bs0) * Live(bs2))
    ensures HasBytes(m3, b.addr + HEADER, m, ptr, n)
  {
    assert b in Live(bs2);
  }

  /** Bytes written inside the payload of block k disturb neither the headers nor another payload. */
  lemma PayloadWrite(m: Bytes, m': Bytes, bs: seq<Block>, k: nat, p: nat, n: nat, start: nat, end: nat)
    requires 0 < start && end <= |m| && Tiling(bs, start, end) && Rep(m, bs, 0, 0)
    requires k < |bs| && bs[k].addr + HEADER <= p && p + n <= bs[k].End()
    requires SameExcept(m, m', p, n)
    ensures Rep(m', bs, 0, 0)
    ensures PayloadsKept(m, m', Others(bs, k)) && PayloadsKept(m, m', Live(bs) - {bs[k]})
  {
    hide HeaderAt, PayloadsKept;
    var (a, b, c) := Cut(bs, k);
    Parts(a, [b], c, start, end);
    SingleEnd(b, First(c, end));
    TilingBounds(bs, start, end);
    RepJoin(m, a + [b], c, 0, 0);
    RepJoin(m, a, [b], 0, First(c, 0));
    RepSingle(m, b, Last(a, 0), First(c, 0));
    HeaderFrame(m, m', b.addr);
    RepSingle(m', b, Last(a, 0), First(c, 0));
    if c != [] {
      HeaderFrame(m, m', c[0].addr);
      assert Last(a + [b], 0) == b.addr;
      RepSingle(m', c[0], b.addr, First(c[1..], 0));
    }
    Relink(m, m', a, [b], [b], c, start, end);
    PatchedPayloads(m, m', a, [b], c, start, end);
    KeptSubset(m, m', Others(bs, k), Live(bs) - {bs[k]});
  }

  lemma LiveIndexFacts(bs: seq<Block>, ptr: nat)
    ensures var k := LiveIndex(bs, ptr);
            k <= |bs| && (k < |bs| ==> bs[k].used && bs[k].addr + HEADER == ptr)
  {
  }

  lemma MarkThenMerge(bs: seq<Block>, k: nat)
    requires k < |bs|
    ensures Merged(bs[k := Block(bs[k].addr, bs[k].size, false)], k) == Release(bs, k)
  {
    var bs1 := bs[k := Block(bs[k].addr, bs[k].size, false)];
    assert bs1[..k] == bs[..k] && bs1[k + 1..] == bs[k + 1..];
  }

  /** Marking a block free keeps the stale headers and makes its own header one. */
  lemma MarkStale(m: Bytes, m': Bytes, bs: seq<Block>, k: nat, start: nat, end: nat)
    requires k < |bs| && bs[k].used && Tiling(bs, start, end) && end <= |m|
    requires SameExcept(m, m', bs[k].addr, HEADER) && bs[k].addr + HEADER <= |m|
    requires StaleHeader(HeaderAt(m', bs[k].addr), bs[k].size)
    ensures StaleKept(m, bs, m', bs[k := Block(bs[k].addr, bs[k].size, false)])
    ensures Stale(m', bs[k := Block(bs[k].addr, bs[k].size, false)], bs[k].addr)
  {
    hide HeaderAt;
    var (a, b, c) := Cut(bs, k);
    var b' := Block(b.addr, b.size, false);
    assert bs[k := b'] == a + [b'] + c;
    FreshBlock(a, b, c, start, end);
    TilingBounds(bs, start, end);
    forall q: nat | Stale(m, bs, q) ensures StillStale(m, m', a + [b'] + c, q) {
      var x := StaleBlock(m, a, [b], c, q);
      HeaderFrame(m, m', q);
      IsStale(m', a, [b'], c, x, q);
    }
    IsStale(m', a, [b'], c, b', b.addr);
  }

  lemma FreedKept(m: Bytes, m1: Bytes, m2: Bytes, bs: seq<Block>, bs1: seq<Block>, bs2: seq<Block>, k: nat, start: nat, end: nat)
    requires k < |bs| && bs[k].used && Tiling(bs, start, end) && Coalesced(bs)
    requires bs1 == bs[k := Block(bs[k].addr, bs[k].size, false)] && bs2 == Release(bs, k)
    requires PayloadsKept(m, m1, Live(bs)) && PayloadsKept(m1, m2, Live(bs1)) && Live(bs2) == Live(bs1)
    requires StaleKept(m, bs, m1, bs1) && StaleKept(m1, bs1, m2, bs2) && Stale(m1, bs1, bs[k].addr)
    ensures PayloadsKept(m, m2, Live(bs2)) && StaleKept(m, bs, m2, bs2) && Stale(m2, bs2, bs[k].addr)
    ensures bs[k].addr + HEADER <= |m1| && bs[k].addr + HEADER <= |m2|
    ensures HeaderAt(m1, bs[k].addr).size <= HeaderAt(m2, bs[k].addr).size
  {
    hide Stale, Release;
    assert Live(bs1) <= Live(bs);
  }

  lemma KeptRefl(m: Bytes, bs: seq<Block>)
    ensures PayloadsKept(m, m, Live(bs)) && StaleKept(m, bs, m, bs)
  {
  }

  lemma KeptTrans(m: Bytes, m1: Bytes, m2: Bytes, bs: seq<Block>, bs1: seq<Block>, bs2: seq<Block>, live: set<Block>)
    requires PayloadsKept(m, m1, live) && PayloadsKept(m1, m2, live)
    requires StaleKept(m, bs, m1, bs1) && StaleKept(m1, bs1, m2, bs2)
    ensures PayloadsKept(m, m2, live) && StaleKept(m, bs, m2, bs2)
  {
    hide Stale;
  }

  lemma AbsorbNextStep(bs: seq<Block>, k: nat)
    requires k + 1 < |bs| && !bs[k + 1].used
    ensures var bs' := JoinAt(bs, k);
            && bs'[..k] == bs[..k] && k < |bs'| && bs'[k].addr == bs[k].addr && bs'[k].used == bs[k].used
            && AbsorbNext(bs'[k], bs'[k + 1..]) == AbsorbNext(bs[k], bs[k + 1..])
  {
    var bs' := JoinAt(bs, k);
    assert bs'[k + 1..] == bs[k + 2..] == bs[k + 1..][1..];
  }

  lemma AbsorbNextDone(b: Block, c: seq<Block>)
    requires c == [] || c[0].used
    ensures AbsorbNext(b, c) == (b, c)
  {
  }

  lemma AbsorbPrevStep(bs: seq<Block>, i: nat)
    requires 0 < i < |bs| && !bs[i - 1].used
    ensures var bs' := JoinAt(bs, i - 1);
            && i - 1 < |bs'| && bs'[i..] == bs[i + 1..] && bs'[i - 1].addr == bs[i - 1].addr && !bs'[i - 1].used
            && AbsorbPrev(bs'[..i - 1], bs'[i - 1]) == AbsorbPrev(bs[..i], bs[i])
  {
    var bs' := JoinAt(bs, i - 1);
    assert bs'[..i - 1] == bs[..i][..i - 1];
  }

  lemma AbsorbPrevDone(a: seq<Block>, b: Block)
    requires a == [] || a[|a| - 1].used
    ensures AbsorbPrev(a, b) == (a, b)
  {
  }

  function JoinAt(bs: seq<Block>, i: nat): seq<Block>
    requires i + 1 < |bs|
  {
    bs[..i] + [Block(bs[i].addr, bs[i].size + bs[i + 1].size, bs[i].used)] + bs[i + 2..]
  }

  lemma MarkRep(m: Bytes, m': Bytes, a: seq<Block>, b: Block, c: seq<Block>, flag: bool, start: nat, end: nat)
    requires 0 < start && end <= |m| && Tiling(a + [b] + c, start, end) && Rep(m, a + [b] + c, 0, 0)
    requires b.End() <= |m| && b.size >= HEADER && SameExcept(m, m', b.addr, HEADER)
    requires IsHeader(HeaderAt(m', b.addr), Block(b.addr, b.size, flag), First(c, 0), Last(a, 0))
    requires c != [] ==> Rep(m', [c[0]], b.addr, First(c[1..], 0))
    ensures var mid' := [Block(b.addr, b.size, flag)];
            Rep(m', a + mid' + c, 0, 0) && Tiling(a + mid' + c, start, end)
    ensures PayloadsKept(m, m', Live(a + [b] + c)) && PayloadsKept(m, m', Blocks(a) + Blocks(c))
  {
    hide HeaderAt, IsHeader;
    var mid, mid' := [b], [Block(b.addr, b.size, flag)];
    Parts(a, mid, c, start, end);
    SingleEnd(b, First(c, end));
    assert Tiling(mid', b.addr, First(c, end));
    TilingJoin(a, mid', start, b.addr, First(c, end));
    TilingJoin(a + mid', c, start, First(c, end), end);
    RepSingle(m', mid'[0], Last(a, 0), First(c, 0));
    Relink(m, m', a, mid, mid', c, start, end);
    PatchedPayloads(m, m', a, mid, c, start, end);
    assert PayloadsKept(m, m', Live(mid));
    KeptLive(m, m', a, mid, c);
  }

  /** The net effect of one merge. */
  lemma JoinWrites(m: Bytes, m1: Bytes, m2: Bytes, m3: Bytes, left: U64, next: U64, size: U64)
    requires left + HEADER <= |m| && (next != 0 ==> left + HEADER <= next)
    requires Wrote(m, m1, left, HeaderAt(m, left).(size := size))
    requires Wrote(m1, m2, left, HeaderAt(m1, left).(next := next))
    requires PointedBack(m2, m3, next, left)
    ensures HeaderAt(m3, left) == HeaderAt(m, left).(size := size, next := next)
    ensures next != 0 ==> next + HEADER <= |m| && HeaderAt(m3, next) == HeaderAt(m, next).(prev := left)
    ensures Patched(m, m3, left, left + HEADER, next)
  {
    hide HeaderAt;
    if next != 0 {
      HeaderApart(m, m1, left, next);
      HeaderApart(m1, m2, left, next);
      HeaderApart(m2, m3, next, left);
    }
  }

  lemma JoinRep(m: Bytes, m': Bytes, a: seq<Block>, l: Block, r: Block, c: seq<Block>, start: nat, end: nat)
    requires !l.used && !r.used && l.addr + HEADER <= |m|
    requires 0 < start && end <= |m| && Tiling(a + [l, r] + c, start, end) && Rep(m, a + [l, r] + c, 0, 0)
    requires Patched(m, m', l.addr, l.addr + HEADER, First(c, 0))
    requires IsHeader(HeaderAt(m', l.addr), Block(l.addr, l.size + r.size, false), First(c, 0), Last(a, 0))
    requires c != [] ==> Rep(m', [c[0]], l.addr, First(c[1..], 0))
    ensures var mid' := [Block(l.addr, l.size + r.size, false)];
            && Rep(m', a + mid' + c, 0, 0) && Tiling(a + mid' + c, start, end)
            && Live(a + mid' + c) == Live(a + [l, r] + c)
    ensures PayloadsKept(m, m', Live(a + [l, r] + c))
  {
    hide HeaderAt, IsHeader;
    var mid, mid' := [l, r], [Block(l.addr, l.size + r.size, false)];
    Parts(a, mid, c, start, end);
    MergedTile(l, r, First(c, end));
    TilingBounds(mid, l.addr, First(c, end));
    TilingJoin(a, mid', start, l.addr, First(c, end));
    TilingJoin(a + mid', c, start, First(c, end), end);
    RepSingle(m', mid'[0], Last(a, 0), First(c, 0));
    Relink(m, m', a, mid, mid', c, start, end);
    PatchedPayloads(m, m', a, mid, c, start, end);
    PartsSums(a, mid, c);
    PartsSums(a, mid', c);
    SingleSums(mid'[0]);
    assert Live(mid) == {};
    KeptLive(m, m', a, mid, c);
  }

  lemma JoinStale(m: Bytes, m': Bytes, a: seq<Block>, l: Block, r: Block, c: seq<Block>, start: nat, end: nat)
    requires !l.used && !r.used && l.addr + HEADER <= |m| && 0 < start && end <= |m|
    requires Tiling(a + [l, r] + c, start, end)
    requires Patched(m, m', l.addr, l.addr + HEADER, First(c, 0))
    requires SameMarks(HeaderAt(m, l.addr), HeaderAt(m', l.addr))
    requires HeaderAt(m', l.addr).size == l.size + r.size >= HeaderAt(m, l.addr).size
    requires c != [] ==>
               && c[0].addr + HEADER <= |m| && SameMarks(HeaderAt(m, c[0].addr), HeaderAt(m', c[0].addr))
               && HeaderAt(m', c[0].addr).size == HeaderAt(m, c[0].addr).size
    ensures StaleKept(m, a + [l, r] + c, m', a + [Block(l.addr, l.size + r.size, false)] + c)
  {
    hide HeaderAt, Patched, Tiling, Stale, StaleIn;
    var j := Block(l.addr, l.size + r.size, false);
    forall q: nat | Stale(m, a + [l, r] + c, q) ensures StillStale(m, m', a + [j] + c, q) {
      var b := StaleBlock(m, a, [l, r], c, q);
      var b' := if b in [l, r] then j else b;
      JoinPlaces(a, l, r, c, b, start, end);
      StaleMoves(m, m', l.addr, First(c, 0), b, b', q);
      IsStale(m', a, [j], c, b', q);
    }
  }

  /** Where a block stands with respect to the pair being merged and the header after it. */
  lemma JoinPlaces(a: seq<Block>, l: Block, r: Block, c: seq<Block>, b: Block, start: nat, end: nat)
    requires Tiling(a + [l, r] + c, start, end) && 0 < start && (b in a || b in [l, r] || b in c)
    ensures l.addr == b.addr || l.addr + HEADER <= b.addr || b.End() <= l.addr
    ensures var after := First(c, 0); after == 0 || after == b.addr || after + HEADER <= b.addr || b.End() <= after
    ensures b in [l, r] ==> b.End() <= l.addr + l.size + r.size
    ensures HEADER <= l.size && (b in [l, r] ==> l.addr == b.addr || l.addr + HEADER <= b.addr)
    ensures l.addr == b.addr ==> b in [l, r]
  {
    Parts(a, [l, r], c, start, end);
    PairEnds(l, r, First(c, end));
    TilingBounds(a, start, l.addr);
    TilingBounds(c, First(c, end), end);
    if c != [] {
      TilingBounds(c[1..], c[0].End(), end);
      assert c == [c[0]] + c[1..];
    }
  }

  lemma StaleBlock(m: Bytes, a: seq<Block>, mid: seq<Block>, c: seq<Block>, q: nat) returns (b: Block)
    requires Stale(m, a + mid + c, q)
    ensures (b in a || b in mid || b in c) && StaleIn(m, b, q) && q + HEADER <= |m|
  {
    b :| b in a + mid + c && StaleIn(m, b, q);
  }

  lemma IsStale(m: Bytes, a: seq<Block>, mid: seq<Block>, c: seq<Block>, b: Block, q: nat)
    requires (b in a || b in mid || b in c) && StaleIn(m, b, q)
    ensures Stale(m, a + mid + c, q) && q + HEADER <= |m|
  {
    assert b in a + mid + c;
  }

  predicate SameMarks(h: Header, h': Header) {
    h'.inUse == h.inUse && h'.magic == h.magic
  }

  /** A stale header survives header writes outside its block, or at its block's start, that keep
      the allocated field, and the growth of its block. */
  lemma StaleMoves(m: Bytes, m': Bytes, p: nat, after: nat, b: Block, b': Block, q: nat)
    requires StaleIn(m, b, q) && p + HEADER <= |m| && Patched(m, m', p, p + HEADER, after)
    requires SameMarks(HeaderAt(m, p), HeaderAt(m', p))
    requires p == b.addr ==> HEADER <= HeaderAt(m', p).size <= b'.End() - p
    requires HeaderAt(m, p).size <= HeaderAt(m', p).size
    requires after != 0 ==>
               && after + HEADER <= |m| && SameMarks(HeaderAt(m, after), HeaderAt(m', after))
               && HeaderAt(m', after).size == HeaderAt(m, after).size
    requires !b'.used && b.End() <= b'.End() && (b'.addr == b.addr || b'.addr + HEADER <= b.addr)
    requires p == b.addr || p + HEADER <= b.addr || b.End() <= p
    requires after == 0 || after == b.addr || after + HEADER <= b.addr || b.End() <= after
    ensures StaleIn(m', b', q) && HeaderAt(m, q).size <= HeaderAt(m', q).size
  {
    hide HeaderAt;
    if q != p && (after == 0 || q != after) { HeaderFrame(m, m', q); }
  }

  /** A stale header stays stale while its block stays in the list with its payload unchanged. */
  lemma StaleSurvives(m: Bytes, m': Bytes, bs: seq<Block>, bs': seq<Block>, b: Block, q: nat)
    requires b in bs && b in bs' && Rep(m', bs', 0, 0) && b.End() <= |m|
    requires StaleIn(m, b, q) && PayloadsKept(m, m', {b})
    ensures StaleIn(m', b, q)
  {
    hide HeaderAt, Rep;
    if q == b.addr {
      var i :| 0 <= i < |bs'| && bs'[i] == b;
      RepAt(m', bs', i);
    } else {
      HeaderFrame(m, m', q);
    }
  }

  /** The headers left behind by freed pointers are still in place. */
  ghost predicate AllStale(m: Bytes, bs: seq<Block>, stale: set<nat>) {
    forall p :: p in stale ==> HEADER <= p && Stale(m, bs, p - HEADER)
  }

  lemma AllStaleKept(m: Bytes, bs: seq<Block>, m': Bytes, bs': seq<Block>, stale: set<nat>)
    requires AllStale(m, bs, stale) && StaleKept(m, bs, m', bs')
    ensures AllStale(m', bs', stale)
  {
    hide Stale;
    forall p | p in stale ensures HEADER <= p && Stale(m', bs', p - HEADER) {
      assert StillStale(m, m', bs', p - HEADER);
    }
  }

  lemma NoneStale(m: Bytes, bs: seq<Block>)
    ensures AllStale(m, bs, {})
  {
  }

  lemma OneMoreStale(m: Bytes, bs: seq<Block>, stale: set<nat>, p: nat)
    requires AllStale(m, bs, stale) && HEADER <= p && Stale(m, bs, p - HEADER)
    ensures AllStale(m, bs, stale + {p})
  {
  }

  /** A write inside a live block keeps them. */
  lemma WriteKeepsStale(m: Bytes, m': Bytes, bs: seq<Block>, k: nat, stale: set<nat>, end: nat)
    requires AllStale(m, bs, stale) && k < |bs| && bs[k].used && Rep(m', bs, 0, 0) && PayloadsKept(m, m', Others(bs, k))
    requires forall b :: b in bs ==> b.End() <= end <= |m|
    ensures AllStale(m', bs, stale)
  {
    hide Rep, PayloadsKept, Others, StaleHeader;
    forall p | p in stale ensures HEADER <= p && Stale(m', bs, p - HEADER) {
      var b :| b in bs && StaleIn(m, b, p - HEADER);
      OtherKept(m, m', bs, k, b);
      StaleSurvives(m, m', bs, bs, b, p - HEADER);
    }
  }

  lemma ByteWritten(m: Bytes, a: nat, v: U8)
    requires a < |m|
    ensures SameExcept(m, m[a := v], a, 1)
  {
  }

  lemma SparedNow(live: set<Block>, ops: seq<Op>)
    requires ops != []
    ensures Spared(live, ops) <= Spared(live, [ops[0]])
    ensures forall b :: b in Spared(live, ops) ==> !Touches(ops[0], b) && forall op :: op in ops[1..] ==> !Touches(op, b)
  {
    hide Touches;
    assert ops == [ops[0]] + ops[1..];
  }

  /** What the whole run spares, its first operation spares, and so does the rest of the run. */
  lemma SparedNext(st: State, ops: seq<Op>)
    requires Inv(st.heap) && ops != [] && OpLegal(st, ops[0])
    ensures Spared(Live(st.heap.blocks), ops) <= Spared(Live(st.heap.blocks), [ops[0]])
    ensures Spared(Live(st.heap.blocks), ops) <= Spared(Live(Step(st, ops[0]).heap.blocks), ops[1..])
  {
    hide Inv, OpLegal, Step, Live, Targets;
    var live := Live(st.heap.blocks);
    SparedNow(live, ops);
    forall b | b in Spared(live, ops) ensures b in Spared(Live(Step(st, ops[0]).heap.blocks), ops[1..]) {
      StepKeepsLive(st, ops[0], b);
    }
  }

  /** The spared blocks are live before and after the operation. */
  lemma SparedLive(st: State, op: Op)
    requires Inv(st.heap) && OpLegal(st, op)
    ensures Spared(Live(st.heap.blocks), [op]) <= Live(st.heap.blocks)
    ensures Spared(Live(st.heap.blocks), [op]) <= Live(Step(st, op).heap.blocks)
    ensures op.Write? ==> forall b :: b in Spared(Live(st.heap.blocks), [op]) ==> b.addr + HEADER != op.ptr
  {
    hide Inv, OpLegal, Step, Live;
    forall b | b in Spared(Live(st.heap.blocks), [op])
      ensures b in Live(Step(st, op).heap.blocks) && (op.Write? ==> b.addr + HEADER != op.ptr)
    {
      assert op in [op];
      StepKeepsLive(st, op, b);
    }
  }

  lemma AdmissibleServable(h: Heap, n: U64)
    requires Admissible(n)
    ensures Servable(h, n)
  {
  }

  /** A block other than block k, and what keeps the payloads of all those. */
  lemma OtherKept(m: Bytes, m': Bytes, bs: seq<Block>, k: nat, b: Block)
    requires k < |bs| && b in bs && b != bs[k] && PayloadsKept(m, m', Others(bs, k))
    ensures PayloadsKept(m, m', {b})
  {
    CutReplaced(bs, k, bs[k]);
    assert b in Others(bs, k);
  }

  /** A block that is not taken stays in the list, and is not the new block. */
  lemma NotTaken(h: Heap, n: U64, b: Block)
    requires Inv(h) && Servable(h, n) && Malloc(h, n).1 != 0 && b in h.blocks
    requires h.blocks[FirstFit(h.blocks, Total(n))] != b
    ensures b in Malloc(h, n).0.blocks
  {
    hide Inv, Total, Taken;
    var k := FirstFit(h.blocks, Total(n));
    CutReplaced(h.blocks, k, h.blocks[k]);
  }

  lemma CopiedBytes(m: Bytes, m1: Bytes, r: nat, p: nat, n: nat, b: Block)
    requires p + n <= |m1| && r + n <= |m1| && b.addr + HEADER <= p && p + n <= b.End()
    requires PayloadsKept(m, m1, {b})
    ensures HasBytes(Copied(m1, r, p, n), r, m, p, n)
  {
  }

  /** Copying n bytes from block b into new block k: every live payload and b are as before kmalloc. */
  lemma CopiedIn(m: Bytes, m1: Bytes, bs0: seq<Block>, bs: seq<Block>, k: nat, b: Block,
                 r: nat, p: nat, n: nat, start: nat, end: nat)
    requires 0 < start && end <= |m1| && Tiling(bs, start, end) && Rep(m1, bs, 0, 0)
    requires k < |bs| && start <= bs[k].addr && bs[k].addr + HEADER <= r && r + n <= bs[k].End() <= end
    requires bs[k] !in bs0 && Live(bs) == Live(bs0) + {bs[k]}
    requires b in bs && b != bs[k] && b.addr + HEADER <= p && p + n <= b.End() <= |m1|
    requires PayloadsKept(m, m1, Live(bs0)) && PayloadsKept(m, m1, {b}) && SameExcept(m, m1, start, end - start)
    ensures var m2 := Copied(m1, r, p, n);
            && Rep(m2, bs, 0, 0) && SameExcept(m, m2, start, end - start)
            && PayloadsKept(m, m2, Live(bs0)) && PayloadsKept(m, m2, {b}) && HasBytes(m2, r, m, p, n)
  {
    hide Rep, Tiling, PayloadsKept, SameExcept, HasBytes, Copied, Others, Live;
    var m2 := Copied(m1, r, p, n);
    CopiedOnly(m1, r, p, n);
    PayloadWrite(m1, m2, bs, k, r, n, start, end);
    WriteInside(m1, m2, r, n, start, end);
    SameTrans(m, m1, m2, start, end - start);
    NewLive(bs0, bs[k]);
    PayloadsTrans(m, m1, m2, Live(bs0));
    OtherKept(m1, m2, bs, k, b);
    PayloadsTrans(m, m1, m2, {b});
    CopiedBytes(m, m1, r, p, n, b);
  }

  /** Clearing the first n payload bytes of new block k likewise. */
  lemma ClearedIn(m: Bytes, m1: Bytes, bs0: seq<Block>, bs: seq<Block>, k: nat, r: nat, n: nat, start: nat, end: nat)
    requires 0 < start && end <= |m1| && Tiling(bs, start, end) && Rep(m1, bs, 0, 0)
    requires k < |bs| && start <= bs[k].addr && bs[k].addr + HEADER <= r && r + n <= bs[k].End() <= end
    requires bs[k] !in bs0 && Live(bs) == Live(bs0) + {bs[k]}
    requires PayloadsKept(m, m1, Live(bs0)) && SameExcept(m, m1, start, end - start)
    ensures var m2 := Filled(m1, r, 0, n);
            && Rep(m2, bs, 0, 0) && SameExcept(m, m2, start, end - start) && PayloadsKept(m, m2, Live(bs0))
            && forall i :: r <= i < r + n ==> m2[i] == 0
  {
    hide Rep, Tiling, PayloadsKept, SameExcept, Filled, Others, Live;
    var m2 := Filled(m1, r, 0, n);
    FilledBytes(m1, r, 0, n);
    PayloadWrite(m1, m2, bs, k, r, n, start, end);
    WriteInside(m1, m2, r, n, start, end);
    SameTrans(m, m1, m2, start, end - start);
    NewLive(bs0, bs[k]);
    PayloadsTrans(m, m1, m2, Live(bs0));
  }

  lemma PairEnds(l: Block, r: Block, end: nat)
    requires Tiling([l, r], l.addr, end)
    ensures l.End() == r.addr && r.End() == end && l.size >= HEADER && r.size >= HEADER
  {
    assert [l, r][1..] == [r];
    assert Tiling([r], l.End(), end);
    assert Tiling([r][1..], r.End(), end);
  }

  /** The list after split_block, before the first half is marked allocated. */
  function SplitAt(bs: seq<Block>, k: nat, n: nat): seq<Block>
    requires k < |bs|
  {
    var b := bs[k];
    if b.size <= n + MIN_BLOCK then bs
    else bs[..k] + [Block(b.addr, n, b.used), Block(b.addr + n, b.size - n, false)] + bs[k + 1..]
  }

  lemma CutReplaced(bs: seq<Block>, k: nat, b: Block)
    requires k < |bs|
    ensures bs[k := b] == bs[..k] + [b] + bs[k + 1..]
  {
  }

  lemma CutPair(bs: seq<Block>, i: nat)
    requires i + 1 < |bs|
    ensures bs == bs[..i] + [bs[i], bs[i + 1]] + bs[i + 2..]
  {
  }

  lemma CutNeighbours(bs: seq<Block>, k: nat)
    requires k < |bs|
    ensures var (a, b, c) := Cut(bs, k);
            && First(c, 0) == Ptr(bs, k + 1) && Last(a, 0) == (if k == 0 then 0 else bs[k - 1].addr)
            && (c != [] ==> c[0] == bs[k + 1] && First(c[1..], 0) == Ptr(bs, k + 2))
  {
  }

  lemma PairNeighbours(bs: seq<Block>, i: nat)
    requires i + 1 < |bs|
    ensures var a, c := bs[..i], bs[i + 2..];
            && First(c, 0) == Ptr(bs, i + 2) && Last(a, 0) == (if i == 0 then 0 else bs[i - 1].addr)
            && (c != [] <==> i + 2 < |bs|) && (c != [] ==> c[0] == bs[i + 2] && First(c[1..], 0) == Ptr(bs, i + 3))
    ensures First(JoinAt(bs, i), 0) == First(bs, 0)
  {
  }

  /** The header writes of one merge represent the list with blocks i and i + 1 joined. */
  lemma JoinedAt(m: Bytes, m': Bytes, bs: seq<Block>, i: nat, start: nat, end: nat)
    requires i + 1 < |bs| && !bs[i].used && !bs[i + 1].used && 0 < start && end <= |m|
    requires bs[i].addr + HEADER <= |m| && (i + 2 < |bs| ==> bs[i + 2].addr + HEADER <= |m|)
    requires Tiling(bs, start, end) && Rep(m, bs, 0, 0)
    requires Patched(m, m', bs[i].addr, bs[i].addr + HEADER, Ptr(bs, i + 2)) && |m'| == |m|
    requires var h, h', prev := HeaderAt(m, bs[i].addr), HeaderAt(m', bs[i].addr), if i == 0 then 0 else bs[i - 1].addr;
             && SameMarks(h, h') && h.size <= h'.size == bs[i].size + bs[i + 1].size
             && IsHeader(h', Block(bs[i].addr, bs[i].size + bs[i + 1].size, false), Ptr(bs, i + 2), prev)
    requires i + 2 < |bs| ==>
               var h, h' := HeaderAt(m, bs[i + 2].addr), HeaderAt(m', bs[i + 2].addr);
               SameMarks(h, h') && h'.size == h.size && IsHeader(h', bs[i + 2], Ptr(bs, i + 3), bs[i].addr)
    ensures var bs' := JoinAt(bs, i);
            && Rep(m', bs', 0, 0) && Tiling(bs', start, end) && Live(bs') == Live(bs) && First(bs', 0) == First(bs, 0)
    ensures PayloadsKept(m, m', Live(bs)) && StaleKept(m, bs, m', JoinAt(bs, i))
  {
    hide Tiling, Rep, HeaderAt, Live, Patched, PayloadsKept, StaleKept, SameMarks, IsHeader, First, Last, Ptr;
    var a, l, r, c := bs[..i], bs[i], bs[i + 1], bs[i + 2..];
    CutPair(bs, i);
    PairNeighbours(bs, i);
    if c != [] { RepSingle(m', c[0], l.addr, First(c[1..], 0)); }
    JoinRep(m, m', a, l, r, c, start, end);
    JoinStale(m, m', a, l, r, c, start, end);
  }

  /** One header was rewritten as h, nothing else. */
  ghost predicate Wrote(m: Bytes, m': Bytes, a: nat, h: Header) {
    a + HEADER <= |m| && SameExcept(m, m', a, HEADER) && HeaderAt(m', a) == h
  }

  /** The header at `next`, if any, now points back to `to`. */
  ghost predicate PointedBack(m: Bytes, m': Bytes, next: nat, to: U64) {
    if next == 0 then m' == m
    else next + HEADER <= |m| && Wrote(m, m', next, HeaderAt(m, next).(prev := to))
  }

  /** The net effect of split_block's four groups of writes. */
  lemma SplitWrites(m: Bytes, m1: Bytes, m2: Bytes, m3: Bytes, m4: Bytes, block: nat, rest: U64, n: U64, h: Header)
    requires block + HEADER <= rest && rest + HEADER <= |m| && h == HeaderAt(m, block) && n <= h.size
    requires h.next != 0 ==> rest + HEADER <= h.next
    requires block < WORD && Wrote(m, m1, rest, Header(h.size - n, 0, h.next, block, HEAP_MAGIC))
    requires PointedBack(m1, m2, h.next, rest)
    requires Wrote(m2, m3, block, HeaderAt(m2, block).(next := rest))
    requires Wrote(m3, m4, block, HeaderAt(m3, block).(size := n))
    ensures HeaderAt(m4, block) == h.(size := n, next := rest)
    ensures HeaderAt(m4, rest) == Header(h.size - n, 0, h.next, block, HEAP_MAGIC)
    ensures h.next != 0 ==> h.next + HEADER <= |m| && HeaderAt(m4, h.next) == HeaderAt(m, h.next).(prev := rest)
    ensures Patched(m, m4, block, rest + HEADER, h.next)
  {
    hide HeaderAt;
    HeaderApart(m, m1, rest, block);
    if h.next != 0 {
      HeaderApart(m, m1, rest, h.next);
      HeaderApart(m1, m2, h.next, rest);
      HeaderApart(m1, m2, h.next, block);
      HeaderApart(m2, m3, block, h.next);
      HeaderApart(m3, m4, block, h.next);
    }
    HeaderApart(m2, m3, block, rest);
    HeaderApart(m3, m4, block, rest);
  }

  /** Headers of the two halves and of the following block make up the split list. */
  lemma SplitRep(m: Bytes, m': Bytes, a: seq<Block>, b: Block, c: seq<Block>, n: nat, start: nat, end: nat)
    requires !b.used && HEADER <= n && b.size > n + MIN_BLOCK
    requires 0 < start && end <= |m| && Tiling(a + [b] + c, start, end) && Rep(m, a + [b] + c, 0, 0)
    requires b.End() <= |m| && Patched(m, m', b.addr, b.End(), First(c, 0))
    requires IsHeader(HeaderAt(m', b.addr), Block(b.addr, n, false), b.addr + n, Last(a, 0))
    requires IsHeader(HeaderAt(m', b.addr + n), Block(b.addr + n, b.size - n, false), First(c, 0), b.addr)
    requires c != [] ==> Rep(m', [c[0]], b.addr + n, First(c[1..], 0))
    ensures var mid' := [Block(b.addr, n, false), Block(b.addr + n, b.size - n, false)];
            Rep(m', a + mid' + c, 0, 0) && Tiling(a + mid' + c, start, end)
    ensures PayloadsKept(m, m', Live(a + [b] + c)) && PayloadsKept(m, m', Blocks(a) + Blocks(c))
  {
    hide HeaderAt, IsHeader;
    var mid, mid' := [b], [Block(b.addr, n, false), Block(b.addr + n, b.size - n, false)];
    Parts(a, mid, c, start, end);
    SplitTiling(b, n, First(c, end));
    TilingJoin(a, mid', start, b.addr, First(c, end));
    TilingJoin(a + mid', c, start, First(c, end), end);
    SplitPair(m', mid'[0], mid'[1], Last(a, 0), First(c, 0));
    assert b.End() == First(c, end) by { SingleEnd(b, First(c, end)); }
    Relink(m, m', a, mid, mid', c, start, end);
    PatchedPayloads(m, m', a, mid, c, start, end);
    SingleSums(b);
    KeptLive(m, m', a, mid, c);
  }

  lemma SingleEnd(b: Block, end: nat)
    requires Tiling([b], b.addr, end)
    ensures b.End() == end
  {
  }

  lemma SplitTiling(b: Block, n: nat, end: nat)
    requires HEADER <= n && b.size > n + MIN_BLOCK && Tiling([b], b.addr, end)
    ensures Tiling([Block(b.addr, n, false), Block(b.addr + n, b.size - n, false)], b.addr, end)
  {
  }

  lemma SplitPair(m: Bytes, x: Block, y: Block, prev: nat, next: nat)
    requires x.addr + HEADER <= |m| && y.addr + HEADER <= |m|
    requires IsHeader(HeaderAt(m, x.addr), x, y.addr, prev) && IsHeader(HeaderAt(m, y.addr), y, next, x.addr)
    ensures Rep(m, [x, y], prev, next)
  {
    assert [x, y][1..] == [y] && [y][1..] == [];
  }
}
