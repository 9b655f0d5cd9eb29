/** The kernel heap allocator (kernel/mm/heap.c): block headers in the heap's own bytes. */
module KernelHeap {
  import opened Bits
  import opened Memory
  import opened HeapBlocks
  import opened HeapRuns
  import opened HeapMemory
  import opened HeapUpdates

  class Allocator {
    const mem: array<U8>
    var start: nat
    var end: nat
    var size: nat
    var used: nat
    var free: nat
    var first: nat
    var allocations: U32
    var frees: U32
    /** The block list that the headers in memory represent. */
    ghost var blocks: seq<Block>

    ghost function View(): Heap
      reads this
    {
      Heap(start, end, blocks, used, free, allocations, frees)
    }

    /** The headers in memory link up the block list, which tiles the heap; a block size plus the
        split threshold does not wrap. */
    ghost predicate Chained()
      reads this, mem
    {
      && 0 < start < end <= mem.Length <= WORD && end - start + MIN_BLOCK <= WORD
      && first == First(blocks, 0)
      && Tiling(blocks, start, end)
      && Rep(mem[..], blocks, 0, 0)
    }

    ghost predicate Valid()
      reads this, mem
    {
      Chained() && Inv(View()) && size == end - start
    }

    constructor (mem: array<U8>)
      ensures this.mem == mem
    {
      this.mem := mem;
      start, end, size, used, free, first, allocations, frees := 0, 0, 0, 0, 0, 0, 0, 0;
      blocks := [];
    }

    /** One free block over the whole heap, whose size is rounded up to pages and at least one. The
        result is a valid heap exactly when it does not start at NULL, the rounding does not wrap,
        and the range lies in memory below 2^64. */
    method Init(at: U64, initialSize: U64) returns (r: int)
      requires at + HEADER <= mem.Length <= WORD
      modifies this, mem
      ensures r == 0
      ensures size == InitialSize(initialSize)
      ensures View() == Heap(at, Wrap(at + size), [Block(at, size, false)], 0, size, 0, 0)
      ensures size % 0x1000 == 0 && (initialSize < 0x1000 ==> size == 0x1000)
      ensures 0x1000 <= initialSize <= WORD - 0x1000 ==> initialSize <= size < initialSize + 0x1000
      ensures initialSize > WORD - 0x1000 ==> size == 0
      ensures first == at && HeaderAt(mem[..], at) == Header(size, 0, 0, 0, 0xDEAD_BEEF)
      ensures SameExcept(old(mem[..]), mem[..], at, HEADER)
      ensures Valid() <==> 0 < at && initialSize <= WORD - 0x1000 && at + size <= mem.Length && at + size < WORD
    {
      hide HeaderAt, AlignUp, Wrap;
      InitialSizeValue(initialSize);
      var rounded := AlignUp(if initialSize < 0x1000 then 0x1000 else initialSize, 0x1000);
      start, end, size, used, free := at, Wrap(at + rounded), rounded, 0, rounded;
      allocations, frees := 0, 0;
      first := at;
      WriteHeader(at, rounded, 0, 0);
      blocks := [Block(at, rounded, false)];
      OneBlock(at, rounded);
      r := 0;
    }

    /** When one free block of whole pages at the start makes a valid heap. */
    lemma OneBlock(at: U64, rounded: U64)
      requires View() == Heap(at, Wrap(at + rounded), [Block(at, rounded, false)], 0, rounded, 0, 0)
      requires size == rounded && first == at && at + HEADER <= mem.Length <= WORD && rounded % 0x1000 == 0
      requires HeaderAt(mem[..], at) == Header(rounded, 0, 0, 0, HEAP_MAGIC)
      ensures Valid() <==> 0 < at && 0 < rounded && at + rounded <= mem.Length && at + rounded < WORD
    {
      hide HeaderAt, Wrap;
      RepSingle(mem[..], blocks[0], 0, 0);
      SingleSums(blocks[0]);
      SingleTiling(blocks[0], end);
      if at + rounded < WORD { WrapSmall(at + rounded); } else { WrapOver(at + rounded); }
    }

    lemma BlockFacts(k: nat)
      requires Chained() && k <= |blocks|
      ensures k < |blocks| ==>
                && start <= blocks[k].addr && blocks[k].size >= HEADER && blocks[k].End() <= end
                && IsHeader(HeaderAt(mem[..], blocks[k].addr), blocks[k],
                            Ptr(blocks, k + 1), if k == 0 then 0 else blocks[k - 1].addr)
                && (k + 1 < |blocks| ==> blocks[k + 1].addr == blocks[k].End())
    {
      if k + 1 < |blocks| { IndexOrder(blocks, start, end, k, k + 1); }
      TilingBounds(blocks, start, end);
      if k < |blocks| { RepAt(mem[..], blocks, k); }
    }

    /** First free block of at least n bytes, NULL if none; k is its place in the list. */
    method FindFreeBlock(n: nat) returns (block: nat, ghost k: nat)
      requires Chained()
      ensures block == Ptr(blocks, FirstFit(blocks, n))
      ensures block == 0 <==> FirstFit(blocks, n) == |blocks|
      ensures k == FirstFit(blocks, n)
    {
      hide Tiling, Rep, HeaderAt, FirstFit;
      block, k := first, 0;
      while block != 0
        invariant k <= |blocks| && block == Ptr(blocks, k)
        invariant forall i :: 0 <= i < k ==> !Fits(blocks[i], n)
        decreases |blocks| - k
      {
        BlockFacts(k);
        var h := HeaderAt(mem[..], block);
        if h.inUse == 0 && h.size >= n {
          FirstFitUnique(blocks, n, k);
          return;
        }
        block, k := h.next, k + 1;
      }
      BlockFacts(k);
      FirstFitUnique(blocks, n, k);
    }

    /** Rewrites a whole header. */
    method WriteHeader(a: nat, size: U64, next: U64, prev: U64)
      requires a + HEADER <= mem.Length
      modifies mem
      ensures HeaderAt(mem[..], a) == Header(size, 0, next, prev, HEAP_MAGIC)
      ensures SameExcept(old(mem[..]), mem[..], a, HEADER)
    {
      hide HeaderAt;
      SetSize(mem, a, size);
      SetAllocated(mem, a, 0);
      SetNext(mem, a, next);
      SetPrev(mem, a, prev);
      SetMagic(mem, a, HEAP_MAGIC);
    }

    /** Redirects the prev link of the block after a stretch, if there is one. */
    method PointBack(next: nat, to: U64)
      requires next != 0 ==> next + HEADER <= mem.Length
      modifies mem
      ensures next == 0 ==> mem[..] == old(mem[..])
      ensures next != 0 ==> HeaderAt(mem[..], next) == HeaderAt(old(mem[..]), next).(prev := to)
                            && SameExcept(old(mem[..]), mem[..], next, HEADER)
    {
      if next != 0 { SetPrev(mem, next, to); }
    }

    /** Splits free block k after its first n bytes if more than 64 bytes would remain. */
    method SplitBlock(block: nat, n: nat, ghost k: nat)
      requires Chained() && k < |blocks| && blocks[k].addr == block && !blocks[k].used && HEADER <= n
      modifies mem, `blocks
      ensures Chained()
      ensures blocks == old(SplitAt(blocks, k, n))
      ensures PayloadsKept(old(mem[..]), mem[..], Live(old(blocks)))
      ensures PayloadsKept(old(mem[..]), mem[..], Others(old(blocks), k))
      ensures SameExcept(old(mem[..]), mem[..], start, end - start)
    {
      hide Tiling, Rep, HeaderAt, SameExcept, PayloadsKept, Live, Blocks;
      BlockFacts(k);
      KeptRefl(mem[..], blocks);
      PayloadsRefl(mem[..], Others(blocks, k));
      SameRefl(mem[..], start, end - start);
      var h := HeaderAt(mem[..], block);
      if h.size <= n + MIN_BLOCK { return; }
      var rest := block + n;
      ghost var m := mem[..];
      BlockFacts(k + 1);
      WriteHeader(rest, h.size - n, h.next, block);
      ghost var m1 := mem[..];
      PointBack(h.next, rest);
      ghost var m2 := mem[..];
      SetNext(mem, block, rest);
      ghost var m3 := mem[..];
      SetSize(mem, block, n);
      SplitWrites(m, m1, m2, m3, mem[..], block, rest, n, h);
      PatchedInside(m, mem[..], block, rest + HEADER, h.next, start, end);
      ghost var (a, b, c) := Cut(blocks, k);
      CutNeighbours(blocks, k);
      if c != [] { RepSingle(mem[..], c[0], rest, First(c[1..], 0)); }
      SplitRep(m, mem[..], a, b, c, n, start, end);
      blocks := SplitAt(blocks, k, n);
    }

    /** `block->allocated = flag` */
    method MarkBlock(block: nat, flag: bool, ghost k: nat)
      requires Chained() && k < |blocks| && blocks[k].addr == block
      modifies mem, `blocks
      ensures Chained()
      ensures blocks == old(blocks)[k := Block(block, old(blocks)[k].size, flag)]
      ensures PayloadsKept(old(mem[..]), mem[..], Live(old(blocks)))
      ensures PayloadsKept(old(mem[..]), mem[..], Others(old(blocks), k))
      ensures SameExcept(old(mem[..]), mem[..], start, end - start)
      ensures SameExcept(old(mem[..]), mem[..], block, HEADER)
      ensures block + HEADER <= mem.Length && HeaderAt(mem[..], block).inUse == if flag then 1 else 0
    {
      hide Tiling, Rep, HeaderAt, PayloadsKept, Live, Blocks;
      BlockFacts(k);
      BlockFacts(k + 1);
      ghost var m := mem[..];
      SetAllocated(mem, block, if flag then 1 else 0);
      ghost var (a, b, c) := Cut(blocks, k);
      CutNeighbours(blocks, k);
      if c != [] {
        HeaderApart(m, mem[..], block, c[0].addr);
        RepSingle(mem[..], c[0], block, First(c[1..], 0));
      }
      MarkRep(m, mem[..], a, b, c, flag, start, end);
      WriteInside(m, mem[..], block, HEADER, start, end);
      CutReplaced(blocks, k, Block(block, b.size, flag));
      blocks := blocks[k := Block(block, blocks[k].size, flag)];
    }

    /** The header writes of one merge: the left header covers both blocks, and the header after the
        right one points back to it. */
    method JoinHeaders(left: nat, right: nat)
      requires left + HEADER <= mem.Length <= WORD && right + HEADER <= mem.Length
      requires HeaderAt(mem[..], left).size + HeaderAt(mem[..], right).size < WORD
      requires var next := HeaderAt(mem[..], right).next; next != 0 ==> left + HEADER <= next && next + HEADER <= mem.Length
      modifies mem
      ensures var hl, hr := HeaderAt(old(mem[..]), left), HeaderAt(old(mem[..]), right);
              && HeaderAt(mem[..], left) == hl.(size := hl.size + hr.size, next := hr.next)
              && (hr.next != 0 ==> HeaderAt(mem[..], hr.next) == HeaderAt(old(mem[..]), hr.next).(prev := left))
              && Patched(old(mem[..]), mem[..], left, left + HEADER, hr.next)
    {
      hide HeaderAt, Patched, SameExcept;
      ghost var m := mem[..];
      var hl, hr := HeaderAt(mem[..], left), HeaderAt(mem[..], right);
      SetSize(mem, left, hl.size + hr.size);
      ghost var m1 := mem[..];
      SetNext(mem, left, hr.next);
      ghost var m2 := mem[..];
      PointBack(hr.next, left);
      JoinWrites(m, m1, m2, mem[..], left, hr.next, hl.size + hr.size);
    }

    /** One round of either merge loop: free block i swallows the free block after it. */
    method JoinPair(left: nat, right: nat, ghost i: nat)
      requires Chained() && i + 1 < |blocks| && left == blocks[i].addr && right == blocks[i + 1].addr
      requires !blocks[i].used && !blocks[i + 1].used
      modifies mem, `blocks
      ensures Chained()
      ensures blocks == JoinAt(old(blocks), i) && Live(blocks) == Live(old(blocks))
      ensures PayloadsKept(old(mem[..]), mem[..], Live(old(blocks)))
      ensures SameExcept(old(mem[..]), mem[..], start, end - start)
      ensures StaleKept(old(mem[..]), old(blocks), mem[..], blocks)
    {
      hide Tiling, Rep, HeaderAt, Live, Patched, PayloadsKept, StaleKept, Stale, SameExcept, JoinAt;
      BlockFacts(i);
      BlockFacts(i + 1);
      BlockFacts(i + 2);
      ghost var m := mem[..];
      var hr := HeaderAt(mem[..], right);
      JoinHeaders(left, right);
      PatchedInside(m, mem[..], left, left + HEADER, hr.next, start, end);
      JoinedAt(m, mem[..], blocks, i, start, end);
      blocks := JoinAt(blocks, i);
    }

    /** First loop of merge_blocks: block k swallows the free blocks after it. */
    method MergeNext(block: nat, ghost k: nat)
      requires Chained() && k < |blocks| && blocks[k].addr == block && !blocks[k].used
      modifies mem, `blocks
      ensures Chained() && k < |blocks| && blocks[k].addr == block && !blocks[k].used
      ensures blocks[..k] == old(blocks)[..k] && Live(blocks) == Live(old(blocks))
      ensures (blocks[k], blocks[k + 1..]) == AbsorbNext(old(blocks)[k], old(blocks)[k + 1..])
      ensures PayloadsKept(old(mem[..]), mem[..], Live(old(blocks)))
      ensures SameExcept(old(mem[..]), mem[..], start, end - start)
      ensures StaleKept(old(mem[..]), old(blocks), mem[..], blocks)
    {
      hide Chained, Live, HeaderAt, PayloadsKept, StaleKept, SameExcept, AbsorbNext;
      SameRefl(mem[..], start, end - start);
      ghost var m, bs, live := mem[..], blocks, Live(blocks);
      KeptRefl(m, bs);
      Neighbours(k);
      if k + 1 < |blocks| { Neighbours(k + 1); }
      var h := HeaderAt(mem[..], block);
      while h.next != 0 && HeaderAt(mem[..], h.next).inUse == 0
        invariant Chained() && k < |blocks| && blocks[k].addr == block && !blocks[k].used
        invariant h.next == Ptr(blocks, k + 1) && (h.next != 0 <==> k + 1 < |blocks|)
        invariant k + 1 < |blocks| ==> h.next + HEADER <= mem.Length
                                       && (HeaderAt(mem[..], h.next).inUse == 0 <==> !blocks[k + 1].used)
        invariant blocks[..k] == bs[..k]
        invariant AbsorbNext(blocks[k], blocks[k + 1..]) == AbsorbNext(bs[k], bs[k + 1..])
        invariant Live(blocks) == live && PayloadsKept(m, mem[..], live) && StaleKept(m, bs, mem[..], blocks)
        invariant SameExcept(m, mem[..], start, end - start)
        decreases |blocks|
      {
        ghost var m1, bs1 := mem[..], blocks;
        JoinPair(block, h.next, k);
        KeptTrans(m, m1, mem[..], bs, bs1, blocks, live);
        SameTrans(m, m1, mem[..], start, end - start);
        AbsorbNextStep(bs1, k);
        Neighbours(k);
        if k + 1 < |blocks| { Neighbours(k + 1); }
        h := HeaderAt(mem[..], block);
      }
      AbsorbNextDone(blocks[k], blocks[k + 1..]);
    }

    /** Second loop of merge_blocks: the free blocks before block k swallow it. */
    method MergePrev(block: nat, ghost k: nat)
      requires Chained() && k < |blocks| && blocks[k].addr == block && !blocks[k].used
      modifies mem, `blocks
      ensures Chained()
      ensures var (a1, b1) := AbsorbPrev(old(blocks)[..k], old(blocks)[k]);
              blocks == a1 + [b1] + old(blocks)[k + 1..]
      ensures Live(blocks) == Live(old(blocks))
      ensures PayloadsKept(old(mem[..]), mem[..], Live(old(blocks)))
      ensures SameExcept(old(mem[..]), mem[..], start, end - start)
      ensures StaleKept(old(mem[..]), old(blocks), mem[..], blocks)
    {
      hide Chained, Live, HeaderAt, PayloadsKept, StaleKept, SameExcept, AbsorbPrev;
      SameRefl(mem[..], start, end - start);
      ghost var m, bs, live := mem[..], blocks, Live(blocks);
      KeptRefl(m, bs);
      var cur := block;
      ghost var i: nat := k;
      Neighbours(i);
      if i > 0 { Neighbours(i - 1); }
      var h := HeaderAt(mem[..], cur);
      while h.prev != 0 && HeaderAt(mem[..], h.prev).inUse == 0
        invariant Chained() && i < |blocks| && blocks[i].addr == cur && !blocks[i].used
        invariant (h.prev != 0 <==> i > 0)
        invariant i > 0 ==> h.prev == blocks[i - 1].addr && h.prev + HEADER <= mem.Length
                            && (HeaderAt(mem[..], h.prev).inUse == 0 <==> !blocks[i - 1].used)
        invariant i <= k && blocks[i + 1..] == bs[k + 1..]
        invariant AbsorbPrev(blocks[..i], blocks[i]) == AbsorbPrev(bs[..k], bs[k])
        invariant Live(blocks) == live && PayloadsKept(m, mem[..], live) && StaleKept(m, bs, mem[..], blocks)
        invariant SameExcept(m, mem[..], start, end - start)
        decreases i
      {
        ghost var m1, bs1 := mem[..], blocks;
        JoinPair(h.prev, cur, i - 1);
        KeptTrans(m, m1, mem[..], bs, bs1, blocks, live);
        SameTrans(m, m1, mem[..], start, end - start);
        AbsorbPrevStep(bs1, i);
        cur := h.prev;
        i := i - 1;
        Neighbours(i);
        if i > 0 { Neighbours(i - 1); }
        h := HeaderAt(mem[..], cur);
      }
      AbsorbPrevDone(blocks[..i], blocks[i]);
      assert blocks == blocks[..i] + [blocks[i]] + blocks[i + 1..];
    }

    /** Merges free block k with the free blocks after it, then with those before it. */
    method MergeBlocks(block: nat, ghost k: nat)
      requires Chained() && k < |blocks| && blocks[k].addr == block && !blocks[k].used
      modifies mem, `blocks
      ensures Chained()
      ensures blocks == Merged(old(blocks), k) && Live(blocks) == Live(old(blocks))
      ensures PayloadsKept(old(mem[..]), mem[..], Live(old(blocks)))
      ensures SameExcept(old(mem[..]), mem[..], start, end - start)
      ensures StaleKept(old(mem[..]), old(blocks), mem[..], blocks)
    {
      hide Chained, Live, HeaderAt, PayloadsKept, StaleKept, SameExcept, AbsorbNext, AbsorbPrev;
      ghost var m, bs := mem[..], blocks;
      MergeNext(block, k);
      ghost var m1, bs1 := mem[..], blocks;
      MergePrev(block, k);
      KeptTrans(m, m1, mem[..], bs, bs1, blocks, Live(bs));
      SameTrans(m, m1, mem[..], start, end - start);
    }

    /** Takes n bytes from free block k: split it if it is too large, and mark the front allocated. */
    method TakeBlock(block: nat, n: nat, ghost k: nat)
      requires Chained() && k < |blocks| && blocks[k].addr == block && Fits(blocks[k], n) && Takeable(blocks[k], n)
      modifies mem, `blocks
      ensures Chained() && blocks == Allocate(old(blocks), k, n)
      ensures PayloadsKept(old(mem[..]), mem[..], Live(old(blocks)))
      ensures PayloadsKept(old(mem[..]), mem[..], Others(old(blocks), k))
      ensures SameExcept(old(mem[..]), mem[..], start, end - start)
    {
      hide Chained, Live, HeaderAt, PayloadsKept, SameExcept, Others, Allocate, SplitAt;
      ghost var m, bs := mem[..], blocks;
      SameRefl(m, start, end - start);
      PayloadsRefl(m, Live(bs));
      PayloadsRefl(m, Others(bs, k));
      Neighbours(k);
      if blocks[k].size <= n + MIN_BLOCK { SplitAtSmall(bs, k, n); }
      if HeaderAt(mem[..], block).size > n + MIN_BLOCK {
        SplitBlock(block, n, k);
      }
      ghost var m1 := mem[..];
      SplitThenMark(bs, k, n);
      MarkBlock(block, true, k);
      MarkedPayloads(m, m1, mem[..], bs, k, n);
      MarkedOthers(m, m1, mem[..], bs, k, n);
      SameTrans(m, m1, mem[..], start, end - start);
    }

    /** kmalloc. Nothing outside free space and headers is written. */
    method Kmalloc(n: U64) returns (ptr: nat)
      requires Valid() && Servable(View(), n)
      modifies mem, `blocks, `used, `free, `allocations
      ensures Valid()
      ensures (View(), ptr) == Malloc(old(View()), n)
      ensures PayloadsKept(old(mem[..]), mem[..], Live(old(blocks)))
      ensures var k := FirstFit(old(blocks), Total(n));
              k < |old(blocks)| ==> PayloadsKept(old(mem[..]), mem[..], Others(old(blocks), k))
      ensures n == 0 ==> ptr == 0
      ensures ptr == 0 ==> mem[..] == old(mem[..]) && View() == old(View())
      ensures SameExcept(old(mem[..]), mem[..], start, end - start)
    {
      hide Tiling, Coalesced, UsedBytes, FreeBytes, UsedCount, Live, Balanced, Inc32, Total, HeaderAt, PayloadsKept, SameExcept, FirstFit, Rep, Others, Allocate;
      ghost var m, bs := mem[..], blocks;
      SameRefl(m, start, end - start);
      KeptRefl(m, bs);
      FitsFacts(bs, Total(n));
      if FirstFit(bs, Total(n)) < |bs| { PayloadsRefl(m, Others(bs, FirstFit(bs, Total(n)))); }
      if n == 0 { return 0; }
      var total := Total(n);
      var block;
      ghost var k;
      block, k := FindFreeBlock(total);
      if block == 0 { return 0; }
      MallocInv(View(), n);
      AllocatedSize(bs, k, total, start, end);
      TakeBlock(block, total, k);
      Neighbours(k);
      var h := HeaderAt(mem[..], block);
      used := used + h.size;
      free := free - h.size;
      allocations := Inc32(allocations);
      ptr := block + HEADER;
    }

    /** What kfree and krealloc can tell about a pointer from the bytes before it. */
    predicate LooksValid(block: nat)
      requires block + HEADER <= mem.Length
      reads this, mem
    {
      block != 0 && HeaderAt(mem[..], block).magic == HEAP_MAGIC && start <= block < end
    }

    method IsValidBlock(block: nat) returns (ok: bool)
      requires block + HEADER <= mem.Length
      ensures ok == LooksValid(block)
    {
      if block == 0 { return false; }
      if HeaderAt(mem[..], block).magic != HEAP_MAGIC { return false; }
      if block < start || block >= end { return false; }
      return true;
    }

    /** A live payload pointer has a header that looks valid and allocated. */
    lemma LiveLooksValid(ptr: nat)
      requires Chained() && LiveIndex(blocks, ptr) < |blocks|
      ensures HEADER <= ptr <= mem.Length && LooksValid(ptr - HEADER)
      ensures HeaderAt(mem[..], ptr - HEADER).inUse != 0
      ensures HeaderAt(mem[..], ptr - HEADER).size == blocks[LiveIndex(blocks, ptr)].size
    {
      hide Chained, HeaderAt;
      ChainStart();
      Neighbours(LiveIndex(blocks, ptr));
    }

    /** A header in memory: size at offset 0, allocated at 8, next at 16, prev at 24, magic number at 32;
        next is the following block and prev the one before. */
    lemma HeaderInMemory(k: nat)
      requires Chained() && k < |blocks|
      ensures blocks[k].addr + 40 <= mem.Length
      ensures var a, m := blocks[k].addr, mem[..];
              && Load64(m, a) == blocks[k].size
              && Load32(m, a + 8) == (if blocks[k].used then 1 else 0)
              && Load64(m, a + 16) == (if k + 1 < |blocks| then a + blocks[k].size else 0)
              && Load64(m, a + 24) == (if k > 0 then blocks[k - 1].addr else 0)
              && Load32(m, a + 32) == 0xDEAD_BEEF
      ensures k + 1 < |blocks| ==> blocks[k + 1].addr == blocks[k].addr + blocks[k].size
    {
      hide Tiling, Rep, Load64, Load32;
      BlockFacts(k);
      if k + 1 < |blocks| { BlockFacts(k + 1); }
    }

    /** What is_valid_block and the allocated test refuse: NULL, addresses outside the heap, a wrong magic
        number, a header not marked allocated. None of those pointers is live, so kfree may be called on
        them and does nothing. */
    lemma RefusedNotLive(ptr: nat)
      requires Chained() && 40 <= ptr <= mem.Length
      requires ptr == 40 || ptr < start + 40 || ptr >= end + 40
               || Load32(mem[..], ptr - 8) != 0xDEAD_BEEF || Load32(mem[..], ptr - 32) == 0
      ensures !(LooksValid(ptr - HEADER) && HeaderAt(mem[..], ptr - HEADER).inUse != 0)
      ensures LiveIndex(blocks, ptr) == |blocks|
    {
      hide Chained, Load32, Load64, LiveIndex;
      LiveIndexFacts(blocks, ptr);
      if LiveIndex(blocks, ptr) < |blocks| { LiveLooksValid(ptr); }
    }

    lemma ViewBounds()
      requires Chained()
      ensures 0 < start && end <= mem.Length && Tiling(blocks, start, end) && Rep(mem[..], blocks, 0, 0)
    {
    }

    lemma InHeap(b: Block)
      requires Chained() && b in blocks
      ensures 0 < start <= b.addr && HEADER <= b.size && b.End() <= end <= mem.Length
    {
      TilingBounds(blocks, start, end);
    }

    lemma ChainStart()
      requires Chained()
      ensures 0 < start
    {
    }

    /** kfree. The caller passes NULL, a live pointer, or one whose header does not look both valid
        and allocated (such as a pointer already freed); only a live one has any effect. */
    method Kfree(ptr: nat)
      requires Valid() && (ptr != 0 ==> HEADER <= ptr <= mem.Length)
      requires ptr != 0 && LooksValid(ptr - HEADER) && HeaderAt(mem[..], ptr - HEADER).inUse != 0
               ==> LiveIndex(blocks, ptr) < |blocks|
      modifies mem, `blocks, `used, `free, `frees
      ensures Valid()
      ensures View() == Free(old(View()), ptr)
      ensures LiveIndex(old(blocks), ptr) == |old(blocks)| ==> mem[..] == old(mem[..])
      ensures PayloadsKept(old(mem[..]), mem[..], Live(blocks))
      ensures SameExcept(old(mem[..]), mem[..], start, end - start)
      ensures StaleKept(old(mem[..]), old(blocks), mem[..], blocks)
      ensures var k := LiveIndex(old(blocks), ptr);
              k < |old(blocks)| ==>
                && HEADER <= ptr <= mem.Length && Stale(mem[..], blocks, ptr - HEADER)
                && PayloadSize(old(blocks)[k]) <= StoredSize(mem[..], ptr)
    {
      hide Tiling, Coalesced, UsedBytes, FreeBytes, UsedCount, Live, Balanced, Inc32, HeaderAt, PayloadsKept, StaleKept, Stale, LiveIndex, Rep, Others;
      ghost var m, bs, k := mem[..], blocks, LiveIndex(blocks, ptr);
      SameRefl(m, start, end - start);
      KeptRefl(m, bs);
      LiveIndexFacts(bs, ptr);
      if k < |bs| { LiveLooksValid(ptr); }
      if ptr == 0 { return; }
      var block := ptr - HEADER;
      var ok := IsValidBlock(block);
      if !ok { return; }
      if HeaderAt(mem[..], block).inUse == 0 { return; }
      FreeInv(View(), ptr);
      ReleaseKeeps(bs, k, start, end);
      MarkBlock(block, false, k);
      ghost var m1, bs1 := mem[..], blocks;
      Neighbours(k);
      BlockSize(k);
      MarkStale(m, m1, bs, k, start, end);
      var h := HeaderAt(mem[..], block);
      used := used - h.size;
      free := free + h.size;
      frees := Inc32(frees);
      MergeBlocks(block, k);
      MarkThenMerge(bs, k);
      SameTrans(m, m1, mem[..], start, end - start);
      FreedKept(m, m1, mem[..], bs, bs1, blocks, k, start, end);
    }

    /** After a free, and until the space is allocated again, the pointer still looks valid to
        is_valid_block; freeing it once more is permitted and changes nothing. */
    lemma StaleFreeIsNoOp(ptr: nat)
      requires Valid() && HEADER <= ptr && Stale(mem[..], blocks, ptr - HEADER)
      ensures ptr <= mem.Length && LooksValid(ptr - HEADER) && HeaderAt(mem[..], ptr - HEADER).inUse == 0
      ensures HeaderAt(mem[..], ptr - HEADER).size >= HEADER
      ensures LiveIndex(blocks, ptr) == |blocks| && Free(View(), ptr) == View()
    {
      hide HeaderAt, Chained, Inv;
      var b :| b in blocks && StaleIn(mem[..], b, ptr - HEADER);
      InHeap(b);
      if LiveIndex(blocks, ptr) < |blocks| {
        LiveLooksValid(ptr);
        assert false;
      }
    }

    /** kcalloc: the product of count and size is taken in 64 bits; that many bytes are zeroed, which
        must not run past the new block. The block holds all the elements exactly when their total
        size is at most 2^64 - 48. */
    method Kcalloc(count: U64, size: U64) returns (ptr: nat)
      requires Valid() && Servable(View(), Product(count, size))
      requires Room(blocks, Product(count, size), Product(count, size))
      modifies mem, `blocks, `used, `free, `allocations
      ensures Valid()
      ensures (View(), ptr) == Malloc(old(View()), Product(count, size))
      ensures ptr != 0 ==> ptr + Product(count, size) <= mem.Length
                           && forall i :: ptr <= i < ptr + Product(count, size) ==> mem[i] == 0
      ensures count * size < WORD ==> (ptr == 0 || forall i :: ptr <= i < ptr + count * size ==> 0 <= i < mem.Length && mem[i] == 0)
      ensures ptr != 0 ==> exists b :: b in Live(blocks) && b.addr + HEADER == ptr
                                       && (count * size <= PayloadSize(b) <==> count * size <= MAX_REQUEST)
      ensures PayloadsKept(old(mem[..]), mem[..], Live(old(blocks)))
      ensures ptr == 0 ==> mem[..] == old(mem[..])
      ensures SameExcept(old(mem[..]), mem[..], start, end - start)
    {
      hide HeaderAt, PayloadsKept, Rep, Tiling, Inv, Live, Total, Malloc, Product, Servable, Room, Others, FirstFit, Filled, SameExcept;
      var total := Product(count, size);
      ProductFits(count, size);
      ghost var m, h0 := mem[..], View();
      ptr := Kmalloc(total);
      if ptr != 0 {
        ghost var m1 := mem[..];
        ghost var k := NewBlock(h0, total);
        CallocHolds(h0, count, size, blocks[k]);
        RoomMeans(h0, total, blocks[k], total);
        LiveAt(blocks, k);
        ViewBounds();
        InHeap(blocks[k]);
        ClearedIn(m, m1, h0.blocks, blocks, k, ptr, total, start, end);
        MemorySet(mem, ptr, 0, total);
      }
    }

    /** A new block of n bytes that starts with a copy of oldSize bytes from ptr on, which lie in the
        payload of block b. */
    method CopyToNew(ptr: nat, n: U64, oldSize: nat, ghost b: Block) returns (r: nat)
      requires Valid() && Servable(View(), n) && Room(blocks, n, oldSize) && b in blocks
      requires b.addr + HEADER <= ptr && ptr + oldSize <= b.End() <= mem.Length
      requires var k := FirstFit(blocks, Total(n)); k < |blocks| ==> blocks[k] != b
      modifies mem, `blocks, `used, `free, `allocations
      ensures Valid()
      ensures (View(), r) == Malloc(old(View()), n)
      ensures PayloadsKept(old(mem[..]), mem[..], Live(old(blocks)))
      ensures SameExcept(old(mem[..]), mem[..], start, end - start)
      ensures r == 0 ==> mem[..] == old(mem[..])
      ensures r != 0 ==> HasBytes(mem[..], r, old(mem[..]), ptr, oldSize)
      ensures r != 0 ==> b in blocks && PayloadsKept(old(mem[..]), mem[..], {b})
    {
      hide HeaderAt, PayloadsKept, Rep, Tiling, Inv, Live, Total, Malloc, FirstFit, HasBytes, Servable, Room, NewSize, Others, SameExcept, Copied;
      ghost var m, h0 := mem[..], View();
      r := Kmalloc(n);
      if r == 0 { return; }
      ghost var m1, h1 := mem[..], View();
      ghost var k := NewBlock(h0, n);
      RoomMeans(h0, n, blocks[k], oldSize);
      NotTaken(h0, n, b);
      OtherKept(m, m1, h0.blocks, FirstFit(h0.blocks, Total(n)), b);
      ViewBounds();
      InHeap(blocks[k]);
      CopiedIn(m, m1, h0.blocks, blocks, k, b, r, ptr, oldSize, start, end);
      MemoryCopy(mem, r, ptr, oldSize);
    }

    /** The block that kmalloc(n) would take, if any, does not contain q. */
    ghost predicate TakenElsewhere(n: U64, q: nat)
      reads this
    {
      var k := FirstFit(blocks, Total(n));
      k < |blocks| ==> !(blocks[k].addr <= q < blocks[k].End())
    }

    /** What krealloc reads at q: the header of live block b, or a stale header in free block b. */
    ghost predicate Describes(b: Block, q: nat)
      reads this, mem
    {
      && b in blocks && q + HEADER <= mem.Length
      && if b.used then q == b.addr && HeaderAt(mem[..], q).size == b.size else StaleIn(mem[..], b, q)
    }

    /** The copying half of krealloc: a new block, the old bytes, then the old block is freed. If the
        old pointer was freed before, that last step does nothing. */
    method Move(ptr: nat, n: U64, oldSize: nat, ghost b: Block) returns (r: nat)
      requires Valid() && Servable(View(), n) && HEADER <= ptr && Describes(b, ptr - HEADER)
      requires oldSize == StoredSize(mem[..], ptr) < n && Room(blocks, n, oldSize)
      requires b.used || TakenElsewhere(n, ptr - HEADER)
      modifies mem, `blocks, `used, `free, `allocations, `frees
      ensures Valid()
      ensures (View(), r) == if b.used then Realloc(old(View()), ptr, n) else Malloc(old(View()), n)
      ensures PayloadsKept(old(mem[..]), mem[..], Live(old(blocks)) * Live(blocks))
      ensures SameExcept(old(mem[..]), mem[..], start, end - start)
      ensures r == 0 ==> mem[..] == old(mem[..])
      ensures r != 0 ==> HasBytes(mem[..], r, old(mem[..]), ptr, oldSize)
    {
      hide HeaderAt, PayloadsKept, Rep, Tiling, Inv, Live, Total, Malloc, Free, LiveIndex, StaleKept, Stale, StaleIn, HasBytes, Except, Servable, Room, NewSize, FirstFit, SameExcept, Realloc, StoredSize;
      ghost var m, h0, q := mem[..], View(), ptr - HEADER;
      InHeap(b);
      DescribedRange(b, ptr);
      if b.used { ReallocMoves(h0, ptr, n, b); }
      NotFirstFit(blocks, Total(n), b, q);
      r := CopyToNew(ptr, n, oldSize, b);
      PayloadsPart(m, mem[..], Live(h0.blocks), Live(blocks));
      if r == 0 { return; }
      ghost var m2, h1 := mem[..], View();
      ViewBounds();
      ghost var k := NewBlock(h0, n);
      if b.used {
        OldStaysLive(h0, h1, ptr, b, blocks[k]);
        LiveLooksValid(ptr);
        FreeLive(h1, ptr);
      } else {
        StaleSurvives(m, m2, h0.blocks, blocks, b, q);
        StaleWitness(m2, blocks, b, q);
        StaleFreeIsNoOp(ptr);
      }
      Kfree(ptr);
      SameTrans(m, m2, mem[..], start, end - start);
      if b.used {
        RoomMeans(h0, n, h1.blocks[k], oldSize);
        MovedKept(m, m2, mem[..], h0.blocks, h1.blocks, blocks, h1.blocks[k], ptr, oldSize);
      }
    }

    /** krealloc. NULL allocates, size 0 frees, a size that fits keeps the block, and otherwise the
        old bytes move to a new block; on failure the old block stays as it was. A pointer that was
        already freed is not noticed: if the new size fits the stale header's size it is returned as
        if it were live, and otherwise the call is a kmalloc followed by the copy. */
    method Krealloc(ptr: nat, n: U64) returns (r: nat)
      requires Valid() && Servable(View(), n) && (ptr != 0 ==> HEADER <= ptr <= mem.Length)
      requires ptr != 0 && LooksValid(ptr - HEADER) ==>
                 || LiveIndex(blocks, ptr) < |blocks|
                 || (&& Stale(mem[..], blocks, ptr - HEADER)
                     && (n <= StoredSize(mem[..], ptr) || TakenElsewhere(n, ptr - HEADER)))
      requires ptr != 0 && LooksValid(ptr - HEADER) && StoredSize(mem[..], ptr) < n
               ==> Room(blocks, n, StoredSize(mem[..], ptr))
      modifies mem, `blocks, `used, `free, `allocations, `frees
      ensures Valid()
      ensures (View(), r) == Reallocated(old(View()), old(mem[..]), ptr, n)
      ensures ptr == 0 ==> (View(), r) == Malloc(old(View()), n)
      ensures ptr != 0 && n == 0 ==> View() == Free(old(View()), ptr) && r == 0
      ensures PayloadsKept(old(mem[..]), mem[..], Live(old(blocks)) * Live(blocks))
      ensures SameExcept(old(mem[..]), mem[..], start, end - start)
      ensures ptr != 0 && 0 < n <= StoredSize(old(mem[..]), ptr) ==> mem[..] == old(mem[..])
      ensures (ptr == 0 || n != 0) && r == 0 ==> mem[..] == old(mem[..])
      ensures ptr != 0 && n == 0 ==> StaleKept(old(mem[..]), old(blocks), mem[..], blocks)
      ensures ptr != 0 && n == 0 && LiveIndex(old(blocks), ptr) < |old(blocks)| ==> Stale(mem[..], blocks, ptr - HEADER)
      ensures ptr != 0 && StoredSize(old(mem[..]), ptr) < n && r != 0
              ==> HasBytes(mem[..], r, old(mem[..]), ptr, StoredSize(old(mem[..]), ptr))
    {
      hide HeaderAt, PayloadsKept, Rep, Tiling, Inv, Live, Total, LiveIndex, StaleKept, Stale, HasBytes, Malloc, Free, TakenElsewhere, Describes, Servable, Room;
      ghost var m, bs, k := mem[..], blocks, LiveIndex(blocks, ptr);
      ReallocCases(View(), ptr, n);
      KeptRefl(m, bs);
      SameRefl(m, start, end - start);
      LiveIndexFacts(bs, ptr);
      NullNotLive();
      if ptr == 0 {
        r := Kmalloc(n);
        PayloadsPart(m, mem[..], Live(bs), Live(blocks));
        return;
      }
      if Stale(m, bs, ptr - HEADER) { StaleFreeIsNoOp(ptr); }
      if n == 0 {
        Kfree(ptr);
        PayloadsPart(m, mem[..], Live(blocks), Live(bs));
        return 0;
      }
      PayloadsPart(m, m, Live(bs), Live(bs));
      if k < |bs| { LiveLooksValid(ptr); }
      var block := ptr - HEADER;
      var ok := IsValidBlock(block);
      if !ok { return 0; }
      ghost var b := DescribedBlock(ptr);
      var oldSize := HeaderAt(mem[..], block).size - HEADER;
      if n <= oldSize {
        if b.used { LiveFits(View(), ptr, n, b); }
        return ptr;
      }
      r := Move(ptr, n, oldSize, b);
    }

    /** The bytes behind the header that krealloc reads lie in the payload of the block. */
    lemma DescribedRange(b: Block, ptr: nat)
      requires Chained() && HEADER <= ptr && Describes(b, ptr - HEADER)
      ensures b.addr + HEADER <= ptr && ptr + StoredSize(mem[..], ptr) <= b.End() <= mem.Length
      ensures b.used ==> b.addr + HEADER == ptr && StoredSize(mem[..], ptr) == PayloadSize(b)
      ensures !b.used ==> StaleIn(mem[..], b, ptr - HEADER)
    {
      hide Chained, HeaderAt;
      InHeap(b);
    }

    /** The block that a live or stale pointer belongs to. */
    lemma DescribedBlock(ptr: nat) returns (b: Block)
      requires Valid() && HEADER <= ptr <= mem.Length
      requires LiveIndex(blocks, ptr) < |blocks| || Stale(mem[..], blocks, ptr - HEADER)
      ensures Describes(b, ptr - HEADER) && (b.used <==> LiveIndex(blocks, ptr) < |blocks|)
      ensures b.used ==> !Stale(mem[..], blocks, ptr - HEADER) && b == blocks[LiveIndex(blocks, ptr)]
      ensures HeaderAt(mem[..], ptr - HEADER).size >= HEADER
    {
      hide HeaderAt, Rep, Tiling, Inv, LiveIndex;
      LiveIndexFacts(blocks, ptr);
      if LiveIndex(blocks, ptr) < |blocks| {
        LiveLooksValid(ptr);
        b := blocks[LiveIndex(blocks, ptr)];
        InHeap(b);
        if Stale(mem[..], blocks, ptr - HEADER) { StaleFreeIsNoOp(ptr); }
      } else {
        StaleFreeIsNoOp(ptr);
        b :| b in blocks && StaleIn(mem[..], b, ptr - HEADER);
      }
    }

    /** When the pointer that krealloc returns is live: always, unless it is the old one, freed before
        and large enough. */
    lemma ReallocatedLive(ptr: nat, n: U64)
      requires Valid() && Servable(View(), n) && (ptr != 0 ==> HEADER <= ptr <= mem.Length)
      ensures var (h', r) := Reallocated(View(), mem[..], ptr, n);
              r != 0 ==>
                (IsLive(h', r) <==>
                 !(ptr != 0 && n != 0 && Stale(mem[..], blocks, ptr - HEADER) && n <= StoredSize(mem[..], ptr)))
    {
      hide HeaderAt, Chained, Inv, Servable, Malloc, Free, LiveIndex, Stale, StoredSize;
      var h := View();
      if Malloc(h, n).1 != 0 { NewIsLive(h, n); }
      if ptr != 0 && Stale(mem[..], blocks, ptr - HEADER) { StaleFreeIsNoOp(ptr); }
      LiveIndexFacts(blocks, ptr);
      if IsLive(h, ptr) && Malloc(h, n).1 != 0 {
        var k := NewBlock(h, n);
        var o := blocks[LiveIndex(blocks, ptr)];
        OldStaysLive(h, Malloc(h, n).0, ptr, o, Malloc(h, n).0.blocks[k]);
      }
    }

    /** Freeing a block and then reallocating it to no more than it held returns the pointer, which is
        not live: the next kmalloc may hand the same bytes out again. */
    method FreeThenRealloc(ptr: nat, n: U64) returns (r: nat)
      requires Valid() && LiveIndex(blocks, ptr) < |blocks| && 0 < n <= PayloadSize(blocks[LiveIndex(blocks, ptr)])
      modifies mem, `blocks, `used, `free, `allocations, `frees
      ensures Valid() && r == ptr && LiveIndex(blocks, r) == |blocks|
      ensures View() == Free(old(View()), ptr)
    {
      hide HeaderAt, Inv, Rep, Tiling, Malloc, Free, Stale, StaleKept, PayloadsKept, LiveIndex, Room, Servable;
      LiveLooksValid(ptr);
      SmallRequest(n, LiveIndex(blocks, ptr));
      Kfree(ptr);
      StaleFreeIsNoOp(ptr);
      AdmissibleServable(View(), n);
      r := Krealloc(ptr, n);
    }

    /** What fits in a block of the heap does not wrap when rounded. */
    lemma SmallRequest(n: U64, k: nat)
      requires Chained() && k < |blocks| && n <= PayloadSize(blocks[k])
      ensures Admissible(n)
    {
      hide Rep;
      BlockSize(k);
      InHeap(blocks[k]);
      RequestAdmissible(n);
    }

    /** The caller stores a byte in a live block. */
    method UserWrite(ptr: nat, offset: nat, value: U8, ghost stale: set<nat>)
      requires Valid() && LiveIndex(blocks, ptr) < |blocks| && offset < PayloadSize(blocks[LiveIndex(blocks, ptr)])
      requires AllStale(mem[..], blocks, stale)
      modifies mem
      ensures Valid() && AllStale(mem[..], blocks, stale)
      ensures ptr + offset < mem.Length && mem[..] == old(mem[..])[ptr + offset := value]
      ensures PayloadsKept(old(mem[..]), mem[..], Live(blocks) - {blocks[LiveIndex(blocks, ptr)]})
      ensures SameExcept(old(mem[..]), mem[..], start, end - start)
    {
      hide Rep, Tiling, Inv, PayloadsKept, AllStale, SameExcept, Others, Live, LiveIndex;
      ghost var m, k := mem[..], LiveIndex(blocks, ptr);
      LiveIndexFacts(blocks, ptr);
      ViewBounds();
      InHeap(blocks[k]);
      TilingBounds(blocks, start, end);
      mem[ptr + offset] := value;
      assert mem[..] == m[ptr + offset := value];
      ByteWritten(m, ptr + offset, value);
      PayloadWrite(m, mem[..], blocks, k, ptr + offset, 1, start, end);
      WriteInside(m, mem[..], ptr + offset, 1, start, end);
      WriteKeepsStale(m, mem[..], blocks, k, stale, end);
    }

    /** kmalloc and kcalloc as operations of a run. */
    method ServeAlloc(op: Op, ghost st: State)
      requires Valid() && View() == st.heap && AllStale(mem[..], blocks, st.stale) && OpLegal(st, op)
      requires op.Kmalloc? || op.Kcalloc?
      modifies mem, `blocks, `used, `free, `allocations, `frees
      ensures Valid() && View() == Step(st, op).heap && AllStale(mem[..], blocks, Step(st, op).stale)
      ensures PayloadsKept(old(mem[..]), mem[..], Spared(Live(old(blocks)), [op]))
      ensures SameExcept(old(mem[..]), mem[..], start, end - start)
    {
      hide Inv, Servable, Room, Malloc, PayloadsKept, AllStale, SameExcept, Live, Spared, Total, FirstFit, Others, Chained;
      ghost var m, bs := mem[..], blocks;
      SparedLive(st, op);
      NoneStale(m, bs);
      var ptr: nat;
      if op.Kmalloc? {
        ptr := Kmalloc(op.n);
      } else {
        ptr := Kcalloc(op.count, op.size);
      }
      MallocInv(st.heap, if op.Kmalloc? then op.n else Product(op.count, op.size));
      KeptSubset(m, mem[..], Live(bs), Spared(Live(bs), [op]));
      NoneStale(mem[..], blocks);
    }

    method ServeFree(ptr: nat, ghost st: State, ghost op: Op)
      requires Valid() && View() == st.heap && AllStale(mem[..], blocks, st.stale) && OpLegal(st, op)
      requires op == Op.Kfree(ptr)
      modifies mem, `blocks, `used, `free, `allocations, `frees
      ensures Valid() && View() == Step(st, op).heap && AllStale(mem[..], blocks, Step(st, op).stale)
      ensures PayloadsKept(old(mem[..]), mem[..], Spared(Live(old(blocks)), [op]))
      ensures SameExcept(old(mem[..]), mem[..], start, end - start)
    {
      hide Inv, Free, PayloadsKept, AllStale, SameExcept, Live, Spared, Chained, StaleKept, Stale, HeaderAt, LiveIndex;
      ghost var m, bs := mem[..], blocks;
      SparedLive(st, op);
      FreeReady(ptr, st.stale);
      Kfree(ptr);
      KeptSubset(m, mem[..], Live(blocks), Spared(Live(bs), [op]));
      AllStaleKept(m, bs, mem[..], blocks, st.stale);
      if IsLive(st.heap, ptr) { OneMoreStale(mem[..], blocks, st.stale, ptr); }
    }

    method ServeRealloc(ptr: nat, n: U64, ghost st: State, ghost op: Op)
      requires Valid() && View() == st.heap && AllStale(mem[..], blocks, st.stale) && OpLegal(st, op)
      requires op == Op.Krealloc(ptr, n)
      modifies mem, `blocks, `used, `free, `allocations, `frees
      ensures Valid() && View() == Step(st, op).heap && AllStale(mem[..], blocks, Step(st, op).stale)
      ensures PayloadsKept(old(mem[..]), mem[..], Spared(Live(old(blocks)), [op]))
      ensures SameExcept(old(mem[..]), mem[..], start, end - start)
    {
      hide Inv, Servable, Room, Malloc, Free, PayloadsKept, AllStale, SameExcept, Live, Spared, Chained, StaleKept, Stale, HeaderAt, LiveIndex, Realloc, Reallocated, StoredSize;
      ghost var m, bs := mem[..], blocks;
      SparedLive(st, op);
      NoneStale(m, bs);
      FreeReady(ptr, st.stale);
      ReallocReady(ptr, n, st.stale);
      NullNotLive();
      ghost var keeps := (ptr == 0 || n != 0) && (Malloc(st.heap, n).1 == 0
                          || (IsLive(st.heap, ptr) && n <= PayloadSize(bs[LiveIndex(bs, ptr)])));
      if keeps { ReallocKeeps(st.heap, ptr, n); }
      var r := Krealloc(ptr, n);
      KeptSubset(m, mem[..], Live(bs) * Live(blocks), Spared(Live(bs), [op]));
      NoneStale(mem[..], blocks);
      if ptr != 0 && n == 0 {
        AllStaleKept(m, bs, mem[..], blocks, st.stale);
        if IsLive(st.heap, ptr) { OneMoreStale(mem[..], blocks, st.stale, ptr); }
      }
    }

    method ServeWrite(ptr: nat, offset: nat, value: U8, ghost st: State, ghost op: Op)
      requires Valid() && View() == st.heap && AllStale(mem[..], blocks, st.stale) && OpLegal(st, op)
      requires op == Op.Write(ptr, offset, value)
      modifies mem, `blocks, `used, `free, `allocations, `frees
      ensures Valid() && View() == Step(st, op).heap && AllStale(mem[..], blocks, Step(st, op).stale)
      ensures PayloadsKept(old(mem[..]), mem[..], Spared(Live(old(blocks)), [op]))
      ensures SameExcept(old(mem[..]), mem[..], start, end - start)
    {
      hide Inv, PayloadsKept, AllStale, SameExcept, Live, Spared, Chained, LiveIndex;
      ghost var m, b := mem[..], blocks[LiveIndex(blocks, ptr)];
      LiveIndexFacts(blocks, ptr);
      SparedLive(st, op);
      UserWrite(ptr, offset, value, st.stale);
      KeptSubset(m, mem[..], Live(blocks) - {b}, Spared(Live(blocks), [op]));
    }

    /** One operation of a run, carried out on bytes. */
    method ServeOne(op: Op, ghost st: State)
      requires Valid() && View() == st.heap && AllStale(mem[..], blocks, st.stale) && OpLegal(st, op)
      modifies mem, `blocks, `used, `free, `allocations, `frees
      ensures Valid() && View() == Step(st, op).heap && AllStale(mem[..], blocks, Step(st, op).stale)
      ensures PayloadsKept(old(mem[..]), mem[..], Spared(Live(old(blocks)), [op]))
      ensures SameExcept(old(mem[..]), mem[..], start, end - start)
    {
      hide OpLegal, Step, PayloadsKept, AllStale, SameExcept, Live, Spared, Chained, Inv;
      match op {
        case Kmalloc(n) => ServeAlloc(op, st);
        case Kcalloc(count, size) => ServeAlloc(op, st);
        case Krealloc(ptr, n) => ServeRealloc(ptr, n, st, op);
        case Kfree(ptr) => ServeFree(ptr, st, op);
        case Write(ptr, offset, value) => ServeWrite(ptr, offset, value, st, op);
      }
    }

    /** A live pointer, or a stale one to be freed, may be passed to krealloc, which takes it for what
        it is. */
    lemma ReallocReady(ptr: nat, n: U64, stale: set<nat>)
      requires Valid() && AllStale(mem[..], blocks, stale) && Servable(View(), n)
      requires ptr == 0 || IsLive(View(), ptr) || (n == 0 && ptr in stale)
      ensures ptr != 0 ==> HEADER <= ptr <= mem.Length
      ensures Reallocated(View(), mem[..], ptr, n) == Realloc(View(), ptr, n)
      ensures ptr != 0 && n != 0 ==> StoredSize(mem[..], ptr) == PayloadSize(blocks[LiveIndex(blocks, ptr)])
      ensures ptr in stale && n == 0 && ptr != 0 ==> Stale(mem[..], blocks, ptr - HEADER)
      ensures ptr != 0 && IsLive(View(), ptr) && n != 0 ==> !Stale(mem[..], blocks, ptr - HEADER)
    {
      hide HeaderAt, Chained, Inv, LiveIndex, Stale, Malloc, Free, Servable, Realloc;
      FreeReady(ptr, stale);
      if IsLive(View(), ptr) {
        LiveLooksValid(ptr);
        if ptr != 0 && Stale(mem[..], blocks, ptr - HEADER) { StaleFreeIsNoOp(ptr); }
      }
    }

    /** A pointer that is NULL, live or stale may be passed to kfree. */
    lemma FreeReady(ptr: nat, stale: set<nat>)
      requires Valid() && AllStale(mem[..], blocks, stale) && (ptr == 0 || IsLive(View(), ptr) || ptr in stale)
      ensures ptr != 0 ==> HEADER <= ptr <= mem.Length
      ensures ptr != 0 && LooksValid(ptr - HEADER) && HeaderAt(mem[..], ptr - HEADER).inUse != 0 ==> IsLive(View(), ptr)
    {
      hide HeaderAt, Chained, Inv, LiveIndex, Stale;
      if IsLive(View(), ptr) {
        LiveLooksValid(ptr);
      } else if ptr != 0 {
        StaleFreeIsNoOp(ptr);
      }
    }

    /** Every legal run, carried out on bytes, is the run of the block-list model; and no byte changes
        in a live block that no operation of the run frees, reallocates or writes. */
    method Serve(ops: seq<Op>, ghost st: State)
      requires Valid() && View() == st.heap && AllStale(mem[..], blocks, st.stale) && Legal(st, ops)
      modifies mem, `blocks, `used, `free, `allocations, `frees
      ensures Valid() && View() == Run(st, ops).heap && AllStale(mem[..], blocks, Run(st, ops).stale)
      ensures PayloadsKept(old(mem[..]), mem[..], Spared(Live(old(blocks)), ops))
      ensures SameExcept(old(mem[..]), mem[..], start, end - start)
      decreases |ops|
    {
      hide Inv, OpLegal, Step, PayloadsKept, AllStale, SameExcept, Chained, Live, Spared;
      ghost var m, live := mem[..], Live(blocks);
      SameRefl(m, start, end - start);
      PayloadsRefl(m, Spared(live, ops));
      if ops == [] { return; }
      StepInv(st, ops[0]);
      ServeOne(ops[0], st);
      ghost var m1 := mem[..];
      SparedNext(st, ops);
      KeptSubset(m, m1, Spared(live, [ops[0]]), Spared(live, ops));
      Serve(ops[1..], Step(st, ops[0]));
      KeptSubset(m1, mem[..], Spared(Live(Step(st, ops[0]).heap.blocks), ops[1..]), Spared(live, ops));
      PayloadsTrans(m, m1, mem[..], Spared(live, ops));
      SameTrans(m, m1, mem[..], start, end - start);
    }

    lemma NullNotLive()
      requires Chained()
      ensures LiveIndex(blocks, 0) == |blocks|
    {
      LiveIndexFacts(blocks, 0);
    }

    lemma BlockSize(k: nat)
      requires Chained() && k < |blocks|
      ensures blocks[k].size >= HEADER
    {
      TilingBounds(blocks, start, end);
    }

    /** Block k's header, as the loops read it. */
    lemma Neighbours(k: nat)
      requires Chained() && k < |blocks|
      ensures blocks[k].addr + HEADER <= mem.Length
      ensures var h := HeaderAt(mem[..], blocks[k].addr);
              && h.next == Ptr(blocks, k + 1) && (h.next != 0 <==> k + 1 < |blocks|)
              && h.prev == (if k == 0 then 0 else blocks[k - 1].addr) && (h.prev != 0 <==> k > 0)
              && h.size == blocks[k].size && (h.inUse == 0 <==> !blocks[k].used) && h.magic == HEAP_MAGIC
              && start <= blocks[k].addr < end
    {
      hide Tiling, Rep, HeaderAt;
      BlockFacts(k);
      BlockFacts(k + 1);
      if k > 0 { BlockFacts(k - 1); }
    }
  }
}
