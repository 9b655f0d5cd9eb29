/** Every run of kmalloc, kcalloc, krealloc and kfree on the block list, with the callers' own writes in
    between (kernel/mm/heap.c). */
module HeapRuns {
  import opened Bits
  import opened HeapBlocks

  /** Index of the live block whose payload starts at ptr; |bs| if there is none. */
  function LiveIndex(bs: seq<Block>, ptr: nat): (k: nat)
    ensures k <= |bs|
    ensures k < |bs| ==> bs[k].used && bs[k].addr + HEADER == ptr
    ensures k == |bs| ==> forall b :: b in Live(bs) ==> b.addr + HEADER != ptr
    decreases |bs|
  {
    if bs == [] then 0
    else if bs[0].used && bs[0].addr + HEADER == ptr then 0
    else
      assert bs == [bs[0]] + bs[1..];
      1 + LiveIndex(bs[1..], ptr)
  }

  /** The request does not wrap into a total smaller than a header. */
  predicate Admissible(n: U64) {
    n == 0 || Total(n) >= HEADER
  }

  /** Requests that leave the block list intact: those that do not wrap that far, and those that do
      but find no block, or only one that is not split (see WrappedSplit). */
  predicate Servable(h: Heap, n: U64) {
    Admissible(n) || var k := FirstFit(h.blocks, Total(n)); k == |h.blocks| || Takeable(h.blocks[k], Total(n))
  }

  function Malloc(h: Heap, n: U64): (r: (Heap, nat))
    requires Inv(h) && Servable(h, n)
  {
    var k := FirstFit(h.blocks, Total(n));
    if n == 0 || k == |h.blocks| then (h, 0)
    else
      AllocateKeeps(h.blocks, k, Total(n), h.start, h.end);
      var bs := Allocate(h.blocks, k, Total(n));
      (h.(blocks := bs, used := h.used + bs[k].size, free := h.free - bs[k].size,
          allocations := Inc32(h.allocations)),
       bs[k].addr + HEADER)
  }

  function Free(h: Heap, ptr: nat): Heap
    requires Inv(h)
  {
    var k := LiveIndex(h.blocks, ptr);
    if k == |h.blocks| then h
    else
      ReleaseKeeps(h.blocks, k, h.start, h.end);
      h.(blocks := Release(h.blocks, k), used := h.used - h.blocks[k].size, free := h.free + h.blocks[k].size,
         frees := Inc32(h.frees))
  }

  predicate SameRange(h: Heap, h': Heap) {
    h'.start == h.start && h'.end == h.end
  }

  lemma MallocInv(h: Heap, n: U64)
    requires Inv(h) && Servable(h, n)
    ensures Inv(Malloc(h, n).0) && SameRange(h, Malloc(h, n).0)
    ensures var (h', p) := Malloc(h, n);
            p == 0 ==> h' == h
    ensures var (h', p) := Malloc(h, n);
            p != 0 ==> exists b :: b !in h.blocks && Live(h'.blocks) == Live(h.blocks) + {b}
                         && b.addr + HEADER == p && Total(n) <= b.size <= Total(n) + MIN_BLOCK
  {
    hide Tiling, Coalesced, UsedBytes, FreeBytes, UsedCount, Live, Allocate, Total, Balanced, Inc32;
    var k := FirstFit(h.blocks, Total(n));
    if n != 0 && k < |h.blocks| {
      AllocateKeeps(h.blocks, k, Total(n), h.start, h.end);
      BalancedUp(h.allocations, h.frees, UsedCount(h.blocks));
      var b := Allocate(h.blocks, k, Total(n))[k];
      assert b !in h.blocks;
    }
  }

  lemma FreeInv(h: Heap, ptr: nat)
    requires Inv(h)
    ensures Inv(Free(h, ptr)) && SameRange(h, Free(h, ptr))
    ensures var k := LiveIndex(h.blocks, ptr);
            if k == |h.blocks| then Free(h, ptr) == h
            else Live(Free(h, ptr).blocks) == Live(h.blocks) - {h.blocks[k]}
  {
    hide Tiling, Coalesced, UsedBytes, FreeBytes, UsedCount, Live, Release, Balanced, Inc32;
    var k := LiveIndex(h.blocks, ptr);
    if k < |h.blocks| {
      ReleaseKeeps(h.blocks, k, h.start, h.end);
      BalancedDown(h.allocations, h.frees, UsedCount(h.blocks));
    }
  }

  // ----- runs

  datatype Op =
    | Kmalloc(n: U64)
    | Kcalloc(count: U64, size: U64)
    | Krealloc(ptr: nat, n: U64)
    | Kfree(ptr: nat)
    /** The caller stores a byte at ptr[offset]. */
    | Write(ptr: nat, offset: nat, value: U8)

  function Realloc(h: Heap, ptr: nat, n: U64): (Heap, nat)
    requires Inv(h) && Servable(h, n)
  {
    var k := LiveIndex(h.blocks, ptr);
    if ptr == 0 then Malloc(h, n)
    else if n == 0 then (Free(h, ptr), 0)
    else if k == |h.blocks| then (h, 0)
    else if n <= h.blocks[k].size - HEADER then (h, ptr)
    else
      var (h1, p) := Malloc(h, n);
      MallocInv(h, n);
      if p == 0 then (h, 0) else (Free(h1, ptr), p)
  }

  /** The branches of krealloc: NULL allocates, size 0 frees, a pointer that is not live is refused, a
      size that fits keeps the block, and otherwise a new block replaces the old one. */
  lemma ReallocCases(h: Heap, ptr: nat, n: U64)
    requires Inv(h) && Servable(h, n)
    ensures Inv(Malloc(h, n).0)
    ensures ptr == 0 ==> Realloc(h, ptr, n) == Malloc(h, n)
    ensures ptr != 0 && n == 0 ==> Realloc(h, ptr, n) == (Free(h, ptr), 0)
    ensures ptr != 0 && n != 0 && !IsLive(h, ptr) ==> Realloc(h, ptr, n) == (h, 0)
    ensures ptr != 0 && n != 0 && IsLive(h, ptr) ==>
              Realloc(h, ptr, n) ==
              if n + 40 <= h.blocks[LiveIndex(h.blocks, ptr)].size then (h, ptr)
              else if Malloc(h, n).1 == 0 then (h, 0)
              else (Free(Malloc(h, n).0, ptr), Malloc(h, n).1)
  {
    hide Inv, Servable, Malloc, Free, LiveIndex;
    MallocInv(h, n);
  }

  /** `count * size` in 64-bit arithmetic. */
  function Product(count: U64, size: U64): U64 {
    Wrap(count * size)
  }

  predicate IsLive(h: Heap, ptr: nat) {
    LiveIndex(h.blocks, ptr) < |h.blocks|
  }

  /** The block that kmalloc(n) returns, if any, holds this many bytes behind its header. */
  predicate Room(bs: seq<Block>, n: U64, bytes: nat) {
    var k := FirstFit(bs, Total(n));
    k < |bs| ==> bytes + HEADER <= NewSize(bs[k], Total(n))
  }

  /** A request that does not wrap finds room for itself; one that does finds none in any block. */
  lemma RoomForRequest(bs: seq<Block>, n: U64)
    ensures Room(bs, n, n) <==> n <= MAX_REQUEST || FirstFit(bs, Total(n)) == |bs|
    ensures n <= MAX_REQUEST ==> forall bytes :: 0 <= bytes <= n ==> Room(bs, n, bytes)
  {
    hide Total, FirstFit;
    TotalCovers(n);
    FitsFacts(bs, Total(n));
  }

  lemma FitsFacts(bs: seq<Block>, n: nat)
    ensures var k := FirstFit(bs, n); k <= |bs| && (k < |bs| ==> Fits(bs[k], n))
  {
  }

  /** The heap, and the pointers freed since the last allocation: until space is allocated again their
      headers read as not allocated. */
  datatype State = State(heap: Heap, stale: set<nat>)

  /** What a caller may do. Requests leave the block list intact; kcalloc's fill and krealloc's copy
      stay inside the new block; pointers are NULL, live, or, to be freed, freed already; and bytes are
      written inside live blocks. */
  predicate OpLegal(st: State, op: Op) {
    var h := st.heap;
    match op
    case Kmalloc(n) => Servable(h, n)
    case Kcalloc(count, size) =>
      var n := Product(count, size);
      Servable(h, n) && Room(h.blocks, n, n)
    case Krealloc(ptr, n) =>
      && Servable(h, n)
      && (ptr == 0 || IsLive(h, ptr) || (n == 0 && ptr in st.stale))
      && (IsLive(h, ptr) && n > PayloadSize(h.blocks[LiveIndex(h.blocks, ptr)])
          ==> Room(h.blocks, n, PayloadSize(h.blocks[LiveIndex(h.blocks, ptr)])))
    case Kfree(ptr) => ptr == 0 || IsLive(h, ptr) || ptr in st.stale
    case Write(ptr, offset, _) => IsLive(h, ptr) && offset < PayloadSize(h.blocks[LiveIndex(h.blocks, ptr)])
  }

  /** What every caller may do in every state: ask for sizes that do not wrap, write, resize and free what
      is live, free NULL and free again what was just freed. */
  lemma LegalAlways(st: State, n: U64, count: U64, size: U64, ptr: nat, offset: nat, value: U8)
    requires n <= WORD - 48 && count * size <= WORD - 48
    ensures OpLegal(st, Kmalloc(n)) && OpLegal(st, Kcalloc(count, size))
    ensures OpLegal(st, Krealloc(0, n)) && OpLegal(st, Kfree(0))
    ensures IsLive(st.heap, ptr) ==> OpLegal(st, Krealloc(ptr, n)) && OpLegal(st, Kfree(ptr))
    ensures IsLive(st.heap, ptr) && offset + 40 < st.heap.blocks[LiveIndex(st.heap.blocks, ptr)].size ==>
              OpLegal(st, Write(ptr, offset, value))
    ensures ptr in st.stale ==> OpLegal(st, Kfree(ptr)) && OpLegal(st, Krealloc(ptr, 0))
  {
    hide Total, FirstFit, LiveIndex, NewSize;
    TotalCovers(n);
    TotalCovers(count * size);
    TotalCovers(0);
    WrapSmall(count * size);
    RoomForRequest(st.heap.blocks, n);
    RoomForRequest(st.heap.blocks, count * size);
    LiveNotNull(st.heap.blocks);
  }

  lemma LiveNotNull(bs: seq<Block>)
    ensures LiveIndex(bs, 0) == |bs|
  {
  }

  /** A series of requests that do not wrap is legal from every state. */
  lemma {:induction false} RequestsLegal(st: State, ops: seq<Op>)
    requires Inv(st.heap)
    requires forall op :: op in ops ==>
               (op.Kmalloc? && op.n <= WORD - 48) || (op.Kcalloc? && op.count * op.size <= WORD - 48)
    ensures Legal(st, ops)
    decreases |ops|
  {
    hide OpLegal, Step, Inv;
    if ops != [] {
      var op := ops[0];
      LegalAlways(st, if op.Kmalloc? then op.n else 0, if op.Kcalloc? then op.count else 0,
                  if op.Kcalloc? then op.size else 0, 0, 0, 0);
      StepInv(st, op);
      RequestsLegal(Step(st, op), ops[1..]);
    }
  }

  /** What the operation does to the block list. */
  function HeapStep(st: State, op: Op): Heap
    requires Inv(st.heap) && OpLegal(st, op)
  {
    match op
    case Kmalloc(n) => Malloc(st.heap, n).0
    case Kcalloc(count, size) => Malloc(st.heap, Product(count, size)).0
    case Krealloc(ptr, n) => Realloc(st.heap, ptr, n).0
    case Kfree(ptr) => Free(st.heap, ptr)
    case Write(_, _, _) => st.heap
  }

  /** Freed pointers that are still stale afterwards; a successful allocation may reuse any of them. */
  function StaleStep(st: State, op: Op): set<nat>
    requires Inv(st.heap) && OpLegal(st, op)
  {
    match op
    case Kmalloc(n) => if Malloc(st.heap, n).1 == 0 then st.stale else {}
    case Kcalloc(count, size) => if Malloc(st.heap, Product(count, size)).1 == 0 then st.stale else {}
    case Krealloc(ptr, n) =>
      if ptr != 0 && n == 0 then (if IsLive(st.heap, ptr) then st.stale + {ptr} else st.stale)
      else if Malloc(st.heap, n).1 == 0
              || (IsLive(st.heap, ptr) && n <= PayloadSize(st.heap.blocks[LiveIndex(st.heap.blocks, ptr)])) then st.stale
      else {}
    case Kfree(ptr) => if IsLive(st.heap, ptr) then st.stale + {ptr} else st.stale
    case Write(_, _, _) => st.stale
  }

  function Step(st: State, op: Op): State
    requires Inv(st.heap) && OpLegal(st, op)
  {
    State(HeapStep(st, op), StaleStep(st, op))
  }

  lemma StepInv(st: State, op: Op)
    requires Inv(st.heap) && OpLegal(st, op)
    ensures Inv(Step(st, op).heap) && SameRange(st.heap, Step(st, op).heap)
  {
    hide Inv, Servable, Room, Product, Malloc, Free, LiveIndex;
    var h := st.heap;
    match op
    case Kmalloc(n) => MallocInv(h, n);
    case Kcalloc(count, size) => MallocInv(h, Product(count, size));
    case Krealloc(ptr, n) =>
      MallocInv(h, n);
      FreeInv(h, ptr);
      FreeInv(Malloc(h, n).0, ptr);
    case Kfree(ptr) => FreeInv(h, ptr);
    case Write(_, _, _) =>
  }

  /** A request is servable exactly when it leaves the block list a tiling. */
  lemma ServableExact(h: Heap, n: U64)
    requires Inv(h) && n != 0
    ensures var k := FirstFit(h.blocks, Total(n));
            Servable(h, n) <==> k == |h.blocks| || Tiling(Allocate(h.blocks, k, Total(n)), h.start, h.end)
  {
    hide Tiling, Coalesced, UsedBytes, FreeBytes, UsedCount, Balanced, Total, Allocate, FirstFit;
    FitsFacts(h.blocks, Total(n));
    TotalCovers(n);
    var k := FirstFit(h.blocks, Total(n));
    if k < |h.blocks| {
      if Total(n) >= HEADER {
        AllocateKeeps(h.blocks, k, Total(n), h.start, h.end);
      } else {
        WrappedSplit(h.blocks, k, n, h.start, h.end);
      }
    }
  }

  /** Freeing a live pointer twice is legal, and the second time changes nothing. */
  lemma FreeTwice(st: State, ptr: nat)
    requires Inv(st.heap) && IsLive(st.heap, ptr)
    ensures OpLegal(st, Kfree(ptr)) && Inv(Step(st, Kfree(ptr)).heap)
    ensures OpLegal(Step(st, Kfree(ptr)), Kfree(ptr))
    ensures Step(Step(st, Kfree(ptr)), Kfree(ptr)) == Step(st, Kfree(ptr))
    ensures ptr != 0 ==> OpLegal(st, Krealloc(ptr, 0)) && Step(st, Krealloc(ptr, 0)) == Step(st, Kfree(ptr))
  {
    hide Inv, Free, LiveIndex;
    FreeInv(st.heap, ptr);
    FreeLive(st.heap, ptr);
    var h := Free(st.heap, ptr);
    FreeInv(h, ptr);
    IsLiveMeans(h, ptr);
    assert forall b :: b in h.blocks && b.used ==> b in Live(h.blocks);
  }

  /** A request that allocates nothing changes nothing: what could be freed twice still can. */
  lemma RefusedChangesNothing(st: State, op: Op)
    requires Inv(st.heap) && OpLegal(st, op)
    ensures op.Kmalloc? && Malloc(st.heap, op.n).1 == 0 ==> Step(st, op) == st
    ensures op.Kcalloc? && Malloc(st.heap, (op.count * op.size) % WORD).1 == 0 ==> Step(st, op) == st
    ensures op.Krealloc? && op.n != 0 && Realloc(st.heap, op.ptr, op.n).1 == 0 ==> Step(st, op) == st
    ensures op.Krealloc? && op.n != 0 && IsLive(st.heap, op.ptr) ==>
              (op.n + 40 <= st.heap.blocks[LiveIndex(st.heap.blocks, op.ptr)].size ==> Step(st, op) == st)
    ensures op.Write? ==> Step(st, op) == st
  {
    hide Inv, Servable, Malloc, LiveIndex, Free, Room;
    match op
    case Kmalloc(n) => MallocInv(st.heap, n);
    case Kcalloc(count, size) => MallocInv(st.heap, Product(count, size));
    case Krealloc(ptr, n) => MallocInv(st.heap, n);
    case _ =>
  }

  /** A live pointer is the payload address of a used block. */
  lemma IsLiveMeans(h: Heap, ptr: nat)
    ensures IsLive(h, ptr) <==> exists b :: b in h.blocks && b.used && b.addr + 40 == ptr
  {
    var k := LiveIndex(h.blocks, ptr);
    if k < |h.blocks| {
      assert h.blocks[k] in h.blocks;
    } else {
      forall b | b in h.blocks && b.used ensures b.addr + HEADER != ptr {
        assert b in Live(h.blocks);
      }
    }
  }

  /** Every operation of the run is legal when its turn comes. */
  predicate Legal(st: State, ops: seq<Op>)
    requires Inv(st.heap)
    decreases |ops|
  {
    ops == [] || (OpLegal(st, ops[0]) && (StepInv(st, ops[0]); Legal(Step(st, ops[0]), ops[1..])))
  }

  function Run(st: State, ops: seq<Op>): State
    requires Inv(st.heap) && Legal(st, ops)
    decreases |ops|
  {
    if ops == [] then st
    else
      StepInv(st, ops[0]);
      Run(Step(st, ops[0]), ops[1..])
  }

  /** Over every run the blocks tile the heap, free neighbours stay merged, the byte counters are
      the real sums and add up to the heap size, and the call counters balance. */
  lemma {:induction false} RunInv(st: State, ops: seq<Op>)
    requires Inv(st.heap) && Legal(st, ops)
    ensures var h' := Run(st, ops).heap;
            && Inv(h') && SameRange(st.heap, h')
            && h'.used + h'.free == st.heap.end - st.heap.start
    decreases |ops|
  {
    hide Step, OpLegal;
    if ops == [] {
      SumsTile(st.heap.blocks, st.heap.start, st.heap.end);
    } else {
      StepInv(st, ops[0]);
      RunInv(Step(st, ops[0]), ops[1..]);
    }
  }

  /** The operation releases block b (or may move it). */
  predicate Targets(op: Op, b: Block) {
    match op
    case Kfree(ptr) => ptr == b.addr + HEADER
    case Krealloc(ptr, _) => ptr == b.addr + HEADER
    case _ => false
  }

  lemma StepKeepsLive(st: State, op: Op, b: Block)
    requires Inv(st.heap) && OpLegal(st, op) && b in Live(st.heap.blocks) && !Targets(op, b)
    ensures b in Live(Step(st, op).heap.blocks)
  {
    hide Inv, Servable, Room, Product, Live, Malloc, Free;
    var h := st.heap;
    match op
    case Kmalloc(n) => MallocInv(h, n);
    case Kcalloc(count, size) => MallocInv(h, Product(count, size));
    case Krealloc(ptr, n) =>
      MallocInv(h, n);
      FreeInv(h, ptr);
      FreeInv(Malloc(h, n).0, ptr);
    case Kfree(ptr) => FreeInv(h, ptr);
    case Write(_, _, _) =>
  }

  /** Over every run a live block keeps its place and size until it is freed or reallocated. */
  lemma {:induction false} RunKeepsLive(st: State, ops: seq<Op>, b: Block)
    requires Inv(st.heap) && Legal(st, ops) && (forall op :: op in ops ==> !Targets(op, b))
    requires b in Live(st.heap.blocks)
    ensures b in Live(Run(st, ops).heap.blocks)
    decreases |ops|
  {
    hide Step, OpLegal, Inv, Live, Targets;
    if ops != [] {
      StepInv(st, ops[0]);
      StepKeepsLive(st, ops[0], b);
      RunKeepsLive(Step(st, ops[0]), ops[1..], b);
    }
  }

  /** The operation may change bytes of block b. */
  predicate Touches(op: Op, b: Block) {
    Targets(op, b) || (op.Write? && op.ptr == b.addr + HEADER)
  }

  /** The live blocks that no operation of a run touches. */
  function Spared(live: set<Block>, ops: seq<Op>): set<Block> {
    set b | b in live && forall op :: op in ops ==> !Touches(op, b)
  }

  /** Which blocks a run spares: those that none of its kfree, krealloc and write operations names. */
  lemma SparedMeans(live: set<Block>, ops: seq<Op>, b: Block)
    ensures b in Spared(live, ops) <==>
            b in live && forall op :: op in ops && (op.Kfree? || op.Krealloc? || op.Write?) ==> op.ptr != b.addr + 40
    ensures forall op :: Targets(op, b) <==> (op.Kfree? || op.Krealloc?) && op.ptr == b.addr + 40
  {
  }

  /** The invariant in terms of neighbours: blocks follow each other from start to end, each has room for
      its header, no two neighbours are free, and the byte counters add up to the heap. */
  lemma InvMeans(h: Heap, i: nat)
    requires Inv(h)
    ensures h.blocks != [] && h.blocks[0].addr == h.start && h.blocks[|h.blocks| - 1].End() == h.end
    ensures i < |h.blocks| ==> h.blocks[i].size >= 40
    ensures i + 1 < |h.blocks| ==>
              h.blocks[i + 1].addr == h.blocks[i].addr + h.blocks[i].size && (h.blocks[i].used || h.blocks[i + 1].used)
    ensures h.used + h.free == h.end - h.start
    ensures (h.allocations - h.frees - |Live(h.blocks)|) % 0x1_0000_0000 == 0
  {
    hide Coalesced;
    CountLive(h.blocks, h.start, h.end);
    SumsTile(h.blocks, h.start, h.end);
    TilingBounds(h.blocks, h.start, h.end);
    LastEnds(h.blocks, h.start, h.end);
    if i < |h.blocks| { assert h.blocks[i] in h.blocks; }
    if i + 1 < |h.blocks| {
      IndexOrder(h.blocks, h.start, h.end, i, i + 1);
      CoalescedAt(h.blocks, i);
    }
  }

  lemma {:induction false} CountLive(bs: seq<Block>, start: nat, end: nat)
    requires Tiling(bs, start, end)
    ensures UsedCount(bs) == |Live(bs)|
    decreases |bs|
  {
    if bs != [] {
      CountLive(bs[1..], bs[0].End(), end);
      TailLive(bs, start, end);
      assert bs[0].used <==> bs[0] in Live(bs);
    }
  }

  lemma {:induction false} LastEnds(bs: seq<Block>, start: nat, end: nat)
    requires Tiling(bs, start, end) && bs != []
    ensures bs[|bs| - 1].End() == end
    decreases |bs|
  {
    if |bs| > 1 { LastEnds(bs[1..], bs[0].End(), end); }
  }

  // ----- consequences of the unique layout

  /** Heaps over the same range with the same live blocks are laid out the same. */
  lemma SameLiveSameHeap(h: Heap, h': Heap)
    requires Inv(h) && Inv(h') && h.start == h'.start && h.end == h'.end
    requires Live(h.blocks) == Live(h'.blocks)
    ensures h.blocks == h'.blocks && h.used == h'.used && h.free == h'.free
  {
    LayoutUnique(h.blocks, h'.blocks, h.start, h.end);
  }

  lemma MallocFreeLive(h: Heap, n: U64)
    requires Inv(h) && Servable(h, n) && Malloc(h, n).1 != 0
    ensures Inv(Malloc(h, n).0) && Live(Free(Malloc(h, n).0, Malloc(h, n).1).blocks) == Live(h.blocks)
    ensures LiveIndex(Malloc(h, n).0.blocks, Malloc(h, n).1) < |Malloc(h, n).0.blocks|
  {
    hide Malloc, Free, LiveIndex, Tiling, Coalesced, Total, Balanced;
    MallocInv(h, n);
    var (h1, p) := Malloc(h, n);
    var b :| b !in h.blocks && Live(h1.blocks) == Live(h.blocks) + {b} && b.addr + HEADER == p;
    FreeInv(h1, p);
    assert b in Live(h1.blocks);
    var k := LiveIndex(h1.blocks, p);
    SameAddressSameBlock(h1.blocks, h1.start, h1.end, h1.blocks[k], b);
  }

  /** Freeing what was just allocated restores the block list and the byte counters. */
  lemma MallocThenFree(h: Heap, n: U64)
    requires Inv(h) && Servable(h, n)
    ensures Inv(Malloc(h, n).0)
    ensures var (h1, p) := Malloc(h, n);
            p != 0 ==>
              Free(h1, p) == h.(allocations := Inc32(h.allocations), frees := Inc32(h.frees))
  {
    hide Inc32, Balanced, Total, Tiling, Coalesced, Live, Allocate, Release;
    MallocInv(h, n);
    var (h1, p) := Malloc(h, n);
    if p != 0 {
      FreeInv(h1, p);
      MallocFreeLive(h, n);
      SameLiveSameHeap(h, Free(h1, p));
    }
  }

  /** The live blocks other than the one whose payload starts at ptr. */
  function Except(live: set<Block>, ptr: nat): set<Block> {
    set b | b in live && b.addr + HEADER != ptr
  }

  lemma FreeLive(h: Heap, ptr: nat)
    requires Inv(h)
    ensures Live(Free(h, ptr).blocks) == Except(Live(h.blocks), ptr)
    ensures Free(h, ptr).frees == if Except(Live(h.blocks), ptr) == Live(h.blocks) then h.frees else Inc32(h.frees)
    ensures Free(h, ptr).allocations == h.allocations
  {
    hide Inc32, Balanced, Tiling, Coalesced, Release;
    FreeInv(h, ptr);
    var k := LiveIndex(h.blocks, ptr);
    if k < |h.blocks| {
      var b := h.blocks[k];
      assert b in Live(h.blocks);
      forall x | x in Live(h.blocks) && x.addr + HEADER == ptr ensures x == b {
        SameAddressSameBlock(h.blocks, h.start, h.end, x, b);
      }
    }
  }

  /** The order in which two blocks are freed does not matter. */
  lemma FreesCommute(h: Heap, p: nat, q: nat)
    requires Inv(h)
    ensures Inv(Free(h, p)) && Inv(Free(h, q))
    ensures Free(Free(h, p), q) == Free(Free(h, q), p)
  {
    hide Inc32, Balanced, Tiling, Coalesced, Release, Live, LiveIndex;
    FreeInv(h, p);
    FreeInv(h, q);
    var hp, hq := Free(h, p), Free(h, q);
    FreeInv(hp, q);
    FreeInv(hq, p);
    FreeLive(h, p);
    FreeLive(h, q);
    FreeLive(hp, q);
    FreeLive(hq, p);
    ExceptCommutes(Live(h.blocks), p, q);
    SameLiveSameHeap(Free(hp, q), Free(hq, p));
  }

  lemma ExceptCommutes(s: set<Block>, p: nat, q: nat)
    ensures Except(Except(s, p), q) == Except(Except(s, q), p)
    ensures p != q ==> (Except(Except(s, p), q) == Except(s, p) <==> Except(s, q) == s)
  {
    forall b | p != q && b in s && b.addr + HEADER == q ensures b in Except(s, p) && b !in Except(Except(s, p), q) {
    }
  }

  /** A heap with no live block is one free block. */
  lemma NothingLive(h: Heap)
    requires Inv(h) && Live(h.blocks) == {}
    ensures h.blocks == [Block(h.start, h.end - h.start, false)]
  {
    var one := [Block(h.start, h.end - h.start, false)];
    TilingBounds(h.blocks, h.start, h.end);
    assert h.blocks != [];
    assert h.blocks[0] in h.blocks;
    LayoutUnique(h.blocks, one, h.start, h.end);
  }

  // ----- alignment

  predicate Multiple8(b: Block) {
    b.addr % 8 == 0 && b.size % 8 == 0
  }

  predicate Aligned(bs: seq<Block>) {
    forall b :: b in bs ==> Multiple8(b)
  }

  lemma JoinedMultiple(b: Block, c: Block, used: bool)
    requires Multiple8(b) && Multiple8(c)
    ensures Multiple8(Block(b.addr, b.size + c.size, used))
  {
  }

  lemma {:induction false} AbsorbNextAligned(b: Block, c: seq<Block>)
    requires Multiple8(b) && Aligned(c)
    ensures var (b1, c1) := AbsorbNext(b, c);
            Multiple8(b1) && Aligned(c1)
    decreases |c|
  {
    hide Multiple8;
    if c != [] && !c[0].used {
      assert c[0] in c;
      JoinedMultiple(b, c[0], b.used);
      AbsorbNextAligned(Block(b.addr, b.size + c[0].size, b.used), c[1..]);
    }
  }

  lemma {:induction false} AbsorbPrevAligned(a: seq<Block>, b: Block)
    requires Aligned(a) && Multiple8(b)
    ensures var (a1, b1) := AbsorbPrev(a, b);
            Aligned(a1) && Multiple8(b1)
    decreases |a|
  {
    hide Multiple8;
    if a != [] && !a[|a| - 1].used {
      var l := a[|a| - 1];
      assert l in a;
      JoinedMultiple(l, b, false);
      AbsorbPrevAligned(a[..|a| - 1], Block(l.addr, l.size + b.size, false));
    }
  }

  lemma MallocAligned(h: Heap, n: U64)
    requires Inv(h) && Servable(h, n) && Aligned(h.blocks)
    ensures Aligned(Malloc(h, n).0.blocks)
  {
    hide Inv, Total, Multiple8, Taken;
    TotalCovers(n);
    var t, k := Total(n), FirstFit(h.blocks, Total(n));
    if n != 0 && k < |h.blocks| {
      assert h.blocks[k] in h.blocks;
      TakenAligned(h.blocks[k], t);
      AlignedParts(h.blocks, k, Taken(h.blocks[k], t));
    }
  }

  lemma TakenAligned(b: Block, n: nat)
    requires b.size >= n && n % 16 == 8 && Multiple8(b)
    ensures Aligned(Taken(b, n))
  {
    Remainders8(n, b.addr, b.size);
  }

  lemma Remainders8(n: nat, addr: nat, size: nat)
    requires n % 16 == 8 && addr % 8 == 0 && size % 8 == 0 && n <= size
    ensures n % 8 == 0 && (addr + n) % 8 == 0 && (size - n) % 8 == 0
  {
    var t := 2 * (n / 16) + 1;
    assert n == 8 * t;
    DivModUnique(n, 8, t, 0);
    DivModUnique(addr + n, 8, addr / 8 + t, 0);
    DivModUnique(size - n, 8, size / 8 - t, 0);
  }

  lemma AlignedParts(bs: seq<Block>, k: nat, mid: seq<Block>)
    requires k < |bs| && Aligned(bs) && Aligned(mid)
    ensures Aligned(bs[..k] + mid + bs[k + 1..])
  {
    hide Multiple8;
  }

  lemma FreeAligned(h: Heap, ptr: nat)
    requires Inv(h) && Aligned(h.blocks)
    ensures Aligned(Free(h, ptr).blocks)
  {
    hide Inv, AbsorbNext, AbsorbPrev, Multiple8;
    var k := LiveIndex(h.blocks, ptr);
    if k < |h.blocks| {
      var b := h.blocks[k];
      assert b in h.blocks;
      FreedMultiple(b);
      AbsorbNextAligned(Block(b.addr, b.size, false), h.blocks[k + 1..]);
      var (b1, c1) := AbsorbNext(Block(b.addr, b.size, false), h.blocks[k + 1..]);
      AbsorbPrevAligned(h.blocks[..k], b1);
    }
  }

  lemma FreedMultiple(b: Block)
    requires Multiple8(b)
    ensures Multiple8(Block(b.addr, b.size, false))
  {
  }

  lemma StepAligned(st: State, op: Op)
    requires Inv(st.heap) && OpLegal(st, op) && Aligned(st.heap.blocks)
    ensures Aligned(Step(st, op).heap.blocks)
  {
    hide Inv, Servable, Room, Product, Malloc, Free, Aligned;
    var h := st.heap;
    match op
    case Kmalloc(n) => MallocAligned(h, n);
    case Kcalloc(count, size) => MallocAligned(h, Product(count, size));
    case Krealloc(ptr, n) =>
      MallocInv(h, n);
      MallocAligned(h, n);
      FreeAligned(h, ptr);
      FreeAligned(Malloc(h, n).0, ptr);
    case Kfree(ptr) => FreeAligned(h, ptr);
    case Write(_, _, _) =>
  }

  /** Over every run payloads are 8-aligned. */
  lemma {:induction false} RunAligned(st: State, ops: seq<Op>)
    requires Inv(st.heap) && Aligned(st.heap.blocks) && Legal(st, ops)
    ensures forall b :: b in Live(Run(st, ops).heap.blocks) ==> (b.addr + HEADER) % 8 == 0
    decreases |ops|
  {
    hide Step, OpLegal, Inv;
    if ops == [] {
      forall b | b in Live(st.heap.blocks) ensures (b.addr + HEADER) % 8 == 0 {
        assert Multiple8(b);
      }
    } else {
      StepInv(st, ops[0]);
      StepAligned(st, ops[0]);
      RunAligned(Step(st, ops[0]), ops[1..]);
    }
  }

  /** From a fresh heap at an 8-aligned address every run keeps payloads 8-aligned. */
  lemma FreshRunAligned(start: nat, size: nat, stale: set<nat>, ops: seq<Op>)
    requires var h := Heap(start, start + size, [Block(start, size, false)], 0, size, 0, 0);
             start % 8 == 0 && size % 8 == 0 && Inv(h) && Legal(State(h, stale), ops)
    ensures var h := Heap(start, start + size, [Block(start, size, false)], 0, size, 0, 0);
            forall b :: b in Live(Run(State(h, stale), ops).heap.blocks) ==> (b.addr + 40) % 8 == 0
  {
    hide Inv, Legal, Run;
    var h := Heap(start, start + size, [Block(start, size, false)], 0, size, 0, 0);
    RunAligned(State(h, stale), ops);
  }

  /** Where the new payload comes from. */
  lemma MallocPointer(h: Heap, n: U64)
    requires Inv(h) && Servable(h, n) && Malloc(h, n).1 != 0
    ensures var k := FirstFit(h.blocks, Total(n));
            k < |h.blocks| && Malloc(h, n).1 == h.blocks[k].addr + HEADER
  {
    hide Inv, Total;
  }

  /** A new payload is 16-aligned, as the rounding to HEAP_ALIGNMENT suggests, exactly when the block
      it is taken from stands at an odd multiple of 8. */
  lemma PayloadAligned(h: Heap, n: U64)
    requires Inv(h) && Servable(h, n) && Malloc(h, n).1 != 0
    ensures var k := FirstFit(h.blocks, Total(n));
            k < |h.blocks| && (Malloc(h, n).1 % 16 == 0 <==> h.blocks[k].addr % 16 == 8)
  {
    hide Inv, Malloc, Total, FirstFit, Admissible;
    MallocPointer(h, n);
    HeaderShifts(h.blocks[FirstFit(h.blocks, Total(n))].addr);
  }

  lemma HeaderShifts(a: nat)
    ensures (a + HEADER) % 16 == 0 <==> a % 16 == 8
  {
  }

  /** The pointers that a series of kmalloc calls returns. */
  function Pointers(h: Heap, ns: seq<U64>): (ps: seq<nat>)
    requires Inv(h) && forall n :: n in ns ==> Admissible(n)
    ensures |ps| == |ns|
    decreases |ns|
  {
    if ns == [] then []
    else
      MallocInv(h, ns[0]);
      [Malloc(h, ns[0]).1] + Pointers(Malloc(h, ns[0]).0, ns[1..])
  }

  /** Nothing but the last block can be free, as in a heap where nothing has been freed. */
  predicate OnlyLastFree(bs: seq<Block>) {
    bs != [] && forall i :: 0 <= i < |bs| - 1 ==> bs[i].used
  }

  /** In such a heap a block is taken from the last one, and what remains stands 8 bytes further
      modulo 16. */
  lemma TakesFromLast(h: Heap, n: U64)
    requires Inv(h) && Admissible(n) && OnlyLastFree(h.blocks) && Malloc(h, n).1 != 0
    ensures Malloc(h, n).1 == h.blocks[|h.blocks| - 1].addr + HEADER
    ensures var bs := Malloc(h, n).0.blocks;
            && OnlyLastFree(bs)
            && (!bs[|bs| - 1].used ==> bs[|bs| - 1].addr % 16 == (h.blocks[|h.blocks| - 1].addr + 8) % 16)
  {
    hide Inv, Total;
    TotalCovers(n);
    var bs, k := h.blocks, FirstFit(h.blocks, Total(n));
    assert k == |bs| - 1;
    assert Allocate(bs, k, Total(n)) == bs[..k] + Taken(bs[k], Total(n));
  }

  /** A series of allocations that all succeed, with nothing freed, alternates between the two
      residues of 8 modulo 16. */
  lemma {:induction false} PointersAlternate(h: Heap, ns: seq<U64>, i: nat)
    requires Inv(h) && OnlyLastFree(h.blocks) && forall n :: n in ns ==> Admissible(n)
    requires i < |ns| && forall j :: 0 <= j <= i ==> Pointers(h, ns)[j] != 0
    ensures Pointers(h, ns)[i] % 16 == (h.blocks[|h.blocks| - 1].addr + HEADER + 8 * i) % 16
    decreases |ns|
  {
    hide Inv, Malloc, Admissible;
    MallocInv(h, ns[0]);
    assert Pointers(h, ns)[0] == Malloc(h, ns[0]).1;
    TakesFromLast(h, ns[0]);
    if i > 0 {
      var h1 := Malloc(h, ns[0]).0;
      var ps := Pointers(h1, ns[1..]);
      assert forall j :: 0 <= j <= i - 1 ==> ps[j] == Pointers(h, ns)[j + 1];
      PointersAlternate(h1, ns[1..], i - 1);
      assert ps[0] == Malloc(h1, ns[1]).1;
      LastIsFree(h1, ns[1]);
      Shift8(h1.blocks[|h1.blocks| - 1].addr, h.blocks[|h.blocks| - 1].addr, i);
    }
  }

  lemma Shift8(a: nat, b: nat, i: nat)
    requires i > 0 && a % 16 == (b + 8) % 16
    ensures (a + HEADER + 8 * (i - 1)) % 16 == (b + HEADER + 8 * i) % 16
  {
    var c, q := HEADER + 8 * (i - 1), (b + 8) / 16 - a / 16;
    assert b + HEADER + 8 * i == (a + c) + 16 * q;
    SameRemainder(a + c, q);
  }

  lemma SameRemainder(x: nat, q: int)
    requires x + 16 * q >= 0
    ensures (x + 16 * q) % 16 == x % 16
  {
    DivModUnique(x + 16 * q, 16, x / 16 + q, x % 16);
  }

  lemma LastIsFree(h: Heap, n: U64)
    requires Inv(h) && Admissible(n) && OnlyLastFree(h.blocks) && Malloc(h, n).1 != 0
    ensures !h.blocks[|h.blocks| - 1].used
  {
    hide Inv, Total;
    assert FirstFit(h.blocks, Total(n)) == |h.blocks| - 1;
  }

  /** In a fresh heap at a 16-aligned address the first allocation, and every second one after it,
      is not 16-aligned. */
  lemma FreshHeapMisaligns(start: nat, size: nat, ns: seq<U64>, i: nat)
    requires var h := Heap(start, start + size, [Block(start, size, false)], 0, size, 0, 0);
             && start % 16 == 0 && Inv(h) && (forall n :: n in ns ==> Admissible(n))
             && i < |ns| && forall j :: 0 <= j <= i ==> Pointers(h, ns)[j] != 0
    ensures var h := Heap(start, start + size, [Block(start, size, false)], 0, size, 0, 0);
            Pointers(h, ns)[i] % 16 == if i % 2 == 0 then 8 else 0
  {
    hide Inv, Pointers, Admissible;
    var h := Heap(start, start + size, [Block(start, size, false)], 0, size, 0, 0);
    PointersAlternate(h, ns, i);
    EveryOther(start, i);
  }

  lemma EveryOther(start: nat, i: nat)
    requires start % 16 == 0
    ensures (start + HEADER + 8 * i) % 16 == if i % 2 == 0 then 8 else 0
  {
    var q := start / 16 + 2 + i / 2 + i % 2;
    DivModUnique(start + HEADER + 8 * i, 16, q, if i % 2 == 0 then 8 else 0);
  }

  // ----- when kmalloc fails

  predicate InFree(bs: seq<Block>, x: nat, i: nat) {
    i < |bs| && !bs[i].used && bs[i].addr <= x < bs[i].End()
  }

  ghost predicate FreeByte(bs: seq<Block>, x: nat) {
    exists i: nat :: InFree(bs, x, i)
  }

  /** The n bytes from p on all lie in free blocks. */
  ghost predicate FreeSpan(bs: seq<Block>, p: nat, n: nat) {
    forall x: nat :: p <= x < p + n ==> FreeByte(bs, x)
  }

  lemma {:induction false} IndexOrder(bs: seq<Block>, start: nat, end: nat, i: nat, j: nat)
    requires Tiling(bs, start, end) && i < j < |bs|
    ensures bs[i].End() <= bs[j].addr
    ensures j == i + 1 ==> bs[i].End() == bs[j].addr
    decreases |bs|
  {
    if i == 0 {
      TilingBounds(bs[1..], bs[0].End(), end);
      assert bs[j] == bs[1..][j - 1];
    } else {
      IndexOrder(bs[1..], bs[0].End(), end, i - 1, j - 1);
    }
  }

  /** Distinct blocks, headers and payloads together, share no byte. */
  lemma BlocksDisjoint(h: Heap, x: Block, y: Block)
    requires Inv(h) && x in h.blocks && y in h.blocks && x != y
    ensures x.End() <= y.addr || y.End() <= x.addr
  {
    var i :| 0 <= i < |h.blocks| && h.blocks[i] == x;
    var j :| 0 <= j < |h.blocks| && h.blocks[j] == y;
    if i < j { IndexOrder(h.blocks, h.start, h.end, i, j); } else { IndexOrder(h.blocks, h.start, h.end, j, i); }
  }

  lemma {:induction false} CoalescedAt(bs: seq<Block>, i: nat)
    requires Coalesced(bs) && i + 1 < |bs|
    ensures bs[i].used || bs[i + 1].used
    decreases |bs|
  {
    if i > 0 { CoalescedAt(bs[1..], i - 1); }
  }

  /** A span of free bytes that starts in block i stays in block i. */
  lemma {:induction false} SpanInBlock(bs: seq<Block>, start: nat, end: nat, p: nat, n: nat, i: nat)
    requires Tiling(bs, start, end) && Coalesced(bs)
    requires n > 0 && FreeSpan(bs, p, n) && InFree(bs, p, i)
    ensures p + n <= bs[i].End()
    decreases n
  {
    if n > 1 {
      SpanInBlock(bs, start, end, p, n - 1, i);
      assert FreeByte(bs, p + n - 1);
      var j: nat :| InFree(bs, p + n - 1, j);
      if j < i {
        IndexOrder(bs, start, end, j, i);
      } else if j > i {
        IndexOrder(bs, start, end, i, j);
        if j > i + 1 {
          IndexOrder(bs, start, end, i, i + 1);
          IndexOrder(bs, start, end, i + 1, j);
          TilingBounds(bs, start, end);
        } else {
          CoalescedAt(bs, i);
        }
      }
    }
  }

  /** kmalloc returns NULL exactly when no contiguous span of free bytes holds the rounded request
      and its header, however that span is spread over blocks. */
  lemma FailsIffNoSpan(h: Heap, n: U64)
    requires Inv(h) && n != 0 && Servable(h, n)
    ensures Malloc(h, n).1 == 0 <==> !exists p: nat :: FreeSpan(h.blocks, p, Total(n))
  {
    var bs, t := h.blocks, Total(n);
    TotalCovers(n);
    var k := FirstFit(bs, t);
    if k < |bs| {
      forall x: nat | bs[k].addr <= x < bs[k].addr + t ensures FreeByte(bs, x) {
        assert InFree(bs, x, k);
      }
      assert FreeSpan(bs, bs[k].addr, t);
    } else {
      forall p: nat | FreeSpan(bs, p, t) ensures false {
        assert FreeByte(bs, p);
        var i: nat :| InFree(bs, p, i);
        SpanInBlock(bs, h.start, h.end, p, t, i);
      }
    }
  }

  /** krealloc of NULL fails exactly like kmalloc: when no free span holds the request. */
  lemma NullReallocFails(h: Heap, n: U64)
    requires Inv(h) && n != 0 && Servable(h, n)
    ensures Realloc(h, 0, n).1 == 0 <==> !exists p: nat :: FreeSpan(h.blocks, p, Total(n))
    ensures Realloc(h, 0, n) == Malloc(h, n)
  {
    hide Inv, Malloc, Servable, FreeSpan, Total;
    FailsIffNoSpan(h, n);
    ReallocCases(h, 0, n);
  }
}
