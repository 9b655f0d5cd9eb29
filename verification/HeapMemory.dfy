/** Heap block headers as bytes in memory (kernel/mm/heap.c, struct heap_block), and how a block
    list is represented by them. */
module HeapMemory {
  import opened Bits
  import opened Memory
  import opened HeapBlocks

  const HEAP_MAGIC: U32 := 0xDEAD_BEEF

  /** The five fields, at offsets 0, 8, 16, 24 and 32 of the 40 header bytes. */
  datatype Header = Header(size: U64, inUse: U32, next: U64, prev: U64, magic: U32)

  function HeaderAt(m: Bytes, a: nat): Header
    requires a + HEADER <= |m|
  {
    Header(Load64(m, a), Load32(m, a + 8), Load64(m, a + 16), Load64(m, a + 24), Load32(m, a + 32))
  }

  lemma HeaderFrame(m: Bytes, m': Bytes, a: nat)
    requires a + HEADER <= |m| && Same(m, m', a, a + HEADER)
    ensures HeaderAt(m', a) == HeaderAt(m, a)
  {
    LoadFrame(m, m', a);
    LoadFrame(m, m', a + 8);
    LoadFrame(m, m', a + 16);
    LoadFrame(m, m', a + 24);
    LoadFrame(m, m', a + 32);
  }

  method SetSize(mem: array<U8>, a: nat, v: U64)
    requires a + HEADER <= mem.Length
    modifies mem
    ensures HeaderAt(mem[..], a) == HeaderAt(old(mem[..]), a).(size := v)
    ensures SameExcept(old(mem[..]), mem[..], a, HEADER)
  {
    hide Load64, Load32;
    Store64(mem, a, v);
    LoadFrame(old(mem[..]), mem[..], a + 8);
    LoadFrame(old(mem[..]), mem[..], a + 16);
    LoadFrame(old(mem[..]), mem[..], a + 24);
    LoadFrame(old(mem[..]), mem[..], a + 32);
  }

  method SetAllocated(mem: array<U8>, a: nat, v: U32)
    requires a + HEADER <= mem.Length
    modifies mem
    ensures HeaderAt(mem[..], a) == HeaderAt(old(mem[..]), a).(inUse := v)
    ensures SameExcept(old(mem[..]), mem[..], a, HEADER)
  {
    hide Load64, Load32;
    Store32(mem, a + 8, v);
    LoadFrame(old(mem[..]), mem[..], a);
    LoadFrame(old(mem[..]), mem[..], a + 16);
    LoadFrame(old(mem[..]), mem[..], a + 24);
    LoadFrame(old(mem[..]), mem[..], a + 32);
  }

  method SetNext(mem: array<U8>, a: nat, v: U64)
    requires a + HEADER <= mem.Length
    modifies mem
    ensures HeaderAt(mem[..], a) == HeaderAt(old(mem[..]), a).(next := v)
    ensures SameExcept(old(mem[..]), mem[..], a, HEADER)
  {
    hide Load64, Load32;
    Store64(mem, a + 16, v);
    LoadFrame(old(mem[..]), mem[..], a);
    LoadFrame(old(mem[..]), mem[..], a + 8);
    LoadFrame(old(mem[..]), mem[..], a + 24);
    LoadFrame(old(mem[..]), mem[..], a + 32);
  }

  method SetPrev(mem: array<U8>, a: nat, v: U64)
    requires a + HEADER <= mem.Length
    modifies mem
    ensures HeaderAt(mem[..], a) == HeaderAt(old(mem[..]), a).(prev := v)
    ensures SameExcept(old(mem[..]), mem[..], a, HEADER)
  {
    hide Load64, Load32;
    Store64(mem, a + 24, v);
    LoadFrame(old(mem[..]), mem[..], a);
    LoadFrame(old(mem[..]), mem[..], a + 8);
    LoadFrame(old(mem[..]), mem[..], a + 16);
    LoadFrame(old(mem[..]), mem[..], a + 32);
  }

  method SetMagic(mem: array<U8>, a: nat, v: U32)
    requires a + HEADER <= mem.Length
    modifies mem
    ensures HeaderAt(mem[..], a) == HeaderAt(old(mem[..]), a).(magic := v)
    ensures SameExcept(old(mem[..]), mem[..], a, HEADER)
  {
    hide Load64, Load32;
    Store32(mem, a + 32, v);
    LoadFrame(old(mem[..]), mem[..], a);
    LoadFrame(old(mem[..]), mem[..], a + 8);
    LoadFrame(old(mem[..]), mem[..], a + 16);
    LoadFrame(old(mem[..]), mem[..], a + 24);
  }

  // ----- representation of a block list

  /** The header of block b with the given neighbours. */
  predicate IsHeader(h: Header, b: Block, next: nat, prev: nat) {
    && h.size == b.size
    && h.inUse == (if b.used then 1 else 0)
    && h.next == next && h.prev == prev
    && h.magic == HEAP_MAGIC
  }

  /** The headers of bs are in memory, linked both ways; prev and next are what lies outside. */
  ghost predicate Rep(m: Bytes, bs: seq<Block>, prev: nat, next: nat)
    decreases |bs|
  {
    bs == [] ||
    (&& bs[0].addr + HEADER <= |m|
     && IsHeader(HeaderAt(m, bs[0].addr), bs[0], First(bs[1..], next), prev)
     && Rep(m, bs[1..], bs[0].addr, next))
  }

  lemma {:induction false} RepJoin(m: Bytes, a: seq<Block>, b: seq<Block>, prev: nat, next: nat)
    ensures Rep(m, a + b, prev, next) <==> Rep(m, a, prev, First(b, next)) && Rep(m, b, Last(a, prev), next)
    decreases |a|
  {
    if a == [] {
      assert a + b == b;
    } else {
      assert (a + b)[1..] == a[1..] + b;
      RepJoin(m, a[1..], b, a[0].addr, next);
      assert First(a[1..] + b, next) == First(a[1..], First(b, next));
      assert Last(a[1..], a[0].addr) == Last(a, prev);
    }
  }

  lemma {:induction false} RepFrame(m: Bytes, m': Bytes, bs: seq<Block>, prev: nat, next: nat, start: nat, end: nat)
    requires Rep(m, bs, prev, next) && Tiling(bs, start, end) && Same(m, m', start, end)
    ensures Rep(m', bs, prev, next)
    decreases |bs|
  {
    if bs != [] {
      TilingBounds(bs, start, end);
      HeaderFrame(m, m', bs[0].addr);
      RepFrame(m, m', bs[1..], bs[0].addr, next, bs[0].End(), end);
    }
  }

  /** Address of block i; NULL past the end. */
  function Ptr(bs: seq<Block>, i: nat): nat {
    if i < |bs| then bs[i].addr else 0
  }

  /** Reading the header of block i. */
  lemma RepAt(m: Bytes, bs: seq<Block>, i: nat)
    requires Rep(m, bs, 0, 0) && i < |bs|
    ensures bs[i].addr + HEADER <= |m|
    ensures IsHeader(HeaderAt(m, bs[i].addr), bs[i], Ptr(bs, i + 1), if i == 0 then 0 else bs[i - 1].addr)
  {
    hide IsHeader;
    var a, c := bs[..i], bs[i..];
    assert bs == a + c;
    RepJoin(m, a, c, 0, 0);
  }

  // ----- changing part of the list

  /** m' differs from m at most on [lo, hi) and in the header at `after` (NULL for none). */
  ghost predicate Patched(m: Bytes, m': Bytes, lo: nat, hi: nat, after: nat) {
    && |m| == |m'|
    && forall i :: 0 <= i < |m| && !(lo <= i < hi) && !(after != 0 && after <= i < after + HEADER) ==> m'[i] == m[i]
  }

  lemma PatchedInside(m: Bytes, m': Bytes, lo: nat, hi: nat, after: nat, start: nat, end: nat)
    requires Patched(m, m', lo, hi, after) && start <= lo && hi <= end
    requires after != 0 ==> start <= after && after + HEADER <= end
    ensures SameExcept(m, m', start, end - start)
  {
  }

  lemma WriteInside(m: Bytes, m': Bytes, a: nat, n: nat, start: nat, end: nat)
    requires SameExcept(m, m', a, n) && start <= a && a + n <= end
    ensures SameExcept(m, m', start, end - start)
  {
  }

  /** Replacing a stretch of blocks by another over the same bytes, and pointing the following
      header back at it, represents the changed list. */
  lemma Relink(m: Bytes, m': Bytes, a: seq<Block>, mid: seq<Block>, mid': seq<Block>, c: seq<Block>, start: nat, end: nat)
    requires mid != [] && mid' != [] && mid[0].addr == mid'[0].addr && 0 < start && end <= |m|
    requires Tiling(a + mid + c, start, end) && Rep(m, a + mid + c, 0, 0)
    requires Patched(m, m', mid[0].addr, First(c, end), First(c, 0))
    requires Rep(m', mid', Last(a, 0), First(c, 0))
    requires c != [] ==> Rep(m', [c[0]], Last(mid', 0), First(c[1..], 0))
    ensures Rep(m', a + mid' + c, 0, 0)
  {
    hide HeaderAt;
    var lo := mid[0].addr;
    Parts(a, mid, c, start, end);
    TilingBounds(a, start, lo);
    TilingBounds(mid, lo, First(c, end));
    RepJoin(m, a + mid, c, 0, 0);
    RepJoin(m, a, mid, 0, First(c, 0));
    RepFrame(m, m', a, 0, lo, start, lo);
    assert Last(a + mid, 0) == Last(mid, 0) && Last(a + mid', 0) == Last(mid', 0);
    if c != [] {
      TilingBounds(c, c[0].addr, end);
      RepFrame(m, m', c[1..], c[0].addr, 0, c[0].End(), end);
    }
    RepJoin(m', a, mid', 0, First(c, 0));
    RepJoin(m', a + mid', c, 0, 0);
  }

  /** Every payload byte of the given blocks is the same in m and m'. */
  ghost predicate PayloadsKept(m: Bytes, m': Bytes, live: set<Block>) {
    |m| == |m'| &&
    forall b, x :: b in live && b.addr + HEADER <= x < b.End() && 0 <= x < |m| ==> m'[x] == m[x]
  }

  function Blocks(bs: seq<Block>): set<Block> {
    set b | b in bs
  }

  /** All blocks but block k. */
  function Others(bs: seq<Block>, k: nat): set<Block>
    requires k < |bs|
  {
    Blocks(bs[..k]) + Blocks(bs[k + 1..])
  }

  lemma KeptSubset(m: Bytes, m': Bytes, big: set<Block>, small: set<Block>)
    requires PayloadsKept(m, m', big) && small <= big
    ensures PayloadsKept(m, m', small)
  {
  }

  /** A patch around block b, which is free or whose own payload is kept, keeps all live payloads. */
  lemma KeptLive(m: Bytes, m': Bytes, a: seq<Block>, mid: seq<Block>, c: seq<Block>)
    requires PayloadsKept(m, m', Blocks(a) + Blocks(c)) && PayloadsKept(m, m', Live(mid))
    ensures PayloadsKept(m, m', Live(a + mid + c))
  {
    forall b | b in Live(a + mid + c) ensures b in Blocks(a) + Blocks(c) || b in Live(mid) {
    }
  }

  lemma PatchedPayloads(m: Bytes, m': Bytes, a: seq<Block>, mid: seq<Block>, c: seq<Block>, start: nat, end: nat)
    requires mid != [] && 0 < start && end <= |m|
    requires Tiling(a + mid + c, start, end)
    requires Patched(m, m', mid[0].addr, First(c, end), First(c, 0))
    ensures PayloadsKept(m, m', Blocks(a) + Blocks(c))
  {
    Parts(a, mid, c, start, end);
    TilingBounds(a, start, mid[0].addr);
    TilingBounds(mid, mid[0].addr, First(c, end));
    TilingBounds(c, First(c, end), end);
    if c != [] { TilingBounds(c[1..], c[0].End(), end); }
    forall b, x | b in Blocks(a) + Blocks(c) && b.addr + HEADER <= x < b.End() && 0 <= x < |m|
      ensures m'[x] == m[x]
    {
      if b in c && b != c[0] {
        assert c == [c[0]] + c[1..];
        assert b in c[1..];
      }
    }
  }

  /** Writing one header leaves another, at least a header away, alone. */
  lemma HeaderApart(m: Bytes, m': Bytes, a: nat, b: nat)
    requires SameExcept(m, m', a, HEADER) && b + HEADER <= |m|
    requires b + HEADER <= a || a + HEADER <= b
    ensures HeaderAt(m', b) == HeaderAt(m, b)
  {
    HeaderFrame(m, m', b);
  }

  /** The header of the block after a stretch, before and after its prev link is redirected. */
  lemma RepSingle(m: Bytes, b: Block, prev: nat, next: nat)
    requires b.addr + HEADER <= |m|
    ensures Rep(m, [b], prev, next) <==> IsHeader(HeaderAt(m, b.addr), b, next, prev)
  {
  }

  // ----- headers left behind in free space

  /** q is the header of free block b, or the place of a header that b swallowed: its allocated field
      still reads 0, its magic number is intact, and the block it describes lies within b. */
  predicate StaleIn(m: Bytes, b: Block, q: nat) {
    && !b.used && (q == b.addr || b.addr + HEADER <= q)
    && q + HEADER <= b.End() && q + HEADER <= |m|
    && StaleHeader(HeaderAt(m, q), b.End() - q)
  }

  predicate StaleHeader(h: Header, room: nat) {
    h.inUse == 0 && h.magic == HEAP_MAGIC && HEADER <= h.size <= room
  }

  ghost predicate Stale(m: Bytes, bs: seq<Block>, q: nat) {
    exists b :: b in bs && StaleIn(m, b, q)
  }

  /** Stale headers stay stale, and what they describe does not shrink. */
  ghost predicate StaleKept(m: Bytes, bs: seq<Block>, m': Bytes, bs': seq<Block>) {
    forall q: nat :: Stale(m, bs, q) ==> StillStale(m, m', bs', q)
  }

  ghost predicate StillStale(m: Bytes, m': Bytes, bs': seq<Block>, q: nat) {
    && Stale(m', bs', q) && q + HEADER <= |m| && q + HEADER <= |m'|
    && HeaderAt(m, q).size <= HeaderAt(m', q).size
  }
}
