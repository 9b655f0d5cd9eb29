/** Physical page allocator (kernel/mm/pmm.c). The page bitmap lives at address 0x100000 of the
    same memory whose pages it describes, and allocated pages are cleared in that memory. */
module Pmm {
  import opened Bits
  import opened Memory
  import opened PageRuns

  const BITMAP: nat := 0x10_0000
  const MEMORY_TYPE_AVAILABLE: nat := 1
  const MAX_REGIONS: nat := 32

  datatype Region = Region(start: U64, end: U64, size: U64, kind: nat)

  // ----- the bitmap

  /** Bit p % 8 of bitmap byte p / 8 is clear. */
  predicate PageFree(m: Bytes, p: nat) {
    BITMAP + p / 8 < |m| && !Bit(m[BITMAP + p / 8], p % 8)
  }

  function FreeSet(m: Bytes, total: nat): set<nat> {
    set p: nat | p < total && PageFree(m, p)
  }

  function BitmapBytes(total: nat): nat {
    (total + 7) / 8
  }

  lemma BitOfByte(j: nat)
    requires j < 8
    ensures 0 < Pow2(j) < 0x100
  {
    Pow2Byte();
    Pow2Monotone(j, 7);
  }

  /** `page_bitmap[p / 8] |= 1 << p % 8` */
  function SetUsed(m: Bytes, p: nat): (r: Bytes)
    requires BITMAP + p / 8 < |m|
    ensures |r| == |m|
  {
    var b := m[BITMAP + p / 8];
    BitOfByte(p % 8);
    Pow2Byte();
    OrBound(b, Pow2(p % 8), 8);
    m[BITMAP + p / 8 := Or(b, Pow2(p % 8))]
  }

  /** `page_bitmap[p / 8] &= ~(1 << p % 8)` */
  function SetFree(m: Bytes, p: nat): (r: Bytes)
    requires BITMAP + p / 8 < |m|
    ensures |r| == |m|
  {
    var b := m[BITMAP + p / 8];
    BitOfByte(p % 8);
    AndAtMost(b, 0xFF - Pow2(p % 8));
    m[BITMAP + p / 8 := And(b, 0xFF - Pow2(p % 8))]
  }

  lemma SetUsedFreeSet(m: Bytes, p: nat, total: nat)
    requires BITMAP + p / 8 < |m|
    ensures FreeSet(SetUsed(m, p), total) == FreeSet(m, total) - {p}
    ensures p < total ==> PaddingKept(m, SetUsed(m, p), total)
  {
    hide Or, Pow2, Bit;
    var m' := SetUsed(m, p);
    forall q: nat ensures PageFree(m', q) == (PageFree(m, q) && q != p) {
      if q / 8 == p / 8 {
        BitOfOr(m[BITMAP + p / 8], Pow2(p % 8), q % 8);
        BitOfPow2(p % 8, q % 8);
      }
    }
  }

  lemma SetFreeFreeSet(m: Bytes, p: nat, total: nat)
    requires BITMAP + p / 8 < |m| && p < total
    ensures FreeSet(SetFree(m, p), total) == FreeSet(m, total) + {p}
    ensures PaddingKept(m, SetFree(m, p), total)
  {
    hide And, Pow2, Bit;
    var m' := SetFree(m, p);
    forall q: nat ensures PageFree(m', q) == (PageFree(m, q) || q == p) {
      if q / 8 == p / 8 {
        var c := p % 8;
        BitOfByte(c);
        Pow2Byte();
        BitOfAnd(m[BITMAP + p / 8], 0xFF - Pow2(c), q % 8);
        BitOfComplement(Pow2(c), 8, q % 8);
        BitOfPow2(c, q % 8);
      }
    }
  }

  /** The test `page_bitmap[p / 8] & (1 << p % 8)`. */
  lemma TestPage(m: Bytes, p: nat, total: nat)
    requires p < total && BITMAP + p / 8 < |m|
    ensures And(m[BITMAP + p / 8], Pow2(p % 8)) == 0 <==> p in FreeSet(m, total)
  {
    TestBit(m[BITMAP + p / 8], p % 8);
  }

  lemma FreeByte(m: Bytes, p: nat, total: nat)
    requires p in FreeSet(m, total)
    ensures BITMAP + p / 8 < |m|
  {
  }

  lemma FreeBelow(m: Bytes, total: nat)
    ensures forall p :: p in FreeSet(m, total) ==> p < total
  {
  }

  /** Pages whose bitmap bit is stored in bytes [a, a + n). */
  function Described(a: nat, n: nat, total: nat): set<nat> {
    set p: nat | p < total && InRun(BITMAP + p / 8, a, n)
  }

  /** Clearing memory frees exactly the pages whose bits it clears, on top of those already free. */
  lemma ClearedFreeSet(m: Bytes, a: nat, n: nat, total: nat)
    requires a + n <= |m|
    ensures FreeSet(Filled(m, a, 0, n), total) == FreeSet(m, total) + Described(a, n, total)
  {
    var m' := Filled(m, a, 0, n);
    forall q: nat ensures PageFree(m', q) == (PageFree(m, q) || InRun(BITMAP + q / 8, a, n)) {
      BitOfZero(q % 8);
    }
  }

  lemma AllOnesFreeSet(m: Bytes, total: nat)
    requires BITMAP + BitmapBytes(total) <= |m|
    ensures FreeSet(Filled(m, BITMAP, 0xFF, BitmapBytes(total)), total) == {}
  {
    var m' := Filled(m, BITMAP, 0xFF, BitmapBytes(total));
    forall q: nat | q < total ensures !PageFree(m', q) {
      Pow2Byte();
      BitOfComplement(0, 8, q % 8);
      BitOfZero(q % 8);
    }
  }

  lemma FreeSetFrame(m: Bytes, m': Bytes, total: nat)
    requires Same(m, m', BITMAP, BITMAP + BitmapBytes(total))
    ensures FreeSet(m', total) == FreeSet(m, total)
  {
    assert forall q: nat :: q < total ==> PageFree(m', q) == PageFree(m, q);
  }

  /** The bits of the last bitmap byte that belong to no page are the same. */
  ghost predicate PaddingKept(m: Bytes, m': Bytes, total: nat) {
    forall q: nat :: total <= q < 8 * BitmapBytes(total) ==> PageFree(m', q) == PageFree(m, q)
  }

  lemma PaddingFrame(m: Bytes, m': Bytes, total: nat)
    requires Same(m, m', BITMAP, BITMAP + BitmapBytes(total))
    ensures PaddingKept(m, m', total)
  {
  }

  lemma PaddingRefl(m: Bytes, total: nat)
    ensures PaddingKept(m, m, total)
  {
  }

  lemma PaddingTrans(m: Bytes, m1: Bytes, m2: Bytes, total: nat)
    requires PaddingKept(m, m1, total) && PaddingKept(m1, m2, total)
    ensures PaddingKept(m, m2, total)
  {
  }

  lemma {:induction false} SameBits(x: nat, y: nat, n: nat)
    requires x < Pow2(n) && y < Pow2(n) && forall j: nat :: j < n ==> Bit(x, j) == Bit(y, j)
    ensures x == y
  {
    if n > 0 {
      assert Bit(x, 0) == Bit(y, 0);
      forall j: nat | j < n - 1 ensures Bit(x / 2, j) == Bit(y / 2, j) {
        assert Bit(x, j + 1) == Bit(y, j + 1);
      }
      SameBits(x / 2, y / 2, n - 1);
    }
  }

  /** The free set and the padding determine every byte of the bitmap. */
  lemma BitmapDetermined(m: Bytes, m': Bytes, total: nat)
    requires |m'| == |m| && BITMAP + BitmapBytes(total) <= |m|
    requires FreeSet(m', total) == FreeSet(m, total) && PaddingKept(m, m', total)
    ensures Same(m, m', BITMAP, BITMAP + BitmapBytes(total))
  {
    hide Bit, Pow2;
    forall i: nat | BITMAP <= i < BITMAP + BitmapBytes(total) ensures m'[i] == m[i] {
      forall j: nat | j < 8 ensures Bit(m'[i], j) == Bit(m[i], j) {
        var q := 8 * (i - BITMAP) + j;
        assert q / 8 == i - BITMAP && q % 8 == j;
        assert PageFree(m', q) == PageFree(m, q) by {
          if q < total { assert q in FreeSet(m, total) <==> PageFree(m, q); }
        }
      }
      Pow2Byte();
      SameBits(m[i], m'[i], 8);
    }
  }

  // ----- boot memory map

  predicate InRegion(r: Region, p: nat) {
    r.kind == MEMORY_TYPE_AVAILABLE && r.start / PAGE <= p < r.start / PAGE + r.size / PAGE
  }

  predicate Listed(rs: seq<Region>, p: nat) {
    exists i :: 0 <= i < |rs| && InRegion(rs[i], p)
  }

  /** Sum of the available sizes, in 64-bit arithmetic. */
  function TotalMemory(rs: seq<Region>): U64 {
    if rs == [] then 0
    else
      var r := rs[|rs| - 1];
      (TotalMemory(rs[..|rs| - 1]) + if r.kind == MEMORY_TYPE_AVAILABLE then r.size else 0) % WORD
  }

  /** A region that is not available counts for nothing. */
  lemma {:induction false} UnavailableIgnored(a: seq<Region>, r: Region, b: seq<Region>)
    requires r.kind != 1
    ensures TotalMemory(a + [r] + b) == TotalMemory(a + b)
    decreases |b|
  {
    hide TotalMemory;
    TotalMemoryEnd(a + [r] + b);
    TotalMemoryEnd(a + b);
    if b == [] {
      assert a + b == a && (a + [r] + b)[..|a|] == a;
      WrapSmall(TotalMemory(a));
    } else {
      var n := |b| - 1;
      UnavailableIgnored(a, r, b[..n]);
      assert (a + [r] + b)[..|a| + 1 + n] == a + [r] + b[..n];
      assert (a + b)[..|a| + n] == a + b[..n];
    }
  }

  /** The pages of the available regions. */
  function PagesIn(rs: seq<Region>): set<nat> {
    if rs == [] then {}
    else
      var r := rs[|rs| - 1];
      PagesIn(rs[..|rs| - 1]) + PagesOf(r)
  }

  lemma {:induction false} PagesInMeans(rs: seq<Region>, p: nat)
    ensures p in PagesIn(rs) <==> Listed(rs, p)
  {
    if rs != [] {
      var n := |rs| - 1;
      PagesInMeans(rs[..n], p);
      ListedNext(rs, n);
      assert rs[..n + 1] == rs;
    }
  }

  /** No two available regions share a page. */
  ghost predicate Apart(rs: seq<Region>) {
    forall i, j, p: nat :: 0 <= i < j < |rs| && InRegion(rs[i], p) ==> !InRegion(rs[j], p)
  }

  /** Over regions of whole pages that share none, the sum of sizes is the number of listed pages, in
      bytes and in 64-bit arithmetic. */
  lemma {:induction false} PagesCounted(rs: seq<Region>, pages: set<nat>)
    requires Apart(rs) && forall i :: 0 <= i < |rs| && rs[i].kind == 1 ==> rs[i].size % 0x1000 == 0
    requires forall p: nat :: p in pages <==> Listed(rs, p)
    ensures TotalMemory(rs) == (0x1000 * |pages|) % WORD
    decreases |rs|
  {
    hide Listed, InRegion, TotalMemory, Apart, PagesIn;
    SamePages(rs, pages);
    TotalMemoryEnd(rs);
    if rs == [] {
      NoPages();
    } else {
      var n := |rs| - 1;
      PagesAreListed(rs[..n]);
      ApartRest(rs, n);
      PagesCounted(rs[..n], PagesIn(rs[..n]));
      OneMoreRegion(PagesIn(rs[..n]), rs[n]);
      PagesInEnd(rs);
    }
  }

  lemma SamePages(rs: seq<Region>, pages: set<nat>)
    requires forall p: nat :: p in pages <==> Listed(rs, p)
    ensures pages == PagesIn(rs)
  {
    hide Listed, PagesIn;
    PagesAreListed(rs);
  }

  lemma PagesAreListed(rs: seq<Region>)
    ensures forall p: nat :: p in PagesIn(rs) <==> Listed(rs, p)
  {
    hide Listed, PagesIn;
    forall p: nat ensures p in PagesIn(rs) <==> Listed(rs, p) {
      PagesInMeans(rs, p);
    }
  }

  lemma NoPages()
    ensures PagesIn([]) == {}
  {
  }

  function PagesOf(r: Region): set<nat> {
    if r.kind == 1 then Run(r.start / 0x1000, r.size / 0x1000) else {}
  }

  lemma PagesInEnd(rs: seq<Region>)
    requires rs != []
    ensures PagesIn(rs) == PagesIn(rs[..|rs| - 1]) + PagesOf(rs[|rs| - 1])
  {
  }

  lemma OneMoreRegion(rest: set<nat>, r: Region)
    requires rest !! PagesOf(r) && (r.kind == 1 ==> r.size % 0x1000 == 0)
    ensures ((0x1000 * |rest|) % WORD + if r.kind == 1 then r.size else 0) % WORD == (0x1000 * |rest + PagesOf(r)|) % WORD
  {
    DisjointSize(rest, PagesOf(r));
    if r.kind == 1 {
      RunSize(r.start / 0x1000, r.size / 0x1000);
      assert r.size == 0x1000 * |PagesOf(r)|;
    }
    AddWrapped(0x1000 * |rest|, 0x1000 * |PagesOf(r)|);
  }

  lemma TotalMemoryEnd(rs: seq<Region>)
    ensures TotalMemory([]) == 0
    ensures rs != [] ==> var n := |rs| - 1;
              TotalMemory(rs) == (TotalMemory(rs[..n]) + if rs[n].kind == 1 then rs[n].size else 0) % WORD
  {
  }

  lemma ApartRest(rs: seq<Region>, n: nat)
    requires Apart(rs) && n == |rs| - 1
    ensures Apart(rs[..n])
    ensures PagesIn(rs[..n]) !! PagesOf(rs[n])
  {
    forall p | p in PagesIn(rs[..n]) ensures p !in PagesOf(rs[n]) {
      PagesInMeans(rs[..n], p);
      var i :| 0 <= i < n && InRegion(rs[..n][i], p);
      assert InRegion(rs[i], p);
    }
  }

  lemma DisjointSize(a: set<nat>, b: set<nat>)
    requires a !! b
    ensures |a + b| == |a| + |b|
  {
  }

  lemma AddWrapped(x: nat, y: nat)
    ensures (x % WORD + y) % WORD == (x + y) % WORD
  {
    var q := x / WORD;
    var z := x % WORD + y;
    assert x + y == WORD * q + z;
    DivModUnique(x + y, WORD, q + z / WORD, z % WORD);
  }

  /** What pmm_init computes from the map, spelled out: at most 32 regions count, and the managed pages
      are those of the available ones below the page count. */
  lemma MapMeans(rs: seq<Region>)
    ensures Kept(rs) == if |rs| > 32 then rs[..32] else rs
    ensures TotalPages(rs) == TotalMemory(Kept(rs)) / 0x1000
    ensures forall p :: p in AvailablePages(rs) <==>
              && 0 <= p < TotalPages(rs)
              && exists i :: 0 <= i < |rs| && i < 32 && rs[i].kind == 1
                             && rs[i].start / 0x1000 <= p < rs[i].start / 0x1000 + rs[i].size / 0x1000
  {
    hide TotalMemory;
    var ks := Kept(rs);
    forall p: nat
      ensures Listed(ks, p) <==> exists i :: 0 <= i < |rs| && i < 32 && rs[i].kind == 1
                                   && rs[i].start / 0x1000 <= p < rs[i].start / 0x1000 + rs[i].size / 0x1000
    {
      if Listed(ks, p) {
        var i :| 0 <= i < |ks| && InRegion(ks[i], p);
        assert ks[i] == rs[i];
      }
      if i :| 0 <= i < |rs| && i < 32 && rs[i].kind == 1
              && rs[i].start / 0x1000 <= p < rs[i].start / 0x1000 + rs[i].size / 0x1000 {
        assert InRegion(ks[i], p);
      }
    }
  }

  function Kept(rs: seq<Region>): seq<Region> {
    if |rs| > MAX_REGIONS then rs[..MAX_REGIONS] else rs
  }

  function TotalPages(rs: seq<Region>): nat {
    TotalMemory(Kept(rs)) / PAGE
  }

  /** The pages the allocator manages after pmm_init. */
  function AvailablePages(rs: seq<Region>): set<nat> {
    set p: nat | p < TotalPages(rs) && Listed(Kept(rs), p)
  }

  /** Every page of the available regions is managed exactly when each region ends below the page
      count; since that count only sums sizes, holes in the map push regions past it. */
  lemma CoverageIsExact(rs: seq<Region>)
    ensures (forall p :: p >= 0 && Listed(Kept(rs), p) ==> p in AvailablePages(rs)) <==>
            (forall i :: 0 <= i < |Kept(rs)| && Kept(rs)[i].kind == MEMORY_TYPE_AVAILABLE && Kept(rs)[i].size >= PAGE
               ==> Kept(rs)[i].start / PAGE + Kept(rs)[i].size / PAGE <= TotalPages(rs))
  {
    var ks := Kept(rs);
    forall i | 0 <= i < |ks| && ks[i].kind == MEMORY_TYPE_AVAILABLE && ks[i].size >= PAGE
               && ks[i].start / PAGE + ks[i].size / PAGE > TotalPages(rs)
      ensures exists p :: p >= 0 && Listed(ks, p) && p !in AvailablePages(rs)
    {
      var last := ks[i].start / PAGE + ks[i].size / PAGE - 1;
      assert InRegion(ks[i], last);
      assert Listed(ks, last) && last !in AvailablePages(rs);
    }
  }

  /** The memory map that the boot code passes in (kernel/src/main.c). */
  const BOOT_MAP: seq<Region> := [Region(0x10_0000, 0x110_0000, 0x100_0000, MEMORY_TYPE_AVAILABLE),
                                  Region(0x200_0000, 0x400_0000, 0x200_0000, MEMORY_TYPE_AVAILABLE)]

  lemma BootTotal()
    ensures TotalMemory(BOOT_MAP) == 0x300_0000
  {
    assert BOOT_MAP[..1] == [BOOT_MAP[0]] && BOOT_MAP[..1][..0] == [];
    assert TotalMemory(BOOT_MAP[..1]) == 0x100_0000;
  }

  /** Its last 4096 pages are not managed, and the lowest page it offers, hence the first that
      pmm_alloc_page hands out, is the page that holds the bitmap. */
  lemma BootMapFacts(size: nat)
    ensures TotalPages(BOOT_MAP) == 0x3000
    ensures BITMAP / PAGE in AvailablePages(BOOT_MAP) && !Allocatable(BITMAP / PAGE, 0x3000, size)
    ensures FirstRun(AvailablePages(BOOT_MAP), 0x3000, 1, 0) == BITMAP / PAGE
    ensures forall p :: 0x3000 <= p < 0x4000 ==> Listed(BOOT_MAP, p) && p !in AvailablePages(BOOT_MAP)
  {
    hide TotalMemory, FirstRun;
    BootTotal();
    assert InRegion(BOOT_MAP[0], 0x100);
    LowestPage(AvailablePages(BOOT_MAP), 0x3000);
    forall p | 0x3000 <= p < 0x4000 ensures Listed(BOOT_MAP, p) {
      assert InRegion(BOOT_MAP[1], p);
    }
  }

  /** Marking page p used and clearing it removes exactly p from the free set if and only if every
      page whose bit it clears was free and is not p; with a bitmap of at most one page, if and only
      if p is not the page that holds the bitmap. Pages that hold no bitmap byte always qualify. */
  lemma ClaimIsExact(m: Bytes, p: nat, total: nat)
    requires 0 < p < total && (p + 1) * PAGE <= |m| && BITMAP + BitmapBytes(total) <= |m|
    ensures var exact := FreeSet(Filled(SetUsed(m, p), p * PAGE, 0, PAGE), total) == FreeSet(m, total) - {p};
            && (exact <==> Described(p * PAGE, PAGE, total) <= FreeSet(m, total) - {p})
            && (total <= 8 * PAGE ==> (exact <==> p != BITMAP / PAGE))
            && (Allocatable(p, total, |m|) ==> exact)
  {
    SetUsedFreeSet(m, p, total);
    ClearedFreeSet(SetUsed(m, p), p * PAGE, PAGE, total);
    var d := Described(p * PAGE, PAGE, total);
    if total <= 8 * PAGE && p == BITMAP / PAGE {
      assert p in d by { assert InRun(BITMAP + p / 8, p * PAGE, PAGE); }
    }
    if (total <= 8 * PAGE && p != BITMAP / PAGE) || Allocatable(p, total, |m|) {
      forall q: nat | q < total ensures !InRun(BITMAP + q / 8, p * PAGE, PAGE) {
        BitmapByteBelow(q, total);
      }
      assert d == {};
    }
  }

  lemma BitmapByteBelow(q: nat, total: nat)
    requires q < total
    ensures q / 8 < BitmapBytes(total)
  {
  }

  /** The first pmm_alloc_page after boot clears the bitmap: every page reads as free, the page just
      handed out included, and the next search stops at page 0, whose address means failure. */
  lemma BootClaimsBitmap(m: Bytes)
    requires BITMAP + PAGE <= |m| && FreeSet(m, 0x3000) == AvailablePages(BOOT_MAP)
    ensures var p := FirstRun(FreeSet(m, 0x3000), 0x3000, 1, 0);
            && p * PAGE == BITMAP
            && var after := FreeSet(Filled(SetUsed(m, p), p * PAGE, 0, PAGE), 0x3000);
               after == Run(0, 0x3000) && FirstRun(after, 0x3000, 1, 0) == 0
  {
    BootMapFacts(|m|);
    ClearingTheBitmap(m, 0x3000);
    assert AllFree(Run(0, 0x3000), 0, 1);
  }

  /** Clearing the page that holds a one-page bitmap marks every page free. */
  lemma ClearingTheBitmap(m: Bytes, total: nat)
    requires BITMAP + PAGE <= |m| && total <= 8 * PAGE
    ensures FreeSet(Filled(SetUsed(m, BITMAP / PAGE), BITMAP, 0, PAGE), total) == Run(0, total)
  {
    ClearedFreeSet(SetUsed(m, BITMAP / PAGE), BITMAP, PAGE, total);
    assert forall p: nat :: p < total ==> InRun(BITMAP + p / 8, BITMAP, PAGE);
  }

  /** Page p lies in memory of `size` bytes, is not page 0 and holds no part of the bitmap. */
  predicate Allocatable(p: nat, total: nat, size: nat) {
    && 0 < p < total
    && (p + 1) * PAGE <= size
    && ((p + 1) * PAGE <= BITMAP || BITMAP + BitmapBytes(total) <= p * PAGE)
  }

  /** The cached byte counts agree with the free-page counter. */
  predicate Stats(total: nat, free: nat, available: nat, used: nat) {
    free <= total && available == free * 0x1000 && used == (total - free) * 0x1000
  }

  ghost predicate PoolOk(pool: set<nat>, total: nat, size: nat) {
    forall p :: p in pool ==> Allocatable(p, total, size)
  }

  lemma StatsTake(total: nat, free: nat, available: U64, used: U64)
    requires Stats(total, free, available, used) && free > 0 && total * PAGE < WORD
    ensures Stats(total, free - 1, Wrap(available - PAGE), Wrap(used + PAGE))
  {
    WrapSmall(available - PAGE);
    WrapSmall(used + PAGE);
  }

  lemma StatsGive(total: nat, free: nat, available: U64, used: U64)
    requires Stats(total, free, available, used) && free < total && total * PAGE < WORD
    ensures Stats(total, free + 1, Wrap(available + PAGE), Wrap(used - PAGE))
  {
    WrapSmall(available + PAGE);
    WrapSmall(used - PAGE);
  }

  lemma FreeSetSize(m: Bytes, total: nat)
    ensures |FreeSet(m, total)| <= total
  {
    var all := Run(0, total);
    assert FreeSet(m, total) <= all;
    RunSize(0, total);
    SubsetSize(FreeSet(m, total), all);
  }

  lemma FreeInRun(free: set<nat>, start: nat, count: nat, i: nat)
    requires AllFree(free, start, count) && i < count
    ensures start + i in free
  {
  }

  lemma PageAt(start: U64, i: nat)
    requires start % PAGE == 0
    ensures Wrap(start + i * PAGE) / PAGE == (start / PAGE + i) % PAGE_NUMBERS && Wrap(start + i * PAGE) % PAGE == 0
  {
    assert WORD == PAGE_NUMBERS * PAGE;
    var n := start / PAGE + i;
    assert start + i * PAGE == n * PAGE;
    var q, t := n / PAGE_NUMBERS, n % PAGE_NUMBERS;
    assert n * PAGE == WORD * q + t * PAGE;
    DivModUnique(n * PAGE, WORD, q, t * PAGE);
  }

  /** Marking pages s .. s + count - 1 used. */
  function UsedRun(m: Bytes, s: nat, count: nat): (r: Bytes)
    ensures |r| == |m|
    decreases count
  {
    if count == 0 || BITMAP + (s + count - 1) / 8 >= |m| then m
    else SetUsed(UsedRun(m, s, count - 1), s + count - 1)
  }

  lemma {:induction false} UsedRunFreeSet(m: Bytes, s: nat, count: nat, total: nat)
    requires s + count <= total && BITMAP + BitmapBytes(total) <= |m|
    ensures FreeSet(UsedRun(m, s, count), total) == FreeSet(m, total) - Run(s, count)
    ensures SameExcept(m, UsedRun(m, s, count), BITMAP, BitmapBytes(total)) && PaddingKept(m, UsedRun(m, s, count), total)
    decreases count
  {
    hide FreeSet, PaddingKept, BitmapBytes, SameExcept, SetUsed, UsedRun;
    if count == 0 {
      UsedRunNone(m, s);
      PaddingRefl(m, total);
      SameRefl(m, BITMAP, BitmapBytes(total));
    } else {
      var m1, p := UsedRun(m, s, count - 1), s + count - 1;
      UsedRunFreeSet(m, s, count - 1, total);
      BitmapByteBelow(p, total);
      UsedRunNext(m, s, count - 1);
      SetUsedFreeSet(m1, p, total);
      SetUsedOnly(m1, p, total);
      PaddingTrans(m, m1, SetUsed(m1, p), total);
      SameTrans(m, m1, SetUsed(m1, p), BITMAP, BitmapBytes(total));
      RunLess(FreeSet(m, total), s, count - 1);
    }
  }

  lemma RunLess(free: set<nat>, s: nat, count: nat)
    ensures free - Run(s, count) - {s + count} == free - Run(s, count + 1)
  {
  }

  lemma SetUsedOnly(m: Bytes, p: nat, total: nat)
    requires p < total && BITMAP + BitmapBytes(total) <= |m| && BITMAP + p / 8 < |m|
    ensures SameExcept(m, SetUsed(m, p), BITMAP, BitmapBytes(total))
  {
    BitmapByteBelow(p, total);
  }

  lemma UsedRunNone(m: Bytes, s: nat)
    ensures UsedRun(m, s, 0) == m
  {
  }

  lemma UsedRunNext(m: Bytes, s: nat, i: nat)
    requires BITMAP + (s + i) / 8 < |m|
    ensures UsedRun(m, s, i + 1) == SetUsed(UsedRun(m, s, i), s + i)
  {
  }

  /** Marking a run used and clearing it; memory_set ignores a run that starts at page 0. */
  function Claimed(m: Bytes, s: nat, count: nat): Bytes
    requires (s + count) * PAGE <= |m|
  {
    if s == 0 then UsedRun(m, s, count) else Filled(UsedRun(m, s, count), s * PAGE, 0, count * PAGE)
  }

  /** The counter is right after claiming a free run exactly when the claim removes just that run. */
  lemma ClaimedCount(m: Bytes, s: nat, count: nat, total: nat)
    requires count > 0 && AllFree(FreeSet(m, total), s, count) && s + count <= total
    requires (s + count) * PAGE <= |m| && BITMAP + BitmapBytes(total) <= |m|
    ensures |FreeSet(Claimed(m, s, count), total)| == |FreeSet(m, total)| - count
            <==> s == 0 || Described(s * PAGE, count * PAGE, total) <= FreeSet(m, total) - Run(s, count)
  {
    hide FreeSet, Filled, UsedRun, Described, PaddingKept, SameExcept, BitmapBytes;
    var rest := FreeSet(m, total) - Run(s, count);
    UsedRunFreeSet(m, s, count, total);
    RunSize(s, count);
    assert Run(s, count) <= FreeSet(m, total);
    RestSize(FreeSet(m, total), Run(s, count));
    if s != 0 {
      ClearedFreeSet(UsedRun(m, s, count), s * PAGE, count * PAGE, total);
      UnionSize(rest, Described(s * PAGE, count * PAGE, total));
    }
  }

  lemma RestSize(a: set<nat>, b: set<nat>)
    requires b <= a
    ensures |a - b| == |a| - |b|
  {
    assert a == (a - b) + b;
  }

  lemma UnionSize(a: set<nat>, b: set<nat>)
    ensures |a + b| == |a| <==> b <= a
  {
    if b <= a {
      assert a + b == a;
    } else {
      var x :| x in b && x !in a;
      assert a + b == (a + b - {x}) + {x};
      SubsetSize(a, a + b - {x});
    }
  }

  /** Claiming a free run of a valid pool. */
  lemma ClaimedPool(m: Bytes, s: nat, count: nat, total: nat, pool: set<nat>)
    requires count > 0 && AllFree(FreeSet(m, total), s, count) && FreeSet(m, total) <= pool && PoolOk(pool, total, |m|)
    requires BITMAP + BitmapBytes(total) <= |m|
    ensures 0 < s && s + count <= total && (s + count) * PAGE <= |m|
    ensures FreeSet(Claimed(m, s, count), total) == FreeSet(m, total) - Run(s, count)
    ensures Cleared(m, Claimed(m, s, count), s * PAGE, count * PAGE, BitmapBytes(total))
    ensures PaddingKept(m, Claimed(m, s, count), total) && Described(s * PAGE, count * PAGE, total) == {}
  {
    hide FreeSet, Described, PaddingKept, BitmapBytes, SameExcept, Cleared, UsedRun, Filled;
    RunInMemory(FreeSet(m, total), pool, s, count, total, |m|);
    UsedRunFreeSet(m, s, count, total);
    var m1 := UsedRun(m, s, count);
    ClearedFreeSet(m1, s * PAGE, count * PAGE, total);
    ClearedFrame(m, m1, s * PAGE, count * PAGE, BitmapBytes(total));
    ClearedPadding(m1, s * PAGE, count * PAGE, total);
    PaddingTrans(m, m1, Claimed(m, s, count), total);
  }

  lemma ClearedPadding(m: Bytes, a: nat, n: nat, total: nat)
    requires a + n <= |m| && (a + n <= BITMAP || BITMAP + BitmapBytes(total) <= a)
    ensures PaddingKept(m, Filled(m, a, 0, n), total)
  {
    PaddingFrame(m, Filled(m, a, 0, n), total);
  }

  /** Removing a found run from the free set is a Take step. */
  lemma ViewTake(pool: set<nat>, free: set<nat>, free': set<nat>, total: nat, count: U64)
    requires count > 0 && free <= pool && (forall p :: p in free ==> p < total) && FirstRun(free, total, count, 0) < total
    requires var s := FirstRun(free, total, count, 0);
             forall p :: p in free' <==> p in free && !(s <= p < s + count)
    ensures Pages(free', multiset(pool - free')) == Step(Pages(free, multiset(pool - free)), total, Take(count))
  {
    var s := FirstRun(free, total, count, 0);
    TakenRun(free, total, count);
    TakePages(pool, free, Run(s, count));
    assert free' == free - Run(s, count);
  }

  /** A request that finds nothing leaves the state as it is. */
  lemma NothingToTake(st: Pages, total: nat, count: U64)
    requires count == 0 || FirstRun(st.free, total, count, 0) == total
    ensures Step(st, total, Take(count)) == st
  {
  }

  lemma TakeLowest(pool: set<nat>, free: set<nat>, free': set<nat>, total: nat, p: nat)
    requires free <= pool && p in free && (forall q :: q in free ==> p <= q < total)
    requires forall q :: q in free' <==> q in free && q != p
    ensures Pages(free', multiset(pool - free')) == Step(Pages(free, multiset(pool - free)), total, Take(1))
  {
    hide FirstRun;
    LowestPage(free, total);
    ViewTake(pool, free, free', total, 1);
  }

  /** Adding the released pages to the free set is a release step, and it stays within the pool
      exactly for disciplined callers. */
  lemma ViewGive(pool: set<nat>, free: set<nat>, free': set<nat>, total: nat, q: Request)
    requires !q.Take? && forall p :: p in free' <==> p in free || p in Released(q, total)
    ensures Pages(free', multiset(pool - free')) == Step(Pages(free, multiset(pool - free)), total, q)
    ensures free <= pool ==> (free' <= pool <==> Disciplined(Pages(free, multiset(pool - free)), total, q))
  {
    GivePages(pool, free, Released(q, total));
    assert free' == free + Released(q, total);
  }

  lemma LowestPage(free: set<nat>, total: nat)
    requires forall p :: p in free ==> p < total
    ensures var s := FirstRun(free, total, 1, 0);
            && s <= total && (s == total <==> free == {})
            && (s < total ==> s in free && forall p :: p in free ==> s <= p)
  {
    FirstRunIsLowest(free, total, 1, 0);
    var s := FirstRun(free, total, 1, 0);
    forall p | p in free ensures s <= p && s < total {
      assert AllFree(free, p, 1);
    }
    assert s < total ==> s in free;
    assert s < total || free == {};
  }

  lemma TooFewPages(free: set<nat>, total: nat, count: nat)
    requires |free| < count && forall p :: p in free ==> p < total
    ensures FirstRun(free, total, count, 0) == total
  {
    FirstRunIsLowest(free, total, count, 0);
    var s := FirstRun(free, total, count, 0);
    RunSize(s, count);
    if s < total {
      SubsetSize(Run(s, count), free);
      assert false;
    }
  }

  lemma FirstRunStep(free: set<nat>, total: nat, count: nat, s: nat)
    requires count > 0 && s + count <= total
    ensures FirstRun(free, total, count, s) ==
            if AllFree(free, s, count) then s else FirstRun(free, total, count, s + 1)
  {
  }

  lemma FirstRunEnd(free: set<nat>, total: nat, count: nat)
    requires 0 < count <= total
    ensures FirstRun(free, total, count, total - count + 1) == total
  {
  }

  method SumAvailable(rs: seq<Region>) returns (total: U64)
    ensures total == TotalMemory(rs)
  {
    total := 0;
    for i := 0 to |rs|
      invariant total == TotalMemory(rs[..i])
    {
      assert rs[..i + 1][..i] == rs[..i];
      if rs[i].kind == MEMORY_TYPE_AVAILABLE {
        total := (total + rs[i].size) % WORD;
      }
    }
    assert rs[..|rs|] == rs;
  }

  lemma NothingListed()
    ensures forall p: nat :: !Listed([], p)
  {
  }

  lemma ListedNext(rs: seq<Region>, i: nat)
    requires i < |rs|
    ensures forall p: nat :: Listed(rs[..i + 1], p) <==> Listed(rs[..i], p) || InRegion(rs[i], p)
  {
    assert rs[..i + 1] == rs[..i] + [rs[i]];
    forall p: nat ensures Listed(rs[..i + 1], p) <==> Listed(rs[..i], p) || InRegion(rs[i], p) {
      if InRegion(rs[i], p) { assert InRegion(rs[..i + 1][i], p); }
      if Listed(rs[..i], p) {
        var j :| 0 <= j < i && InRegion(rs[..i][j], p);
        assert InRegion(rs[..i + 1][j], p);
      }
    }
  }

  /** A run of allocatable pages avoids the bitmap as a whole and lies in memory. */
  lemma RunInMemory(free: set<nat>, pool: set<nat>, start: nat, count: nat, total: nat, size: nat)
    requires count > 0 && AllFree(free, start, count) && free <= pool && PoolOk(pool, total, size)
    ensures 0 < start && start + count <= total && (start + count) * PAGE <= size
    ensures (start + count) * PAGE <= BITMAP || BITMAP + BitmapBytes(total) <= start * PAGE
    ensures Described(start * PAGE, count * PAGE, total) == {}
  {
    assert start in free && start + count - 1 in free;
    assert Allocatable(start, total, size) && !Allocatable(BITMAP / PAGE, total, size);
    forall q: nat | q < total ensures !InRun(BITMAP + q / 8, start * PAGE, count * PAGE) {
      var p: nat := (BITMAP + q / 8) / PAGE;
      assert !Allocatable(p, total, size);
      assert !(start <= p < start + count);
    }
  }

  /** Clearing [a, a + n) after changing only the bitmap. */
  lemma ClearedFrame(m: Bytes, m1: Bytes, a: nat, n: nat, bitmapSize: nat)
    requires SameExcept(m, m1, BITMAP, bitmapSize) && a + n <= |m1|
    ensures Cleared(m, Filled(m1, a, 0, n), a, n, bitmapSize)
  {
  }

  /** [a, a + n) is zero in m', and outside it and the bitmap nothing differs from m. */
  ghost predicate Cleared(m: Bytes, m': Bytes, a: nat, n: nat, bitmapSize: nat) {
    && |m| == |m'| && a + n <= |m|
    && (forall i :: a <= i < a + n ==> m'[i] == 0)
    && forall i :: 0 <= i < |m| && !(a <= i < a + n) && !(BITMAP <= i < BITMAP + bitmapSize) ==> m'[i] == m[i]
  }

  /** What clearing a run promises, byte by byte. */
  lemma ClearedMeans(m: Bytes, m': Bytes, a: nat, n: nat, bitmapSize: nat)
    ensures Cleared(m, m', a, n, bitmapSize) <==>
            && |m'| == |m| && a + n <= |m|
            && forall i :: 0 <= i < |m| ==>
                 if a <= i < a + n then m'[i] == 0
                 else m'[i] == m[i] || 0x10_0000 <= i < 0x10_0000 + bitmapSize
  {
  }

  lemma SameBitmap(m: Bytes, lo: int, hi: int)
    ensures Same(m, m, lo, hi)
  {
  }

  lemma GivenBack(free: set<nat>, free1: set<nat>, free2: set<nat>, s: nat, count: nat)
    requires AllFree(free, s, count) && (forall p :: p in free1 <==> p in free && !(s <= p < s + count))
    requires forall p :: p in free2 <==> p in free1 || p in Run(s, count)
    ensures free2 == free
  {
  }

  /** Clearing a run, then changing only the bitmap, then finding the bitmap as it was. */
  lemma RunRestored(m: Bytes, m1: Bytes, m2: Bytes, a: nat, n: nat, bitmapSize: nat)
    requires Cleared(m, m1, a, n, bitmapSize) && SameExcept(m1, m2, BITMAP, bitmapSize)
    requires Same(m, m2, BITMAP, BITMAP + bitmapSize)
    ensures SameExcept(m, m2, a, n)
  {
  }

  lemma IsAvailablePages(free: set<nat>, rs: seq<Region>)
    requires forall p :: p in free <==> 0 <= p < TotalPages(rs) && Listed(Kept(rs), p)
    ensures free == AvailablePages(rs)
  {
  }

  lemma Inhabited(s: set<nat>)
    requires |s| > 0
    ensures exists x :: x in s
  {
    assert s != {};
  }

  lemma {:induction false} SubsetSize(a: set<nat>, b: set<nat>)
    requires a <= b
    ensures |a| <= |b|
  {
    if a != {} {
      var x :| x in a;
      SubsetSize(a - {x}, b - {x});
    }
  }

  class PageAllocator {
    const mem: array<U8>
    var totalPages: nat
    var freePages: nat
    var bitmapSize: nat
    var regions: seq<Region>
    var totalPhysical: U64
    var availablePhysical: U64
    var usedPhysical: U64
    var allocations: U32
    /** The pages made available at initialisation. */
    ghost var pool: set<nat>

    ghost function Free(): set<nat>
      reads this, mem
    {
      FreeSet(mem[..], totalPages)
    }

    /** The bitmap has a bit for every page and fits in memory. */
    ghost predicate Sized()
      reads this, mem
    {
      && totalPages * 0x1000 < WORD
      && bitmapSize == BitmapBytes(totalPages)
      && BITMAP + bitmapSize <= mem.Length
    }

    /** The free-page counter is the number of clear bits. */
    ghost predicate Counted()
      reads this, mem
    {
      Sized() && freePages == |Free()|
    }

    /** The cached counts agree with the bitmap. */
    ghost predicate Sound()
      reads this, mem
    {
      Counted() && Stats(totalPages, freePages, availablePhysical, usedPhysical)
    }

    ghost predicate Valid()
      reads this, mem
    {
      && Sound()
      && Free() <= pool
      && PoolOk(pool, totalPages, mem.Length)
    }

    /** Every free page exists in memory. */
    ghost predicate Backed()
      reads this, mem
    {
      forall p :: p in Free() ==> (p + 1) * PAGE <= mem.Length
    }

    /** The allocator as a state of a history: pages of the pool that are not free are held. */
    ghost function View(): Pages
      reads this, mem
    {
      Pages(Free(), multiset(pool - Free()))
    }

    constructor (mem: array<U8>)
      ensures this.mem == mem && totalPages == 0
    {
      this.mem := mem;
      totalPages, freePages, bitmapSize, regions := 0, 0, 0, [];
      totalPhysical, availablePhysical, usedPhysical, allocations := 0, 0, 0, 0;
      pool := {};
    }

    lemma ValidFacts()
      requires Valid()
      ensures Counted() && Sound() && Backed() && PoolOk(pool, totalPages, mem.Length)
      ensures freePages <= totalPages && freePages == |Free()|
      ensures Free() <= pool && forall p :: p in Free() ==> p in pool && 0 < p < totalPages
    {
      forall p | p in Free() ensures (p + 1) * PAGE <= mem.Length {
        assert Allocatable(p, totalPages, mem.Length);
      }
    }

    /** The counters of a sound allocator: clear bits, and bytes of free and of other pages. */
    lemma SoundMeans()
      ensures Sound() <==>
              && totalPages * 0x1000 < WORD && bitmapSize == (totalPages + 7) / 8 && 0x10_0000 + bitmapSize <= mem.Length
              && freePages == |Free()| && freePages <= totalPages
              && availablePhysical == freePages * 0x1000 && usedPhysical == (totalPages - freePages) * 0x1000
    {
    }

    /** A valid pool holds only pages that exist, are not page 0 and hold no byte of the bitmap. */
    lemma ValidMeans()
      ensures Valid() <==>
              && Sound() && Free() <= pool
              && forall p :: p in pool ==>
                   && 0 < p < totalPages && (p + 1) * 0x1000 <= mem.Length
                   && ((p + 1) * 0x1000 <= 0x10_0000 || 0x10_0000 + (totalPages + 7) / 8 <= p * 0x1000)
    {
      hide FreeSet, Stats;
      if Valid() {
        forall p | p in pool ensures Allocatable(p, totalPages, mem.Length) {
        }
      }
    }

    lemma SoundFacts()
      requires Sound()
      ensures Counted() && freePages <= totalPages && freePages == |Free()|
      ensures forall p :: p in Free() ==> p < totalPages
    {
    }

    method IsPageFree(p: nat) returns (r: bool)
      requires Sized()
      ensures r == (p in Free())
    {
      if p >= totalPages { return false; }
      TestPage(mem[..], p, totalPages);
      r := And(mem[BITMAP + p / 8], Pow2(p % 8)) == 0;
    }

    method MarkPageUsed(p: nat)
      requires Sized() && (p in Free() ==> freePages > 0)
      modifies mem, `freePages, `usedPhysical, `availablePhysical
      ensures Sized() && (old(Counted()) ==> Counted()) && (old(Sound()) ==> Sound()) && (old(Valid()) ==> Valid())
      ensures forall q :: q in Free() <==> q in old(Free()) && q != p
      ensures p in old(Free()) ==> freePages == old(freePages) - 1 && mem[..] == SetUsed(old(mem[..]), p)
      ensures SameExcept(old(mem[..]), mem[..], BITMAP, bitmapSize)
      ensures PaddingKept(old(mem[..]), mem[..], totalPages)
    {
      hide PoolOk, Stats, Wrap, And, Or, Pow2, FreeSet, Bit, PaddingKept;
      ghost var m := mem[..];
      FreeBelow(m, totalPages);
      PaddingRefl(m, totalPages);
      if p >= totalPages { return; }
      TestPage(m, p, totalPages);
      if And(mem[BITMAP + p / 8], Pow2(p % 8)) == 0 {
        assert p in Free();
        SetUsedFreeSet(m, p, totalPages);
        if old(Sound()) { StatsTake(totalPages, freePages, availablePhysical, usedPhysical); }
        ghost var b: U8 := SetUsed(m, p)[BITMAP + p / 8];
        assert b == Or(mem[BITMAP + p / 8], Pow2(p % 8));
        mem[BITMAP + p / 8] := Or(mem[BITMAP + p / 8], Pow2(p % 8));
        assert mem[..] == SetUsed(m, p);
        freePages := freePages - 1;
        usedPhysical := Wrap(usedPhysical + PAGE);
        availablePhysical := Wrap(availablePhysical - PAGE);
      }
    }

    method MarkPageFree(p: nat)
      requires Counted()
      modifies mem, `freePages, `usedPhysical, `availablePhysical
      ensures Counted() && (old(Sound()) ==> Sound())
      ensures forall q :: q in Free() <==> q in old(Free()) || (q == p && p < totalPages)
      ensures p >= totalPages || p in old(Free()) ==> unchanged(this) && mem[..] == old(mem[..])
      ensures SameExcept(old(mem[..]), mem[..], BITMAP, bitmapSize)
      ensures PaddingKept(old(mem[..]), mem[..], totalPages)
    {
      hide PoolOk, Stats, Wrap, And, Or, Pow2, FreeSet, Bit, PaddingKept;
      ghost var m := mem[..];
      FreeBelow(m, totalPages);
      PaddingRefl(m, totalPages);
      if p >= totalPages { return; }
      TestPage(m, p, totalPages);
      if And(mem[BITMAP + p / 8], Pow2(p % 8)) != 0 {
        assert p !in Free();
        SetFreeFreeSet(m, p, totalPages);
        FreeSetSize(SetFree(m, p), totalPages);
        if old(Sound()) { StatsGive(totalPages, freePages, availablePhysical, usedPhysical); }
        BitOfByte(p % 8);
        AndAtMost(mem[BITMAP + p / 8], 0xFF - Pow2(p % 8));
        mem[BITMAP + p / 8] := And(mem[BITMAP + p / 8], 0xFF - Pow2(p % 8));
        assert mem[..] == SetFree(m, p);
        freePages := freePages + 1;
        usedPhysical := Wrap(usedPhysical - PAGE);
        availablePhysical := Wrap(availablePhysical + PAGE);
      }
    }

    /** Clears the bits of every page of an available region. */
    method FreeRegion(r: Region)
      requires Counted()
      modifies mem, `freePages, `usedPhysical, `availablePhysical
      ensures Counted()
      ensures forall p :: p in Free() <==> p in old(Free()) || (0 <= p < totalPages && InRegion(r, p))
      ensures SameExcept(old(mem[..]), mem[..], BITMAP, bitmapSize)
    {
      hide Counted, Free, SameExcept;
      SameRefl(mem[..], BITMAP, bitmapSize);
      if r.kind == MEMORY_TYPE_AVAILABLE {
        var first, count := r.start / PAGE, r.size / PAGE;
        for page := first to first + count
          invariant Counted()
          invariant forall p :: p in Free() <==> p in old(Free()) || (0 <= p < totalPages && first <= p < page)
          invariant SameExcept(old(mem[..]), mem[..], BITMAP, bitmapSize)
        {
          label before:
          MarkPageFree(page);
          SameTrans(old(mem[..]), old@before(mem[..]), mem[..], BITMAP, bitmapSize);
        }
      }
    }

    method FreeRegions()
      requires Counted() && Free() == {}
      modifies mem, `freePages, `usedPhysical, `availablePhysical
      ensures Counted()
      ensures forall p :: p in Free() <==> 0 <= p < totalPages && Listed(regions, p)
      ensures SameExcept(old(mem[..]), mem[..], BITMAP, bitmapSize)
    {
      hide Free, Counted, Listed, InRegion, SameExcept;
      SameRefl(mem[..], BITMAP, bitmapSize);
      NothingListed();
      for i := 0 to |regions|
        invariant Counted()
        invariant forall p :: p in Free() <==> 0 <= p < totalPages && Listed(regions[..i], p)
        invariant SameExcept(old(mem[..]), mem[..], BITMAP, bitmapSize)
      {
        label before:
        ListedNext(regions, i);
        FreeRegion(regions[i]);
        SameTrans(old(mem[..]), old@before(mem[..]), mem[..], BITMAP, bitmapSize);
      }
      assert regions[..|regions|] == regions;
    }

    /** Rebuilds the allocator from the boot memory map. The free set is exactly the pages below the
        page count that lie in one of the first 32 regions marked available; they make a valid pool
        exactly when they leave out page 0 and the bitmap's own pages and exist in memory. */
    method Init(rs: seq<Region>) returns (r: int)
      requires rs != [] ==> BITMAP + BitmapBytes(TotalPages(rs)) <= mem.Length
      modifies this, mem
      ensures r == if rs == [] then -1 else 0
      ensures rs == [] ==> unchanged(this) && unchanged(mem)
      ensures rs != [] ==>
                && Sound() && totalPages == TotalPages(rs)
                && (Valid() <==> PoolOk(AvailablePages(rs), TotalPages(rs), mem.Length))
                && Free() == pool == AvailablePages(rs)
                && regions == Kept(rs) && totalPhysical == TotalMemory(Kept(rs))
                && allocations == old(allocations)
                && SameExcept(old(mem[..]), mem[..], BITMAP, bitmapSize)
      ensures rs != [] ==>
                && regions == (if |rs| > 32 then rs[..32] else rs)
                && totalPages == totalPhysical / 0x1000 && bitmapSize == (totalPages + 7) / 8
                && freePages == |Free()| && availablePhysical == freePages * 0x1000
                && usedPhysical == (totalPages - freePages) * 0x1000
      ensures rs != [] ==>
                forall p :: p in Free() <==>
                  && 0 <= p < totalPages
                  && exists i :: 0 <= i < |rs| && i < 32 && rs[i].kind == 1
                                 && rs[i].start / 0x1000 <= p < rs[i].start / 0x1000 + rs[i].size / 0x1000
    {
      hide FreeSet, AvailablePages, Listed, PoolOk, TotalMemory, InRegion, BitmapBytes, SameExcept;
      if rs == [] { return -1; }
      regions := if |rs| > MAX_REGIONS then rs[..MAX_REGIONS] else rs;
      var total := SumAvailable(regions);
      StartBitmap(total);
      ghost var m1 := mem[..];
      FreeRegions();
      SameTrans(old(mem[..]), m1, mem[..], BITMAP, bitmapSize);
      totalPhysical := total;
      FreeSetSize(mem[..], totalPages);
      availablePhysical := freePages * PAGE;
      usedPhysical := (totalPages - freePages) * PAGE;
      pool := Free();
      IsAvailablePages(Free(), rs);
      MapMeans(rs);
      return 0;
    }

    /** Sizes the bitmap for this much memory and marks every page used. */
    method StartBitmap(total: U64)
      requires BITMAP + BitmapBytes(total / PAGE) <= mem.Length
      modifies mem, `totalPages, `bitmapSize, `freePages
      ensures totalPages == total / PAGE && bitmapSize == (totalPages + 7) / 8 && Counted() && Free() == {}
      ensures SameExcept(old(mem[..]), mem[..], BITMAP, bitmapSize)
    {
      hide FreeSet;
      totalPages := total / PAGE;
      bitmapSize := (totalPages + 7) / 8;
      freePages := 0;
      AllOnesFreeSet(mem[..], totalPages);
      MemorySet(mem, BITMAP, 0xFF, bitmapSize);
    }

    method MarkRunUsed(start: nat, count: nat)
      requires Sized() && AllFree(Free(), start, count) && count <= freePages
      modifies mem, `freePages, `usedPhysical, `availablePhysical
      ensures Sized() && (old(Sound()) ==> Sound()) && freePages == old(freePages) - count
      ensures mem[..] == UsedRun(old(mem[..]), start, count)
    {
      hide Sound, Counted, Valid, FreeSet, PaddingKept, SameExcept, SetUsed, UsedRun, BitmapBytes;
      UsedRunNone(mem[..], start);
      for i := 0 to count
        invariant Sized() && (old(Sound()) ==> Sound()) && freePages == old(freePages) - i
        invariant forall p :: p in Free() <==> p in old(Free()) && !(start <= p < start + i)
        invariant mem[..] == UsedRun(old(mem[..]), start, i)
      {
        FreeInRun(old(Free()), start, count, i);
        FreeByte(old(mem[..]), start + i, totalPages);
        UsedRunNext(old(mem[..]), start, i);
        MarkPageUsed(start + i);
      }
    }

    /** Marks a run of free pages used and clears it. Counters stay right exactly when the cleared bytes
        hold no bit of a page that is not free; on a valid pool that is always so. */
    method Claim(start: nat, count: nat)
      requires Sized() && 0 < count <= freePages && AllFree(Free(), start, count)
      requires start + count <= totalPages && (start + count) * PAGE <= mem.Length
      modifies mem, `freePages, `usedPhysical, `availablePhysical, `allocations
      ensures Sized() && freePages == old(freePages) - count
      ensures allocations == (old(allocations) + 1) % 0x1_0000_0000
      ensures mem[..] == Claimed(old(mem[..]), start, count)
      ensures old(Sound()) ==>
                (Sound() <==> start == 0
                              || Described(start * PAGE, count * PAGE, totalPages) <= old(Free()) - Run(start, count))
      ensures old(Valid()) ==>
                && Valid() && 0 < start
                && (forall p :: p in Free() <==> p in old(Free()) && !(start <= p < start + count))
                && Cleared(old(mem[..]), mem[..], start * PAGE, count * PAGE, bitmapSize)
                && PaddingKept(old(mem[..]), mem[..], totalPages)
    {
      hide FreeSet, PoolOk, Stats, Described, BitmapBytes, SameExcept, Cleared, PaddingKept, UsedRun, Filled;
      ghost var m := mem[..];
      ClaimedCount(m, start, count, totalPages);
      if old(Valid()) { ClaimedPool(m, start, count, totalPages, pool); }
      MarkRunUsed(start, count);
      allocations := (allocations + 1) % 0x1_0000_0000;
      MemorySet(mem, start * PAGE, 0, count * PAGE);
    }

    /** Lowest free page, cleared; 0 if no page is free or counted free, or if page 0 is the lowest. */
    method AllocPage() returns (r: U64)
      requires Sized() && Backed()
      modifies mem, `freePages, `usedPhysical, `availablePhysical, `allocations
      ensures Sized() && (old(Counted()) ==> (old(freePages) == 0 <==> old(Free()) == {}))
      ensures old(freePages) == 0 || old(Free()) == {} ==> r == 0 && unchanged(this) && mem[..] == old(mem[..])
      ensures old(freePages) > 0 && old(Free()) != {} ==>
                && r % PAGE == 0 && r / PAGE in old(Free())
                && (forall p :: p in old(Free()) ==> r / PAGE <= p)
                && freePages == old(freePages) - 1
                && allocations == (old(allocations) + 1) % 0x1_0000_0000
                && mem[..] == Claimed(old(mem[..]), r / PAGE, 1)
                && (old(Sound()) ==>
                      (Sound() <==> r == 0 || Described(r, PAGE, totalPages) <= old(Free()) - Run(r / PAGE, 1)))
      ensures old(Valid()) ==> Valid() && (r == 0 <==> old(freePages) == 0)
      ensures old(Valid()) && r != 0 ==>
                && (forall p :: p in Free() <==> p in old(Free()) && p != r / PAGE)
                && Cleared(old(mem[..]), mem[..], r, PAGE, bitmapSize)
                && PaddingKept(old(mem[..]), mem[..], totalPages)
      ensures old(Valid()) ==> View() == Step(old(View()), totalPages, Take(1))
    {
      hide FreeSet, PoolOk, Stats, BitmapBytes, Cleared, Described, PaddingKept, FirstRun, Step, Claimed;
      ghost var m, free0 := mem[..], Free();
      FreeBelow(m, totalPages);
      LowestPage(free0, totalPages);
      if |free0| > 0 { Inhabited(free0); }
      if freePages == 0 {
        if old(Valid()) { NothingToTake(View(), totalPages, 1); }
        return 0;
      }
      for page := 0 to totalPages
        invariant mem[..] == m && unchanged(this)
        invariant forall p :: p in Free() ==> page <= p
      {
        var free := IsPageFree(page);
        if free {
          Claim(page, 1);
          if old(Valid()) { TakeLowest(pool, free0, Free(), totalPages, page); }
          return page * PAGE;
        }
      }
      // The source's "allocation failed despite free pages" path, never reached while the counter is right.
      assert Free() == {};
      return 0;
    }

    /** Lowest run of `count` free pages, cleared; 0 if there is no such run, or if it starts at page 0. */
    method AllocPages(count: U64) returns (r: U64)
      requires Sound() && Backed()
      modifies mem, `freePages, `usedPhysical, `availablePhysical, `allocations
      ensures var s := FirstRun(old(Free()), totalPages, count, 0);
              if count == 0 || s == totalPages then r == 0 && unchanged(this) && mem[..] == old(mem[..])
              else
                && r == s * PAGE && s + count <= totalPages && (s + count) * PAGE <= mem.Length
                && freePages == old(freePages) - count
                && allocations == (old(allocations) + 1) % 0x1_0000_0000
                && mem[..] == Claimed(old(mem[..]), s, count)
                && (Sound() <==> r == 0 || Described(r, count * PAGE, totalPages) <= old(Free()) - Run(s, count))
      ensures old(Valid()) ==>
                && Valid() && PaddingKept(old(mem[..]), mem[..], totalPages)
                && View() == Step(old(View()), totalPages, Take(count))
                && (r == 0 <==> count == 0 || FirstRun(old(Free()), totalPages, count, 0) == totalPages)
      ensures old(Valid()) && r != 0 ==>
                && (forall p :: p in Free() <==> p in old(Free()) && !(r / PAGE <= p < r / PAGE + count))
                && Cleared(old(mem[..]), mem[..], r, count * PAGE, bitmapSize)
    {
      hide FreeSet, PoolOk, Stats, BitmapBytes, Cleared, AllFree, FirstRun, PaddingKept, Step, Claimed, Described;
      SoundFacts();
      PaddingRefl(mem[..], totalPages);
      ghost var free := Free();
      if count == 0 || FirstRun(free, totalPages, count, 0) == totalPages { NothingToTake(View(), totalPages, count); }
      if count == 0 { return 0; }
      if count == 1 {
        ghost var s := FirstRun(free, totalPages, 1, 0);
        LowestPage(free, totalPages);
        r := AllocPage();
        if s < totalPages {
          assert r / PAGE in free && s in free;
          assert r / PAGE == s;
        }
        return;
      }
      if freePages < count {
        TooFewPages(free, totalPages, count);
        return 0;
      }
      for start := 0 to totalPages - count + 1
        invariant unchanged(this) && mem[..] == old(mem[..])
        invariant FirstRun(free, totalPages, count, 0) == FirstRun(free, totalPages, count, start)
      {
        FirstRunStep(free, totalPages, count, start);
        var found := RunIsFree(start, count);
        if found {
          FreeInRun(free, start, count, count - 1);
          Claim(start, count);
          if old(Valid()) { ViewTake(pool, free, Free(), totalPages, count); }
          return start * PAGE;
        }
      }
      FirstRunEnd(free, totalPages, count);
      return 0;
    }

    /** The inner search loop of the contiguous allocator. */
    method RunIsFree(start: nat, count: nat) returns (found: bool)
      requires Sized()
      ensures found == AllFree(Free(), start, count)
    {
      hide Sized, Free;
      found := true;
      for i := 0 to count
        invariant found && AllFree(Free(), start, i)
      {
        var free := IsPageFree(start + i);
        if !free { return false; }
      }
    }

    /** Releases a page; page 0, unaligned addresses, pages out of range and pages already free
        leave the allocator as it is. The pool stays valid exactly when the page was held or free. */
    method FreePage(addr: U64)
      requires Sound()
      modifies mem, `freePages, `usedPhysical, `availablePhysical
      ensures Sound()
      ensures var p := addr / PAGE;
              if addr == 0 || addr % PAGE != 0 || p >= totalPages || p in old(Free())
              then unchanged(this) && mem[..] == old(mem[..])
              else forall q :: q in Free() <==> q in old(Free()) || q == p
      ensures SameExcept(old(mem[..]), mem[..], BITMAP, bitmapSize)
      ensures PaddingKept(old(mem[..]), mem[..], totalPages)
      ensures View() == Step(old(View()), totalPages, Give(addr))
      ensures old(Valid()) ==> (Valid() <==> Disciplined(old(View()), totalPages, Give(addr)))
    {
      hide FreeSet, PoolOk, Stats, BitmapBytes, PaddingKept;
      PaddingRefl(mem[..], totalPages);
      ghost var free := Free();
      if addr != 0 && addr % PAGE == 0 {
        var p := addr / PAGE;
        var isFree := IsPageFree(p);
        if !isFree { MarkPageFree(p); }
      }
      ViewGive(pool, free, Free(), totalPages, Give(addr));
    }

    /** Releases a run of pages one by one; addresses wrap at 2^64. */
    method FreePages(start: U64, count: U64)
      requires Sound()
      modifies mem, `freePages, `usedPhysical, `availablePhysical
      ensures Sound()
      ensures start == 0 || start % PAGE != 0 || count == 0 ==> unchanged(this) && mem[..] == old(mem[..])
      ensures forall q :: q in Free() <==> q in old(Free()) || q in Released(GiveRun(start, count), totalPages)
      ensures SameExcept(old(mem[..]), mem[..], BITMAP, bitmapSize)
      ensures PaddingKept(old(mem[..]), mem[..], totalPages)
      ensures View() == Step(old(View()), totalPages, GiveRun(start, count))
      ensures old(Valid()) ==> (Valid() <==> Disciplined(old(View()), totalPages, GiveRun(start, count)))
    {
      hide FreeSet, PoolOk, Stats, BitmapBytes, Sound, Counted, SameExcept, PaddingKept, Swept;
      SameRefl(mem[..], BITMAP, bitmapSize);
      PaddingRefl(mem[..], totalPages);
      ghost var free := Free();
      forall q: nat { SweptNext(start / PAGE, 0, q); }
      if start != 0 && start % PAGE == 0 && count != 0 {
        for i := 0 to count
          invariant Sound()
          invariant forall q :: q in Free() <==> q in free || (0 < q < totalPages && Swept(start / PAGE, i, q))
          invariant SameExcept(old(mem[..]), mem[..], BITMAP, bitmapSize)
          invariant PaddingKept(old(mem[..]), mem[..], totalPages)
        {
          label before:
          PageAt(start, i);
          forall q: nat { SweptNext(start / PAGE, i, q); }
          FreePage(Wrap(start + i * PAGE));
          SameTrans(old(mem[..]), old@before(mem[..]), mem[..], BITMAP, bitmapSize);
          PaddingTrans(old(mem[..]), old@before(mem[..]), mem[..], totalPages);
        }
      }
      ViewGive(pool, free, Free(), totalPages, GiveRun(start, count));
    }

    /** Taking a run and giving it back restores the bitmap byte for byte and every counter but the
        allocation count; outside the run itself no byte of memory differs. */
    method TakeAndGive(count: U64) returns (r: U64)
      requires Valid()
      modifies mem, `freePages, `usedPhysical, `availablePhysical, `allocations
      ensures Valid() && Free() == old(Free())
      ensures freePages == old(freePages)
      ensures availablePhysical == old(availablePhysical) && usedPhysical == old(usedPhysical)
      ensures allocations == if r == 0 then old(allocations) else (old(allocations) + 1) % 0x1_0000_0000
      ensures Same(old(mem[..]), mem[..], BITMAP, BITMAP + bitmapSize)
      ensures if r == 0 then mem[..] == old(mem[..]) else SameExcept(old(mem[..]), mem[..], r, count * PAGE)
    {
      hide FreeSet, PoolOk, BitmapBytes, Cleared, FirstRun, PaddingKept, Released, SameExcept, Same, Step, Disciplined, View, Run;
      ValidFacts();
      ghost var m, free, s := mem[..], Free(), FirstRun(Free(), totalPages, count, 0);
      SameRefl(m, BITMAP, BITMAP + bitmapSize);
      r := AllocPages(count);
      ghost var m1, free1 := mem[..], Free();
      if r != 0 {
        FirstRunIsLowest(free, totalPages, count, 0);
        ReleasedRun(s, count, totalPages);
        FreePages(r, count);
        PaddingTrans(m, m1, mem[..], totalPages);
        GivenBack(free, free1, Free(), s, count);
        BitmapDetermined(m, mem[..], totalPages);
        RunRestored(m, m1, mem[..], r, count * PAGE, bitmapSize);
      } else {
        SameBitmap(m, BITMAP, BITMAP + bitmapSize);
      }
    }

    /** Any sequence of calls, served in order, is a history of the abstract allocator. */
    method Serve(qs: seq<Request>)
      requires Valid() && DisciplinedRun(View(), totalPages, qs)
      modifies mem, `freePages, `usedPhysical, `availablePhysical, `allocations
      ensures Valid() && View() == History(old(View()), totalPages, qs)
    {
      if qs == [] { return; }
      match qs[0] {
        case Take(count) => var _ := AllocPages(count);
        case Give(addr) => FreePage(addr);
        case GiveRun(start, count) => FreePages(start, count);
      }
      Serve(qs[1..]);
    }
  }
}
