/** Virtual memory manager (kernel/mm/vmm.c): page tables built on demand in frames drawn from the
    physical page allocator, in the same memory. */
module Vmm {
  import opened Bits
  import opened Memory
  import opened PageTables
  import opened Pmm
  import opened KernelMap
  import PageRuns

  /** Every table frame belongs to the allocator's pool and is not free. */
  ghost predicate Owned(tab: Tree, free: set<nat>, pool: set<nat>) {
    forall t :: t in tab ==> tab[t] / PAGE in pool && tab[t] / PAGE !in free
  }

  /** The frame at f holds no part of the bitmap. */
  predicate NoBitmap(f: nat, bitmapSize: nat) {
    f + PAGE <= BITMAP || BITMAP + bitmapSize <= f
  }

  /** What changed between m and m' lies in table frames or in the bitmap. */
  ghost predicate OnlyTables(m: Bytes, m': Bytes, tab: Tree, bitmapSize: nat) {
    && |m| == |m'|
    && forall i :: 0 <= i < |m| && !(BITMAP <= i < BITMAP + bitmapSize) && m'[i] != m[i]
         ==> exists t :: t in tab && tab[t] <= i < tab[t] + PAGE
  }

  /** The two frame conditions of the mapping operations, spelled out: which bytes may change, and which
      frames new tables may take. */
  lemma FramesMean(m: Bytes, m': Bytes, tab: Tree, tab': Tree, bitmapSize: nat, free: set<nat>, free': set<nat>)
    ensures OnlyTables(m, m', tab, bitmapSize) <==>
            && |m'| == |m|
            && forall i :: 0 <= i < |m| && m'[i] != m[i] ==>
                 || 0x10_0000 <= i < 0x10_0000 + bitmapSize
                 || exists t :: t in tab && tab[t] <= i < tab[t] + 0x1000
    ensures TookFrames(tab, tab', free, free') <==>
            free' <= free && forall t :: t in tab' && t !in tab ==> tab'[t] / 0x1000 in free
    ensures Extends(tab, tab') <==> forall t :: t in tab ==> t in tab' && tab'[t] == tab[t]
  {
  }

  lemma PoolFrame(f: nat, pool: set<nat>, total: nat, size: nat)
    requires f % PAGE == 0 && f / PAGE in pool && PoolOk(pool, total, size)
    ensures IsFrame(f, size) && NoBitmap(f, BitmapBytes(total)) && f < total * PAGE
  {
    assert Allocatable(f / PAGE, total, size);
  }

  /** Allocating frame f, storing the link and clearing f links an empty table into the tree. */
  lemma NewTableLinked(m: Bytes, m1: Bytes, m2: Bytes, tab: Tree, t: Table, i: nat, f: nat, bitmapSize: nat)
    requires TreeOk(m, tab) && t in tab && i < 512
    requires IsFrame(f, |m|) && forall u :: u in tab ==> tab[u] != f && NoBitmap(tab[u], bitmapSize)
    requires Cleared(m, m1, f, PAGE, bitmapSize)
    requires SameExcept(m1, m2, tab[t] + 8 * i, 8) && Load64(m2, tab[t] + 8 * i) == f + 3
    ensures Linked(m, Filled(m2, f, 0, PAGE), tab, t, i, f)
  {
    hide Entry, Cleared, Filled, SameExcept, Same, NoBitmap;
    SameLengths(m, m1, m2, f, tab[t] + 8 * i, bitmapSize);
    var m3 := Filled(m2, f, 0, PAGE);
    ClearedEntries(m2, f);
    forall u | u in tab ensures Same(m, m1, tab[u], tab[u] + PAGE) && Same(m2, m3, tab[u], tab[u] + PAGE) {
      FrameSpared(m, m1, m2, f, tab[u], bitmapSize);
    }
    forall u, k | u in tab && 0 <= k < 512 && (u != t || k != i)
      ensures Entry(m3, tab[u], k) == Entry(m, tab[u], k)
    {
      EntriesKept(m, m1, tab[u]);
      SlotWritten(m1, m2, tab[t], i, tab[u], k);
      EntriesKept(m2, m3, tab[u]);
    }
    EntriesKept(m2, m3, tab[t]);
    SlotHolds(m2, tab[t], i);
  }

  lemma SameLengths(m: Bytes, m1: Bytes, m2: Bytes, f: nat, a: nat, bitmapSize: nat)
    requires Cleared(m, m1, f, PAGE, bitmapSize) && SameExcept(m1, m2, a, 8)
    ensures |m2| == |m1| == |m|
  {
  }

  lemma SlotHolds(m: Bytes, f: nat, i: nat)
    requires f + 8 * i + 8 <= |m|
    ensures Entry(m, f, i) == Load64(m, f + 8 * i)
  {
  }

  lemma ClearedEntries(m: Bytes, f: nat)
    requires f + PAGE <= |m|
    ensures forall k :: 0 <= k < 512 ==> Entry(Filled(m, f, 0, PAGE), f, k) == 0
  {
    forall k | 0 <= k < 512 ensures Entry(Filled(m, f, 0, PAGE), f, k) == 0 {
      LoadZero(Filled(m, f, 0, PAGE), f + 8 * k);
    }
  }

  /** Clearing frame f, by the allocator and then by vmm_map_page, spares every other table frame g. */
  lemma FrameSpared(m: Bytes, m1: Bytes, m2: Bytes, f: nat, g: nat, bitmapSize: nat)
    requires IsFrame(f, |m|) && IsFrame(g, |m|) && f != g && NoBitmap(g, bitmapSize) && |m2| == |m|
    requires Cleared(m, m1, f, PAGE, bitmapSize)
    ensures Same(m, m1, g, g + PAGE) && Same(m2, Filled(m2, f, 0, PAGE), g, g + PAGE)
  {
    FramesApart(f, g);
  }

  lemma ParentsOnPath(m: Bytes, tab: Tree, v: nat)
    requires TreeOk(m, tab)
    ensures PathPt(v) in tab ==> Pd(I4(v), I3(v)) in tab
    ensures Pd(I4(v), I3(v)) in tab ==> Pdpt(I4(v)) in tab
  {
    assert Parent(PathPt(v)) == Pd(I4(v), I3(v)) && Parent(Pd(I4(v), I3(v))) == Pdpt(I4(v));
  }

  lemma TranslateCases(e: U64, offset: nat)
    requires offset < 0x1000
    ensures Translate(e, offset) == if Present(e) then Or(FrameOf(e), offset) else 0
    ensures Translate(0, offset) == 0
  {
  }

  lemma OffsetValue(va: U64)
    ensures And(va, 0xFFF) == va % 0x1000
  {
    Pow2Page();
    AndLowMask(va, 12);
    DivMod(va, 12);
  }

  /** Table frames hold no part of the bitmap, and a page that is still free is not one of them. */
  lemma OwnedFrames(m: Bytes, tab: Tree, free: set<nat>, pool: set<nat>, total: nat)
    requires TreeOk(m, tab) && Owned(tab, free, pool) && PoolOk(pool, total, |m|)
    ensures forall t :: t in tab ==> NoBitmap(tab[t], BitmapBytes(total))
    ensures forall t, f :: t in tab && f / PAGE in free ==> tab[t] != f
  {
    forall t | t in tab ensures NoBitmap(tab[t], BitmapBytes(total)) {
      PoolFrame(tab[t], pool, total, |m|);
    }
  }

  lemma OwnedGrows(tab: Tree, free: set<nat>, free': set<nat>, pool: set<nat>, c: Table, f: nat)
    requires Owned(tab, free, pool) && f / PAGE in pool
    requires forall p :: p in free' <==> p in free && p != f / PAGE
    ensures Owned(tab[c := f], free', pool)
  {
  }

  lemma OnlyTablesRefl(m: Bytes, tab: Tree, bitmapSize: nat)
    ensures OnlyTables(m, m, tab, bitmapSize)
  {
  }

  lemma SlotOnlyTables(m: Bytes, m': Bytes, tab: Tree, t: Table, i: nat, bitmapSize: nat)
    requires t in tab && i < 512 && SameExcept(m, m', tab[t] + 8 * i, 8)
    ensures OnlyTables(m, m', tab, bitmapSize)
  {
  }

  lemma OnlyTablesTrans(m: Bytes, m1: Bytes, m2: Bytes, tab1: Tree, tab2: Tree, bitmapSize: nat)
    requires OnlyTables(m, m1, tab1, bitmapSize) && OnlyTables(m1, m2, tab2, bitmapSize)
    requires Extends(tab1, tab2)
    ensures OnlyTables(m, m2, tab2, bitmapSize)
  {
    forall i | 0 <= i < |m| && !(BITMAP <= i < BITMAP + bitmapSize) && m2[i] != m[i]
      ensures exists t :: t in tab2 && tab2[t] <= i < tab2[t] + PAGE
    {
      if m1[i] != m[i] {
        var t :| t in tab1 && tab1[t] <= i < tab1[t] + PAGE;
        assert t in tab2 && tab2[t] <= i < tab2[t] + PAGE;
      } else {
        assert m2[i] != m1[i];
      }
    }
  }

  lemma NewTableOnlyTables(m: Bytes, m1: Bytes, m2: Bytes, tab: Tree, t: Table, i: nat, c: Table, f: nat, bitmapSize: nat)
    requires t in tab && i < 512 && c !in tab && f + PAGE <= |m|
    requires Cleared(m, m1, f, PAGE, bitmapSize) && SameExcept(m1, m2, tab[t] + 8 * i, 8)
    ensures OnlyTables(m, Filled(m2, f, 0, PAGE), tab[c := f], bitmapSize)
  {
    var m3, tab' := Filled(m2, f, 0, PAGE), tab[c := f];
    forall k | 0 <= k < |m| && !(BITMAP <= k < BITMAP + bitmapSize) && m3[k] != m[k]
      ensures exists u :: u in tab' && tab'[u] <= k < tab'[u] + PAGE
    {
      var u := if f <= k < f + PAGE then c else t;
      assert u in tab' && tab'[u] <= k < tab'[u] + PAGE;
    }
  }

  /** tab' has every table of tab, at the same frame. */
  ghost predicate Extends(tab: Tree, tab': Tree) {
    forall t :: t in tab ==> t in tab' && tab'[t] == tab[t]
  }

  /** How the tree and the free-page count change when tables are created on the path to v. */
  ghost predicate Grown(tab: Tree, tab': Tree, v: nat, free: nat, free': nat, done: bool) {
    && |tab'| + free' == |tab| + free
    && (done ==> tab'.Keys == tab.Keys + PathTables(v) && free' == free - Missing(tab, v))
    && (!done ==> free' == 0 && tab'.Keys < tab.Keys + PathTables(v))
  }

  lemma GrownMeans(tab: Tree, tab': Tree, v: nat, free: nat, free': nat, done: bool)
    requires Grown(tab, tab', v, free, free', done)
    ensures |tab'| + free' == |tab| + free && free' == if done then free - Missing(tab, v) else 0
  {
  }

  /** The tree with table c at frame f, if it was not there yet. */
  function Plus(tab: Tree, c: Table, f: nat): Tree {
    if c in tab then tab else tab[c := f]
  }

  /** All three tables of the path, added one after the other. */
  lemma GrownDone(tab: Tree, v: nat, f1: nat, f2: nat, f3: nat, free: nat)
    requires free >= Missing(tab, v)
    ensures var tab' := Plus(Plus(Plus(tab, Pdpt(I4(v)), f1), Pd(I4(v), I3(v)), f2), PathPt(v), f3);
            Grown(tab, tab', v, free, free - Missing(tab, v), true)
  {
    hide Plus, I2, I3, I4, PathTables;
    var c1, c2, c3 := Pdpt(I4(v)), Pd(I4(v), I3(v)), PathPt(v);
    PlusThreeSize(tab, c1, c2, c3, f1, f2, f3);
    PlusThreeKeys(tab, c1, c2, c3, f1, f2, f3);
    PathMembers(v);
  }

  lemma PlusThreeSize(tab: Tree, c1: Table, c2: Table, c3: Table, f1: nat, f2: nat, f3: nat)
    requires c1 != c2 && c1 != c3 && c2 != c3
    ensures |Plus(Plus(Plus(tab, c1, f1), c2, f2), c3, f3)| ==
            |tab| + (if c1 in tab then 0 else 1) + (if c2 in tab then 0 else 1) + (if c3 in tab then 0 else 1)
  {
    hide Plus;
    var tab1 := Plus(tab, c1, f1);
    var tab2 := Plus(tab1, c2, f2);
    PlusSize(tab, c1, f1);
    PlusSize(tab1, c2, f2);
    PlusSize(tab2, c3, f3);
    PlusMember(tab, c1, f1, c2);
    PlusMember(tab, c1, f1, c3);
    PlusMember(tab1, c2, f2, c3);
  }

  lemma PlusThreeKeys(tab: Tree, c1: Table, c2: Table, c3: Table, f1: nat, f2: nat, f3: nat)
    ensures Plus(Plus(Plus(tab, c1, f1), c2, f2), c3, f3).Keys == tab.Keys + {c1, c2, c3}
  {
    hide Plus;
    var tab1 := Plus(tab, c1, f1);
    var tab2 := Plus(tab1, c2, f2);
    forall t ensures t in Plus(tab2, c3, f3).Keys <==> t in tab.Keys + {c1, c2, c3} {
      PlusMember(tab, c1, f1, t);
      PlusMember(tab1, c2, f2, t);
      PlusMember(tab2, c3, f3, t);
    }
  }

  lemma PlusMember(tab: Tree, c: Table, f: nat, t: Table)
    ensures t in Plus(tab, c, f) <==> t in tab || t == c
  {
  }

  lemma PlusSize(tab: Tree, c: Table, f: nat)
    ensures Plus(tab, c, f).Keys == tab.Keys + {c}
    ensures |Plus(tab, c, f)| == |tab| + if c in tab then 0 else 1
  {
  }

  lemma PlusTwice(tab: Tree, c1: Table, f1: nat, c2: Table, f2: nat)
    requires c1 != c2
    ensures var tab' := Plus(Plus(tab, c1, f1), c2, f2);
            && tab'.Keys == tab.Keys + {c1, c2}
            && |tab'| == |tab| + (if c1 in tab then 0 else 1) + (if c2 in tab then 0 else 1)
  {
    hide Plus;
    PlusSize(tab, c1, f1);
    PlusSize(Plus(tab, c1, f1), c2, f2);
    PlusMember(tab, c1, f1, c2);
  }

  lemma PlusHas(tab: Tree, c1: Table, f1: nat, c2: Table, f2: nat)
    ensures c2 in Plus(Plus(tab, c1, f1), c2, f2)
    ensures forall t :: t in tab ==> t in Plus(Plus(tab, c1, f1), c2, f2)
  {
  }

  /** How many of the two upper tables on the way to page number v do not exist yet. */
  function MissingUpper(tab: Tree, v: nat): nat {
    (if Pdpt(I4(v)) in tab then 0 else 1) + (if Pd(I4(v), I3(v)) in tab then 0 else 1)
  }

  /** The last level of the path, once the upper two exist. */
  lemma GrownThird(tab0: Tree, tab: Tree, v: nat, pdp: nat, pd: nat, pt: nat, free0: nat, free2: nat, free: nat)
    requires free2 == free0 - MissingUpper(tab0, v)
    requires var tab2 := Plus(Plus(tab0, Pdpt(I4(v)), pdp), Pd(I4(v), I3(v)), pd);
             && (pt == 0 <==> PathPt(v) !in tab2 && free2 == 0)
             && tab == (if pt == 0 then tab2 else Plus(tab2, PathPt(v), pt))
             && free == free2 - if pt == 0 || PathPt(v) in tab2 then 0 else 1
    ensures Grown(tab0, tab, v, free0, free, pt != 0)
    ensures pt == 0 <==> free0 < Missing(tab0, v)
  {
    hide Plus, I2, I3, I4, PathTables, Grown;
    var c1, c2, c3 := Pdpt(I4(v)), Pd(I4(v), I3(v)), PathPt(v);
    PlusTwice(tab0, c1, pdp, c2, pd);
    PathMembers(v);
    assert c3 in Plus(Plus(tab0, c1, pdp), c2, pd).Keys <==> c3 in tab0.Keys;
    if pt == 0 {
      GrownShort(tab0, tab, v, c3, free0);
    } else {
      GrownDone(tab0, v, pdp, pd, pt, free0);
    }
  }

  /** Pages ran out before table c of the path could be created. */
  lemma GrownShort(tab: Tree, tab': Tree, v: nat, c: Table, free: nat)
    requires tab.Keys <= tab'.Keys <= tab.Keys + PathTables(v) && c in PathTables(v) && c !in tab'
    requires |tab'| == |tab| + free
    ensures Grown(tab, tab', v, free, 0, false)
  {
  }

  /** New tables sit in frames that were free, and no page was freed. */
  ghost predicate TookFrames(tab: Tree, tab': Tree, free: set<nat>, free': set<nat>) {
    && (forall p :: p in free' ==> p in free)
    && (forall t :: t in tab' && t !in tab ==> tab'[t] / PAGE in free)
  }

  lemma TookFramesTrans(tab: Tree, tab1: Tree, tab2: Tree, free: set<nat>, free1: set<nat>, free2: set<nat>)
    requires TookFrames(tab, tab1, free, free1) && TookFrames(tab1, tab2, free1, free2) && Extends(tab1, tab2)
    ensures TookFrames(tab, tab2, free, free2)
  {
  }

  lemma PathMembers(v: nat)
    ensures PathTables(v) == {Pdpt(I4(v)), Pd(I4(v), I3(v)), PathPt(v)}
  {
  }

  lemma IndexBounds(v: nat)
    ensures I2(v) < 512 && I3(v) < 512 && I4(v) < 512
  {
  }

  lemma ExtendsTrans(tab: Tree, tab1: Tree, tab2: Tree)
    requires Extends(tab, tab1) && Extends(tab1, tab2)
    ensures Extends(tab, tab2)
  {
  }

  lemma SameTree(tab: Tree, tab': Tree, v: nat)
    requires Extends(tab, tab') && Missing(tab, v) == 0 && tab'.Keys == tab.Keys + PathTables(v)
    ensures tab' == tab
  {
    assert tab'.Keys == tab.Keys;
  }

  // ----- other users of the page allocator

  /** Memory that agrees on every table frame holds the same tree. */
  lemma TreeSurvives(m: Bytes, m': Bytes, tab: Tree)
    requires TreeOk(m, tab) && |m'| == |m| && forall t :: t in tab ==> Same(m, m', tab[t], tab[t] + PAGE)
    ensures TreeOk(m', tab)
    ensures forall v :: 0 <= v < PAGES ==> Flat(m', tab, v) == Flat(m, tab, v)
  {
    hide Entry;
    forall t | t in tab ensures forall i :: 0 <= i < 512 ==> Entry(m', tab[t], i) == Entry(m, tab[t], i) {
      EntriesKept(m, m', tab[t]);
    }
    assert forall v :: 0 <= v < PAGES ==> I1(v) < 512;
  }

  /** A run taken by someone else holds no table frame. */
  lemma TakenSparesTables(m: Bytes, m': Bytes, tab: Tree, free: set<nat>, pool: set<nat>, total: nat, s: nat, count: nat)
    requires TreeOk(m, tab) && Owned(tab, free, pool) && PoolOk(pool, total, |m|)
    requires PageRuns.AllFree(free, s, count) && Cleared(m, m', s * PAGE, count * PAGE, BitmapBytes(total))
    ensures forall t :: t in tab ==> Same(m, m', tab[t], tab[t] + PAGE)
  {
    hide BitmapBytes;
    forall t | t in tab ensures Same(m, m', tab[t], tab[t] + PAGE) {
      PoolFrame(tab[t], pool, total, |m|);
      var p := tab[t] / PAGE;
      assert !(s <= p < s + count);
      assert p < s ==> tab[t] + PAGE <= s * PAGE;
      assert s + count <= p ==> s * PAGE + count * PAGE <= tab[t];
    }
  }

  /** Changes to the bitmap alone touch no table frame. */
  lemma BitmapSparesTables(m: Bytes, m': Bytes, tab: Tree, free: set<nat>, pool: set<nat>, total: nat)
    requires TreeOk(m, tab) && Owned(tab, free, pool) && PoolOk(pool, total, |m|)
    requires SameExcept(m, m', BITMAP, BitmapBytes(total))
    ensures forall t :: t in tab ==> Same(m, m', tab[t], tab[t] + PAGE)
  {
    hide BitmapBytes;
    forall t | t in tab ensures Same(m, m', tab[t], tab[t] + PAGE) {
      PoolFrame(tab[t], pool, total, |m|);
    }
  }

  // ----- vmm_protect

  function FirstPage(start: U64): nat {
    FrameOf(start) / PAGE
  }

  function LimitPage(start: U64, size: U64): nat {
    FrameOf(Wrap(Wrap(start + size) + 0xFFF)) / PAGE
  }

  /** The range the documentation promises, in unbounded arithmetic, ends before this page. */
  function PromisedLimit(start: U64, size: U64): nat {
    (start + size + 0xFFF) / PAGE
  }

  lemma RangeAligned(start: U64, size: U64)
    ensures FrameOf(start) == FirstPage(start) * PAGE
    ensures FrameOf(Wrap(Wrap(start + size) + 0xFFF)) == LimitPage(start, size) * PAGE
  {
    hide FrameOf, Wrap;
    FloorPage(start);
    FloorPage(Wrap(Wrap(start + size) + 0xFFF));
  }

  lemma FloorPage(x: U64)
    ensures FrameOf(x) / PAGE == x / PAGE && FrameOf(x) == (x / PAGE) * PAGE
  {
    FrameOfValue(x);
  }

  predicate Hits(q: nat, v: nat) {
    q % PAGES == v
  }

  /** Some page of [first, limit) has page number v. */
  ghost predicate Touched(first: nat, limit: nat, v: nat) {
    exists q :: first <= q < limit && Hits(q, v)
  }

  lemma TouchedEmpty(first: nat, limit: nat)
    requires limit <= first
    ensures forall v :: 0 <= v < PAGES ==> !Touched(first, limit, v)
  {
  }

  lemma TouchedNext(first: nat, q: nat)
    requires first <= q
    ensures forall v :: 0 <= v < PAGES ==> (Touched(first, q + 1, v) <==> Touched(first, q, v) || v == q % PAGES)
  {
    forall v | 0 <= v < PAGES
      ensures Touched(first, q + 1, v) <==> Touched(first, q, v) || v == q % PAGES
    {
      if v == q % PAGES { assert Hits(q, v); }
      if Touched(first, q, v) {
        var p :| first <= p < q && Hits(p, v);
        assert first <= p < q + 1 && Hits(p, v);
      }
    }
  }

  /** Without wrap-around the loop visits exactly the pages that meet the range. */
  lemma RangeMeans(start: U64, size: U64, q: nat)
    requires start + size + 0xFFF < WORD
    ensures FirstPage(start) <= q < LimitPage(start, size) <==> q * 0x1000 < start + size && start < (q + 1) * 0x1000
  {
    hide FrameOf, Wrap;
    FloorPage(start);
    FloorPage(Wrap(Wrap(start + size) + 0xFFF));
    WrapSmall(start + size);
    WrapSmall(start + size + 0xFFF);
  }

  lemma Reaches(first: nat, limit: nat, q: nat)
    requires first <= q < limit
    ensures Touched(first, limit, q % PAGES)
  {
    assert Hits(q, q % PAGES);
  }

  /** What wrapping does to the end of the range: it never lies more than one page past the start,
      while the promised range goes on to the top of the address space. */
  lemma WrappedLimit(start: U64, size: U64)
    requires start + size + 0xFFF >= WORD
    ensures LimitPage(start, size) <= start / PAGE + 1
    ensures PromisedLimit(start, size) > start / PAGE
    ensures LimitPage(start, size) == start / PAGE + 1 ==> PromisedLimit(start, size) > start / PAGE + 1
  {
    hide FrameOf, Wrap;
    var w := Wrap(Wrap(start + size) + 0xFFF);
    FloorPage(w);
    WrapTwice(start, size);
  }

  lemma WrapTwice(start: U64, size: U64)
    requires start + size + 0xFFF >= WORD
    ensures var w := Wrap(Wrap(start + size) + 0xFFF);
            w == start + size + 0xFFF - WORD || w == start + size + 0xFFF - 2 * WORD
  {
    hide Wrap;
    if start + size < WORD {
      WrapSmall(start + size);
      WrapOver(start + size + 0xFFF);
    } else {
      WrapOver(start + size);
      if start + size + 0xFFF < 2 * WORD {
        WrapSmall(start + size + 0xFFF - WORD);
      } else {
        WrapOver(start + size + 0xFFF - WORD);
      }
    }
  }

  /** The loop touches exactly the promised page numbers if and only if rounding up the end does not
      wrap. */
  lemma RangeIsPromised(start: U64, size: U64)
    ensures (forall v :: 0 <= v < PAGES ==>
               (Touched(FirstPage(start), LimitPage(start, size), v) <==> Touched(start / PAGE, PromisedLimit(start, size), v)))
            <==> start + size + 0xFFF < WORD
  {
    hide FrameOf, Wrap;
    var first, limit, promised := FirstPage(start), LimitPage(start, size), PromisedLimit(start, size);
    FloorPage(start);
    if start + size + 0xFFF < WORD {
      FloorPage(Wrap(Wrap(start + size) + 0xFFF));
      WrapSmall(start + size);
      WrapSmall(start + size + 0xFFF);
      assert limit == promised;
    } else {
      WrappedLimit(start, size);
      if limit <= first {
        TouchedEmpty(first, limit);
        Reaches(first, promised, first);
      } else {
        assert limit == first + 1;
        Reaches(first, promised, first + 1);
        TouchedNext(first, first);
        TouchedEmpty(first, first);
        assert !Touched(first, limit, (first + 1) % PAGES);
      }
    }
  }

  /** What vmm_protect does to one entry. */
  function Reflag(e: U64, flags: U32): U64 {
    if Translate(e, 0) == 0 then e else MakeEntry(Translate(e, 0), flags)
  }

  lemma ReflagTwice(e: U64, flags: U32)
    ensures Reflag(Reflag(e, flags), flags) == Reflag(e, flags)
  {
    hide Translate, MakeEntry, Or;
    var p := Translate(e, 0);
    if p != 0 {
      var e' := MakeEntry(p, flags);
      MakeEntryParts(p, flags);
      TranslateValue(e', 0);
      var p' := Translate(e', 0);
      if p' != 0 {
        MakeEntryParts(p', flags);
        OrAbsorbs(p / PAGE, flags / PAGE);
        assert p' / PAGE == e' / PAGE;
      }
    }
  }

  /** What reprotecting does, for every flags value: an entry that leads to a nonzero frame gets the new
      flags, their high bits going into the frame number; any other entry stays. Without the present
      flag the page no longer translates. */
  lemma ReflagFlags(e: U64, flags: U32, offset: nat)
    requires offset < 0x1000
    ensures e % 2 == 0 || e < 0x1000 ==> Reflag(e, flags) == e
    ensures e % 2 == 1 && e >= 0x1000 ==>
              && Reflag(e, flags) % 0x1000 == flags % 0x1000
              && Reflag(e, flags) / 0x1000 == Or(e / 0x1000, flags / 0x1000)
              && (flags % 2 == 0 ==> Translate(Reflag(e, flags), offset) == 0)
  {
    hide Translate, MakeEntry, Or;
    FrameNumber(e);
    var p := Translate(e, 0);
    if p != 0 {
      MakeEntryParts(p, flags);
      SameParity(MakeEntry(p, flags), flags);
      TranslateValue(MakeEntry(p, flags), offset);
    }
  }

  lemma FrameNumber(e: U64)
    ensures Translate(e, 0) != 0 <==> e % 2 == 1 && e >= 0x1000
    ensures Translate(e, 0) != 0 ==> Translate(e, 0) / 0x1000 == e / 0x1000
  {
    hide Translate;
    TranslateValue(e, 0);
  }

  lemma SameParity(x: nat, y: nat)
    requires x % 0x1000 == y % 0x1000
    ensures x % 2 == y % 2
  {
    LowBit(x);
    LowBit(y);
  }

  lemma LowBit(x: nat)
    ensures x % 2 == (x % 0x1000) % 2
  {
    var q, r := x / 0x1000, x % 0x1000;
    DivModUnique(x, 2, 0x800 * q + r / 2, r % 2);
  }

  /** With PTE_PRESENT set and no stray bits, reprotecting changes no translation. */
  lemma ReflagTranslates(e: U64, flags: U32, offset: nat)
    requires flags % 2 == 1 && flags < 0x1000 && offset < 0x1000
    ensures Translate(Reflag(e, flags), offset) == Translate(e, offset)
    ensures Translate(e, 0) != 0 ==> Reflag(e, flags) % 0x1000 == flags
  {
    hide Translate, MakeEntry, Or;
    var p := Translate(e, 0);
    TranslateValue(e, 0);
    TranslateValue(e, offset);
    if p != 0 {
      EntryTranslates(p, flags, offset);
      MakeEntryParts(p, flags);
    }
  }

  // ----- vmm_init

  lemma BootClaims(m: Bytes)
    requires |m| >= 0x3000 * PAGE && FreeSet(m, 0x3000) == AvailablePages(BOOT_MAP)
    ensures FreeSet(Claimed(m, BITMAP / PAGE, 1), 0x3000) == PageRuns.Run(0, 0x3000)
    ensures BITMAP / PAGE in FreeSet(m, 0x3000) && forall p :: p in FreeSet(m, 0x3000) ==> BITMAP / PAGE <= p
  {
    hide FreeSet, AvailablePages, Filled, SetUsed;
    BootMapFacts(|m|);
    ClearingTheBitmap(m, 0x3000);
    FreeBelow(m, 0x3000);
    LowestPage(FreeSet(m, 0x3000), 0x3000);
    UsedRunNone(m, BITMAP / PAGE);
    UsedRunNext(m, BITMAP / PAGE, 0);
  }

  /** More than two pages are free at boot. */
  lemma BootPages(m: Bytes)
    requires FreeSet(m, 0x3000) == AvailablePages(BOOT_MAP)
    ensures |FreeSet(m, 0x3000)| > 2
  {
    BootMapFacts(|m|);
    hide TotalMemory;
    var run := PageRuns.Run(0x100, 3);
    forall p | p in run ensures p in AvailablePages(BOOT_MAP) {
      assert InRegion(BOOT_MAP[0], p);
    }
    PageRuns.RunSize(0x100, 3);
    SubsetSize(run, AvailablePages(BOOT_MAP));
  }

  /** Clearing the root again leaves every page free and its first entry empty. */
  lemma BootRoot(m: Bytes)
    requires |m| >= 0x3000 * PAGE && FreeSet(m, 0x3000) == PageRuns.Run(0, 0x3000)
    ensures FreeSet(Filled(m, BITMAP, 0, PAGE), 0x3000) == PageRuns.Run(0, 0x3000)
    ensures !Present(Load64(Filled(m, BITMAP, 0, PAGE), BITMAP))
    ensures 0 in PageRuns.Run(0, 0x3000)
  {
    hide FreeSet, Present;
    ClearedFreeSet(m, BITMAP, PAGE, 0x3000);
    LoadZero(Filled(m, BITMAP, 0, PAGE), BITMAP);
    PresentIsOdd(0);
  }

  /** A mapping that fails has used up every free page. */
  lemma NotGrown(tab: Tree, tab': Tree, v: nat, free: nat, free': nat)
    requires Grown(tab, tab', v, free, free', false)
    ensures free' == 0
  {
  }

  lemma LowGrown(tab: Tree, tab': Tree, k: nat, free: nat, free': nat)
    requires k < LOW_PAGES && Tables(tab, k, 0) && Grown(tab, tab', k, free, free', true)
    ensures Tables(tab', k + 1, 0) && free' == free - (LowCount(k + 1) - LowCount(k))
  {
    hide InLow, InHigh, PathTables, LowCount, Missing;
    LowStep(tab, k);
  }

  lemma HighGrown(tab: Tree, tab': Tree, j: nat, free: nat, free': nat)
    requires j < HIGH_PAGES && Tables(tab, LOW_PAGES, j) && Grown(tab, tab', BASE_PAGE + j, free, free', true)
    ensures Tables(tab', LOW_PAGES, j + 1) && free' == free - (HighCount(j + 1) - HighCount(j))
  {
    hide InLow, InHigh, PathTables, HighCount, Missing;
    HighStep(tab, j);
  }

  /** A cleared frame is a page-table tree with no mappings. */
  lemma EmptyTree(m: Bytes, f: nat)
    requires IsFrame(f, |m|) && forall i :: f <= i < f + PAGE ==> m[i] == 0
    ensures TreeOk(m, map[Pml4 := f])
    ensures forall v :: 0 <= v < PAGES ==> Flat(m, map[Pml4 := f], v) == 0
  {
    var tab: Tree := map[Pml4 := f];
    forall i | 0 <= i < 512 ensures Entry(m, f, i) == 0 {
      LoadZero(m, f + 8 * i);
    }
    assert forall t :: t in tab <==> t == Pml4;
  }

  lemma RootOnlyTables(m: Bytes, m1: Bytes, f: nat, bitmapSize: nat)
    requires Cleared(m, m1, f, PAGE, bitmapSize)
    ensures OnlyTables(m, Filled(m1, f, 0, PAGE), map[Pml4 := f], bitmapSize)
  {
    var tab: Tree := map[Pml4 := f];
    assert Pml4 in tab && tab[Pml4] == f;
  }

  /** The physical address that va translates to in a tree, 0 if it is not mapped. */
  ghost function Physical(m: Bytes, tab: Tree, va: U64): U64
    requires TreeOk(m, tab)
  {
    Translate(Flat(m, tab, Vpn(va)), va % 0x1000)
  }

  /** What writing one entry does to every address: on the page the new frame plus the offset,
      elsewhere nothing. */
  lemma MapSeen(m: Bytes, tab: Tree, m': Bytes, tab': Tree, va: U64, pa: U64, flags: U32, mapped: bool)
    requires TreeOk(m, tab) && TreeOk(m', tab')
    requires forall v :: 0 <= v < PAGES ==>
               Flat(m', tab', v) == if mapped && v == Vpn(va) then MakeEntry(pa, flags) else Flat(m, tab, v)
    ensures forall a: U64 :: !mapped || Vpn(a) != Vpn(va) ==> Physical(m', tab', a) == Physical(m, tab, a)
    ensures forall a: U64 :: mapped && flags % 2 == 1 && flags < 0x1000 && Vpn(a) == Vpn(va) ==>
                               Physical(m', tab', a) == pa - pa % 0x1000 + a % 0x1000
  {
    hide TreeOk, Flat, Translate, MakeEntry;
    forall a: U64 ensures 0 <= Vpn(a) < PAGES {
    }
    forall a: U64 | mapped && flags % 2 == 1 && flags < 0x1000 && Vpn(a) == Vpn(va)
      ensures Physical(m', tab', a) == pa - pa % 0x1000 + a % 0x1000
    {
      EntryTranslates(pa, flags, a % 0x1000);
    }
  }

  /** Clearing an entry: no address on the page translates any more. */
  lemma UnmapSeen(m: Bytes, tab: Tree, m': Bytes, tab': Tree, va: U64)
    requires TreeOk(m, tab) && TreeOk(m', tab')
    requires forall v :: 0 <= v < PAGES ==> Flat(m', tab', v) == if v == Vpn(va) then 0 else Flat(m, tab, v)
    ensures forall a: U64 :: Physical(m', tab', a) == if Vpn(a) == Vpn(va) then 0 else Physical(m, tab, a)
  {
    hide TreeOk, Flat, Translate;
    forall a: U64 ensures Physical(m', tab', a) == if Vpn(a) == Vpn(va) then 0 else Physical(m, tab, a) {
      TranslateCases(0, a % 0x1000);
      assert 0 <= Vpn(a) < PAGES;
    }
  }

  /** Changing flags keeps every translation, if the page stays present and no stray bit is set. */
  lemma ProtectSeen(m: Bytes, tab: Tree, m': Bytes, tab': Tree, first: nat, limit: nat, flags: U32)
    requires TreeOk(m, tab) && TreeOk(m', tab') && flags % 2 == 1 && flags < 0x1000
    requires forall v :: 0 <= v < PAGES ==>
               Flat(m', tab', v) == if Touched(first, limit, v) then Reflag(Flat(m, tab, v), flags) else Flat(m, tab, v)
    ensures forall a: U64 :: Physical(m', tab', a) == Physical(m, tab, a)
  {
    hide TreeOk, Flat, Translate, Reflag, Touched;
    forall a: U64 ensures Physical(m', tab', a) == Physical(m, tab, a) {
      assert 0 <= Vpn(a) < PAGES;
      ReflagTranslates(Flat(m, tab, Vpn(a)), flags, a % 0x1000);
    }
  }

  /** Flags without the present bit unmap every touched page that led to a nonzero frame. */
  lemma ProtectHides(m: Bytes, tab: Tree, m': Bytes, tab': Tree, first: nat, limit: nat, flags: U32)
    requires TreeOk(m, tab) && TreeOk(m', tab')
    requires forall v :: 0 <= v < PAGES ==>
               Flat(m', tab', v) == if Touched(first, limit, v) then Reflag(Flat(m, tab, v), flags) else Flat(m, tab, v)
    ensures forall a: U64 :: !Touched(first, limit, Vpn(a)) ==> Physical(m', tab', a) == Physical(m, tab, a)
    ensures forall a: U64 :: flags % 2 == 0 && Touched(first, limit, Vpn(a)) && Physical(m, tab, PageBase(a)) != 0 ==>
                               Physical(m', tab', a) == 0
  {
    hide TreeOk, Flat, Translate, Reflag, Touched;
    forall a: U64
      ensures !Touched(first, limit, Vpn(a)) ==> Physical(m', tab', a) == Physical(m, tab, a)
      ensures flags % 2 == 0 && Touched(first, limit, Vpn(a)) && Physical(m, tab, PageBase(a)) != 0 ==>
                Physical(m', tab', a) == 0
    {
      var e := Flat(m, tab, Vpn(a));
      assert 0 <= Vpn(a) < PAGES;
      SamePage(a);
      TranslateValue(e, 0);
      ReflagFlags(e, flags, a % 0x1000);
    }
  }

  /** The first address of the page that a lies on. */
  function PageBase(a: U64): U64 {
    a - a % 0x1000
  }

  lemma SamePage(a: U64)
    ensures Vpn(PageBase(a)) == Vpn(a) && PageBase(a) % 0x1000 == 0
  {
  }

  class AddressSpace {
    const pmm: PageAllocator
    /** kernel_pml4, which is also kernel_cr3. */
    var pml4: nat
    ghost var tab: Tree

    constructor (pmm: PageAllocator)
      ensures this.pmm == pmm && pml4 == 0 && tab == map[]
    {
      this.pmm := pmm;
      pml4 := 0;
      tab := map[];
    }

    ghost predicate Valid()
      reads this, pmm, pmm.mem
    {
      && pmm.Valid()
      && TreeOk(pmm.mem[..], tab)
      && tab[Pml4] == pml4
      && Owned(tab, pmm.Free(), pmm.pool)
    }

    /** The flat map this address space represents. */
    ghost function EntryAt(v: nat): U64
      requires Valid()
      reads this, pmm, pmm.mem
    {
      Flat(pmm.mem[..], tab, v)
    }

    /** The physical address that va translates to, 0 if it is not mapped. */
    ghost function PhysicalOf(va: U64): U64
      requires Valid()
      reads this, pmm, pmm.mem
    {
      Physical(pmm.mem[..], tab, va)
    }

    /** What a valid address space keeps: every table in its own page-aligned frame of the pool that is
        not free, and the root in CR3. */
    lemma ValidMeans(t: Table, u: Table)
      requires Valid() && t in tab && u in tab
      ensures tab[t] % 0x1000 == 0 && 0 < tab[t] && tab[t] + 0x1000 <= pmm.mem.Length
      ensures tab[t] / 0x1000 in pmm.pool && tab[t] / 0x1000 !in pmm.Free()
      ensures tab[t] == tab[u] ==> t == u
      ensures Pml4 in tab && pml4 == tab[Pml4] && (!t.Pml4? ==> Parent(t) in tab)
    {
    }

    lemma TreeValid()
      requires Valid()
      ensures TreeOk(pmm.mem[..], tab)
    {
    }

    method GetPhysical(va: U64) returns (r: U64)
      requires Valid()
      ensures r == PhysicalOf(va)
    {
      hide TreeOk, Owned, Translate, Present, FrameOf, And, Or, Load64, Index, Vpn, I1, I2, I3, I4, FreeSet, Stats, PoolOk, BitmapBytes;
      ghost var m, v := pmm.mem[..], Vpn(va);
      TableIndices(m, tab);
      IndicesOfAddress(va);
      OffsetValue(va);
      TranslateCases(0, va % 0x1000);
      ParentsOnPath(m, tab, v);
      var pml4Index, pdpIndex, pdIndex, ptIndex := Index(va, 39), Index(va, 30), Index(va, 21), Index(va, 12);

      Descend(m, tab, Pml4, pml4Index);
      var e := Load64(pmm.mem[..], pml4 + 8 * pml4Index);
      if !Present(e) { return 0; }

      var pdp := FrameOf(e);
      Descend(m, tab, Pdpt(pml4Index), pdpIndex);
      e := Load64(pmm.mem[..], pdp + 8 * pdpIndex);
      if !Present(e) { return 0; }

      var pd := FrameOf(e);
      Descend(m, tab, Pd(pml4Index, pdpIndex), pdIndex);
      e := Load64(pmm.mem[..], pd + 8 * pdIndex);
      if !Present(e) { return 0; }

      var pt := FrameOf(e);
      e := Load64(pmm.mem[..], pt + 8 * ptIndex);
      TranslateCases(e, va % 0x1000);
      if !Present(e) { return 0; }
      r := Or(FrameOf(e), And(va, 0xFFF));
    }

    /** Stores into a slot of a table frame; the allocator does not notice. */
    method StoreEntry(frame: nat, i: nat, e: U64)
      requires pmm.Valid() && i < 512
      requires IsFrame(frame, pmm.mem.Length) && NoBitmap(frame, pmm.bitmapSize)
      modifies pmm.mem
      ensures pmm.Valid() && pmm.Free() == old(pmm.Free())
      ensures Load64(pmm.mem[..], frame + 8 * i) == e
      ensures SameExcept(old(pmm.mem[..]), pmm.mem[..], frame + 8 * i, 8)
    {
      hide FreeSet, Stats, PoolOk, Load64;
      Store64(pmm.mem, frame + 8 * i, e);
      FreeSetFrame(old(pmm.mem[..]), pmm.mem[..], pmm.totalPages);
    }

    /** Clears a frame that holds no part of the bitmap. */
    method ClearFrame(frame: nat)
      requires pmm.Valid()
      requires IsFrame(frame, pmm.mem.Length) && NoBitmap(frame, pmm.bitmapSize)
      modifies pmm.mem
      ensures pmm.Valid() && pmm.Free() == old(pmm.Free())
      ensures pmm.mem[..] == Filled(old(pmm.mem[..]), frame, 0, PAGE)
    {
      hide FreeSet, Stats, PoolOk;
      MemorySet(pmm.mem, frame, 0, PAGE);
      FreeSetFrame(old(pmm.mem[..]), pmm.mem[..], pmm.totalPages);
    }

    /** Allocates a frame, links it into slot `index` of table t and clears it; 0 when no page is
        free. */
    method CreateTable(table: nat, index: nat, ghost t: Table) returns (f: U64)
      requires Valid() && t in tab && !t.Pt? && index < 512 && table == tab[t] && Child(t, index) !in tab
      modifies pmm`freePages, pmm`usedPhysical, pmm`availablePhysical, pmm`allocations, pmm.mem, `tab
      ensures Valid()
      ensures forall v :: 0 <= v < PAGES ==> EntryAt(v) == old(EntryAt(v))
      ensures f == 0 <==> old(pmm.freePages) == 0
      ensures if f == 0 then tab == old(tab) && unchanged(pmm) && pmm.mem[..] == old(pmm.mem[..])
              else tab == old(tab)[Child(t, index) := f] && pmm.freePages == old(pmm.freePages) - 1
      ensures TookFrames(old(tab), tab, old(pmm.Free()), pmm.Free())
      ensures OnlyTables(old(pmm.mem[..]), pmm.mem[..], tab, pmm.bitmapSize)
    {
      hide TreeOk, Owned, FrameOf, FreeSet, Stats, PoolOk, BitmapBytes, MakeLink, Load64, Linked, OnlyTables, Cleared, Described, Claimed, PaddingKept, PageRuns.Step;
      ghost var m, free := pmm.mem[..], pmm.Free();
      TableIndices(m, tab);
      OwnedFrames(m, tab, free, pmm.pool, pmm.totalPages);
      OnlyTablesRefl(m, tab, pmm.bitmapSize);
      pmm.ValidFacts();
      f := pmm.AllocPage();
      if f == 0 { return; }
      ghost var m1 := pmm.mem[..];
      PoolFrame(f, pmm.pool, pmm.totalPages, pmm.mem.Length);
      LinkValue(f);
      StoreEntry(table, index, MakeLink(f));
      ghost var m2 := pmm.mem[..];
      ClearFrame(f);
      NewTableLinked(m, m1, m2, tab, t, index, f, pmm.bitmapSize);
      NewTableOnlyTables(m, m1, m2, tab, t, index, Child(t, index), f, pmm.bitmapSize);
      LinkKeepsTree(m, pmm.mem[..], tab, t, index, f);
      LinkKeepsFlat(m, pmm.mem[..], tab, t, index, f);
      OwnedGrows(tab, free, pmm.Free(), pmm.pool, Child(t, index), f);
      tab := tab[Child(t, index) := f];
    }

    /** The step repeated at each upper level: follow slot `index` of table t, creating the child
        table first if it is missing; 0 when no frame is left for it. */
    method NextTable(table: nat, index: nat, ghost t: Table) returns (next: nat)
      requires Valid() && t in tab && !t.Pt? && index < 512 && table == tab[t]
      modifies pmm`freePages, pmm`usedPhysical, pmm`availablePhysical, pmm`allocations, pmm.mem, `tab
      ensures Valid()
      ensures forall v :: 0 <= v < PAGES ==> EntryAt(v) == old(EntryAt(v))
      ensures next == 0 <==> Child(t, index) !in old(tab) && old(pmm.freePages) == 0
      ensures Child(t, index) in old(tab) ==> unchanged(pmm) && pmm.mem[..] == old(pmm.mem[..])
      ensures next == 0 ==> tab == old(tab)
      ensures next != 0 ==> Child(t, index) in tab && next == tab[Child(t, index)]
      ensures next != 0 ==> tab == Plus(old(tab), Child(t, index), next)
      ensures pmm.freePages == old(pmm.freePages) - if next == 0 || Child(t, index) in old(tab) then 0 else 1
      ensures Extends(old(tab), tab) && TookFrames(old(tab), tab, old(pmm.Free()), pmm.Free())
      ensures OnlyTables(old(pmm.mem[..]), pmm.mem[..], tab, pmm.bitmapSize)
    {
      hide TreeOk, Owned, Present, FrameOf, FreeSet, Stats, PoolOk, BitmapBytes, Load64, OnlyTables;
      TableIndices(pmm.mem[..], tab);
      Descend(pmm.mem[..], tab, t, index);
      OnlyTablesRefl(pmm.mem[..], tab, pmm.bitmapSize);
      if !Present(Load64(pmm.mem[..], table + 8 * index)) {
        var f := CreateTable(table, index, t);
        if f == 0 { return 0; }
        TableIndices(pmm.mem[..], tab);
        Descend(pmm.mem[..], tab, t, index);
      }
      next := FrameOf(Load64(pmm.mem[..], table + 8 * index));
    }

    /** The first two levels on the path to page number v. */
    method EnsureUpper(i4: nat, i3: nat, ghost v: nat) returns (pd: nat, ghost pdp: nat)
      requires Valid() && i4 == I4(v) && i3 == I3(v)
      modifies pmm`freePages, pmm`usedPhysical, pmm`availablePhysical, pmm`allocations, pmm.mem, `tab
      ensures Valid() && Extends(old(tab), tab)
      ensures forall w :: 0 <= w < PAGES ==> EntryAt(w) == old(EntryAt(w))
      ensures pd == 0 <==> old(pmm.freePages) < MissingUpper(old(tab), v)
      ensures MissingUpper(old(tab), v) == 0 ==> unchanged(pmm) && pmm.mem[..] == old(pmm.mem[..])
      ensures pd != 0 ==>
                && pmm.freePages == old(pmm.freePages) - MissingUpper(old(tab), v)
                && tab == Plus(Plus(old(tab), Pdpt(i4), pdp), Pd(i4, i3), pd) && pd == tab[Pd(i4, i3)]
      ensures pd == 0 ==>
                && pmm.freePages == 0 && |tab| == |old(tab)| + old(pmm.freePages)
                && old(tab).Keys <= tab.Keys <= old(tab).Keys + PathTables(v) && Pd(i4, i3) !in tab
      ensures TookFrames(old(tab), tab, old(pmm.Free()), pmm.Free())
      ensures OnlyTables(old(pmm.mem[..]), pmm.mem[..], tab, pmm.bitmapSize)
    {
      hide Valid, EntryAt, Extends, OnlyTables, TookFrames, PathTables, Plus, I2, I3, I4;
      ghost var m, tab0, free0 := pmm.mem[..], tab, pmm.Free();
      IndexBounds(v);
      RootFacts();
      ParentsMissing(v);
      PathMembers(v);
      var table := NextTable(pml4, i4, Pml4);
      pdp, pd := table, 0;
      ghost var m1, tab1, free1 := pmm.mem[..], tab, pmm.Free();
      PlusSize(tab0, Pdpt(i4), pdp);
      if table == 0 { return; }
      pd := NextTable(table, i3, Pdpt(i4));
      PlusSize(tab1, Pd(i4, i3), pd);
      ExtendsTrans(tab0, tab1, tab);
      TookFramesTrans(tab0, tab1, tab, free0, free1, pmm.Free());
      OnlyTablesTrans(m, m1, pmm.mem[..], tab1, tab, pmm.bitmapSize);
    }

    /** Creates whatever tables are missing on the path to page number v. */
    method EnsureTables(i4: nat, i3: nat, i2: nat, ghost v: nat) returns (pt: nat)
      requires Valid() && i4 == I4(v) && i3 == I3(v) && i2 == I2(v)
      modifies pmm`freePages, pmm`usedPhysical, pmm`availablePhysical, pmm`allocations, pmm.mem, `tab
      ensures Valid() && Extends(old(tab), tab)
      ensures forall w :: 0 <= w < PAGES ==> EntryAt(w) == old(EntryAt(w))
      ensures pt == 0 <==> old(pmm.freePages) < Missing(old(tab), v)
      ensures Missing(old(tab), v) == 0 ==> unchanged(pmm) && pmm.mem[..] == old(pmm.mem[..])
      ensures pt != 0 ==> PathPt(v) in tab && pt == tab[PathPt(v)]
      ensures Grown(old(tab), tab, v, old(pmm.freePages), pmm.freePages, pt != 0)
      ensures TookFrames(old(tab), tab, old(pmm.Free()), pmm.Free())
      ensures OnlyTables(old(pmm.mem[..]), pmm.mem[..], tab, pmm.bitmapSize)
    {
      hide Valid, EntryAt, Extends, OnlyTables, TookFrames, Grown, PathTables, Plus, Missing, MissingUpper, I2, I3, I4;
      ghost var m, tab0, free0 := pmm.mem[..], tab, pmm.Free();
      IndexBounds(v);
      MissingParts(v);
      PathMembers(v);
      var pd;
      ghost var pdp;
      pd, pdp := EnsureUpper(i4, i3, v);
      ghost var m2, tab2, free2 := pmm.mem[..], tab, pmm.Free();
      if pd == 0 {
        GrownShort(tab0, tab, v, Pd(i4, i3), old(pmm.freePages));
        return 0;
      }
      ghost var freed := pmm.freePages;
      PlusHas(tab0, Pdpt(i4), pdp, Pd(i4, i3), pd);
      pt := NextTable(pd, i2, Pd(i4, i3));
      GrownThird(tab0, tab, v, pdp, pd, pt, old(pmm.freePages), freed, pmm.freePages);
      ExtendsTrans(tab0, tab2, tab);
      TookFramesTrans(tab0, tab2, tab, free0, free2, pmm.Free());
      OnlyTablesTrans(m, m2, pmm.mem[..], tab2, tab, pmm.bitmapSize);
    }

    lemma MissingParts(v: nat)
      requires Valid()
      ensures MissingUpper(tab, v) <= Missing(tab, v)
      ensures Missing(tab, v) == 0 ==> MissingUpper(tab, v) == 0 && PathPt(v) in tab
    {
      ParentsMissing(v);
    }

    lemma AllocatorValid()
      requires Valid()
      ensures pmm.Valid()
    {
    }

    lemma RootFacts()
      requires Valid()
      ensures Pml4 in tab && tab[Pml4] == pml4
    {
    }

    lemma ParentsMissing(v: nat)
      requires Valid()
      ensures PathPt(v) in tab ==> Pd(I4(v), I3(v)) in tab
      ensures Pd(I4(v), I3(v)) in tab ==> Pdpt(I4(v)) in tab
    {
      ParentsOnPath(pmm.mem[..], tab, v);
    }

    /** Writes the leaf slot of page number v. */
    method StoreLeaf(pt: nat, index: nat, e: U64, ghost v: nat)
      requires Valid() && v < PAGES && PathPt(v) in tab && pt == tab[PathPt(v)] && index == I1(v)
      modifies pmm.mem
      ensures Valid()
      ensures forall w :: 0 <= w < PAGES ==> EntryAt(w) == if w == v then e else old(EntryAt(w))
      ensures pmm.Free() == old(pmm.Free())
      ensures OnlyTables(old(pmm.mem[..]), pmm.mem[..], tab, pmm.bitmapSize)
    {
      hide TreeOk, Owned, FreeSet, Stats, PoolOk, BitmapBytes, Load64, OnlyTables;
      TableIndices(pmm.mem[..], tab);
      OwnedFrames(pmm.mem[..], tab, pmm.Free(), pmm.pool, pmm.totalPages);
      StoreEntry(pt, index, e);
      LeafWritten(old(pmm.mem[..]), pmm.mem[..], tab, v);
      SlotOnlyTables(old(pmm.mem[..]), pmm.mem[..], tab, PathPt(v), index, pmm.bitmapSize);
    }

    /** Maps a page. It succeeds exactly when the allocator has a frame for each missing table on
        the path; either way no other page's entry changes, and on failure none does. */
    method MapPage(va: U64, pa: U64, flags: U32) returns (r: int)
      requires Valid()
      modifies pmm`freePages, pmm`usedPhysical, pmm`availablePhysical, pmm`allocations, pmm.mem, `tab
      ensures Valid() && Extends(old(tab), tab)
      ensures r == if old(pmm.freePages) >= Missing(old(tab), Vpn(va)) then 0 else -1
      ensures forall v :: 0 <= v < PAGES ==>
                EntryAt(v) == if r == 0 && v == Vpn(va) then MakeEntry(pa, flags) else old(EntryAt(v))
      ensures forall a: U64 :: r != 0 || Vpn(a) != Vpn(va) ==> PhysicalOf(a) == old(PhysicalOf(a))
      ensures forall a: U64 :: r == 0 && flags % 2 == 1 && flags < 0x1000 && Vpn(a) == Vpn(va) ==>
                                 PhysicalOf(a) == pa - pa % 0x1000 + a % 0x1000
      ensures |tab| + pmm.freePages == |old(tab)| + old(pmm.freePages)
      ensures pmm.freePages == if r == 0 then old(pmm.freePages) - Missing(old(tab), Vpn(va)) else 0
      ensures Grown(old(tab), tab, Vpn(va), old(pmm.freePages), pmm.freePages, r == 0)
      ensures TookFrames(old(tab), tab, old(pmm.Free()), pmm.Free())
      ensures Missing(old(tab), Vpn(va)) == 0 ==> unchanged(pmm) && pmm.Free() == old(pmm.Free())
      ensures OnlyTables(old(pmm.mem[..]), pmm.mem[..], tab, pmm.bitmapSize)
    {
      hide Valid, TreeOk, Flat, Physical, Extends, OnlyTables, Grown, TookFrames, Missing, MakeEntry, Vpn;
      ghost var m, tab0 := pmm.mem[..], tab;
      TreeValid();
      r := WriteEntry(va, pa, flags);
      TreeValid();
      forall v | 0 <= v < PAGES
        ensures Flat(pmm.mem[..], tab, v) == if r == 0 && v == Vpn(va) then MakeEntry(pa, flags) else Flat(m, tab0, v)
      {
        assert EntryAt(v) == if r == 0 && v == Vpn(va) then MakeEntry(pa, flags) else old(EntryAt(v));
      }
      GrownMeans(tab0, tab, Vpn(va), old(pmm.freePages), pmm.freePages, r == 0);
      MapSeen(m, tab0, pmm.mem[..], tab, va, pa, flags, r == 0);
    }

    /** The walk of vmm_map_page. */
    method WriteEntry(va: U64, pa: U64, flags: U32) returns (r: int)
      requires Valid()
      modifies pmm`freePages, pmm`usedPhysical, pmm`availablePhysical, pmm`allocations, pmm.mem, `tab
      ensures Valid() && Extends(old(tab), tab)
      ensures r == if old(pmm.freePages) >= Missing(old(tab), Vpn(va)) then 0 else -1
      ensures forall v :: 0 <= v < PAGES ==>
                EntryAt(v) == if r == 0 && v == Vpn(va) then MakeEntry(pa, flags) else old(EntryAt(v))
      ensures Grown(old(tab), tab, Vpn(va), old(pmm.freePages), pmm.freePages, r == 0)
      ensures TookFrames(old(tab), tab, old(pmm.Free()), pmm.Free())
      ensures Missing(old(tab), Vpn(va)) == 0 ==> unchanged(pmm) && pmm.Free() == old(pmm.Free())
      ensures OnlyTables(old(pmm.mem[..]), pmm.mem[..], tab, pmm.bitmapSize)
    {
      hide Valid, EntryAt, Extends, OnlyTables, Grown, TookFrames, Missing, MakeEntry, Index, PathPt, I1, I2, I3, I4, Vpn;
      IndicesOfAddress(va);
      var pt := EnsureTables(Index(va, 39), Index(va, 30), Index(va, 21), Vpn(va));
      if pt == 0 { return -1; }
      ghost var m1 := pmm.mem[..];
      StoreLeaf(pt, Index(va, 12), MakeEntry(pa, flags), Vpn(va));
      OnlyTablesTrans(old(pmm.mem[..]), m1, pmm.mem[..], tab, tab, pmm.bitmapSize);
      r := 0;
    }

    /** Unmaps a page: its entry becomes 0 (a page with no table already reads as 0). */
    method UnmapPage(va: U64)
      requires Valid()
      modifies pmm.mem
      ensures Valid()
      ensures forall v :: 0 <= v < PAGES ==> EntryAt(v) == if v == Vpn(va) then 0 else old(EntryAt(v))
      ensures forall a: U64 :: PhysicalOf(a) == if Vpn(a) == Vpn(va) then 0 else old(PhysicalOf(a))
      ensures pmm.Free() == old(pmm.Free())
      ensures OnlyTables(old(pmm.mem[..]), pmm.mem[..], tab, pmm.bitmapSize)
    {
      hide Valid, TreeOk, Flat, Physical, OnlyTables, Vpn;
      ghost var m := pmm.mem[..];
      TreeValid();
      ClearEntry(va);
      TreeValid();
      forall v | 0 <= v < PAGES ensures Flat(pmm.mem[..], tab, v) == if v == Vpn(va) then 0 else Flat(m, tab, v) {
        assert EntryAt(v) == if v == Vpn(va) then 0 else old(EntryAt(v));
      }
      UnmapSeen(m, tab, pmm.mem[..], tab, va);
    }

    /** The walk of vmm_unmap_page. */
    method ClearEntry(va: U64)
      requires Valid()
      modifies pmm.mem
      ensures Valid()
      ensures forall v :: 0 <= v < PAGES ==> EntryAt(v) == if v == Vpn(va) then 0 else old(EntryAt(v))
      ensures pmm.Free() == old(pmm.Free())
      ensures OnlyTables(old(pmm.mem[..]), pmm.mem[..], tab, pmm.bitmapSize)
    {
      hide TreeOk, Owned, Present, FrameOf, Load64, Index, Vpn, I1, I2, I3, I4, FreeSet, Stats, PoolOk, BitmapBytes, OnlyTables;
      ghost var m, v := pmm.mem[..], Vpn(va);
      TableIndices(m, tab);
      IndicesOfAddress(va);
      ParentsOnPath(m, tab, v);
      OnlyTablesRefl(m, tab, pmm.bitmapSize);
      var pml4Index, pdpIndex, pdIndex, ptIndex := Index(va, 39), Index(va, 30), Index(va, 21), Index(va, 12);

      Descend(m, tab, Pml4, pml4Index);
      var e := Load64(pmm.mem[..], pml4 + 8 * pml4Index);
      if !Present(e) { return; }

      var pdp := FrameOf(e);
      Descend(m, tab, Pdpt(pml4Index), pdpIndex);
      e := Load64(pmm.mem[..], pdp + 8 * pdpIndex);
      if !Present(e) { return; }

      var pd := FrameOf(e);
      Descend(m, tab, Pd(pml4Index, pdpIndex), pdIndex);
      e := Load64(pmm.mem[..], pd + 8 * pdIndex);
      if !Present(e) { return; }

      StoreLeaf(FrameOf(e), ptIndex, 0, v);
    }

    /** Changes the flags of every page in the range that is mapped to a nonzero frame. It never
        needs a frame and never fails. */
    method Protect(start: U64, size: U64, flags: U32) returns (r: int)
      requires Valid()
      modifies pmm`freePages, pmm`usedPhysical, pmm`availablePhysical, pmm`allocations, pmm.mem, `tab
      ensures Valid() && r == 0
      ensures tab == old(tab) && unchanged(pmm) && pmm.Free() == old(pmm.Free())
      ensures forall v :: 0 <= v < PAGES ==>
                EntryAt(v) == if Touched(FirstPage(start), LimitPage(start, size), v)
                              then Reflag(old(EntryAt(v)), flags) else old(EntryAt(v))
      ensures forall a: U64 :: flags % 2 == 1 && flags < 0x1000 ==> PhysicalOf(a) == old(PhysicalOf(a))
      ensures forall a: U64 :: !Touched(FirstPage(start), LimitPage(start, size), Vpn(a)) ==> PhysicalOf(a) == old(PhysicalOf(a))
      ensures flags % 2 == 0 ==>
                forall a: U64 :: Touched(FirstPage(start), LimitPage(start, size), Vpn(a)) && old(PhysicalOf(PageBase(a))) != 0
                                 ==> PhysicalOf(a) == 0
      ensures OnlyTables(old(pmm.mem[..]), pmm.mem[..], tab, pmm.bitmapSize)
    {
      hide Valid, TreeOk, Flat, Physical, OnlyTables, Touched, Reflag, FirstPage, LimitPage;
      ghost var m, tab0 := pmm.mem[..], tab;
      TreeValid();
      r := ReflagRange(start, size, flags);
      TreeValid();
      ProtectHides(m, tab0, pmm.mem[..], tab, FirstPage(start), LimitPage(start, size), flags);
      if flags % 2 == 1 && flags < 0x1000 {
        ProtectSeen(m, tab0, pmm.mem[..], tab, FirstPage(start), LimitPage(start, size), flags);
      }
    }

    /** The loop of vmm_protect. */
    method ReflagRange(start: U64, size: U64, flags: U32) returns (r: int)
      requires Valid()
      modifies pmm`freePages, pmm`usedPhysical, pmm`availablePhysical, pmm`allocations, pmm.mem, `tab
      ensures Valid() && r == 0
      ensures tab == old(tab) && unchanged(pmm) && pmm.Free() == old(pmm.Free())
      ensures forall v :: 0 <= v < PAGES ==>
                EntryAt(v) == if Touched(FirstPage(start), LimitPage(start, size), v)
                              then Reflag(old(EntryAt(v)), flags) else old(EntryAt(v))
      ensures OnlyTables(old(pmm.mem[..]), pmm.mem[..], tab, pmm.bitmapSize)
    {
      hide Valid, EntryAt, OnlyTables, Missing, FrameOf, Translate, MakeEntry, PathPt, Touched, Reflag;
      RangeAligned(start, size);
      var end := FrameOf(Wrap(Wrap(start + size) + 0xFFF));
      var addr := FrameOf(start);
      ghost var first, q := FirstPage(start), FirstPage(start);
      TouchedEmpty(first, first);
      OnlyTablesRefl(pmm.mem[..], tab, pmm.bitmapSize);
      while addr < end
        invariant addr == q * PAGE && first <= q
        invariant q <= LimitPage(start, size) || q == first
        invariant Valid() && tab == old(tab) && unchanged(pmm) && pmm.Free() == old(pmm.Free())
        invariant forall v :: 0 <= v < PAGES ==>
                    EntryAt(v) == if Touched(first, q, v) then Reflag(old(EntryAt(v)), flags) else old(EntryAt(v))
        invariant OnlyTables(old(pmm.mem[..]), pmm.mem[..], tab, pmm.bitmapSize)
        decreases end - addr
      {
        label before:
        ReprotectPage(addr, flags);
        OnlyTablesTrans(old(pmm.mem[..]), old@before(pmm.mem[..]), pmm.mem[..], tab, tab, pmm.bitmapSize);
        TouchedNext(first, q);
        ReflagTwice(old(EntryAt(Vpn(addr))), flags);
        addr, q := addr + PAGE, q + 1;
      }
      if LimitPage(start, size) < first { TouchedEmpty(first, LimitPage(start, size)); }
      r := 0;
    }

    method ReprotectPage(addr: U64, flags: U32)
      requires Valid() && addr % PAGE == 0
      modifies pmm`freePages, pmm`usedPhysical, pmm`availablePhysical, pmm`allocations, pmm.mem, `tab
      ensures Valid() && tab == old(tab) && unchanged(pmm) && pmm.Free() == old(pmm.Free())
      ensures forall v :: 0 <= v < PAGES ==>
                EntryAt(v) == if v == Vpn(addr) then Reflag(old(EntryAt(v)), flags) else old(EntryAt(v))
      ensures OnlyTables(old(pmm.mem[..]), pmm.mem[..], tab, pmm.bitmapSize)
    {
      hide OnlyTables, TookFrames, FrameOf, Translate, MakeEntry, TreeOk, Owned;
      OnlyTablesRefl(pmm.mem[..], tab, pmm.bitmapSize);
      var phys := GetPhysical(addr);
      if phys != 0 {
        assert PathPt(Vpn(addr)) in tab by { TranslateCases(0, 0); }
        ParentsOnPath(pmm.mem[..], tab, Vpn(addr));
        UnmapPage(addr);
        ghost var m1 := pmm.mem[..];
        var r := MapPage(addr, phys, flags);
        SameTree(old(tab), tab, Vpn(addr));
        OnlyTablesTrans(old(pmm.mem[..]), m1, pmm.mem[..], tab, tab, pmm.bitmapSize);
        assert r == 0;
      }
    }

    /** Pages taken by anyone else hold no table. */
    method OthersTake(count: U64) returns (r: U64)
      requires Valid()
      modifies pmm`freePages, pmm`usedPhysical, pmm`availablePhysical, pmm`allocations, pmm.mem
      ensures Valid() && forall v :: 0 <= v < PAGES ==> EntryAt(v) == old(EntryAt(v))
      ensures pmm.View() == PageRuns.Step(old(pmm.View()), pmm.totalPages, PageRuns.Take(count))
    {
      hide TreeOk, FreeSet, Stats, PoolOk, BitmapBytes, Cleared, PaddingKept, Claimed, Described, PageRuns.FirstRun, PageRuns.Step, PageRuns.Run;
      ghost var m, free := pmm.mem[..], pmm.Free();
      pmm.ValidFacts();
      r := pmm.AllocPages(count);
      if r != 0 {
        PageRuns.FirstRunIsLowest(free, pmm.totalPages, count, 0);
        TakenSparesTables(m, pmm.mem[..], tab, free, pmm.pool, pmm.totalPages, r / PAGE, count);
        TreeSurvives(m, pmm.mem[..], tab);
      }
    }

    /** Pages given back by anyone else: no entry changes, and the address space stays valid exactly
        when none of them holds a table. */
    method OthersGive(start: U64, count: U64)
      requires Valid() && PageRuns.Disciplined(pmm.View(), pmm.totalPages, PageRuns.GiveRun(start, count))
      modifies pmm`freePages, pmm`usedPhysical, pmm`availablePhysical, pmm.mem
      ensures pmm.Valid() && pmm.View() == PageRuns.Step(old(pmm.View()), pmm.totalPages, PageRuns.GiveRun(start, count))
      ensures Valid() <==> forall t :: t in tab ==> tab[t] / PAGE !in PageRuns.Released(PageRuns.GiveRun(start, count), pmm.totalPages)
      ensures Valid() ==> forall v :: 0 <= v < PAGES ==> EntryAt(v) == old(EntryAt(v))
    {
      hide TreeOk, FreeSet, Stats, PoolOk, BitmapBytes, PaddingKept, PageRuns.Step, PageRuns.Released, SameExcept;
      ghost var m, free := pmm.mem[..], pmm.Free();
      pmm.ValidFacts();
      pmm.FreePages(start, count);
      BitmapSparesTables(m, pmm.mem[..], tab, free, pmm.pool, pmm.totalPages);
      TreeSurvives(m, pmm.mem[..], tab);
    }

    /** Allocates and clears the root table. */
    method NewRoot() returns (ok: bool)
      requires pmm.Valid()
      modifies pmm`freePages, pmm`usedPhysical, pmm`availablePhysical, pmm`allocations, pmm.mem, this
      ensures ok <==> old(pmm.freePages) > 0
      ensures !ok ==> pmm.Valid() && pmm.freePages == 0
      ensures ok ==> Valid() && Tables(tab, 0, 0) && pmm.freePages == old(pmm.freePages) - 1
      ensures ok ==> forall v :: 0 <= v < PAGES ==> EntryAt(v) == MapEntry(v, 0, 0)
      ensures ok ==> OnlyTables(old(pmm.mem[..]), pmm.mem[..], tab, pmm.bitmapSize)
    {
      hide FreeSet, Stats, PoolOk, BitmapBytes, TreeOk, Cleared, OnlyTables, Described, Claimed, PaddingKept;
      pmm.ValidFacts();
      var root := pmm.AllocPage();
      if root == 0 { return false; }
      PoolFrame(root, pmm.pool, pmm.totalPages, pmm.mem.Length);
      pml4 := root;
      ghost var m1 := pmm.mem[..];
      ClearFrame(root);
      RootOnlyTables(old(pmm.mem[..]), m1, root, pmm.bitmapSize);
      EmptyTree(pmm.mem[..], root);
      tab := map[Pml4 := root];
      ok := true;
    }

    /** vmm_init on the pool that the boot map makes, as far as it gets: the root lands on the bitmap,
        and the first table that the first vmm_map_page needs is refused, because page 0 is now the
        lowest free page and its address means failure. */
    method InitAtBoot() returns (r: int)
      requires pmm.Sound() && pmm.totalPages == 0x3000 && pmm.mem.Length >= 0x3000 * PAGE
      requires pmm.Free() == AvailablePages(BOOT_MAP)
      modifies pmm`freePages, pmm`usedPhysical, pmm`availablePhysical, pmm`allocations, pmm.mem, this
      ensures r == -1 && pml4 == BITMAP && pmm.freePages > 0
    {
      hide FreeSet, Stats, Described, Claimed, PaddingKept, Cleared, PoolOk, AvailablePages, Load64, Present, Index, PageRuns.Step;
      IndicesOfAddress(0);
      ghost var m := pmm.mem[..];
      BootClaims(m);
      BootPages(m);
      FreeBelow(m, 0x3000);
      var root := pmm.AllocPage();
      if root == 0 { return -1; }
      pml4 := root;
      ghost var m1 := pmm.mem[..];
      MemorySet(pmm.mem, root, 0, PAGE);
      BootRoot(m1);
      FreeBelow(pmm.mem[..], 0x3000);
      if !Present(Load64(pmm.mem[..], pml4 + 8 * Index(0, 39))) {
        var pdp := TakePageZero();
        if pdp == 0 { return -1; }
      }
      assert false;
    }

    /** With page 0 free, vmm_map_page is handed address 0 for a new table and takes it for a failure. */
    method TakePageZero() returns (r: U64)
      requires pmm.Sized() && pmm.Backed() && 0 in pmm.Free() && pmm.freePages > 1
      modifies pmm`freePages, pmm`usedPhysical, pmm`availablePhysical, pmm`allocations, pmm.mem
      ensures r == 0 && pmm.freePages > 0
    {
      hide FreeSet, Stats, Described, Claimed, PaddingKept, Cleared, PoolOk, BitmapBytes, PageRuns.Step;
      r := pmm.AllocPage();
    }

    /** The kernel's boot sequence: pmm_init on the boot map, then vmm_init, which fails. */
    method Boot() returns (r: int)
      requires pmm.mem.Length >= 0x3000 * PAGE
      modifies pmm, pmm.mem, this
      ensures r == -1
    {
      hide FreeSet, Stats, PoolOk, AvailablePages, TotalMemory;
      BootMapFacts(pmm.mem.Length);
      var _ := pmm.Init(BOOT_MAP);
      r := InitAtBoot();
    }

    /** One round of the identity-mapping loop. */
    method MapLow(addr: U64, ghost k: nat) returns (r: int)
      requires Valid() && k < LOW_PAGES && addr == k * PAGE && Tables(tab, k, 0)
      requires forall v :: 0 <= v < PAGES ==> EntryAt(v) == MapEntry(v, k, 0)
      modifies pmm`freePages, pmm`usedPhysical, pmm`availablePhysical, pmm`allocations, pmm.mem, `tab
      ensures r == if old(pmm.freePages) >= LowCount(k + 1) - LowCount(k) then 0 else -1
      ensures Valid() && (r == 0 ==> Tables(tab, k + 1, 0)) && (r != 0 ==> pmm.freePages == 0)
      ensures r == 0 ==> pmm.freePages == old(pmm.freePages) - (LowCount(k + 1) - LowCount(k))
      ensures r == 0 ==> forall v :: 0 <= v < PAGES ==> EntryAt(v) == MapEntry(v, k + 1, 0)
      ensures r == 0 ==> EntryAt(k) == k * 0x1000 + 3
      ensures Extends(old(tab), tab)
      ensures OnlyTables(old(pmm.mem[..]), pmm.mem[..], tab, pmm.bitmapSize)
    {
      hide Valid, EntryAt, Extends, OnlyTables, TookFrames, Grown, Tables, Missing, PathTables, MakeEntry, LowCount, InLow, InHigh, Vpn;
      PageAddresses(k);
      WritableEntry(k);
      LowMissing(tab, k);
      ghost var tab0, free0 := tab, pmm.freePages;
      r := MapPage(addr, addr, RW);
      if r == 0 { LowGrown(tab0, tab, k, free0, pmm.freePages); } else { NotGrown(tab0, tab, k, free0, pmm.freePages); }
    }

    /** One round of the higher-half loop. */
    method MapHigh(phys: U64, ghost j: nat) returns (r: int)
      requires Valid() && j < HIGH_PAGES && phys == j * PAGE && Tables(tab, LOW_PAGES, j)
      requires forall v :: 0 <= v < PAGES ==> EntryAt(v) == MapEntry(v, LOW_PAGES, j)
      modifies pmm`freePages, pmm`usedPhysical, pmm`availablePhysical, pmm`allocations, pmm.mem, `tab
      ensures r == if old(pmm.freePages) >= HighCount(j + 1) - HighCount(j) then 0 else -1
      ensures Valid() && (r == 0 ==> Tables(tab, LOW_PAGES, j + 1)) && (r != 0 ==> pmm.freePages == 0)
      ensures r == 0 ==> pmm.freePages == old(pmm.freePages) - (HighCount(j + 1) - HighCount(j))
      ensures r == 0 ==> forall v :: 0 <= v < PAGES ==> EntryAt(v) == MapEntry(v, LOW_PAGES, j + 1)
      ensures r == 0 ==> EntryAt(0xF_FFF8_0000 + j) == j * 0x1000 + 3
      ensures Extends(old(tab), tab)
      ensures OnlyTables(old(pmm.mem[..]), pmm.mem[..], tab, pmm.bitmapSize)
    {
      hide Valid, EntryAt, Extends, OnlyTables, TookFrames, Grown, Tables, Missing, PathTables, MakeEntry, HighCount, InLow, InHigh, Vpn;
      PageAddresses(j);
      WritableEntry(j);
      HighStep(tab, j);
      ghost var tab0, free0 := tab, pmm.freePages;
      var virt := KERNEL_BASE + phys;
      r := MapPage(virt, phys, RW);
      if r == 0 { HighGrown(tab0, tab, j, free0, pmm.freePages); } else { NotGrown(tab0, tab, BASE_PAGE + j, free0, pmm.freePages); }
    }

    /** Identity-maps the first 4 GiB and maps 256 MiB from KERNEL_BASE. It succeeds exactly when
        2184 pages are free, and then uses exactly 2184 of them; a failed call has used up every
        free page and leaves the allocator valid. */
    method Init() returns (r: int)
      requires pmm.Valid()
      modifies pmm`freePages, pmm`usedPhysical, pmm`availablePhysical, pmm`allocations, pmm.mem, this
      ensures r == if old(pmm.freePages) >= 2184 then 0 else -1
      ensures pmm.Valid() && (r != 0 ==> pmm.freePages == 0)
      ensures r == 0 ==> Valid() && pmm.freePages == old(pmm.freePages) - 2184
      ensures r == 0 ==> forall v :: 0 <= v < PAGES ==> EntryAt(v) == MapEntry(v, LOW_PAGES, HIGH_PAGES)
      ensures r == 0 ==> forall v :: 0 <= v < PAGES ==>
                EntryAt(v) == if v < 0x10_0000 then v * 0x1000 + 3
                              else if 0xF_FFF8_0000 <= v < 0xF_FFF9_0000 then (v - 0xF_FFF8_0000) * 0x1000 + 3
                              else 0
      ensures r == 0 ==> OnlyTables(old(pmm.mem[..]), pmm.mem[..], tab, pmm.bitmapSize)
    {
      hide Valid, PageAllocator.Valid, EntryAt, MapEntry, Tables, LowCount, HighCount, OnlyTables, Extends;
      var ok := NewRoot();
      if !ok { return -1; }
      AllocatorValid();
      Counts(0, 0);
      var addr: nat := 0;
      ghost var k, j := 0, 0;
      while addr < 0x1_0000_0000
        invariant k <= LOW_PAGES && addr == k * PAGE && Valid() && pmm.Valid() && Tables(tab, k, 0)
        invariant pmm.freePages == old(pmm.freePages) - 1 - LowCount(k)
        invariant forall v :: 0 <= v < PAGES ==> EntryAt(v) == MapEntry(v, k, 0)
        invariant OnlyTables(old(pmm.mem[..]), pmm.mem[..], tab, pmm.bitmapSize)
      {
        ghost var m1, tab1 := pmm.mem[..], tab;
        Counts(k + 1, 0);
        r := MapLow(addr, k);
        OnlyTablesTrans(old(pmm.mem[..]), m1, pmm.mem[..], tab1, tab, pmm.bitmapSize);
        AllocatorValid();
        if r != 0 { return -1; }
        addr, k := addr + PAGE, k + 1;
      }
      var phys: nat := 0;
      while phys < 0x1000_0000
        invariant j <= HIGH_PAGES && phys == j * PAGE && Valid() && pmm.Valid() && Tables(tab, LOW_PAGES, j)
        invariant pmm.freePages == old(pmm.freePages) - 1 - LowCount(LOW_PAGES) - HighCount(j)
        invariant forall v :: 0 <= v < PAGES ==> EntryAt(v) == MapEntry(v, LOW_PAGES, j)
        invariant OnlyTables(old(pmm.mem[..]), pmm.mem[..], tab, pmm.bitmapSize)
      {
        ghost var m1, tab1 := pmm.mem[..], tab;
        Counts(LOW_PAGES, j + 1);
        r := MapHigh(phys, j);
        OnlyTablesTrans(old(pmm.mem[..]), m1, pmm.mem[..], tab1, tab, pmm.bitmapSize);
        AllocatorValid();
        if r != 0 { return -1; }
        phys, j := phys + PAGE, j + 1;
      }
      forall v | 0 <= v < PAGES
        ensures EntryAt(v) == if v < 0x10_0000 then v * 0x1000 + 3
                              else if 0xF_FFF8_0000 <= v < 0xF_FFF9_0000 then (v - 0xF_FFF8_0000) * 0x1000 + 3
                              else 0
      {
        FinishedEntries(v);
      }
      r := 0;
    }
  }
}
