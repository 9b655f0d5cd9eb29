/** The mappings vmm_init installs (kernel/mm/vmm.c): which tables they need, how many frames that
    takes, and what the finished map translates to. */
module KernelMap {
  import opened Bits
  import opened PageTables

  const KERNEL_BASE: nat := 0xFFFF_FFFF_8000_0000
  const KERNEL_HEAP_START: nat := 0xFFFF_FFFF_9000_0000
  const LOW_PAGES: nat := 0x10_0000        // 4 GiB
  const HIGH_PAGES: nat := 0x1_0000        // 256 MiB
  const BASE_PAGE: nat := 0xF_FFF8_0000    // page number of KERNEL_BASE
  const FRAMES_NEEDED: nat := 2184

  /** PTE_PRESENT | PTE_WRITABLE */
  const RW: U32 := 3

  function Ceil(n: nat, d: nat): nat
    requires d > 0
  {
    (n + d - 1) / d
  }

  /** Tables needed, besides the root, to map the first k pages. */
  predicate InLow(t: Table, k: nat) {
    match t
    case Pml4 => false
    case Pdpt(a) => a == 0 && 0 < k
    case Pd(a, b) => a == 0 && b * 0x4_0000 < k
    case Pt(a, b, c) => a == 0 && c < 512 && b * 0x4_0000 + c * 512 < k
  }

  function LowCount(k: nat): nat {
    (if k > 0 then 1 else 0) + Ceil(k, 0x4_0000) + Ceil(k, 512)
  }

  /** Tables needed for the first j pages from KERNEL_BASE. */
  predicate InHigh(t: Table, j: nat) {
    match t
    case Pml4 => false
    case Pdpt(a) => a == 511 && 0 < j
    case Pd(a, b) => a == 511 && b == 510 && 0 < j
    case Pt(a, b, c) => a == 511 && b == 510 && c * 512 < j
  }

  function HighCount(j: nat): nat {
    (if j > 0 then 2 else 0) + Ceil(j, 512)
  }

  /** The tables present once the first k low pages and the first j high pages are mapped. */
  ghost predicate Tables(tab: Tree, k: nat, j: nat) {
    forall t :: t in tab <==> t == Pml4 || InLow(t, k) || InHigh(t, j)
  }

  lemma LowDigits(k: nat)
    requires k < LOW_PAGES
    ensures I4(k) == 0 && I3(k) == k / 0x4_0000 && I2(k) == (k / 512) % 512
    ensures I3(k) * 0x4_0000 + I2(k) * 512 == k - k % 512
  {
  }

  lemma HighDigits(j: nat)
    requires j < HIGH_PAGES
    ensures I4(BASE_PAGE + j) == 511 && I3(BASE_PAGE + j) == 510 && I2(BASE_PAGE + j) == j / 512
  {
    var v := BASE_PAGE + j;
    assert v / 512 == 0x7FF_FC00 + j / 512;
    assert v / 512 / 512 == 0x3_FFFE;
  }

  lemma LowTable(t: Table, k: nat)
    requires k < LOW_PAGES
    ensures InLow(t, k) || t in PathTables(k) <==> InLow(t, k + 1)
  {
    hide I2, I3, I4;
    LowDigits(k);
    match t
    case Pt(a, b, c) =>
      if InLow(t, k + 1) && !InLow(t, k) {
        assert b * 0x4_0000 + c * 512 == k;
      }
    case _ =>
  }

  lemma CeilNext(k: nat, d: nat)
    requires d > 0
    ensures Ceil(k + 1, d) == Ceil(k, d) + if k % d == 0 then 1 else 0
  {
    DivPlus(k, d);
    if k % d == 0 {
      DivModUnique(k + d - 1, d, k / d, d - 1);
    } else {
      DivModUnique(k - 1, d, k / d, k % d - 1);
      DivPlus(k - 1, d);
    }
  }

  lemma DivPlus(x: nat, d: nat)
    requires d > 0
    ensures (x + d) / d == x / d + 1
  {
    var q, r := x / d, x % d;
    assert d * (q + 1) == d * q + d;
    DivModUnique(x + d, d, q + 1, r);
  }

  lemma LowMissing(tab: Tree, k: nat)
    requires k < LOW_PAGES && Tables(tab, k, 0)
    ensures Missing(tab, k) == LowCount(k + 1) - LowCount(k)
  {
    hide I2, I3, I4, Ceil;
    CeilNext(k, 512);
    CeilNext(k, 0x4_0000);
    LowDigits(k);
    assert (Pd(0, I3(k)) in tab <==> k % 0x4_0000 != 0) && (PathPt(k) in tab <==> k % 512 != 0);
  }

  lemma LowStep(tab: Tree, k: nat)
    requires k < LOW_PAGES && Tables(tab, k, 0)
    ensures Missing(tab, k) == LowCount(k + 1) - LowCount(k)
    ensures forall t :: t in tab || t in PathTables(k) <==> t == Pml4 || InLow(t, k + 1) || InHigh(t, 0)
  {
    hide InLow, PathTables, LowCount, Missing;
    LowMissing(tab, k);
    forall t ensures t in tab || t in PathTables(k) <==> t == Pml4 || InLow(t, k + 1) || InHigh(t, 0) {
      LowTable(t, k);
    }
  }

  lemma HighStep(tab: Tree, j: nat)
    requires j < HIGH_PAGES && Tables(tab, LOW_PAGES, j)
    ensures Missing(tab, BASE_PAGE + j) == HighCount(j + 1) - HighCount(j)
    ensures forall t :: t in tab || t in PathTables(BASE_PAGE + j)
                        <==> t == Pml4 || InLow(t, LOW_PAGES) || InHigh(t, j + 1)
  {
    hide I2, I3, I4, Ceil;
    CeilNext(j, 512);
    HighDigits(j);
  }

  lemma PageAddresses(k: nat)
    ensures k < LOW_PAGES ==> Vpn(k * 0x1000) == k
    ensures k < HIGH_PAGES ==> KERNEL_BASE + k * 0x1000 < WORD && Vpn(KERNEL_BASE + k * 0x1000) == BASE_PAGE + k
  {
  }

  lemma Counts(k: nat, j: nat)
    requires k <= LOW_PAGES && j <= HIGH_PAGES
    ensures 1 + LowCount(k) + HighCount(j) <= FRAMES_NEEDED
    ensures LowCount(0) == 0 && HighCount(0) == 0
    ensures 1 + LowCount(LOW_PAGES) + HighCount(HIGH_PAGES) == FRAMES_NEEDED
  {
  }

  /** The entry of page number v once k low and j high pages are mapped. */
  function MapEntry(v: nat, k: nat, j: nat): U64
    requires k <= LOW_PAGES && j <= HIGH_PAGES
  {
    if v < k then MakeEntry(v * 0x1000, RW)
    else if BASE_PAGE <= v < BASE_PAGE + j then MakeEntry((v - BASE_PAGE) * 0x1000, RW)
    else 0
  }

  lemma MapEntryTranslates(physical: U64, offset: nat)
    requires physical % 0x1000 == 0 && offset < 0x1000
    ensures Translate(MakeEntry(physical, RW), offset) == physical + offset
  {
    EntryTranslates(physical, RW, offset);
  }

  lemma VpnOffset(va: U64)
    ensures va % 0x1_0000_0000_0000 == Vpn(va) * 0x1000 + va % 0x1000
  {
  }

  /** A page mapped present and writable: the frame's address plus 3. */
  lemma WritableEntry(p: nat)
    requires p < 0x10_0000_0000_0000
    ensures p * 0x1000 < WORD && MakeEntry(p * 0x1000, RW) == p * 0x1000 + 3
  {
    hide MakeEntry, Or;
    MakeEntryParts(p * 0x1000, RW);
    NoHighFlags(p);
  }

  lemma NoHighFlags(p: nat)
    ensures Or(p, RW / 0x1000) == p
  {
  }

  /** Every entry of the finished map: present and writable on both ranges, empty elsewhere. */
  lemma FinishedEntries(v: nat)
    requires v < 0x10_0000_0000
    ensures MapEntry(v, LOW_PAGES, HIGH_PAGES) ==
            if v < 0x10_0000 then v * 0x1000 + 3
            else if 0xF_FFF8_0000 <= v < 0xF_FFF9_0000 then (v - 0xF_FFF8_0000) * 0x1000 + 3
            else 0
  {
    hide MakeEntry;
    if v < LOW_PAGES {
      WritableEntry(v);
    } else if BASE_PAGE <= v < BASE_PAGE + HIGH_PAGES {
      WritableEntry(v - BASE_PAGE);
    }
  }

  /** The finished map: the first 4 GiB translate to themselves, the 256 MiB from KERNEL_BASE to the
      start of physical memory, and nothing else translates. */
  lemma FinishedMap(va: U64)
    ensures Translate(MapEntry(Vpn(va), LOW_PAGES, HIGH_PAGES), va % 0x1000) ==
            if va % 0x1_0000_0000_0000 < 0x1_0000_0000 then va % 0x1_0000_0000_0000
            else if 0xFFFF_8000_0000 <= va % 0x1_0000_0000_0000 < 0xFFFF_9000_0000
            then va % 0x1_0000_0000_0000 - 0xFFFF_8000_0000
            else 0
  {
    hide Translate, MakeEntry;
    VpnOffset(va);
    TranslateValue(0, va % 0x1000);
    if Vpn(va) < LOW_PAGES {
      MapEntryTranslates(Vpn(va) * 0x1000, va % 0x1000);
    } else if BASE_PAGE <= Vpn(va) < BASE_PAGE + HIGH_PAGES {
      MapEntryTranslates((Vpn(va) - BASE_PAGE) * 0x1000, va % 0x1000);
    }
  }

  /** The kernel heap starts right after the mapped 256 MiB: vmm_init leaves it unmapped. */
  lemma HeapStartUnmapped(offset: nat)
    requires offset < 0x1000_0000
    ensures Translate(MapEntry(Vpn(KERNEL_HEAP_START + offset), LOW_PAGES, HIGH_PAGES), offset % 0x1000) == 0
  {
    hide Translate, MapEntry, Vpn;
    var va: U64 := KERNEL_HEAP_START + offset;
    assert va % 0x1_0000_0000_0000 == 0xFFFF_9000_0000 + offset;
    assert va % 0x1000 == offset % 0x1000;
    FinishedMap(va);
  }
}
