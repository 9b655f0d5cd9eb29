/** Four-level page tables stored in frames of physical memory (kernel/mm/vmm.c; section 4.5 of
    the Intel 64 and IA-32 Architectures Software Developer's Manual, volume 3A), and the flat map
    from 36-bit page numbers to entries that they represent. */
module PageTables {
  import opened Bits
  import opened Memory

  /** A table is named by the indices that lead to it. */
  datatype Table =
    | Pml4
    | Pdpt(i4: nat)
    | Pd(i4: nat, i3: nat)
    | Pt(i4: nat, i3: nat, i2: nat)

  /** Where each table is stored. */
  type Tree = map<Table, nat>

  function Child(t: Table, i: nat): Table
    requires !t.Pt?
  {
    match t
    case Pml4 => Pdpt(i)
    case Pdpt(a) => Pd(a, i)
    case Pd(a, b) => Pt(a, b, i)
  }

  function Parent(t: Table): Table
    requires !t.Pml4?
  {
    match t
    case Pdpt(_) => Pml4
    case Pd(a, _) => Pdpt(a)
    case Pt(a, b, _) => Pd(a, b)
  }

  predicate IndicesOk(t: Table) {
    match t
    case Pml4 => true
    case Pdpt(a) => a < 512
    case Pd(a, b) => a < 512 && b < 512
    case Pt(a, b, c) => a < 512 && b < 512 && c < 512
  }

  // ----- entries

  function Entry(m: Bytes, frame: nat, i: nat): U64
    requires frame + 8 * i + 8 <= |m|
  {
    Load64(m, frame + 8 * i)
  }

  /** `e & PTE_PRESENT` */
  predicate Present(e: U64) {
    And(e, 1) != 0
  }

  /** `e & ~0xFFF` */
  function FrameOf(e: U64): U64 {
    AndAtMost(e, Not(0xFFF));
    And(e, Not(0xFFF))
  }

  /** `(physical & ~0xFFF) | flags` */
  function MakeEntry(physical: U64, flags: U32): U64 {
    OrOfWords(FrameOf(physical), flags);
    Or(FrameOf(physical), flags)
  }

  /** `frame | PTE_PRESENT | PTE_WRITABLE` */
  function MakeLink(frame: U64): U64 {
    OrOfWords(frame, 1);
    OrOfWords(Or(frame, 1), 2);
    Or(Or(frame, 1), 2)
  }

  lemma Pow2Page()
    ensures Pow2(12) == 0x1000 && Pow2(9) == 0x200
  {
    Pow2Byte();
    assert Pow2(4) == 16;
    Pow2Add(8, 4);
  }

  lemma PresentIsOdd(e: U64)
    ensures Present(e) <==> e % 2 == 1
  {
    TestBit(e, 0);
  }

  lemma FrameOfValue(e: U64)
    ensures FrameOf(e) == e - e % 0x1000
    ensures Low(e, 12) == e % 0x1000 && Shr(e, 12) == e / 0x1000
  {
    Pow2Page();
    ClearLow(e, 12);
    DivMod(e, 12);
  }

  lemma LinkValue(frame: U64)
    requires frame % 0x1000 == 0
    ensures MakeLink(frame) == frame + 3
    ensures Present(frame + 3) && FrameOf(frame + 3) == frame
  {
    hide Present, FrameOf, Or;
    LinkRemainders(frame);
    OrLowBits(frame);
    PresentIsOdd(frame + 3);
    FrameOfValue(frame + 3);
  }

  lemma LinkRemainders(frame: U64)
    requires frame % 0x1000 == 0
    ensures frame + 3 < WORD && (frame + 3) % 0x1000 == 3 && (frame + 3) % 2 == 1
  {
    var q := frame / 0x1000;
    DivModUnique(frame + 3, 0x1000, q, 3);
    DivModUnique(frame + 3, 2, 0x800 * q + 1, 1);
  }

  lemma OrLowBits(frame: nat)
    requires frame % 0x1000 == 0
    ensures Or(frame, 1) == frame + 1 && Or(frame + 1, 2) == frame + 3
  {
    assert Low(frame, 1) == 0 && Low(frame / 2, 1) == 0;
    OrIsSum(frame, 1, 1);
    OrIsSum(frame / 2, 1, 1);
    OrStep(frame + 1, 2);
    assert (frame + 1) / 2 == frame / 2;
  }

  // ----- translation of one entry

  /** The end of vmm_get_physical: frame | offset, or 0 for an entry that is not present. */
  function Translate(e: U64, offset: nat): U64
    requires offset < 0x1000
  {
    if !Present(e) then 0 else OrOfWords(FrameOf(e), offset); Or(FrameOf(e), offset)
  }

  lemma TranslateValue(e: U64, offset: nat)
    requires offset < 0x1000
    ensures Translate(e, offset) == if e % 2 == 1 then e - e % 0x1000 + offset else 0
  {
    hide Or, And, Low, Shr, Not, Pow2;
    PresentIsOdd(e);
    FrameOfValue(e);
    FrameOfValue(FrameOf(e));
    Pow2Page();
    OrIsSum(FrameOf(e), offset, 12);
  }

  lemma OrZero(x: nat)
    ensures Or(0, x) == x
  {
  }

  lemma MakeEntryParts(physical: U64, flags: U32)
    ensures MakeEntry(physical, flags) % 0x1000 == flags % 0x1000
    ensures MakeEntry(physical, flags) / 0x1000 == Or(physical / 0x1000, flags / 0x1000)
  {
    hide Or, And, Low, Shr, Not;
    var f := FrameOf(physical);
    FrameOfValue(physical);
    FrameOfValue(f);
    FrameOfValue(flags);
    FrameOfValue(MakeEntry(physical, flags));
    OrSplit(f, flags, 12);
    assert Or(0, flags % 0x1000) == flags % 0x1000 by { OrZero(flags % 0x1000); }
  }

  /** A present entry translates to the mapped frame exactly when the flag bits above bit 11 are
      already part of the frame number; flags below 0x1000 always are. */
  lemma EntryTranslates(physical: U64, flags: U32, offset: nat)
    requires offset < 0x1000 && flags % 2 == 1
    ensures Translate(MakeEntry(physical, flags), offset) == physical - physical % 0x1000 + offset
            <==> Or(physical / 0x1000, flags / 0x1000) == physical / 0x1000
    ensures flags < 0x1000 ==> Or(physical / 0x1000, flags / 0x1000) == physical / 0x1000
  {
    MakeEntryParts(physical, flags);
    TranslateValue(MakeEntry(physical, flags), offset);
  }

  lemma StrayFlagMovesPage()
    ensures Translate(MakeEntry(0, 0x1001), 0) == 0x1000
  {
    assert Or(0, 1) == 1;
    MakeEntryParts(0, 0x1001);
    TranslateValue(MakeEntry(0, 0x1001), 0);
  }

  // ----- virtual addresses

  const PAGES: nat := 0x10_0000_0000   // 2^36

  /** The 36-bit page number; addresses are identified modulo 2^48. */
  function Vpn(va: U64): nat {
    (va / 0x1000) % PAGES
  }

  function I1(v: nat): nat { v % 512 }
  function I2(v: nat): nat { (v / 512) % 512 }
  function I3(v: nat): nat { (v / 512 / 512) % 512 }
  function I4(v: nat): nat { (v / 512 / 512 / 512) % 512 }

  /** `(va >> shift) & 0x1FF` */
  function Index(va: U64, shift: nat): nat {
    And(Shr(va, shift), 0x1FF)
  }

  lemma {:induction false} ShrShr(x: nat, j: nat, k: nat)
    ensures Shr(x, j + k) == Shr(Shr(x, j), k)
  {
    if j > 0 { ShrShr(x / 2, j - 1, k); }
  }

  lemma IndexStep(va: U64, shift: nat)
    ensures Index(va, shift) == Shr(va, shift) % 512
    ensures Shr(va, shift + 9) == Shr(va, shift) / 512
  {
    Pow2Page();
    AndLowMask(Shr(va, shift), 9);
    DivMod(Shr(va, shift), 9);
    ShrShr(va, shift, 9);
  }

  /** The four shifted and masked indices are the base-512 digits of the page number. */
  lemma IndicesOfAddress(va: U64)
    ensures Index(va, 12) == I1(Vpn(va)) && Index(va, 21) == I2(Vpn(va))
    ensures Index(va, 30) == I3(Vpn(va)) && Index(va, 39) == I4(Vpn(va))
    ensures Index(va, 12) < 512 && Index(va, 21) < 512 && Index(va, 30) < 512 && Index(va, 39) < 512
    ensures Vpn(va) < PAGES
  {
    FrameOfValue(va);
    IndexStep(va, 12);
    IndexStep(va, 21);
    IndexStep(va, 30);
    IndexStep(va, 39);
    DigitsModPages(va / 0x1000);
  }

  lemma DigitsModPages(q: nat)
    ensures I1(q % PAGES) == q % 512 && I2(q % PAGES) == (q / 512) % 512
    ensures I3(q % PAGES) == (q / 512 / 512) % 512 && I4(q % PAGES) == (q / 512 / 512 / 512) % 512
  {
    var v, c := q % PAGES, q / PAGES;
    assert q == v + PAGES * c;
    assert q / 512 == v / 512 + 0x800_0000 * c;
    assert q / 512 / 512 == v / 512 / 512 + 0x4_0000 * c;
    assert q / 512 / 512 / 512 == v / 512 / 512 / 512 + 512 * c;
  }

  function PathPt(v: nat): Table {
    Pt(I4(v), I3(v), I2(v))
  }

  lemma SameSlot(v: nat, w: nat)
    requires v < PAGES && w < PAGES
    ensures PathPt(v) == PathPt(w) && I1(v) == I1(w) <==> v == w
  {
    assert v / 512 / 512 / 512 < 512 && w / 512 / 512 / 512 < 512;
  }

  // ----- the tree in memory

  predicate IsFrame(f: nat, size: nat) {
    f % 0x1000 == 0 && 0 < f && f + 0x1000 <= size
  }

  /** What slot i of table t must hold: a link to the child's frame, or 0. */
  function Link(tab: Tree, t: Table, i: nat): nat
    requires !t.Pt?
  {
    if Child(t, i) in tab then tab[Child(t, i)] + 3 else 0
  }

  /** Tables sit in distinct frames, every table but the root hangs off its parent, and the entries
      of the upper three levels are exactly the links. */
  ghost predicate TreeOk(m: Bytes, tab: Tree) {
    && Pml4 in tab
    && (forall t :: t in tab ==> IndicesOk(t) && IsFrame(tab[t], |m|))
    && (forall t :: t in tab && !t.Pml4? ==> Parent(t) in tab)
    && (forall t, u :: t in tab && u in tab && tab[t] == tab[u] ==> t == u)
    && (forall t, i :: t in tab && !t.Pt? && 0 <= i < 512 ==> Entry(m, tab[t], i) == Link(tab, t, i))
  }

  /** The entry for page number v, 0 if there is no table for it. */
  ghost function Flat(m: Bytes, tab: Tree, v: nat): U64
    requires TreeOk(m, tab)
  {
    if PathPt(v) in tab then Entry(m, tab[PathPt(v)], I1(v)) else 0
  }

  function PathTables(v: nat): set<Table> {
    {Pdpt(I4(v)), Pd(I4(v), I3(v)), PathPt(v)}
  }

  /** How many tables on the way to page number v do not exist yet. */
  function Missing(tab: Tree, v: nat): nat {
    (if Pdpt(I4(v)) in tab then 0 else 1)
    + (if Pd(I4(v), I3(v)) in tab then 0 else 1)
    + (if PathPt(v) in tab then 0 else 1)
  }

  lemma EntriesKept(m: Bytes, m': Bytes, f: nat)
    requires f + 0x1000 <= |m| && Same(m, m', f, f + 0x1000)
    ensures forall i :: 0 <= i < 512 ==> Entry(m', f, i) == Entry(m, f, i)
  {
    forall i | 0 <= i < 512 ensures Entry(m', f, i) == Entry(m, f, i) {
      LoadFrame(m, m', f + 8 * i);
    }
  }

  /** Writing slot k of frame f leaves every other slot of every frame alone. */
  lemma SlotWritten(m: Bytes, m': Bytes, f: nat, k: nat, g: nat, i: nat)
    requires IsFrame(f, |m|) && IsFrame(g, |m|) && k < 512 && i < 512 && (g != f || i != k)
    requires SameExcept(m, m', f + 8 * k, 8)
    ensures Entry(m', g, i) == Entry(m, g, i)
  {
    if g == f {
      assert 8 * i + 8 <= 8 * k || 8 * k + 8 <= 8 * i;
    } else {
      FramesApart(f, g);
    }
    LoadFrame(m, m', g + 8 * i);
  }

  lemma FramesApart(f: nat, g: nat)
    requires f % 0x1000 == 0 && g % 0x1000 == 0 && f != g
    ensures f + 0x1000 <= g || g + 0x1000 <= f
  {
  }

  /** Writing a leaf slot changes the flat map at one page number and nowhere else. */
  lemma LeafWritten(m: Bytes, m': Bytes, tab: Tree, v: nat)
    requires TreeOk(m, tab) && v < PAGES && PathPt(v) in tab
    requires SameExcept(m, m', tab[PathPt(v)] + 8 * I1(v), 8)
    ensures TreeOk(m', tab)
    ensures Flat(m', tab, v) == Load64(m', tab[PathPt(v)] + 8 * I1(v))
    ensures forall w :: 0 <= w < PAGES && w != v ==> Flat(m', tab, w) == Flat(m, tab, w)
  {
    var p := PathPt(v);
    var f := tab[p];
    forall t, i | t in tab && !t.Pt? && 0 <= i < 512 ensures Entry(m', tab[t], i) == Link(tab, t, i) {
      SlotWritten(m, m', f, I1(v), tab[t], i);
    }
    forall w | 0 <= w < PAGES && w != v ensures Flat(m', tab, w) == Flat(m, tab, w) {
      SameSlot(v, w);
      if PathPt(w) in tab {
        SlotWritten(m, m', f, I1(v), tab[PathPt(w)], I1(w));
      }
    }
  }

  /** Linking a cleared frame f in as child i of t. */
  ghost predicate Linked(m: Bytes, m': Bytes, tab: Tree, t: Table, i: nat, f: nat)
    requires TreeOk(m, tab) && t in tab && i < 512
  {
    && |m'| == |m|
    && IsFrame(f, |m|)
    && (forall u :: u in tab ==> tab[u] != f)
    && (forall k :: 0 <= k < 512 ==> Entry(m', f, k) == 0)
    && Entry(m', tab[t], i) == f + 3
    && (forall u, k :: u in tab && 0 <= k < 512 && (u != t || k != i) ==> Entry(m', tab[u], k) == Entry(m, tab[u], k))
  }

  lemma LinkKeepsTree(m: Bytes, m': Bytes, tab: Tree, t: Table, i: nat, f: nat)
    requires TreeOk(m, tab) && t in tab && !t.Pt? && i < 512 && Child(t, i) !in tab
    requires Linked(m, m', tab, t, i, f)
    ensures TreeOk(m', tab[Child(t, i) := f])
  {
    var c, tab' := Child(t, i), tab[Child(t, i) := f];
    assert Parent(c) == t;
    forall u, k | u in tab' && !u.Pt? && 0 <= k < 512
      ensures Entry(m', tab'[u], k) == Link(tab', u, k)
    {
      if u == c {
        assert Parent(Child(u, k)) == u;
        assert Child(u, k) != c;
      } else if Child(u, k) == c {
        assert u == t && k == i;
      }
    }
  }

  /** Linking in an empty table changes no entry of the flat map. */
  lemma LinkKeepsFlat(m: Bytes, m': Bytes, tab: Tree, t: Table, i: nat, f: nat)
    requires TreeOk(m, tab) && t in tab && !t.Pt? && i < 512 && Child(t, i) !in tab
    requires Linked(m, m', tab, t, i, f) && TreeOk(m', tab[Child(t, i) := f])
    ensures forall v :: 0 <= v < PAGES ==> Flat(m', tab[Child(t, i) := f], v) == Flat(m, tab, v)
  {
    var c, tab' := Child(t, i), tab[Child(t, i) := f];
    forall v | 0 <= v < PAGES ensures Flat(m', tab', v) == Flat(m, tab, v) {
      if PathPt(v) == c {
        assert Entry(m', f, I1(v)) == 0;
      } else if PathPt(v) in tab {
        assert Entry(m', tab[PathPt(v)], I1(v)) == Entry(m, tab[PathPt(v)], I1(v));
      }
    }
  }

  function Slot(t: Table): nat
    requires !t.Pml4?
  {
    match t
    case Pdpt(a) => a
    case Pd(_, b) => b
    case Pt(_, _, c) => c
  }

  /** Every table but the root is referenced by exactly one present upper-level entry: its parent's. */
  lemma ReferencedOnce(m: Bytes, tab: Tree, t: Table, u: Table, i: nat)
    requires TreeOk(m, tab) && t in tab && !t.Pml4? && u in tab && !u.Pt? && i < 512
    ensures Present(Entry(m, tab[u], i)) && FrameOf(Entry(m, tab[u], i)) == tab[t]
            <==> u == Parent(t) && i == Slot(t)
  {
    hide Present, FrameOf, Entry;
    PresentIsOdd(0);
    assert Child(Parent(t), Slot(t)) == t;
    if Child(u, i) in tab {
      var e: U64 := Entry(m, tab[u], i);
      assert e == tab[Child(u, i)] + 3;
      LinkValue(tab[Child(u, i)]);
    }
  }

  /** The root is referenced by no entry. */
  lemma RootNotReferenced(m: Bytes, tab: Tree, u: Table, i: nat)
    requires TreeOk(m, tab) && u in tab && !u.Pt? && i < 512
    ensures !(Present(Entry(m, tab[u], i)) && FrameOf(Entry(m, tab[u], i)) == tab[Pml4])
  {
    hide Present, FrameOf, Entry;
    PresentIsOdd(0);
    if Child(u, i) in tab {
      var e: U64 := Entry(m, tab[u], i);
      assert e == tab[Child(u, i)] + 3;
      LinkValue(tab[Child(u, i)]);
    }
  }

  /** Reading a slot of an upper-level table: present means the child exists, and the frame bits
      lead to it. */
  lemma Descend(m: Bytes, tab: Tree, t: Table, i: nat)
    requires TreeOk(m, tab) && t in tab && !t.Pt? && i < 512
    ensures var e := Entry(m, tab[t], i);
            && (Present(e) <==> Child(t, i) in tab)
            && (Present(e) ==> FrameOf(e) == tab[Child(t, i)])
  {
    PresentIsOdd(0);
    if Child(t, i) in tab {
      var e: U64 := Entry(m, tab[t], i);
      assert e == tab[Child(t, i)] + 3;
      LinkValue(tab[Child(t, i)]);
    }
  }

  /** The present entries of the upper three levels, as table and slot. */
  ghost function Links(m: Bytes, tab: Tree): set<(Table, nat)>
    requires TreeOk(m, tab)
  {
    set t: Table, i: nat | t in tab && !t.Pt? && i < 512 && Present(Entry(m, tab[t], i)) :: (t, i)
  }

  /** The entries that lead to the given tables. */
  ghost function LinksTo(ts: set<Table>): set<(Table, nat)>
    requires Pml4 !in ts
  {
    set t | t in ts :: (Parent(t), Slot(t))
  }

  lemma {:induction false} LinksToSize(ts: set<Table>)
    requires Pml4 !in ts
    ensures |LinksTo(ts)| == |ts|
  {
    if ts != {} {
      var x :| x in ts;
      LinksToSize(ts - {x});
      assert LinksTo(ts) == LinksTo(ts - {x}) + {(Parent(x), Slot(x))};
      forall t | t in ts - {x} ensures (Parent(t), Slot(t)) != (Parent(x), Slot(x)) {
        assert Child(Parent(t), Slot(t)) == t && Child(Parent(x), Slot(x)) == x;
      }
    }
  }

  lemma LinkedEntry(m: Bytes, tab: Tree, t: Table, i: nat)
    requires TreeOk(m, tab)
    ensures (t, i) in Links(m, tab) <==> (t, i) in LinksTo(tab.Keys - {Pml4})
  {
    hide Present, Entry, TreeOk;
    TableIndices(m, tab);
    var ts := tab.Keys - {Pml4};
    if (t, i) in LinksTo(ts) {
      var u :| u in ts && (Parent(u), Slot(u)) == (t, i);
      assert Child(t, i) == u && IndicesOk(u);
      Descend(m, tab, t, i);
    }
    if (t, i) in Links(m, tab) {
      var u := Child(t, i);
      Descend(m, tab, t, i);
      assert u in ts && Parent(u) == t && Slot(u) == i;
    }
  }

  lemma TableIndices(m: Bytes, tab: Tree)
    requires TreeOk(m, tab)
    ensures Pml4 in tab && forall t :: t in tab ==> IndicesOk(t) && IsFrame(tab[t], |m|) && (t.Pml4? || Parent(t) in tab)
  {
  }

  /** Table frames number one, for the root, plus the present intermediate entries. */
  lemma TablesAreLinks(m: Bytes, tab: Tree)
    requires TreeOk(m, tab)
    ensures |tab| == 1 + |Links(m, tab)|
  {
    hide Links, LinksTo, TreeOk;
    TableIndices(m, tab);
    var ts := tab.Keys - {Pml4};
    forall e: (Table, nat) ensures e in Links(m, tab) <==> e in LinksTo(ts) {
      LinkedEntry(m, tab, e.0, e.1);
    }
    assert Links(m, tab) == LinksTo(ts);
    LinksToSize(ts);
    assert |tab| == |tab.Keys| && tab.Keys == ts + {Pml4};
  }
}
