/** Unsigned machine words as naturals, and C's bitwise operators on them, defined bit by bit.
    The laws below turn the masks the kernel uses into division and remainder. */
module Bits {

  const WORD: nat := 0x1_0000_0000_0000_0000

  type U8 = x: nat | x < 0x100
  type U32 = x: nat | x < 0x1_0000_0000
  type U64 = x: nat | x < 0x1_0000_0000_0000_0000

  function Pow2(k: nat): (r: nat)
    ensures r > 0
  {
    if k == 0 then 1 else 2 * Pow2(k - 1)
  }

  function And(x: nat, y: nat): nat {
    if x == 0 || y == 0 then 0
    else (if x % 2 == 1 && y % 2 == 1 then 1 else 0) + 2 * And(x / 2, y / 2)
  }

  function Or(x: nat, y: nat): nat {
    if x == 0 then y
    else if y == 0 then x
    else (if x % 2 == 1 || y % 2 == 1 then 1 else 0) + 2 * Or(x / 2, y / 2)
  }

  /** Right shift: everything above the low k bits. */
  function Shr(x: nat, k: nat): nat {
    if k == 0 then x else Shr(x / 2, k - 1)
  }

  /** The low k bits. */
  function Low(x: nat, k: nat): nat {
    if k == 0 then 0 else x % 2 + 2 * Low(x / 2, k - 1)
  }

  /** Reduction to 64 bits, as unsigned additions and subtractions do it. */
  function Wrap(x: int): U64 {
    x % WORD
  }

  lemma WrapSmall(x: int)
    requires 0 <= x < WORD
    ensures Wrap(x) == x
  {
  }

  lemma WrapOver(x: int)
    requires WORD <= x < 2 * WORD
    ensures Wrap(x) == x - WORD
  {
  }

  /** 64-bit left shift: bits pushed past the top are lost. */
  function Shl(x: nat, k: nat): U64 {
    (x * Pow2(k)) % WORD
  }

  /** 64-bit complement. */
  function Not(x: U64): U64 {
    WORD - 1 - x
  }

  predicate Bit(x: nat, j: nat) {
    if j == 0 then x % 2 == 1 else Bit(x / 2, j - 1)
  }

  // ----- shifts and low bits are division and remainder

  lemma TwiceProduct(p: nat, q: nat)
    ensures 2 * (p * q) == (2 * p) * q
  {
  }

  lemma {:induction false} LowShr(x: nat, k: nat)
    ensures x == Low(x, k) + Pow2(k) * Shr(x, k)
    ensures Low(x, k) < Pow2(k)
  {
    if k > 0 {
      LowShr(x / 2, k - 1);
      TwiceProduct(Pow2(k - 1), Shr(x / 2, k - 1));
    }
  }

  lemma DivModUnique(x: nat, d: nat, q: nat, r: nat)
    requires r < d && x == d * q + r
    ensures x / d == q && x % d == r
  {
    var e := x / d - q;
    assert d * e == r - x % d by {
      assert x == d * (x / d) + x % d;
    }
    MulStep(d, e);
  }

  lemma MulStep(d: nat, e: int)
    ensures e >= 1 ==> d * e >= d
    ensures e <= -1 ==> d * e + d <= 0
  {
    assert d * (e - 1) == d * e - d && d * (e + 1) == d * e + d;
  }

  lemma DivMod(x: nat, k: nat)
    ensures Shr(x, k) == x / Pow2(k) && Low(x, k) == x % Pow2(k)
  {
    LowShr(x, k);
    DivModUnique(x, Pow2(k), Shr(x, k), Low(x, k));
  }

  lemma {:induction false} LowOfSmall(x: nat, k: nat)
    requires x < Pow2(k)
    ensures Low(x, k) == x && Shr(x, k) == 0
  {
    if k > 0 { LowOfSmall(x / 2, k - 1); }
  }

  lemma {:induction false} Pow2Monotone(j: nat, k: nat)
    requires j <= k
    ensures Pow2(j) <= Pow2(k)
  {
    if j < k { Pow2Monotone(j, k - 1); }
  }

  lemma {:induction false} Pow2Add(j: nat, k: nat)
    ensures Pow2(j + k) == Pow2(j) * Pow2(k)
  {
    if j > 0 {
      Pow2Add(j - 1, k);
      TwiceProduct(Pow2(j - 1), Pow2(k));
    }
  }

  lemma Pow2Byte()
    ensures Pow2(8) == 0x100
  {
    assert Pow2(3) == 8;
    assert Pow2(6) == 64;
  }

  lemma Pow2Word(k: nat)
    requires k == 64
    ensures Pow2(k) == WORD
  {
    hide Pow2;
    Pow2Byte();
    Pow2Add(8, 8);
    Pow2Add(16, 16);
    Pow2Add(32, 32);
  }

  // ----- masks

  /** `x & (2^k - 1)` keeps the low k bits. */
  lemma {:induction false} AndLowMask(x: nat, k: nat)
    ensures And(x, Pow2(k) - 1) == Low(x, k)
  {
    if k > 0 {
      hide And, Low;
      var p := Pow2(k - 1);
      AndLowMask(x / 2, k - 1);
      AndOddMask(x, p - 1);
      LowUnfold(x, k);
    } else {
      assert Pow2(0) == 1;
    }
  }

  lemma LowUnfold(x: nat, k: nat)
    requires k > 0
    ensures Low(x, k) == x % 2 + 2 * Low(x / 2, k - 1)
  {
  }

  lemma AndOddMask(x: nat, h: nat)
    ensures And(x, 2 * h + 1) == x % 2 + 2 * And(x / 2, h)
  {
    var y := 2 * h + 1;
    assert y % 2 == 1 && y / 2 == h;
  }

  /** `x & ~(2^k - 1)` in n-bit arithmetic clears the low k bits. */
  lemma {:induction false} AndHighMask(x: nat, k: nat, n: nat)
    requires k <= n && x < Pow2(n)
    ensures Pow2(k) <= Pow2(n)
    ensures And(x, Pow2(n) - Pow2(k)) == x - Low(x, k)
  {
    if k == 0 {
      AndLowMask(x, n);
      LowOfSmall(x, n);
    } else {
      AndHighMask(x / 2, k - 1, n - 1);
      var y := Pow2(n) - Pow2(k);
      assert y % 2 == 0 && y / 2 == Pow2(n - 1) - Pow2(k - 1);
      AndEvenMask(x, y);
      if y == 0 { LowOfSmall(x, n); }
    }
  }

  lemma AndEvenMask(x: nat, y: nat)
    requires y % 2 == 0
    ensures And(x, y) == 2 * And(x / 2, y / 2)
  {
  }

  /** `x & ~(2^k - 1)` on 64-bit words. */
  lemma ClearLow(x: U64, k: nat)
    requires k < 64
    ensures Pow2(k) < WORD
    ensures And(x, Not(Pow2(k) - 1)) == x - Low(x, k)
  {
    hide And, Low;
    var w := 64;
    Pow2Word(w);
    Pow2Monotone(k + 1, w);
    AndHighMask(x, k, w);
  }

  // ----- or

  lemma OrStep(x: nat, y: nat)
    ensures Or(x, y) / 2 == Or(x / 2, y / 2)
    ensures Or(x, y) % 2 == if x % 2 == 1 || y % 2 == 1 then 1 else 0
  {
  }

  /** Or works on the high part and on the low k bits separately. */
  lemma {:induction false} OrSplit(x: nat, y: nat, k: nat)
    ensures Shr(Or(x, y), k) == Or(Shr(x, k), Shr(y, k))
    ensures Low(Or(x, y), k) == Or(Low(x, k), Low(y, k))
  {
    hide Or;
    if k == 0 {
      OrStep(0, 0);
    } else {
      OrStep(x, y);
      OrSplit(x / 2, y / 2, k - 1);
      OrStep(Low(x, k), Low(y, k));
    }
  }

  /** Or of a multiple of 2^k and a number below 2^k is their sum. */
  lemma OrIsSum(x: nat, y: nat, k: nat)
    requires Low(x, k) == 0 && y < Pow2(k)
    ensures Or(x, y) == x + y && Or(y, x) == x + y
  {
    OrSplit(x, y, k);
    OrSplit(y, x, k);
    LowOfSmall(y, k);
    LowShr(x, k);
    LowShr(Or(x, y), k);
    LowShr(Or(y, x), k);
  }

  lemma OrBound(x: nat, y: nat, k: nat)
    requires x < Pow2(k) && y < Pow2(k)
    ensures Or(x, y) < Pow2(k)
  {
    OrSplit(x, y, k);
    LowOfSmall(x, k);
    LowOfSmall(y, k);
    LowShr(Or(x, y), k);
  }

  lemma {:induction false} OrAbsorbs(x: nat, y: nat)
    ensures Or(Or(x, y), y) == Or(x, y)
  {
    if x == 0 {
      OrSame(y);
    } else if y != 0 {
      OrStep(x, y);
      OrAbsorbs(x / 2, y / 2);
      OrStep(Or(x, y), y);
    }
  }

  lemma {:induction false} OrSame(x: nat)
    ensures Or(x, x) == x
  {
    if x != 0 { OrSame(x / 2); }
  }

  // ----- single bits

  lemma {:induction false} BitOfOr(x: nat, y: nat, j: nat)
    ensures Bit(Or(x, y), j) == (Bit(x, j) || Bit(y, j))
  {
    OrStep(x, y);
    if j > 0 { BitOfOr(x / 2, y / 2, j - 1); }
  }

  lemma {:induction false} BitOfAnd(x: nat, y: nat, j: nat)
    ensures Bit(And(x, y), j) == (Bit(x, j) && Bit(y, j))
  {
    if x == 0 || y == 0 {
      BitOfZero(j);
    } else if j > 0 {
      BitOfAnd(x / 2, y / 2, j - 1);
    }
  }

  lemma {:induction false} AndAtMost(x: nat, y: nat)
    ensures And(x, y) <= x
  {
    if x != 0 && y != 0 { AndAtMost(x / 2, y / 2); }
  }

  lemma {:induction false} BitOfZero(j: nat)
    ensures !Bit(0, j)
  {
    if j > 0 { BitOfZero(j - 1); }
  }

  lemma {:induction false} BitOfPow2(i: nat, j: nat)
    ensures Bit(Pow2(i), j) == (i == j)
  {
    if i == 0 && j > 0 {
      BitOfZero(j - 1);
    } else if i > 0 && j > 0 {
      BitOfPow2(i - 1, j - 1);
    }
  }

  lemma {:induction false} BitOfComplement(x: nat, n: nat, j: nat)
    requires x < Pow2(n) && j < n
    ensures Bit(Pow2(n) - 1 - x, j) == !Bit(x, j)
  {
    var c := Pow2(n) - 1 - x;
    assert c / 2 == Pow2(n - 1) - 1 - x / 2 && c % 2 == 1 - x % 2;
    if j > 0 { BitOfComplement(x / 2, n - 1, j - 1); }
  }

  /** `x & (1 << i)` is nonzero exactly when bit i of x is set. */
  lemma {:induction false} TestBit(x: nat, i: nat)
    ensures And(x, Pow2(i)) != 0 <==> Bit(x, i)
  {
    if x == 0 {
      BitOfZero(i);
    } else if i > 0 {
      TestBit(x / 2, i - 1);
    } else {
      assert And(x / 2, 0) == 0;
    }
  }

  // ----- memory_align_down, memory_align_up

  function AlignDown(addr: U64, alignment: U64): U64 {
    if alignment == 0 then addr
    else AndAtMost(addr, Not(alignment - 1)); And(addr, Not(alignment - 1))
  }

  function AlignUp(addr: U64, alignment: U64): U64 {
    if alignment == 0 then addr
    else AlignDown((addr + alignment - 1) % WORD, alignment)
  }

  /** An alignment of 0 leaves the address as it is. */
  lemma ZeroAlignment(addr: U64)
    ensures AlignDown(addr, 0) == addr && AlignUp(addr, 0) == addr
  {
  }

  ghost predicate Multiple(x: nat, d: nat) {
    exists q: nat :: x == d * q
  }

  /** For a power-of-two alignment, aligning down gives the largest multiple at or below addr. */
  lemma AlignDownIsFloor(addr: U64, k: nat)
    requires k < 64
    ensures Pow2(k) < WORD
    ensures var r := AlignDown(addr, Pow2(k));
            Multiple(r, Pow2(k)) && r <= addr < r + Pow2(k)
  {
    hide And, Low, Pow2, Shr;
    ClearLow(addr, k);
    LowShr(addr, k);
    assert addr - Low(addr, k) == Pow2(k) * Shr(addr, k);
  }

  /** Aligning up gives the smallest multiple at or above addr exactly when the addition does not
      wrap around 64 bits; when it wraps, the result is 0. */
  lemma AlignUpIsCeiling(addr: U64, k: nat)
    requires k < 64
    ensures Pow2(k) < WORD
    ensures var r := AlignUp(addr, Pow2(k));
            && Multiple(r, Pow2(k))
            && (addr <= r < addr + Pow2(k) <==> addr + Pow2(k) - 1 < WORD)
            && (addr + Pow2(k) - 1 >= WORD ==> r == 0)
  {
    hide And, Low, Pow2, Multiple;
    ClearLow(addr, k);
    var p := Pow2(k);
    var s: U64 := (addr + p - 1) % WORD;
    AlignDownIsFloor(s, k);
    if addr + p - 1 >= WORD {
      assert s == addr + p - 1 - WORD < p;
      ClearLow(s, k);
      LowOfSmall(s, k);
    } else {
      assert s == addr + p - 1;
    }
  }
}
