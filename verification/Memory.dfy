/** Byte-addressed memory: little-endian loads and stores, memory_copy and memory_set
    (kernel/mm/memory_utils.c). Memory is an array of bytes indexed by address; address 0 is NULL. */
module Memory {
  import opened Bits

  type Bytes = seq<U8>

  /** PAGE_SIZE */
  const PAGE: nat := 0x1000

  // ----- loads

  function Load16(m: Bytes, a: nat): (v: nat)
    requires a + 2 <= |m|
    ensures v < 0x1_0000
  {
    var lo: nat, hi: nat := m[a], m[a + 1];
    lo + 0x100 * hi
  }

  function Load32(m: Bytes, a: nat): U32
    requires a + 4 <= |m|
  {
    Load16(m, a) + 0x1_0000 * Load16(m, a + 2)
  }

  function Load64(m: Bytes, a: nat): U64
    requires a + 8 <= |m|
  {
    Load32(m, a) + 0x1_0000_0000 * Load32(m, a + 4)
  }

  /** A byte as an unbounded number. */
  function ByteAt(m: Bytes, i: nat): nat
    requires i < |m|
  {
    m[i]
  }

  /** Words are stored with the low byte first. */
  lemma LittleEndian(m: Bytes, a: nat)
    requires a + 8 <= |m|
    ensures Load32(m, a) == ByteAt(m, a) + 0x100 * ByteAt(m, a + 1) + 0x1_0000 * ByteAt(m, a + 2) + 0x100_0000 * ByteAt(m, a + 3)
    ensures Load64(m, a) == ByteAt(m, a) + 0x100 * ByteAt(m, a + 1) + 0x1_0000 * ByteAt(m, a + 2) + 0x100_0000 * ByteAt(m, a + 3)
                            + 0x1_0000_0000 * ByteAt(m, a + 4) + 0x100_0000_0000 * ByteAt(m, a + 5)
                            + 0x1_0000_0000_0000 * ByteAt(m, a + 6) + 0x100_0000_0000_0000 * ByteAt(m, a + 7)
  {
    var x: nat, y: nat := Load32(m, a), Load32(m, a + 4);
    assert Load64(m, a) == x + 0x1_0000_0000 * y;
  }

  // ----- frames

  /** m and m' hold the same bytes on [lo, hi). */
  ghost predicate Same(m: Bytes, m': Bytes, lo: int, hi: int) {
    |m| == |m'| && forall i :: 0 <= i < |m| && lo <= i < hi ==> m'[i] == m[i]
  }

  /** m' differs from m at most on [a, a + n). */
  ghost predicate SameExcept(m: Bytes, m': Bytes, a: int, n: int) {
    |m| == |m'| && forall i :: 0 <= i < |m| && !(a <= i < a + n) ==> m'[i] == m[i]
  }

  /** The two frame predicates, byte by byte. */
  lemma SameMeans(m: Bytes, m': Bytes, a: nat, n: nat)
    ensures Same(m, m', a, a + n) <==> |m'| == |m| && forall i :: a <= i < a + n && i < |m| ==> m'[i] == m[i]
    ensures SameExcept(m, m', a, n) <==> |m'| == |m| && forall i :: 0 <= i < |m| && (i < a || a + n <= i) ==> m'[i] == m[i]
  {
  }

  lemma SameRefl(m: Bytes, a: int, n: int)
    ensures SameExcept(m, m, a, n)
  {
  }

  lemma SameTrans(m: Bytes, m1: Bytes, m2: Bytes, a: int, n: int)
    requires SameExcept(m, m1, a, n) && SameExcept(m1, m2, a, n)
    ensures SameExcept(m, m2, a, n)
  {
  }

  lemma LoadFrame(m: Bytes, m': Bytes, a: nat)
    requires a + 8 <= |m| && Same(m, m', a, a + 8)
    ensures Load64(m', a) == Load64(m, a) && Load32(m', a) == Load32(m, a)
  {
  }

  lemma LoadZero(m: Bytes, a: nat)
    requires a + 8 <= |m| && forall i :: a <= i < a + 8 ==> m[i] == 0
    ensures Load64(m, a) == 0
  {
  }

  // ----- stores

  method Store16(mem: array<U8>, a: nat, v: nat)
    requires a + 2 <= mem.Length && v < 0x1_0000
    modifies mem
    ensures Load16(mem[..], a) == v
    ensures SameExcept(old(mem[..]), mem[..], a, 2)
  {
    mem[a] := v % 0x100;
    mem[a + 1] := v / 0x100;
  }

  method Store32(mem: array<U8>, a: nat, v: U32)
    requires a + 4 <= mem.Length
    modifies mem
    ensures Load32(mem[..], a) == v
    ensures SameExcept(old(mem[..]), mem[..], a, 4)
  {
    Store16(mem, a, v % 0x1_0000);
    Store16(mem, a + 2, v / 0x1_0000);
  }

  method Store64(mem: array<U8>, a: nat, v: U64)
    requires a + 8 <= mem.Length
    modifies mem
    ensures Load64(mem[..], a) == v
    ensures SameExcept(old(mem[..]), mem[..], a, 8)
  {
    Store32(mem, a, v % 0x1_0000_0000);
    ghost var m1 := mem[..];
    Store32(mem, a + 4, v / 0x1_0000_0000);
    assert Load32(mem[..], a) == Load32(m1, a);
  }

  // ----- memory_copy

  /** The bytes src..src+n land at dest, whatever the overlap; nothing else changes. */
  function Copied(m: Bytes, dest: nat, src: nat, n: nat): (r: Bytes)
    requires dest + n <= |m| && src + n <= |m|
    ensures |r| == |m|
  {
    m[..dest] + m[src..src + n] + m[dest + n..]
  }

  /** The forward loop, safe when the destination lies below the source. */
  method CopyForward(mem: array<U8>, dest: nat, src: nat, size: nat)
    requires dest < src && src + size <= mem.Length
    modifies mem
    ensures mem[..] == Copied(old(mem[..]), dest, src, size)
  {
    ghost var m := mem[..];
    for i := 0 to size
      invariant forall k :: dest <= k < dest + i ==> mem[k] == m[k - dest + src]
      invariant forall k :: 0 <= k < mem.Length && !(dest <= k < dest + i) ==> mem[k] == m[k]
    {
      mem[dest + i] := mem[src + i];
    }
    IsCopied(m, mem[..], dest, src, size);
  }

  /** The backward loop, safe when the destination lies above the source. */
  method CopyBackward(mem: array<U8>, dest: nat, src: nat, size: nat)
    requires src < dest && dest + size <= mem.Length
    modifies mem
    ensures mem[..] == Copied(old(mem[..]), dest, src, size)
  {
    ghost var m := mem[..];
    for i := size downto 0
      invariant forall k :: dest + i <= k < dest + size ==> mem[k] == m[k - dest + src]
      invariant forall k :: 0 <= k < mem.Length && !(dest + i <= k < dest + size) ==> mem[k] == m[k]
    {
      mem[dest + i] := mem[src + i];
    }
    IsCopied(m, mem[..], dest, src, size);
  }

  method MemoryCopy(mem: array<U8>, dest: nat, src: nat, size: nat)
    requires dest != 0 && src != 0 ==> dest + size <= mem.Length && src + size <= mem.Length
    modifies mem
    ensures mem[..] == if dest == 0 || src == 0 then old(mem[..])
                       else Copied(old(mem[..]), dest, src, size)
  {
    hide Copied;
    if dest == 0 || src == 0 { return; }
    if size == 0 || dest == src { IsCopied(mem[..], mem[..], dest, src, size); }
    if size == 0 { return; }
    if dest < src {
      CopyForward(mem, dest, src, size);
    } else if dest > src {
      CopyBackward(mem, dest, src, size);
    }
  }

  lemma IsCopied(m: Bytes, m': Bytes, dest: nat, src: nat, n: nat)
    requires dest + n <= |m| && src + n <= |m|
    requires SameExcept(m, m', dest, n)
    requires forall k :: dest <= k < dest + n ==> m'[k] == m[k - dest + src]
    ensures m' == Copied(m, dest, src, n)
  {
    var r := Copied(m, dest, src, n);
    forall k | 0 <= k < |m| ensures m'[k] == r[k] {
      if dest <= k < dest + n { assert r[k] == m[src..src + n][k - dest]; }
    }
  }

  // ----- memory_set

  /** The bytes dest..dest+n all become v; nothing else changes. */
  function Filled(m: Bytes, dest: nat, v: U8, n: nat): (r: Bytes)
    requires dest + n <= |m|
    ensures |r| == |m|
  {
    m[..dest] + seq(n, _ => v) + m[dest + n..]
  }

  /** One doubling step of the replication: `w | w << k`. */
  function Doubled(w: U64, k: nat): U64 {
    OrOfWords(w, Shl(w, k));
    Or(w, Shl(w, k))
  }

  /** `v | v << 8`, then `| << 16`, then `| << 32`: the byte v in all eight places. */
  function Replicated(v: U8): U64 {
    Doubled(Doubled(Doubled(v, 8), 16), 32)
  }

  lemma OrOfWords(x: U64, y: U64)
    ensures Or(x, y) < WORD
  {
    var w := 64;
    Pow2Word(w);
    OrBound(x, y, w);
  }

  lemma DoubledValue(w: U64, k: nat, p: nat, s: nat)
    requires p == Pow2(k) && w < p && s == p * w && s < WORD
    ensures Doubled(w, k) == w + s
  {
    assert Shl(w, k) == s % WORD == s;
    DivModUnique(s, p, w, 0);
    DivMod(s, k);
    OrIsSum(s, w, k);
  }

  lemma ReplicatedValue(v: U8)
    ensures Replicated(v) == 0x0101_0101_0101_0101 * v
  {
    hide Doubled, Pow2;
    var w1: U64, w2: U64 := 0x101 * v, 0x0101_0101 * v;
    assert Doubled(v, 8) == w1 by { Pow2Byte(); DoubledValue(v, 8, 0x100, 0x100 * v); }
    assert Doubled(w1, 16) == w2 by {
      Pow2Byte();
      Pow2Add(8, 8);
      DoubledValue(w1, 16, 0x1_0000, 0x1_0000 * w1);
    }
    assert Doubled(w2, 32) == 0x1_0000_0001 * w2 by {
      Pow2Byte();
      Pow2Add(8, 8);
      Pow2Add(16, 16);
      DoubledValue(w2, 32, 0x1_0000_0000, 0x1_0000_0000 * w2);
    }
  }

  /** Eight stored bytes of the replicated word are all v. */
  lemma ReplicatedBytes(m: Bytes, a: nat, v: U8)
    requires a + 8 <= |m| && Load64(m, a) == 0x0101_0101_0101_0101 * v
    ensures forall k :: a <= k < a + 8 ==> m[k] == v
  {
    hide Load32;
    SplitWord(Load32(m, a), Load32(m, a + 4), 0x0101_0101 * v);
    HalvesOfWord(m, a, v);
    HalvesOfWord(m, a + 4, v);
  }

  lemma SplitWord(lo: U32, hi: U32, x: U32)
    requires lo + 0x1_0000_0000 * hi == x + 0x1_0000_0000 * x
    ensures lo == x && hi == x
  {
  }

  lemma HalvesOfWord(m: Bytes, a: nat, v: U8)
    requires a + 4 <= |m| && Load32(m, a) == 0x0101_0101 * v
    ensures m[a] == m[a + 1] == m[a + 2] == m[a + 3] == v
  {
    SplitHalf(Load16(m, a), Load16(m, a + 2), 0x101 * v);
  }

  lemma SplitHalf(lo: nat, hi: nat, x: nat)
    requires lo < 0x1_0000 && hi < 0x1_0000 && x < 0x1_0000 && lo + 0x1_0000 * hi == x + 0x1_0000 * x
    ensures lo == x && hi == x
  {
  }

  /** The word loop: count64 aligned stores of the replicated byte. */
  method SetWords(mem: array<U8>, dest: nat, val: U8, count64: nat)
    requires dest + 8 * count64 <= mem.Length
    modifies mem
    ensures forall k :: dest <= k < dest + 8 * count64 ==> mem[k] == val
    ensures SameExcept(old(mem[..]), mem[..], dest, 8 * count64)
  {
    hide Replicated, Load64;
    ghost var m := mem[..];
    var val64 := Replicated(val);
    ReplicatedValue(val);
    for i := 0 to count64
      invariant forall k :: dest <= k < dest + 8 * i ==> mem[k] == val
      invariant SameExcept(m, mem[..], dest, 8 * i)
    {
      ghost var before := mem[..];
      Store64(mem, dest + 8 * i, val64);
      ReplicatedBytes(mem[..], dest + 8 * i, val);
      MoreBytes(m, before, mem[..], dest, 8 * i, 8, val);
    }
  }

  lemma MoreBytes(m: Bytes, m1: Bytes, m2: Bytes, dest: nat, done: nat, n: nat, val: U8)
    requires dest + done + n <= |m| && SameExcept(m, m1, dest, done) && SameExcept(m1, m2, dest + done, n)
    requires forall k :: dest <= k < dest + done ==> m1[k] == val
    requires forall k :: dest + done <= k < dest + done + n ==> m2[k] == val
    ensures SameExcept(m, m2, dest, done + n)
    ensures forall k :: dest <= k < dest + done + n ==> m2[k] == val
  {
  }

  method MemorySet(mem: array<U8>, dest: nat, value: int, size: nat)
    requires dest != 0 ==> dest + size <= mem.Length
    modifies mem
    ensures mem[..] == if dest == 0 then old(mem[..]) else Filled(old(mem[..]), dest, value % 0x100, size)
  {
    if dest == 0 || size == 0 { return; }
    ghost var m := mem[..];
    var val: U8 := value % 0x100;
    var d, rest := dest, size;
    if size >= 8 && dest % 8 == 0 {
      var count64 := size / 8;
      SetWords(mem, dest, val, count64);
      d, rest := dest + 8 * count64, size - 8 * count64;
    }
    for i := 0 to rest
      invariant forall k :: dest <= k < d + i ==> mem[k] == val
      invariant SameExcept(m, mem[..], dest, d - dest + i)
    {
      mem[d + i] := val;
    }
    IsFilled(m, mem[..], dest, val, size);
  }

  lemma FilledBytes(m: Bytes, dest: nat, v: U8, n: nat)
    requires dest + n <= |m|
    ensures SameExcept(m, Filled(m, dest, v, n), dest, n)
    ensures forall k :: dest <= k < dest + n ==> Filled(m, dest, v, n)[k] == v
  {
  }

  lemma IsFilled(m: Bytes, m': Bytes, dest: nat, v: U8, n: nat)
    requires dest + n <= |m| && SameExcept(m, m', dest, n)
    requires forall k :: dest <= k < dest + n ==> m'[k] == v
    ensures m' == Filled(m, dest, v, n)
  {
  }
}
