/** Addresses and their allocation (genmc/genmc/Support/SAddr.hpp, SAddrAllocator.hpp). An address is a 64-bit word
    with disjoint bit fields, written here as the sum of the fields; machine arithmetic wraps explicitly. */
module SAddrAllocators {

  const WORD: nat := 0x1_0000_0000_0000_0000
  const ALLOC_LIMIT: nat := 0xFFFF_FFFF
  const THREAD_LIMIT: nat := 0xFFF_FFFF
  const INDEX_SPACE: nat := 0x1_0000_0000

  datatype Region = Static | Automatic | Heap

  /** Where an address lies: storage bits and thread above, allocation index below. */
  datatype Place = Place(region: Region, thread: nat, durable: bool, internal: bool)

  /** Bits 32 to 63 of an address. */
  function High(p: Place): nat {
    (match p.region case Static => 0x8000_0000 case Automatic => 0x4000_0000 case Heap => 0)
    + (if p.internal then 0x2000_0000 else 0)
    + (if p.durable then 0x1000_0000 else 0)
    + p.thread
  }

  function Address(p: Place, index: nat): nat {
    High(p) * INDEX_SPACE + index
  }

  /** The fields of an address can be read back. */
  lemma HighIsInjective(p: Place, q: Place)
    requires p.thread <= THREAD_LIMIT && q.thread <= THREAD_LIMIT && High(p) == High(q)
    ensures p == q
  {
  }

  lemma AddressIsInjective(p: Place, i: nat, q: Place, j: nat)
    requires p.thread <= THREAD_LIMIT && q.thread <= THREAD_LIMIT
    requires i < INDEX_SPACE && j < INDEX_SPACE && Address(p, i) == Address(q, j)
    ensures p == q && i == j
  {
    HighIsInjective(p, q);
  }

  // ---- The bits of an address.

  type Width = bv64

  const STATIC_MASK: Width := 0x8000_0000_0000_0000
  const AUTOMATIC_MASK: Width := 0x4000_0000_0000_0000
  const INTERNAL_MASK: Width := 0x2000_0000_0000_0000
  const DURABLE_MASK: Width := 0x1000_0000_0000_0000

  /** SAddr::create, past its VERIFYs. */
  function Create(storage: Width, thread: Width, index: Width, durable: bool, inside: bool): Width {
    var stored := 0 | storage;
    var kept := stored ^ ((-(if durable then 1 else 0) ^ stored) & DURABLE_MASK);
    var owned := kept ^ ((-(if inside then 1 else 0) ^ kept) & INTERNAL_MASK);
    owned | (thread << 32) | index
  }

  ghost predicate FieldsFit(storage: Width, thread: Width, index: Width) {
    && (storage == 0 || storage == STATIC_MASK || storage == AUTOMATIC_MASK)
    && thread <= 0xFFF_FFFF && index <= 0xFFFF_FFFF
  }

  /** The tests of an address and its masks read back what it was created from. */
  lemma CreatedReadsBack(storage: Width, thread: Width, index: Width, durable: bool, inside: bool)
    requires FieldsFit(storage, thread, index)
    ensures var addr := Create(storage, thread, index, durable, inside);
      && (addr & STATIC_MASK != 0 <==> storage == STATIC_MASK)
      && (addr & AUTOMATIC_MASK != 0 <==> storage == AUTOMATIC_MASK)
      && (addr & DURABLE_MASK != 0 <==> durable) && (addr & INTERNAL_MASK != 0 <==> inside)
      && (addr >> 32) & 0xFFF_FFFF == thread && addr & 0xFFFF_FFFF == index
  {
  }

  /** The fields do not meet: the word is their sum, as in Address. */
  lemma CreatedIsSum(storage: Width, thread: Width, index: Width, durable: bool, inside: bool)
    requires FieldsFit(storage, thread, index)
    ensures Create(storage, thread, index, durable, inside) ==
      index +
      (((storage >> 32) + (if inside then 0x2000_0000 else 0) + (if durable then 0x1000_0000 else 0) + thread) << 32)
  {
  }

  // ---- Alignment.

  function Pow2(k: nat): nat { if k == 0 then 1 else 2 * Pow2(k - 1) }

  ghost predicate PowerOfTwo(a: nat) {
    exists k: nat :: a == Pow2(k)
  }

  ghost predicate Multiple(x: int, a: int) {
    exists q: int :: x == q * a
  }

  /** x & ~(a - 1) for a power of two a: the largest multiple of a up to x. */
  function AlignDown(x: nat, a: nat): (r: nat)
    requires a > 0
    ensures r <= x < r + a
  {
    if x < a then 0 else AlignDown(x - a, a) + a
  }

  lemma {:induction false} AlignDownMultiple(x: nat, a: nat)
    requires a > 0
    ensures Multiple(AlignDown(x, a), a)
  {
    if x < a {
      assert 0 == 0 * a;
    } else {
      AlignDownMultiple(x - a, a);
      var q: int :| AlignDown(x - a, a) == q * a;
      assert AlignDown(x, a) == (q + 1) * a;
    }
  }

  /** The next multiple of a. */
  function RoundUp(x: nat, a: nat): (r: nat)
    requires a > 0
    ensures x <= r < x + a
  {
    AlignDown(x + (a - 1), a)
  }

  /** Every multiple of a from x on is at least RoundUp(x, a), which is one. */
  lemma RoundUpIsLeast(x: nat, a: nat, m: int)
    requires a > 0
    ensures Multiple(RoundUp(x, a), a)
    ensures Multiple(m, a) && x <= m ==> RoundUp(x, a) <= m
  {
    AlignDownMultiple(x + (a - 1), a);
    if Multiple(m, a) && x <= m && m < RoundUp(x, a) {
      var q: int :| RoundUp(x, a) == q * a;
      var p: int :| m == p * a;
      assert (q - p) * a == q * a - p * a;
      NoMultipleBetween(q - p, a);
    }
  }

  lemma NoMultipleBetween(d: int, a: int)
    requires a > 0
    ensures !(0 < d * a < a)
  {
    if d >= 1 { assert d * a == (d - 1) * a + a && (d - 1) * a >= 0; }
    if d <= 0 { assert d * a <= 0; }
  }

  datatype Grant = Denied | Granted(index: nat, pool: nat)

  /** `allocate`: bumps the pool, or denies when the index space is exhausted. */
  method Allocate(pool: nat, size: nat, alignment0: nat) returns (g: Grant)
    requires 0 < size < WORD && pool < INDEX_SPACE
    requires alignment0 == 0 || (PowerOfTwo(alignment0) && alignment0 <= 0x8000_0000_0000_0000)
    ensures var a := if alignment0 == 0 then 1 else alignment0;
      g == if RoundUp(pool, a) + size < ALLOC_LIMIT then Granted(RoundUp(pool, a), RoundUp(pool, a) + size) else Denied
  {
    var alignment := if alignment0 < 1 then 1 else alignment0;
    var offset := alignment - 1;
    var newAddr := AlignDown((pool + offset) % WORD, alignment);
    var newEnd := (newAddr + size) % WORD;
    if newEnd >= ALLOC_LIMIT || newAddr < pool || newEnd <= newAddr {
      return Denied;
    }
    return Granted(newAddr, newAddr + size);
  }

  lemma {:induction false} Pow2Divides(k: nat, n: nat)
    requires k <= n
    ensures Multiple(Pow2(n), Pow2(k))
    decreases n
  {
    if k == n {
      assert Pow2(n) == 1 * Pow2(k);
    } else {
      Pow2Divides(k, n - 1);
      var q: int :| Pow2(n - 1) == q * Pow2(k);
      assert Pow2(n) == 2 * (q * Pow2(k)) == (2 * q) * Pow2(k);
    }
  }

  lemma {:induction false} Pow2Grows(k: nat, n: nat)
    requires k <= n
    ensures Pow2(k) <= Pow2(n) && (k < n ==> Pow2(k) < Pow2(n)) && Pow2(k) > 0
    decreases n
  {
    if n > 0 { Pow2Grows(if k < n then k else n - 1, n - 1); }
  }

  /** An index aligned to at most the size of the index space makes an aligned address. */
  lemma AlignedAddress(p: Place, index: nat, a: nat)
    requires PowerOfTwo(a) && a <= INDEX_SPACE && Multiple(index, a)
    ensures Multiple(Address(p, index), a)
  {
    var k: nat :| a == Pow2(k);
    Pow2Of32();
    if k > 32 { Pow2Grows(32, k); }
    Pow2Divides(k, 32);
    var q: int :| INDEX_SPACE == q * a;
    var r: int :| index == r * a;
    FactorOut(High(p), q, r, a);
    assert Address(p, index) == (High(p) * q + r) * a;
  }

  lemma FactorOut(h: int, q: int, r: int, a: int)
    ensures h * (q * a) + r * a == (h * q + r) * a
  {
  }

  lemma Pow2Of32()
    ensures Pow2(32) == INDEX_SPACE
  {
    assert Pow2(8) == 256;
    assert Pow2(16) == 65536;
    assert Pow2(24) == 16777216;
  }
}
