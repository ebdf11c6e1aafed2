/**
 * Table sizing, slot addressing and the section arithmetic of batchForEach.
 */
module Sizing {

  /** The largest power-of-two length of a Java array. */
  const MaxCapacity: nat := 0x4000_0000

  const DefaultInitialCapacity: nat := 8

  /** The table length of a set built with the default constructor: DEFAULT_INITIAL_CAPACITY << 1. */
  const DefaultCapacity: nat := DefaultInitialCapacity * 2

  /** The default load factor 0.75f, as the fraction LoadNum / LoadDen. */
  const LoadNum: nat := 3
  const LoadDen: nat := 4

  ghost predicate IsPow2(n: int)
    decreases if n < 0 then 0 else n
  {
    n == 1 || (n >= 2 && n % 2 == 0 && IsPow2(n / 2))
  }

  /** Of two powers of two, the smaller one fits twice into the larger. */
  lemma {:induction false} Pow2Double(n: int, b: int)
    requires IsPow2(n) && IsPow2(b) && n < b
    ensures 2 * n <= b
    decreases n
  {
    if n != 1 {
      Pow2Double(n / 2, b / 2);
    }
  }

  lemma MaxCapacityIsPow2()
    ensures IsPow2(MaxCapacity)
  {
    assert IsPow2(0x2);
    assert IsPow2(0x4);
    assert IsPow2(0x8);
    assert IsPow2(0x10);
    assert IsPow2(0x20);
    assert IsPow2(0x40);
    assert IsPow2(0x80);
    assert IsPow2(0x100);
    assert IsPow2(0x200);
    assert IsPow2(0x400);
    assert IsPow2(0x800);
    assert IsPow2(0x1000);
    assert IsPow2(0x2000);
    assert IsPow2(0x4000);
    assert IsPow2(0x8000);
    assert IsPow2(0x10000);
    assert IsPow2(0x20000);
    assert IsPow2(0x40000);
    assert IsPow2(0x80000);
    assert IsPow2(0x100000);
    assert IsPow2(0x200000);
    assert IsPow2(0x400000);
    assert IsPow2(0x800000);
    assert IsPow2(0x1000000);
    assert IsPow2(0x2000000);
    assert IsPow2(0x4000000);
    assert IsPow2(0x8000000);
    assert IsPow2(0x10000000);
    assert IsPow2(0x20000000);
    assert IsPow2(0x40000000);
  }

  lemma DefaultCapacityIsPow2()
    ensures IsPow2(DefaultCapacity)
  {
    assert IsPow2(2) && IsPow2(4) && IsPow2(8);
  }

  lemma Pow2Twice(n: int)
    requires IsPow2(n)
    ensures IsPow2(2 * n)
  {
    assert (2 * n) / 2 == n;
  }

  lemma Pow2Positive(n: int)
    requires IsPow2(n)
    ensures n >= 1
  {
  }

  /** A Java `int` hash code, as its 32-bit pattern: `index` only shifts, xors and masks it. */
  type Int32 = bv32

  /**
   * The avalanche mix of `index`: h ^= (h >>> 20) ^ (h >>> 12);
   * h ^= (h >>> 7) ^ (h >>> 4).  Java's `>>>` on an int is the logical
   * shift of its 32 bits.
   */
  function Spread(code: Int32): bv32
  {
    var h1 := code ^ ((code >> 20) ^ (code >> 12));
    h1 ^ ((h1 >> 7) ^ (h1 >> 4))
  }

  /**
   * Undoes `Spread`.  Each round is I + N for a nilpotent N over GF(2), so its
   * inverse is (I + N)(I + N^2)(I + N^4)...: three factors for the second
   * round, two for the first.
   */
  function Unspread(r: bv32): bv32
  {
    var g1 := r ^ ((r >> 7) ^ (r >> 4));
    var g2 := g1 ^ ((g1 >> 14) ^ (g1 >> 8));
    var g3 := g2 ^ ((g2 >> 28) ^ (g2 >> 16));
    var g4 := g3 ^ ((g3 >> 20) ^ (g3 >> 12));
    g4 ^ (g4 >> 24)
  }

  lemma UnspreadRounds(h: bv32)
    ensures var h1 := h ^ ((h >> 20) ^ (h >> 12)); Unspread(h1 ^ ((h1 >> 7) ^ (h1 >> 4))) == h
  {
  }

  /**
   * The mixing of `index` loses no information: distinct hash codes spread
   * to distinct values, so they can share a slot only through the mask.
   */
  lemma SpreadInjective(a: Int32, b: Int32)
    requires Spread(a) == Spread(b)
    ensures a == b
  {
    UnspreadRounds(a);
    UnspreadRounds(b);
  }

  /**
   * `index`: the mixed hash masked with len - 1.  For a power-of-two `len`
   * the mask keeps the low bits of the unsigned pattern, that is its
   * remainder modulo `len`.
   */
  function IndexFor(h: Int32, len: nat): (i: nat)
    requires IsPow2(len)
    ensures i < len
  {
    Pow2Positive(len);
    (Spread(h) as int) % len
  }

  /** computeMaxSize: min(capacity - 1, (int) (capacity * loadFactor)) at the default load factor. */
  function MaxSizeFor(capacity: nat): (m: nat)
    requires capacity >= 1
    ensures m < capacity
    ensures capacity >= 4 ==> m == capacity * LoadNum / LoadDen
  {
    Min(capacity - 1, capacity * LoadNum / LoadDen)
  }

  function Min(a: int, b: int): int
  {
    if a < b then a else b
  }

  /** Doubling the table raises the threshold by at least one, so the re-insertions of rehash never trigger another rehash. */
  lemma MaxSizeGrows(capacity: nat)
    requires IsPow2(capacity)
    ensures MaxSizeFor(capacity) + 1 <= MaxSizeFor(2 * capacity)
  {
    if capacity >= 4 {
      assert MaxSizeFor(capacity) == capacity * 3 / 4;
      assert MaxSizeFor(2 * capacity) == 2 * capacity * 3 / 4;
    } else {
      assert capacity == 1 || capacity == 2;
    }
  }

  lemma MaxSizeMono(a: nat, b: nat)
    requires 1 <= a <= b
    ensures MaxSizeFor(a) <= MaxSizeFor(b)
  {
    assert a * LoadNum <= b * LoadNum;
  }

  /** The largest number of elements a table of at most MaxCapacity slots holds. */
  function MaxElements(): nat
  {
    MaxSizeFor(MaxCapacity)
  }

  /**
   * fastCeil(initialCapacity / loadFactor) for the default load factor,
   * computed exactly on integers.
   */
  function RequiredCapacity(initialCapacity: nat): (r: nat)
    ensures r * LoadNum >= initialCapacity * LoadDen
    ensures r == 0 || (r - 1) * LoadNum < initialCapacity * LoadDen
  {
    (initialCapacity * 4 + 2) / 3
  }

  /** `init`: the least power of two that is at least the requested capacity. */
  method InitCapacity(initialCapacity: int) returns (capacity: nat)
    requires initialCapacity <= MaxCapacity
    ensures IsPow2(capacity) && capacity <= MaxCapacity
    ensures capacity >= initialCapacity
    ensures capacity == 1 || capacity / 2 < initialCapacity
  {
    capacity := 1;
    while capacity < initialCapacity
      invariant IsPow2(capacity) && capacity <= MaxCapacity
      invariant capacity == 1 || capacity / 2 < initialCapacity
      decreases MaxCapacity - capacity
    {
      MaxCapacityIsPow2();
      Pow2Double(capacity, MaxCapacity);
      assert (2 * capacity) / 2 == capacity;
      capacity := 2 * capacity;
    }
  }

  /**
   * The slot range [start, end) that batchForEach gives to one section:
   * every section but the last spans len / sectionCount slots, and the
   * start leaves room for a whole section before the end of the table.
   */
  function SectionStart(len: nat, sectionIndex: nat, sectionCount: nat): (start: nat)
    requires sectionIndex < sectionCount
    ensures start + len / sectionCount <= len
  {
    MulMono(len / sectionCount, sectionIndex + 1, sectionCount);
    (len / sectionCount) * sectionIndex
  }

  /** The last section runs to the end of the table; a section's range is an ordered sub-range of the table. */
  function SectionEnd(len: nat, sectionIndex: nat, sectionCount: nat): (end: nat)
    requires sectionIndex < sectionCount
    ensures SectionStart(len, sectionIndex, sectionCount) <= end <= len
  {
    var start := SectionStart(len, sectionIndex, sectionCount);
    if sectionIndex == sectionCount - 1 then len else start + len / sectionCount
  }

  lemma MulMono(a: nat, b: nat, c: nat)
    requires b <= c
    ensures a * b <= a * c
  {
  }

  /** Sections are contiguous: the first starts at 0, each ends where the next starts, the last ends at the table's end. */
  lemma SectionsContiguous(len: nat, sectionCount: nat)
    requires sectionCount >= 1
    ensures SectionStart(len, 0, sectionCount) == 0
    ensures SectionEnd(len, sectionCount - 1, sectionCount) == len
    ensures forall k :: 0 <= k < sectionCount - 1 ==>
      SectionEnd(len, k, sectionCount) == SectionStart(len, k + 1, sectionCount)
  {
    var size := len / sectionCount;
    forall k | 0 <= k < sectionCount - 1
      ensures SectionEnd(len, k, sectionCount) == SectionStart(len, k + 1, sectionCount)
    {
      assert size * (k + 1) == size * k + size;
    }
  }

  /**
   * Java's `/` of a non-negative int by a non-zero one: the quotient rounded
   * toward zero: `q * b` is at most `a` and within `|b|` of it, and `q`
   * is never positive for a negative divisor.
   */
  function JavaDiv(a: nat, b: int): (q: int)
    requires b != 0
    ensures b > 0 ==> q == a / b
    ensures b < 0 ==> q <= 0 && q * b <= a < q * b - b
  {
    if b > 0 then a / b else -(a / -b)
  }

  /** A key count that fits the largest table fits under its threshold. */
  lemma CapacityRoom(n: nat)
    requires RequiredCapacity(n) <= MaxCapacity
    ensures n <= MaxElements()
  {
  }
}
