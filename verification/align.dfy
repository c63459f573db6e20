/**
 * Alignment arithmetic: `ice_align_up(num, align)`, which adds `align - 1`
 * and then clears the bits below `align` with the mask `~(align - 1)`.
 */
module AlignMath {

  /** Powers of two: 1, 2, 4, 8, ... */
  predicate IsPow2(a: nat)
    decreases a
  {
    a == 1 || (a >= 2 && a % 2 == 0 && IsPow2(a / 2))
  }

  /** Doubling a power of two gives a power of two. */
  lemma DoublePow2(a: nat)
    requires IsPow2(a)
    ensures IsPow2(2 * a)
  {
    assert (2 * a) / 2 == a;
  }

  /**
   * `x & ~(a - 1)` for a power of two a, written bit by bit: the low bit of x
   * is cleared while a > 1 and the remaining bits are shifted down with a.
   */
  function ClearLowBits(x: nat, a: nat): nat
    requires IsPow2(a)
    decreases a
  {
    if a == 1 then x else 2 * ClearLowBits(x / 2, a / 2)
  }

  /** The number of whole multiples of a that `ClearLowBits(x, a)` keeps. */
  function Quotient(x: nat, a: nat): nat
    requires IsPow2(a)
    decreases a
  {
    if a == 1 then x else Quotient(x / 2, a / 2)
  }

  /**
   * Clearing the bits below a power of two a rounds x down to a multiple of a:
   * the result is Quotient(x, a) * a and lies in (x - a, x].
   */
  lemma {:induction false} ClearLowBitsRoundsDown(x: nat, a: nat)
    requires IsPow2(a)
    ensures ClearLowBits(x, a) == Quotient(x, a) * a
    ensures ClearLowBits(x, a) <= x < ClearLowBits(x, a) + a
  {
    if a > 1 {
      var h := a / 2;
      ClearLowBitsRoundsDown(x / 2, h);
      var c, q := ClearLowBits(x / 2, h), Quotient(x / 2, h);
      assert ClearLowBits(x, a) == 2 * c && Quotient(x, a) == q;
      DoubleProduct(q, h, a);
      HalfBounds(x, c, h);
    }
  }

  /** 2 * (q * h) == q * a when a == 2 * h. */
  lemma DoubleProduct(q: nat, h: nat, a: nat)
    requires a == 2 * h
    ensures 2 * (q * h) == q * a
  {
  }

  /** Doubling the bounds c <= x / 2 < c + h. */
  lemma HalfBounds(x: nat, c: nat, h: nat)
    requires c <= x / 2 < c + h
    ensures 2 * c <= x < 2 * c + 2 * h
  {
  }

  /** A product with a positive factor is strictly monotone in the other factor. */
  lemma MulStrictMono(i: nat, j: nat, a: nat)
    requires a > 0 && i * a < j * a
    ensures i < j
  {
  }

  /** Multiplication distributes over subtraction. */
  lemma MulSub(j: int, i: int, a: int)
    ensures j * a - i * a == (j - i) * a
  {
  }

  /** No multiple of a lies strictly between 0 and a. */
  lemma NoMultipleBelow(k: int, a: nat)
    requires a > 0
    ensures k * a <= 0 || k * a >= a
  {
    if k >= 1 {
      MulNonNegative(k - 1, a);
      assert k * a == (k - 1) * a + a;
    } else {
      MulNonNegative(-k, a);
      assert k * a == -((-k) * a);
    }
  }

  lemma {:induction false} MulNonNegative(p: nat, a: nat)
    ensures p * a >= 0
  {
    if p > 0 {
      MulNonNegative(p - 1, a);
      assert p * a == (p - 1) * a + a;
    }
  }

  /** A multiple of a has remainder zero. */
  lemma MultipleHasNoRemainder(q: nat, a: nat)
    requires a > 0
    ensures (q * a) % a == 0
  {
    var m := q * a;
    var d, r := m / a, m % a;
    var k := q - d;
    assert k * a == r by {
      assert m == d * a + r;
      assert q * a - d * a == (q - d) * a;
    }
    NoMultipleBelow(k, a);
  }

  /** A multiple of a multiple of a is a multiple of a. */
  lemma MultipleOfMultiple(i: nat, m: nat, a: nat)
    requires a > 0 && m % a == 0
    ensures (i * m) % a == 0
  {
    var q := m / a;
    assert m == q * a;
    assert i * m == (i * q) * a;
    MultipleHasNoRemainder(i * q, a);
  }

  /** `ice_align_up(num, align)`: the least multiple of align that is not below num. */
  function AlignUp(num: nat, align: nat): (r: nat)
    requires IsPow2(align)
    ensures r % align == 0
    ensures num <= r < num + align
  {
    var s := num + align - 1;
    ClearLowBitsRoundsDown(s, align);
    MultipleHasNoRemainder(Quotient(s, align), align);
    ClearLowBits(s, align)
  }

  /** No multiple of align lies in [num, AlignUp(num, align)): it is the least one. */
  lemma {:induction false} AlignUpIsLeast(num: nat, align: nat, m: nat)
    requires IsPow2(align)
    requires m % align == 0 && num <= m
    ensures AlignUp(num, align) <= m
  {
    var s := num + align - 1;
    ClearLowBitsRoundsDown(s, align);
    var r, j := AlignUp(num, align), Quotient(s, align);
    assert r == j * align;
    var i := m / align;
    DivisionExact(m, align);
    if m < r {
      MulSub(j, i, align);
      NoMultipleBelow(j - i, align);
    }
  }

  /** A multiple of a is its quotient times a. */
  lemma DivisionExact(m: nat, a: nat)
    requires a > 0 && m % a == 0
    ensures m == (m / a) * a
  {
  }

  /** Aligning leaves num unchanged exactly when num is already a multiple of align. */
  lemma AlignUpFixedIffAligned(num: nat, align: nat)
    requires IsPow2(align)
    ensures AlignUp(num, align) == num <==> num % align == 0
  {
    if num % align == 0 {
      AlignUpIsLeast(num, align, num);
    }
  }

  /** Aligning twice is aligning once. */
  lemma AlignUpIdempotent(num: nat, align: nat)
    requires IsPow2(align)
    ensures AlignUp(AlignUp(num, align), align) == AlignUp(num, align)
  {
    AlignUpFixedIffAligned(AlignUp(num, align), align);
  }

  /**
   * The slot stride of the buffer and the aligned array,
   * `(size + align) & ~(align - 1)`: the least multiple of align above size.
   */
  function SlotStride(size: nat, align: nat): (r: nat)
    requires IsPow2(align)
    ensures r % align == 0
    ensures size < r <= size + align
  {
    assert (size + 1) + align - 1 == size + align;
    AlignUp(size + 1, align)
  }

  /** No multiple of align lies in (size, SlotStride(size, align)). */
  lemma SlotStrideIsLeast(size: nat, align: nat, m: nat)
    requires IsPow2(align)
    requires m % align == 0 && size < m
    ensures SlotStride(size, align) <= m
  {
    AlignUpIsLeast(size + 1, align, m);
  }

  /** 16 and 64 are powers of two. */
  lemma SmallPowers()
    ensures IsPow2(1) && IsPow2(2) && IsPow2(16) && IsPow2(64)
  {
    assert IsPow2(2) && IsPow2(4) && IsPow2(8) && IsPow2(16) && IsPow2(32) && IsPow2(64);
  }

  /** A 12-byte element takes 16 bytes at alignment 16 and 64 bytes at alignment 64. */
  lemma KnownStrides()
    ensures IsPow2(16) && IsPow2(64)
    ensures SlotStride(12, 16) == 16
    ensures SlotStride(12, 64) == 64
  {
    SmallPowers();
    SlotStrideIsLeast(12, 16, 16);
    SlotStrideIsLeast(12, 64, 64);
  }
}
