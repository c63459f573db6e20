/**
 * The capacity growth rule of the vector and the buffer:
 * `new_cap = (size_t) ceil(VEC_GROWTH * (double) n)` with VEC_GROWTH = 1.5.
 */
module Growth {
  import opened ColErrors

  /** ceil(1.5 * n) in exact integer arithmetic. */
  function Grow(n: nat): (c: nat)
    ensures 2 * c == 3 * n || 2 * c == 3 * n + 1
  {
    (3 * n + 1) / 2
  }

  /** The grown capacity is the least integer not below 1.5 * n, so it never shrinks and grows strictly when n > 0. */
  lemma GrowIsCeiling(n: nat, m: nat)
    requires 2 * m >= 3 * n
    ensures Grow(n) <= m
    ensures n <= Grow(n)
    ensures n > 0 ==> n < Grow(n)
  {
  }

  /** Requesting room for 3 elements yields capacity 5. */
  lemma GrowThree()
    ensures Grow(3) == 5
  {
  }

  /** A capacity that passes a `SIZE_MAX / size` check has a byte size that fits a `size_t`. */
  lemma {:induction false} CheckedCapacityFits(c: nat, e: nat)
    requires e > 0 && c <= SIZE_MAX / e
    ensures c * e <= SIZE_MAX
  {
    var q := SIZE_MAX / e;
    assert q * e <= SIZE_MAX;
    MulMono(c, q, e);
  }

  /** Multiplying by the same factor keeps the order. */
  lemma MulMono(a: nat, b: nat, e: nat)
    requires a <= b
    ensures a * e <= b * e
  {
  }
}
