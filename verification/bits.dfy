/**
 * Bit helpers on 32-bit words: leading-zero count and floor log2, the
 * trailing-zero counting loop, and the loop visiting every set bit of a word.
 * Bit indices are `uint32_t` values, as in the source.
 */
module Bits {

  /** Bit i of w is set. */
  predicate BitSet(w: bv32, i: bv32)
    requires i < 32
  {
    (w >> i) & 1 == 1
  }

  /** All bits of w below bit i are clear. */
  ghost predicate LowClear(w: bv32, i: bv32)
    requires i <= 32
  {
    forall j: bv32 :: j < i ==> !BitSet(w, j)
  }

  /** A word with no set bit is zero. */
  lemma AllClearIsZero(w: bv32)
    requires LowClear(w, 32)
    ensures w == 0
  {
    assert !BitSet(w, 0) && !BitSet(w, 1) && !BitSet(w, 2) && !BitSet(w, 3);
    assert !BitSet(w, 4) && !BitSet(w, 5) && !BitSet(w, 6) && !BitSet(w, 7);
    assert !BitSet(w, 8) && !BitSet(w, 9) && !BitSet(w, 10) && !BitSet(w, 11);
    assert !BitSet(w, 12) && !BitSet(w, 13) && !BitSet(w, 14) && !BitSet(w, 15);
    assert !BitSet(w, 16) && !BitSet(w, 17) && !BitSet(w, 18) && !BitSet(w, 19);
    assert !BitSet(w, 20) && !BitSet(w, 21) && !BitSet(w, 22) && !BitSet(w, 23);
    assert !BitSet(w, 24) && !BitSet(w, 25) && !BitSet(w, 26) && !BitSet(w, 27);
    assert !BitSet(w, 28) && !BitSet(w, 29) && !BitSet(w, 30) && !BitSet(w, 31);
  }

  /**
   * Zero bits counted from bit i downwards up to the highest set bit at or
   * below i (i + 1 when there is none), for a word with nothing above bit i.
   */
  function ZerosDownFrom(w: bv32, i: bv32): (n: bv32)
    requires i < 32
    requires w >> i >> 1 == 0
    ensures n <= i + 1
    ensures n <= i ==> w >> (i - n) == 1
    ensures n == i + 1 ==> w == 0
    decreases i as int
  {
    if BitSet(w, i) then 0
    else if i == 0 then 1
    else 1 + ZerosDownFrom(w, i - 1)
  }

  /** `GetNumberOfLeadingZeros(x)`: 32 for 0, otherwise `__builtin_clz(x)`. */
  function LeadingZeros(x: bv32): (n: bv32)
    ensures n <= 32
    ensures x == 0 <==> n == 32
    ensures n < 32 ==> x >> (31 - n) == 1
  {
    if x == 0 then 32 else ZerosDownFrom(x, 31)
  }

  /**
   * `iceFloorLog2Uint32(v)`: 31 minus the leading-zero count in unsigned
   * 32-bit arithmetic. For v > 0 the result r satisfies v >> r == 1, that is
   * 2^r <= v < 2^(r+1); for v == 0 the subtraction wraps to 0xFFFF_FFFF.
   */
  function FloorLog2(v: bv32): (r: bv32)
    ensures v != 0 ==> r < 32 && v >> r == 1
    ensures v == 0 ==> r == 0xFFFF_FFFF
  {
    31 - LeadingZeros(v)
  }

  /**
   * `GetNumberOfTrailingZerosUint32(word)`: scans bits upwards from 0 and
   * returns the index of the lowest set bit, or 32 when there is none.
   */
  method TrailingZeros(word: bv32) returns (count: bv32)
    ensures count <= 32
    ensures LowClear(word, count)
    ensures count < 32 ==> BitSet(word, count)
    ensures count == 32 <==> word == 0
  {
    count := 0;
    var i: bv32 := 0;
    while i < 32
      invariant i <= 32 && count == i
      invariant LowClear(word, i)
    {
      if BitSet(word, i) {
        return;
      }
      count := count + 1;
      i := i + 1;
    }
    AllClearIsZero(word);
  }

  /** `w & -w` isolates the lowest set bit b of w. */
  lemma LowestBitIsolated(w: bv32, b: bv32)
    requires b < 32 && BitSet(w, b) && LowClear(w, b)
    ensures w & -w == (1 as bv32) << b
  {
    LowClearMask(w, b);
    LowestBitMask(w, b);
  }

  lemma LowestBitMask(w: bv32, b: bv32)
    requires b < 32 && BitSet(w, b) && w & (((1 as bv32) << b) - 1) == 0
    ensures w & -w == (1 as bv32) << b
  {
  }

  /** Xor-ing out bit b of a word where it is set clears exactly bit b. */
  lemma XorClearsOnlyBit(w: bv32, b: bv32)
    requires b < 32 && BitSet(w, b)
    ensures forall j: bv32 :: j < 32 ==> (BitSet(w ^ ((1 as bv32) << b), j) <==> BitSet(w, j) && j != b)
  {
    forall j: bv32 | j < 32
      ensures BitSet(w ^ ((1 as bv32) << b), j) <==> BitSet(w, j) && j != b
    {
      XorSingleBit(w, b, j);
    }
  }

  lemma XorSingleBit(w: bv32, b: bv32, j: bv32)
    requires b < 32 && j < 32
    ensures BitSet(w ^ ((1 as bv32) << b), j) <==> (BitSet(w, j) != (j == b))
  {
  }

  /** Clear low bits as a mask: w has no bit below b. */
  lemma LowClearMask(w: bv32, b: bv32)
    requires b < 32 && LowClear(w, b)
    ensures w & (((1 as bv32) << b) - 1) == 0
    decreases b as int
  {
    if b > 0 {
      LowClearMask(w, b - 1);
      assert !BitSet(w, b - 1);
    }
  }

  /** The set bits of word below k, in increasing order. */
  function SetBits(word: bv32, k: bv32): (s: seq<bv32>)
    requires k <= 32
    ensures forall p :: 0 <= p < |s| ==> s[p] < k
    ensures forall p, q :: 0 <= p < q < |s| ==> s[p] < s[q]
    decreases k as int
  {
    if k == 0 then []
    else
      var prev := SetBits(word, k - 1);
      if BitSet(word, k - 1) then prev + [k - 1] else prev
  }

  /** Only set bits of word occur in SetBits(word, k). */
  lemma {:induction false} SetBitsSound(word: bv32, k: bv32, p: nat)
    requires k <= 32 && p < |SetBits(word, k)|
    ensures BitSet(word, SetBits(word, k)[p])
    decreases k as int
  {
    if p < |SetBits(word, k - 1)| {
      SetBitsSound(word, k - 1, p);
    }
  }

  /** Every set bit of word below k occurs in SetBits(word, k). */
  lemma {:induction false} SetBitsComplete(word: bv32, k: bv32, j: bv32)
    requires k <= 32 && j < k && BitSet(word, j)
    ensures j in SetBits(word, k)
    decreases k as int
  {
    if j < k - 1 {
      SetBitsComplete(word, k - 1, j);
    }
  }

  /** With no set bit of word in [lo, b) and bit b set, the set bits below b+1 are those below lo followed by b. */
  lemma {:induction false} SetBitsSkip(word: bv32, lo: bv32, b: bv32)
    requires lo <= b < 32 && BitSet(word, b)
    requires forall j: bv32 :: lo <= j < b ==> !BitSet(word, j)
    ensures SetBits(word, b + 1) == SetBits(word, lo) + [b]
    decreases b as int
  {
    SetBitsGap(word, lo, b);
  }

  /** With no set bit of word in [lo, hi), the set bits below hi are those below lo. */
  lemma {:induction false} SetBitsGap(word: bv32, lo: bv32, hi: bv32)
    requires lo <= hi <= 32
    requires forall j: bv32 :: lo <= j < hi ==> !BitSet(word, j)
    ensures SetBits(word, hi) == SetBits(word, lo)
    decreases hi as int
  {
    if hi > lo {
      SetBitsGap(word, lo, hi - 1);
    }
  }

  /**
   * The bits of w are those of word from floor upwards: the bits the loop has
   * not yet visited.
   */
  ghost predicate Remaining(word: bv32, w: bv32, floor: bv32)
  {
    forall j: bv32 :: j < 32 ==> (BitSet(w, j) <==> BitSet(word, j) && j >= floor)
  }

  /** One iteration: the lowest remaining bit is the next set bit of word, and clearing it moves floor past it. */
  lemma LoopStep(word: bv32, w: bv32, floor: bv32, bit: bv32)
    requires floor <= 32 && bit < 32 && BitSet(w, bit) && LowClear(w, bit)
    requires Remaining(word, w, floor)
    ensures floor <= bit
    ensures SetBits(word, bit + 1) == SetBits(word, floor) + [bit]
    ensures Remaining(word, w ^ ((1 as bv32) << bit), bit + 1)
  {
    GapBelowLowest(word, w, floor, bit);
    SetBitsSkip(word, floor, bit);
    RemainingAfterClear(word, w, floor, bit);
  }

  /** No bit of word is set between floor and the lowest remaining bit. */
  lemma GapBelowLowest(word: bv32, w: bv32, floor: bv32, bit: bv32)
    requires floor <= 32 && bit < 32 && BitSet(w, bit) && LowClear(w, bit)
    requires Remaining(word, w, floor)
    ensures floor <= bit
    ensures forall j: bv32 :: floor <= j < bit ==> !BitSet(word, j)
  {
    forall j: bv32 | floor <= j < bit
      ensures !BitSet(word, j)
    {
      assert !BitSet(w, j);
    }
  }

  lemma RemainingAfterClear(word: bv32, w: bv32, floor: bv32, bit: bv32)
    requires floor <= bit < 32 && BitSet(w, bit) && LowClear(w, bit)
    requires Remaining(word, w, floor)
    ensures Remaining(word, w ^ ((1 as bv32) << bit), bit + 1)
  {
    var cleared := w ^ ((1 as bv32) << bit);
    forall j: bv32 | j < 32
      ensures BitSet(cleared, j) <==> BitSet(word, j) && j >= bit + 1
    {
      XorSingleBit(w, bit, j);
      assert BitSet(w, j) <==> BitSet(word, j) && j >= floor;
      if j < bit {
        assert !BitSet(w, j);
      }
    }
    assert Remaining(word, cleared, bit + 1);
  }

  /** When no bit remains, all set bits of word lie below floor. */
  lemma LoopExit(word: bv32, floor: bv32)
    requires floor <= 32 && Remaining(word, 0, floor)
    ensures SetBits(word, 32) == SetBits(word, floor)
  {
    forall j: bv32 | floor <= j < 32
      ensures !BitSet(word, j)
    {
      assert !BitSet(0, j);
    }
    SetBitsGap(word, floor, 32);
  }

  /**
   * `ForEachBitPos_uint32(word, bit_var, body)`: returns the values bit_var
   * takes, in the order the body sees them: every set bit of word exactly
   * once, increasing.
   */
  method ForEachBitPos(word: bv32) returns (visited: seq<bv32>)
    ensures visited == SetBits(word, 32)
  {
    visited := [];
    var w := word;
    ghost var floor: bv32 := 0;
    while w != 0
      invariant floor <= 32
      invariant visited == SetBits(word, floor)
      invariant Remaining(word, w, floor)
      decreases 32 - floor
    {
      var t := w & -w;
      var bit := TrailingZeros(w);
      LowestBitIsolated(w, bit);
      LoopStep(word, w, floor, bit);
      visited := visited + [bit];
      w := w ^ t;
      floor := bit + 1;
    }
    LoopExit(word, floor);
  }

  /** The loop runs once per set bit: the visit count is the number of set bits, at most 32. */
  lemma {:induction false} SetBitsCount(word: bv32, k: bv32)
    requires k <= 32
    ensures |SetBits(word, k)| <= k as int
    decreases k as int
  {
    if k > 0 {
      SetBitsCount(word, k - 1);
    }
  }
}
