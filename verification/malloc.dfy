/**
 * Aligned allocation: `ice_aligned_malloc` over-allocates, returns the first
 * address aligned to `align` that leaves two bytes in front of it, and stores
 * the distance back to the block there in a 16-bit slot; `ice_aligned_free`
 * reads that slot to find the block to free. Addresses are integers; the
 * underlying `malloc` is a parameter (the address it returned, 0 for NULL).
 */
module AlignedMalloc {
  import opened AlignMath
  import opened ColErrors

  /** Size of the stored offset, `sizeof(offset_t)`. */
  const PTR_OFFSET_SZ: nat := 2
  /** `offset_t` is `u_int16_t`: a stored offset is reduced modulo 2^16. */
  const OFFSET_RANGE: nat := 0x1_0000
  /** The largest alignment whose offsets (at most align + 1) fit the 16-bit slot. */
  const MAX_ALIGN: nat := 0x8000

  /** Bytes requested from malloc: room for the offset plus the alignment slack. */
  function HeaderSize(align: nat): nat
    requires align > 0
  {
    PTR_OFFSET_SZ + (align - 1)
  }

  /**
   * The argument handed to malloc: `size + hdr_size` computed in `size_t`.
   * Without wrap-around it is the payload plus the header; for a size within
   * HeaderSize(align) of SIZE_MAX it wraps to fewer bytes than the header alone.
   */
  function MallocRequest(align: nat, size: nat): (n: nat)
    requires align > 0 && IsSize(align) && IsSize(size)
    ensures IsSize(n)
    ensures size + HeaderSize(align) <= SIZE_MAX ==> n == size + HeaderSize(align)
    ensures size + HeaderSize(align) > SIZE_MAX ==> n < HeaderSize(align)
  {
    (size + HeaderSize(align)) % (SIZE_MAX + 1)
  }

  /**
   * The address returned for a block at `block`: aligned, with the offset slot
   * and the payload inside the block of MallocRequest(align, size) bytes as
   * long as that request does not wrap.
   */
  function AlignedAddress(block: nat, align: nat): (ptr: nat)
    requires IsPow2(align)
    ensures ptr % align == 0
    ensures block + PTR_OFFSET_SZ <= ptr <= block + HeaderSize(align)
  {
    AlignUp(block + PTR_OFFSET_SZ, align)
  }

  /** The value written to the offset slot: `(offset_t)(ptr - p)`. */
  function StoredOffset(block: nat, align: nat): (o: nat)
    requires IsPow2(align)
    ensures o < OFFSET_RANGE
    ensures align <= MAX_ALIGN ==> o == AlignedAddress(block, align) - block
  {
    var d := AlignedAddress(block, align) - block;
    SmallModulus(d, OFFSET_RANGE);
    d % OFFSET_RANGE
  }

  /** Reducing a value below the modulus leaves it unchanged. */
  lemma SmallModulus(d: nat, m: nat)
    requires m > 0
    ensures d < m ==> d % m == d
  {
  }

  /** 2^16 is a power of two. */
  lemma OffsetRangeIsPow2()
    ensures IsPow2(OFFSET_RANGE)
  {
    assert IsPow2(2) && IsPow2(4) && IsPow2(8) && IsPow2(16);
    assert IsPow2(32) && IsPow2(64) && IsPow2(128) && IsPow2(256);
    assert IsPow2(512) && IsPow2(1024) && IsPow2(2048) && IsPow2(4096);
    assert IsPow2(8192) && IsPow2(16384) && IsPow2(32768);
  }

  /** Sums and differences of multiples of a are multiples of a. */
  lemma MultiplesClosed(x: nat, y: nat, a: nat)
    requires a > 0 && x % a == 0 && y % a == 0
    ensures (x + y) % a == 0
    ensures x >= y ==> (x - y) % a == 0
  {
    var i, j := x / a, y / a;
    assert x == i * a && y == j * a;
    assert x + y == (i + j) * a;
    MultipleHasNoRemainder(i + j, a);
    if x >= y {
      assert x - y == (i - j) * a;
      MulStrictMonoOrEqual(j, i, a);
      MultipleHasNoRemainder(i - j, a);
    }
  }

  lemma MulStrictMonoOrEqual(j: nat, i: nat, a: nat)
    requires a > 0 && j * a <= i * a
    ensures j <= i
  {
  }

  /** For a block that is itself aligned, the offset is AlignUp(2, align). */
  lemma OffsetForAlignedBlock(block: nat, align: nat)
    requires IsPow2(align) && block % align == 0
    ensures AlignedAddress(block, align) - block == AlignUp(PTR_OFFSET_SZ, align)
  {
    var ptr, off := AlignedAddress(block, align), AlignUp(PTR_OFFSET_SZ, align);
    MultiplesClosed(block, off, align);
    AlignUpIsLeast(block + PTR_OFFSET_SZ, align, block + off);
    MultiplesClosed(ptr, block, align);
    AlignUpIsLeast(PTR_OFFSET_SZ, align, ptr - block);
  }

  /** The offsets observed for an aligned block: 16 at align 16, 4 at align 4, 2 at align 1. */
  lemma KnownOffsets()
    ensures AlignUp(PTR_OFFSET_SZ, 16) == 16
    ensures AlignUp(PTR_OFFSET_SZ, 4) == 4
    ensures AlignUp(PTR_OFFSET_SZ, 1) == 2
  {
  }

  /** Below MAX_ALIGN the stored offset leads from the returned address back to the block. */
  lemma FreeRecoversBlock(block: nat, align: nat)
    requires IsPow2(align) && align <= MAX_ALIGN
    ensures AlignedAddress(block, align) - StoredOffset(block, align) == block
  {
  }

  /**
   * At align 2^16 the offset of an aligned block is 2^16 itself, which the
   * 16-bit slot stores as 0: free would then release the returned address
   * instead of the block.
   */
  lemma OffsetTruncatedAtLargeAlign()
    ensures IsPow2(OFFSET_RANGE)
    ensures AlignedAddress(OFFSET_RANGE, OFFSET_RANGE) == 2 * OFFSET_RANGE
    ensures StoredOffset(OFFSET_RANGE, OFFSET_RANGE) == 0
    ensures AlignedAddress(OFFSET_RANGE, OFFSET_RANGE) - StoredOffset(OFFSET_RANGE, OFFSET_RANGE) != OFFSET_RANGE
  {
    OffsetRangeIsPow2();
    var ptr := AlignedAddress(OFFSET_RANGE, OFFSET_RANGE);
    assert ptr % OFFSET_RANGE == 0;
  }

  /** The offset slots written by aligned malloc, keyed by the slot's address. */
  class Heap {
    var offsets: map<nat, nat>

    constructor ()
      ensures offsets == map[]
    {
      offsets := map[];
    }

    /**
     * `ice_aligned_malloc(align, size)` as written; `block` is what malloc
     * returned for size + HeaderSize(align) bytes. The alignment must be 0 or a
     * power of two (a debug assertion, not a reported error).
     */
    method AlignedMalloc(align: nat, size: nat, block: nat) returns (ptr: nat)
      requires align == 0 || IsPow2(align)
      modifies this
      ensures align == 0 || size == 0 || block == 0 ==> ptr == 0 && offsets == old(offsets)
      ensures align > 0 && size > 0 && block > 0 ==>
        ptr == AlignedAddress(block, align) && ptr % align == 0 &&
        offsets == old(offsets)[ptr - PTR_OFFSET_SZ := StoredOffset(block, align)]
    {
      ptr := 0;
      if align > 0 && size > 0 {
        if block != 0 {
          ptr := AlignUp(block + PTR_OFFSET_SZ, align);
          offsets := offsets[ptr - PTR_OFFSET_SZ := (ptr - block) % OFFSET_RANGE];
        }
      }
    }

    /**
     * Aligned malloc with alignments whose offset cannot fit the 16-bit slot
     * refused (NULL), so that every pointer it returns can be freed.
     */
    method AlignedMallocChecked(align: nat, size: nat, block: nat) returns (ptr: nat)
      requires align == 0 || IsPow2(align)
      modifies this
      ensures align == 0 || align > MAX_ALIGN || size == 0 || block == 0 ==> ptr == 0 && offsets == old(offsets)
      ensures 0 < align <= MAX_ALIGN && size > 0 && block > 0 ==>
        ptr == AlignedAddress(block, align) && ptr % align == 0 &&
        offsets == old(offsets)[ptr - PTR_OFFSET_SZ := ptr - block]
    {
      if align > MAX_ALIGN {
        return 0;
      }
      ptr := AlignedMalloc(align, size, block);
    }

    /** `ice_aligned_free(ptr)`: NULL frees nothing; otherwise the block at ptr minus the stored offset is freed. */
    method AlignedFree(ptr: nat) returns (freed: Option<int>)
      requires ptr == 0 || (ptr >= PTR_OFFSET_SZ && ptr - PTR_OFFSET_SZ in offsets)
      ensures ptr == 0 ==> freed == None
      ensures ptr != 0 ==> freed == Some(ptr - offsets[ptr - PTR_OFFSET_SZ])
    {
      if ptr == 0 {
        return None;
      }
      var offset := offsets[ptr - PTR_OFFSET_SZ];
      freed := Some(ptr - offset);
    }
  }

  /** Allocating and then freeing the result releases exactly the block malloc returned, or nothing for NULL. */
  method AllocateThenFree(align: nat, size: nat, block: nat) returns (ptr: nat, freed: Option<int>)
    requires align == 0 || IsPow2(align)
    ensures ptr == 0 <==> freed.None?
    ensures ptr != 0 ==> align > 0 && ptr % align == 0 && freed == Some(block)
    ensures ptr == 0 <==> align == 0 || align > MAX_ALIGN || size == 0 || block == 0
  {
    var heap := new Heap();
    ptr := heap.AlignedMallocChecked(align, size, block);
    freed := heap.AlignedFree(ptr);
  }
}
