/**
 * The fixed aligned array generated by `makeArrayOfTypeImpl`
 * (icealignedarray.h): `len` slots of a stride rounded up to the alignment,
 * both fixed when the macro is expanded, in one block from aligned malloc.
 * Slot addresses are integers relative to the block's address.
 */
module AlignedArrays {
  import opened ColErrors
  import opened AlignMath
  import opened Growth
  import opened AlignedMalloc
  import opened Traverse

  /** The compile-time parameters of one expansion: `sizeof(type)`, `align` and `len`. */
  datatype Layout = Layout(elemSize: nat, align: nat, len: nat)

  /** Parameters the macro can be expanded with: a power-of-two alignment and a block size that fits a `size_t`. */
  predicate ValidLayout(l: Layout)
  {
    l.elemSize > 0 && IsPow2(l.align) && l.len * SlotStride(l.elemSize, l.align) <= SIZE_MAX
  }

  /** `size_aligned = (sizeof(type) + align) & ~(align - 1)` */
  function Stride(l: Layout): (s: nat)
    requires ValidLayout(l)
    ensures s % l.align == 0 && l.elemSize < s <= l.elemSize + l.align
  {
    SlotStride(l.elemSize, l.align)
  }

  /** The bytes requested from aligned malloc: `len * size_aligned`. */
  function BlockSize(l: Layout): (n: nat)
    requires ValidLayout(l)
    ensures n <= SIZE_MAX
    ensures n == 0 <==> l.len == 0
  {
    l.len * Stride(l)
  }

  /**
   * `arr_get(i)` on the block at `base`: `IllegalArgument` (nothing written)
   * for i >= len, otherwise the address of slot i, which starts at an aligned
   * offset and ends inside the block.
   */
  function Get(l: Layout, base: nat, i: nat): (r: (ColError, Option<nat>))
    requires ValidLayout(l)
    ensures r.0 == Ok || r.0 == IllegalArgument
    ensures r.0 == Ok <==> r.1.Some?
    ensures r.0 == Ok <==> i < l.len
    ensures r.1.Some? ==> base <= r.1.value && r.1.value + Stride(l) <= base + BlockSize(l)
    ensures r.1.Some? ==> (r.1.value - base) % l.align == 0 && r.1.value - base == i * Stride(l)
  {
    if i >= l.len then (IllegalArgument, None)
    else
      MulMono(i + 1, l.len, Stride(l));
      MultipleOfMultiple(i, Stride(l), l.align);
      (Ok, Some(base + i * Stride(l)))
  }

  /** Two different slots do not overlap, and each has room for an element. */
  lemma {:induction false} SlotsDisjoint(l: Layout, base: nat, i: nat, j: nat)
    requires ValidLayout(l) && i < j < l.len
    ensures Get(l, base, i).1.value + l.elemSize < Get(l, base, i).1.value + Stride(l) <= Get(l, base, j).1.value
  {
    MulMono(i + 1, j, Stride(l));
  }

  /** `arr_len`: the compile-time length, whatever the block. */
  function Len(l: Layout, base: nat): (n: nat)
    ensures n == l.len
  {
    l.len
  }

  /**
   * `arr_back`: `arr_get(len - 1)` with `len - 1` computed on a `size_t`, so
   * an empty array asks for index SIZE_MAX and gets `IllegalArgument`.
   */
  function Back(l: Layout, base: nat): (r: (ColError, Option<nat>))
    requires ValidLayout(l)
    ensures l.len == 0 ==> r == (IllegalArgument, None)
    ensures l.len > 0 ==> r == Get(l, base, l.len - 1) && r.0 == Ok
    ensures l.len > 0 ==> r.1.value + Stride(l) == base + BlockSize(l)
  {
    var last := if l.len == 0 then SIZE_MAX else l.len - 1;
    Get(l, base, last)
  }

  /**
   * `arr_new`: the block from aligned malloc for `len * size_aligned` bytes,
   * NULL (0) when that size is 0 or malloc (`block`) fails.
   */
  method New(heap: Heap, l: Layout, block: nat) returns (base: nat)
    requires ValidLayout(l)
    modifies heap
    ensures base == 0 <==> l.len == 0 || block == 0
    ensures base != 0 ==> base % l.align == 0 && base == AlignedAddress(block, l.align)
  {
    base := heap.AlignedMalloc(l.align, BlockSize(l), block);
  }

  /** `arr_each`: calls cb on 0 .. len-1 and stops at the first non-OK result. */
  method Each(l: Layout, cb: nat -> ColError) returns (err: ColError, calls: seq<nat>)
    ensures (err, calls) == Visit(Ascending(l.len), cb)
    ensures forall k :: 0 <= k < |calls| ==> calls[k] == k && k < l.len
  {
    err, calls := Traverse.Each(l.len, cb);
  }

  /**
   * `arr_each_reverse`, corrected: calls cb on len-1 down to 0 and stops at the
   * first non-OK result, with no call when len == 0. The source starts its
   * `size_t` index at `len - 1`, which wraps to SIZE_MAX when len == 0
   * (Traverse.EachReverseWrapsOnEmpty); for len > 0 the two agree
   * (Traverse.EachReverseAgreesWhenNonEmpty).
   */
  method EachReverse(l: Layout, cb: nat -> ColError) returns (err: ColError, calls: seq<nat>)
    ensures (err, calls) == Visit(Descending(l.len), cb)
    ensures forall k :: 0 <= k < |calls| ==> calls[k] == l.len - 1 - k
  {
    err, calls := Traverse.EachReverse(l.len, cb);
  }

  /** Three 12-byte elements at alignment 16: stride 16, slots at offsets 0, 16 and 32, the last one is `back`. */
  lemma ThreeVec3Slots(base: nat)
    ensures ValidLayout(Layout(12, 16, 3))
    ensures Len(Layout(12, 16, 3), base) == 3
    ensures Get(Layout(12, 16, 3), base, 0) == (Ok, Some(base))
    ensures Get(Layout(12, 16, 3), base, 1) == (Ok, Some((base + 16) as nat))
    ensures Get(Layout(12, 16, 3), base, 2) == (Ok, Some((base + 32) as nat))
    ensures Get(Layout(12, 16, 3), base, 3) == (IllegalArgument, None)
    ensures Back(Layout(12, 16, 3), base) == (Ok, Some((base + 32) as nat))
  {
    KnownStrides();
  }
}
