/**
 * The aligned buffer generated by `makeBufOfTypeImpl` (buf_macros.h): `cap`
 * slots of `alignedSize` bytes each in one byte block, of which the first
 * `lim` are visible. Slots are handed out as byte offsets into `data`.
 */
module Buffers {
  import opened ColErrors
  import opened Growth
  import opened AlignMath
  import opened Traverse

  /** 2^64: `size_t` arithmetic is modulo this. */
  const SIZE_RANGE: nat := SIZE_MAX + 1

  /** An `unsigned char`. */
  newtype Byte = b: int | 0 <= b < 256

  /** The byte `memset` writes for its `int` argument: the value converted to `unsigned char`. */
  function ByteOf(c: int): (b: Byte)
    ensures 0 <= c < 256 ==> b as int == c
    ensures (c - b as int) % 256 == 0
  {
    (c % 256) as Byte
  }

  /** s with the bytes in [from, to) replaced by b. */
  function Filled(s: seq<Byte>, from: nat, to: nat, b: Byte): (r: seq<Byte>)
    requires from <= to <= |s|
    ensures |r| == |s|
    ensures forall k :: 0 <= k < |s| ==> r[k] == if from <= k < to then b else s[k]
  {
    s[..from] + seq(to - from, _ => b) + s[to..]
  }

  /**
   * `buf_reserve(n)` for n > cap as written: the grown capacity is checked
   * against `SIZE_MAX / sizeof(type)`, but `new_cap * alignedSize` bytes are
   * requested, computed in a `size_t`. `None` is the `BadAlloc` return before
   * any allocation; otherwise the capacity and the byte count requested.
   */
  function ReserveRequestAsWritten(n: nat, elemSize: nat, alignedSize: nat): (r: Option<(nat, nat)>)
    requires elemSize > 0
    ensures r.Some? ==> r.value.0 == Grow(n) && r.value.1 < SIZE_RANGE
    ensures r.Some? ==> (r.value.1 == r.value.0 * alignedSize <==> r.value.0 * alignedSize <= SIZE_MAX)
  {
    var newCap := Grow(n);
    if newCap > SIZE_MAX / elemSize then None
    else Some((newCap, (newCap * alignedSize) % SIZE_RANGE))
  }

  /**
   * The check the byte count needs: against `SIZE_MAX / alignedSize`, so that
   * every request that passes is the exact size of the slots.
   */
  function ReserveRequest(n: nat, alignedSize: nat): (r: Option<(nat, nat)>)
    requires alignedSize > 0
    ensures r.Some? ==> r.value.0 == Grow(n) && r.value.1 == r.value.0 * alignedSize <= SIZE_MAX
    ensures r.None? ==> Grow(n) * alignedSize > SIZE_MAX
  {
    var newCap := Grow(n);
    if newCap > SIZE_MAX / alignedSize then
      assert (SIZE_MAX / alignedSize + 1) * alignedSize > SIZE_MAX;
      MulMono(SIZE_MAX / alignedSize + 1, newCap, alignedSize);
      None
    else
      CheckedCapacityFits(newCap, alignedSize);
      Some((newCap, newCap * alignedSize))
  }

  /**
   * With one-byte elements at alignment 2 the stride is 2 bytes
   * (`OneByteStride`). Reserving 6148914691236517205 slots grows the capacity
   * to 2^63, which passes the check against `sizeof(type)`; the byte count
   * 2^63 * 2 wraps to 0, so the buffer would claim 2^63 slots of a zero-byte
   * block. The corrected check refuses the request.
   */
  lemma ReserveByteCountWraps()
    ensures ReserveRequestAsWritten(6148914691236517205, 1, 2) == Some((0x8000_0000_0000_0000, 0))
    ensures ReserveRequest(6148914691236517205, 2) == None
  {
    GrowToHalfRange();
  }

  /** One-byte elements at alignment 2 have a stride of 2 bytes. */
  lemma OneByteStride()
    ensures IsPow2(2) && SlotStride(1, 2) == 2
  {
    SmallPowers();
    SlotStrideIsLeast(1, 2, 2);
  }

  /** ceil(1.5 * 6148914691236517205) is 2^63, half the `size_t` range. */
  lemma GrowToHalfRange()
    ensures Grow(6148914691236517205) == 0x8000_0000_0000_0000
    ensures 0x8000_0000_0000_0000 * 2 == SIZE_RANGE
  {
  }

  /**
   * `buf_new(align)`: NULL when aligned malloc refuses alignment 0 or the
   * allocation of the buffer itself fails (`allocFails`), otherwise an empty
   * buffer with the stride computed from the alignment.
   */
  method NewBuf(elemSize: nat, align: nat, allocFails: bool) returns (b: Option<Buf>)
    requires elemSize > 0 && (align == 0 || IsPow2(align))
    ensures b.None? <==> align == 0 || allocFails
    ensures b.Some? ==> fresh(b.value) && b.value.Valid()
    ensures b.Some? ==> b.value.elemSize == elemSize && b.value.align == align
    ensures b.Some? ==> b.value.alignedSize == SlotStride(elemSize, align)
    ensures b.Some? ==> b.value.lim == 0 && b.value.cap == 0 && b.value.data.Length == 0
  {
    if align == 0 || allocFails {
      b := None;
    } else {
      var created := new Buf(elemSize, align);
      b := Some(created);
    }
  }

  class Buf {
    var data: array<Byte>
    var lim: nat
    var cap: nat
    var align: nat
    var alignedSize: nat
    /** `sizeof(type)` */
    const elemSize: nat

    /**
     * The buffer invariant: the stride is the least multiple of the alignment
     * above the element size, the block holds exactly `cap` slots and its byte
     * size fits a `size_t`, and no more than `cap` slots are visible.
     */
    ghost predicate Valid()
      reads this
    {
      IsPow2(align) && elemSize > 0 && alignedSize == SlotStride(elemSize, align)
      && data.Length == cap * alignedSize && cap * alignedSize <= SIZE_MAX && lim <= cap
    }

    /** `buf_new(align)`: no slots, nothing visible, the stride computed from the alignment. */
    constructor (elemSize: nat, align: nat)
      requires elemSize > 0 && IsPow2(align)
      ensures Valid() && fresh(data)
      ensures this.elemSize == elemSize && this.align == align
      ensures alignedSize == SlotStride(elemSize, align)
      ensures lim == 0 && cap == 0 && data.Length == 0
    {
      this.elemSize := elemSize;
      this.align := align;
      alignedSize := SlotStride(elemSize, align);
      data := new Byte[0];
      lim, cap := 0, 0;
    }

    /** `buf_free`: every field reset to zero and `COL_OK` returned (the release of the memory is not modelled). */
    method Free() returns (err: ColError)
      modifies this
      ensures err == Ok
      ensures lim == 0 && cap == 0 && align == 0 && alignedSize == 0 && data.Length == 0
    {
      data := new Byte[0];
      lim, cap, align, alignedSize := 0, 0, 0, 0;
      err := Ok;
    }

    /**
     * `buf_reserve(n)` with the byte-count check of `ReserveRequest`: nothing
     * to do when n fits; otherwise the capacity grows to ceil(1.5 n), keeping
     * the bytes of the old block, unless the byte count overflows or the
     * reallocation fails (`BadAlloc`, nothing changed). `lim` never changes.
     */
    method Reserve(n: nat, allocFails: bool) returns (err: ColError)
      requires Valid()
      modifies this
      ensures Valid()
      ensures lim == old(lim) && align == old(align) && alignedSize == old(alignedSize)
      ensures err == Ok || err == BadAlloc
      ensures err == Ok <==> n <= old(cap) || (ReserveRequest(n, alignedSize).Some? && !allocFails)
      ensures err == Ok ==> n <= cap
      ensures n <= old(cap) || err != Ok ==> data == old(data) && cap == old(cap)
      ensures n > old(cap) && err == Ok ==> fresh(data) && cap == Grow(n)
      ensures |old(data[..])| <= data.Length && data[..|old(data[..])|] == old(data[..])
    {
      if n <= cap {
        return Ok;
      }
      var req := ReserveRequest(n, alignedSize);
      if req.None? || allocFails {
        return BadAlloc;
      }
      var newCap, bytes := req.value.0, req.value.1;
      GrowIsCeiling(n, newCap);
      MulMono(cap, newCap, alignedSize);
      var a := new Byte[bytes];
      forall k | 0 <= k < data.Length {
        a[k] := data[k];
      }
      data := a;
      cap := newCap;
      err := Ok;
    }

    /** Slot i lies inside the block and starts at a multiple of the alignment. */
    lemma SlotInBlock(i: nat)
      requires Valid() && i < cap
      ensures (i + 1) * alignedSize <= data.Length
      ensures (i * alignedSize) % align == 0
    {
      MulMono(i + 1, cap, alignedSize);
      MultipleOfMultiple(i, alignedSize, align);
    }

    /** `buf_back`: the offset of slot lim - 1, or `Underflow` (out-parameter untouched) when nothing is visible. */
    method Back(prior: nat) returns (err: ColError, at: nat)
      requires Valid()
      ensures lim == 0 ==> err == Underflow && at == prior
      ensures lim > 0 ==> err == Ok && at == (lim - 1) * alignedSize
      ensures lim > 0 ==> at + alignedSize <= data.Length && at % align == 0
    {
      if lim == 0 {
        return Underflow, prior;
      }
      SlotInBlock(lim - 1);
      return Ok, (lim - 1) * alignedSize;
    }

    /** `buf_get(i)`: the offset of slot i, or `Overflow` (out-parameter untouched) when i >= lim. */
    method Get(i: nat, prior: nat) returns (err: ColError, at: nat)
      requires Valid()
      ensures i >= lim ==> err == Overflow && at == prior
      ensures i < lim ==> err == Ok && at == i * alignedSize
      ensures i < lim ==> at + alignedSize <= data.Length && at % align == 0
    {
      if i >= lim {
        return Overflow, prior;
      }
      SlotInBlock(i);
      return Ok, i * alignedSize;
    }

    /** `buf_memset(i, c)`: fills exactly the bytes of slot i with c, or reports `Overflow` when i >= lim. */
    method Memset(i: nat, c: int) returns (err: ColError)
      requires Valid()
      modifies data
      ensures Valid()
      ensures i >= lim ==> err == Overflow && data[..] == old(data[..])
      ensures i < lim ==> (i + 1) * alignedSize <= data.Length && err == Ok
      ensures i < lim ==> data[..] == Filled(old(data[..]), i * alignedSize, (i + 1) * alignedSize, ByteOf(c))
    {
      if i >= lim {
        return Overflow;
      }
      SlotInBlock(i);
      var from, to, b := i * alignedSize, (i + 1) * alignedSize, ByteOf(c);
      forall k | from <= k < to {
        data[k] := b;
      }
      return Ok;
    }

    /** `buf_lim` */
    method Lim() returns (n: nat)
      requires Valid()
      ensures n == lim && n <= cap
    {
      return lim;
    }

    /** `buf_set_lim(n)`: n slots become visible, capped at the capacity. */
    method SetLim(n: nat)
      requires Valid()
      modifies this
      ensures Valid() && data == old(data) && cap == old(cap) && alignedSize == old(alignedSize) && align == old(align)
      ensures lim <= cap && (lim == n || (n >= cap && lim == cap))
    {
      lim := if n >= cap then cap else n;
    }

    /** `buf_clear`: nothing visible, capacity and bytes kept. */
    method Clear()
      requires Valid()
      modifies this
      ensures Valid() && data == old(data) && cap == old(cap) && alignedSize == old(alignedSize) && align == old(align)
      ensures lim == 0
    {
      lim := 0;
    }

    /** `buf_empty` */
    method Empty() returns (b: bool)
      requires Valid()
      ensures b <==> lim == 0
    {
      return lim == 0;
    }

    /** `buf_data`: the byte block (an empty block stands for NULL). */
    method Data() returns (a: array<Byte>)
      requires Valid()
      ensures a == data && a.Length == cap * alignedSize
    {
      return data;
    }

    /** `buf_each`: calls cb on 0 .. lim-1 and stops at the first non-OK result. */
    method Each(cb: nat -> ColError) returns (err: ColError, calls: seq<nat>)
      requires Valid()
      ensures (err, calls) == Visit(Ascending(lim), cb)
      ensures forall k :: 0 <= k < |calls| ==> calls[k] == k && k < lim
    {
      err, calls := Traverse.Each(lim, cb);
    }

    /**
     * `buf_each_reverse`, corrected: calls cb on lim-1 down to 0 and stops at the
     * first non-OK result, with no call when lim == 0. The source starts its
     * `size_t` index at `lim - 1`, which wraps to SIZE_MAX when lim == 0
     * (Traverse.EachReverseWrapsOnEmpty); for lim > 0 the two agree
     * (Traverse.EachReverseAgreesWhenNonEmpty).
     */
    method EachReverse(cb: nat -> ColError) returns (err: ColError, calls: seq<nat>)
      requires Valid()
      ensures (err, calls) == Visit(Descending(lim), cb)
      ensures forall k :: 0 <= k < |calls| ==> calls[k] == lim - 1 - k
    {
      err, calls := Traverse.EachReverse(lim, cb);
    }
  }

  /**
   * A buffer of 12-byte elements at alignment 64: stride 64; `reserve(3)`
   * gives capacity 5 and `set_lim(10)` makes all 5 slots visible, slot 2 at
   * byte 128; slot 5 is out of range.
   */
  method ReserveThenSetLim() returns (stride: nat, cap: nat, lim: nat, at: nat, err: ColError)
    ensures stride == 64 && cap == 5 && lim == 5 && at == 128 && err == Overflow
  {
    KnownStrides();
    var b := new Buf(12, 64);
    var e := b.Reserve(3, false);
    b.SetLim(10);
    e, at := b.Get(2, 0);
    var unused;
    err, unused := b.Get(5, 0);
    stride, cap, lim := b.alignedSize, b.cap, b.lim;
  }
}
