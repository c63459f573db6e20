/**
 * The growable vector generated by `makeVecOfTypeImpl` (vec_macros.h) and by
 * `makeVecImpl` / `makePrimitiveVecOfTypeImpl` (icemacros.h, macros.h). The
 * three expansions differ only in the reallocation call and in the return
 * type of `free`; they share one class here. `data` holds `cap` slots of which
 * the first `len` are live; `begin` and `end` are the lazily cached iterator
 * pointers.
 */
module Vectors {
  import opened ColErrors
  import opened Growth
  import opened Traverse

  /** The live elements after placing x at position i and shifting the rest right. */
  function Inserted<T>(s: seq<T>, i: nat, x: T): (r: seq<T>)
    requires i <= |s|
    ensures |r| == |s| + 1 && r[i] == x
    ensures forall k :: 0 <= k < i ==> r[k] == s[k]
    ensures forall k :: i < k < |r| ==> r[k] == s[k - 1]
  {
    s[..i] + [x] + s[i..]
  }

  /** The live elements after removing position i and shifting the rest left. */
  function Erased<T>(s: seq<T>, i: nat): (r: seq<T>)
    requires i < |s|
    ensures |r| == |s| - 1
    ensures forall k :: 0 <= k < i ==> r[k] == s[k]
    ensures forall k :: i <= k < |r| ==> r[k] == s[k + 1]
  {
    s[..i] + s[i + 1..]
  }

  /** Erasing the element just inserted gives back the original elements. */
  lemma EraseUndoesInsert<T>(s: seq<T>, i: nat, x: T)
    requires i <= |s|
    ensures Erased(Inserted(s, i, x), i) == s
  {
    var r := Erased(Inserted(s, i, x), i);
    assert forall k :: 0 <= k < |s| ==> r[k] == s[k];
  }

  /** Re-inserting an erased element at its old position restores the elements. */
  lemma InsertUndoesErase<T>(s: seq<T>, i: nat)
    requires i < |s|
    ensures Inserted(Erased(s, i), i, s[i]) == s
  {
    var r := Inserted(Erased(s, i), i, s[i]);
    assert forall k :: 0 <= k < |s| ==> r[k] == s[k];
  }

  /** Appending is inserting at the end. */
  lemma InsertAtEndAppends<T>(s: seq<T>, x: T)
    ensures Inserted(s, |s|, x) == s + [x]
  {
  }

  /**
   * The element range `erase(i)` reads as written: `memmove` copies `len - i`
   * elements starting at index `i + 1`, so the range is [i + 1, len + 1).
   */
  function EraseReadRangeAsWritten(len: nat, i: nat): (r: (nat, nat))
    requires i < len
    ensures r.0 == i + 1 && r.1 - r.0 == len - i
  {
    (i + 1, len + 1)
  }

  /** As written, `erase` always reads one element past the live range. */
  lemma EraseReadsPastLiveRange(len: nat, i: nat)
    requires i < len
    ensures EraseReadRangeAsWritten(len, i).1 == len + 1
    ensures EraseReadRangeAsWritten(len, i).1 > len
  {
  }

  /**
   * `vec_new`: NULL when the aligned allocation of the vector itself fails
   * (`allocFails`), otherwise an empty vector.
   */
  method NewVec<T(0)>(elemSize: nat, allocFails: bool) returns (v: Option<Vec<T>>)
    requires elemSize > 0
    ensures v.None? <==> allocFails
    ensures v.Some? ==> fresh(v.value) && v.value.Valid() && v.value.elemSize == elemSize
    ensures v.Some? ==> v.value.len == 0 && v.value.cap == 0 && v.value.Contents() == []
    ensures v.Some? ==> v.value.begin == None && v.value.end == None
  {
    if allocFails {
      v := None;
    } else {
      var created := new Vec<T>(elemSize);
      v := Some(created);
    }
  }

  class Vec<T(0)> {
    var data: array<T>
    var len: nat
    var cap: nat
    /** The cached `begin` pointer: the array it points into, or NULL. */
    var begin: Option<array<T>>
    /** The cached `end` pointer: the array and the element index it points at, or NULL. */
    var end: Option<(array<T>, nat)>
    /** `sizeof(type)` */
    const elemSize: nat

    /**
     * The vector invariant: `cap` slots of `sizeof(type)` bytes fit a `size_t`,
     * at most `cap` of them are live, and a cached pointer points into the
     * current data with the cached end never past the live range.
     */
    ghost predicate Valid()
      reads this
    {
      data.Length == cap && len <= cap && elemSize > 0 && cap * elemSize <= SIZE_MAX
      && (begin.Some? ==> begin.value == data)
      && (end.Some? ==> end.value.0 == data && end.value.1 <= len)
    }

    /** The live elements. */
    ghost function Contents(): seq<T>
      reads this, data
      requires Valid()
    {
      data[..len]
    }

    /** `vec_new`: no elements, no capacity, no data, no cached pointers. */
    constructor (elemSize: nat)
      requires elemSize > 0
      ensures Valid() && fresh(data)
      ensures this.elemSize == elemSize
      ensures len == 0 && cap == 0 && Contents() == []
      ensures begin == None && end == None
    {
      this.elemSize := elemSize;
      data := new T[0];
      len, cap := 0, 0;
      begin, end := None, None;
    }

    /** `vec_free`: the fields are reset and `COL_OK` is returned (the release of the memory is not modelled). */
    method Free() returns (err: ColError)
      requires Valid()
      modifies this
      ensures Valid() && err == Ok
      ensures len == 0 && cap == 0 && Contents() == [] && begin == None && end == None
    {
      data := new T[0];
      len, cap := 0, 0;
      begin, end := None, None;
      err := Ok;
    }

    /**
     * `vec_reserve(n)`: nothing to do when n fits; otherwise the capacity grows
     * to ceil(1.5 n) unless that overflows the byte size or the reallocation
     * (`allocFails`) fails, which reports `BadAlloc` and changes nothing.
     */
    method Reserve(n: nat, allocFails: bool) returns (err: ColError)
      requires Valid()
      modifies this
      ensures Valid()
      ensures len == old(len) && Contents() == old(Contents())
      ensures err == Ok || err == BadAlloc
      ensures err == Ok <==> n <= old(cap) || (Grow(n) <= SIZE_MAX / elemSize && !allocFails)
      ensures err == Ok ==> n <= cap
      ensures n <= old(cap) || err != Ok ==>
        data == old(data) && cap == old(cap) && begin == old(begin) && end == old(end)
      ensures n > old(cap) && err == Ok ==>
        fresh(data) && cap == Grow(n) && begin == None && end == None
    {
      if n <= cap {
        return Ok;
      }
      var newCap := Grow(n);
      if newCap > SIZE_MAX / elemSize {
        return BadAlloc;
      }
      if allocFails {
        return BadAlloc;
      }
      CheckedCapacityFits(newCap, elemSize);
      GrowIsCeiling(n, newCap);
      var a := new T[newCap];
      forall k | 0 <= k < cap {
        a[k] := data[k];
      }
      assert a[..len] == data[..len];
      data := a;
      cap := newCap;
      begin, end := None, None;
      err := Ok;
    }

    /**
     * `vec_push_back(val)`: reserves room for one more element and appends val;
     * a failed reserve is reported and changes nothing. Without reallocation
     * the cached end pointer is kept.
     */
    method PushBack(val: T, allocFails: bool) returns (err: ColError)
      requires Valid() && len < SIZE_MAX
      modifies this, data
      ensures Valid()
      ensures err == Ok <==> old(len) < old(cap) || (Grow(old(len) + 1) <= SIZE_MAX / elemSize && !allocFails)
      ensures err == Ok ==> len == old(len) + 1 && Contents() == old(Contents()) + [val]
      ensures err != Ok ==> err == BadAlloc && len == old(len) && Contents() == old(Contents())
      ensures old(len) < old(cap) ==> data == old(data) && begin == old(begin) && end == old(end)
      ensures data == old(data) || fresh(data)
      ensures cap == if old(len) < old(cap) || err != Ok then old(cap) else Grow(old(len) + 1)
    {
      err := Reserve(len + 1, allocFails);
      if err != Ok {
        return;
      }
      data[len] := val;
      len := len + 1;
    }

    /**
     * `vec_insert(i, val)`: with i < len the elements from i on move one place
     * right and val takes position i; otherwise val is appended.
     */
    method Insert(i: nat, val: T, allocFails: bool) returns (err: ColError)
      requires Valid() && len < SIZE_MAX
      modifies this, data
      ensures Valid()
      ensures err == Ok <==> old(len) < old(cap) || (Grow(old(len) + 1) <= SIZE_MAX / elemSize && !allocFails)
      ensures err == Ok ==> (len == old(len) + 1 &&
        Contents() == Inserted(old(Contents()), if i < old(len) then i else old(len), val))
      ensures err != Ok ==> err == BadAlloc && len == old(len) && Contents() == old(Contents())
      ensures old(len) < old(cap) ==> data == old(data) && begin == old(begin) && end == old(end)
      ensures data == old(data) || fresh(data)
      ensures cap == if old(len) < old(cap) || err != Ok then old(cap) else Grow(old(len) + 1)
    {
      ghost var s := Contents();
      err := Reserve(len + 1, allocFails);
      if err != Ok {
        return;
      }
      var at := i;
      if i < len {
        forall k | i < k <= len {
          data[k] := data[k - 1];
        }
      } else {
        at := len;
      }
      data[at] := val;
      len := len + 1;
      assert Contents() == Inserted(s, at, val) by {
        assert forall k :: 0 <= k < len ==> data[k] == Inserted(s, at, val)[k];
      }
    }

    /** `vec_back`: the last element, or `Underflow` (out-parameter untouched) when empty. */
    method Back(prior: T) returns (err: ColError, res: T)
      requires Valid()
      ensures len == 0 ==> err == Underflow && res == prior
      ensures len > 0 ==> err == Ok && res == Contents()[len - 1]
    {
      if len == 0 {
        return Underflow, prior;
      }
      return Ok, data[len - 1];
    }

    /** `vec_get(i)`: element i, or `IllegalArgument` (out-parameter untouched) when i >= len. */
    method Get(i: nat, prior: T) returns (err: ColError, res: T)
      requires Valid()
      ensures i >= len ==> err == IllegalArgument && res == prior
      ensures i < len ==> err == Ok && res == Contents()[i]
    {
      if i >= len {
        return IllegalArgument, prior;
      }
      return Ok, data[i];
    }

    /** `vec_set(i, val)`: replaces element i only, or reports `IllegalArgument` when i >= len. */
    method Set(i: nat, val: T) returns (err: ColError)
      requires Valid()
      modifies data
      ensures Valid()
      ensures i >= len ==> err == IllegalArgument && Contents() == old(Contents())
      ensures i < len ==> err == Ok && Contents() == old(Contents())[i := val]
    {
      if i >= len {
        return IllegalArgument;
      }
      data[i] := val;
      return Ok;
    }

    /**
     * `vec_erase(i)`: removes element i, keeping the others in order, and
     * clears the cached end; `IllegalArgument` when i >= len. The shift moves
     * the len - i - 1 elements after i (see `EraseReadRangeAsWritten` for the
     * range the source reads).
     */
    method Erase(i: nat) returns (err: ColError)
      requires Valid()
      modifies this, data
      ensures Valid() && data == old(data) && cap == old(cap) && begin == old(begin)
      ensures i >= old(len) ==> err == IllegalArgument && len == old(len) && Contents() == old(Contents()) && end == old(end)
      ensures i < old(len) ==> err == Ok && len == old(len) - 1 && Contents() == Erased(old(Contents()), i) && end == None
    {
      if i >= len {
        return IllegalArgument;
      }
      ghost var s := Contents();
      forall k | i <= k < len - 1 {
        data[k] := data[k + 1];
      }
      len := len - 1;
      end := None;
      assert Contents() == Erased(s, i) by {
        assert forall k :: 0 <= k < len ==> data[k] == Erased(s, i)[k];
      }
      return Ok;
    }

    /** `vec_len` */
    method Len() returns (n: nat)
      requires Valid()
      ensures n == |Contents()|
    {
      return len;
    }

    /** `vec_pop_back`: removes and yields the last element, or `Underflow` when empty. */
    method PopBack(prior: T) returns (err: ColError, res: T)
      requires Valid()
      modifies this
      ensures Valid() && data == old(data) && cap == old(cap) && begin == old(begin)
      ensures old(len) == 0 ==> err == Underflow && res == prior && len == 0 && end == old(end)
      ensures old(len) > 0 ==> (err == Ok && res == old(Contents())[old(len) - 1] &&
        len == old(len) - 1 && Contents() == old(Contents())[..old(len) - 1] && end == None)
    {
      if len == 0 {
        return Underflow, prior;
      }
      len := len - 1;
      res := data[len];
      end := None;
      err := Ok;
    }

    /** `vec_clear`: no live elements, capacity and data kept, cached end cleared. */
    method Clear()
      requires Valid()
      modifies this
      ensures Valid() && data == old(data) && cap == old(cap) && begin == old(begin)
      ensures len == 0 && Contents() == [] && end == None
    {
      len := 0;
      end := None;
    }

    /** `vec_empty` */
    method Empty() returns (b: bool)
      requires Valid()
      ensures b <==> Contents() == []
    {
      return len == 0;
    }

    /** `vec_data`: the data array (an empty array stands for NULL). */
    method Data() returns (a: array<T>)
      requires Valid()
      ensures a == data && a[..len] == Contents()
    {
      return data;
    }

    /** `vec_begin`: caches and returns the start of the data. */
    method Begin() returns (p: array<T>)
      requires Valid()
      modifies this
      ensures Valid() && data == old(data) && len == old(len) && cap == old(cap) && end == old(end)
      ensures p == data && begin == Some(data)
    {
      if begin.None? {
        begin := Some(data);
      }
      p := begin.value;
    }

    /**
     * `vec_end`: the cached end pointer, computed as data + len when none is
     * cached. It is never past the live range, and it equals len whenever the
     * last mutation cleared it.
     */
    method End() returns (p: array<T>, at: nat)
      requires Valid()
      modifies this
      ensures Valid() && data == old(data) && len == old(len) && cap == old(cap) && begin == old(begin)
      ensures p == data && at <= len && end == Some((p, at))
      ensures old(end) == None ==> at == len
      ensures old(end) != None ==> at == old(end).value.1
    {
      if end.None? {
        end := Some((data, len));
      }
      p, at := end.value.0, end.value.1;
    }

    /** `vec_each`: calls cb on 0 .. len-1 and stops at the first non-OK result. */
    method Each(cb: nat -> ColError) returns (err: ColError, calls: seq<nat>)
      requires Valid()
      ensures (err, calls) == Visit(Ascending(len), cb)
      ensures forall k :: 0 <= k < |calls| ==> calls[k] == k && k < len
    {
      err, calls := Traverse.Each(len, cb);
    }

    /**
     * `vec_each_reverse`, corrected: calls cb on len-1 down to 0 and stops at the
     * first non-OK result, with no call when the vector is empty. The source
     * starts its `size_t` index at `len - 1`, which wraps to SIZE_MAX when
     * len == 0 (Traverse.EachReverseWrapsOnEmpty); for len > 0 the two agree
     * (Traverse.EachReverseAgreesWhenNonEmpty).
     */
    method EachReverse(cb: nat -> ColError) returns (err: ColError, calls: seq<nat>)
      requires Valid()
      ensures (err, calls) == Visit(Descending(len), cb)
      ensures forall k :: 0 <= k < |calls| ==> calls[k] == len - 1 - k
    {
      err, calls := Traverse.EachReverse(len, cb);
    }

    /** `vec_search`: the first index whose predicate call matches, or len when none does. */
    method Search(pred: nat -> (ColError, bool), prior: nat) returns (err: ColError, index: nat)
      requires Valid()
      ensures err == SearchFrom(0, len, pred).0
      ensures index == match SearchFrom(0, len, pred).1 case Some(i) => i case None => prior
    {
      err, index := Traverse.Search(len, pred, prior);
    }
  }

  /** `push_back(x)` followed by `pop_back` yields x and restores the elements and the length. */
  method PushThenPop<T(0)>(v: Vec<T>, x: T, allocFails: bool) returns (err: ColError, res: T)
    requires v.Valid() && v.len < SIZE_MAX
    modifies v, v.data
    ensures v.Valid()
    ensures err == Ok || err == BadAlloc
    ensures err == Ok ==> res == x && v.len == old(v.len) && v.Contents() == old(v.Contents())
    ensures err != Ok ==> v.len == old(v.len) && v.Contents() == old(v.Contents())
  {
    err := v.PushBack(x, allocFails);
    if err != Ok {
      return err, x;
    }
    ghost var pushed := v.Contents();
    err, res := v.PopBack(x);
    assert pushed[..|pushed| - 1] == old(v.Contents());
  }

  /**
   * Two `push_back`s on a new vector leave len == cap == 2 (reserve(1) grows
   * the capacity to 2, reserve(2) fits). `erase(0)` as written then reads up
   * to index 2, outside the two-slot allocation.
   */
  method EraseOverreadsFullVector() returns (readEnd: nat, cap: nat)
    ensures cap == 2 && readEnd == 3 && readEnd > cap
  {
    var v := new Vec<int>(8);
    var e := v.PushBack(10, false);
    e := v.PushBack(100, false);
    readEnd, cap := EraseReadRangeAsWritten(v.len, 0).1, v.cap;
  }

  /**
   * A `push_back` that does not reallocate keeps the cached end pointer: after
   * `reserve(2)` and `end()`, a `push_back` leaves `end()` at index 0 while the
   * vector holds one element.
   */
  method StaleEndAfterPush() returns (at: nat, len: nat)
    ensures at == 0 && len == 1
  {
    var v := new Vec<int>(8);
    var e := v.Reserve(2, false);
    var p;
    p, at := v.End();
    e := v.PushBack(7, false);
    p, at := v.End();
    len := v.len;
  }

  /** Removing 100 from [10, 100, 1000] leaves [10, 1000]. */
  method EraseMiddle() returns (s: seq<int>)
    ensures s == [10, 1000]
  {
    var v := new Vec<int>(8);
    var e := v.PushBack(10, false);
    e := v.PushBack(100, false);
    e := v.PushBack(1000, false);
    e := v.Erase(1);
    var a := v.Data();
    s := a[..v.len];
  }

  /** Inserting 10 at the front of [100, 1000] gives [10, 100, 1000]. */
  method InsertAtFront() returns (s: seq<int>)
    ensures s == [10, 100, 1000]
  {
    var v := new Vec<int>(8);
    var e := v.PushBack(100, false);
    e := v.PushBack(1000, false);
    e := v.Insert(0, 10, false);
    var a := v.Data();
    s := a[..v.len];
  }
}
