/**
 * The counting loops shared by the containers: `each` (ascending indices),
 * `each_reverse` (descending indices) and `search` (first index a predicate
 * matches). A callback is modelled by the error code it returns for each
 * index; the loops report the indices they called it with, in call order.
 */
module Traverse {
  import opened ColErrors

  /** Indices 0, 1, ..., n-1. */
  function Ascending(n: nat): (s: seq<nat>)
    ensures |s| == n
    ensures forall k :: 0 <= k < n ==> s[k] == k
  {
    if n == 0 then [] else Ascending(n - 1) + [n - 1]
  }

  /** Indices n-1, n-2, ..., 0. */
  function Descending(n: nat): (s: seq<nat>)
    ensures |s| == n
    ensures forall k :: 0 <= k < n ==> s[k] == n - 1 - k
  {
    if n == 0 then [] else [n - 1] + Descending(n - 1)
  }

  /**
   * Calling `cb` on the indices of `order` in turn and stopping at the first
   * result other than `Ok`: the result returned and the indices called.
   */
  function Visit(order: seq<nat>, cb: nat -> ColError): (r: (ColError, seq<nat>))
    ensures r.1 <= order
    ensures forall k :: 0 <= k < |r.1| - 1 ==> cb(r.1[k]) == Ok
    ensures r.0 == Ok <==> r.1 == order && forall k :: 0 <= k < |order| ==> cb(order[k]) == Ok
    ensures r.0 != Ok ==> |r.1| > 0 && cb(r.1[|r.1| - 1]) == r.0
  {
    if order == [] then (Ok, [])
    else if cb(order[0]) != Ok then (cb(order[0]), [order[0]])
    else
      var rest := Visit(order[1..], cb);
      assert order == [order[0]] + order[1..];
      (rest.0, [order[0]] + rest.1)
  }

  /**
   * `Visit` is determined by its contract: any (result, calls) pair that
   * calls a prefix of `order`, succeeds on all but the last call and either
   * covers all of `order` with `Ok` or ends on the failing call, is the visit.
   */
  lemma {:induction false} VisitUnique(order: seq<nat>, cb: nat -> ColError, err: ColError, calls: seq<nat>)
    requires calls <= order
    requires forall k :: 0 <= k < |calls| - 1 ==> cb(calls[k]) == Ok
    requires err == Ok ==> calls == order && forall k :: 0 <= k < |order| ==> cb(order[k]) == Ok
    requires err != Ok ==> |calls| > 0 && cb(calls[|calls| - 1]) == err
    ensures Visit(order, cb) == (err, calls)
  {
    var r := Visit(order, cb);
    assert r.1 == order[..|r.1|] && calls == order[..|calls|];
  }

  /** The `each` loop: calls `cb(i)` for i = 0 .. n-1 and returns the first non-OK result. */
  method Each(n: nat, cb: nat -> ColError) returns (err: ColError, calls: seq<nat>)
    ensures (err, calls) == Visit(Ascending(n), cb)
  {
    err := Ok;
    calls := [];
    var i := 0;
    while i < n
      invariant 0 <= i <= n
      invariant calls == Ascending(n)[..i]
      invariant err == Ok && forall k :: 0 <= k < i ==> cb(calls[k]) == Ok
    {
      calls := calls + [i];
      err := cb(i);
      assert calls == Ascending(n)[..i + 1];
      if err != Ok {
        VisitUnique(Ascending(n), cb, err, calls);
        return;
      }
      i := i + 1;
    }
    assert calls == Ascending(n);
    VisitUnique(Ascending(n), cb, err, calls);
  }

  /** The index `each_reverse` starts at: `len - 1` computed on a `size_t`, so 0 wraps to SIZE_MAX. */
  function ReverseStart(n: nat): (i: nat)
    requires IsSize(n)
    ensures IsSize(i)
    ensures n > 0 ==> i == n - 1
  {
    if n == 0 then SIZE_MAX else n - 1
  }

  /**
   * The `each_reverse` loop exactly as written: a `size_t` counter starting at
   * `len - 1` running down to 1, then one extra call for index 0.
   */
  method EachReverseAsWritten(n: nat, cb: nat -> ColError) returns (err: ColError, calls: seq<nat>)
    requires IsSize(n)
    ensures (err, calls) == Visit(Descending(ReverseStart(n) + 1), cb)
  {
    var start := ReverseStart(n);
    err, calls := DescendFrom(start, cb);
  }

  /** Calls `cb` for start, start-1, ..., 1 and then for 0; the shared body of both `each_reverse` variants. */
  method DescendFrom(start: nat, cb: nat -> ColError) returns (err: ColError, calls: seq<nat>)
    ensures (err, calls) == Visit(Descending(start + 1), cb)
  {
    ghost var order := Descending(start + 1);
    err := Ok;
    calls := [];
    var i := start;
    while i > 0
      invariant 0 <= i <= start
      invariant calls == order[..start - i]
      invariant err == Ok && forall k :: 0 <= k < |calls| ==> cb(calls[k]) == Ok
    {
      calls := calls + [i];
      err := cb(i);
      assert calls == order[..start - i + 1];
      if err != Ok {
        VisitUnique(order, cb, err, calls);
        return;
      }
      i := i - 1;
    }
    calls := calls + [0];
    err := cb(0);
    assert calls == order;
    VisitUnique(order, cb, err, calls);
  }

  /**
   * `each_reverse` with the empty case guarded: no call and `Ok` when n == 0,
   * otherwise n-1 down to 0.
   */
  method EachReverse(n: nat, cb: nat -> ColError) returns (err: ColError, calls: seq<nat>)
    ensures (err, calls) == Visit(Descending(n), cb)
  {
    if n == 0 {
      return Ok, [];
    }
    err, calls := DescendFrom(n - 1, cb);
  }

  /** The wrap: on an empty container the as-written loop first calls the callback with index SIZE_MAX. */
  lemma EachReverseWrapsOnEmpty(cb: nat -> ColError)
    ensures Visit(Descending(ReverseStart(0) + 1), cb).1[0] == SIZE_MAX
    ensures Visit(Descending(0), cb) == (Ok, [])
  {
    var order := Descending(ReverseStart(0) + 1);
    assert order[0] == SIZE_MAX;
  }

  /** The two `each_reverse` variants agree whenever the container is not empty. */
  lemma EachReverseAgreesWhenNonEmpty(n: nat, cb: nat -> ColError)
    requires 0 < n <= SIZE_MAX
    ensures Visit(Descending(ReverseStart(n) + 1), cb) == Visit(Descending(n), cb)
  {
  }

  /** Index j is the first one from k on where the predicate fails without a match. */
  ghost predicate FirstFailure(k: nat, j: nat, n: nat, pred: nat -> (ColError, bool))
  {
    k <= j < n && !pred(j).1 && pred(j).0 != Ok
    && forall i :: k <= i < j ==> !pred(i).1 && pred(i).0 == Ok
  }

  /**
   * What `search` computes from index k on: the first index whose predicate
   * call reports a match (with that call's error code), or the first non-OK
   * error without a match (index untouched: `None`), or `Ok` with index n.
   */
  function SearchFrom(k: nat, n: nat, pred: nat -> (ColError, bool)): (r: (ColError, Option<nat>))
    requires k <= n
    ensures r.1.Some? ==> k <= r.1.value <= n
    ensures r.1.Some? && r.1.value < n ==> pred(r.1.value).1 && r.0 == pred(r.1.value).0
    ensures r.1 == Some(n) ==> r.0 == Ok
    ensures r.1.Some? ==> forall j :: k <= j < r.1.value ==> !pred(j).1 && pred(j).0 == Ok
    ensures r.1.None? ==> r.0 != Ok && exists j :: FirstFailure(k, j, n, pred) && pred(j).0 == r.0
    decreases n - k
  {
    if k == n then (Ok, Some(n))
    else if pred(k).1 then (pred(k).0, Some(k))
    else if pred(k).0 != Ok then (pred(k).0, None)
    else SearchFrom(k + 1, n, pred)
  }

  /**
   * The `search` loop: `index` is written on a match or when no element
   * matches, and keeps `prior` when the predicate fails without a match.
   */
  method Search(n: nat, pred: nat -> (ColError, bool), prior: nat) returns (err: ColError, index: nat)
    ensures err == SearchFrom(0, n, pred).0
    ensures index == match SearchFrom(0, n, pred).1 case Some(i) => i case None => prior
  {
    index := prior;
    var i := 0;
    while i < n
      invariant 0 <= i <= n
      invariant SearchFrom(0, n, pred) == SearchFrom(i, n, pred)
      invariant index == prior
    {
      var e, found := pred(i).0, pred(i).1;
      if found {
        return e, i;
      }
      if e != Ok {
        return e, index;
      }
      i := i + 1;
    }
    index := n;
    err := Ok;
  }
}
