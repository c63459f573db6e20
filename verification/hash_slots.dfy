/**
 * The slot array of the open-addressing hash table, as a sequence value:
 * cyclic probe positions, the probe that `get`, `set_entry` and `erase`
 * perform, the "reachable from its home slot" invariant of linear probing,
 * and the bookkeeping that ties the slots to the abstract key->value map.
 */
module HashSlots {

  /** `HASHTABLE_INVALID_KEY`: a slot whose hash is 0 is empty. */
  const INVALID_HASH: nat := 0

  /** `hash_table_entry`: the stored hash code, key and value. */
  datatype Slot<K, V> = Slot(hash: nat, key: K, value: V)

  predicate Occupied<K, V>(x: Slot<K, V>)
  {
    x.hash != INVALID_HASH
  }

  // --- cyclic positions in a table of c slots

  /** The slot d steps after slot h, wrapping at c. */
  function Pos(h: nat, d: nat, c: nat): (p: nat)
    requires h < c && d < c
    ensures p < c
  {
    if h + d < c then h + d else h + d - c
  }

  /** How many steps forward slot j lies from slot h. */
  function Dist(h: nat, j: nat, c: nat): (d: nat)
    requires h < c && j < c
    ensures d < c && Pos(h, d, c) == j
  {
    if h <= j then j - h else j + c - h
  }

  /**
   * `(index + 1) & (capacity - 1)`: the following slot. The mask is written as
   * the remainder modulo the capacity, which is what it computes for the
   * power-of-two capacities the table keeps.
   */
  function Next(i: nat, c: nat): (n: nat)
    requires i < c
    ensures n < c
    ensures n == (i + 1) % c
  {
    if i + 1 < c then i + 1 else 0
  }

  /**
   * `hash & (capacity - 1)`: the home slot, written as the remainder modulo the
   * (power-of-two) capacity.
   */
  function Home(hash: nat, c: nat): (h: nat)
    requires c > 0
    ensures h < c
  {
    hash % c
  }

  /** Distinct step counts give distinct slots, and Dist inverts Pos. */
  lemma PosInjective(h: nat, d1: nat, d2: nat, c: nat)
    requires h < c && d1 < c && d2 < c
    ensures Pos(h, d1, c) == Pos(h, d2, c) <==> d1 == d2
    ensures Dist(h, Pos(h, d1, c), c) == d1
  {
  }

  /** Walking d1 steps and then d2 steps is walking d1 + d2 steps. */
  lemma PosCompose(h: nat, d1: nat, d2: nat, c: nat)
    requires h < c && d1 + d2 < c
    ensures Pos(Pos(h, d1, c), d2, c) == Pos(h, d1 + d2, c)
  {
  }

  /** One more probe step is one more step from the home slot. */
  lemma NextIsPos(h: nat, d: nat, c: nat)
    requires h < c && d + 1 < c
    ensures Next(Pos(h, d, c), c) == Pos(h, d + 1, c)
  {
  }

  // --- the probe

  /**
   * The probe of `get`, `set_entry` and `erase` from home slot h, counted
   * in steps from step d on: the first step whose slot is empty or holds
   * the key. |s| when every remaining slot is occupied by another key.
   */
  function ProbeFrom<K(==), V>(s: seq<Slot<K, V>>, h: nat, key: K, d: nat): (r: nat)
    requires h < |s| && d <= |s|
    ensures d <= r <= |s|
    ensures forall e :: d <= e < r ==> Occupied(s[Pos(h, e, |s|)]) && s[Pos(h, e, |s|)].key != key
    ensures r < |s| ==> !Occupied(s[Pos(h, r, |s|)]) || s[Pos(h, r, |s|)].key == key
    decreases |s| - d
  {
    if d == |s| then |s|
    else
      var x := s[Pos(h, d, |s|)];
      if !Occupied(x) || x.key == key then d else ProbeFrom(s, h, key, d + 1)
  }

  function Probe<K(==), V>(s: seq<Slot<K, V>>, h: nat, key: K): nat
    requires h < |s|
  {
    ProbeFrom(s, h, key, 0)
  }

  /** The probe stops no later than the first empty slot on its way. */
  lemma ProbeStopsAtEmpty<K, V>(s: seq<Slot<K, V>>, h: nat, key: K, e: nat)
    requires h < |s| && e < |s| && !Occupied(s[Pos(h, e, |s|)])
    ensures Probe(s, h, key) <= e
  {
  }

  /** The first empty slot at or after step d from slot h (|s| if none). */
  function EmptyFrom<K, V>(s: seq<Slot<K, V>>, h: nat, d: nat): (r: nat)
    requires h < |s| && d <= |s|
    ensures d <= r <= |s|
    ensures forall e :: d <= e < r ==> Occupied(s[Pos(h, e, |s|)])
    ensures r < |s| ==> !Occupied(s[Pos(h, r, |s|)])
    decreases |s| - d
  {
    if d == |s| then |s|
    else if !Occupied(s[Pos(h, d, |s|)]) then d
    else EmptyFrom(s, h, d + 1)
  }

  // --- the linear-probing invariant

  /** Every slot between the home slot of slot j's entry and slot j is occupied. */
  ghost predicate Reachable<K, V>(s: seq<Slot<K, V>>, j: nat)
    requires j < |s|
  {
    forall d :: 0 <= d < Dist(Home(s[j].hash, |s|), j, |s|) ==> Occupied(s[Pos(Home(s[j].hash, |s|), d, |s|)])
  }

  /** As Reachable, except that the way may cross the slot i. */
  ghost predicate ReachableExcept<K, V>(s: seq<Slot<K, V>>, j: nat, i: nat)
    requires j < |s|
  {
    forall d :: 0 <= d < Dist(Home(s[j].hash, |s|), j, |s|) ==>
      Occupied(s[Pos(Home(s[j].hash, |s|), d, |s|)]) || Pos(Home(s[j].hash, |s|), d, |s|) == i
  }

  ghost predicate AllReachable<K, V>(s: seq<Slot<K, V>>)
  {
    forall j {:trigger Reachable(s, j)} :: 0 <= j < |s| && Occupied(s[j]) ==> Reachable(s, j)
  }

  // --- the abstraction: which key lives where

  /**
   * The occupied slots hold exactly the keys of m, each once, with its
   * value; w says which slot holds which key.
   */
  ghost predicate Tracks<K, V>(s: seq<Slot<K, V>>, m: map<K, V>, w: map<K, nat>)
  {
    && m.Keys == w.Keys
    && (forall k :: k in w ==> w[k] < |s| && Occupied(s[w[k]]) && s[w[k]].key == k && s[w[k]].value == m[k])
    && (forall j :: 0 <= j < |s| && Occupied(s[j]) ==> s[j].key in w && w[s[j].key] == j)
  }

  /** Filling an empty slot with a new key adds that key to the map. */
  lemma TracksInsert<K, V>(s: seq<Slot<K, V>>, m: map<K, V>, w: map<K, nat>, p: nat, x: Slot<K, V>)
    requires Tracks(s, m, w)
    requires p < |s| && !Occupied(s[p]) && Occupied(x) && x.key !in m
    ensures Tracks(s[p := x], m[x.key := x.value], w[x.key := p])
  {
    var s' := s[p := x];
    var w' := w[x.key := p];
    forall k | k in w'
      ensures w'[k] < |s'| && Occupied(s'[w'[k]]) && s'[w'[k]].key == k && s'[w'[k]].value == m[x.key := x.value][k]
    {
      if k != x.key {
        assert w[k] != p;
      }
    }
  }

  /** Overwriting the value of an occupied slot updates its key's value. */
  lemma TracksReplace<K, V>(s: seq<Slot<K, V>>, m: map<K, V>, w: map<K, nat>, p: nat, x: Slot<K, V>)
    requires Tracks(s, m, w)
    requires p < |s| && Occupied(s[p]) && Occupied(x) && x.key == s[p].key
    ensures Tracks(s[p := x], m[x.key := x.value], w)
  {
  }

  /** Emptying an occupied slot removes its key from the map. */
  lemma TracksRemove<K, V>(s: seq<Slot<K, V>>, m: map<K, V>, w: map<K, nat>, p: nat, e: Slot<K, V>)
    requires Tracks(s, m, w)
    requires p < |s| && Occupied(s[p]) && !Occupied(e)
    ensures Tracks(s[p := e], m - {s[p].key}, w - {s[p].key})
  {
  }

  // --- counting occupied slots

  function CountOccupied<K, V>(s: seq<Slot<K, V>>): (n: nat)
    ensures n <= |s|
  {
    if s == [] then 0
    else CountOccupied(s[..|s| - 1]) + (if Occupied(s[|s| - 1]) then 1 else 0)
  }

  /** Replacing one slot changes the count by what leaves and what enters. */
  lemma {:induction false} CountUpdate<K, V>(s: seq<Slot<K, V>>, j: nat, x: Slot<K, V>)
    requires j < |s|
    ensures CountOccupied(s[j := x]) + (if Occupied(s[j]) then 1 else 0)
         == CountOccupied(s) + (if Occupied(x) then 1 else 0)
    decreases |s|
  {
    var t := s[j := x];
    if j < |s| - 1 {
      assert t[..|t| - 1] == s[..|s| - 1][j := x];
      CountUpdate(s[..|s| - 1], j, x);
    } else {
      assert t[..|t| - 1] == s[..|s| - 1];
    }
  }

  /** Counting a prefix one slot longer. */
  lemma CountPrefix<K, V>(s: seq<Slot<K, V>>, i: nat)
    requires i < |s|
    ensures CountOccupied(s[..i + 1]) == CountOccupied(s[..i]) + (if Occupied(s[i]) then 1 else 0)
  {
    assert s[..i + 1][..i] == s[..i];
  }

  /** A prefix has no more occupied slots than the whole. */
  lemma {:induction false} CountPrefixBound<K, V>(s: seq<Slot<K, V>>, i: nat)
    requires i <= |s|
    ensures CountOccupied(s[..i]) <= CountOccupied(s)
    decreases |s| - i
  {
    if i < |s| {
      CountPrefix(s, i);
      CountPrefixBound(s, i + 1);
    } else {
      assert s[..i] == s;
    }
  }

  /** Fewer occupied slots than slots: some slot is empty. */
  lemma {:induction false} EmptySlotExists<K, V>(s: seq<Slot<K, V>>) returns (j: nat)
    requires CountOccupied(s) < |s|
    ensures j < |s| && !Occupied(s[j])
    decreases |s|
  {
    if Occupied(s[|s| - 1]) {
      j := EmptySlotExists(s[..|s| - 1]);
    } else {
      j := |s| - 1;
    }
  }

  /** A sequence of empty slots has none occupied. */
  lemma {:induction false} CountAllEmpty<K, V>(s: seq<Slot<K, V>>)
    requires forall j :: 0 <= j < |s| ==> !Occupied(s[j])
    ensures CountOccupied(s) == 0
    decreases |s|
  {
    if s != [] {
      CountAllEmpty(s[..|s| - 1]);
    }
  }

  // --- probing a consistent table

  /** Keys are stored with their own hash code. */
  ghost predicate HashesStored<K, V>(s: seq<Slot<K, V>>, hashOf: K -> nat)
  {
    forall j :: 0 <= j < |s| && Occupied(s[j]) ==> s[j].hash == hashOf(s[j].key)
  }

  /** The probe for a stored key stops at the slot that holds it. */
  lemma ProbeFindsPresentKey<K, V>(s: seq<Slot<K, V>>, m: map<K, V>, w: map<K, nat>, k: K)
    requires Tracks(s, m, w) && k in w
    requires Reachable(s, w[k])
    ensures Probe(s, Home(s[w[k]].hash, |s|), k) == Dist(Home(s[w[k]].hash, |s|), w[k], |s|)
  {
    var c := |s|;
    var h := Home(s[w[k]].hash, c);
    var D := Dist(h, w[k], c);
    forall d | 0 <= d < D
      ensures s[Pos(h, d, c)].key != k
    {
      PosInjective(h, d, D, c);
    }
  }

  /** The probe for an absent key stops at an empty slot. */
  lemma ProbeMissesAbsentKey<K, V>(s: seq<Slot<K, V>>, m: map<K, V>, w: map<K, nat>, h: nat, k: K)
    requires Tracks(s, m, w) && k !in m
    requires h < |s| && CountOccupied(s) < |s|
    ensures Probe(s, h, k) < |s| && !Occupied(s[Pos(h, Probe(s, h, k), |s|)])
  {
    var j := EmptySlotExists(s);
    ProbeStopsAtEmpty(s, h, k, Dist(h, j, |s|));
  }

  // --- filling an empty slot

  /** Filling an empty slot never breaks another slot's way home. */
  lemma FillKeepsReachable<K, V>(s: seq<Slot<K, V>>, p: nat, x: Slot<K, V>, j: nat)
    requires p < |s| && j < |s| && j != p && Occupied(x)
    requires Reachable(s, j)
    ensures Reachable(s[p := x], j)
  {
    var s' := s[p := x];
    var h := Home(s[j].hash, |s|);
    forall d | 0 <= d < Dist(h, j, |s|)
      ensures Occupied(s'[Pos(h, d, |s|)])
    {
      assert Occupied(s[Pos(h, d, |s|)]);
    }
  }

  /** An entry put where its probe stopped is reachable from its home slot. */
  lemma ProbedSlotIsReachable<K, V>(s: seq<Slot<K, V>>, x: Slot<K, V>)
    requires |s| > 0 && Occupied(x)
    requires Probe(s, Home(x.hash, |s|), x.key) < |s|
    ensures Reachable(s[Pos(Home(x.hash, |s|), Probe(s, Home(x.hash, |s|), x.key), |s|) := x],
                      Pos(Home(x.hash, |s|), Probe(s, Home(x.hash, |s|), x.key), |s|))
  {
    var c := |s|;
    var h := Home(x.hash, c);
    var r := Probe(s, h, x.key);
    var p := Pos(h, r, c);
    var s' := s[p := x];
    PosInjective(h, r, r, c);
    forall d | 0 <= d < Dist(h, p, c)
      ensures Occupied(s'[Pos(h, d, c)])
    {
      PosInjective(h, d, r, c);
    }
  }

  /** Filling the slot where an absent key's probe stopped keeps every slot reachable. */
  lemma InsertKeepsAllReachable<K, V>(s: seq<Slot<K, V>>, x: Slot<K, V>)
    requires |s| > 0 && Occupied(x) && AllReachable(s)
    requires Probe(s, Home(x.hash, |s|), x.key) < |s|
    ensures AllReachable(s[Pos(Home(x.hash, |s|), Probe(s, Home(x.hash, |s|), x.key), |s|) := x])
  {
    var p := Pos(Home(x.hash, |s|), Probe(s, Home(x.hash, |s|), x.key), |s|);
    var s' := s[p := x];
    forall j | 0 <= j < |s'| && Occupied(s'[j])
      ensures Reachable(s', j)
    {
      if j == p {
        ProbedSlotIsReachable(s, x);
      } else {
        FillKeepsReachable(s, p, x, j);
      }
    }
  }

  // --- deleting without tombstones: `fix_up`

  /** Emptying slot i of a consistent table leaves every other entry's way home intact except at i. */
  lemma HoleKeepsWays<K, V>(s: seq<Slot<K, V>>, i: nat, s0: seq<Slot<K, V>>)
    requires i < |s| && AllReachable(s)
    requires |s0| == |s| && s0 == s[i := s0[i]] && !Occupied(s0[i])
    ensures WaysAroundHole(s0, i)
  {
    forall j | 0 <= j < |s| && Occupied(s0[j])
      ensures ReachableExcept(s0, j, i)
    {
      assert Reachable(s, j);
    }
  }

  /** Every entry can be reached from its home slot if the way may cross the emptied slot i. */
  ghost predicate WaysAroundHole<K, V>(s: seq<Slot<K, V>>, i: nat)
  {
    forall j {:trigger ReachableExcept(s, j, i)} :: 0 <= j < |s| && Occupied(s[j]) ==> ReachableExcept(s, j, i)
  }

  /**
   * The state of `fix_up` before it moves the entry t steps after the
   * freed slot i: s0 is the table right after slot i was emptied, and the
   * run of occupied slots after i ends at the empty slot dE steps after i.
   * The entries of that run not yet moved are as in s0; every other
   * entry is reachable from its home slot.
   */
  ghost predicate FixUpState<K, V>(s: seq<Slot<K, V>>, s0: seq<Slot<K, V>>, i: nat, t: nat, dE: nat)
  {
    && |s| == |s0| && i < |s0| && 1 <= t <= dE < |s0|
    && dE == EmptyFrom(s0, i, 1)
    && WaysAroundHole(s0, i)
    && (forall e :: t <= e < dE ==> s[Pos(i, e, |s|)] == s0[Pos(i, e, |s|)])
    && !Occupied(s[Pos(i, dE, |s|)])
    && (forall j {:trigger Reachable(s, j)} :: 0 <= j < |s| && Occupied(s[j]) && !(t <= Dist(i, j, |s|) < dE) ==> Reachable(s, j))
  }

  /** The occupied run after a freed slot ends before the table wraps back to it. */
  lemma RunEndsBeforeWrap<K, V>(s0: seq<Slot<K, V>>, i: nat)
    requires i < |s0| && !Occupied(s0[i])
    requires CountOccupied(s0) + 1 < |s0|
    ensures EmptyFrom(s0, i, 1) < |s0|
  {
    var x := Slot(1, s0[i].key, s0[i].value);
    CountUpdate(s0, i, x);
    var j := EmptySlotExists(s0[i := x]);
    assert j != i && !Occupied(s0[j]);
    PosInjective(i, 0, Dist(i, j, |s0|), |s0|);
  }

  /**
   * Where a slot lies on some entry's way home, the rest of that way
   * follows it in the same run: the way cannot cross the empty end of
   * the run.
   */
  lemma WayStaysInRun<K, V>(s: seq<Slot<K, V>>, j: nat, i: nat, t: nat, dE: nat, d: nat)
    requires j < |s| && i < |s| && t < dE < |s|
    requires Occupied(s[j]) && !Occupied(s[Pos(i, dE, |s|)])
    requires d < Dist(Home(s[j].hash, |s|), j, |s|)
    requires Pos(Home(s[j].hash, |s|), d, |s|) == Pos(i, t, |s|)
    requires forall e :: d < e < Dist(Home(s[j].hash, |s|), j, |s|) ==> Occupied(s[Pos(Home(s[j].hash, |s|), e, |s|)])
    ensures t < Dist(i, j, |s|) < dE
  {
    var c := |s|;
    var hj := Home(s[j].hash, c);
    var D := Dist(hj, j, c);
    var next := Pos(i, t, c);
    PosCompose(i, t, dE - t, c);
    if dE - t < D - d {
      PosCompose(hj, d, dE - t, c);
      assert false;
    }
    PosCompose(hj, d, D - d, c);
    PosCompose(i, t, D - d, c);
    PosInjective(i, t + (D - d), t + (D - d), c);
  }

  /** Before any move, the entries outside the run after i are reachable. */
  lemma FixUpStart<K, V>(s0: seq<Slot<K, V>>, i: nat)
    requires i < |s0| && !Occupied(s0[i])
    requires CountOccupied(s0) + 1 < |s0|
    requires WaysAroundHole(s0, i)
    ensures FixUpState(s0, s0, i, 1, EmptyFrom(s0, i, 1))
  {
    var c := |s0|;
    RunEndsBeforeWrap(s0, i);
    var dE := EmptyFrom(s0, i, 1);
    PosInjective(i, 0, dE, c);
    forall j | 0 <= j < c && Occupied(s0[j]) && !(1 <= Dist(i, j, c) < dE)
      ensures Reachable(s0, j)
    {
      var hj := Home(s0[j].hash, c);
      var D := Dist(hj, j, c);
      assert ReachableExcept(s0, j, i);
      forall d | 0 <= d < D
        ensures Occupied(s0[Pos(hj, d, c)])
      {
        if Pos(hj, d, c) == i {
          // the rest of the way after i is occupied, so it would end inside the run
          forall e | d < e < D
            ensures Occupied(s0[Pos(hj, e, c)])
          {
            PosInjective(hj, d, e, c);
          }
          PosInjective(i, 0, Dist(i, j, c), c);
          WayStaysInRun(s0, j, i, 0, dE, d);
          assert false;
        }
      }
    }
  }

  /**
   * One round of `fix_up`: the entry t steps after the freed slot is
   * lifted out and put back by the ordinary insertion probe. It lands on
   * an empty slot, no entry leaves the map, and the state moves on to t + 1.
   */
  lemma FixUpStep<K, V>(s: seq<Slot<K, V>>, s0: seq<Slot<K, V>>, i: nat, t: nat, dE: nat,
                        m: map<K, V>, w: map<K, nat>, hashOf: K -> nat, e: Slot<K, V>) returns (p: nat)
    requires FixUpState(s, s0, i, t, dE) && t < dE
    requires Tracks(s, m, w) && HashesStored(s, hashOf) && !Occupied(e)
    ensures Occupied(s[Pos(i, t, |s|)])
    ensures Probe(s[Pos(i, t, |s|) := e], Home(s[Pos(i, t, |s|)].hash, |s|), s[Pos(i, t, |s|)].key) < |s|
    ensures var x := s[Pos(i, t, |s|)];
            var s1 := s[Pos(i, t, |s|) := e];
            var h := Home(x.hash, |s|);
            && p == Pos(h, Probe(s1, h, x.key), |s|)
            && !Occupied(s1[p])
            && FixUpState(s1[p := x], s0, i, t + 1, dE)
            && Tracks(s1[p := x], m, w[x.key := p])
            && HashesStored(s1[p := x], hashOf)
            && CountOccupied(s1[p := x]) == CountOccupied(s)
  {
    var next := Pos(i, t, |s|);
    assert s[next] == s0[next];
    p := MoveEntry(s, m, w, hashOf, next, e);
    FixUpMove(s, s0, i, t, dE, s[next := e], p);
  }

  /**
   * Lifting the entry of slot q out and inserting it again by probing:
   * the table keeps the same keys and values and the same number of
   * occupied slots.
   */
  lemma MoveEntry<K, V>(s: seq<Slot<K, V>>, m: map<K, V>, w: map<K, nat>, hashOf: K -> nat, q: nat, e: Slot<K, V>)
    returns (p: nat)
    requires Tracks(s, m, w) && HashesStored(s, hashOf)
    requires q < |s| && Occupied(s[q]) && !Occupied(e)
    ensures Probe(s[q := e], Home(s[q].hash, |s|), s[q].key) < |s|
    ensures p == Pos(Home(s[q].hash, |s|), Probe(s[q := e], Home(s[q].hash, |s|), s[q].key), |s|)
    ensures !Occupied(s[q := e][p])
    ensures Tracks(s[q := e][p := s[q]], m, w[s[q].key := p])
    ensures HashesStored(s[q := e][p := s[q]], hashOf)
    ensures CountOccupied(s[q := e][p := s[q]]) == CountOccupied(s)
  {
    var x := s[q];
    var s1 := s[q := e];
    var h := Home(x.hash, |s|);
    var k := x.key;
    TracksRemove(s, m, w, q, e);
    CountUpdate(s, q, e);
    ProbeMissesAbsentKey(s1, m - {k}, w - {k}, h, k);
    p := Pos(h, Probe(s1, h, k), |s|);
    TracksInsert(s1, m - {k}, w - {k}, p, x);
    assert (m - {k})[k := x.value] == m;
    assert (w - {k})[k := p] == w[k := p];
    CountUpdate(s1, p, x);
  }

  /** The run bookkeeping of one round of `fix_up`. */
  lemma FixUpMove<K, V>(s: seq<Slot<K, V>>, s0: seq<Slot<K, V>>, i: nat, t: nat, dE: nat, s1: seq<Slot<K, V>>, p: nat)
    requires FixUpState(s, s0, i, t, dE) && t < dE
    requires |s1| == |s| && s1 == s[Pos(i, t, |s|) := s1[Pos(i, t, |s|)]] && !Occupied(s1[Pos(i, t, |s|)])
    requires Probe(s1, Home(s[Pos(i, t, |s|)].hash, |s|), s[Pos(i, t, |s|)].key) < |s|
    requires p == Pos(Home(s[Pos(i, t, |s|)].hash, |s|), Probe(s1, Home(s[Pos(i, t, |s|)].hash, |s|), s[Pos(i, t, |s|)].key), |s|)
    requires !Occupied(s1[p])
    ensures FixUpState(s1[p := s[Pos(i, t, |s|)]], s0, i, t + 1, dE)
  {
    var c := |s|;
    var next := Pos(i, t, c);
    var x := s[next];
    var h := Home(x.hash, c);
    var k := x.key;
    var r := Probe(s1, h, k);
    var s2 := s1[p := x];
    assert s[next] == s0[next];

    // the slot x lands on is not the empty end of the run
    var D := Dist(h, next, c);
    ProbeStopsAtEmpty(s1, h, k, D);
    if r < D {
      assert ReachableExcept(s0, next, i);
      assert Occupied(s0[p]) || p == i;
    }
    PosInjective(i, 0, dE, c);
    PosInjective(i, t, dE, c);
    assert p != Pos(i, dE, c);

    // the rest of the run is untouched
    forall e' | t + 1 <= e' < dE
      ensures s2[Pos(i, e', c)] == s0[Pos(i, e', c)]
    {
      PosInjective(i, e', t, c);
      assert Occupied(s0[Pos(i, e', c)]);
    }
    FixUpMoveWays(s, s0, i, t, dE, s1, p);
  }

  /** Every entry outside the rest of the run can still be found after one round of `fix_up`. */
  lemma FixUpMoveWays<K, V>(s: seq<Slot<K, V>>, s0: seq<Slot<K, V>>, i: nat, t: nat, dE: nat, s1: seq<Slot<K, V>>, p: nat)
    requires FixUpState(s, s0, i, t, dE) && t < dE
    requires |s1| == |s| && s1 == s[Pos(i, t, |s|) := s1[Pos(i, t, |s|)]] && !Occupied(s1[Pos(i, t, |s|)])
    requires Occupied(s[Pos(i, t, |s|)])
    requires Probe(s1, Home(s[Pos(i, t, |s|)].hash, |s|), s[Pos(i, t, |s|)].key) < |s|
    requires p == Pos(Home(s[Pos(i, t, |s|)].hash, |s|), Probe(s1, Home(s[Pos(i, t, |s|)].hash, |s|), s[Pos(i, t, |s|)].key), |s|)
    requires !Occupied(s1[p])
    ensures forall j :: 0 <= j < |s| && Occupied(s1[p := s[Pos(i, t, |s|)]][j]) && !(t + 1 <= Dist(i, j, |s|) < dE) ==>
              Reachable(s1[p := s[Pos(i, t, |s|)]], j)
  {
    var c := |s|;
    var next := Pos(i, t, c);
    var x := s[next];
    var s2 := s1[p := x];
    forall j | 0 <= j < c && Occupied(s2[j]) && !(t + 1 <= Dist(i, j, c) < dE)
      ensures Reachable(s2, j)
    {
      if j == p {
        ProbedSlotIsReachable(s1, x);
      } else {
        assert s2[j] == s[j];
        assert Reachable(s, j);
        var hj := Home(s[j].hash, c);
        var Dj := Dist(hj, j, c);
        forall d | 0 <= d < Dj
          ensures Occupied(s1[Pos(hj, d, c)])
        {
          if Pos(hj, d, c) == next {
            WayStaysInRun(s, j, i, t, dE, d);
          }
        }
        assert Reachable(s1, j);
        FillKeepsReachable(s1, p, x, j);
      }
    }
  }

  /** When the run has been walked to its empty end, every entry can be found again. */
  lemma FixUpDone<K, V>(s: seq<Slot<K, V>>, s0: seq<Slot<K, V>>, i: nat, dE: nat)
    requires FixUpState(s, s0, i, dE, dE)
    ensures AllReachable(s)
  {
  }

  /** The probe of a table with an empty slot stops inside the table. */
  lemma ProbeEndsInTable<K, V>(s: seq<Slot<K, V>>, h: nat, key: K)
    requires h < |s| && CountOccupied(s) < |s|
    ensures Probe(s, h, key) < |s|
  {
    var j := EmptySlotExists(s);
    ProbeStopsAtEmpty(s, h, key, Dist(h, j, |s|));
  }

  /** Inserting an absent key at the end of its probe keeps the table consistent. */
  lemma InsertAbsent<K, V>(s: seq<Slot<K, V>>, m: map<K, V>, w: map<K, nat>, hashOf: K -> nat, x: Slot<K, V>)
    requires Tracks(s, m, w) && AllReachable(s) && HashesStored(s, hashOf)
    requires Occupied(x) && x.key !in m && x.hash == hashOf(x.key)
    requires |s| > 0 && CountOccupied(s) < |s|
    ensures Probe(s, Home(x.hash, |s|), x.key) < |s|
    ensures var h := Home(x.hash, |s|);
            var p := Pos(h, Probe(s, h, x.key), |s|);
            && !Occupied(s[p])
            && Tracks(s[p := x], m[x.key := x.value], w[x.key := p])
            && AllReachable(s[p := x])
            && HashesStored(s[p := x], hashOf)
            && CountOccupied(s[p := x]) == CountOccupied(s) + 1
  {
    var h := Home(x.hash, |s|);
    ProbeMissesAbsentKey(s, m, w, h, x.key);
    var p := Pos(h, Probe(s, h, x.key), |s|);
    TracksInsert(s, m, w, p, x);
    InsertKeepsAllReachable(s, x);
    CountUpdate(s, p, x);
  }

  /** Overwriting the value of a present key keeps the table consistent. */
  lemma ReplacePresent<K, V>(s: seq<Slot<K, V>>, m: map<K, V>, w: map<K, nat>, hashOf: K -> nat, k: K, v: V)
    requires Tracks(s, m, w) && AllReachable(s) && HashesStored(s, hashOf)
    requires k in m
    ensures var s' := s[w[k] := Slot(s[w[k]].hash, k, v)];
            && Tracks(s', m[k := v], w)
            && AllReachable(s')
            && HashesStored(s', hashOf)
            && CountOccupied(s') == CountOccupied(s)
  {
    var p := w[k];
    var x := Slot(s[p].hash, k, v);
    var s' := s[p := x];
    TracksReplace(s, m, w, p, x);
    CountUpdate(s, p, x);
    forall j | 0 <= j < |s'| && Occupied(s'[j])
      ensures Reachable(s', j)
    {
      assert Reachable(s, j);
    }
  }

  /**
   * In a consistent table the probe for k ends inside the table, on the
   * slot holding k when k is stored and on an empty slot when it is not.
   */
  lemma ProbeDecides<K, V>(s: seq<Slot<K, V>>, m: map<K, V>, w: map<K, nat>, hashOf: K -> nat, k: K)
    requires Tracks(s, m, w) && AllReachable(s) && HashesStored(s, hashOf)
    requires |s| > 0 && CountOccupied(s) < |s|
    ensures Probe(s, Home(hashOf(k), |s|), k) < |s|
    ensures var p := Pos(Home(hashOf(k), |s|), Probe(s, Home(hashOf(k), |s|), k), |s|);
            && (k in m <==> Occupied(s[p]))
            && (k in m ==> w[k] == p)
  {
    var h := Home(hashOf(k), |s|);
    ProbeEndsInTable(s, h, k);
    if k in m {
      assert Reachable(s, w[k]);
      ProbeFindsPresentKey(s, m, w, k);
    } else {
      ProbeMissesAbsentKey(s, m, w, h, k);
    }
  }

  // --- the order `each` visits entries in

  /** The occupied slots below n, in ascending order. */
  function OccupiedBelow<K, V>(s: seq<Slot<K, V>>, n: nat): (r: seq<nat>)
    requires n <= |s|
    ensures forall k :: 0 <= k < |r| ==> r[k] < n && Occupied(s[r[k]])
  {
    if n == 0 then []
    else OccupiedBelow(s, n - 1) + (if Occupied(s[n - 1]) then [n - 1] else [])
  }

  /** OccupiedBelow lists every occupied slot below n. */
  lemma {:induction false} OccupiedBelowExact<K, V>(s: seq<Slot<K, V>>, n: nat)
    requires n <= |s|
    ensures var r := OccupiedBelow(s, n); forall q :: 0 <= q < n && Occupied(s[q]) ==> q in r
  {
    if n > 0 {
      OccupiedBelowExact(s, n - 1);
    }
  }

  /** OccupiedBelow lists each slot once, in ascending order. */
  lemma {:induction false} OccupiedBelowAscending<K, V>(s: seq<Slot<K, V>>, n: nat)
    requires n <= |s|
    ensures forall a, b :: 0 <= a < b < |OccupiedBelow(s, n)| ==> OccupiedBelow(s, n)[a] < OccupiedBelow(s, n)[b]
  {
    if n > 0 {
      OccupiedBelowAscending(s, n - 1);
    }
  }

  /** Walking further only appends slots. */
  lemma {:induction false} OccupiedBelowPrefix<K, V>(s: seq<Slot<K, V>>, i: nat, n: nat)
    requires i <= n <= |s|
    ensures OccupiedBelow(s, i) <= OccupiedBelow(s, n)
    decreases n - i
  {
    if i < n {
      OccupiedBelowPrefix(s, i + 1, n);
    }
  }

  /**
   * The occupied slots of a consistent table hold each stored key exactly
   * once: the keys met along OccupiedBelow(s, |s|) are the keys of m.
   */
  lemma OccupiedSlotsHoldKeys<K, V>(s: seq<Slot<K, V>>, m: map<K, V>, w: map<K, nat>)
    requires Tracks(s, m, w)
    ensures var r := OccupiedBelow(s, |s|);
            && (forall k :: k in m ==> w[k] in r && s[w[k]].key == k)
            && (forall q :: q in r ==> q < |s| && s[q].key in m && s[q].value == m[s[q].key])
            && (forall a, b :: 0 <= a < b < |r| ==> s[r[a]].key != s[r[b]].key)
  {
    OccupiedBelowAscending(s, |s|);
    OccupiedBelowExact(s, |s|);
  }

  // --- copying a table slot by slot (`expand`)

  /** The keys copied so far are exactly those of the slots below i, with their values. */
  ghost predicate CopiedBelow<K, V>(s: seq<Slot<K, V>>, m: map<K, V>, w: map<K, nat>, done: map<K, V>, i: nat)
  {
    && (forall k :: k in done ==> k in m && done[k] == m[k] && k in w && w[k] < i)
    && (forall j :: 0 <= j < i && j < |s| && Occupied(s[j]) ==> s[j].key in done)
  }

  /** Copying slot i: its key is not copied yet, and afterwards every slot up to i is. */
  lemma CopyStep<K, V>(s: seq<Slot<K, V>>, m: map<K, V>, w: map<K, nat>, done: map<K, V>, i: nat)
    requires Tracks(s, m, w) && CopiedBelow(s, m, w, done, i) && i < |s|
    ensures Occupied(s[i]) ==> s[i].key !in done && CopiedBelow(s, m, w, done[s[i].key := s[i].value], i + 1)
    ensures !Occupied(s[i]) ==> CopiedBelow(s, m, w, done, i + 1)
  {
  }

  /** Once every slot is copied, the copy is the whole map. */
  lemma CopyComplete<K, V>(s: seq<Slot<K, V>>, m: map<K, V>, w: map<K, nat>, done: map<K, V>)
    requires Tracks(s, m, w) && CopiedBelow(s, m, w, done, |s|)
    ensures done == m
  {
    forall k | k in m
      ensures k in done
    {
      assert s[w[k]].key == k;
    }
  }
}
