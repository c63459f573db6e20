/**
 * The typed hash table of `makeHashTableImpl`: open addressing with linear
 * probing over a power-of-two array of entries, hash code 0 marking an
 * empty slot, growth by doubling when half full, and deletion that
 * re-inserts the rest of the run instead of leaving tombstones.
 *
 * The key hash function is the `hashOf` given at creation and key
 * comparison is equality. The ghost map `contents` is what the table
 * stores; `where` says which slot holds each key.
 */
module HashTable {
  import opened ColErrors
  import opened HashSlots
  import opened AlignMath
  import opened Traverse

  /** `HASHTABLE_INITIAL_CAPACITY`. */
  const INITIAL_CAPACITY: nat := 16

  /** One past the largest `uint64_t`. */
  const TWO_TO_64: nat := 0x1_0000_0000_0000_0000

  /**
   * `set_entry`: probes from the home slot of `hash` for `key`. A slot
   * holding the key gets the new value and the old value is returned; an
   * empty slot gets the new entry, `inserted` is set and `nullValue` is
   * returned. The table must have an empty slot, or the probe would not stop.
   */
  method SetEntry<K(==), V>(es: array<Slot<K, V>>, hash: nat, key: K, value: V, nullValue: V)
    returns (prev: V, inserted: bool)
    requires es.Length > 0 && hash != INVALID_HASH && CountOccupied(es[..]) < es.Length
    modifies es
    ensures Probe(old(es[..]), Home(hash, es.Length), key) < es.Length
    ensures var p := Pos(Home(hash, es.Length), Probe(old(es[..]), Home(hash, es.Length), key), es.Length);
            && inserted == !Occupied(old(es[p]))
            && prev == (if inserted then nullValue else old(es[p]).value)
            && es[..] == old(es[..])[p := Slot(if inserted then hash else old(es[p]).hash, key, value)]
  {
    ghost var s := es[..];
    var c := es.Length;
    var h := Home(hash, c);
    ProbeEndsInTable(s, h, key);
    var index := h;
    ghost var d := 0;
    while es[index].hash != INVALID_HASH
      invariant d <= Probe(s, h, key) && index == Pos(h, d, c)
      invariant es[..] == s
      decreases Probe(s, h, key) - d
    {
      if es[index].key == key {
        prev := es[index].value;
        es[index] := Slot(es[index].hash, key, value);
        inserted := false;
        return;
      }
      NextIsPos(h, d, c);
      index := Next(index, c);
      d := d + 1;
    }
    es[index] := Slot(hash, key, value);
    prev := nullValue;
    inserted := true;
  }

  /**
   * The allocation and rehash loop of `expand`: every entry of `es` is
   * inserted with `set_entry` into a zeroed array of newCap slots. The new
   * array holds the same map, consistently, in as many slots.
   */
  method Rehash<K(==), V>(es: array<Slot<K, V>>, newCap: nat, nullKey: K, nullValue: V, hashOf: K -> nat,
                          ghost m: map<K, V>, ghost w: map<K, nat>) returns (ne: array<Slot<K, V>>, ghost w': map<K, nat>)
    requires CountOccupied(es[..]) < newCap
    requires Tracks(es[..], m, w) && HashesStored(es[..], hashOf)
    ensures fresh(ne) && ne.Length == newCap
    ensures Tracks(ne[..], m, w') && AllReachable(ne[..]) && HashesStored(ne[..], hashOf)
    ensures CountOccupied(ne[..]) == CountOccupied(es[..])
  {
    ne := new Slot<K, V>[newCap](_ => Slot(INVALID_HASH, nullKey, nullValue));
    CountAllEmpty(ne[..]);
    ghost var s := es[..];
    ghost var done: map<K, V> := map[];
    w' := map[];
    for i := 0 to es.Length
      invariant Tracks(ne[..], done, w') && AllReachable(ne[..]) && HashesStored(ne[..], hashOf)
      invariant CountOccupied(ne[..]) == CountOccupied(s[..i])
      invariant CopiedBelow(s, m, w, done, i)
    {
      var entry := es[i];
      assert s[i] == entry;
      CountPrefix(s, i);
      CopyStep(s, m, w, done, i);
      if entry.hash != INVALID_HASH {
        CountPrefixBound(s, i);
        InsertAbsent(ne[..], done, w', hashOf, entry);
        ghost var p := Pos(Home(entry.hash, ne.Length), Probe(ne[..], Home(entry.hash, ne.Length), entry.key), ne.Length);
        var _, _ := SetEntry(ne, entry.hash, entry.key, entry.value, nullValue);
        done := done[entry.key := entry.value];
        w' := w'[entry.key := p];
      }
    }
    assert s[..|s|] == s;
    CopyComplete(s, m, w, done);
  }

  /**
   * `fix_up`: after slot i was emptied, every entry of the run that
   * follows it is lifted out and inserted again with `set_entry`, until an
   * empty slot is reached. The array holds the same map in as many slots,
   * and every entry can be found by probing again.
   */
  method FixUp<K(==), V>(es: array<Slot<K, V>>, i: nat, nullKey: K, nullValue: V, hashOf: K -> nat,
                         ghost m: map<K, V>, ghost w: map<K, nat>) returns (ghost w': map<K, nat>)
    requires i < es.Length && !Occupied(es[i]) && CountOccupied(es[..]) + 1 < es.Length
    requires WaysAroundHole(es[..], i)
    requires Tracks(es[..], m, w) && HashesStored(es[..], hashOf)
    modifies es
    ensures AllReachable(es[..])
    ensures Tracks(es[..], m, w') && HashesStored(es[..], hashOf)
    ensures CountOccupied(es[..]) == old(CountOccupied(es[..]))
  {
    var c := es.Length;
    ghost var s0 := es[..];
    FixUpStart(s0, i);
    ghost var dE := EmptyFrom(s0, i, 1);
    NextIsPos(i, 0, c);
    var next := Next(i, c);
    ghost var t := 1;
    w' := w;
    while es[next].hash != INVALID_HASH
      invariant FixUpState(es[..], s0, i, t, dE) && next == Pos(i, t, c)
      invariant Tracks(es[..], m, w') && HashesStored(es[..], hashOf)
      invariant CountOccupied(es[..]) == CountOccupied(s0)
      decreases dE - t
    {
      var x := es[next];
      var empty := Slot(INVALID_HASH, nullKey, nullValue);
      ghost var p := FixUpStep(es[..], s0, i, t, dE, m, w', hashOf, empty);
      CountUpdate(es[..], next, empty);
      es[next] := empty;
      var _, _ := SetEntry(es, x.hash, x.key, x.value, nullValue);
      w' := w'[x.key := p];
      NextIsPos(i, t, c);
      next := Next(next, c);
      t := t + 1;
    }
    FixUpDone(es[..], s0, i, dE);
  }

  /** The probe loop of `ht_erase`: from slot h, the first slot that is empty or holds key. */
  method FindSlot<K(==), V>(es: array<Slot<K, V>>, h: nat, key: K) returns (index: nat)
    requires h < es.Length && Probe(es[..], h, key) < es.Length
    ensures index == Pos(h, Probe(es[..], h, key), es.Length)
  {
    ghost var s := es[..];
    var c := es.Length;
    index := h;
    ghost var d := 0;
    while es[index].hash != INVALID_HASH && es[index].key != key
      invariant d <= Probe(s, h, key) && index == Pos(h, d, c)
      decreases Probe(s, h, key) - d
    {
      NextIsPos(h, d, c);
      index := Next(index, c);
      d := d + 1;
    }
  }

  /** Whether `put` of a non-null value gives up: it must expand and expanding fails. */
  predicate PutFails(length: nat, capacity: nat, allocFails: bool)
  {
    length >= capacity / 2 && (2 * capacity >= TWO_TO_64 || allocFails)
  }

  /** The callback of `each` seen as a function of the slot index. */
  function SlotCallback<K, V>(s: seq<Slot<K, V>>, cb: (K, V) -> ColError): nat -> ColError
  {
    (q: nat) => if q < |s| then cb(s[q].key, s[q].value) else Ok
  }

  /** The loop of `ht_each` over the slot array. */
  method EachSlot<K, V>(es: array<Slot<K, V>>, cb: (K, V) -> ColError) returns (err: ColError, calls: seq<nat>)
    ensures (err, calls) == Visit(OccupiedBelow(es[..], es.Length), SlotCallback(es[..], cb))
  {
    ghost var s := es[..];
    ghost var order := OccupiedBelow(s, es.Length);
    ghost var f := SlotCallback(s, cb);
    err := Ok;
    calls := [];
    for i := 0 to es.Length
      invariant calls == OccupiedBelow(s, i)
      invariant err == Ok && forall k :: 0 <= k < |calls| ==> f(calls[k]) == Ok
    {
      var entry := es[i];
      assert entry == s[i];
      if entry.hash != INVALID_HASH {
        calls := calls + [i];
        err := cb(entry.key, entry.value);
        assert f(i) == err;
        if err != Ok {
          OccupiedBelowPrefix(s, i + 1, es.Length);
          VisitUnique(order, f, err, calls);
          return;
        }
      }
    }
    VisitUnique(order, f, Ok, calls);
  }

  /**
   * `ht_new`: NULL when the allocation of the table struct (`structFails`) or
   * of its 16 zeroed slots (`entriesFails`) fails, otherwise an empty table of
   * capacity 16.
   */
  method NewTable<K(==), V(==)>(hashOf: K -> nat, nullKey: K, nullValue: V, structFails: bool, entriesFails: bool)
    returns (t: Option<Table<K, V>>)
    ensures t.None? <==> structFails || entriesFails
    ensures t.Some? ==> fresh(t.value) && t.value.Valid()
    ensures t.Some? ==> t.value.contents == map[] && t.value.capacity == INITIAL_CAPACITY && t.value.length == 0
    ensures t.Some? ==> t.value.hashOf == hashOf && t.value.nullKey == nullKey && t.value.nullValue == nullValue
  {
    if structFails || entriesFails {
      t := None;
    } else {
      var created := new Table(hashOf, nullKey, nullValue);
      t := Some(created);
    }
  }

  class Table<K(==), V(==)> {
    var entries: array<Slot<K, V>>
    var capacity: nat
    var length: nat
    ghost var contents: map<K, V>
    ghost var where: map<K, nat>
    const hashOf: K -> nat
    const nullKey: K
    const nullValue: V

    /**
     * The capacity is a power of two the entry array matches, at most half
     * of it is occupied, `length` counts the entries, every entry can be
     * reached by probing from its home slot, and no stored value is the
     * null value (storing it erases the key).
     */
    ghost predicate Valid()
      reads this, entries
    {
      && entries.Length == capacity
      && 2 <= capacity < TWO_TO_64 && IsPow2(capacity)
      && length == CountOccupied(entries[..]) && length == |contents|
      && 2 * length <= capacity
      && Tracks(entries[..], contents, where)
      && AllReachable(entries[..])
      && HashesStored(entries[..], hashOf)
      && (forall k :: k in contents ==> contents[k] != nullValue)
    }

    /** What `get` answers for key: its value, or the null value. */
    ghost function Lookup(key: K): V
      reads this
    {
      if key in contents then contents[key] else nullValue
    }

    /** `ht_new`: an empty table of capacity 16 with all slots zeroed. */
    constructor(hashOf: K -> nat, nullKey: K, nullValue: V)
      ensures Valid() && fresh(entries)
      ensures contents == map[] && capacity == INITIAL_CAPACITY && length == 0
      ensures this.hashOf == hashOf && this.nullKey == nullKey && this.nullValue == nullValue
    {
      this.hashOf := hashOf;
      this.nullKey := nullKey;
      this.nullValue := nullValue;
      capacity := INITIAL_CAPACITY;
      length := 0;
      entries := new Slot<K, V>[INITIAL_CAPACITY](_ => Slot(INVALID_HASH, nullKey, nullValue));
      contents := map[];
      where := map[];
      new;
      CountAllEmpty(entries[..]);
    }

    /** `ht_get`: the value stored for key, or the null value when the key is absent. */
    method Get(key: K) returns (v: V)
      requires Valid() && hashOf(key) != INVALID_HASH
      ensures v == Lookup(key)
      ensures key in contents <==> v != nullValue
    {
      ghost var s := entries[..];
      var h := Home(hashOf(key), capacity);
      ProbeDecides(s, contents, where, hashOf, key);
      var index := h;
      ghost var d := 0;
      while entries[index].hash != INVALID_HASH
        invariant d <= Probe(s, h, key) && index == Pos(h, d, capacity)
        decreases Probe(s, h, key) - d
      {
        if entries[index].key == key {
          return entries[index].value;
        }
        NextIsPos(h, d, capacity);
        index := Next(index, capacity);
        d := d + 1;
      }
      return nullValue;
    }

    /**
     * `ht_erase`: removes key and returns its value, or returns the null
     * value when the key is absent. The array and capacity stay.
     */
    method Erase(key: K) returns (prev: V)
      requires Valid() && hashOf(key) != INVALID_HASH
      modifies this, entries
      ensures Valid() && entries == old(entries) && capacity == old(capacity)
      ensures prev == old(Lookup(key))
      ensures contents == old(contents) - {key}
    {
      ghost var s := entries[..];
      var h := Home(hashOf(key), capacity);
      ProbeDecides(s, contents, where, hashOf, key);
      var index := FindSlot(entries, h, key);
      if entries[index].hash == INVALID_HASH {
        assert contents - {key} == contents;
        return nullValue;
      }
      prev := RemoveAt(index);
    }

    /**
     * The found branch of `ht_erase`: slot index is emptied, the length
     * drops by one and `fix_up` repairs the run after the slot.
     */
    method RemoveAt(index: nat) returns (prev: V)
      requires Valid() && index < capacity && Occupied(entries[index])
      modifies this, entries
      ensures Valid() && entries == old(entries) && capacity == old(capacity)
      ensures prev == old(entries[index].value)
      ensures contents == old(contents) - {old(entries[index].key)}
    {
      ghost var s := entries[..];
      ghost var key := entries[index].key;
      prev := entries[index].value;
      var empty := Slot(INVALID_HASH, nullKey, nullValue);
      TracksRemove(s, contents, where, index, empty);
      CountUpdate(s, index, empty);
      entries[index] := empty;
      HoleKeepsWays(s, index, entries[..]);
      length := length - 1;
      contents := contents - {key};
      where := FixUp(entries, index, nullKey, nullValue, hashOf, contents, where - {key});
    }

    /**
     * `expand`: doubles the capacity and re-inserts every entry into a fresh
     * zeroed array. Fails with `Overflow` when the doubled capacity wraps
     * around in 64 bits, and with `BadAlloc` when the allocator fails; the
     * table is then left as it was.
     */
    method Expand(allocFails: bool) returns (err: ColError)
      requires Valid()
      modifies this
      ensures Valid() && contents == old(contents) && length == old(length)
      ensures err == (if 2 * old(capacity) >= TWO_TO_64 then Overflow else if allocFails then BadAlloc else Ok)
      ensures err == Ok ==> capacity == 2 * old(capacity) && fresh(entries)
      ensures err != Ok ==> capacity == old(capacity) && entries == old(entries)
    {
      // `cur_capacity * 2` on a uint64_t: capacity < 2^64, so it wraps at most once
      var newCap := if 2 * capacity < TWO_TO_64 then 2 * capacity else 2 * capacity - TWO_TO_64;
      if newCap < capacity {
        return Overflow;
      }
      assert newCap == 2 * capacity;
      if allocFails {
        return BadAlloc;
      }
      var ne;
      ne, where := Rehash(entries, newCap, nullKey, nullValue, hashOf, contents, where);
      DoublePow2(capacity);
      entries := ne;
      capacity := newCap;
      return Ok;
    }

    /**
     * `ht_put`: storing the null value erases the key. Otherwise the table
     * is expanded first when it is half full; if that fails nothing changes
     * and the null value is returned, else the key is stored and its
     * previous value (or the null value) is returned.
     */
    method Put(key: K, value: V, allocFails: bool) returns (prev: V)
      requires Valid() && hashOf(key) != INVALID_HASH
      modifies this, entries
      ensures Valid()
      ensures value == nullValue ==> prev == old(Lookup(key)) && contents == old(contents) - {key}
      ensures value != nullValue && PutFails(old(length), old(capacity), allocFails) ==>
                prev == nullValue && contents == old(contents)
      ensures value != nullValue && !PutFails(old(length), old(capacity), allocFails) ==>
                prev == old(Lookup(key)) && contents == old(contents)[key := value]
      ensures capacity == old(capacity) || (capacity == 2 * old(capacity) && old(length) >= old(capacity) / 2)
    {
      if value == nullValue {
        prev := Erase(key);
        return;
      }
      if length >= capacity / 2 {
        var err := Expand(allocFails);
        if err != Ok {
          return nullValue;
        }
      }
      prev := Store(key, value);
    }

    /**
     * The `set_entry` call of `ht_put` with the length pointer: the key is
     * stored with the value and the length grows when the key is new.
     */
    method Store(key: K, value: V) returns (prev: V)
      requires Valid() && hashOf(key) != INVALID_HASH && value != nullValue
      requires 2 * (length + 1) <= capacity
      modifies this, entries
      ensures Valid() && entries == old(entries) && capacity == old(capacity)
      ensures prev == old(Lookup(key))
      ensures contents == old(contents)[key := value]
    {
      var hash := hashOf(key);
      ghost var s := entries[..];
      ProbeDecides(s, contents, where, hashOf, key);
      ghost var p := Pos(Home(hash, capacity), Probe(s, Home(hash, capacity), key), capacity);
      var inserted;
      prev, inserted := SetEntry(entries, hash, key, value, nullValue);
      if inserted {
        length := length + 1;
        InsertAbsent(s, contents, where, hashOf, Slot(hash, key, value));
        where := where[key := p];
      } else {
        ReplacePresent(s, contents, where, hashOf, key, value);
      }
      contents := contents[key := value];
    }

    /**
     * `ht_each`: calls cb on the entries in slot order and stops at the
     * first result other than `Ok`. `calls` lists the slots visited.
     */
    method Each(cb: (K, V) -> ColError) returns (err: ColError, calls: seq<nat>)
      requires entries.Length == capacity
      ensures (err, calls) == Visit(OccupiedBelow(entries[..], capacity), SlotCallback(entries[..], cb))
    {
      err, calls := EachSlot(entries, cb);
    }

    /** `ht_len`: the number of stored keys. */
    method Len() returns (n: nat)
      requires Valid()
      ensures n == |contents|
    {
      return length;
    }
  }
}
