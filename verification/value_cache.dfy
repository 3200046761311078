/** `ca.hss.math.ValueCache`: a fixed number of slots, each holding a key, a
    value and the call stamp of its last use. A stamp of -1 marks an empty
    slot. `put` refreshes a present key, fills the first empty slot, or
    overwrites the least recently used slot when all are taken; `get` stamps
    the slot it hits. The cache is a value here; every operation returns the
    new state. */
module ValueCache {
  import opened Results

  /** The largest `long`; the stamp counter stays below it (see README). */
  const MAX_CALL: int := 0x7fff_ffff_ffff_ffff

  /** The stamp of a slot that holds nothing. */
  const EMPTY: int := -1

  datatype Slot<K, V> = Slot(stamp: int, key: Option<K>, value: Option<V>)

  datatype Cache<K, V> = Cache(slots: seq<Slot<K, V>>, call: int)

  /** The outcome of `get`: the value found, if any, and the new state. */
  datatype Lookup<K, V> = Lookup(found: Option<V>, cache: Cache<K, V>)

  predicate Occupied<K, V>(s: Slot<K, V>) {
    s.stamp != EMPTY
  }

  /** Slot `i` is in use and holds `key`. */
  predicate Holds<K(==), V>(s: seq<Slot<K, V>>, i: int, key: K) {
    0 <= i < |s| && Occupied(s[i]) && s[i].key == Some(key)
  }

  ghost predicate Present<K, V>(c: Cache<K, V>, key: K) {
    exists i :: Holds(c.slots, i, key)
  }

  /** No empty slot is left. */
  predicate Full<K, V>(s: seq<Slot<K, V>>) {
    forall i :: 0 <= i < |s| ==> Occupied(s[i])
  }

  /** The class invariant: the used slots form a prefix, each holds a key and
      a value stamped by an earlier call, and no key is held twice. */
  ghost predicate Inv<K, V>(c: Cache<K, V>) {
    && 0 <= c.call
    && (forall i, j :: 0 <= i < j < |c.slots| && Occupied(c.slots[j]) ==> Occupied(c.slots[i]))
    && (forall i :: 0 <= i < |c.slots| && Occupied(c.slots[i]) ==>
          c.slots[i].key.Some? && c.slots[i].value.Some? && 1 <= c.slots[i].stamp <= c.call)
    && (forall i, j ::
          0 <= i < |c.slots| && 0 <= j < |c.slots| && i != j && Occupied(c.slots[i]) && Occupied(c.slots[j])
          ==> c.slots[i].key != c.slots[j].key)
  }

  /** Only stamps differ between `a` and `b`. */
  ghost predicate SameEntries<K, V>(a: seq<Slot<K, V>>, b: seq<Slot<K, V>>) {
    |a| == |b| && forall i :: 0 <= i < |a| ==> a[i].key == b[i].key && a[i].value == b[i].value
  }

  /** The constructor: `new Entry[numEntries]`, every slot empty. */
  function New<K, V>(numEntries: int): (r: Result<Cache<K, V>>)
    ensures r.Err? <==> numEntries < 0
    ensures r.Err? ==> r.fault == NegativeArraySize
    ensures r.Ok? ==> |r.value.slots| == numEntries && r.value.call == 0
    ensures r.Ok? ==> forall i :: 0 <= i < numEntries ==> !Occupied(r.value.slots[i])
  {
    if numEntries < 0 then Err(NegativeArraySize)
    else Ok(Cache(seq(numEntries, _ => Slot(EMPTY, None, None)), 0))
  }

  /** `clear` forgets the stamps only; keys and values stay in the slots but
      are unreachable. */
  function Clear<K, V>(c: Cache<K, V>): (r: Cache<K, V>)
    ensures SameEntries(r.slots, c.slots) && r.call == c.call
    ensures forall i :: 0 <= i < |r.slots| ==> !Occupied(r.slots[i])
  {
    Cache(seq(|c.slots|, i requires 0 <= i < |c.slots| => c.slots[i].(stamp := EMPTY)), c.call)
  }

  /** Where the scans of `put` and `get` stop: the first slot that is empty
      or holds `key`, or past the end. */
  function Stop<K(==), V>(s: seq<Slot<K, V>>, key: K): (r: nat)
    ensures r <= |s|
    ensures forall j :: 0 <= j < r ==> Occupied(s[j]) && s[j].key != Some(key)
    ensures r < |s| ==> !Occupied(s[r]) || s[r].key == Some(key)
  {
    if s == [] then 0
    else if !Occupied(s[0]) || s[0].key == Some(key) then 0
    else 1 + Stop(s[1..], key)
  }

  /** The first slot with the smallest stamp. */
  function Oldest<K, V>(s: seq<Slot<K, V>>): (r: nat)
    requires |s| > 0
    ensures r < |s|
    ensures forall j :: 0 <= j < |s| ==> s[r].stamp <= s[j].stamp
    ensures forall j :: 0 <= j < r ==> s[r].stamp < s[j].stamp
  {
    if |s| == 1 then 0
    else
      var k := 1 + Oldest(s[1..]);
      if s[k].stamp < s[0].stamp then k else 0
  }

  /** `t` is `s` with only slot `j` rewritten by a `put` of `key` stamped
      `call`: either `j` already held `key` and only its stamp changes, or it
      now holds `key` and `value`. */
  ghost predicate Rewritten<K, V>(s: seq<Slot<K, V>>, t: seq<Slot<K, V>>, j: int, key: K, value: V, call: int)
    requires 0 <= j < |s| == |t|
  {
    && ((s[j].key == Some(key) && t[j] == s[j].(stamp := call)) || t[j] == Slot(call, Some(key), Some(value)))
    && forall i :: 0 <= i < |s| && i != j ==> t[i] == s[i]
  }

  /** A hit on slot `i`: its value, and the cache with that slot stamped by
      the next call. */
  function Stamped<K, V>(c: Cache<K, V>, i: int): Lookup<K, V>
    requires 0 <= i < |c.slots|
  {
    Lookup(c.slots[i].value, Cache(c.slots[i := c.slots[i].(stamp := c.call + 1)], c.call + 1))
  }

  /** `put`: nothing at all happens without slots. Otherwise the call counter
      advances; a slot already holding `key` only gets the new stamp, and
      else the first empty slot, or the oldest one when none is empty, is
      overwritten with `key` and `value`. */
  function Put<K(==), V>(c: Cache<K, V>, key: K, value: V): (r: Cache<K, V>)
    requires c.call < MAX_CALL
    ensures |r.slots| == |c.slots|
    ensures |c.slots| == 0 ==> r == c
    ensures |c.slots| > 0 ==> r.call == c.call + 1
    ensures |c.slots| > 0 ==>
              exists j :: 0 <= j < |c.slots| && Rewritten(c.slots, r.slots, j, key, value, r.call)
  {
    if |c.slots| == 0 then c
    else
      var call := c.call + 1;
      var i := Stop(c.slots, key);
      if i < |c.slots| && Occupied(c.slots[i]) then
        var r := Cache(c.slots[i := c.slots[i].(stamp := call)], call);
        assert Rewritten(c.slots, r.slots, i, key, value, call);
        r
      else
        var j := if i < |c.slots| then i else Oldest(c.slots);
        var r := Cache(c.slots[j := Slot(call, Some(key), Some(value))], call);
        assert Rewritten(c.slots, r.slots, j, key, value, call);
        r
  }

  /** `get`: a hit stamps the slot with the next call; a miss changes nothing. */
  function Get<K(==), V>(c: Cache<K, V>, key: K): (r: Lookup<K, V>)
    requires c.call < MAX_CALL
    ensures SameEntries(r.cache.slots, c.slots)
    ensures (forall i :: !Holds(c.slots, i, key)) ==> r == Lookup(None, c)
    ensures r == Lookup(None, c) || exists i :: Holds(c.slots, i, key) && r == Stamped(c, i)
  {
    var i := Stop(c.slots, key);
    if i < |c.slots| && Occupied(c.slots[i]) then
      assert Holds(c.slots, i, key);
      var call := c.call + 1;
      Lookup(c.slots[i].value, Cache(c.slots[i := c.slots[i].(stamp := call)], call))
    else
      Lookup(None, c)
  }

  /** The single pass of `put` over the slots: it breaks at the first empty
      slot, returns on the slot holding `key`, and tracks the first slot with
      the smallest stamp among those it passes. Its outcome is the slot the
      functional `Put` writes. */
  method PutScan<K(==), V>(s: seq<Slot<K, V>>, key: K) returns (i: nat, oldest: nat)
    requires |s| > 0
    ensures i == Stop(s, key)
    ensures i == |s| ==> oldest == Oldest(s)
  {
    i, oldest := 0, 0;
    while i < |s|
      invariant 0 <= i <= |s| && oldest < |s|
      invariant forall j :: 0 <= j < i ==> Occupied(s[j]) && s[j].key != Some(key)
      invariant oldest <= i
      invariant forall j :: 0 <= j < i ==> s[oldest].stamp <= s[j].stamp
      invariant forall j :: 0 <= j < oldest ==> s[oldest].stamp < s[j].stamp
    {
      if !Occupied(s[i]) {
        break;
      }
      if s[i].stamp < s[oldest].stamp {
        oldest := i;
      }
      if s[i].key == Some(key) {
        StopAt(s, key, i);
        return;
      }
      i := i + 1;
    }
    StopAt(s, key, i);
    if i == |s| {
      OldestUnique(s, oldest);
    }
  }

  /** Stop is the only index with its two defining properties. */
  lemma StopAt<K, V>(s: seq<Slot<K, V>>, key: K, i: nat)
    requires i <= |s|
    requires forall j :: 0 <= j < i ==> Occupied(s[j]) && s[j].key != Some(key)
    requires i < |s| ==> !Occupied(s[i]) || s[i].key == Some(key)
    ensures Stop(s, key) == i
  {
  }

  /** Oldest is the only index with its defining properties. */
  lemma OldestUnique<K, V>(s: seq<Slot<K, V>>, o: nat)
    requires o < |s|
    requires forall j :: 0 <= j < |s| ==> s[o].stamp <= s[j].stamp
    requires forall j :: 0 <= j < o ==> s[o].stamp < s[j].stamp
    ensures Oldest(s) == o
  {
  }

  /** Under the invariant the scan stops exactly on the slot holding `key`
      when there is one. */
  lemma StopFinds<K, V>(c: Cache<K, V>, key: K)
    requires Inv(c)
    ensures Present(c, key) <==> Holds(c.slots, Stop(c.slots, key), key)
  {
    if Present(c, key) {
      var i :| Holds(c.slots, i, key);
      var r := Stop(c.slots, key);
    }
  }

  lemma NewInv<K, V>(numEntries: nat)
    ensures New<K, V>(numEntries).Ok?
    ensures Inv(New<K, V>(numEntries).value)
  {
  }

  /** After `clear` no slot is in use and every lookup misses. */
  lemma ClearForgets<K, V>(c: Cache<K, V>, key: K)
    requires Inv(c) && c.call < MAX_CALL
    ensures Inv(Clear(c))
    ensures !Present(Clear(c), key)
    ensures Get(Clear(c), key).found == None
  {
    var s := Clear(c).slots;
    if s != [] {
      assert !Occupied(s[0]);
    }
  }

  /** With no slots `put` does not even advance the call counter, and `get`
      always misses. */
  lemma ZeroCapacity<K, V>(c: Cache<K, V>, key: K, value: V)
    requires |c.slots| == 0 && c.call < MAX_CALL
    ensures Put(c, key, value) == c
    ensures Get(c, key) == Lookup(None, c)
  {
  }

  /** `get` hits exactly the keys present, returns the value stored with the
      key, and changes only the stamp of the slot it hits. */
  lemma GetFinds<K, V>(c: Cache<K, V>, key: K)
    requires Inv(c) && c.call < MAX_CALL
    ensures Get(c, key).found.Some? <==> Present(c, key)
    ensures forall i :: Holds(c.slots, i, key) ==> Get(c, key).found == c.slots[i].value
    ensures Inv(Get(c, key).cache)
    ensures Present(c, key) ==> Get(c, key).cache.call == c.call + 1
    ensures forall i :: Holds(c.slots, i, key) ==>
              Get(c, key).cache.slots == c.slots[i := c.slots[i].(stamp := c.call + 1)]
    ensures !Present(c, key) ==> Get(c, key).cache == c
  {
    StopFinds(c, key);
    var i := Stop(c.slots, key);
    assert forall j :: Holds(c.slots, j, key) ==> j == i;
    var r := Get(c, key).cache;
    if Present(c, key) {
      assert forall j :: 0 <= j < |r.slots| ==> Occupied(r.slots[j]) == Occupied(c.slots[j]);
    }
  }

  /** Putting a key that is present keeps its value: only its stamp moves. */
  lemma PutPresentRefreshes<K, V>(c: Cache<K, V>, key: K, value: V)
    requires Inv(c) && c.call < MAX_CALL && Present(c, key)
    ensures SameEntries(Put(c, key, value).slots, c.slots)
    ensures forall i :: Holds(c.slots, i, key) ==>
              Put(c, key, value).slots[i].stamp == c.call + 1
              && forall j :: 0 <= j < |c.slots| && j != i ==> Put(c, key, value).slots[j] == c.slots[j]
  {
    StopFinds(c, key);
    var s := Stop(c.slots, key);
    assert forall i :: Holds(c.slots, i, key) ==> i == s;
  }

  /** Putting an absent key writes it into the first empty slot, or, when
      every slot is taken, over the first slot with the smallest stamp;
      every other slot is left as it was. */
  lemma PutAbsentPlaces<K, V>(c: Cache<K, V>, key: K, value: V)
    requires Inv(c) && c.call < MAX_CALL && |c.slots| > 0 && !Present(c, key)
    ensures var r := Put(c, key, value);
      var j := if Full(c.slots) then Oldest(c.slots) else Stop(c.slots, key);
      && r.slots[j] == Slot(c.call + 1, Some(key), Some(value))
      && (!Full(c.slots) ==> !Occupied(c.slots[j]) && forall i :: 0 <= i < j ==> Occupied(c.slots[i]))
      && (forall i :: 0 <= i < |c.slots| && i != j ==> r.slots[i] == c.slots[i])
  {
    StopFinds(c, key);
    var s := Stop(c.slots, key);
    if Full(c.slots) {
      assert s == |c.slots|;
    } else {
      var e :| 0 <= e < |c.slots| && !Occupied(c.slots[e]);
      assert s <= e;
      assert !Holds(c.slots, s, key);
    }
  }

  /** `put` keeps the invariant. */
  lemma PutInv<K, V>(c: Cache<K, V>, key: K, value: V)
    requires Inv(c) && c.call < MAX_CALL
    ensures Inv(Put(c, key, value))
  {
    if |c.slots| > 0 {
      if Present(c, key) {
        PutPresentInv(c, key, value);
      } else {
        PutAbsentInv(c, key, value);
      }
    }
  }

  lemma PutPresentInv<K, V>(c: Cache<K, V>, key: K, value: V)
    requires Inv(c) && c.call < MAX_CALL && |c.slots| > 0 && Present(c, key)
    ensures Inv(Put(c, key, value))
  {
    PutPresentRefreshes(c, key, value);
    var r := Put(c, key, value);
    assert forall j :: 0 <= j < |r.slots| ==> Occupied(r.slots[j]) == Occupied(c.slots[j]);
  }

  lemma PutAbsentInv<K, V>(c: Cache<K, V>, key: K, value: V)
    requires Inv(c) && c.call < MAX_CALL && |c.slots| > 0 && !Present(c, key)
    ensures Inv(Put(c, key, value))
  {
    PutAbsentPlaces(c, key, value);
    var r := Put(c, key, value);
    var j := if Full(c.slots) then Oldest(c.slots) else Stop(c.slots, key);
    var s, t := c.slots, r.slots;
    assert r.call == c.call + 1;
    forall a, b | 0 <= a < b < |t| && Occupied(t[b])
      ensures Occupied(t[a])
    {
      if a != j && b != j {
        assert t[a] == s[a] && t[b] == s[b];
      } else if a != j {
        assert t[a] == s[a];
      }
    }
    forall i | 0 <= i < |t| && Occupied(t[i])
      ensures t[i].key.Some? && t[i].value.Some? && 1 <= t[i].stamp <= r.call
    {
      if i != j {
        assert t[i] == s[i];
      }
    }
    forall a, b | 0 <= a < |t| && 0 <= b < |t| && a != b && Occupied(t[a]) && Occupied(t[b])
      ensures t[a].key != t[b].key
    {
      if a == j {
        assert t[b] == s[b] && !Holds(s, b, key);
      } else if b == j {
        assert t[a] == s[a] && !Holds(s, a, key);
      } else {
        assert t[a] == s[a] && t[b] == s[b];
      }
    }
  }

  /** A value just put is what `get` returns for its key; a key that was
      already present keeps returning its old value. */
  lemma PutThenGet<K, V>(c: Cache<K, V>, key: K, value: V)
    requires Inv(c) && c.call + 1 < MAX_CALL && |c.slots| > 0
    ensures !Present(c, key) ==> Get(Put(c, key, value), key).found == Some(value)
    ensures forall i :: Holds(c.slots, i, key) ==> Get(Put(c, key, value), key).found == c.slots[i].value
  {
    var r := Put(c, key, value);
    PutInv(c, key, value);
    if Present(c, key) {
      PutPresentRefreshes(c, key, value);
      forall i | Holds(c.slots, i, key)
        ensures Get(r, key).found == c.slots[i].value
      {
        assert Holds(r.slots, i, key);
        GetFinds(r, key);
      }
    } else {
      PutAbsentPlaces(c, key, value);
      var j := if Full(c.slots) then Oldest(c.slots) else Stop(c.slots, key);
      assert Holds(r.slots, j, key);
      GetFinds(r, key);
    }
  }

  /** A put that evicts drops the key of the slot it overwrites. */
  lemma EvictionForgetsOldest<K, V>(c: Cache<K, V>, key: K, value: V, other: K)
    requires Inv(c) && c.call < MAX_CALL && |c.slots| > 0 && !Present(c, key)
    requires Full(c.slots) && c.slots[Oldest(c.slots)].key == Some(other)
    ensures !Present(Put(c, key, value), other)
  {
    PutAbsentPlaces(c, key, value);
    var o := Oldest(c.slots);
    var r := Put(c, key, value);
    assert Holds(c.slots, o, other);
    assert key != other;
  }
}
