/** A `LinearProbeTable` as a value: its configured sizes, the index of the size in use, its
    slots and its count, and each of its operations as a function on that value. The class in
    probe_table.dfy is proved to implement these functions; the internal tables of the double-key
    table are kept as such values. */
module TableSpec {
  import opened Common
  import opened ProbeSpec

  /** Configured capacities: each at least 2, because the hash reduces its multiplier modulo
      `size - 1`, and strictly growing, so that a rehash always has room. */
  predicate ValidSizes(sizes: seq<nat>)
  {
    && |sizes| > 0
    && (forall i :: 0 <= i < |sizes| ==> sizes[i] >= 2)
    && (forall i, j :: 0 <= i < j < |sizes| ==> sizes[i] < sizes[j])
  }

  datatype Table<V> = Table(sizes: seq<nat>, sizeIndex: nat, slots: Slots<V>, count: nat)

  /** The capacity bookkeeping and the probing invariants; the count is the number of entries. */
  ghost predicate TableValid<V>(t: Table<V>)
  {
    && ValidSizes(t.sizes) && t.sizeIndex < |t.sizes| && |t.slots| == t.sizes[t.sizeIndex]
    && WellFormed(t.slots) && t.count == Occupied(t.slots)
  }

  /** The mapping a table holds. */
  ghost function TableMap<V>(t: Table<V>): map<string, V>
    requires TableValid(t)
  {
    MapOf(t.slots)
  }

  function Skipped(skip: Option<string>): set<string>
  {
    if skip.Some? then {skip.value} else {}
  }

  lemma MapMinusUpdate<V>(m: map<string, V>, ks: set<string>, k: string, v: V)
    ensures k !in ks ==> m[k := v] - ks == (m - ks)[k := v]
    ensures k in ks ==> m[k := v] - ks == m - ks
  {
  }

  lemma MinusOneSize<V>(m: map<string, V>, k: string)
    requires k in m
    ensures |m - {k}| == |m| - 1
  {
    assert m.Keys - {k} == (m - {k}).Keys;
  }

  /** `LinearProbeTable(sizes)`: an empty table at the first size. */
  function NewTable<V>(sizes: seq<nat>): (t: Table<V>)
    requires ValidSizes(sizes)
    ensures TableValid(t) && TableMap(t) == map[] && t.count == 0
    ensures t.sizes == sizes && t.sizeIndex == 0
  {
    EmptyWellFormed<V>(sizes[0]);
    Table(sizes, 0, EmptySlots(sizes[0]), 0)
  }

  /** Re-inserting one old slot: an entry goes where an insertion probe for its key stops,
      unless its key is `skip`; an empty slot changes nothing. */
  function Place<V>(s: Slots<V>, e: Option<(string, V)>, skip: Option<string>): Slots<V>
    requires |s| >= 2
  {
    if e.None? || Some(e.value.0) == skip then s
    else
      match Probe(s, e.value.0, true)
      case Ok(p) => s[p := e]
      case Err(_) => s
  }

  /** While there is a free slot, placing an entry adds it to the mapping. */
  lemma PlaceSpec<V>(s: Slots<V>, e: Option<(string, V)>, skip: Option<string>)
    requires WellFormed(s) && Occupied(s) < |s|
    ensures var r := Place(s, e, skip);
      && |r| == |s| && WellFormed(r) && Occupied(r) <= Occupied(s) + 1
      && (e.None? || Some(e.value.0) == skip ==> r == s)
      && (e.Some? && Some(e.value.0) != skip ==> MapOf(r) == MapOf(s)[e.value.0 := e.value.1])
  {
    if e.Some? && Some(e.value.0) != skip {
      ProbeInsert(s, e.value.0);
      InsertPreserves(s, e.value.0, e.value.1);
    }
  }

  /** The slots of an `n`-slot table after the entries of `prior`, except the one under `skip`,
      are inserted one by one in slot order into an empty table. */
  function Refill<V>(n: nat, prior: Slots<V>, skip: Option<string>): (r: Slots<V>)
    requires n >= 2 && UniqueKeys(prior) && |prior| <= n
    ensures |r| == n && WellFormed(r) && Occupied(r) <= |prior|
    ensures MapOf(r) == MapOf(prior) - Skipped(skip)
    decreases |prior|
  {
    if prior == [] then
      EmptyWellFormed<V>(n);
      EmptySlots(n)
    else
      var i := |prior| - 1;
      MapOfSnoc(prior, i);
      var s := Refill(n, prior[..i], skip);
      PlaceSpec(s, prior[i], skip);
      assert prior[..i + 1] == prior;
      if prior[i].Some? then
        MapMinusUpdate(MapOf(prior[..i]), Skipped(skip), prior[i].value.0, prior[i].value.1);
        Place(s, prior[i], skip)
      else
        Place(s, prior[i], skip)
  }

  /** One more entry of `prior` placed into the table built from the ones before it. */
  lemma RefillStep<V>(n: nat, prior: Slots<V>, i: nat, skip: Option<string>)
    requires n >= 2 && UniqueKeys(prior) && |prior| <= n && i < |prior|
    ensures UniqueKeys(prior[..i]) && UniqueKeys(prior[..i + 1])
    ensures Occupied(Refill(n, prior[..i], skip)) < n
    ensures Refill(n, prior[..i + 1], skip) == Place(Refill(n, prior[..i], skip), prior[i], skip)
  {
    PrefixUnique(prior, i);
    PrefixUnique(prior, i + 1);
    assert prior[..i + 1][..i] == prior[..i];
  }

  /** `_rehash`: rebuild at the next configured size, or keep the table as it is when the sizes
      are used up. */
  function Rehashed<V>(t: Table<V>): (r: Table<V>)
    requires TableValid(t)
    ensures TableValid(r) && TableMap(r) == TableMap(t) && r.sizes == t.sizes
    ensures t.sizeIndex + 1 < |t.sizes| ==> r.sizeIndex == t.sizeIndex + 1
    ensures t.sizeIndex + 1 == |t.sizes| ==> r == t
  {
    if t.sizeIndex + 1 == |t.sizes| then t
    else
      var n := t.sizes[t.sizeIndex + 1];
      assert |t.slots| < n && n >= 2 by {
        assert t.sizes[t.sizeIndex] < t.sizes[t.sizeIndex + 1];
      }
      var s := Refill(n, t.slots, None);
      assert MapOf(s) == MapOf(t.slots) by {
        assert Skipped(None) == {};
      }
      Table(t.sizes, t.sizeIndex + 1, s, Occupied(s))
  }

  /** The load check after a write: rehash when more than half the slots are used. */
  function Grown<V>(t: Table<V>): (r: Table<V>)
    requires TableValid(t)
    ensures TableValid(r) && TableMap(r) == TableMap(t) && r.sizes == t.sizes
  {
    if 2 * t.count > |t.slots| then Rehashed(t) else t
  }

  /** The entry count of a well-formed table is the size of its mapping. */
  lemma CountIsSize<V>(t: Table<V>)
    requires TableValid(t)
    ensures t.count == |TableMap(t)|
  {
    OccupiedIsSize(t.slots);
  }

  /** `__getitem__`: KeyError unless the key is stored. */
  function Lookup<V>(t: Table<V>, key: string): (r: Result<V>)
    requires TableValid(t)
    ensures r.Ok? <==> key in TableMap(t)
    ensures r.Ok? ==> r.value == TableMap(t)[key]
    ensures r.Err? ==> r.error == KeyError
  {
    ProbeLookup(t.slots, key);
    match Probe(t.slots, key, false)
    case Ok(p) =>
      SlotInMap(t.slots, p);
      Ok(t.slots[p].value.1)
    case Err(e) => Err(e)
  }

  /** The non-resizing part of `__setitem__`: write the entry at its insertion probe's slot,
      counting a newly used slot. */
  function Written<V>(t: Table<V>, key: string, data: V): (r: Result<Table<V>>)
    requires TableValid(t)
    ensures r.Ok? ==> && TableValid(r.value) && TableMap(r.value) == TableMap(t)[key := data]
                      && r.value.sizes == t.sizes && r.value.sizeIndex == t.sizeIndex
    ensures r.Err? ==> r.error == FullError && key !in TableMap(t) && t.count == |t.slots|
  {
    ProbeInsert(t.slots, key);
    match Probe(t.slots, key, true)
    case Ok(p) => Ok(WrittenAt(t, p, key, data))
    case Err(e) => Err(e)
  }

  /** The write itself, at the slot `p` the insertion probe for `key` stopped at. */
  function WrittenAt<V>(t: Table<V>, p: nat, key: string, data: V): (r: Table<V>)
    requires TableValid(t) && Probe(t.slots, key, true) == Ok(p)
    ensures TableValid(r) && TableMap(r) == TableMap(t)[key := data]
    ensures r.sizes == t.sizes && r.sizeIndex == t.sizeIndex
  {
    ProbeInsert(t.slots, key);
    InsertPreserves(t.slots, key, data);
    Table(t.sizes, t.sizeIndex, t.slots[p := Some((key, data))],
          t.count + (if t.slots[p].None? then 1 else 0))
  }

  /** The entry in slot `p` keeps its key and takes the value `data`. */
  function Overwritten<V>(t: Table<V>, p: nat, data: V): (r: Table<V>)
    requires TableValid(t) && p < |t.slots| && t.slots[p].Some?
    ensures TableValid(r) && TableMap(r) == TableMap(t)[t.slots[p].value.0 := data]
    ensures r.sizes == t.sizes && r.sizeIndex == t.sizeIndex && r.count == t.count
    ensures |r.slots| == |t.slots| && r.slots[p] == Some((t.slots[p].value.0, data))
  {
    OverwritePreserves(t.slots, p, t.slots[p].value.0, data);
    Table(t.sizes, t.sizeIndex, t.slots[p := Some((t.slots[p].value.0, data))], t.count)
  }

  /** `__setitem__`: write the entry, then rehash when more than half the slots are used. */
  function Assigned<V>(t: Table<V>, key: string, data: V): (r: Result<Table<V>>)
    requires TableValid(t)
    ensures r.Ok? ==> TableValid(r.value) && TableMap(r.value) == TableMap(t)[key := data]
                      && r.value.sizes == t.sizes
    ensures r.Err? ==> r.error == FullError && key !in TableMap(t) && t.count == |t.slots|
  {
    match Written(t, key, data)
    case Ok(w) => Ok(Grown(w))
    case Err(e) => Err(e)
  }

  /** `__delitem__`: KeyError unless the key is stored; otherwise the other entries are put back
      into a cleared table of the same size, so that every probe still finds them. */
  function Removed<V>(t: Table<V>, key: string): (r: Result<Table<V>>)
    requires TableValid(t)
    ensures r.Ok? <==> key in TableMap(t)
    ensures r.Ok? ==> && TableValid(r.value) && TableMap(r.value) == TableMap(t) - {key}
                      && r.value.sizes == t.sizes && r.value.sizeIndex == t.sizeIndex
                      && r.value.count == t.count - 1
    ensures r.Err? ==> r.error == KeyError
  {
    ProbeLookup(t.slots, key);
    match Probe(t.slots, key, false)
    case Ok(_) =>
      var s := Refill(|t.slots|, t.slots, Some(key));
      OccupiedIsSize(t.slots);
      OccupiedIsSize(s);
      assert Skipped(Some(key)) == {key};
      MinusOneSize(MapOf(t.slots), key);
      Ok(Table(t.sizes, t.sizeIndex, s, Occupied(s)))
    case Err(e) => Err(e)
  }
}
