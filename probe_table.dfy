/** The single-level open-addressing table (`LinearProbeTable`) that both levels of the
    double-key table store their entries in, and the rolling hash it probes from. */
module ProbeTables {
  import opened Common
  import opened ProbeSpec
  import opened TableSpec

  /** `hash1` / `hash2`: the polynomial rolling hash of `key` for a table of `size` slots, whose
      multiplier `a` moves by HASH_BASE modulo `size - 1` after every character. */
  method Hash(key: string, size: nat) returns (h: nat)
    requires size >= 2
    ensures h == HashOf(key, size)
    ensures h < size && (key == [] ==> h == 0)
  {
    var value: nat := 0;
    var a: nat := HashSeed;
    for i := 0 to |key|
      invariant (value, a) == HashState(key[..i], size)
    {
      assert key[..i + 1][..i] == key[..i];
      value := (key[i] as int + a * value) % size;
      a := a * HashBase % (size - 1);
    }
    assert key[..|key|] == key;
    h := value;
  }

  /** A `LinearProbeTable` whose slots live in an array; each method is proved to act on the
      table's value as the function of the same name in TableSpec does. */
  class LinearProbeTable<V> {
    const sizes: seq<nat>
    var sizeIndex: nat
    var slots: array<Option<(string, V)>>
    var count: nat

    /** The table as a value. */
    ghost function Value(): Table<V>
      reads this, slots
    {
      Table(sizes, sizeIndex, slots[..], count)
    }

    ghost predicate Valid()
      reads this, slots
    {
      TableValid(Value())
    }

    /** The mapping the table holds. */
    ghost function Contents(): map<string, V>
      reads this, slots
      requires Valid()
    {
      TableMap(Value())
    }

    constructor (sizes: seq<nat>)
      requires ValidSizes(sizes)
      ensures Valid() && fresh(slots) && Value() == NewTable(sizes)
    {
      this.sizes := sizes;
      sizeIndex := 0;
      slots := new Option<(string, V)>[sizes[0]](_ => None);
      count := 0;
      new;
      assert slots[..] == EmptySlots(sizes[0]);
      EmptyWellFormed<V>(sizes[0]);
    }

    /** `table_size`. */
    function TableSize(): nat
      reads this
    {
      slots.Length
    }

    /** `__len__` is the count, which is the number of stored keys. */
    lemma LenIsSize()
      requires Valid()
      ensures count == |Contents()|
    {
      CountIsSize(Value());
    }

    /** `_linear_probe`: walk from the key's home slot, one slot at a time, round the table. */
    method LinearProbe(key: string, isInsert: bool) returns (r: Result<nat>)
      requires slots.Length >= 2
      ensures r == Probe(slots[..], key, isInsert)
    {
      var n := slots.Length;
      ghost var s := slots[..];
      var h := Hash(key, n);
      var position := h;
      var j := 0;
      while j < n
        invariant 0 <= j <= n
        invariant j < n ==> position == Wrap(h, j, n)
        invariant ProbeDist(s, key, h, 0) == ProbeDist(s, key, h, j)
      {
        if slots[position].None? {
          if isInsert {
            return Ok(position);
          } else {
            return Err(KeyError);
          }
        } else if slots[position].value.0 == key {
          return Ok(position);
        }
        position := if position + 1 == n then 0 else position + 1;
        j := j + 1;
      }
      if isInsert {
        return Err(FullError);
      } else {
        return Err(KeyError);
      }
    }

    /** `__getitem__`. */
    method Get(key: string) returns (r: Result<V>)
      requires Valid()
      ensures r == Lookup(Value(), key)
    {
      var p := LinearProbe(key, false);
      if p.Err? {
        return Err(p.error);
      }
      return Ok(slots[p.value].value.1);
    }

    /** The non-resizing part of `__setitem__`. */
    method Put(key: string, data: V) returns (r: Result<()>)
      requires Valid()
      modifies this`count, slots
      ensures r.Ok? == Written(old(Value()), key, data).Ok?
      ensures r.Ok? ==> Value() == Written(old(Value()), key, data).value
      ensures r.Err? ==> r.error == FullError && Value() == old(Value())
    {
      var p := LinearProbe(key, true);
      if p.Err? {
        ProbeInsert(slots[..], key);
        return Err(p.error);
      }
      if slots[p.value].None? {
        count := count + 1;
      }
      slots[p.value] := Some((key, data));
      return Ok(());
    }

    /** Lines 83-87 of double_key_table.py: the empty slot an insertion probe for `key` stopped at
        receives the entry, and the count grows by one. */
    method Fill(p: nat, key: string, data: V)
      requires Valid() && Probe(slots[..], key, true) == Ok(p) && slots[p].None?
      modifies this`count, slots
      ensures Value() == Written(old(Value()), key, data).value
    {
      count := count + 1;
      slots[p] := Some((key, data));
    }

    /** Give the entry stored in slot `p` a new value. */
    method Replace(p: nat, data: V)
      requires Valid() && p < slots.Length && slots[p].Some?
      modifies slots
      ensures Value() == Overwritten(old(Value()), p, data)
    {
      slots[p] := Some((slots[p].value.0, data));
    }

    /** Empty every slot. */
    method Clear()
      modifies this`count, slots
      ensures slots[..] == EmptySlots(slots.Length) && count == 0
    {
      for i := 0 to slots.Length
        invariant forall j :: 0 <= j < i ==> slots[j].None?
      {
        slots[i] := None;
      }
      count := 0;
      assert slots[..] == EmptySlots(slots.Length);
    }

    /** Re-insert one old slot (TableSpec.Place) while a slot is still free. */
    method PlaceOne(e: Option<(string, V)>, skip: Option<string>)
      requires Valid() && count < slots.Length
      modifies this`count, slots
      ensures Valid() && slots[..] == Place(old(slots[..]), e, skip)
    {
      PlaceSpec(slots[..], e, skip);
      if e.Some? && Some(e.value.0) != skip {
        ProbeInsert(slots[..], e.value.0);
        var r := Put(e.value.0, e.value.1);
      }
    }

    /** Insert every entry of `prior` except the one under `skip` into the empty table. */
    method Reinsert(prior: Slots<V>, skip: Option<string>)
      requires Shape() && slots[..] == EmptySlots(slots.Length) && count == 0
      requires UniqueKeys(prior) && |prior| <= slots.Length
      modifies this`count, slots
      ensures Valid() && slots[..] == Refill(slots.Length, prior, skip)
    {
      EmptyWellFormed<V>(slots.Length);
      assert prior[..0] == [];
      for i := 0 to |prior|
        invariant UniqueKeys(prior[..i]) && Valid()
        invariant slots[..] == Refill(slots.Length, prior[..i], skip)
      {
        RefillStep(slots.Length, prior, i, skip);
        PlaceOne(prior[i], skip);
      }
      assert prior[..|prior|] == prior;
    }

    /** Shape of the capacity bookkeeping, kept by every operation. */
    ghost predicate Shape()
      reads this
    {
      ValidSizes(sizes) && sizeIndex < |sizes| && slots.Length == sizes[sizeIndex]
    }

    /** `_rehash`. */
    method Rehash()
      requires Valid()
      modifies this
      ensures Value() == Rehashed(old(Value()))
      ensures old(sizeIndex) + 1 < |sizes| ==> fresh(slots)
      ensures old(sizeIndex) + 1 == |sizes| ==> slots == old(slots)
    {
      if sizeIndex + 1 == |sizes| {
        return;
      }
      var saved := slots[..];
      sizeIndex := sizeIndex + 1;
      slots := new Option<(string, V)>[sizes[sizeIndex]](_ => None);
      count := 0;
      assert slots[..] == EmptySlots(slots.Length);
      Reinsert(saved, None);
    }

    /** `__setitem__`: write the entry, then grow when more than half full. */
    method Set(key: string, data: V) returns (r: Result<()>)
      requires Valid()
      modifies this, slots
      ensures slots == old(slots) || fresh(slots)
      ensures r.Ok? == Assigned(old(Value()), key, data).Ok?
      ensures r.Ok? ==> Value() == Assigned(old(Value()), key, data).value
      ensures r.Err? ==> r.error == FullError && Value() == old(Value())
    {
      r := Put(key, data);
      if r.Err? {
        return;
      }
      if 2 * count > slots.Length {
        Rehash();
      }
      return Ok(());
    }

    /** `__delitem__`: KeyError unless the key is stored. */
    method Delete(key: string) returns (r: Result<()>)
      requires Valid()
      modifies this`count, slots
      ensures r.Ok? == Removed(old(Value()), key).Ok?
      ensures r.Ok? ==> Value() == Removed(old(Value()), key).value
      ensures r.Err? ==> r.error == KeyError && Value() == old(Value())
    {
      ProbeLookup(slots[..], key);
      var p := LinearProbe(key, false);
      if p.Err? {
        return Err(p.error);
      }
      var saved := slots[..];
      Clear();
      Reinsert(saved, Some(key));
      return Ok(());
    }

    /** `keys()`: the stored keys in slot order. */
    method Keys() returns (ks: seq<string>)
      requires Valid()
      ensures ks == KeysOf(slots[..])
    {
      ks := [];
      for i := 0 to slots.Length
        invariant ks == KeysOf(slots[..i])
      {
        assert slots[..i + 1][..i] == slots[..i];
        if slots[i].Some? {
          ks := ks + [slots[i].value.0];
        }
      }
      assert slots[..slots.Length] == slots[..];
    }

    /** `values()`: the stored values in slot order. */
    method Values() returns (vs: seq<V>)
      requires Valid()
      ensures vs == ValuesOf(slots[..])
    {
      vs := [];
      for i := 0 to slots.Length
        invariant vs == ValuesOf(slots[..i])
      {
        assert slots[..i + 1][..i] == slots[..i];
        if slots[i].Some? {
          vs := vs + [slots[i].value.1];
        }
      }
      assert slots[..slots.Length] == slots[..];
    }

    /** `is_empty()`. */
    method IsEmpty() returns (b: bool)
      requires Valid()
      ensures b <==> Contents() == map[]
    {
      LenIsSize();
      b := count == 0;
    }
  }
}
