/** `DoubleKeyTable`: values indexed by a pair of string keys. A top-level linear-probe table
    maps each first key to an internal table, which maps second keys to values. Each operation
    is a function on the top table's value (a `Table` whose values are `Table`s); the class
    `DoubleKeyTable` holds the top table as a `LinearProbeTable` object and is proved to act on
    it as those functions say. */
module DoubleKeyTables {
  import opened Common
  import opened ProbeSpec
  import opened TableSpec
  import opened ProbeTables

  /** `TABLE_SIZES`, used for both levels unless the caller gives other sizes. */
  const TableSizes: seq<nat> :=
    [5, 13, 29, 53, 97, 193, 389, 769, 1543, 3079, 6151, 12289, 24593, 49157, 98317, 196613,
     393241, 786433, 1572869]

  lemma TableSizesValid()
    ensures ValidSizes(TableSizes)
  {
  }

  type Top<V> = Table<Table<V>>

  /** An internal table as the double-key table keeps it: well formed, created with the
      internal sizes, and never left empty. */
  ghost predicate Inner<V>(t: Table<V>, internalSizes: seq<nat>)
  {
    TableValid(t) && t.sizes == internalSizes && TableMap(t) != map[]
  }

  ghost predicate AllInner<V>(c: map<string, Table<V>>, internalSizes: seq<nat>)
  {
    forall k :: k in c ==> Inner(c[k], internalSizes)
  }

  ghost predicate DValid<V>(d: Top<V>, internalSizes: seq<nat>)
  {
    TableValid(d) && ValidSizes(internalSizes) && AllInner(TableMap(d), internalSizes)
  }

  ghost predicate AllValid<V>(c: map<string, Table<V>>)
  {
    forall k :: k in c ==> TableValid(c[k])
  }

  /** The pairs held by a mapping from first keys to internal tables. */
  ghost function PairsOf<V>(c: map<string, Table<V>>): map<string, map<string, V>>
    requires AllValid(c)
  {
    map k | k in c :: TableMap(c[k])
  }

  lemma PairsOfUpdate<V>(c: map<string, Table<V>>, k: string, w: Table<V>)
    requires AllValid(c) && TableValid(w)
    ensures AllValid(c[k := w]) && PairsOf(c[k := w]) == PairsOf(c)[k := TableMap(w)]
  {
  }

  lemma PairsOfRemove<V>(c: map<string, Table<V>>, k: string)
    requires AllValid(c)
    ensures AllValid(c - {k}) && PairsOf(c - {k}) == PairsOf(c) - {k}
  {
  }

  /** The pairs held: DPairs(d)[k1][k2] is the value stored under (k1, k2). */
  ghost function DPairs<V>(d: Top<V>): map<string, map<string, V>>
    requires TableValid(d) && AllValid(TableMap(d))
  {
    PairsOf(TableMap(d))
  }

  /** The internal table in a top-level slot is the one the mapping gives its key. */
  lemma TableAt<V>(d: Top<V>, internalSizes: seq<nat>, p1: nat)
    requires DValid(d, internalSizes) && p1 < |d.slots| && d.slots[p1].Some?
    ensures var (k1, t) := d.slots[p1].value;
      k1 in TableMap(d) && TableMap(d)[k1] == t && Inner(t, internalSizes)
      && DPairs(d)[k1] == TableMap(t)
  {
    SlotInMap(d.slots, p1);
  }

  /** `_linear_probe(k1, k2, False)`: the top-level slot of `k1` and the slot of `k2` in `k1`'s
      internal table; KeyError when either key is missing. */
  function DLocate<V>(d: Top<V>, internalSizes: seq<nat>, k1: string, k2: string): (r: Result<(nat, nat)>)
    requires DValid(d, internalSizes)
    ensures r.Ok? <==> k1 in DPairs(d) && k2 in DPairs(d)[k1]
    ensures r.Err? ==> r.error == KeyError
    ensures r.Ok? ==> var (p1, p2) := r.value;
      && p1 < |d.slots| && d.slots[p1].Some? && d.slots[p1].value.0 == k1
      && p2 < |d.slots[p1].value.1.slots|
      && d.slots[p1].value.1.slots[p2] == Some((k2, DPairs(d)[k1][k2]))
  {
    ProbeLookup(d.slots, k1);
    match Probe(d.slots, k1, false)
    case Err(e) => Err(e)
    case Ok(p1) =>
      TableAt(d, internalSizes, p1);
      var t := d.slots[p1].value.1;
      ProbeLookup(t.slots, k2);
      match Probe(t.slots, k2, false)
      case Err(e) => Err(e)
      case Ok(p2) =>
        SlotInMap(t.slots, p2);
        Ok((p1, p2))
  }

  /** `__getitem__`: KeyError unless both keys are present. */
  function DGet<V>(d: Top<V>, internalSizes: seq<nat>, k1: string, k2: string): (r: Result<V>)
    requires DValid(d, internalSizes)
    ensures r.Ok? <==> k1 in DPairs(d) && k2 in DPairs(d)[k1]
    ensures r.Ok? ==> r.value == DPairs(d)[k1][k2]
    ensures r.Err? ==> r.error == KeyError
  {
    match DLocate(d, internalSizes, k1, k2)
    case Err(e) => Err(e)
    case Ok((p1, p2)) => Ok(d.slots[p1].value.1.slots[p2].value.1)
  }

  /** Lines 81-87 of `_linear_probe(k1, k2, True)`: the top-level slot of `k1`, which receives
      a fresh internal table, counted at the top level, when `k1` is new. FullError when `k1`
      is new and the top level has no free slot. */
  function WithInternal<V>(d: Top<V>, internalSizes: seq<nat>, k1: string): (r: Result<(Top<V>, nat)>)
    requires DValid(d, internalSizes)
    ensures r.Err? ==> r.error == FullError && k1 !in TableMap(d) && d.count == |d.slots|
    ensures r.Ok? ==> var (d1, p1) := r.value;
      && TableValid(d1) && d1.sizes == d.sizes
      && p1 < |d1.slots| && d1.slots[p1].Some? && d1.slots[p1].value.0 == k1
      && TableMap(d1) == (if k1 in TableMap(d) then TableMap(d)
                          else TableMap(d)[k1 := NewTable(internalSizes)])
      && d1.slots[p1].value.1 == (if k1 in TableMap(d) then TableMap(d)[k1]
                                  else NewTable(internalSizes))
      && (k1 in TableMap(d) ==> d1 == d)
  {
    ProbeInsert(d.slots, k1);
    match Probe(d.slots, k1, true)
    case Err(e) => Err(e)
    case Ok(p1) =>
      if d.slots[p1].None? then Ok((Written(d, k1, NewTable(internalSizes)).value, p1))
      else
        SlotInMap(d.slots, p1);
        Ok((d, p1))
  }

  /** The pairs after storing `data` under (k1, k2). */
  ghost function PairsWith<V>(d: Top<V>, internalSizes: seq<nat>, k1: string, k2: string, data: V): map<string, map<string, V>>
    requires DValid(d, internalSizes)
  {
    var p := DPairs(d);
    p[k1 := (if k1 in p then p[k1] else map[])[k2 := data]]
  }

  /** Lines 223-229 of `__setitem__` in the corrected order: the pair is written into the
      internal table in top-level slot `p1`, which is then rehashed when more than half full.
      FullError when that table has no room for a new key. */
  function WriteInternal<V>(d1: Top<V>, p1: nat, k2: string, data: V): (r: Result<Top<V>>)
    requires TableValid(d1) && p1 < |d1.slots| && d1.slots[p1].Some?
    requires TableValid(d1.slots[p1].value.1)
    ensures r.Err? ==> var t := d1.slots[p1].value.1;
      r.error == FullError && k2 !in TableMap(t) && t.count == |t.slots|
    ensures r.Ok? ==> var (k1, t) := d1.slots[p1].value;
      && TableValid(r.value) && r.value.sizes == d1.sizes && p1 < |r.value.slots|
      && r.value.slots[p1].Some? && r.value.slots[p1].value.0 == k1
      && TableValid(r.value.slots[p1].value.1)
      && TableMap(r.value) == TableMap(d1)[k1 := r.value.slots[p1].value.1]
      && TableMap(r.value.slots[p1].value.1) == TableMap(t)[k2 := data]
      && r.value.slots[p1].value.1.sizes == t.sizes
  {
    match Assigned(d1.slots[p1].value.1, k2, data)
    case Err(e) => Err(e)
    case Ok(w) => Ok(Overwritten(d1, p1, w))
  }

  /** Lines 223-229 of `__setitem__` applied to the internal table `t` AS WRITTEN: the count is
      raised when the insertion slot `p` is empty, the table is rebuilt at its next size when
      now more than half full, and only then is the pair written, at the slot `p` found before
      the rebuild. */
  function AssignedAsWritten<V>(t: Table<V>, key: string, data: V): (r: Result<Table<V>>)
    requires TableValid(t)
    ensures r.Err? ==> r.error == FullError
    ensures r.Ok? ==> |r.value.slots| >= 2
  {
    match Probe(t.slots, key, true)
    case Err(e) => Err(e)
    case Ok(p) =>
      var c := t.count + (if t.slots[p].None? then 1 else 0);
      if 2 * c > |t.slots| && t.sizeIndex + 1 < |t.sizes| then
        var g := Rehashed(t);
        var s := if p < |g.slots| then g.slots[p := Some((key, data))] else g.slots;
        Ok(Table(g.sizes, g.sizeIndex, s, g.count))
      else
        Ok(Table(t.sizes, t.sizeIndex, t.slots[p := Some((key, data))], c))
  }

  /** With internal sizes [2, 5], storing "" and then "a" (home slot 1 of 2) rebuilds the
      table at 5 slots before "a" is written to slot 1, where a lookup, which starts at
      slot 2, never looks: `d[k, "a"]` then raises KeyError. */
  lemma StaleSlotLosesKey(sizes: seq<nat>)
    requires sizes == [2, 5]
    ensures var t := Assigned(NewTable<int>(sizes), "", 0);
      && t.Ok? && AssignedAsWritten(t.value, "a", 1).Ok?
      && var w := AssignedAsWritten(t.value, "a", 1).value;
      && w.slots[1] == Some(("a", 1))
      && Probe(w.slots, "a", false) == Err(KeyError)
  {
    var t1 := FirstStored(sizes);
    var s := StaleWrite(t1);
    StaleLookup(s);
  }

  /** Storing "a" into that table: its insertion probe stops at slot 1 of 2, and slot 1 of the
      rebuilt table receives it. */
  lemma StaleWrite(t1: Table<int>) returns (s: Slots<int>)
    requires t1 == Table([2, 5], 0, [Some(("", 0)), None], 1)
    ensures TableValid(t1) && AssignedAsWritten(t1, "a", 1).Ok?
    ensures AssignedAsWritten(t1, "a", 1).value.slots == s
    ensures s == [Some(("", 0)), Some(("a", 1)), None, None, None]
  {
    var g := RebuiltAtFive(t1);
    assert HashState("a", 2) == ((97 + 31415 * 0) % 2, 31415 * 31 % 1);
    assert HashOf("a", 2) == 1;
    assert Probe(t1.slots, "a", true) == Ok(1);
    s := g[1 := Some(("a", 1))];
  }

  /** The table after storing "" into an empty table with sizes [2, 5]. */
  lemma FirstStored(sizes: seq<nat>) returns (t1: Table<int>)
    requires sizes == [2, 5]
    ensures Assigned(NewTable<int>(sizes), "", 0) == Ok(t1)
    ensures t1 == Table([2, 5], 0, [Some(("", 0)), None], 1)
  {
    var t0 := NewTable<int>(sizes);
    t1 := Table([2, 5], 0, [Some(("", 0)), None], 1);
    assert t0 == Table([2, 5], 0, [None, None], 0);
    assert HashOf("", 2) == 0;
    assert Probe(t0.slots, "", true) == Ok(0);
    assert WrittenAt(t0, 0, "", 0) == t1;
    assert Written(t0, "", 0) == Ok(t1);
  }

  /** Rebuilding that table at 5 slots puts "" in slot 0. */
  lemma RebuiltAtFive(t1: Table<int>) returns (g: Slots<int>)
    requires t1 == Table([2, 5], 0, [Some(("", 0)), None], 1)
    ensures TableValid(t1) && Rehashed(t1).slots == g
    ensures g == [Some(("", 0)), None, None, None, None]
  {
    g := [Some(("", 0)), None, None, None, None];
    var empty: Slots<int> := [None, None, None, None, None];
    assert Refill(5, t1.slots[..0], None) == empty;
    assert HashOf("", 5) == 0;
    assert Probe(empty, "", true) == Ok(0);
    assert Refill(5, t1.slots[..1], None) == g;
    assert t1.slots[..2] == t1.slots;
  }

  /** A lookup of "a" in 5 slots starts at slot 2, which is empty. */
  lemma StaleLookup(s: Slots<int>)
    requires s == [Some(("", 0)), Some(("a", 1)), None, None, None]
    ensures Probe(s, "a", false) == Err(KeyError)
  {
    assert HashState("a", 5) == ((97 + 31415 * 0) % 5, 31415 * 31 % 4);
    assert HashOf("a", 5) == 2;
  }

  /** Updating what one first key maps to updates the pairs in the same way. */
  lemma DPairsUpdate<V>(d: Top<V>, d1: Top<V>, internalSizes: seq<nat>, k1: string, w: Table<V>)
    requires DValid(d, internalSizes) && TableValid(d1) && Inner(w, internalSizes)
    requires TableMap(d1) == TableMap(d)[k1 := w]
    ensures DValid(d1, internalSizes) && DPairs(d1) == DPairs(d)[k1 := TableMap(w)]
  {
    var c, c1 := TableMap(d), TableMap(d1);
    forall k | k in c1
      ensures Inner(c1[k], internalSizes)
    {
      if k != k1 {
        assert c1[k] == c[k];
      }
    }
    PairsOfUpdate(c, k1, w);
  }

  /** The pairs after the two steps of `__setitem__`: the table of `k1`, old or fresh, gains
      (k2, data) and is stored back under `k1`. */
  lemma SetPairs<V>(d: Top<V>, internalSizes: seq<nat>, k1: string, k2: string, data: V,
                    d1: Top<V>, p1: nat, d2: Top<V>)
    requires DValid(d, internalSizes) && TableValid(d1) && TableValid(d2)
    requires p1 < |d1.slots| && d1.slots[p1].Some? && d1.slots[p1].value.0 == k1
    requires TableMap(d1) == (if k1 in TableMap(d) then TableMap(d)
                              else TableMap(d)[k1 := NewTable(internalSizes)])
    requires d1.slots[p1].value.1 == (if k1 in TableMap(d) then TableMap(d)[k1]
                                      else NewTable(internalSizes))
    requires p1 < |d2.slots| && d2.slots[p1].Some? && TableValid(d2.slots[p1].value.1)
    requires TableMap(d2) == TableMap(d1)[k1 := d2.slots[p1].value.1]
    requires TableMap(d2.slots[p1].value.1) == TableMap(d1.slots[p1].value.1)[k2 := data]
    requires d2.slots[p1].value.1.sizes == d1.slots[p1].value.1.sizes
    ensures DValid(d2, internalSizes) && DPairs(d2) == PairsWith(d, internalSizes, k1, k2, data)
  {
    var c, w := TableMap(d), d2.slots[p1].value.1;
    assert k2 in TableMap(w);
    if k1 in c {
      assert Inner(c[k1], internalSizes);
      assert TableMap(d2) == c[k1 := w];
      DPairsUpdate(d, d2, internalSizes, k1, w);
      assert TableMap(w) == DPairs(d)[k1][k2 := data];
    } else {
      UpdateTwice(c, k1, NewTable(internalSizes), w);
      DPairsUpdate(d, d2, internalSizes, k1, w);
      assert k1 !in DPairs(d);
    }
  }

  lemma UpdateTwice<K, W>(m: map<K, W>, k: K, a: W, b: W)
    ensures m[k := a][k := b] == m[k := b]
  {
  }

  /** `__setitem__`: find or create `k1`'s internal table, write the pair into it, rehash that
      table when it is more than half full, then rehash the top level when that is more than
      half full. FullError when `k1` is new and the top level is full, or when `k2` is new and
      `k1`'s table is full. */
  function DSet<V>(d: Top<V>, internalSizes: seq<nat>, k1: string, k2: string, data: V): (r: Result<Top<V>>)
    requires DValid(d, internalSizes)
    ensures r.Ok? ==> DValid(r.value, internalSizes)
                      && DPairs(r.value) == PairsWith(d, internalSizes, k1, k2, data)
    ensures r.Err? ==> r.error == FullError
    ensures r.Err? ==> if k1 in DPairs(d) then k2 !in DPairs(d)[k1] else d.count == |d.slots|
    ensures r.Err? && k1 in TableMap(d) ==> TableMap(d)[k1].count == |TableMap(d)[k1].slots|
  {
    match WithInternal(d, internalSizes, k1)
    case Err(e) => Err(e)
    case Ok((d1, p1)) =>
      SlotInMap(d1.slots, p1);
      match WriteInternal(d1, p1, k2, data)
      case Err(e) =>
        TableAt(d, internalSizes, p1);
        Err(e)
      case Ok(d2) =>
        SetPairs(d, internalSizes, k1, k2, data, d1, p1, d2);
        Ok(Grown(d2))
  }

  /** The pairs after (k1, k2) is deleted: `k1` goes too when nothing is left under it. */
  ghost function PairsWithout<V>(d: Top<V>, internalSizes: seq<nat>, k1: string, k2: string): map<string, map<string, V>>
    requires DValid(d, internalSizes) && k1 in DPairs(d)
  {
    var p := DPairs(d);
    if p[k1] - {k2} == map[] then p - {k1} else p[k1 := p[k1] - {k2}]
  }

  /** The pairs after the steps of `__delitem__`: `k2` leaves `k1`'s table `w`, which is stored
      back into slot `p1`, and `k1` leaves the top level when `w` is empty. */
  lemma DeletePairs<V>(d: Top<V>, internalSizes: seq<nat>, k1: string, k2: string, p1: nat,
                       t: Table<V>, w: Table<V>)
    requires DValid(d, internalSizes) && p1 < |d.slots| && d.slots[p1] == Some((k1, t))
    requires TableValid(t) && k2 in TableMap(t)
    requires TableValid(w) && w.sizes == internalSizes && TableMap(w) == TableMap(t) - {k2}
    ensures var d1 := Overwritten(d, p1, w);
      && k1 in TableMap(d1) && k1 in DPairs(d)
      && (TableMap(w) == map[] ==>
            DValid(Removed(d1, k1).value, internalSizes)
            && DPairs(Removed(d1, k1).value) == PairsWithout(d, internalSizes, k1, k2))
      && (TableMap(w) != map[] ==>
            DValid(d1, internalSizes) && DPairs(d1) == PairsWithout(d, internalSizes, k1, k2))
  {
    TableAt(d, internalSizes, p1);
    var c, d1 := TableMap(d), Overwritten(d, p1, w);
    if TableMap(w) == map[] {
      var d2 := Removed(d1, k1).value;
      assert TableMap(d2) == c - {k1} by {
        UpdateMinus(c, k1, w);
      }
      PairsOfRemove(c, k1);
    } else {
      DPairsUpdate(d, d1, internalSizes, k1, w);
    }
  }

  lemma UpdateMinus<K, W>(m: map<K, W>, k: K, a: W)
    ensures m[k := a] - {k} == m - {k}
  {
  }

  /** `__delitem__`: KeyError unless (k1, k2) is stored; otherwise `k2` is deleted from `k1`'s
      internal table, and `k1` from the top level when that table is then empty. */
  function DDelete<V>(d: Top<V>, internalSizes: seq<nat>, k1: string, k2: string): (r: Result<Top<V>>)
    requires DValid(d, internalSizes)
    ensures r.Ok? <==> k1 in DPairs(d) && k2 in DPairs(d)[k1]
    ensures r.Err? ==> r.error == KeyError
    ensures r.Ok? ==> DValid(r.value, internalSizes)
                      && DPairs(r.value) == PairsWithout(d, internalSizes, k1, k2)
  {
    match DLocate(d, internalSizes, k1, k2)
    case Err(e) => Err(e)
    case Ok((p1, _)) =>
      TableAt(d, internalSizes, p1);
      var t := d.slots[p1].value.1;
      var w := Removed(t, k2).value;
      DeletePairs(d, internalSizes, k1, k2, p1, t, w);
      CountIsSize(w);
      var d1 := Overwritten(d, p1, w);
      if w.count == 0 then Ok(Removed(d1, k1).value) else Ok(d1)
  }

  /** `keys(key)`: without a key, the first keys in top-level slot order; with one, the second
      keys stored under it, in the slot order of its internal table (KeyError when it is not
      stored). Each key is listed once. */
  function DKeys<V>(d: Top<V>, internalSizes: seq<nat>, key: Option<string>): (r: Result<seq<string>>)
    requires DValid(d, internalSizes)
    ensures r.Ok? <==> key.None? || key.value in DPairs(d)
    ensures r.Err? ==> r.error == KeyError
    ensures r.Ok? && key.None? ==> forall k :: k in r.value <==> k in DPairs(d)
    ensures r.Ok? && key.Some? ==> forall k :: k in r.value <==> k in DPairs(d)[key.value]
    ensures r.Ok? ==> forall j1, j2 :: 0 <= j1 < j2 < |r.value| ==> r.value[j1] != r.value[j2]
  {
    if key.None? then
      KeysOfSpec(d.slots);
      Ok(KeysOf(d.slots))
    else
      match Lookup(d, key.value)
      case Err(e) => Err(e)
      case Ok(t) =>
        assert Inner(t, internalSizes);
        KeysOfSpec(t.slots);
        Ok(KeysOf(t.slots))
  }

  /** The values of a sequence of internal tables, table by table. */
  function AllValues<V>(ts: seq<Table<V>>): seq<V>
  {
    if ts == [] then [] else AllValues(ts[..|ts| - 1]) + ValuesOf(ts[|ts| - 1].slots)
  }

  /** `vs` gives, position by position, the value `m` stores under the key at the same
      position of `ks`. */
  ghost predicate ValuesAlong<V>(vs: seq<V>, ks: seq<string>, m: map<string, V>)
  {
    |vs| == |ks| && forall j :: 0 <= j < |vs| ==> ks[j] in m && vs[j] == m[ks[j]]
  }

  /** `vs` gives, position by position, the value stored under the pair at the same position
      of `ps`. */
  ghost predicate PairValuesAlong<V>(vs: seq<V>, ps: seq<(string, string)>, p: map<string, map<string, V>>)
  {
    && |vs| == |ps|
    && forall j :: 0 <= j < |ps| ==> ps[j].0 in p && ps[j].1 in p[ps[j].0] && vs[j] == p[ps[j].0][ps[j].1]
  }

  /** The pairs `(k1, k2)` for the second keys `ks`, in order. */
  function PairUp(k1: string, ks: seq<string>): (r: seq<(string, string)>)
    ensures |r| == |ks| && forall j :: 0 <= j < |ks| ==> r[j] == (k1, ks[j])
  {
    seq(|ks|, j requires 0 <= j < |ks| => (k1, ks[j]))
  }

  /** The pairs of one top-level slot, in the slot order of its internal table. */
  function SlotPairs<V>(e: Option<(string, Table<V>)>): seq<(string, string)>
  {
    if e.None? then [] else PairUp(e.value.0, KeysOf(e.value.1.slots))
  }

  /** The pairs of the top-level slots, slot by slot; a pair's first key is a listed key. */
  function PairsIn<V>(s: Slots<Table<V>>): (r: seq<(string, string)>)
    ensures forall j :: 0 <= j < |r| ==> r[j].0 in KeysOf(s)
  {
    if s == [] then [] else PairsIn(s[..|s| - 1]) + SlotPairs(s[|s| - 1])
  }

  /** Each used top-level slot holds a well-keyed internal table, whose mapping `p` gives its key. */
  ghost predicate SlotsHold<V>(s: Slots<Table<V>>, p: map<string, map<string, V>>)
  {
    forall i :: 0 <= i < |s| && s[i].Some? ==>
      && UniqueKeys(s[i].value.1.slots)
      && s[i].value.0 in p && p[s[i].value.0] == MapOf(s[i].value.1.slots)
  }

  lemma AlongConcat<V>(vs1: seq<V>, ps1: seq<(string, string)>, vs2: seq<V>, ps2: seq<(string, string)>,
                       p: map<string, map<string, V>>)
    requires PairValuesAlong(vs1, ps1, p) && PairValuesAlong(vs2, ps2, p)
    ensures PairValuesAlong(vs1 + vs2, ps1 + ps2, p)
  {
    forall j | |ps1| <= j < |ps1 + ps2|
      ensures (ps1 + ps2)[j] == ps2[j - |ps1|] && (vs1 + vs2)[j] == vs2[j - |ps1|]
    {
    }
  }

  /** One slot's values follow its pairs. */
  lemma SlotAlong<V>(e: Option<(string, Table<V>)>, p: map<string, map<string, V>>)
    requires e.Some? ==> UniqueKeys(e.value.1.slots) && e.value.0 in p && p[e.value.0] == MapOf(e.value.1.slots)
    ensures PairValuesAlong(if e.Some? then ValuesOf(e.value.1.slots) else [], SlotPairs(e), p)
  {
    if e.Some? {
      ValuesOfSpec(e.value.1.slots);
    }
  }

  /** The values of the internal tables, table by table, follow the pairs slot by slot. */
  lemma {:induction false} PairsInValues<V>(s: Slots<Table<V>>, p: map<string, map<string, V>>)
    requires SlotsHold(s, p)
    ensures PairValuesAlong(AllValues(ValuesOf(s)), PairsIn(s), p)
  {
    if s != [] {
      var n := |s| - 1;
      var e, ts := s[n], ValuesOf(s[..n]);
      assert SlotsHold(s[..n], p) by {
        forall i | 0 <= i < n && s[..n][i].Some?
          ensures UniqueKeys(s[..n][i].value.1.slots)
        {
          assert s[..n][i] == s[i];
        }
      }
      PairsInValues(s[..n], p);
      SlotAlong(e, p);
      if e.Some? {
        assert (ts + [e.value.1])[..|ts|] == ts;
        assert AllValues(ValuesOf(s)) == AllValues(ts) + ValuesOf(e.value.1.slots);
      } else {
        assert ValuesOf(s) == ts + [] == ts;
      }
      AlongConcat(AllValues(ts), PairsIn(s[..n]), if e.Some? then ValuesOf(e.value.1.slots) else [], SlotPairs(e), p);
    }
  }

  /** No pair is listed twice. */
  lemma {:induction false} PairsInOnce<V>(s: Slots<Table<V>>)
    requires UniqueKeys(s) && forall i :: 0 <= i < |s| && s[i].Some? ==> UniqueKeys(s[i].value.1.slots)
    ensures forall j1, j2 :: 0 <= j1 < j2 < |PairsIn(s)| ==> PairsIn(s)[j1] != PairsIn(s)[j2]
  {
    if s != [] {
      var n := |s| - 1;
      var front: seq<(string, string)>, last: seq<(string, string)> := PairsIn(s[..n]), SlotPairs(s[n]);
      PrefixUnique(s, n);
      assert forall i :: 0 <= i < n ==> s[..n][i] == s[i];
      PairsInOnce(s[..n]);
      if s[n].Some? {
        KeysOfSpec(s[n].value.1.slots);
        KeysOfSpec(s);
        assert s[..n + 1] == s;
        var ks := KeysOf(s[..n]);
        assert KeysOf(s) == ks + [s[n].value.0];
        forall j | 0 <= j < |ks|
          ensures ks[j] != s[n].value.0
        {
          assert KeysOf(s)[j] == ks[j] && KeysOf(s)[|ks|] == s[n].value.0;
        }
      }
      forall j1, j2 | 0 <= j1 < j2 < |front + last|
        ensures (front + last)[j1] != (front + last)[j2]
      {
        if j2 < |front| {
        } else if j1 >= |front| {
        } else {
          assert (front + last)[j1].0 in KeysOf(s[..n]);
        }
      }
    }
  }

  /** Every second key of a used slot's table is listed with the slot's key. */
  lemma {:induction false} PairsInHas<V>(s: Slots<Table<V>>, i: nat, k2: string)
    requires i < |s| && s[i].Some? && k2 in KeysOf(s[i].value.1.slots)
    ensures (s[i].value.0, k2) in PairsIn(s)
  {
    var n := |s| - 1;
    var front, last := PairsIn(s[..n]), SlotPairs(s[n]);
    assert PairsIn(s) == front + last;
    if i < n {
      assert s[..n][i] == s[i];
      PairsInHas(s[..n], i, k2);
      var j :| 0 <= j < |front| && front[j] == (s[i].value.0, k2);
      assert PairsIn(s)[j] == front[j];
    } else {
      var ks := KeysOf(s[i].value.1.slots);
      var j :| 0 <= j < |ks| && ks[j] == k2;
      assert last[j] == (s[i].value.0, k2);
      assert PairsIn(s)[|front| + j] == last[j];
    }
  }

  lemma TopSlotsHold<V>(d: Top<V>, internalSizes: seq<nat>)
    requires DValid(d, internalSizes)
    ensures SlotsHold(d.slots, DPairs(d))
  {
    var s := d.slots;
    forall i | 0 <= i < |s| && s[i].Some?
      ensures UniqueKeys(s[i].value.1.slots) && s[i].value.0 in DPairs(d)
      ensures DPairs(d)[s[i].value.0] == MapOf(s[i].value.1.slots)
    {
      TableAt(d, internalSizes, i);
    }
  }

  /** The stored pairs in the order `values()` lists their values: top-level slot order, then
      the slot order of each internal table. Each stored pair appears exactly once. */
  ghost function StoredPairs<V>(d: Top<V>, internalSizes: seq<nat>): (ps: seq<(string, string)>)
    requires DValid(d, internalSizes)
    ensures forall j :: 0 <= j < |ps| ==> ps[j].0 in DPairs(d) && ps[j].1 in DPairs(d)[ps[j].0]
    ensures forall k1, k2 :: k1 in DPairs(d) && k2 in DPairs(d)[k1] ==> (k1, k2) in ps
    ensures forall j1, j2 :: 0 <= j1 < j2 < |ps| ==> ps[j1] != ps[j2]
  {
    var s := d.slots;
    TopSlotsHold(d, internalSizes);
    PairsInValues(s, DPairs(d));
    PairsInOnce(s);
    forall k1, k2 | k1 in DPairs(d) && k2 in DPairs(d)[k1]
      ensures (k1, k2) in PairsIn(s)
    {
      var i := MapOfWitness(s, k1);
      TableAt(d, internalSizes, i);
      KeysOfSpec(s[i].value.1.slots);
      PairsInHas(s, i, k2);
    }
    PairsIn(s)
  }

  /** `values()` lists one value per stored pair: the value stored under the pair at the
      same position of StoredPairs. */
  lemma TopValues<V>(d: Top<V>, internalSizes: seq<nat>)
    requires DValid(d, internalSizes)
    ensures PairValuesAlong(AllValues(ValuesOf(d.slots)), StoredPairs(d, internalSizes), DPairs(d))
  {
    var s := d.slots;
    TopSlotsHold(d, internalSizes);
    PairsInValues(s, DPairs(d));
  }

  /** `values(key)`: without a key, one value per stored pair, internal table by internal
      table; with one, the values stored under it, one per second key and in the order `keys`
      lists those keys (KeyError when it is not stored). */
  function DValues<V>(d: Top<V>, internalSizes: seq<nat>, key: Option<string>): (r: Result<seq<V>>)
    requires DValid(d, internalSizes)
    ensures r.Ok? <==> key.None? || key.value in DPairs(d)
    ensures r.Err? ==> r.error == KeyError
    ensures r.Ok? && key.None? ==> PairValuesAlong(r.value, StoredPairs(d, internalSizes), DPairs(d))
    ensures r.Ok? && key.Some? ==>
      && |r.value| == |DPairs(d)[key.value]|
      && ValuesAlong(r.value, DKeys(d, internalSizes, key).value, DPairs(d)[key.value])
  {
    if key.None? then
      TopValues(d, internalSizes);
      Ok(AllValues(ValuesOf(d.slots)))
    else
      match Lookup(d, key.value)
      case Err(e) => Err(e)
      case Ok(t) =>
        assert Inner(t, internalSizes);
        ValuesOfSpec(t.slots);
        OccupiedIsSize(t.slots);
        Ok(ValuesOf(t.slots))
  }

  /** `__len__` is the top-level count: the number of first keys with a pair stored. */
  lemma DLenIsKeys<V>(d: Top<V>, internalSizes: seq<nat>)
    requires DValid(d, internalSizes)
    ensures d.count == |DPairs(d)|
  {
    CountIsSize(d);
    assert DPairs(d).Keys == TableMap(d).Keys;
  }

  /** A fresh internal table has room for any second key. */
  lemma NewTableRoom<V>(internalSizes: seq<nat>, k2: string)
    requires ValidSizes(internalSizes)
    ensures Probe(NewTable<V>(internalSizes).slots, k2, true).Ok?
  {
    var t := NewTable<V>(internalSizes);
    ProbeInsert(t.slots, k2);
  }

  /** The internal write as `__setitem__` performs it, at the slot the insertion probe found. */
  lemma AssignedAt<V>(t: Table<V>, k2: string, data: V, p2: nat)
    requires TableValid(t) && Probe(t.slots, k2, true) == Ok(p2)
    ensures var t1 := WrittenAt(t, p2, k2, data);
      Assigned(t, k2, data) == Ok(Grown(t1))
  {
  }

  /** `DSet` is its steps: the top-level probe, the internal write, the top-level load check. */
  lemma DSetSteps<V>(d: Top<V>, internalSizes: seq<nat>, k1: string, k2: string, data: V)
    requires DValid(d, internalSizes) && WithInternal(d, internalSizes, k1).Ok?
    ensures var (d1, p1) := WithInternal(d, internalSizes, k1).value;
      && TableValid(d1.slots[p1].value.1)
      && (Probe(d1.slots[p1].value.1.slots, k2, true).Ok? ==>
            && WriteInternal(d1, p1, k2, data).Ok?
            && DSet(d, internalSizes, k1, k2, data) == Ok(Grown(WriteInternal(d1, p1, k2, data).value)))
  {
    var (d1, p1) := WithInternal(d, internalSizes, k1).value;
    if k1 in TableMap(d) {
      assert Inner(TableMap(d)[k1], internalSizes);
    }
    ProbeInsert(d1.slots[p1].value.1.slots, k2);
  }


  /** When the insertion probes fail, `DSet` fails and the top level is as it was. */
  lemma DSetFails<V>(d: Top<V>, internalSizes: seq<nat>, k1: string, k2: string, data: V)
    requires DValid(d, internalSizes)
    ensures var w := WithInternal(d, internalSizes, k1);
      (w.Err? || Probe(w.value.0.slots[w.value.1].value.1.slots, k2, true).Err?) ==>
        && DSet(d, internalSizes, k1, k2, data).Err?
        && (w.Ok? ==> w.value.0 == d)
  {
    var w := WithInternal(d, internalSizes, k1);
    if w.Ok? && Probe(w.value.0.slots[w.value.1].value.1.slots, k2, true).Err? {
      NewTableRoom<V>(internalSizes, k2);
      assert k1 in TableMap(d);
      assert Inner(TableMap(d)[k1], internalSizes);
    }
  }

  /** `DDelete` is its steps: the lookup, the internal deletion, the top-level deletion. */
  lemma DDeleteSteps<V>(d: Top<V>, internalSizes: seq<nat>, k1: string, k2: string, p1: nat, p2: nat)
    requires DValid(d, internalSizes) && DLocate(d, internalSizes, k1, k2) == Ok((p1, p2))
    ensures TableValid(d.slots[p1].value.1)
    ensures Removed(d.slots[p1].value.1, k2).Ok?
    ensures var w := Removed(d.slots[p1].value.1, k2).value; var d1 := Overwritten(d, p1, w);
      && k1 in TableMap(d1)
      && DDelete(d, internalSizes, k1, k2) == Ok(if w.count == 0 then Removed(d1, k1).value else d1)
  {
    TableAt(d, internalSizes, p1);
  }

  /** `DoubleKeyTable`: the top-level table is a `LinearProbeTable` object whose values are the
      internal tables; each method is proved to act on it as the function of the same name
      above does. */
  class DoubleKeyTable<V> {
    const top: LinearProbeTable<Table<V>>
    /** `TABLE_SIZES` of the instance: the sizes internal tables are created with. */
    const internalSizes: seq<nat>

    ghost predicate Valid()
      reads top, top.slots
    {
      DValid(top.Value(), internalSizes)
    }

    /** The stored pairs. */
    ghost function Pairs(): map<string, map<string, V>>
      reads top, top.slots
      requires Valid()
    {
      DPairs(top.Value())
    }

    /** `__init__`: both levels default to `TABLE_SIZES`. */
    constructor (sizes: Option<seq<nat>>, internal: Option<seq<nat>>)
      requires sizes.Some? ==> ValidSizes(sizes.value)
      requires internal.Some? ==> ValidSizes(internal.value)
      ensures Valid() && Pairs() == map[] && fresh(top) && fresh(top.slots)
      ensures top.sizes == (if sizes.Some? then sizes.value else TableSizes)
      ensures internalSizes == (if internal.Some? then internal.value else TableSizes)
    {
      TableSizesValid();
      top := new LinearProbeTable(if sizes.Some? then sizes.value else TableSizes);
      internalSizes := if internal.Some? then internal.value else TableSizes;
    }

    /** `hash1`: the rolling hash for the top-level size. */
    method Hash1(key: string) returns (h: nat)
      requires Valid()
      ensures h == HashOf(key, top.slots.Length)
    {
      h := Hash(key, top.slots.Length);
    }

    /** `hash2`: the rolling hash for the size of an internal table. */
    method Hash2(key: string, sub: Table<V>) returns (h: nat)
      requires TableValid(sub)
      ensures h == HashOf(key, |sub.slots|)
    {
      h := Hash(key, |sub.slots|);
    }

    /** `_linear_probe(k1, k2, False)`: the slots of `k1` and of `k2`, or KeyError. */
    method Locate(k1: string, k2: string) returns (r: Result<(nat, nat)>)
      requires Valid()
      ensures r == DLocate(top.Value(), internalSizes, k1, k2)
    {
      ProbeLookup(top.slots[..], k1);
      var p := top.LinearProbe(k1, false);
      if p.Err? {
        return Err(p.error);
      }
      var p1 := p.value;
      TableAt(top.Value(), internalSizes, p1);
      var t := top.slots[p1].value.1;
      var q := Probe(t.slots, k2, false);
      if q.Err? {
        return Err(q.error);
      }
      return Ok((p1, q.value));
    }

    /** `_linear_probe(k1, k2, True)`: a new `k1` first receives a fresh internal table in the
        empty slot the probe stopped at, counted at the top level; then the insertion probe for
        `k2` runs in `k1`'s internal table. */
    method LinearProbeInsert(k1: string, k2: string) returns (r: Result<(nat, nat)>)
      requires Valid()
      modifies top`count, top.slots
      ensures var w := WithInternal(old(top.Value()), internalSizes, k1);
        && (w.Err? ==> r == Err(FullError) && top.Value() == old(top.Value()))
        && (w.Ok? ==> top.Value() == w.value.0)
        && (w.Ok? ==> var q := Probe(w.value.0.slots[w.value.1].value.1.slots, k2, true);
              && (r.Ok? <==> q.Ok?)
              && (r.Ok? ==> r.value == (w.value.1, q.value)))
    {
      ProbeInsert(top.slots[..], k1);
      var p := top.LinearProbe(k1, true);
      if p.Err? {
        return Err(p.error);
      }
      var p1 := p.value;
      if top.slots[p1].None? {
        top.Fill(p1, k1, NewTable(internalSizes));
      }
      var t := top.slots[p1].value.1;
      var q := Probe(t.slots, k2, true);
      if q.Err? {
        return Err(q.error);
      }
      return Ok((p1, q.value));
    }

    /** `__getitem__`. */
    method Get(k1: string, k2: string) returns (r: Result<V>)
      requires Valid()
      ensures r == DGet(top.Value(), internalSizes, k1, k2)
    {
      var p := Locate(k1, k2);
      if p.Err? {
        return Err(p.error);
      }
      var (p1, p2) := p.value;
      return Ok(top.slots[p1].value.1.slots[p2].value.1);
    }
 
    /** `__contains__`: whether `__getitem__` succeeds. */
    method Contains(k1: string, k2: string) returns (b: bool)
      requires Valid()
      ensures b <==> k1 in Pairs() && k2 in Pairs()[k1]
    {
      var g := Get(k1, k2);
      b := g.Ok?;
    }

    /** Lines 223-229 of `__setitem__` in the corrected order: write at the slot `p2` the
        insertion probe found in the internal table in top-level slot `p1`, rehash that table
        when it is more than half full, and store it back. */
    method WriteBack(p1: nat, p2: nat, k2: string, data: V)
      requires TableValid(top.Value()) && p1 < top.slots.Length && top.slots[p1].Some?
      requires TableValid(top.slots[p1].value.1)
      requires Probe(top.slots[p1].value.1.slots, k2, true) == Ok(p2)
      modifies top.slots
      ensures WriteInternal(old(top.Value()), p1, k2, data) == Ok(top.Value())
    {
      var t := top.slots[p1].value.1;
      var t1 := WrittenAt(t, p2, k2, data);
      var w := Grown(t1);
      AssignedAt(t, k2, data, p2);
      top.Replace(p1, w);
    }

    /** `__setitem__` (lines 223-229 in the corrected order): the pair goes into the slot the
        insertion probe found in `k1`'s internal table, which is rehashed when more than half
        full and stored back under `k1`; then the top level is rehashed when more than half
        full. */
    method Set(k1: string, k2: string, data: V) returns (r: Result<()>)
      requires Valid()
      modifies top, top.slots
      ensures r.Ok? == DSet(old(top.Value()), internalSizes, k1, k2, data).Ok?
      ensures r.Ok? ==> Valid() && top.Value() == DSet(old(top.Value()), internalSizes, k1, k2, data).value
      ensures r.Err? ==> r.error == FullError && top.Value() == old(top.Value())
    {
      ghost var d := top.Value();
      var p := LinearProbeInsert(k1, k2);
      DSetFails(d, internalSizes, k1, k2, data);
      if p.Err? {
        return Err(FullError);
      }
      var (p1, p2) := p.value;
      SetFound(d, k1, k2, data, p1, p2);
      return Ok(());
    }

    /** The rest of `__setitem__` once both insertion probes have found a slot. */
    method SetFound(ghost d: Top<V>, k1: string, k2: string, data: V, p1: nat, p2: nat)
      requires DValid(d, internalSizes) && WithInternal(d, internalSizes, k1) == Ok((top.Value(), p1))
      requires Probe(top.Value().slots[p1].value.1.slots, k2, true) == Ok(p2)
      modifies top, top.slots
      ensures DSet(d, internalSizes, k1, k2, data) == Ok(top.Value())
    {
      DSetSteps(d, internalSizes, k1, k2, data);
      WriteAndGrow(p1, p2, k2, data);
    }

    /** Lines 220-229 of `__setitem__`: the write into the internal table, then the top-level
        rehash when the top level is more than half full. */
    method WriteAndGrow(p1: nat, p2: nat, k2: string, data: V)
      requires TableValid(top.Value()) && p1 < top.slots.Length && top.slots[p1].Some?
      requires TableValid(top.slots[p1].value.1)
      requires Probe(top.slots[p1].value.1.slots, k2, true) == Ok(p2)
      modifies top, top.slots
      ensures WriteInternal(old(top.Value()), p1, k2, data).Ok?
      ensures var d2 := WriteInternal(old(top.Value()), p1, k2, data).value;
        top.Value() == Grown(d2)
    {
      WriteBack(p1, p2, k2, data);
      if 2 * top.count > top.slots.Length {
        top.Rehash();
      }
      assert top.Value() == Grown(WriteInternal(old(top.Value()), p1, k2, data).value);
    }

    /** `__delitem__`: KeyError unless (k1, k2) is stored; `k2` leaves `k1`'s internal table,
        and `k1` leaves the top level when that table is then empty. */
    method Delete(k1: string, k2: string) returns (r: Result<()>)
      requires Valid()
      modifies top`count, top.slots
      ensures r.Ok? == DDelete(old(top.Value()), internalSizes, k1, k2).Ok?
      ensures r.Ok? ==> Valid() && top.Value() == DDelete(old(top.Value()), internalSizes, k1, k2).value
      ensures r.Err? ==> r.error == KeyError && top.Value() == old(top.Value())
    {
      var p := Locate(k1, k2);
      if p.Err? {
        return Err(KeyError);
      }
      ghost var d := top.Value();
      var (p1, p2) := p.value;
      DDeleteSteps(d, internalSizes, k1, k2, p1, p2);
      var t := top.slots[p1].value.1;
      var w := Removed(t, k2).value;
      StoreBack(p1, k1, w);
      return Ok(());
    }

    /** Lines 242-244 of `__delitem__`: the internal table in slot `p1`, which `k2` has left,
        is stored back, and `k1` is deleted from the top level when that table is empty. */
    method StoreBack(p1: nat, k1: string, w: Table<V>)
      requires top.Valid() && p1 < top.slots.Length && top.slots[p1].Some?
      requires top.slots[p1].value.0 == k1
      modifies top`count, top.slots
      ensures var d1 := Overwritten(old(top.Value()), p1, w);
        top.Value() == if w.count == 0 then Removed(d1, k1).value else d1
    {
      top.Replace(p1, w);
      if w.count == 0 {
        var _ := top.Delete(k1);
      }
    }

    /** `keys(key)`. */
    method Keys(key: Option<string>) returns (r: Result<seq<string>>)
      requires Valid()
      ensures r == DKeys(top.Value(), internalSizes, key)
    {
      if key.None? {
        var ks := top.Keys();
        return Ok(ks);
      }
      var g := top.Get(key.value);
      if g.Err? {
        return Err(g.error);
      }
      return Ok(KeysOf(g.value.slots));
    }

    /** `values(key)`: without a key, the values of each internal table in turn. */
    method Values(key: Option<string>) returns (r: Result<seq<V>>)
      requires Valid()
      ensures r == DValues(top.Value(), internalSizes, key)
    {
      if key.None? {
        var ts := top.Values();
        var vs: seq<V> := [];
        for i := 0 to |ts|
          invariant vs == AllValues(ts[..i])
        {
          assert ts[..i + 1][..i] == ts[..i];
          vs := vs + ValuesOf(ts[i].slots);
        }
        assert ts[..|ts|] == ts;
        return Ok(vs);
      }
      var g := top.Get(key.value);
      if g.Err? {
        return Err(g.error);
      }
      return Ok(ValuesOf(g.value.slots));
    }

    /** `__len__`: the number of first keys with a pair stored. */
    method Len() returns (n: nat)
      requires Valid()
      ensures n == |Pairs()|
    {
      DLenIsKeys(top.Value(), internalSizes);
      n := top.count;
    }

    /** `table_size`: the current top-level size, one of the configured sizes. */
    method TableSize() returns (n: nat)
      requires Valid()
      ensures n == top.sizes[top.sizeIndex]
    {
      n := top.TableSize();
    }
  }
}
