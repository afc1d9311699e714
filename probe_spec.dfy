/** Linear probing over a slot sequence: the rolling hash of double_key_table.py and the
    probe, invariants and abstraction that the table classes are proved against. */
module ProbeSpec {
  import opened Common

  const HashBase: nat := 31
  const HashSeed: nat := 31415

  type Slots<V> = seq<Option<(string, V)>>

  /** `(value, a)` after the rolling hash has consumed all of `key`; both `hash1` and `hash2`
      compute this, against the size of the table they hash for. */
  function HashState(key: string, size: nat): (r: (nat, nat))
    requires size >= 2
    ensures r.0 < size
  {
    if key == [] then (0, HashSeed)
    else
      var prev := HashState(key[..|key| - 1], size);
      ((key[|key| - 1] as int + prev.1 * prev.0) % size, prev.1 * HashBase % (size - 1))
  }

  /** The home slot of `key` in a table of `size` slots. */
  function HashOf(key: string, size: nat): (h: nat)
    requires size >= 2
    ensures h < size
    ensures key == [] ==> h == 0
  {
    HashState(key, size).0
  }

  /** The rolling hash as Python runs it for a table of any size: a size of 0 divides by zero
      in `% table_size`, and a size of 1 in `% (table_size - 1)`, once the key has a character
      (lines 54 and 68). For sizes of 2 or more it is HashState. */
  function HashStateAnySize(key: string, size: nat): (r: Result<(nat, nat)>)
    ensures r.Err? <==> key != [] && size < 2
    ensures r.Err? ==> r.error == ZeroDivisionError
    ensures size >= 2 ==> r == Ok(HashState(key, size))
  {
    if key == [] then Ok((0, HashSeed))
    else
      match HashStateAnySize(key[..|key| - 1], size)
      case Err(e) => Err(e)
      case Ok((value, a)) =>
        if size == 0 || size == 1 then Err(ZeroDivisionError)
        else Ok(((key[|key| - 1] as int + a * value) % size, a * HashBase % (size - 1)))
  }

  /** Slot `e` steps after `h`, wrapping round a table of `n` slots (`(h + e) % n`). */
  function Wrap(h: nat, e: nat, n: nat): (p: nat)
    requires h < n && e < n
    ensures p < n
  {
    if h + e < n then h + e else h + e - n
  }

  /** How many steps from `h` to `i`, wrapping round. */
  function Dist(h: nat, i: nat, n: nat): (d: nat)
    requires h < n && i < n
    ensures d < n && Wrap(h, d, n) == i
  {
    if h <= i then i - h else i + n - h
  }

  lemma DistWrap(h: nat, e: nat, n: nat)
    requires h < n && e < n
    ensures Dist(h, Wrap(h, e, n), n) == e
  {
  }

  /** Number of steps a probe for `key` from `h` takes, starting at step `j`, before it meets an
      empty slot or the key itself; |s| when it goes round the whole table. */
  function ProbeDist<V>(s: Slots<V>, key: string, h: nat, j: nat): (d: nat)
    requires h < |s| && j <= |s|
    ensures j <= d <= |s|
    ensures forall e :: j <= e < d ==> s[Wrap(h, e, |s|)].Some? && s[Wrap(h, e, |s|)].value.0 != key
    ensures d < |s| ==> s[Wrap(h, d, |s|)].None? || s[Wrap(h, d, |s|)].value.0 == key
    decreases |s| - j
  {
    if j == |s| then j
    else
      var p := Wrap(h, j, |s|);
      if s[p].None? || s[p].value.0 == key then j else ProbeDist(s, key, h, j + 1)
  }

  /** `LinearProbeTable._linear_probe`: the slot of `key`, or on insertion the first empty slot;
      a lookup that meets an empty slot or goes round fails with KeyError, an insertion that goes
      round fails with FullError. */
  function Probe<V>(s: Slots<V>, key: string, isInsert: bool): Result<nat>
    requires |s| >= 2
  {
    var h := HashOf(key, |s|);
    var d := ProbeDist(s, key, h, 0);
    if d == |s| then Err(if isInsert then FullError else KeyError)
    else
      var p := Wrap(h, d, |s|);
      if s[p].None? && !isInsert then Err(KeyError) else Ok(p)
  }

  ghost predicate UniqueKeys<V>(s: Slots<V>)
  {
    forall i, j :: 0 <= i < |s| && 0 <= j < |s| && s[i].Some? && s[j].Some? && s[i].value.0 == s[j].value.0 ==> i == j
  }

  /** Home slot of the entry in slot `i`. */
  function Home<V>(s: Slots<V>, i: nat): (h: nat)
    requires |s| >= 2 && i < |s| && s[i].Some?
    ensures h < |s|
  {
    HashOf(s[i].value.0, |s|)
  }

  /** Every slot between an entry's home slot and the entry itself is occupied. */
  ghost predicate Clustered<V>(s: Slots<V>)
    requires |s| >= 2
  {
    forall i, e {:trigger Wrap(Home(s, i), e, |s|)} :: 0 <= i < |s| && s[i].Some? && 0 <= e < Dist(Home(s, i), i, |s|) ==> s[Wrap(Home(s, i), e, |s|)].Some?
  }

  ghost predicate WellFormed<V>(s: Slots<V>)
  {
    |s| >= 2 && UniqueKeys(s) && Clustered(s)
  }

  /** The key-value mapping a slot sequence holds. */
  ghost function MapOf<V>(s: Slots<V>): map<string, V>
    requires UniqueKeys(s)
  {
    map i | 0 <= i < |s| && s[i].Some? :: s[i].value.0 := s[i].value.1
  }

  function Occupied<V>(s: Slots<V>): (c: nat)
    ensures c <= |s|
  {
    if s == [] then 0 else Occupied(s[..|s| - 1]) + (if s[|s| - 1].Some? then 1 else 0)
  }

  /** `keys()`: the keys of the occupied slots in slot order. */
  function KeysOf<V>(s: Slots<V>): seq<string>
  {
    if s == [] then [] else KeysOf(s[..|s| - 1]) + (if s[|s| - 1].Some? then [s[|s| - 1].value.0] else [])
  }

  /** `values()`: the values of the occupied slots in slot order. */
  function ValuesOf<V>(s: Slots<V>): seq<V>
  {
    if s == [] then [] else ValuesOf(s[..|s| - 1]) + (if s[|s| - 1].Some? then [s[|s| - 1].value.1] else [])
  }

  function EmptySlots<V>(n: nat): (s: Slots<V>)
    ensures |s| == n && forall i :: 0 <= i < n ==> s[i].None?
  {
    seq(n, _ => None)
  }

  // ----- counting -----

  lemma {:induction false} OccupiedUpdate<V>(s: Slots<V>, p: nat, x: Option<(string, V)>)
    requires p < |s|
    ensures Occupied(s[p := x]) == Occupied(s) - (if s[p].Some? then 1 else 0) + (if x.Some? then 1 else 0)
  {
    var s' := s[p := x];
    if p < |s| - 1 {
      assert s'[..|s'| - 1] == s[..|s| - 1][p := x];
      OccupiedUpdate(s[..|s| - 1], p, x);
    } else {
      assert s'[..|s'| - 1] == s[..|s| - 1];
    }
  }

  /** A table all of whose slots are taken holds |s| entries. */
  lemma {:induction false} OccupiedAll<V>(s: Slots<V>)
    requires forall i :: 0 <= i < |s| ==> s[i].Some?
    ensures Occupied(s) == |s|
  {
    if s != [] {
      OccupiedAll(s[..|s| - 1]);
    }
  }

  lemma {:induction false} OccupiedNone<V>(s: Slots<V>)
    requires forall i :: 0 <= i < |s| ==> s[i].None?
    ensures Occupied(s) == 0
  {
    if s != [] {
      OccupiedNone(s[..|s| - 1]);
    }
  }

  /** A fresh table of at least two slots is well formed, empty and holds nothing. */
  lemma EmptyWellFormed<V>(n: nat)
    requires n >= 2
    ensures WellFormed(EmptySlots<V>(n)) && MapOf(EmptySlots<V>(n)) == map[]
    ensures Occupied(EmptySlots<V>(n)) == 0
  {
    OccupiedNone(EmptySlots<V>(n));
  }

  // ----- the probe finds what the table holds -----

  /** On a well-formed table the probe for a stored key stops exactly at its slot. */
  lemma ProbeReaches<V>(s: Slots<V>, key: string, i: nat)
    requires WellFormed(s) && i < |s| && s[i].Some? && s[i].value.0 == key
    ensures ProbeDist(s, key, Home(s, i), 0) == Dist(Home(s, i), i, |s|)
  {
    var n, h := |s|, Home(s, i);
    var D := Dist(h, i, n);
    var d := ProbeDist(s, key, h, 0);
    if d < n {
      DistWrap(h, d, n);
    }
  }

  /** A lookup succeeds exactly for stored keys, at the key's slot; otherwise it raises KeyError. */
  lemma ProbeLookup<V>(s: Slots<V>, key: string)
    requires WellFormed(s)
    ensures Probe(s, key, false).Ok? <==> key in MapOf(s)
    ensures Probe(s, key, false).Err? ==> Probe(s, key, false).error == KeyError
    ensures Probe(s, key, false).Ok? ==> var p := Probe(s, key, false).value;
      p < |s| && s[p].Some? && s[p].value.0 == key
  {
    if key in MapOf(s) {
      var i :| 0 <= i < |s| && s[i].Some? && s[i].value.0 == key;
      ProbeReaches(s, key, i);
    }
  }

  /** An insertion probe finds the key's slot when it is stored, an empty slot when it is not,
      and fails with FullError only when the key is absent and every slot is taken. */
  lemma ProbeInsert<V>(s: Slots<V>, key: string)
    requires WellFormed(s)
    ensures Probe(s, key, true).Err? ==>
      Probe(s, key, true).error == FullError && key !in MapOf(s) && Occupied(s) == |s|
    ensures Probe(s, key, true).Ok? ==> var p := Probe(s, key, true).value;
      p < |s| && (if key in MapOf(s) then s[p].Some? && s[p].value.0 == key else s[p].None?)
  {
    var n, h := |s|, HashOf(key, |s|);
    var d := ProbeDist(s, key, h, 0);
    if key in MapOf(s) {
      var i :| 0 <= i < |s| && s[i].Some? && s[i].value.0 == key;
      ProbeReaches(s, key, i);
    } else if d == n {
      forall i | 0 <= i < n ensures s[i].Some? {
        assert s[Wrap(h, Dist(h, i, n), n)].Some?;
      }
      OccupiedAll(s);
    }
  }

  /** Overwriting the value of a stored key keeps the keys, and so the invariants, as they were. */
  lemma OverwritePreserves<V>(s: Slots<V>, p: nat, key: string, v: V)
    requires WellFormed(s) && p < |s| && s[p].Some? && s[p].value.0 == key
    ensures var s' := s[p := Some((key, v))];
      && WellFormed(s') && MapOf(s') == MapOf(s)[key := v] && Occupied(s') == Occupied(s)
  {
    var n := |s|;
    var s' := s[p := Some((key, v))];
    forall i | 0 <= i < n
      ensures s'[i].Some? == s[i].Some?
      ensures s'[i].Some? ==> s'[i].value.0 == s[i].value.0 && Home(s', i) == Home(s, i)
    {
    }
    assert Clustered(s') by {
      forall i, e | 0 <= i < n && s'[i].Some? && 0 <= e < Dist(Home(s', i), i, n)
        ensures s'[Wrap(Home(s', i), e, n)].Some?
      {
        assert s[Wrap(Home(s, i), e, n)].Some?;
      }
    }
    OccupiedUpdate(s, p, Some((key, v)));
  }

  /** Filling the empty slot `p` that a probe for an absent `key` reached keeps every entry's run
      from its home slot occupied. */
  lemma FillPreservesClustered<V>(s: Slots<V>, p: nat, key: string, v: V)
    requires WellFormed(s) && p < |s| && s[p].None?
    requires var h := HashOf(key, |s|);
      forall e :: 0 <= e < Dist(h, p, |s|) ==> s[Wrap(h, e, |s|)].Some?
    ensures Clustered(s[p := Some((key, v))])
  {
    var n, h := |s|, HashOf(key, |s|);
    var s' := s[p := Some((key, v))];
    forall i, e | 0 <= i < n && s'[i].Some? && 0 <= e < Dist(Home(s', i), i, n)
      ensures s'[Wrap(Home(s', i), e, n)].Some?
    {
      if i != p {
        assert Home(s', i) == Home(s, i);
        assert s[Wrap(Home(s, i), e, n)].Some?;
      } else {
        assert Home(s', i) == h;
        assert s[Wrap(h, e, n)].Some?;
      }
    }
  }

  /** Filling an empty slot with an absent key adds exactly that entry to the mapping. */
  lemma FillMap<V>(s: Slots<V>, p: nat, key: string, v: V)
    requires UniqueKeys(s) && p < |s| && s[p].None? && key !in MapOf(s)
    ensures var s' := s[p := Some((key, v))];
      UniqueKeys(s') && MapOf(s') == MapOf(s)[key := v]
  {
    var s' := s[p := Some((key, v))];
    assert UniqueKeys(s') by {
      forall i | 0 <= i < |s| && s[i].Some?
        ensures s[i].value.0 != key
      {
        SlotInMap(s, i);
      }
    }
    forall x | x in MapOf(s)
      ensures x in MapOf(s') && MapOf(s')[x] == MapOf(s)[x]
    {
      var j := MapOfWitness(s, x);
      assert s'[j] == s[j];
      SlotInMap(s', j);
    }
    forall x | x in MapOf(s')
      ensures x in MapOf(s)[key := v]
    {
      var j := MapOfWitness(s', x);
      if j != p {
        assert s[j] == s'[j];
        SlotInMap(s, j);
      }
    }
    SlotInMap(s', p);
  }

  /** Filling the empty slot a probe for an absent key reached adds exactly that entry. */
  lemma FillPreserves<V>(s: Slots<V>, p: nat, key: string, v: V)
    requires WellFormed(s) && p < |s| && s[p].None? && key !in MapOf(s)
    requires var h := HashOf(key, |s|);
      forall e :: 0 <= e < Dist(h, p, |s|) ==> s[Wrap(h, e, |s|)].Some?
    ensures var s' := s[p := Some((key, v))];
      && WellFormed(s') && MapOf(s') == MapOf(s)[key := v] && Occupied(s') == Occupied(s) + 1
  {
    FillPreservesClustered(s, p, key, v);
    FillMap(s, p, key, v);
    OccupiedUpdate(s, p, Some((key, v)));
  }

  /** Writing at the slot an insertion probe returns keeps the table well formed, maps `key` to
      `v`, and adds one entry exactly when `key` was absent. */
  lemma InsertPreserves<V>(s: Slots<V>, key: string, v: V)
    requires WellFormed(s) && Probe(s, key, true).Ok?
    ensures var s' := s[Probe(s, key, true).value := Some((key, v))];
      && WellFormed(s') && MapOf(s') == MapOf(s)[key := v]
      && Occupied(s') == Occupied(s) + (if key in MapOf(s) then 0 else 1)
  {
    ProbeInsert(s, key);
    var p := Probe(s, key, true).value;
    if key in MapOf(s) {
      OverwritePreserves(s, p, key, v);
    } else {
      var h := HashOf(key, |s|);
      DistWrap(h, ProbeDist(s, key, h, 0), |s|);
      FillPreserves(s, p, key, v);
    }
  }

  // ----- prefixes, keys and values -----

  lemma PrefixUnique<V>(s: Slots<V>, i: nat)
    requires UniqueKeys(s) && i <= |s|
    ensures UniqueKeys(s[..i])
  {
  }

  /** A mapped key is stored, with its value, in some slot. */
  lemma MapOfWitness<V>(s: Slots<V>, k: string) returns (i: nat)
    requires UniqueKeys(s) && k in MapOf(s)
    ensures i < |s| && s[i] == Some((k, MapOf(s)[k]))
  {
    i :| 0 <= i < |s| && s[i].Some? && s[i].value.0 == k;
  }

  lemma MapOfSnocSome<V>(s: Slots<V>, i: nat)
    requires UniqueKeys(s) && i < |s| && s[i].Some?
    requires UniqueKeys(s[..i]) && UniqueKeys(s[..i + 1])
    ensures s[i].value.0 !in MapOf(s[..i])
    ensures MapOf(s[..i + 1]) == MapOf(s[..i])[s[i].value.0 := s[i].value.1]
  {
    var a, b := s[..i], s[..i + 1];
    var (k, v) := s[i].value;
    if k in MapOf(a) {
      var j := MapOfWitness(a, k);
      assert false;
    }
    forall x | x in MapOf(a)
      ensures x in MapOf(b) && MapOf(b)[x] == MapOf(a)[x]
    {
      var j := MapOfWitness(a, x);
      assert b[j] == a[j];
      SlotInMap(b, j);
    }
    forall x | x in MapOf(b)
      ensures x in MapOf(a)[k := v]
    {
      var j := MapOfWitness(b, x);
      if j < i {
        assert a[j] == b[j];
        SlotInMap(a, j);
      }
    }
    SlotInMap(b, i);
  }

  lemma MapOfSnocNone<V>(s: Slots<V>, i: nat)
    requires i < |s| && s[i].None?
    requires UniqueKeys(s[..i]) && UniqueKeys(s[..i + 1])
    ensures MapOf(s[..i + 1]) == MapOf(s[..i])
  {
    var a, b := s[..i], s[..i + 1];
    forall x | x in MapOf(a)
      ensures x in MapOf(b) && MapOf(b)[x] == MapOf(a)[x]
    {
      var j := MapOfWitness(a, x);
      assert b[j] == a[j];
      SlotInMap(b, j);
    }
    forall x | x in MapOf(b)
      ensures x in MapOf(a)
    {
      var j := MapOfWitness(b, x);
      assert a[j] == b[j];
      SlotInMap(a, j);
    }
  }

  /** The mapping of a prefix one slot longer gains that slot's entry, which was not yet mapped. */
  lemma MapOfSnoc<V>(s: Slots<V>, i: nat)
    requires UniqueKeys(s) && i < |s|
    ensures UniqueKeys(s[..i]) && UniqueKeys(s[..i + 1])
    ensures s[i].Some? ==> (&& s[i].value.0 !in MapOf(s[..i])
                            && MapOf(s[..i + 1]) == MapOf(s[..i])[s[i].value.0 := s[i].value.1])
    ensures s[i].None? ==> MapOf(s[..i + 1]) == MapOf(s[..i])
  {
    PrefixUnique(s, i);
    PrefixUnique(s, i + 1);
    if s[i].Some? {
      MapOfSnocSome(s, i);
    } else {
      MapOfSnocNone(s, i);
    }
  }

  /** With unique keys the number of occupied slots is the number of mapped keys. */
  lemma {:induction false} OccupiedIsSize<V>(s: Slots<V>)
    requires UniqueKeys(s)
    ensures |MapOf(s)| == Occupied(s)
  {
    if s != [] {
      var n := |s| - 1;
      assert s[..n + 1] == s;
      MapOfSnoc(s, n);
      OccupiedIsSize(s[..n]);
    }
  }

  /** `keys()` lists, in slot order, one key per occupied slot, each a stored key, each once. */
  lemma {:induction false} KeysOfSpec<V>(s: Slots<V>)
    requires UniqueKeys(s)
    ensures |KeysOf(s)| == Occupied(s)
    ensures forall k :: k in KeysOf(s) <==> k in MapOf(s)
    ensures forall j1, j2 :: 0 <= j1 < j2 < |KeysOf(s)| ==> KeysOf(s)[j1] != KeysOf(s)[j2]
  {
    if s != [] {
      var n := |s| - 1;
      assert s[..n + 1] == s;
      MapOfSnoc(s, n);
      KeysOfSpec(s[..n]);
    }
  }

  /** `values()` lists one value per occupied slot, and its j-th value is the one stored under
      the j-th key of `keys()`. */
  lemma {:induction false} ValuesOfSpec<V>(s: Slots<V>)
    requires UniqueKeys(s)
    ensures |ValuesOf(s)| == |KeysOf(s)| == Occupied(s)
    ensures forall j :: 0 <= j < |ValuesOf(s)| ==> KeysOf(s)[j] in MapOf(s) && MapOf(s)[KeysOf(s)[j]] == ValuesOf(s)[j]
  {
    KeysOfSpec(s);
    if s != [] {
      var n := |s| - 1;
      assert s[..n + 1] == s;
      MapOfSnoc(s, n);
      ValuesOfSpec(s[..n]);
    }
  }

  /** An occupied slot's entry is in the mapping. */
  lemma SlotInMap<V>(s: Slots<V>, i: nat)
    requires UniqueKeys(s) && i < |s| && s[i].Some?
    ensures s[i].value.0 in MapOf(s) && MapOf(s)[s[i].value.0] == s[i].value.1
  {
  }

  /** Each listed value is stored, under the key listed at the same place. */
  lemma ValueStored<V>(s: Slots<V>, j: nat) returns (k: string)
    requires UniqueKeys(s) && j < |ValuesOf(s)|
    ensures k in MapOf(s) && MapOf(s)[k] == ValuesOf(s)[j]
  {
    ValuesOfSpec(s);
    k := KeysOf(s)[j];
  }

  /** Each stored value is listed, at the place its key is listed. */
  lemma ValueListed<V>(s: Slots<V>, k: string) returns (j: nat)
    requires UniqueKeys(s) && k in MapOf(s)
    ensures j < |ValuesOf(s)| && ValuesOf(s)[j] == MapOf(s)[k]
  {
    KeysOfSpec(s);
    ValuesOfSpec(s);
    j :| 0 <= j < |KeysOf(s)| && KeysOf(s)[j] == k;
  }
}
