/** How the operations of the double-key table relate to one another, stated on the pairs
    the table holds. */
module DoubleKeyLaws {
  import opened Common
  import opened TableSpec
  import opened DoubleKeyTables

  /** Reading (k1, k2) from a map of pairs, as `__getitem__` does. */
  function PairGet<V>(p: map<string, map<string, V>>, k1: string, k2: string): Result<V>
  {
    if k1 in p && k2 in p[k1] then Ok(p[k1][k2]) else Err(KeyError)
  }

  lemma GetIsPairGet<V>(d: Top<V>, isz: seq<nat>, k1: string, k2: string)
    requires DValid(d, isz)
    ensures DGet(d, isz, k1, k2) == PairGet(DPairs(d), k1, k2)
  {
  }

  lemma PairsWithGet<V>(p: map<string, map<string, V>>, k1: string, k2: string, data: V,
                        j1: string, j2: string)
    ensures var q := p[k1 := (if k1 in p then p[k1] else map[])[k2 := data]];
      && PairGet(q, k1, k2) == Ok(data)
      && ((j1, j2) != (k1, k2) ==> PairGet(q, j1, j2) == PairGet(p, j1, j2))
  {
  }

  /** After a successful `d[k1, k2] = data`, reading (k1, k2) gives `data`, and every other
      pair reads as it did before. */
  lemma SetThenGet<V>(d: Top<V>, isz: seq<nat>, k1: string, k2: string, data: V,
                      j1: string, j2: string)
    requires DValid(d, isz) && DSet(d, isz, k1, k2, data).Ok?
    ensures var r := DSet(d, isz, k1, k2, data).value;
      && DGet(r, isz, k1, k2) == Ok(data)
      && ((j1, j2) != (k1, k2) ==> DGet(r, isz, j1, j2) == DGet(d, isz, j1, j2))
  {
    var r := DSet(d, isz, k1, k2, data).value;
    PairsWithGet(DPairs(d), k1, k2, data, j1, j2);
    GetIsPairGet(r, isz, k1, k2);
    GetIsPairGet(r, isz, j1, j2);
    GetIsPairGet(d, isz, j1, j2);
  }

  lemma PairsWithoutGet<V>(p: map<string, map<string, V>>, k1: string, k2: string,
                           j1: string, j2: string)
    requires k1 in p
    ensures var q := if p[k1] - {k2} == map[] then p - {k1} else p[k1 := p[k1] - {k2}];
      && PairGet(q, k1, k2) == Err(KeyError)
      && ((j1, j2) != (k1, k2) ==> PairGet(q, j1, j2) == PairGet(p, j1, j2))
  {
    if p[k1] - {k2} == map[] {
      var q := p - {k1};
      assert k1 !in q;
      if (j1, j2) != (k1, k2) && j1 == k1 {
        assert j2 !in p[k1] by { assert j2 !in p[k1] - {k2}; }
      }
    } else {
      var q := p[k1 := p[k1] - {k2}];
      assert k2 !in q[k1];
      if (j1, j2) != (k1, k2) && j1 == k1 {
        assert (j2 in q[k1]) == (j2 in p[k1]);
      }
    }
  }

  /** After a successful `del d[k1, k2]`, reading (k1, k2) raises KeyError, and every other
      pair reads as it did before. */
  lemma DeleteThenGet<V>(d: Top<V>, isz: seq<nat>, k1: string, k2: string,
                         j1: string, j2: string)
    requires DValid(d, isz) && DDelete(d, isz, k1, k2).Ok?
    ensures var r := DDelete(d, isz, k1, k2).value;
      && DGet(r, isz, k1, k2) == Err(KeyError)
      && ((j1, j2) != (k1, k2) ==> DGet(r, isz, j1, j2) == DGet(d, isz, j1, j2))
  {
    var r := DDelete(d, isz, k1, k2).value;
    PairsWithoutGet(DPairs(d), k1, k2, j1, j2);
    GetIsPairGet(r, isz, k1, k2);
    GetIsPairGet(r, isz, j1, j2);
    GetIsPairGet(d, isz, j1, j2);
  }

  lemma WithThenWithout<V>(p: map<string, map<string, V>>, k1: string, k2: string, data: V)
    requires k1 in p ==> k2 !in p[k1] && p[k1] != map[]
    ensures var q := p[k1 := (if k1 in p then p[k1] else map[])[k2 := data]];
      && k1 in q && k2 in q[k1]
      && (if q[k1] - {k2} == map[] then q - {k1} else q[k1 := q[k1] - {k2}]) == p
  {
    var q := p[k1 := (if k1 in p then p[k1] else map[])[k2 := data]];
    if k1 in p {
      assert q[k1] - {k2} == p[k1];
      assert q[k1 := p[k1]] == p;
    } else {
      assert q[k1] - {k2} == map[];
      assert q - {k1} == p;
    }
  }

  /** Storing a new pair and then deleting it gives back the pairs held before. */
  lemma SetThenDelete<V>(d: Top<V>, isz: seq<nat>, k1: string, k2: string, data: V)
    requires DValid(d, isz) && DGet(d, isz, k1, k2).Err? && DSet(d, isz, k1, k2, data).Ok?
    ensures var r := DSet(d, isz, k1, k2, data).value;
      DDelete(r, isz, k1, k2).Ok? && DPairs(DDelete(r, isz, k1, k2).value) == DPairs(d)
  {
    var r := DSet(d, isz, k1, k2, data).value;
    GetIsPairGet(d, isz, k1, k2);
    if k1 in DPairs(d) {
      assert Inner(TableMap(d)[k1], isz);
    }
    WithThenWithout(DPairs(d), k1, k2, data);
  }
  lemma PairsWithSize<V>(p: map<string, map<string, V>>, k1: string, k2: string, data: V)
    ensures var q := p[k1 := (if k1 in p then p[k1] else map[])[k2 := data]];
      && |q| == |p| + (if k1 in p then 0 else 1)
      && (k1 in p && k2 in p[k1] ==> |q[k1]| == |p[k1]|)
  {
    var q := p[k1 := (if k1 in p then p[k1] else map[])[k2 := data]];
    if k1 in p {
      assert q.Keys == p.Keys;
      if k2 in p[k1] {
        assert q[k1].Keys == p[k1].Keys;
      }
    } else {
      assert q.Keys == p.Keys + {k1};
    }
  }

  /** A set adds one to the top-level count exactly when its first key is new, and overwriting
      a stored pair leaves the number of second keys under its first key as it was. */
  lemma SetCounts<V>(d: Top<V>, isz: seq<nat>, k1: string, k2: string, data: V)
    requires DValid(d, isz) && DSet(d, isz, k1, k2, data).Ok?
    ensures var r := DSet(d, isz, k1, k2, data).value;
      && r.count == d.count + (if k1 in DPairs(d) then 0 else 1)
      && (k1 in DPairs(d) && k2 in DPairs(d)[k1] ==> |DPairs(r)[k1]| == |DPairs(d)[k1]|)
  {
    var r := DSet(d, isz, k1, k2, data).value;
    DLenIsKeys(d, isz);
    DLenIsKeys(r, isz);
    PairsWithSize(DPairs(d), k1, k2, data);
  }
}
