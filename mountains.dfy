/** Mountains and the list-backed manager of mountain_manager.py. */
module Mountains {
  import opened Common

  /** A mountain; equality is structural, as for the source's dataclass. */
  datatype Mountain = Mountain(name: string, difficultyLevel: int, length: int)

  /** Index of the first element of `s` equal to `m`, or |s| when there is none. */
  function FirstIndex(s: seq<Mountain>, m: Mountain): (i: nat)
    ensures i <= |s|
    ensures i < |s| <==> m in s
    ensures i < |s| ==> s[i] == m
    ensures forall j :: 0 <= j < i ==> s[j] != m
  {
    if s == [] then 0
    else if s[0] == m then 0
    else 1 + FirstIndex(s[1..], m)
  }

  /** `s` with its first occurrence of `m` removed (`list.remove`). */
  function RemoveFirst(s: seq<Mountain>, m: Mountain): seq<Mountain>
    requires m in s
  {
    var i := FirstIndex(s, m);
    s[..i] + s[i + 1..]
  }

  /** Removing the first occurrence drops exactly one `m` and nothing else. */
  lemma RemoveFirstSpec(s: seq<Mountain>, m: Mountain)
    requires m in s
    ensures |RemoveFirst(s, m)| == |s| - 1
    ensures multiset(RemoveFirst(s, m)) == multiset(s) - multiset{m}
  {
    var i := FirstIndex(s, m);
    var a, b := s[..i], s[i + 1..];
    assert s == a + [m] + b;
    SpliceMultiset(a, m, b);
  }

  /** Putting `m` back at its first index restores the list: every other element keeps its
      place and order. */
  lemma RemoveFirstRestores(s: seq<Mountain>, m: Mountain)
    requires m in s
    ensures var i, r := FirstIndex(s, m), RemoveFirst(s, m);
      i <= |r| && r[..i] + [m] + r[i..] == s
  {
    var i := FirstIndex(s, m);
    var a, b := s[..i], s[i + 1..];
    assert RemoveFirst(s, m)[..i] == a;
    assert RemoveFirst(s, m)[i..] == b;
    assert s == a + [m] + b;
  }

  lemma SpliceMultiset(a: seq<Mountain>, m: Mountain, b: seq<Mountain>)
    ensures multiset(a + [m] + b) == multiset(a + b) + multiset{m}
  {
    assert a + [m] + b == a + ([m] + b);
  }

  /** `r` is `s` with some elements left out, the rest kept in order. */
  ghost predicate Subsequence(r: seq<Mountain>, s: seq<Mountain>)
    decreases |s|
  {
    if r == [] then true
    else if s == [] then false
    else if r[0] == s[0] then Subsequence(r[1..], s[1..])
    else Subsequence(r, s[1..])
  }

  /** The comprehension of `mountains_with_difficulty`. */
  function WithDifficulty(s: seq<Mountain>, diff: int): (r: seq<Mountain>)
    ensures forall i :: 0 <= i < |r| ==> r[i].difficultyLevel == diff
    ensures forall x: Mountain :: x.difficultyLevel == diff ==> multiset(r)[x] == multiset(s)[x]
    ensures Subsequence(r, s)
  {
    if s == [] then []
    else
      assert s == [s[0]] + s[1..];
      if s[0].difficultyLevel == diff then [s[0]] + WithDifficulty(s[1..], diff)
    else WithDifficulty(s[1..], diff)
  }

  /** A mountain is in the filtered list exactly when it is stored and has that difficulty. */
  lemma {:induction false} WithDifficultyMembers(s: seq<Mountain>, diff: int, x: Mountain)
    ensures x in WithDifficulty(s, diff) <==> x in s && x.difficultyLevel == diff
  {
    var r := WithDifficulty(s, diff);
    if x in r {
      var i :| 0 <= i < |r| && r[i] == x;
      assert x.difficultyLevel == diff;
      assert multiset(r)[x] > 0;
    }
    if x in s && x.difficultyLevel == diff {
      assert multiset(s)[x] > 0;
    }
  }

  class MountainManager {
    var mountains: seq<Mountain>

    constructor ()
      ensures mountains == []
    {
      mountains := [];
    }

    /** `add_mountain`: append at the end. */
    method AddMountain(m: Mountain)
      modifies this
      ensures mountains == old(mountains) + [m]
    {
      mountains := mountains + [m];
    }

    /** `remove_mountain`: `list.remove`, which raises ValueError when no equal mountain is stored. */
    method RemoveMountain(m: Mountain) returns (r: Result<()>)
      modifies this
      ensures r.Err? <==> m !in old(mountains)
      ensures r.Err? ==> r.error == ValueError && mountains == old(mountains)
      ensures r.Ok? ==> mountains == RemoveFirst(old(mountains), m)
    {
      var i := 0;
      while i < |mountains| && mountains[i] != m
        invariant 0 <= i <= |mountains|
        invariant forall j :: 0 <= j < i ==> mountains[j] != m
      {
        i := i + 1;
      }
      if i == |mountains| {
        return Err(ValueError);
      }
      assert i == FirstIndex(mountains, m);
      mountains := mountains[..i] + mountains[i + 1..];
      return Ok(());
    }

    /** `edit_mountain`: remove `old` (failing as `remove_mountain` does), then append `new`. */
    method EditMountain(oldM: Mountain, newM: Mountain) returns (r: Result<()>)
      modifies this
      ensures r.Err? <==> oldM !in old(mountains)
      ensures r.Err? ==> r.error == ValueError && mountains == old(mountains)
      ensures r.Ok? ==> mountains == RemoveFirst(old(mountains), oldM) + [newM]
      ensures r.Ok? ==> |mountains| == |old(mountains)| && mountains[|mountains| - 1] == newM
    {
      r := RemoveMountain(oldM);
      if r.Ok? {
        RemoveFirstSpec(old(mountains), oldM);
        AddMountain(newM);
      }
    }

    /** `mountains_with_difficulty`: reads the list and leaves it alone. */
    function MountainsWithDifficulty(diff: int): (r: seq<Mountain>)
      reads this
      ensures r == WithDifficulty(mountains, diff)
      ensures forall x :: x in r <==> x in mountains && x.difficultyLevel == diff
    {
      var r := WithDifficulty(mountains, diff);
      forall x ensures x in r <==> x in mountains && x.difficultyLevel == diff {
        WithDifficultyMembers(mountains, diff, x);
      }
      r
    }
  }
}
