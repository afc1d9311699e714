/** `InfiniteHashTable`: a trie of 27-slot nodes. A key goes to the slot chosen by its
    character at the node's level, or to the last slot once the key is used up; when two keys
    meet in one slot they move into a child node one level deeper, and further down while they
    still meet. A node is a value: each slot holds nothing, an entry, or the child node itself. */
module InfiniteHashTables {
  import opened Common

  /** `TABLE_SIZE`. */
  const TableSize: nat := 27

  /** `hash`: the character at `level` modulo 26, or the terminal slot 26 past the key's end. */
  function Hash(level: nat, key: string): (h: nat)
    ensures h < TableSize
    ensures h == TableSize - 1 <==> level >= |key|
  {
    if level < |key| then (key[level] as int) % (TableSize - 1) else TableSize - 1
  }

  datatype Slot<V> = Empty | Leaf(key: string, value: V) | Child(node: Node<V>)

  datatype Node<V> = Node(level: nat, slots: seq<Slot<V>>)

  /** Every node on the way down has 27 slots. */
  ghost predicate Shaped<V>(n: Node<V>)
  {
    && |n.slots| == TableSize
    && forall p :: 0 <= p < TableSize && n.slots[p].Child? ==> Shaped(n.slots[p].node)
  }

  /** No slot of the node is in use (`len(table) == 0`). */
  predicate NoEntries<V>(n: Node<V>)
  {
    forall p :: 0 <= p < |n.slots| ==> n.slots[p].Empty?
  }

  /** The keys stored in a node, slot by slot, a child's keys in place of the child. */
  function AllKeys<V>(n: Node<V>): seq<string>
  {
    KeysUpTo(n, |n.slots|)
  }

  function KeysUpTo<V>(n: Node<V>, i: nat): seq<string>
    requires i <= |n.slots|
  {
    if i == 0 then [] else KeysUpTo(n, i - 1) + SlotKeys(n.slots[i - 1])
  }

  function SlotKeys<V>(s: Slot<V>): seq<string>
  {
    match s
    case Empty => []
    case Leaf(k, _) => [k]
    case Child(c) => AllKeys(c)
  }

  /** Each entry sits in the slot its key hashes to at its node's level; a child is one level
      deeper, is never left without entries, holds only keys that hash to the child's slot, and
      never sits in the terminal slot, where the keys are used up and cannot be told apart. */
  ghost predicate TrieValid<V>(n: Node<V>)
    decreases n
  {
    && Shaped(n)
    && forall p :: 0 <= p < TableSize ==> SlotValid(n.level, p, n.slots[p])
  }

  ghost predicate SlotValid<V>(level: nat, p: nat, s: Slot<V>)
    decreases s
  {
    match s
    case Empty => true
    case Leaf(k, _) => Hash(level, k) == p
    case Child(c) =>
      && p < TableSize - 1 && c.level == level + 1 && TrieValid(c) && !NoEntries(c)
      && forall k :: k in AllKeys(c) ==> Hash(level, k) == p
  }

  /** `InfiniteHashTable(level)`: a node with 27 empty slots. */
  function NewNode<V>(level: nat): (n: Node<V>)
    ensures n.level == level && |n.slots| == TableSize && NoEntries(n)
  {
    Node(level, seq(TableSize, _ => Empty))
  }

  /** A fresh node is valid and finds no key. */
  lemma NewNodeEmpty<V>(level: nat, key: string)
    ensures TrieValid(NewNode<V>(level)) && Find(NewNode<V>(level), key) == None
  {
    var n := NewNode<V>(level);
    assert forall p :: 0 <= p < TableSize ==> n.slots[p] == Empty;
  }

  /** The entry stored for `key`: follow the key's slots down to an entry; None when the slot
      on the way is empty or holds another key. */
  function Find<V>(n: Node<V>, key: string): Option<V>
    requires Shaped(n)
  {
    match n.slots[Hash(n.level, key)]
    case Empty => None
    case Leaf(k, v) => if k == key then Some(v) else None
    case Child(c) => Find(c, key)
  }

  /** `__getitem__`: at a node whose level is past the key's length none of the branches of
      lines 22-25 applies and the result is None (lines 26-27), even for a key set there, which
      `__setitem__` stores in the terminal slot; otherwise the entry stored for the key. */
  function GetItem<V>(n: Node<V>, key: string): (r: Option<V>)
    requires Shaped(n)
    ensures n.level > |key| ==> r == None
    ensures n.level <= |key| ==> r == Find(n, key)
  {
    if n.level > |key| then None else Find(n, key)
  }

  /** Some level from `level` on, below the end of the longer key, sends the two keys to
      different slots. */
  function Differ(a: string, b: string, level: nat): bool
    decreases (if |a| > |b| then |a| else |b|) - level
  {
    if level >= |a| && level >= |b| then false
    else Hash(level, a) != Hash(level, b) || Differ(a, b, level + 1)
  }

  /** Lines 45-47: a node one level down whose only entry is the dislodged one. */
  function OneLeaf<V>(level: nat, key: string, value: V): (c: Node<V>)
    ensures Shaped(c) && c.level == level
  {
    var c := NewNode<V>(level);
    c.(slots := c.slots[Hash(level, key) := Leaf(key, value)])
  }

  /** Lines 45-48: (b, vb) set into the one-entry node holding (a, va), which splits again
      while the two keys still share a slot. */
  function Split<V>(level: nat, a: string, va: V, b: string, vb: V): (c: Node<V>)
    requires Differ(a, b, level)
    ensures Shaped(c) && c.level == level && !c.slots[Hash(level, a)].Empty?
    decreases (if |a| > |b| then |a| else |b|) - level
  {
    var c := OneLeaf(level, a, va);
    var ha, hb := Hash(level, a), Hash(level, b);
    if ha != hb then c.(slots := c.slots[hb := Leaf(b, vb)])
    else c.(slots := c.slots[ha := Child(Split(level + 1, a, va, b, vb))])
  }

  /** `__setitem__` as intended: an empty slot takes the entry, the entry of the same key is
      overwritten, a child receives the entry recursively, and an entry of another key is
      replaced by a child holding both (lines 39-49). RecursionError when the two keys can
      never be told apart, where the Python recursion has no bottom. */
  function Insert<V>(n: Node<V>, key: string, value: V): (r: Result<Node<V>>)
    requires Shaped(n)
    ensures r.Ok? ==> Shaped(r.value) && r.value.level == n.level
    ensures r.Err? ==> r.error == RecursionError
  {
    var p := Hash(n.level, key);
    match n.slots[p]
    case Empty => Ok(n.(slots := n.slots[p := Leaf(key, value)]))
    case Leaf(k, v) =>
      if k == key then Ok(n.(slots := n.slots[p := Leaf(key, value)]))
      else if Differ(k, key, n.level + 1) then
        Ok(n.(slots := n.slots[p := Child(Split(n.level + 1, k, v, key, value))]))
      else Err(RecursionError)
    case Child(c) =>
      match Insert(c, key, value)
      case Err(e) => Err(e)
      case Ok(c2) => Ok(n.(slots := n.slots[p := Child(c2)]))
  }

  /** The level at which the search for `key` stops. */
  function StopLevel<V>(n: Node<V>, key: string): nat
    requires Shaped(n)
  {
    match n.slots[Hash(n.level, key)]
    case Child(c) => StopLevel(c, key)
    case _ => n.level
  }

  /** `__delitem__`: the key's entry is removed, and a child left with no entries is removed
      from its parent (lines 56-57). At a node whose level is the key's length, an absent key
      raises KeyError (lines 52-53); at a lower level it changes nothing (line 54); at a node
      whose level is past the key's length neither branch runs and nothing happens. */
  function Remove<V>(n: Node<V>, key: string): (r: Result<Node<V>>)
    requires Shaped(n)
    ensures r.Ok? ==> Shaped(r.value) && r.value.level == n.level
    ensures r.Err? ==> r.error == KeyError
    ensures n.level > |key| ==> r == Ok(n)
  {
    var p := Hash(n.level, key);
    if n.level > |key| then Ok(n)
    else match n.slots[p]
      case Empty => Missing(n, key)
      case Leaf(k, _) => if k == key then Ok(n.(slots := n.slots[p := Empty])) else Missing(n, key)
      case Child(c) =>
        match Remove(c, key)
        case Err(e) => Err(e)
        case Ok(c2) => Ok(n.(slots := n.slots[p := if NoEntries(c2) then Empty else Child(c2)]))
  }

  /** An absent key: KeyError at the level of the key's length (line 53), nothing otherwise. */
  function Missing<V>(n: Node<V>, key: string): Result<Node<V>>
  {
    if n.level == |key| then Err(KeyError) else Ok(n)
  }

  /** `get_location`: the key's slot here, followed by its slots in the child it descends to.
      In a valid node the location has one index per level from the node down to where the
      key's search stops, and the i-th index is the key's hash at the i-th level below. */
  function Location<V>(n: Node<V>, key: string): (r: seq<nat>)
    requires Shaped(n)
    ensures |r| >= 1 && r[0] == Hash(n.level, key)
    ensures TrieValid(n) ==>
      && |r| == StopLevel(n, key) - n.level + 1
      && forall i :: 0 <= i < |r| ==> r[i] == Hash(n.level + i, key)
  {
    var p := Hash(n.level, key);
    assert TrieValid(n) ==> SlotValid(n.level, p, n.slots[p]);
    [p] + (if n.level < |key| && n.slots[p].Child? then Location(n.slots[p].node, key) else [])
  }

  /** `sort_keys`: every key of the subtree, children's keys spliced in, then sorted (lines
      65-73). The in-place `keys.sort()` is SortStrings on the collected list. */
  method SortKeysOf<V>(n: Node<V>) returns (keys: seq<string>)
    ensures Ascending(keys) && multiset(keys) == multiset(AllKeys(n))
    decreases n
  {
    keys := [];
    for p := 0 to |n.slots|
      invariant multiset(keys) == multiset(KeysUpTo(n, p))
    {
      match n.slots[p]
      case Empty =>
      case Leaf(k, _) =>
        keys := keys + [k];
      case Child(c) =>
        var sub := SortKeysOf(c);
        keys := keys + sub;
    }
    keys := SortStrings(keys);
  }

  // ----- Python's ordering of strings, and sorting -----

  /** `a <= b` on Python strings: lexicographic by character code, a prefix first. */
  predicate StrLe(a: string, b: string)
    decreases |a|
  {
    a == [] || (b != [] && (a[0] < b[0] || (a[0] == b[0] && StrLe(a[1..], b[1..]))))
  }

  lemma {:induction false} StrLeTotal(a: string, b: string)
    ensures StrLe(a, b) || StrLe(b, a)
    decreases |a|
  {
    if a != [] && b != [] && a[0] == b[0] {
      StrLeTotal(a[1..], b[1..]);
    }
  }

  predicate Ascending(s: seq<string>)
  {
    forall i :: 0 < i < |s| ==> StrLe(s[i - 1], s[i])
  }

  /** `x` inserted before the first element of `s` it does not exceed. */
  function InsertSorted(x: string, s: seq<string>): (r: seq<string>)
    requires Ascending(s)
    ensures Ascending(r) && multiset(r) == multiset(s) + multiset{x}
    ensures |r| == |s| + 1 && (r[0] == x || (s != [] && r[0] == s[0]))
  {
    if s == [] || StrLe(x, s[0]) then [x] + s
    else
      StrLeTotal(x, s[0]);
      assert s == [s[0]] + s[1..];
      [s[0]] + InsertSorted(x, s[1..])
  }

  /** `list.sort()`: an ascending permutation. */
  function SortStrings(s: seq<string>): (r: seq<string>)
    ensures Ascending(r) && multiset(r) == multiset(s)
  {
    if s == [] then []
    else
      assert s == s[..|s| - 1] + [s[|s| - 1]];
      InsertSorted(s[|s| - 1], SortStrings(s[..|s| - 1]))
  }

  // ----- the keys of a node -----

  lemma {:induction false} KeysIn<V>(n: Node<V>, i: nat, p: nat, k: string)
    requires p < i <= |n.slots| && k in SlotKeys(n.slots[p])
    ensures k in KeysUpTo(n, i)
    decreases i
  {
    if p < i - 1 {
      KeysIn(n, i - 1, p, k);
    }
  }

  lemma {:induction false} KeysFrom<V>(n: Node<V>, i: nat, k: string) returns (p: nat)
    requires i <= |n.slots| && k in KeysUpTo(n, i)
    ensures p < i && k in SlotKeys(n.slots[p]) && !n.slots[p].Empty?
    decreases i
  {
    if k in SlotKeys(n.slots[i - 1]) {
      p := i - 1;
    } else {
      p := KeysFrom(n, i - 1, k);
    }
  }

  /** The listed keys are exactly the keys a lookup finds. */
  lemma {:induction false} KeysExact<V>(n: Node<V>, k: string)
    requires TrieValid(n)
    ensures k in AllKeys(n) <==> Find(n, k).Some?
    decreases n
  {
    var p := Hash(n.level, k);
    assert SlotValid(n.level, p, n.slots[p]);
    if Find(n, k).Some? {
      match n.slots[p]
      case Empty =>
      case Leaf(_, _) =>
        KeysIn(n, TableSize, p, k);
      case Child(c) =>
        KeysExact(c, k);
        KeysIn(n, TableSize, p, k);
    }
    if k in AllKeys(n) {
      var q := KeysFrom(n, TableSize, k);
      assert SlotValid(n.level, q, n.slots[q]);
      match n.slots[q]
      case Empty =>
      case Leaf(_, _) =>
      case Child(c) =>
        KeysExact(c, k);
    }
  }

  /** A key listed in slot `p` hashes to `p`. */
  lemma SlotHash<V>(n: Node<V>, p: nat, k: string)
    requires TrieValid(n) && p < TableSize
    ensures k in SlotKeys(n.slots[p]) ==> Hash(n.level, k) == p
  {
    assert SlotValid(n.level, p, n.slots[p]);
  }

  /** `__getitem__` gives a value exactly for a listed key no shorter than the node's level. */
  lemma GetItemListed<V>(n: Node<V>, key: string)
    requires TrieValid(n)
    ensures GetItem(n, key).Some? <==> n.level <= |key| && key in AllKeys(n)
  {
    KeysExact(n, key);
  }

  /** A key is not listed in the slots before the one it hashes to. */
  lemma {:induction false} KeysBefore<V>(n: Node<V>, j: nat, k: string)
    requires TrieValid(n) && j <= Hash(n.level, k)
    ensures k !in KeysUpTo(n, j)
    decreases j
  {
    if j > 0 {
      KeysBefore(n, j - 1, k);
      SlotHash(n, j - 1, k);
    }
  }

  /** No key is listed twice. */
  lemma {:induction false} KeysOnce<V>(n: Node<V>, i: nat)
    requires TrieValid(n) && i <= TableSize
    ensures forall k :: multiset(KeysUpTo(n, i))[k] <= 1
    decreases n, i
  {
    if i > 0 {
      KeysOnce(n, i - 1);
      var s := n.slots[i - 1];
      if s.Child? {
        assert SlotValid(n.level, i - 1, s);
        KeysOnce(s.node, TableSize);
        assert SlotKeys(s) == KeysUpTo(s.node, TableSize);
      }
      forall k
        ensures multiset(KeysUpTo(n, i))[k] <= 1
      {
        SlotOnce(n, i, k);
      }
    }
  }

  /** The keys of one more slot add no second copy of a key. */
  lemma SlotOnce<V>(n: Node<V>, i: nat, k: string)
    requires TrieValid(n) && 0 < i <= TableSize
    requires multiset(KeysUpTo(n, i - 1))[k] <= 1 && multiset(SlotKeys(n.slots[i - 1]))[k] <= 1
    ensures multiset(KeysUpTo(n, i))[k] <= 1
  {
    assert KeysUpTo(n, i) == KeysUpTo(n, i - 1) + SlotKeys(n.slots[i - 1]);
    SlotHash(n, i - 1, k);
    if k in SlotKeys(n.slots[i - 1]) {
      KeysBefore(n, i - 1, k);
    }
  }

  // ----- setting -----

  lemma {:induction false} SameNeverDiffers(a: string, level: nat)
    ensures !Differ(a, a, level)
    decreases |a| - level
  {
    if level < |a| {
      SameNeverDiffers(a, level + 1);
    }
  }

  /** Split is the recursive `__setitem__` of line 48 into the one-entry child of lines 45-47. */
  lemma SplitIsInsert<V>(level: nat, a: string, va: V, b: string, vb: V)
    requires Differ(a, b, level)
    ensures Insert(OneLeaf(level, a, va), b, vb) == Ok(Split(level, a, va, b, vb))
  {
    SameNeverDiffers(a, level);
  }

  /** A split node finds exactly its two entries. */
  lemma {:induction false} SplitFind<V>(level: nat, a: string, va: V, b: string, vb: V, j: string)
    requires Differ(a, b, level)
    ensures Find(Split(level, a, va, b, vb), j)
            == if j == a then Some(va) else if j == b then Some(vb) else None
    decreases (if |a| > |b| then |a| else |b|) - level
  {
    SameNeverDiffers(a, level);
    if Hash(level, a) == Hash(level, b) && Hash(level, j) == Hash(level, a) {
      SplitFind(level + 1, a, va, b, vb, j);
    }
  }

  lemma {:induction false} SplitValid<V>(level: nat, a: string, va: V, b: string, vb: V)
    requires Differ(a, b, level)
    ensures TrieValid(Split(level, a, va, b, vb))
    ensures forall k :: k in AllKeys(Split(level, a, va, b, vb)) <==> k == a || k == b
    decreases (if |a| > |b| then |a| else |b|) - level
  {
    var c := Split(level, a, va, b, vb);
    if Hash(level, a) == Hash(level, b) {
      SplitValid(level + 1, a, va, b, vb);
    }
    forall p | 0 <= p < TableSize
      ensures SlotValid(level, p, c.slots[p])
    {
    }
    forall k
      ensures k in AllKeys(c) <==> k == a || k == b
    {
      KeysExact(c, k);
      SplitFind(level, a, va, b, vb, k);
    }
  }

  /** After a successful set, the key finds the new value and every other key finds what it
      found before. */
  lemma {:induction false} InsertFind<V>(n: Node<V>, key: string, value: V, j: string)
    requires Shaped(n) && Insert(n, key, value).Ok?
    ensures Find(Insert(n, key, value).value, j) == if j == key then Some(value) else Find(n, j)
    decreases n
  {
    var p := Hash(n.level, key);
    if Hash(n.level, j) == p {
      match n.slots[p]
      case Empty =>
      case Leaf(k, v) =>
        if k != key {
          SplitFind(n.level + 1, k, v, key, value, j);
        }
      case Child(c) =>
        InsertFind(c, key, value, j);
    }
  }

  lemma HasEntries<V>(c: Node<V>, k: string)
    requires k in AllKeys(c)
    ensures !NoEntries(c)
  {
    var q := KeysFrom(c, |c.slots|, k);
  }

  /** A set keeps the node valid and adds its key to the listed keys. */
  lemma {:induction false} InsertValid<V>(n: Node<V>, key: string, value: V)
    requires TrieValid(n) && Insert(n, key, value).Ok?
    ensures TrieValid(Insert(n, key, value).value)
    ensures forall k :: k in AllKeys(Insert(n, key, value).value) <==> k == key || k in AllKeys(n)
    decreases n
  {
    var r := Insert(n, key, value).value;
    var p := Hash(n.level, key);
    assert SlotValid(n.level, p, n.slots[p]);
    match n.slots[p] {
      case Empty =>
      case Leaf(k, v) =>
        if k != key {
          SplitValid(n.level + 1, k, v, key, value);
        }
      case Child(c) =>
        InsertValid(c, key, value);
        HasEntries(Insert(c, key, value).value, key);
    }
    forall q | 0 <= q < TableSize
      ensures SlotValid(n.level, q, r.slots[q])
    {
      if q != p {
        assert r.slots[q] == n.slots[q];
        assert SlotValid(n.level, q, n.slots[q]);
      }
    }
    assert TrieValid(r);
    forall k
      ensures k in AllKeys(r) <==> k == key || k in AllKeys(n)
    {
      KeysExact(r, k);
      KeysExact(n, k);
      InsertFind(n, key, value, k);
    }
  }

  /** Setting a key that is already stored never fails. */
  lemma {:induction false} ResetSucceeds<V>(n: Node<V>, key: string, value: V)
    requires Shaped(n) && Find(n, key).Some?
    ensures Insert(n, key, value).Ok?
    decreases n
  {
    match n.slots[Hash(n.level, key)]
    case Child(c) =>
      ResetSucceeds(c, key, value);
    case _ =>
  }

  /** A set fails only for a stored key that no level from here on tells apart from it ... */
  lemma {:induction false} InsertBlocked<V>(n: Node<V>, key: string, value: V) returns (k: string)
    requires TrieValid(n) && Insert(n, key, value).Err?
    ensures Find(n, k).Some? && k != key && !Differ(k, key, n.level)
    decreases n
  {
    var p := Hash(n.level, key);
    assert SlotValid(n.level, p, n.slots[p]);
    match n.slots[p]
    case Empty =>
    case Leaf(k1, _) =>
      k := k1;
    case Child(c) =>
      k := InsertBlocked(c, key, value);
      KeysExact(c, k);
  }

  /** ... and for every such key it does fail. */
  lemma {:induction false} BlockedInsert<V>(n: Node<V>, key: string, value: V, k: string)
    requires TrieValid(n) && Find(n, k).Some? && k != key && !Differ(k, key, n.level)
    ensures Insert(n, key, value) == Err(RecursionError)
    decreases n
  {
    var p := Hash(n.level, key);
    assert SlotValid(n.level, p, n.slots[p]);
    match n.slots[p]
    case Child(c) =>
      BlockedInsert(c, key, value, k);
    case _ =>
  }

  // ----- deleting -----

  /** After a successful delete, the key finds nothing and every other key finds what it found
      before; a table whose level is past the key's length is left as it was. */
  lemma {:induction false} RemoveFind<V>(n: Node<V>, key: string, j: string)
    requires TrieValid(n) && Remove(n, key).Ok?
    ensures Find(Remove(n, key).value, j) == if j == key && n.level <= |key| then None else Find(n, j)
    decreases n
  {
    var p := Hash(n.level, key);
    assert SlotValid(n.level, p, n.slots[p]);
    if n.level <= |key| && Hash(n.level, j) == p {
      match n.slots[p]
      case Child(c) =>
        RemoveFind(c, key, j);
      case _ =>
    }
  }

  /** The search for a key stops at the node's level or below it, and at the node itself once
      the key is used up. */
  lemma {:induction false} StopDepth<V>(n: Node<V>, key: string)
    requires TrieValid(n)
    ensures StopLevel(n, key) >= n.level
    ensures n.level >= |key| ==> StopLevel(n, key) == n.level
    decreases n
  {
    var p := Hash(n.level, key);
    assert SlotValid(n.level, p, n.slots[p]);
    if n.slots[p].Child? {
      StopDepth(n.slots[p].node, key);
    }
  }

  /** KeyError exactly when the key is absent and its search stops at the level of the key's
      length. */
  lemma {:induction false} RemoveFails<V>(n: Node<V>, key: string)
    requires TrieValid(n)
    ensures Remove(n, key).Err? <==> Find(n, key).None? && StopLevel(n, key) == |key|
    decreases n
  {
    StopDepth(n, key);
    var p := Hash(n.level, key);
    assert SlotValid(n.level, p, n.slots[p]);
    if n.level <= |key| && n.slots[p].Child? {
      RemoveFails(n.slots[p].node, key);
    }
  }

  /** A delete keeps the node valid, so no child is left without entries, and removes the key
      from the listed keys unless the node's level is past the key's length. */
  lemma {:induction false} RemoveValid<V>(n: Node<V>, key: string)
    requires TrieValid(n) && Remove(n, key).Ok?
    ensures TrieValid(Remove(n, key).value)
    ensures forall k :: k in AllKeys(Remove(n, key).value) <==> (k != key || n.level > |key|) && k in AllKeys(n)
    decreases n
  {
    var r := Remove(n, key).value;
    var p := Hash(n.level, key);
    assert SlotValid(n.level, p, n.slots[p]);
    match n.slots[p] {
      case Child(c) =>
        RemoveValid(c, key);
      case _ =>
    }
    forall q | 0 <= q < TableSize
      ensures SlotValid(n.level, q, r.slots[q])
    {
      if q != p {
        assert r.slots[q] == n.slots[q];
        assert SlotValid(n.level, q, n.slots[q]);
      }
    }
    assert TrieValid(r);
    forall k
      ensures k in AllKeys(r) <==> (k != key || n.level > |key|) && k in AllKeys(n)
    {
      KeysExact(r, k);
      KeysExact(n, k);
      RemoveFind(n, key, k);
    }
  }

  // ----- the table object -----

  /** An `InfiniteHashTable` whose own 27 slots are an array written in place; the nodes below
      it are values. Each method acts on the table's value as the function it names does. */
  class InfiniteHashTable<V> {
    const level: nat
    const slots: array<Slot<V>>

    /** The table as a node value. */
    ghost function Value(): Node<V>
      reads slots
    {
      Node(level, slots[..])
    }

    ghost predicate Valid()
      reads slots
    {
      TrieValid(Value())
    }

    /** `InfiniteHashTable(level)`: 27 empty slots, at level 0 when `level` is None. */
    constructor (level: Option<nat>)
      ensures Valid() && fresh(slots)
      ensures Value() == NewNode(if level.Some? then level.value else 0)
    {
      this.level := if level.Some? then level.value else 0;
      slots := new Slot<V>[TableSize](_ => Empty);
      new;
      assert slots[..] == NewNode<V>(this.level).slots;
      NewNodeEmpty<V>(this.level, "");
    }

    /** `__getitem__`. */
    method Get(key: string) returns (r: Option<V>)
      requires Valid()
      ensures r == GetItem(Value(), key)
    {
      if level > |key| {
        return None;
      }
      var position := Hash(level, key);
      match slots[position]
      case Empty => r := None;
      case Leaf(k, v) => r := if k == key then Some(v) else None;
      case Child(c) => r := Find(c, key);
    }

    /** `__setitem__` as intended (see Insert). */
    method Set(key: string, value: V) returns (r: Result<()>)
      requires Valid()
      modifies slots
      ensures r.Ok? == Insert(old(Value()), key, value).Ok?
      ensures r.Ok? ==> Valid() && Value() == Insert(old(Value()), key, value).value
      ensures r.Err? ==> r.error == RecursionError && Value() == old(Value())
    {
      ghost var n := Value();
      var position := Hash(level, key);
      match slots[position] {
        case Empty =>
          slots[position] := Leaf(key, value);
        case Leaf(k, v) =>
          if k == key {
            slots[position] := Leaf(key, value);
          } else if Differ(k, key, level + 1) {
            slots[position] := Child(Split(level + 1, k, v, key, value));
          } else {
            return Err(RecursionError);
          }
        case Child(c) =>
          var child := Insert(c, key, value);
          if child.Err? {
            return Err(child.error);
          }
          slots[position] := Child(child.value);
      }
      assert Value() == Insert(n, key, value).value;
      InsertValid(n, key, value);
      return Ok(());
    }

    /** `__delitem__` (see Remove). */
    method Delete(key: string) returns (r: Result<()>)
      requires Valid()
      modifies slots
      ensures r.Ok? == Remove(old(Value()), key).Ok?
      ensures r.Ok? ==> Valid() && Value() == Remove(old(Value()), key).value
      ensures r.Err? ==> r.error == KeyError && Value() == old(Value())
    {
      ghost var n := Value();
      if level > |key| {
        return Ok(());
      }
      var position := Hash(level, key);
      match slots[position] {
        case Empty =>
          if level == |key| {
            return Err(KeyError);
          }
        case Leaf(k, _) =>
          if k == key {
            slots[position] := Empty;
          } else if level == |key| {
            return Err(KeyError);
          }
        case Child(c) =>
          var child := Remove(c, key);
          if child.Err? {
            return Err(child.error);
          }
          slots[position] := if NoEntries(child.value) then Empty else Child(child.value);
      }
      assert Value() == Remove(n, key).value;
      RemoveValid(n, key);
      return Ok(());
    }

    /** `get_location`. */
    method GetLocation(key: string) returns (location: seq<nat>)
      requires Valid()
      ensures location == Location(Value(), key)
    {
      var position := Hash(level, key);
      location := [position];
      if level < |key| && slots[position].Child? {
        location := location + Location(slots[position].node, key);
      }
    }

    /** `sort_keys`: the keys of every slot, a child's sorted keys spliced in, then sorted. */
    method SortKeys() returns (keys: seq<string>)
      requires Valid()
      ensures Ascending(keys) && multiset(keys) == multiset(AllKeys(Value()))
      ensures forall k :: (k in keys <==> Find(Value(), k).Some?) && multiset(keys)[k] <= 1
    {
      keys := [];
      for p := 0 to slots.Length
        invariant multiset(keys) == multiset(KeysUpTo(Value(), p))
      {
        match slots[p]
        case Empty =>
        case Leaf(k, _) =>
          keys := keys + [k];
        case Child(c) =>
          var sub := SortKeysOf(c);
          keys := keys + sub;
      }
      keys := SortStrings(keys);
      KeysOnce(Value(), TableSize);
      forall k
        ensures k in keys <==> Find(Value(), k).Some?
      {
        KeysExact(Value(), k);
        assert k in keys <==> k in multiset(keys);
      }
    }
  }

  // ----- which keys can be told apart -----

  lemma {:induction false} DifferFrom(a: string, b: string, level: nat)
    requires level <= |a| && level <= |b|
    ensures Differ(a, b, level) <==>
            !(|a| == |b| && forall i :: level <= i < |a| ==> a[i] as int % 26 == b[i] as int % 26)
    decreases |a| - level
  {
    if level < |a| && level < |b| {
      DifferFrom(a, b, level + 1);
    }
  }

  predicate Lowercase(k: string)
  {
    forall i :: 0 <= i < |k| ==> 'a' <= k[i] <= 'z'
  }

  /** Two different keys of lowercase letters are always told apart. */
  lemma LettersDiffer(a: string, b: string)
    requires a != b && Lowercase(a) && Lowercase(b)
    ensures Differ(a, b, 0)
  {
    DifferFrom(a, b, 0);
    if |a| == |b| {
      var i :| 0 <= i < |a| && a[i] != b[i];
      LettersApart(a[i], b[i]);
    }
  }

  /** 'a' to 'z' are 26 consecutive codes, so no two of them agree modulo 26. */
  lemma LettersApart(x: char, y: char)
    requires 'a' <= x <= 'z' && 'a' <= y <= 'z' && x != y
    ensures x as int % 26 != y as int % 26
  {
    var u, v := x as int, y as int;
    assert u % 26 == (if u < 104 then u - 78 else u - 104);
    assert v % 26 == (if v < 104 then v - 78 else v - 104);
  }

  /** In a table of lowercase keys, setting a lowercase key never fails. */
  lemma LowercaseSetSucceeds<V>(n: Node<V>, key: string, value: V)
    requires TrieValid(n) && n.level == 0 && Lowercase(key)
    requires forall k :: k in AllKeys(n) ==> Lowercase(k)
    ensures Insert(n, key, value).Ok?
  {
    if Insert(n, key, value).Err? {
      var k := InsertBlocked(n, key, value);
      KeysExact(n, k);
      LettersDiffer(k, key);
    }
  }

  // ----- `__setitem__` as written -----

  /** Lines 39-49 AS WRITTEN. An empty slot takes the entry. Otherwise the child built in lines
      45-48 is discarded: line 49 puts the entry `(key[:level + 1], value)` in the slot, so the
      dislodged entry is lost and the new one is stored under a shortened key. The recursive
      call of line 48 only returns once the two keys are told apart, so a key alike to the
      slot's key (the same key included) recurses until RecursionError. A slot holding a child
      table makes line 46 index the table (TypeError); this version never creates one. */
  function SetAsWritten<V>(n: Node<V>, key: string, value: V): (r: Result<Node<V>>)
    requires Shaped(n)
    ensures r.Ok? ==> Shaped(r.value) && r.value.level == n.level
  {
    var p := Hash(n.level, key);
    match n.slots[p]
    case Empty => Ok(n.(slots := n.slots[p := Leaf(key, value)]))
    case Leaf(k, _) =>
      if Differ(k, key, n.level + 1) then
        var short := if n.level + 1 <= |key| then key[..n.level + 1] else key;
        Ok(n.(slots := n.slots[p := Leaf(short, value)]))
      else Err(RecursionError)
    case Child(_) => Err(TypeError)
  }

  /** Setting "ab" and then "ac" (both in slot 19, as 'a' is 97) leaves the entry ("a", 2) in
      slot 19, and neither key is found any more. */
  lemma LosesCollidingKeys(level: nat)
    requires level == 0
    ensures var n1 := SetAsWritten(NewNode<int>(level), "ab", 1);
      && n1.Ok? && SetAsWritten(n1.value, "ac", 2).Ok?
      && var n2 := SetAsWritten(n1.value, "ac", 2).value;
      && n2.slots[19] == Leaf("a", 2) && Find(n2, "ab") == None && Find(n2, "ac") == None
  {
    assert Hash(0, "ab") == 19 && Hash(0, "ac") == 19;
    assert Hash(1, "ab") == 20 && Hash(1, "ac") == 21;
    assert "ac"[..1] == "a";
  }

  /** With the intended set, both keys are found after the same two steps. */
  lemma KeepsCollidingKeys(level: nat)
    requires level == 0
    ensures var n1 := Insert(NewNode<int>(level), "ab", 1);
      && n1.Ok? && Insert(n1.value, "ac", 2).Ok?
      && var n2 := Insert(n1.value, "ac", 2).value;
      && Find(n2, "ab") == Some(1) && Find(n2, "ac") == Some(2)
  {
    var n0 := NewNode<int>(level);
    assert Hash(0, "ab") == 19 && Hash(0, "ac") == 19;
    assert Hash(1, "ab") == 20 && Hash(1, "ac") == 21;
    var n1 := Insert(n0, "ab", 1).value;
    InsertFind(n0, "ab", 1, "ab");
    InsertFind(n1, "ac", 2, "ab");
    InsertFind(n1, "ac", 2, "ac");
  }

  /** Setting "a" twice recurses without end. */
  lemma ResetRecurses(level: nat)
    requires level == 0
    ensures var n1 := SetAsWritten(NewNode<int>(level), "a", 1);
      n1.Ok? && SetAsWritten(n1.value, "a", 2) == Err(RecursionError)
  {
    SameNeverDiffers("a", 1);
  }
}
