# Hash tables, trails and mountains

This is a Dafny model of four components of a small Python code base. Each component comes with proofs of what it promises.

- **`DoubleKeyTable`** stores values under a pair of string keys `(k1, k2)`.
  - A top-level linear-probe table maps each `k1` to an internal linear-probe table, which maps each `k2` to the value.
  - An internal table is created on the first write under a new `k1`.
  - `k1` is removed from the top level when its internal table becomes empty.
  - Both levels use the same polynomial rolling hash. Its multiplier moves by `HASH_BASE` modulo `size - 1` after every character.
  - A table is rehashed to its next configured size when more than half of its slots are used.
- **`LinearProbeTable`** is the single-level open-addressing table that both levels of the double-key table are built from. Its source is not part of the repository, so it is modelled here from what the double-key table uses: probing, get, delete, rehash, keys, values and the count. The double-key table writes a table's `array` directly (double_key_table.py:86, 229) rather than calling its set; the modelled set is the one the rehash re-inserts with.
- **`InfiniteHashTable`** is a trie of 27-slot nodes.
  - A key goes to the slot for its character at the node's level, modulo 26. Once the key is used up it goes to the terminal slot 26.
  - Two keys that meet in one slot move into a child node one level deeper.
- **`Trail`** is an immutable structure of series (a mountain, then the rest of the trail) and splits (top branch, bottom branch, a following trail). It has pure builders and `follow_path`, a stack-based walk steered by a walker's decisions.
- **`MountainManager`** is a list of mountains with append, remove-first, edit and filter by difficulty.

## How the model is organised

| file | module | contents |
|---|---|---|
| common.dfy | `Common` | `Option`, `Result` and the error kinds (`KeyError`, `FullError`, `ValueError`, `RecursionError`, `TypeError`, `ZeroDivisionError`) |
| mountains.dfy | `Mountains` | `Mountain`; class `MountainManager` over a `seq<Mountain>` field |
| trail.dfy | `Trails` | the trail datatypes and builders; `Follow`, the walk defined by structure; `FollowPath`, the loop with an explicit stack, proved equal to `Follow` |
| probe_spec.dfy | `ProbeSpec` | the slot sequence of a linear-probe table; the rolling hash; the probe; what makes a slot sequence well formed; the mapping it holds |
| table_spec.dfy | `TableSpec` | a `LinearProbeTable` as a value (sizes, size index, slots, count), with each operation as a function |
| probe_table.dfy | `ProbeTables` | class `LinearProbeTable` over an `array`; each method is proved to act as its `TableSpec` function |
| double_key_table.dfy | `DoubleKeyTables` | the operations of the double-key table as functions on the top table's value; class `DoubleKeyTable`, which holds the top table as a `LinearProbeTable` object; the stale-slot finding |
| double_key_laws.dfy | `DoubleKeyLaws` | set/get/delete laws relating the operations to one another |
| infinite_hash_table.dfy | `InfiniteHashTables` | the trie as values (`Slot`, `Node`); its operations as functions; class `InfiniteHashTable`, whose root slots are an `array`; the setter as written, with its findings |

**Conventions shared by the model:**
- Every `ensures` is stated against the mapping a table holds:
  - `TableMap` for a linear-probe table;
  - `DPairs` (first key → second key → value) for the double-key table;
  - `Find`/`AllKeys` for the trie.
- A method on an object is proved equal to the function on the object's value: `Value() == F(old(Value()))`. The properties are then proved about `F`.
- Python exceptions become `Result` errors: `KeyError`, `FullError` (from the probe table), `ValueError` (from `list.remove`), `RecursionError` (from a recursion with no base case), `TypeError` (a child table indexed as an entry) and `ZeroDivisionError` (a hash for a table of fewer than 2 slots).

## Model

| member | source | states |
|---|---|---|
| Mountains.FirstIndex | mountain_manager.py:13 | the index is the first position holding an equal mountain; it equals the length exactly when no equal mountain is stored |
| Mountains.RemoveFirstSpec | mountain_manager.py:13 | removing the first occurrence shortens the list by one and takes exactly one copy of the mountain out of its multiset |
| Mountains.RemoveFirstRestores | mountain_manager.py:13 | re-inserting the mountain at its first index restores the list, so every other mountain keeps its place and order |
| Mountains.WithDifficulty | mountain_manager.py:19-20 | the result holds only mountains of the asked difficulty, each as often as it is stored, in stored order (a subsequence) |
| Mountains.WithDifficultyMembers | mountain_manager.py:19-20 | a mountain is in the result exactly when it is stored and has the asked difficulty |
| Mountains.MountainManager.constructor | mountain_manager.py:6-7 | the list starts empty |
| Mountains.MountainManager.AddMountain | mountain_manager.py:9-10 | the mountain is appended; earlier entries are unchanged |
| Mountains.MountainManager.RemoveMountain | mountain_manager.py:12-13 | ValueError exactly when no equal mountain is stored, and then the list is unchanged; otherwise the first equal mountain is removed and the rest keep their order |
| Mountains.MountainManager.EditMountain | mountain_manager.py:15-17 | fails as remove does, leaving the list unchanged; otherwise the old mountain is removed first and the new one appended, so the length is kept and the new mountain is last |
| Mountains.MountainManager.MountainsWithDifficulty | mountain_manager.py:19-20 | reads the list without changing it; lists exactly the stored mountains of that difficulty |
| Trails.AddMountainBefore | trail.py:84-89 | a new series whose mountain is the argument and whose following trail is the original |
| Trails.AddEmptyBranchBefore | trail.py:91-96 | a new split with two empty branches, followed by the original trail |
| Trails.RemoveBranch | trail.py:27-29 | only the split's following store remains |
| Trails.RemoveMountain | trail.py:43-48 | a new trail made of the following trail's store |
| Trails.SeriesAddMountainBefore | trail.py:50-55 | a new series with the argument first; the whole original series is its following trail |
| Trails.SeriesAddEmptyBranchBefore | trail.py:57-61 | an empty split whose following trail is the whole original series |
| Trails.SeriesAddMountainAfter | trail.py:63-68 | keeps the first mountain; the added mountain comes directly before the old following trail |
| Trails.SeriesAddEmptyBranchAfter | trail.py:70-75 | keeps the mountain; an empty split sits before the old following trail |
| Trails.AddThenRemoveMountain | trail.py:43-48 | `remove_mountain` after `Trail.add_mountain_before` gives back the original trail |
| Trails.AddThenRemoveBranch | trail.py:27-29 | `remove_branch` after `Trail.add_empty_branch_before` gives back the original store |
| Trails.SeriesAddThenRemoveMountain | trail.py:50-55 | `remove_mountain` after `TrailSeries.add_mountain_before` gives back the original series |
| Trails.AddersCountMountains | trail.py:50-75 | each mountain builder adds exactly one mountain to the trail; each branch builder adds none |
| Trails.FollowAppends | trail.py:110-125 | the walk only appends to what was collected; it appends mountains of the trail, at most one per series node |
| Trails.FollowLine | trail.py:110-113 | on a trail without splits, every mountain is reported in order and the walker is never asked |
| Trails.FollowNeverStops | trail.py:114-125 | a walker that never answers STOP walks to the end: the walk is not reported as stopped |
| Trails.FollowStopsAtFirstSplit | trail.py:115-118 | answering STOP at the first split returns at once, with exactly the mountains before it |
| Trails.RunSeries | trail.py:111-113 | one loop step at a series reports its mountain and moves to the following trail |
| Trails.RunSplit | trail.py:114-122 | one loop step at a split either stops the walk or enters the chosen branch with the split pushed |
| Trails.RunPop | trail.py:124-125 | when the current branch has run out, the walk resumes at the following trail of the most recently entered split |
| Trails.FollowPath | trail.py:98-125 | the loop with an explicit stack terminates and collects exactly what the structural walk `Follow` collects |
| ProbeSpec.HashOf | double_key_table.py:50-55 | the rolling hash lies in `[0, size)`; the empty key hashes to 0 |
| ProbeSpec.HashStateAnySize | double_key_table.py:50-55 | the hash loop at any table size raises ZeroDivisionError exactly when the key has a character and the size is 0 or 1; for a size of 2 or more it computes the rolling hash's state |
| ProbeSpec.EmptySlots | double_key_table.py:84 | a fresh table's slots are all empty |
| ProbeSpec.EmptyWellFormed | double_key_table.py:84 | a fresh table is well formed, holds the empty mapping and has count 0 |
| ProbeSpec.ProbeLookup | double_key_table.py:71-92 | a lookup probe succeeds exactly when the key is stored, and then lands on the key's slot; otherwise KeyError |
| ProbeSpec.ProbeInsert | double_key_table.py:82-91 | an insertion probe lands on the key's slot when the key is stored, and otherwise on an empty slot; FullError only when the key is absent and every slot is used |
| ProbeSpec.InsertPreserves | double_key_table.py:223-229 | writing an entry at its insertion slot keeps the table well formed, adds or replaces exactly that key and counts a newly used slot |
| ProbeSpec.OverwritePreserves | double_key_table.py:229 | giving a stored key a new value changes only that key's value and not the count |
| ProbeSpec.FillPreserves | double_key_table.py:83-87 | filling the empty slot an insertion probe stops at adds exactly that entry, keeps the slots well formed and adds one to the count |
| ProbeSpec.OccupiedIsSize | double_key_table.py:263-267 | the number of used slots is the number of stored keys |
| ProbeSpec.KeysOfSpec | double_key_table.py:118-132 | the keys in slot order are exactly the stored keys, each listed once |
| ProbeSpec.ValuesOfSpec | double_key_table.py:162-178 | the values in slot order are, position by position, the values of the keys in slot order |
| TableSpec.NewTable | double_key_table.py:84 | a fresh table at the first configured size is well formed, empty and has count 0 |
| TableSpec.Refill | double_key_table.py:220-221 | re-inserting the old entries (but one) into an empty table of a larger or equal size holds the same mapping (without the skipped key) |
| TableSpec.Rehashed | double_key_table.py:220-221 | the rehash keeps the mapping and moves to the next configured size; it changes nothing when no next size exists |
| TableSpec.Grown | double_key_table.py:226-227 | the load check keeps the mapping |
| TableSpec.CountIsSize | double_key_table.py:263-267 | a table's count is the number of keys it holds |
| TableSpec.Lookup | double_key_table.py:130 | succeeds exactly when the key is stored, with its value; KeyError otherwise |
| TableSpec.Written | double_key_table.py:223-229 | the write stores `key ↦ data` and keeps the size; FullError only when the key is absent and the table is full |
| TableSpec.WrittenAt | double_key_table.py:229 | writing at the slot the insertion probe stopped at stores `key ↦ data` |
| TableSpec.Overwritten | double_key_table.py:229 | the entry in a used slot keeps its key and takes the new value, and nothing else changes |
| TableSpec.Assigned | double_key_table.py:223-229 | a set stores `key ↦ data` whether or not it then grows; errors as `Written` |
| TableSpec.Removed | double_key_table.py:242-244 | succeeds exactly when the key is stored; then the key is gone, everything else stays and the count drops by one; KeyError otherwise |
| ProbeTables.Hash | double_key_table.py:43-69 | the character loop computes `HashOf`, so the result is in `[0, size)`; `hash1` and `hash2` differ only in the size passed |
| ProbeTables.LinearProbeTable.constructor | double_key_table.py:84 | the new table is `NewTable(sizes)` |
| ProbeTables.LinearProbeTable.LenIsSize | double_key_table.py:263-267 | `__len__` (the count) is the number of stored keys |
| ProbeTables.LinearProbeTable.LinearProbe | double_key_table.py:82-91 | the probing loop computes `Probe` on the slots |
| ProbeTables.LinearProbeTable.Get | double_key_table.py:130 | acts as `Lookup` |
| ProbeTables.LinearProbeTable.Put | double_key_table.py:229 | a step of `Set`: the write before any growth acts as `Written`; on FullError the table is unchanged |
| ProbeTables.LinearProbeTable.Fill | double_key_table.py:83-87 | filling the empty slot the probe found acts as `Written` |
| ProbeTables.LinearProbeTable.Replace | double_key_table.py:229 | acts as `Overwritten` |
| ProbeTables.LinearProbeTable.Clear | double_key_table.py:242 | a step of `Delete` and `Rehash`: every slot is empty and the count is 0 |
| ProbeTables.LinearProbeTable.PlaceOne | double_key_table.py:220-221 | a step of `Reinsert`: one old slot is re-inserted as `Place` says, and the table stays valid |
| ProbeTables.LinearProbeTable.Reinsert | double_key_table.py:220-221 | a step of `Delete` and `Rehash`: the emptied table ends up holding exactly the old entries but the skipped key, as `Refill` says |
| ProbeTables.LinearProbeTable.Rehash | double_key_table.py:220-221 | acts as `Rehashed` |
| ProbeTables.LinearProbeTable.Set | double_key_table.py:223-229 | acts as `Assigned`; on FullError the table is unchanged |
| ProbeTables.LinearProbeTable.Delete | double_key_table.py:242-244 | acts as `Removed`; on KeyError the table is unchanged |
| ProbeTables.LinearProbeTable.Keys | double_key_table.py:127 | the keys of the used slots in slot order |
| ProbeTables.LinearProbeTable.Values | double_key_table.py:172 | the values of the used slots in slot order |
| ProbeTables.LinearProbeTable.IsEmpty | double_key_table.py:243 | true exactly when the table holds no key |
| DoubleKeyTables.TableSizesValid | double_key_table.py:27 | the default sizes are each at least 2 and strictly growing |
| DoubleKeyTables.TableAt | double_key_table.py:89 | the internal table in a used top-level slot is the one the mapping gives its first key |
| DoubleKeyTables.DLocate | double_key_table.py:71-92 | the lookup probe succeeds exactly when both keys are stored, and then gives the two slots holding the pair; KeyError otherwise |
| DoubleKeyTables.DGet | double_key_table.py:193-203 | `__getitem__` gives the stored value exactly when both keys are present; KeyError otherwise |
| DoubleKeyTables.WithInternal | double_key_table.py:82-89 | in insert mode a new first key gets a fresh internal table in the probed slot, counted once at the top level; a stored first key leaves the top table untouched; the slot is used afterwards in both cases, so the test of line 215 is never true |
| DoubleKeyTables.WriteInternal | double_key_table.py:223-229 | the pair is written into the internal table, which is grown afterwards; the internal table ends up holding `k2 ↦ data`; FullError only when `k2` is new and that table is full |
| DoubleKeyTables.DSet | double_key_table.py:205-229 | an `Ok` result is valid and holds the old pairs with `(k1, k2) ↦ data`; FullError only when the top level is full for a new `k1`, or the internal table is full for a new `k2` |
| DoubleKeyTables.DDelete | double_key_table.py:231-244 | succeeds exactly when the pair is stored; the pair is removed, and `k1` too when it has no other second key; KeyError otherwise |
| DoubleKeyTables.DKeys | double_key_table.py:118-132 | without a key: exactly the first keys; with a stored key: exactly its second keys; each listed once; KeyError for a first key that is not stored |
| DoubleKeyTables.StoredPairs | double_key_table.py:171-173 | the stored pairs in top-level slot order, then internal slot order: every listed pair is stored, every stored pair is listed, and none is listed twice |
| DoubleKeyTables.TopValues | double_key_table.py:171-173 | the values collected internal table by internal table are one per stored pair: the j-th is the value of the j-th pair of `StoredPairs` |
| DoubleKeyTables.DValues | double_key_table.py:162-178 | without a key: one value per stored pair, position by position along `StoredPairs`; with a stored key: as many values as second keys under it, the j-th being the value of the j-th key `keys(key)` lists; KeyError for a first key that is not stored |
| DoubleKeyTables.DLenIsKeys | double_key_table.py:263-267 | `__len__` is the number of first keys, not the number of pairs |
| DoubleKeyTables.AssignedAsWritten | double_key_table.py:223-229 | the internal write as written: count, rehash at the new size, then a write at the slot found before the rehash |
| DoubleKeyTables.StaleSlotLosesKey | double_key_table.py:223-229 | with internal sizes [2, 5], writing `"a"` after `""` puts it in slot 1 of the rebuilt table, where a lookup of `"a"` never looks: KeyError |
| DoubleKeyTables.DoubleKeyTable.constructor | double_key_table.py:31-41 | empty; the top sizes and the internal sizes default to `TABLE_SIZES` when not given |
| DoubleKeyTables.DoubleKeyTable.Hash1 | double_key_table.py:43-55 | the rolling hash for the top-level size |
| DoubleKeyTables.DoubleKeyTable.Hash2 | double_key_table.py:57-69 | the same rolling hash, for the internal table's size |
| DoubleKeyTables.DoubleKeyTable.Locate | double_key_table.py:71-92 | `_linear_probe(k1, k2, False)` acts as `DLocate` |
| DoubleKeyTables.DoubleKeyTable.LinearProbeInsert | double_key_table.py:82-92 | `_linear_probe(k1, k2, True)`: the top table becomes `WithInternal`'s result, and the second position is the insertion probe of `k2` in that internal table |
| DoubleKeyTables.DoubleKeyTable.Get | double_key_table.py:193-203 | acts as `DGet` |
| DoubleKeyTables.DoubleKeyTable.Contains | double_key_table.py:180-191 | true exactly when both keys are present, which is exactly when `__getitem__` does not raise KeyError |
| DoubleKeyTables.DoubleKeyTable.Set | double_key_table.py:205-229 | acts as `DSet`; on FullError the table is unchanged |
| DoubleKeyTables.DoubleKeyTable.SetFound | double_key_table.py:215-229 | a step of `Set`: once both insertion probes have found their slots, the rest of the set acts as `DSet` |
| DoubleKeyTables.DoubleKeyTable.WriteAndGrow | double_key_table.py:220-229 | a step of `Set`: the internal write succeeds as `WriteInternal` says, and the top level is then grown as `Grown` says |
| DoubleKeyTables.DoubleKeyTable.WriteBack | double_key_table.py:222-229 | a step of `Set`: the internal table is written at the probed slot, grown, and stored back, as `WriteInternal` says |
| DoubleKeyTables.DoubleKeyTable.Delete | double_key_table.py:231-244 | acts as `DDelete`; on KeyError the table is unchanged |
| DoubleKeyTables.DoubleKeyTable.StoreBack | double_key_table.py:242-244 | a step of `Delete`: the internal table is stored back into its slot, and `k1` is deleted from the top level when that table is empty |
| DoubleKeyTables.DoubleKeyTable.Keys | double_key_table.py:94-132 | acts as `DKeys` |
| DoubleKeyTables.DoubleKeyTable.Values | double_key_table.py:134-178 | acts as `DValues` |
| DoubleKeyTables.DoubleKeyTable.Len | double_key_table.py:263-267 | the number of first keys |
| DoubleKeyTables.DoubleKeyTable.TableSize | double_key_table.py:256-261 | the top-level table's current size |
| DoubleKeyLaws.GetIsPairGet | double_key_table.py:193-203 | `__getitem__` reads the pair map |
| DoubleKeyLaws.SetThenGet | double_key_table.py:205-229 | after a successful set, `t[k1, k2]` is the new value and every other pair reads as before |
| DoubleKeyLaws.DeleteThenGet | double_key_table.py:231-244 | after a successful delete, `t[k1, k2]` raises KeyError and every other pair reads as before |
| DoubleKeyLaws.SetThenDelete | double_key_table.py:205-244 | setting a new pair and deleting it gives back the same pairs |
| DoubleKeyLaws.SetCounts | double_key_table.py:213-224 | a set adds one to the top-level count exactly when its first key is new; overwriting a stored pair leaves the number of second keys under `k1` unchanged |
| InfiniteHashTables.Hash | infinite_hash_table.py:16-19 | the slot is below 27, and it is the terminal slot 26 exactly when the key is no longer than the level |
| InfiniteHashTables.NewNode | infinite_hash_table.py:4-14 | 27 empty slots at the given level |
| InfiniteHashTables.NewNodeEmpty | infinite_hash_table.py:4-14 | a fresh node is valid and finds no key |
| InfiniteHashTables.KeysExact | infinite_hash_table.py:21-27 | in a valid node, the listed keys are exactly the keys `Find` locates along their slots |
| InfiniteHashTables.GetItem | infinite_hash_table.py:21-27 | `__getitem__`: None at a node whose level is past the key's length (lines 26-27), otherwise the entry stored for the key |
| InfiniteHashTables.GetItemListed | infinite_hash_table.py:21-27 | in a valid node, `__getitem__` gives a value exactly for a listed key no shorter than the node's level |
| InfiniteHashTables.KeysOnce | infinite_hash_table.py:65-73 | no key is listed twice |
| InfiniteHashTables.OneLeaf | infinite_hash_table.py:45-47 | the child of line 45 holding only the dislodged entry, one level down |
| InfiniteHashTables.Split | infinite_hash_table.py:45-48 | the child after the recursive set of line 48: shaped, at the child level, with the dislodged key's slot used |
| InfiniteHashTables.SplitIsInsert | infinite_hash_table.py:45-48 | `Split` is exactly the recursive set of line 48 into the child of lines 45-47 |
| InfiniteHashTables.SplitFind | infinite_hash_table.py:45-48 | the split child finds exactly its two entries |
| InfiniteHashTables.SplitValid | infinite_hash_table.py:45-48 | the split child is valid and lists exactly the two keys |
| InfiniteHashTables.SameNeverDiffers | infinite_hash_table.py:48 | no level tells a key apart from itself |
| InfiniteHashTables.Insert | infinite_hash_table.py:39-49 | the intended set keeps the node shaped at its level; it fails only with RecursionError |
| InfiniteHashTables.InsertFind | infinite_hash_table.py:39-49 | after a set, the key finds the new value and every other key finds what it found before |
| InfiniteHashTables.InsertValid | infinite_hash_table.py:39-49 | a set keeps the node valid and adds exactly its key to the listed keys |
| InfiniteHashTables.ResetSucceeds | infinite_hash_table.py:39-49 | setting a stored key again never fails |
| InfiniteHashTables.InsertBlocked | infinite_hash_table.py:48 | a set fails only because a stored key cannot be told apart from it at any level from here on |
| InfiniteHashTables.BlockedInsert | infinite_hash_table.py:48 | and for every such stored key, the set does fail |
| InfiniteHashTables.DifferFrom | infinite_hash_table.py:16-19 | two keys are told apart exactly when their lengths differ or some remaining characters differ modulo 26 |
| InfiniteHashTables.LettersDiffer | infinite_hash_table.py:16-19 | two different keys of lowercase letters are always told apart |
| InfiniteHashTables.LowercaseSetSucceeds | infinite_hash_table.py:39-49 | in a table of lowercase keys, setting a lowercase key never fails |
| InfiniteHashTables.Remove | infinite_hash_table.py:51-57 | the delete keeps the node shaped at its level; it fails only with KeyError; at a node whose level is past the key's length nothing happens |
| InfiniteHashTables.RemoveFind | infinite_hash_table.py:51-57 | after a delete, the key finds nothing and every other key finds what it found before; a node whose level is past the key's length is left as it was |
| InfiniteHashTables.StopDepth | infinite_hash_table.py:21-27 | in a valid node the search stops at the node's level or below, and at the node itself once the key is used up |
| InfiniteHashTables.RemoveFails | infinite_hash_table.py:52-54 | KeyError exactly when the key is absent and its search stops at the level equal to its length |
| InfiniteHashTables.RemoveValid | infinite_hash_table.py:54-57 | a delete keeps the node valid, so no child without entries is left behind, and removes exactly its key from the listed keys (none when the level is past the key's length) |
| InfiniteHashTables.Location | infinite_hash_table.py:59-63 | the location starts with the key's slot here; in a valid node it has one index per level down to where the search stops, the i-th being the key's slot at the i-th level below |
| InfiniteHashTables.StrLeTotal | infinite_hash_table.py:72 | Python's string order is total |
| InfiniteHashTables.InsertSorted | infinite_hash_table.py:72 | inserting into an ascending list gives an ascending list with one more copy of the element |
| InfiniteHashTables.SortStrings | infinite_hash_table.py:72 | `list.sort()`: an ascending permutation of its input |
| InfiniteHashTables.SortKeysOf | infinite_hash_table.py:65-73 | the collected keys, sorted: ascending, and a permutation of the listed keys |
| InfiniteHashTables.SetAsWritten | infinite_hash_table.py:39-49 | the set as written; an `Ok` result is shaped at the node's level |
| InfiniteHashTables.LosesCollidingKeys | infinite_hash_table.py:49 | setting `"ab"` then `"ac"` as written leaves `("a", 2)` in slot 19, and neither key is found |
| InfiniteHashTables.KeepsCollidingKeys | infinite_hash_table.py:39-49 | with the intended set, both keys are found after the same two steps |
| InfiniteHashTables.ResetRecurses | infinite_hash_table.py:40-48 | setting `"a"` twice as written recurses without end |
| InfiniteHashTables.InfiniteHashTable.constructor | infinite_hash_table.py:4-14 | 27 empty slots, at level 0 when `level` is None |
| InfiniteHashTables.InfiniteHashTable.Get | infinite_hash_table.py:21-27 | reads the root slots as `GetItem` does, returning None at once when the level is past the key's length |
| InfiniteHashTables.InfiniteHashTable.Set | infinite_hash_table.py:39-49 | writes the root slot in place as `Insert` does and stays valid; on RecursionError the table is unchanged |
| InfiniteHashTables.InfiniteHashTable.Delete | infinite_hash_table.py:51-57 | writes the root slot in place as `Remove` does and stays valid; on KeyError the table is unchanged |
| InfiniteHashTables.InfiniteHashTable.GetLocation | infinite_hash_table.py:59-63 | acts as `Location` |
| InfiniteHashTables.InfiniteHashTable.SortKeys | infinite_hash_table.py:65-73 | ascending; exactly the stored keys (those `Find` locates), each once |

## Left out

- `mountain_organiser.py` is not part of this model. It only wraps sorting and searching routines whose source is not in the repository.
- `MountainManager.group_by_difficulty` and the trail's `collect_all_mountains`, `difficulty_maximum_paths` and `difficulty_difference_paths` are unfinished stubs. They are not modelled.
- `DoubleKeyTable._rehash` and `DoubleKeyTable.__str__` raise `NotImplementedError` and are not modelled. The rehashes that `__setitem__` performs are the linear-probe table's own `_rehash`, which is modelled.
- `LinearProbeTable` (from `data_structures.hash_table`) is not part of the repository. The model gives it a standard behaviour:
  - a probe that walks from the home slot round the table;
  - a delete that clears the table and re-inserts the remaining entries at the same size;
  - a rehash that rebuilds at the next configured size, or changes nothing after the last one;
  - a set that grows when more than half of the slots are used.
- Installing the hash by assigning a lambda (double_key_table.py:38, 85, 131, 177) is modelled as passing the table size to one hash function.
- `iter_keys` and `iter_values` are generators. They yield the same sequences as `keys` and `values`, which are modelled; laziness is not.
- The internal tables of the double-key table are values inside the top table's slots, not separate objects. So the model does not capture an internal table object being updated in place through a shared reference. The write-back into the top-level slot stands for that aliasing.
- DoubleKeyTables.DSet models `__setitem__` in the corrected order: write the pair, then grow. The order as written is the finding below. The top-level rehash of lines 220-221 is then applied to the top table. This is weaker than the source only in that it is applied after the write rather than before, which keeps the same mapping.
- The count bump of double_key_table.py:215-216 is not modelled as a step. `WithInternal` proves the slot is always used after the insert-mode probe, so that test is never true.
- `InfiniteHashTable.count` is never updated by the source, so it is not modelled.
- The trie nodes below the root are values. Only the root's slot array is written in place. So the model does not capture the identity of child node objects.
- The source's `__getitem__`, `__delitem__`, `get_location` and `sort_keys` are written against a `self.table` dict that is never created (infinite_hash_table.py:5-6, 21-73). They are modelled over the slot array that `__setitem__` uses:
  - `__delitem__` keeps its three cases: a node at the key's length deletes a direct entry or raises KeyError (lines 52-53); a lower node descends into the child slot (line 54); a node past the key's length does nothing;
  - an entry stored in a slot above the key's length is deleted where it is found; the dict draft never stores keys there;
  - the same removal of a child left empty (lines 56-57).
- The constructor's reference to `TABLE_SIZES` and `ArrayR` (infinite_hash_table.py:8) is read as an array of `TABLE_SIZE` empty slots.
- A delete removes only a child left with no entries (infinite_hash_table.py:56-57); a child left with a single entry stays a child, and so it does in the model.
- InfiniteHashTables.SortKeysOf: lists each full key once. Line 69 as written puts the child's dict key in front of every key the child lists, `k + subkey`; those keys are already whole in the dict version (lines 23 and 31 store and read a leaf under the whole key), so it would list prefixed keys such as `"aab"` for `"ab"` under `"a"`, or raise TypeError with the integer child keys of line 35. The model does not reproduce that prefixing.
- The trie is unbounded in the source. Distinct keys that no level can tell apart recurse without end in Python. This happens when the keys have equal length and characters that agree modulo 26, e.g. `"a"` and `"{"`. The model returns `RecursionError` instead; `LettersDiffer` shows that this cannot happen for lowercase keys.
- The walker of `follow_path` (`personality`) is modelled as a function from the mountains collected so far and the two branches to a decision. Its `add_mountain` side effect is modelled as the collected sequence. `LinkedStack` is a `seq` used as a stack.
- `Mountain` is not part of the repository. It is a datatype with a name, a difficulty level and a length, compared structurally as a dataclass is.
- InfiniteHashTables.Insert: the intended set also descends into a slot that already holds a child and sets the key there. The source has no such branch; once line 49 is corrected, a third key colliding in one slot reaches line 46, which indexes the child table as a tuple (`SetAsWritten` returns TypeError there).
- InfiniteHashTables.TrieValid: a valid node never holds a child in the terminal slot 26. The intended set never puts one there, so this is an invariant of the model, not a check the source makes.
- DoubleKeyTables.DoubleKeyTable.constructor: requires each size list it is given to be non-empty, strictly increasing and made of sizes of at least 2. The source accepts any list: `[]`, a list that repeats or shrinks such as `[7, 7]` or `[13, 5]`, and a list containing 0 or 1. How such a table behaves is decided by the rehash and insertion code of `LinearProbeTable`, which is not part of this model, so those inputs are not modelled. With a size of 0 or 1 the hash itself raises ZeroDivisionError on the first non-empty key (lines 54 and 68). `ProbeSpec.HashStateAnySize` models that error, but no modelled table reaches it.
- ProbeTables.LinearProbeTable.constructor: requires the same of its size list, for the same reason.
- `IsEmpty` is modelled as `count == 0`. This assumes `is_empty` of the unshown table tests the count.

## Findings

| source | as written | input that shows it | evidently intended | confidence | as-written member | corrected member |
|---|---|---|---|---|---|---|
| double_key_table.py:223-229 | the internal table is rehashed before the write, and the write goes to `position[1]`, the slot computed for the old array | internal sizes `[2, 5]`: `t["k", ""] = 0`, then `t["k", "a"] = 1`; `"a"` lands in slot 1 of the 5-slot table, but its probe starts at slot 2, so `t["k", "a"]` raises KeyError | write the pair first, then rehash, so the pair is found afterwards | not executed | DoubleKeyTables.StaleSlotLosesKey | DoubleKeyLaws.SetThenGet |
| infinite_hash_table.py:49 | after building the child of lines 45-48, the slot is overwritten with `(key[:level+1], value)`, so the child and the dislodged entry are lost | `t["ab"] = 1`, then `t["ac"] = 2`: slot 19 holds `("a", 2)`, and neither `"ab"` nor `"ac"` is found | store the child in the slot; a later key whose slot already holds a child is then set into that child (the source has no such branch, and line 46 would index the child as a tuple) | not executed | InfiniteHashTables.LosesCollidingKeys | InfiniteHashTables.KeepsCollidingKeys |
| infinite_hash_table.py:40-48 | setting a key whose slot holds the same key treats it as a collision. It then recurses into ever deeper children, which never separate the key from itself | `t["a"] = 1`, then `t["a"] = 2`: no base case is reached | overwrite the entry of the same key | not executed | InfiniteHashTables.ResetRecurses | InfiniteHashTables.ResetSucceeds |
