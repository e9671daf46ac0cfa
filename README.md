# Hash tables and trails, in Dafny

This project models three components of a Python coursework repository
on hiking trails and mountains. It proves properties of each model.

- **`DoubleKeyTables`** (`double_key_table.dfy`) models the double-key
  table, which maps a pair `(k1, k2)` to a value.
  - The outer store is an array of slots, probed linearly from `hash1(k1)`.
    Each slot is empty or holds a first key with its inner table.
  - The model is a class. Its array is overwritten in place, and its
    `count` and `sizeIndex` fields are updated by the methods.
  - Two ghost fields give the meaning of the table: `Contents` (the pairs,
    grouped by first key) and `Index` (the slot of each first key).
  - `Valid()` is the table invariant. `count` is the number of occupied
    slots, each first key sits in exactly one slot, and that slot is
    reached from its hash through occupied slots only.
  - The loops of the source are methods with loop invariants: the hash
    loop, the probe, rehash reinsertion, cluster repair after a delete,
    and the listings. The array loops are module-level methods over the
    array itself, and the class methods call them.
  - The inner table (another hash table, not part of this model) is a
    `map` from second keys to values.
- **`InfiniteHashTable`** (`infinite_hash_table.dfy`) models the trie of
  27-slot tables.
  - At depth `level`, a key goes to slot `key[level] % 26`, or to slot 26
    when it is too short.
  - A slot is empty, holds a key and its value, or holds a prefix and a
    table one level deeper.
  - Tables are values (datatype `Node`), and every update returns the new
    table.
  - `WF(t, p)` is the invariant of a table reached through path `p`.
  - `Lookup` is the table's reference meaning: the value stored under
    exactly that key.
- **`Trails`** (`trail.dfy`) models the persistent trail structure.
  - A trail is empty, a mountain in series with the rest, or a split into
    two branches that rejoin.
  - The source's add and remove operations build new values and never
    change the given one. Mountains are a type parameter.

No operation performs I/O, reads a clock or uses randomness. Nothing here
is compiled or executed.

## Model

| member | source | states |
|---|---|---|
| DoubleKeyTables.PolyHash | double_key_table.py:42-54 | hash1/hash2 lie in [0, m) for any size m >= 2, and the empty key hashes to 0 |
| DoubleKeyTables.HashKey | double_key_table.py:49-54 | the rolling-hash loop (value, multiplier 31415, base 31, modulo m and m-1) computes PolyHash |
| DoubleKeyTables.DoubleKeyTable.Hash1 | double_key_table.py:42-54 | hash1 is PolyHash at the current table size, so it is a valid slot |
| DoubleKeyTables.DoubleKeyTable.Hash2 | double_key_table.py:56-68 | hash2 is PolyHash at the inner table's size and lies below that size |
| DoubleKeyTables.DoubleKeyTable.constructor | double_key_table.py:30-38 | the given sizes or TABLE_SIZES; size index 0; empty store of the first size; count 0; no pairs |
| DoubleKeyTables.DoubleKeyTable.TableSize | double_key_table.py:286-291 | table_size is the length of the current store, at least 2 |
| DoubleKeyTables.DoubleKeyTable.Len | double_key_table.py:293-297 | __len__ is the number of occupied outer slots, between 0 and table_size |
| DoubleKeyTables.CountIsKeys | double_key_table.py:293-297 | under the slot layout, count equals the number of stored first keys |
| DoubleKeyTables.Seek | double_key_table.py:77-121 | the probe loop stops at k1's own slot, at a free slot (k1 absent, the slot reachable, the table not full) or after a full round (k1 absent, every slot occupied) |
| DoubleKeyTables.ProbeOutcome | double_key_table.py:79-116 | after d probe steps that met only other keys, an empty slot means k1 is absent, the slot is reachable and the store not full; k1's own entry means its slot; a full round means k1 is absent and every slot is occupied |
| DoubleKeyTables.DoubleKeyTable.LinearProbe | double_key_table.py:70-121 | lookup returns k1's slot if (k1, k2) is stored, else KeyError, and changes nothing; insert reuses k1's slot, or places (k1, empty inner) at the first free probed slot with count + 1; FullError exactly when k1 is new and the store is full |
| DoubleKeyTables.DoubleKeyTable.Claim | double_key_table.py:85-90 | a new first key takes a free reachable slot with an empty inner table; count + 1; the invariant is kept |
| DoubleKeyTables.PlaceFirstFree | double_key_table.py:79-95 | an entry goes to a free slot reachable from its hash through occupied slots; no other slot changes |
| DoubleKeyTables.InsertInv | double_key_table.py:89-90 | placing a new key at a reachable free slot keeps the invariant, with one more key and count + 1 |
| DoubleKeyTables.ReplaceInv | double_key_table.py:238 | writing a new inner table into a stored key's slot keeps the invariant |
| DoubleKeyTables.DoubleKeyTable.GetItem | double_key_table.py:219-228 | __getitem__ returns the value stored under (k1, k2), or KeyError when the pair is not stored |
| DoubleKeyTables.DoubleKeyTable.Contains | double_key_table.py:206-217 | __contains__ holds exactly when the pair is stored |
| DoubleKeyTables.AssignPair | double_key_table.py:236-238 | after an assignment, (k1, k2) maps to v, every other pair is kept, no other pair appears, and no first key is left with an empty inner table |
| DoubleKeyTables.DoubleKeyTable.Store | double_key_table.py:238 | the stored key's slot gets the new inner table; count and slot positions are unchanged |
| DoubleKeyTables.DoubleKeyTable.Put | double_key_table.py:236-238 | the probe then the write: the contents become AssignPair, count + 1 exactly when k1 is new; FullError exactly when k1 is new and the store is full, with no change |
| DoubleKeyTables.DoubleKeyTable.SetItem | double_key_table.py:231-241 | __setitem__: Put, then a rehash exactly when 2 * count > table_size and a next size exists, ending at the first larger size that is at most half full or at the last size; otherwise the store is the same array; the invariant is kept; on FullError nothing changes |
| DoubleKeyTables.Reinsert | double_key_table.py:279-284 | the rehash loop places every entry of the old store into the empty larger store; the result holds the same pairs, with the invariant and the same count |
| DoubleKeyTables.DoubleKeyTable.Grow | double_key_table.py:279-284 | one growth step: a fresh store of the next size holds all pairs, with count and the invariant kept |
| DoubleKeyTables.DoubleKeyTable.Rehash | double_key_table.py:266-284 | _rehash grows to the next size, and again while the replay through __setitem__ finds the store more than half full, so it ends at the first larger size at most half full or at the last size; all pairs and count kept; at the last size it changes nothing |
| DoubleKeyTables.RemovePair | double_key_table.py:251-255 | after a removal, exactly the other pairs remain with their values; k1 stays exactly when another second key remains under it |
| DoubleKeyTables.DoubleKeyTable.DelItem | double_key_table.py:243-264 | __delitem__: KeyError with no change exactly when the pair is absent; otherwise the contents become RemovePair and count drops by 1 exactly when k1's inner table empties; the invariant is kept |
| DoubleKeyTables.DoubleKeyTable.Remove | double_key_table.py:251-264 | the pair is deleted from its inner table; a first key left empty is unlinked and its cluster repaired |
| DoubleKeyTables.DoubleKeyTable.Unlink | double_key_table.py:253-257 | the emptied slot is cleared, count - 1, and the repair starts at the next slot |
| DoubleKeyTables.RemoveStart | double_key_table.py:253-257 | clearing a stored key's slot leaves every other key reachable or in the run after the cleared slot |
| DoubleKeyTables.DoubleKeyTable.Repair | double_key_table.py:257-264 | the cluster repair restores the invariant without changing the pairs or count |
| DoubleKeyTables.RepairRun | double_key_table.py:257-264 | the repair loop, up to the next empty slot, ends with every key reachable from its hash |
| DoubleKeyTables.Relocate | double_key_table.py:259-263 | one repair step takes the entry at c out and writes it at a free slot its probe reaches through occupied slots, every other slot unchanged; the entry stays put or its displacement shrinks |
| DoubleKeyTables.RepairStep | double_key_table.py:259-264 | re-placing the entry at c keeps the repair invariant one slot further on |
| DoubleKeyTables.RepairDone | double_key_table.py:258 | the repair ends at an empty slot with the full invariant |
| DoubleKeyTables.DoubleKeyTable.Keys | double_key_table.py:151-156 | keys(None) lists the first keys in slot order |
| DoubleKeyTables.ListingsExact | double_key_table.py:146-156 | keys(None) lists every stored first key exactly once, count of them, and values(None)'s i-th table belongs to the i-th key |
| DoubleKeyTables.DoubleKeyTable.Values | double_key_table.py:187-197 | values(None) gives, per occupied slot in slot order, a list of exactly that inner table's values |
| DoubleKeyTables.InnerListing | double_key_table.py:140-141 | the keys and values of an inner table: every key once, each value beside its key |
| DoubleKeyTables.DoubleKeyTable.InnerTable | double_key_table.py:137-144 | the keyed probe, over table_size slots, finds k1's inner table, or KeyError when k1 is not stored |
| DoubleKeyTables.DoubleKeyTable.KeysOf | double_key_table.py:136-144 | iter_keys(k1) lists the second keys under k1, or KeyError when k1 is not stored |
| DoubleKeyTables.DoubleKeyTable.ValuesOf | double_key_table.py:178-185 | iter_values(k1) lists the values under k1, or KeyError when k1 is not stored |
| DoubleKeyTables.SetThenGet | double_key_table.py:219-241 | after a successful set, a get of the pair returns the value, and every other stored pair keeps its value across the rehash |
| DoubleKeyTables.DoubleKeyTable.RehashAsWritten | double_key_table.py:274-278 | as written, at the last size the index is raised to the length of the size list, so the store no longer has the selected size and the invariant is lost; below it, the table grows as Rehash does |
| DoubleKeyTables.DoubleKeyTable.SetItemAsWritten | double_key_table.py:231-241 | __setitem__ with that _rehash: a set that overloads the store at the last size leaves the index past the size list and the invariant lost; otherwise the invariant is kept |
| DoubleKeyTables.NestedGrowth | double_key_table.py:274-284 | with sizes [4, 5, 11], three new first keys in turn leave the table valid at size 11, since the replay finds a store of 5 still more than half full |
| DoubleKeyTables.LastSizeAsWritten | double_key_table.py:275-278 | with sizes [5], setting three new first keys leaves size index 1 = len(sizes) and the table invalid |
| InfiniteHashTable.NewTable | infinite_hash_table.py:23-29 | a table at the given level with 27 empty slots and count 0; its properties are NewTableWF's |
| InfiniteHashTable.Get | infinite_hash_table.py:40-54 | __getitem__ follows the path and returns the terminal pair's value without comparing keys; every error it returns is KeyError; the rest of its contract is GetCorrect's |
| InfiniteHashTable.Contains | infinite_hash_table.py:134-144 | __contains__ is whether the lookup succeeds; its contract is ContainsStored's |
| InfiniteHashTable.Set | infinite_hash_table.py:57-80 | __setitem__ on lower-case keys: into a child, into an empty or same-key slot, or a new child on a collision; its contracts are SetCorrect's, SetCount's and CollisionShape's |
| InfiniteHashTable.Delete | infinite_hash_table.py:84-105 | __delitem__ keeps the shape and the level, and every error it returns is KeyError; its meaning is DeleteCorrect's, DeleteCount's and CollapseShape's |
| InfiniteHashTable.Len | infinite_hash_table.py:108-109 | __len__ is the table's own counter; LenCountsSlots and LenIsNotKeyCount state what it counts |
| InfiniteHashTable.SetAsWritten | infinite_hash_table.py:57-80 | __setitem__ as written, failing on the read at line 63; its contract is SetAsWrittenOnlyOverwrites' |
| InfiniteHashTable.SortKeysAsWritten | infinite_hash_table.py:164-176 | sort_keys with its branches as written; its contract is SortKeysAsWrittenPrefixes' |
| InfiniteHashTable.Hash | infinite_hash_table.py:31-34 | the slot lies in 0..26, and is 26 exactly when level >= len(key) |
| InfiniteHashTable.NewTableWF | infinite_hash_table.py:23-29 | a new table at a level satisfies the invariant, stores no key and has length 0 |
| InfiniteHashTable.GetLocation | infinite_hash_table.py:119-131 | the path is non-empty, its j-th index is the hash at depth level + j, and it has one step exactly when the first slot holds no child |
| InfiniteHashTable.NodeAt | infinite_hash_table.py:129-131 | the table reached after j steps of the path is shaped and j levels deeper |
| InfiniteHashTable.LocationDescends | infinite_hash_table.py:119-131 | each index of the path is the key's slot in the table reached so far, and it holds a child table exactly when it is not the last index |
| InfiniteHashTable.GetCorrect | infinite_hash_table.py:40-54 | __getitem__ succeeds exactly when the path ends at a stored pair and returns its value; a stored key gets its own value |
| InfiniteHashTable.ContainsStored | infinite_hash_table.py:134-144 | every stored key is contained, with its value; a key whose path ends at an empty slot is not |
| InfiniteHashTable.SetCorrect | infinite_hash_table.py:57-80 | setting keeps the invariant, stores the value for exactly that key, other keys keep theirs, and the key count rises by 1 exactly when the key is new |
| InfiniteHashTable.SetCount | infinite_hash_table.py:61-71 | the table's own count rises by 1 exactly when the terminal slot at this level was empty |
| InfiniteHashTable.CollisionShape | infinite_hash_table.py:73-80 | a distinct key on a slot holding a pair makes a child under key[0:level+1], one level deeper, built by the old pair then the new one, holding both; no other slot changes |
| InfiniteHashTable.SetIntoFreshTable | infinite_hash_table.py:76-79 | the first insertion into a new child table puts the pair in its own slot with count 1 |
| InfiniteHashTable.GetAfterSet | infinite_hash_table.py:40-80 | after t[k] = v, t[k] returns v and k is contained |
| InfiniteHashTable.DeleteCorrect | infinite_hash_table.py:84-105 | __delitem__ fails with KeyError exactly when the path ends at an empty slot; otherwise it removes the pair there, keeps the invariant, and lists one key fewer |
| InfiniteHashTable.DeleteCount | infinite_hash_table.py:90-100 | only the table that owns the cleared slot lowers its count; ancestors keep theirs |
| InfiniteHashTable.CollapseShape | infinite_hash_table.py:99-105 | a child left with count 1 and a direct pair is replaced in the parent slot by its only remaining key and value; count unchanged |
| InfiniteHashTable.DeleteStored | infinite_hash_table.py:84-105 | deleting a stored key removes exactly it; every other key keeps its value |
| InfiniteHashTable.LenCountsSlots | infinite_hash_table.py:108-109 | __len__ is the number of non-empty slots: the length of keys(), at most the number of stored keys |
| InfiniteHashTable.LenIsNotKeyCount | infinite_hash_table.py:108-109 | for any two distinct keys sharing their first letter (such as "ab" and "ac"), storing both leaves the root's length at 1 while two keys are stored |
| InfiniteHashTable.Keys | infinite_hash_table.py:146-152 | keys() lists the first component of every non-empty slot of this table, in slot order |
| InfiniteHashTable.Values | infinite_hash_table.py:155-162 | values() lists the values of the pairs held directly, skipping child tables |
| InfiniteHashTable.DirectKeysListSlots | infinite_hash_table.py:146-162 | keys() holds exactly the keys and prefixes of the slots, and values() exactly the values of the pairs held directly |
| InfiniteHashTable.SortKeys | infinite_hash_table.py:164-176 | sort_keys, with its branches as intended, lists the keys below the table slot by slot, going down into child tables |
| InfiniteHashTable.AllKeysExact | infinite_hash_table.py:164-176 | that listing holds every stored key exactly once and nothing else |
| InfiniteHashTable.SetAsWrittenOnlyOverwrites | infinite_hash_table.py:57-80 | as written, __setitem__ succeeds exactly when the key is already stored, and then agrees with the corrected Set |
| InfiniteHashTable.FirstInsertFails | infinite_hash_table.py:61-63 | as written, the first insertion into a new table fails at line 63 |
| InfiniteHashTable.SortKeysAsWrittenPrefixes | infinite_hash_table.py:168-176 | as written, sort_keys succeeds exactly on a table holding no pair directly, and then returns only the prefixes of its children |
| InfiniteHashTable.SortKeysAsWrittenFails | infinite_hash_table.py:170-175 | as written, sort_keys fails on a table holding one pair, whose corrected listing is that key |
| InfiniteHashTable.GetChecked | infinite_hash_table.py:46-54 | a lookup that compares the stored key returns exactly the value stored for the key, else KeyError |
| InfiniteHashTable.GetIgnoresStoredKey | infinite_hash_table.py:48-52 | with only "ab" stored, __getitem__("ac") returns ab's value, while "ac" is not stored |
| Trails.TrailSplit.RemoveBranch | trail.py:30-32 | remove_branch leaves the following trail; RemoveUndoesEmptyBranchBefore shows it undoes an empty branch |
| Trails.TrailSeries.RemoveMountain | trail.py:46-51 | remove_mountain leaves the following trail; RemoveUndoesAddBefore and RemoveUndoesAddAfter show it undoes the adds |
| Trails.TrailSeries.AddMountainBefore | trail.py:53-58 | a new series before this one; RemoveUndoesAddBefore and CollectSeriesAddMountainBefore state it |
| Trails.TrailSeries.AddEmptyBranchBefore | trail.py:60-64 | an empty split followed by this series; RemoveUndoesEmptyBranchBefore states it |
| Trails.TrailSeries.AddMountainAfter | trail.py:66-72 | the new mountain between this one and the following trail; RemoveUndoesAddAfter and CollectSeriesAddMountainAfter state it |
| Trails.TrailSeries.AddEmptyBranchAfter | trail.py:74-80 | an empty split between this mountain and the following trail; RemoveUndoesEmptyBranchAfter states it |
| Trails.AddMountainBefore | trail.py:90-95 | a new series before the whole trail; CollectAddMountainBefore states it |
| Trails.AddEmptyBranchBefore | trail.py:97-102 | an empty split before the whole trail; RemoveUndoesEmptyBranchBefore states it |
| Trails.CollectAllMountains | trail.py:137-152 | collect_all_mountains on split-free trails; CollectListsSeriesInOrder, CollectEmpty and CollectAddMountainBefore state it |
| Trails.RemoveUndoesAddBefore | trail.py:46-58 | remove_mountain of add_mountain_before(m) gives back the original series |
| Trails.RemoveUndoesAddAfter | trail.py:66-72 | add_mountain_after(m) keeps the first mountain, then m, then the original following trail |
| Trails.RemoveUndoesEmptyBranchBefore | trail.py:60-64 | add_empty_branch_before on a series or a trail makes a split with two empty branches whose following is the original |
| Trails.RemoveUndoesEmptyBranchAfter | trail.py:74-80 | add_empty_branch_after keeps the first mountain, followed by an empty split that rejoins the old following trail |
| Trails.CollectEmpty | trail.py:140-141 | collect_all_mountains of an empty trail is [] |
| Trails.CollectListsSeriesInOrder | trail.py:137-152 | on a split-free trail, the list holds the mountain of each series node in order, one per node |
| Trails.CollectAddMountainBefore | trail.py:90-95 | collect(add_mountain_before(m)) is [m] followed by collect of the original trail |
| Trails.CollectSeriesAddMountainBefore | trail.py:53-58 | on a series, the new mountain comes first, then the old first mountain, then the rest |
| Trails.CollectSeriesAddMountainAfter | trail.py:66-72 | after add_mountain_after(m), the old first mountain comes first, then m, then the rest |

## Left out

- The inner `LinearProbeTable` is not part of this model. Its probing,
  its `table_state()` layout, its resizing and its FullError are left
  out. The inner table is a `map`, so the order in which `keys()` and
  `values()` list an inner table is left abstract. Only its contents
  are stated.
- The constructor's `internal_sizes` argument only configures the inner
  tables, so it is not modelled.
- `_linear_probe` computes a position inside the inner table
  (double_key_table.py:91-93, 102-114). Callers use only the outer slot,
  so only that is modelled.
  - The temporary insert and delete at double_key_table.py:104-106 are
    left out; the write at line 238 overwrites their net effect.
  - The model assumes `table_state()` returns a snapshot. So an insert
    under a stored first key returns that key's slot.
- Several lines of the double-key table are modelled as evidently
  intended, not as written:
  - `__getitem__` indexes `self.array` with the whole probe result
    (double_key_table.py:226). The model uses the outer slot.
  - The cluster repair calls `_linear_probe(value_key, True)` with an
    argument missing (double_key_table.py:262-263). The model moves the
    entry to the first free slot of its probe and leaves `count`
    unchanged.
  - `_rehash` re-sets each first key with a whole inner table
    (double_key_table.py:284). The model re-places each entry, inner
    table and all.
  - `keys(k)` and `values(k)` compare with `is`, return
    `self.array[1]` and can fall through to `None`
    (double_key_table.py:158-163, 199-204). The keyed listings follow
    `iter_keys(k)` and `iter_values(k)` instead.
- The iterator forms are not modelled separately.
  - `iter_keys(None)` lists the same keys as `keys(None)`.
  - `iter_values(None)` yields the inner values flattened
    (double_key_table.py:172-176). The model has only `values(None)`'s
    one list per slot.
- DoubleKeyTables.DoubleKeyTable.constructor: custom sizes must satisfy
  `SizesOk`: at least one size, every size at least 2 (the hash
  reduces modulo size - 1), and each larger than the one before, so that
  a rehash has room. The source does not check this. On an empty list it
  raises IndexError at double_key_table.py:36, and that error path is
  not modelled.
- DoubleKeyTables.DoubleKeyTable.Rehash: the replay of line 284 goes
  through `__setitem__`, which may rehash again in the middle of the
  replay. The model re-places all entries at each size in turn, so it
  ends at the same size with the same pairs. The slot each entry ends
  in may differ from the source's, and only the invariant is stated
  about it.
- DoubleKeyTables.DoubleKeyTable.RehashAsWritten: the as-written
  failure is modelled for the top-level call only. A rehash nested in
  the replay that reaches the last size follows the corrected Rehash.
- `__str__` raises NotImplementedError in both tables, so it is left
  out.
- DoubleKeyTables.DoubleKeyTable.Hash2: it takes the inner table's size
  as a parameter, because the inner table is a map with no size.
- InfiniteHashTable is modelled on values. The source updates tables in
  place. The model does not capture aliasing of child tables or the
  order of the in-place writes.
- InfiniteHashTable.SetAsWritten: on a collision the source first writes
  the new child into the slot (infinite_hash_table.py:78), and only then
  fails at line 63 inside the child (line 79). So the displaced pair is
  lost before the TypeError. The model returns the error with no table,
  so this loss is not modelled.
- InfiniteHashTable.SetCorrect: keys must be lower-case letters.
  - Two distinct keys with characters equal modulo 26 never part, so the
    source's `__setitem__` would recurse without end on them.
  - Lower-case letters are a sufficient restriction.
- InfiniteHashTable.GetCorrect: `__getitem__`, `__contains__` and
  `__delitem__` are kept as written. They do not compare the stored key
  in the terminal slot (infinite_hash_table.py:48-52, 93-97), so their
  contracts are stated through `Resident`, the pair the path reaches,
  not as KeyError for every absent key. `GetIgnoresStoredKey` shows the
  difference from the reference `Lookup`, and `GetChecked` is the
  checked variant.
- InfiniteHashTable.SortKeys: the "lexicographically sorted" half of its
  docstring does not hold, so the model does not prove it. Slots
  `ord(c) % 26` put `h..z` before `a..g`, and the overflow slot comes
  last.
- InfiniteHashTable.LenCountsSlots: `count` is the number of non-empty
  slots of this one table, not the number of keys stored below it.
  - A child table takes one slot, however many keys it holds.
  - Nested sets and deletes never update ancestors.
  - So `len` is not the number of keys (`LenIsNotKeyCount`).
- Trails.CollectAllMountains: a series' mountain is never None in the
  model, as the `mountain: Mountain` annotation of `TrailSeries` says.
  So the `is not None` test at trail.py:147-148 always passes, and
  every series node contributes its mountain.
- Trails.CollectListsSeriesInOrder: only trails without splits are
  modelled. On a split, `type(self.store) is type(TrailSplit)` is never
  true (trail.py:142), so the code reads `.mountain` of a split and
  fails.
- `Trail.follow_path` is left out. It depends on `WalkerPersonality`,
  which is not part of this model, and it pops from an empty list at
  trail.py:111.
- `difficulty_maximum_paths` and `difficulty_difference_paths` are left
  out. One is not implemented (trail.py:154-156), and the other never
  takes its series branch (trail.py:169).
- The `difficulty_data` field of `Trail` is dropped.
- `mountain_manager.py` and `mountain_organiser.py` are thin facades and
  are not modelled.

## Findings

| source | as written | input that shows it | evidently intended | confidence | as-written member | corrected member |
|---|---|---|---|---|---|---|
| infinite_hash_table.py:63 | reads the first component of the terminal slot before the test for an empty slot, which fails on an empty slot | any first insertion into a new table, e.g. t["a"] = 1 | compare the keys only when the slot holds a pair, and store into an empty slot | not executed | InfiniteHashTable.FirstInsertFails | InfiniteHashTable.SetCorrect |
| infinite_hash_table.py:172-175 | the two branches of sort_keys are swapped: a child's prefix is listed, and a stored value is asked for its sort_keys | a table holding the single pair ("a", 1) | list the key of a pair; go down into a child table | not executed | InfiniteHashTable.SortKeysAsWrittenFails | InfiniteHashTable.SortKeys |
| double_key_table.py:275-278 | size_index is raised before the test for the last size and is not restored, so table_size then indexes past TABLE_SIZES | sizes [5]: the third new first key makes count 3 > 5/2; the rehash returns with size_index 1, and the next table_size read fails | leave the table unchanged at the last size | not executed | DoubleKeyTables.LastSizeAsWritten | DoubleKeyTables.DoubleKeyTable.Rehash |
