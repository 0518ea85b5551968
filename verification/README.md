# Hash tables: open addressing, chaining and direct slots

This project models the three dictionary implementations of the
HashTable repository and proves what they guarantee:

- **OpenAddressingHashTable**
  - Stores one entry per slot in three parallel arrays: `table`, `occupied` and `deleted`.
  - Resolves collisions along the probe path of its strategy: linear probing, quadratic probing or double hashing.
  - Removes entries by leaving tombstones.
  - Doubles when `count / size` exceeds 0.6.
- **ChainingHashTable**
  - An array of linked lists. Each entry is in the list (chain) of its home index `|hash| mod size`.
  - Doubles, re-bucketing every entry, when `count / size` exceeds 0.75.
  - The repository declares this class twice:
    - `Assets/Scripts/HashTable/ChainingHashTable.cs`, the copy the table below cites;
    - `Assets/Scripts/ChainingHashTable.cs`, the older copy. In the unmodelled indexer set (lines 49-55 in both) the older copy computes the index once, after the resize check; the newer one computes it before the check and again after a resize. From line 56 on, its lines are one lower: for example Add is at 138-165 and Resize at 112-135.
  - Apart from the name of the bucket field, where the indexer set computes its index, and the class declaration (line 7: the older class implements IDictionary but not IHashTable), the copies differ only at the end. The older copy leaves CopyTo(KeyValuePair[]) and Remove(KeyValuePair) unimplemented and has no GetArrayIndex. One class models both copies.
- **SimpleHashTable**
  - One entry per slot, at the key's home index, with no collision resolution.
  - Doubles when `count / size` exceeds 0.75.

## How the model is built

Each table is a Dafny `class` with the source's fields:

- arrays for the slot arrays and the bucket array;
- `size` and `count`.

Each method changes those fields as the source intends. Where the code as written is defective (see Findings), the class models the intended behaviour, and a separate member models the code as written. Each class is specified against a value model:

| table | value model | invariant |
|---|---|---|
| open addressing | `OpenAddressingSpec.Slots`: one `Slot` (Empty, Tombstone or Full) per index | `Inv`: the search for the key of every stored entry ends at that entry's slot |
| chaining | `ChainingSpec.Buckets`: a sequence of chains | `Inv`: every entry is in its home chain and no key is stored twice |
| direct slots | `SimpleSpec.Cells`: one optional entry per index | `Placed`: every entry is at its home index |

Each method's `ensures` ties the new state to a function of the old state: `AddSpec`, `RemoveSpec`, `Rehash`, `Rebucket` and so on. Lemmas then prove what those functions promise:

- every stored key is found;
- nothing is invented;
- the count matches;
- the other keys' lookups are unchanged;
- resizing loses nothing in the chaining and direct-slot tables, and in the open-addressing table under linear probing. Under quadratic probing and double hashing, resizing the open-addressing table keeps a subset of the entries and counts the ones it drops.

### Conventions used throughout

- **Keys and hash codes.**
  - A key's `GetHashCode` is the table's `hash: K -> int`.
  - A null key is `Option.None`.
  - An exception is an `Error` value in a `Result` or `Outcome`.
- **Load-factor tests.** The float tests are exact integer comparisons: `count * 4 > size * 3` and `count * 5 > size * 3`.
- **Chaining buckets.** A bucket the chaining table never created is the empty chain. The corrected operations treat a null bucket that way.
- **Where the code is defective.** These are listed under Findings.
  - The model states the code as written.
  - It shows the defect with a lemma.
  - The class then models the evidently intended behaviour.

## Model

| member | source | states |
|---|---|---|
| Hashing.GetIndex | Assets/Scripts/HashTable/OpenAddressingHashTable.cs:56-65 | a null key is rejected with InvalidKey; any other key maps to an index below s, namely abs(hash) mod s |
| Hashing.GetIndexAsWritten | Assets/Scripts/HashTable/SimpleHashTable.cs:30-37 | GetIndex(key, s) of the chaining and direct tables yields the home index for the current size whatever s is |
| Hashing.HomeAfterDoubling | Assets/Scripts/HashTable/SimpleHashTable.cs:113-117 | after the size doubles, a key's home index is its old one or that plus the old size, and which one it is is decided by the new index |
| Probing.SecondaryHash | Assets/Scripts/HashTable/OpenAddressingHashTable.cs:406-410 | the double-hashing step lies in [1, n - 1] |
| Probing.Probe | Assets/Scripts/HashTable/OpenAddressingHashTable.cs:419-436 | every index the enumerator yields for a strategy lies inside the array. The 32-bit wrap-around of the sum is not modelled (see Left out) |
| Probing.ProbePath | Assets/Scripts/HashTable/OpenAddressingHashTable.cs:412-437 | the enumerator yields exactly n indices, all below n, starting at the home index |
| Probing.LinearVisitsEverySlot | Assets/Scripts/HashTable/OpenAddressingHashTable.cs:423-424 | the linear probe path reaches every slot of the array |
| Probing.DoubleHashingMoves | Assets/Scripts/HashTable/OpenAddressingHashTable.cs:429-430 | consecutive double-hashing probes never hit the same slot |
| Probing.QuadraticPathOfFour | Assets/Scripts/HashTable/OpenAddressingHashTable.cs:426-427 | the quadratic path need not cover the array: from home 0 in size 4 it visits only slots 0 and 1 |
| OpenAddressingSpec.WalkFrom | Assets/Scripts/HashTable/OpenAddressingHashTable.cs:208-222 | a search that reports a slot reports one holding the key |
| OpenAddressingSpec.Find | Assets/Scripts/HashTable/OpenAddressingHashTable.cs:201-243 | the search along the key's probe path reports only a slot that is occupied by that key |
| OpenAddressingSpec.Lookup | Assets/Scripts/HashTable/OpenAddressingHashTable.cs:341-367 | a value TryGetValue reports for a key is stored with that key in an occupied slot |
| OpenAddressingSpec.FirstFreeFrom | Assets/Scripts/HashTable/OpenAddressingHashTable.cs:165-178 | the insertion loop stops at the first probed slot that is not occupied, and reports none exactly when every probed slot is occupied |
| OpenAddressingSpec.PlaceWritesFreeSlot | Assets/Scripts/HashTable/OpenAddressingHashTable.cs:165-178 | Add's write never overwrites a stored entry: every slot keeps its content, except that when the entry is placed, one slot that was not occupied now holds it |
| OpenAddressingSpec.RemoveSpec | Assets/Scripts/HashTable/OpenAddressingHashTable.cs:282-334 | Remove keeps the array length and answers true iff the key's lookup finds it |
| OpenAddressingSpec.RehashFrom | Assets/Scripts/HashTable/OpenAddressingHashTable.cs:380-397 | after the first i old slots, the new array has the new size, whatever the loop dropped |
| OpenAddressingSpec.RehashFromCorrect | Assets/Scripts/HashTable/OpenAddressingHashTable.cs:380-397 | after the first i old slots, the new slots keep the invariant and hold no tombstone. They hold only entries of those i slots, and the stored plus the dropped entries are exactly the occupied slots among them. Under linear probing nothing is dropped |
| OpenAddressingSpec.Rehash | Assets/Scripts/HashTable/OpenAddressingHashTable.cs:374-404 | Resize yields an array of twice the size |
| OpenAddressingSpec.Grow | Assets/Scripts/HashTable/OpenAddressingHashTable.cs:160-163 | the array doubles exactly when count / size exceeds 0.6, and keeps its size otherwise |
| OpenAddressingSpec.AddSpec | Assets/Scripts/HashTable/OpenAddressingHashTable.cs:148-179 | Add fails iff the key's lookup finds it, and then only with DuplicateKey, with nothing changed and nothing dropped. The array never shrinks |
| OpenAddressingSpec.Enumerate | Assets/Scripts/HashTable/OpenAddressingHashTable.cs:271-280 | the enumerator yields one entry per occupied slot |
| OpenAddressingSpec.SlotsOf | Assets/Scripts/HashTable/OpenAddressingHashTable.cs:22-24 | index x of the three arrays is a stored entry when occupied, a tombstone when only deleted, and empty otherwise |
| OpenAddressingSpec.WalkReachesInsert | Assets/Scripts/HashTable/OpenAddressingHashTable.cs:165-178 | an entry written at the first non-occupied slot of its path is what the next search for its key finds |
| OpenAddressingSpec.KeysDistinct | Assets/Scripts/HashTable/OpenAddressingHashTable.cs:155-158 | under the invariant no key occupies two slots |
| OpenAddressingSpec.LookupMatchesEntries | Assets/Scripts/HashTable/OpenAddressingHashTable.cs:341-367 | TryGetValue yields v for k if and only if the pair (k, v) is stored |
| OpenAddressingSpec.LookupNoneMatchesEntries | Assets/Scripts/HashTable/OpenAddressingHashTable.cs:201-243 | the search misses a key if and only if no pair with that key is stored |
| OpenAddressingSpec.LookupByEntries | Assets/Scripts/HashTable/OpenAddressingHashTable.cs:374-404 | two tables holding the same entries for a key answer the same for it, whatever their sizes |
| OpenAddressingSpec.EnumerateMatchesEntries | Assets/Scripts/HashTable/OpenAddressingHashTable.cs:271-280 | the enumerator yields exactly the stored entries |
| OpenAddressingSpec.PlaceCorrect | Assets/Scripts/HashTable/OpenAddressingHashTable.cs:165-178 | inserting an absent key keeps the invariant and adds exactly that entry when stored; under linear probing it is always stored while a slot is free |
| OpenAddressingSpec.FillEntries | Assets/Scripts/HashTable/OpenAddressingHashTable.cs:172-174 | filling a slot that holds no entry adds exactly that entry |
| OpenAddressingSpec.TombstoneKeepsInv | Assets/Scripts/HashTable/OpenAddressingHashTable.cs:298-300 | turning an occupied slot into a tombstone keeps every other key findable and removes exactly that entry |
| OpenAddressingSpec.RemoveCorrect | Assets/Scripts/HashTable/OpenAddressingHashTable.cs:282-334 | Remove answers true iff the key was present, keeps the invariant, leaves the key absent and other keys' lookups unchanged, and changes nothing on a miss |
| OpenAddressingSpec.RemovedLookups | Assets/Scripts/HashTable/OpenAddressingHashTable.cs:294-302 | removing one entry makes its key absent and changes no other key's lookup |
| OpenAddressingSpec.CountFullUpdate | Assets/Scripts/HashTable/OpenAddressingHashTable.cs:144 | count moves by one exactly when one slot becomes or stops being occupied |
| OpenAddressingSpec.RehashCorrect | Assets/Scripts/HashTable/OpenAddressingHashTable.cs:374-404 | Resize doubles the arrays, keeps the invariant, invents nothing and leaves no tombstone. Stored plus dropped equals the old count, and under linear probing nothing is dropped |
| OpenAddressingSpec.GrowCorrect | Assets/Scripts/HashTable/OpenAddressingHashTable.cs:160-163 | the resize check of Add doubles exactly when count / size exceeds 0.6. It keeps Resize's guarantees, and under linear probing with an exact count it leaves a free slot |
| OpenAddressingSpec.AddCorrect | Assets/Scripts/HashTable/OpenAddressingHashTable.cs:148-179 | Add fails with DuplicateKey iff the key is present and then changes nothing. Otherwise it keeps the invariant, stores at most the new entry, and the count moves by what was stored and dropped. Under linear probing the entry is always stored and nothing is lost |
| OpenAddressingSpec.AddLookups | Assets/Scripts/HashTable/OpenAddressingHashTable.cs:148-179 | after Add the key yields the new value; every other key yields what it did, and under linear probing no key is lost |
| OpenAddressingSpec.ResizeKeepsConsistent | Assets/Scripts/HashTable/OpenAddressingHashTable.cs:400-403 | Resize keeps the object invariant, with count still including dropped entries |
| OpenAddressingSpec.AddKeepsConsistent | Assets/Scripts/HashTable/OpenAddressingHashTable.cs:175 | count grows by one exactly when Add stores the entry |
| OpenAddressingSpec.RemoveKeepsConsistent | Assets/Scripts/HashTable/OpenAddressingHashTable.cs:300 | count drops by one exactly when Remove removes an entry, and never below zero |
| OpenAddressing.OpenAddressingHashTable.constructor | Assets/Scripts/HashTable/OpenAddressingHashTable.cs:37-49 | a table of the given capacity and strategy with every slot never used and count 0 |
| OpenAddressing.OpenAddressingHashTable.GetArrayIndex | Assets/Scripts/HashTable/OpenAddressingHashTable.cs:444-453 | a null key is rejected; otherwise the result is the first index of the key's probe path |
| OpenAddressing.OpenAddressingHashTable.Search | Assets/Scripts/HashTable/OpenAddressingHashTable.cs:348-363 | the search loop returns the slot the probe-path walk finds, stopping at a never-used slot |
| OpenAddressing.OpenAddressingHashTable.ContainsKey | Assets/Scripts/HashTable/OpenAddressingHashTable.cs:201-243 | a null key is rejected; otherwise true iff the key is stored |
| OpenAddressing.OpenAddressingHashTable.ContainsPair | Assets/Scripts/HashTable/OpenAddressingHashTable.cs:196-199 | Contains(item) is true iff item's key is stored, whatever the value |
| OpenAddressing.OpenAddressingHashTable.TryGetValue | Assets/Scripts/HashTable/OpenAddressingHashTable.cs:341-367 | a null key is rejected; otherwise the stored value of the key, or none |
| OpenAddressing.OpenAddressingHashTable.Get | Assets/Scripts/HashTable/OpenAddressingHashTable.cs:69-77 | the indexer get yields the stored value and fails with KeyNotFound exactly when the key is absent |
| OpenAddressing.OpenAddressingHashTable.FreeSlot | Assets/Scripts/HashTable/OpenAddressingHashTable.cs:387-396 | the loop finds the first probe attempt whose slot is not occupied |
| OpenAddressing.OpenAddressingHashTable.PlaceInto | Assets/Scripts/HashTable/OpenAddressingHashTable.cs:385-396 | Resize's inner loop writes the entry at its first free probed slot of the new arrays, or nowhere |
| OpenAddressing.OpenAddressingHashTable.RehashInto | Assets/Scripts/HashTable/OpenAddressingHashTable.cs:381-398 | Resize's outer loop fills the new arrays with Rehash of the old slots and counts the entries it drops |
| OpenAddressing.OpenAddressingHashTable.Install | Assets/Scripts/HashTable/OpenAddressingHashTable.cs:400-403 | the new arrays replace the old ones with size doubled, keeping the object invariant |
| OpenAddressing.OpenAddressingHashTable.Resize | Assets/Scripts/HashTable/OpenAddressingHashTable.cs:374-404 | fresh arrays of twice the size holding Rehash of the old slots; count unchanged; invariant kept |
| OpenAddressing.OpenAddressingHashTable.Add | Assets/Scripts/HashTable/OpenAddressingHashTable.cs:148-179 | null key rejected; otherwise the new slots, outcome and count are those of AddSpec, whose guarantees AddCorrect and AddLookups state |
| OpenAddressing.OpenAddressingHashTable.GrowAndInsert | Assets/Scripts/HashTable/OpenAddressingHashTable.cs:160-178 | the resize check then the insertion loop, for a key known to be absent, with count grown by one iff stored |
| OpenAddressing.OpenAddressingHashTable.Insert | Assets/Scripts/HashTable/OpenAddressingHashTable.cs:165-178 | the entry goes into the first non-occupied probed slot, clearing its tombstone. Count grows by one iff it was stored, and nothing changes when every probed slot is occupied |
| OpenAddressing.OpenAddressingHashTable.SetItem | Assets/Scripts/HashTable/OpenAddressingHashTable.cs:78-110 | the indexer set behaves exactly as Add |
| OpenAddressing.OpenAddressingHashTable.Remove | Assets/Scripts/HashTable/OpenAddressingHashTable.cs:282-334 | null key rejected; otherwise the slot holding the key becomes a tombstone and count drops by one, or nothing changes and the answer is false |
| OpenAddressing.OpenAddressingHashTable.Clear | Assets/Scripts/HashTable/OpenAddressingHashTable.cs:186-194 | every slot becomes never used and count is 0 |
| OpenAddressing.OpenAddressingHashTable.GetEnumerator | Assets/Scripts/HashTable/OpenAddressingHashTable.cs:271-280 | the stored entries in index order |
| OpenAddressing.OpenAddressingHashTable.Keys | Assets/Scripts/HashTable/OpenAddressingHashTable.cs:112-126 | the keys of the enumerated entries, in the same order (the corrected Keys) |
| OpenAddressing.OpenAddressingHashTable.Values | Assets/Scripts/HashTable/OpenAddressingHashTable.cs:128-142 | the values of the enumerated entries, in the same order (the corrected Values) |
| OpenAddressing.OpenAddressingHashTable.KeysAsWritten | Assets/Scripts/HashTable/OpenAddressingHashTable.cs:116-121 | as written, Keys fails with OutOfRange iff some slot is occupied, and otherwise yields the empty list |
| ChainingSpec.Position | Assets/Scripts/HashTable/ChainingHashTable.cs:282-289 | the foreach stops at the first entry with the key, and finds none iff no entry has it |
| ChainingSpec.ChainLookup | Assets/Scripts/HashTable/ChainingHashTable.cs:280-293 | a chain yields a value for a key iff it holds an entry with that key, and then that pair is in the chain |
| ChainingSpec.Lookup | Assets/Scripts/HashTable/ChainingHashTable.cs:274-294 | a value TryGetValue reports for a key belongs to an entry with that key in the key's home chain |
| ChainingSpec.Flatten | Assets/Scripts/HashTable/ChainingHashTable.cs:82-88 | the walk of Keys and Values over the buckets holds every entry of every bucket |
| ChainingSpec.FlattenFrom | Assets/Scripts/HashTable/ChainingHashTable.cs:82-88 | every entry in the walk of Keys and Values comes from one of the buckets |
| ChainingSpec.FlattenDistinct | Assets/Scripts/HashTable/ChainingHashTable.cs:156-162 | with every entry at home and the duplicate check per chain, no key occurs twice in the whole table |
| ChainingSpec.FlattenUpdate | Assets/Scripts/HashTable/ChainingHashTable.cs:109 | replacing one chain changes the number of entries by the difference of the chain lengths |
| ChainingSpec.LookupByFlatten | Assets/Scripts/HashTable/ChainingHashTable.cs:274-294 | looking a key up in its home chain finds what a search of all entries in Keys order finds |
| ChainingSpec.EntriesAreLookups | Assets/Scripts/HashTable/ChainingHashTable.cs:77-107 | an entry is listed by Keys/Values iff the lookup of its key yields its value |
| ChainingSpec.Distribute | Assets/Scripts/HashTable/ChainingHashTable.cs:118-132 | the buckets Resize builds hold every entry in its home chain for the new size and only entries given |
| ChainingSpec.DistributeLength | Assets/Scripts/HashTable/ChainingHashTable.cs:118-132 | re-bucketing keeps the number of entries |
| ChainingSpec.DistributeDistinct | Assets/Scripts/HashTable/ChainingHashTable.cs:118-132 | distinct keys stay distinct in every new chain |
| ChainingSpec.DistributeLookup | Assets/Scripts/HashTable/ChainingHashTable.cs:118-132 | a key's new home chain finds what a search of all entries in order finds |
| ChainingSpec.Rebucket | Assets/Scripts/HashTable/ChainingHashTable.cs:113-136 | Resize yields twice as many buckets; what they hold is stated by RebucketCorrect and RebucketLookup |
| ChainingSpec.RebucketCorrect | Assets/Scripts/HashTable/ChainingHashTable.cs:113-136 | Resize keeps the invariant and the number of entries |
| ChainingSpec.RebucketLookup | Assets/Scripts/HashTable/ChainingHashTable.cs:113-136 | Resize changes no key's lookup |
| ChainingSpec.AddSpec | Assets/Scripts/HashTable/ChainingHashTable.cs:139-166 | Add never shrinks the bucket array; its outcome and effect on lookups are stated by AddCorrect and AddKeepsOthers |
| ChainingSpec.InsertCorrect | Assets/Scripts/HashTable/ChainingHashTable.cs:148-155 | appending an absent key to its home chain keeps the invariant, adds one entry and makes the key yield its value |
| ChainingSpec.InsertKeepsOthers | Assets/Scripts/HashTable/ChainingHashTable.cs:148-155 | appending an entry changes no other key's lookup |
| ChainingSpec.AddCorrect | Assets/Scripts/HashTable/ChainingHashTable.cs:139-166 | Add succeeds iff the key is absent, otherwise fails with DuplicateKey. It keeps the invariant and adds one entry on success, after which the key yields its new value |
| ChainingSpec.AddKeepsOthers | Assets/Scripts/HashTable/ChainingHashTable.cs:139-166 | Add changes no other key's lookup, resize included |
| ChainingSpec.RemoveSpec | Assets/Scripts/HashTable/ChainingHashTable.cs:232-251 | the corrected Remove keeps the bucket count, answers true iff the key's lookup finds it, and changes nothing on a miss |
| ChainingSpec.RemoveCorrect | Assets/Scripts/HashTable/ChainingHashTable.cs:232-251 | Remove answers true iff the key was present and keeps the invariant. It leaves the key absent, takes away one entry on success and changes nothing otherwise |
| ChainingSpec.Unlink | Assets/Scripts/HashTable/ChainingHashTable.cs:244 | unlinking the entry with the key leaves a chain one shorter, with distinct keys, without the key and with nothing new |
| ChainingSpec.ChainLookupWithout | Assets/Scripts/HashTable/ChainingHashTable.cs:244 | unlinking one entry does not change the search for another key |
| ChainingSpec.RemoveKeepsOthers | Assets/Scripts/HashTable/ChainingHashTable.cs:232-251 | Remove changes no other key's lookup |
| Chaining.ChainingHashTable.constructor | Assets/Scripts/HashTable/ChainingHashTable.cs:15-20 | sixteen empty buckets and count 0 |
| Chaining.ChainingHashTable.GetArrayIndex | Assets/Scripts/HashTable/ChainingHashTable.cs:331-340 | a null key is rejected; otherwise abs(hash) mod size |
| Chaining.ChainingHashTable.Seek | Assets/Scripts/HashTable/ChainingHashTable.cs:282-289 | the foreach over a chain finds the first entry with the key |
| Chaining.ChainingHashTable.TryGetValue | Assets/Scripts/HashTable/ChainingHashTable.cs:274-294 | a null key is rejected; otherwise the value in the key's home chain, or none |
| Chaining.ChainingHashTable.Get | Assets/Scripts/HashTable/ChainingHashTable.cs:36-43 | the indexer get yields the stored value and fails with KeyNotFound exactly when the key is absent |
| Chaining.ChainingHashTable.ContainsKey | Assets/Scripts/HashTable/ChainingHashTable.cs:185-200 | null key rejected; otherwise true iff the key is stored (the corrected ContainsKey) |
| Chaining.ChainingHashTable.ContainsPair | Assets/Scripts/HashTable/ChainingHashTable.cs:180-183 | Contains(item) is true iff item's key is stored, whatever the value |
| Chaining.ChainingHashTable.DistributeChain | Assets/Scripts/HashTable/ChainingHashTable.cs:122-130 | the inner loop of Resize appends one chain's entries, in order, to their new home chains |
| Chaining.ChainingHashTable.RehashInto | Assets/Scripts/HashTable/ChainingHashTable.cs:118-132 | the outer loop of Resize fills the new array with Rebucket of the old buckets |
| Chaining.ChainingHashTable.Resize | Assets/Scripts/HashTable/ChainingHashTable.cs:113-136 | a fresh array of twice the size holding Rebucket of the old buckets; count unchanged; invariant kept |
| Chaining.ChainingHashTable.Add | Assets/Scripts/HashTable/ChainingHashTable.cs:139-166 | null key rejected; otherwise buckets and outcome are AddSpec's (see AddCorrect), and count grows by one iff Done |
| Chaining.ChainingHashTable.Remove | Assets/Scripts/HashTable/ChainingHashTable.cs:232-251 | null key rejected; otherwise buckets and answer are RemoveSpec's (see RemoveCorrect), and count drops by one iff true |
| Chaining.ChainingHashTable.Clear | Assets/Scripts/HashTable/ChainingHashTable.cs:172-178 | every bucket empty and count 0 (the corrected Clear) |
| Chaining.ChainingHashTable.Keys | Assets/Scripts/HashTable/ChainingHashTable.cs:77-91 | count keys, those of all entries bucket by bucket in chain order (the corrected Keys) |
| Chaining.ChainingHashTable.Values | Assets/Scripts/HashTable/ChainingHashTable.cs:93-107 | count values, in the order of Keys (the corrected Values) |
| SimpleSpec.CellsOf | Assets/Scripts/HashTable/SimpleHashTable.cs:14-15 | a slot holds an entry exactly while it is occupied |
| SimpleSpec.Lookup | Assets/Scripts/HashTable/SimpleHashTable.cs:244-258 | a value TryGetValue reports for a key is stored with that key in a slot |
| SimpleSpec.Enumerate | Assets/Scripts/HashTable/SimpleHashTable.cs:201-210 | the enumerator yields at most one entry per slot, and each entry it yields is stored in a slot |
| SimpleSpec.PlacedLookup | Assets/Scripts/HashTable/SimpleHashTable.cs:244-258 | with every entry at home, a stored entry is what its key's lookup yields, and no key is stored twice |
| SimpleSpec.EnumerateLength | Assets/Scripts/HashTable/SimpleHashTable.cs:201-210 | the enumerator yields as many entries as slots are occupied |
| SimpleSpec.EnumerateMembers | Assets/Scripts/HashTable/SimpleHashTable.cs:201-210 | the enumerator yields exactly the entries of the occupied slots |
| SimpleSpec.EnumerateMatchesLookups | Assets/Scripts/HashTable/SimpleHashTable.cs:201-210 | an entry is enumerated iff the lookup of its key yields its value |
| SimpleSpec.RehashUpTo | Assets/Scripts/HashTable/SimpleHashTable.cs:109-121 | after copying the slots below i, Resize's loop has a table of twice the size; RehashStep and RehashUpToCount state its contents |
| SimpleSpec.Rehash | Assets/Scripts/HashTable/SimpleHashTable.cs:104-126 | Resize yields twice as many slots; what they hold is stated by RehashCorrect and RehashLookup |
| SimpleSpec.NewHome | Assets/Scripts/HashTable/SimpleHashTable.cs:113 | a copied entry's new home index is its old index or that plus the old size |
| SimpleSpec.RehashStep | Assets/Scripts/HashTable/SimpleHashTable.cs:111-119 | copying one slot lands its entry on a new slot nothing has taken yet, so the hash-collision throw is unreachable |
| SimpleSpec.RehashUpToCount | Assets/Scripts/HashTable/SimpleHashTable.cs:109-121 | copying the slots below i fills as many new slots as were occupied below i |
| SimpleSpec.RehashCorrect | Assets/Scripts/HashTable/SimpleHashTable.cs:104-126 | Resize keeps every entry at home and keeps the count |
| SimpleSpec.RehashLookup | Assets/Scripts/HashTable/SimpleHashTable.cs:104-126 | Resize changes no key's lookup |
| SimpleSpec.Grow | Assets/Scripts/HashTable/SimpleHashTable.cs:134-137 | the resize check doubles the table exactly when count / size exceeds 0.75 |
| SimpleSpec.AddHome | Assets/Scripts/HashTable/SimpleHashTable.cs:138-152 | Add's store step either succeeds, after which the key reads the new value, or fails with HashCollision and changes nothing |
| SimpleSpec.SetHome | Assets/Scripts/HashTable/SimpleHashTable.cs:59-74 | the indexer set's store step fails with DuplicateKey iff the key is present. Otherwise it fails with HashCollision or succeeds. On success the key reads the new value; on failure nothing changes |
| SimpleSpec.AddSpec | Assets/Scripts/HashTable/SimpleHashTable.cs:129-154 | Add (the resize check, then the store) never shrinks the table and fails only with HashCollision. On success the key reads the new value |
| SimpleSpec.SetSpec | Assets/Scripts/HashTable/SimpleHashTable.cs:49-75 | the indexer set never shrinks the table and fails only with DuplicateKey or HashCollision. On success the key reads the new value |
| SimpleSpec.RemoveSpec | Assets/Scripts/HashTable/SimpleHashTable.cs:212-225 | the corrected Remove answers true iff the key is present, leaves the key absent either way, and changes nothing on a miss |
| SimpleSpec.StoreCorrect | Assets/Scripts/HashTable/SimpleHashTable.cs:139-148 | writing an entry to its home slot, when that slot is free or holds the same key, makes the key yield the new value. No other key changes, and the count grows iff the key was new |
| SimpleSpec.AddCorrect | Assets/Scripts/HashTable/SimpleHashTable.cs:129-154 | Add succeeds exactly when the key's home slot, after the resize check, is free or holds the same key; otherwise it fails with HashCollision. A present key is therefore always overwritten. On success the key yields the new value. No other key changes, and the count grows by one iff a new key was stored |
| SimpleSpec.SetCorrect | Assets/Scripts/HashTable/SimpleHashTable.cs:49-76 | the indexer set succeeds exactly when the key's home slot, after the resize check, is free. It fails with HashCollision exactly when a different key occupies that slot, and with DuplicateKey on a present key. It succeeds only for a new key, which then yields its value and grows the count by one. A failure changes no lookup and not the count |
| SimpleSpec.RemoveCorrect | Assets/Scripts/HashTable/SimpleHashTable.cs:212-225 | Remove answers true iff the key was present; the key is absent after, no other key changes and the count drops by one iff true |
| Simple.SimpleHashTable.constructor | Assets/Scripts/HashTable/SimpleHashTable.cs:19-25 | sixteen free slots and count 0 |
| Simple.SimpleHashTable.GetArrayIndex | Assets/Scripts/HashTable/SimpleHashTable.cs:265-274 | a null key is rejected; otherwise abs(hash) mod size |
| Simple.SimpleHashTable.TryGetValue | Assets/Scripts/HashTable/SimpleHashTable.cs:244-258 | a null key is rejected; otherwise the home slot's value if it holds the key, or none |
| Simple.SimpleHashTable.Get | Assets/Scripts/HashTable/SimpleHashTable.cs:41-48 | the indexer get yields the stored value and fails with KeyNotFound exactly when the key is absent |
| Simple.SimpleHashTable.ContainsKey | Assets/Scripts/HashTable/SimpleHashTable.cs:173-180 | null key rejected; otherwise true iff the key is stored (the corrected ContainsKey) |
| Simple.SimpleHashTable.ContainsPair | Assets/Scripts/HashTable/SimpleHashTable.cs:168-171 | Contains(item) is true iff item's key is stored, whatever the value |
| Simple.SimpleHashTable.CopySlot | Assets/Scripts/HashTable/SimpleHashTable.cs:111-120 | one pass of Resize's loop copies slot i to its new home, which is always free |
| Simple.SimpleHashTable.RehashInto | Assets/Scripts/HashTable/SimpleHashTable.cs:109-121 | the loop of Resize fills the new arrays with Rehash of the old slots |
| Simple.SimpleHashTable.Resize | Assets/Scripts/HashTable/SimpleHashTable.cs:104-126 | fresh arrays of twice the size holding Rehash of the old slots; count unchanged; invariant kept |
| Simple.SimpleHashTable.Store | Assets/Scripts/HashTable/SimpleHashTable.cs:139-147 | the entry is written to its home slot and count grows iff that slot was free |
| Simple.SimpleHashTable.AddAtHome | Assets/Scripts/HashTable/SimpleHashTable.cs:138-152 | the store step of Add on the current size: store when free or same key, else HashCollision |
| Simple.SimpleHashTable.Add | Assets/Scripts/HashTable/SimpleHashTable.cs:129-154 | null key rejected; otherwise slots and outcome are AddSpec's, whose guarantees AddCorrect states |
| Simple.SimpleHashTable.SetAtHome | Assets/Scripts/HashTable/SimpleHashTable.cs:59-74 | the store step of the indexer set: store when free, DuplicateKey on the same key, HashCollision otherwise |
| Simple.SimpleHashTable.SetItem | Assets/Scripts/HashTable/SimpleHashTable.cs:49-76 | null key rejected; otherwise slots and outcome are SetSpec's, whose guarantees SetCorrect states |
| Simple.SimpleHashTable.Remove | Assets/Scripts/HashTable/SimpleHashTable.cs:212-225 | null key rejected; otherwise slots and answer are RemoveSpec's, and count drops by one iff true |
| Simple.SimpleHashTable.Clear | Assets/Scripts/HashTable/SimpleHashTable.cs:160-166 | every slot free and count 0 (the corrected Clear) |
| Simple.SimpleHashTable.GetEnumerator | Assets/Scripts/HashTable/SimpleHashTable.cs:201-210 | the entries of the occupied slots in index order, count of them |
| Simple.SimpleHashTable.Keys | Assets/Scripts/HashTable/SimpleHashTable.cs:78-92 | count keys, those of the enumerated entries in order |
| Simple.SimpleHashTable.Values | Assets/Scripts/HashTable/SimpleHashTable.cs:94-98 | count values, those of the enumerated entries in order |
| ChainingFindings.ScatterAsWritten | Assets/Scripts/HashTable/ChainingHashTable.cs:124 | as written, Resize leaves the upper half of the new array empty |
| ChainingFindings.ResizeAsWritten | Assets/Scripts/HashTable/ChainingHashTable.cs:113-136 | as written, Resize still doubles the array |
| ChainingFindings.ResizeAsWrittenLosesKey | Assets/Scripts/HashTable/ChainingHashTable.cs:31 | a key whose home moves when the size doubles is lost by Resize as written and kept by Rebucket |
| ChainingFindings.ResizeAsWrittenExample | Assets/Scripts/HashTable/ChainingHashTable.cs:25-32 | key 16 in sixteen buckets is lost by Resize as written and kept by Rebucket |
| ChainingFindings.AddAsWritten | Assets/Scripts/HashTable/ChainingHashTable.cs:139-166 | Add as written, after the corrected resize, succeeds or fails with DuplicateKey. On success the key's home chain holds the new entry and nothing else |
| ChainingFindings.AddAsWrittenLosesEntry | Assets/Scripts/HashTable/ChainingHashTable.cs:163-165 | Adding a new key to a non-empty home chain reports success. As written the chain's old entry is then lost, and AddSpec keeps it |
| ChainingFindings.AddAsWrittenExample | Assets/Scripts/HashTable/ChainingHashTable.cs:156-165 | adding key 16 after key 0 loses key 0 as written |
| ChainingFindings.ContainsKeyAsWritten | Assets/Scripts/HashTable/ChainingHashTable.cs:185-200 | ContainsKey as written never answers true; a null key is InvalidKey |
| ChainingFindings.ContainsKeyAsWrittenMisses | Assets/Scripts/HashTable/ChainingHashTable.cs:193 | ContainsKey as written never answers true, and answers false for a stored key |
| ChainingFindings.RemoveAsWritten | Assets/Scripts/HashTable/ChainingHashTable.cs:232-251 | Remove as written never changes the buckets and never answers true; a null key is InvalidKey |
| ChainingFindings.RemoveAsWrittenKeeps | Assets/Scripts/HashTable/ChainingHashTable.cs:240 | Remove as written keeps a stored key and answers false; RemoveSpec unlinks it and answers true |
| ChainingFindings.EntriesAsWritten | Assets/Scripts/HashTable/ChainingHashTable.cs:77-107 | Keys and Values as written succeed iff every bucket has been created, and otherwise fail with NullReferenceException |
| ChainingFindings.EntriesAsWrittenFresh | Assets/Scripts/HashTable/ChainingHashTable.cs:84 | Keys and Values as written throw on a fresh table; the corrected walk yields nothing |
| ChainingFindings.ClearAsWritten | Assets/Scripts/HashTable/ChainingHashTable.cs:172-178 | Clear as written keeps the bucket count and the entry count |
| ChainingFindings.ClearAsWrittenKeepsCount | Assets/Scripts/HashTable/ChainingHashTable.cs:174-177 | after Clear as written no entry is left but count is still positive |
| ChainingFindings.Strip | Assets/Scripts/HashTable/ChainingHashTable.cs:280 | treating null buckets as empty chains keeps the number of buckets |
| SimpleFindings.ResizeAsWritten | Assets/Scripts/HashTable/SimpleHashTable.cs:104-126 | as written, Resize still doubles the table |
| SimpleFindings.ResizeAsWrittenLosesKey | Assets/Scripts/HashTable/SimpleHashTable.cs:36 | a key whose home moves when the size doubles is lost by Resize as written and kept by Rehash |
| SimpleFindings.ResizeAsWrittenExample | Assets/Scripts/HashTable/SimpleHashTable.cs:30-37 | key 16 in sixteen slots is lost by Resize as written and kept by Rehash |
| SimpleFindings.ContainsKeyAsWritten | Assets/Scripts/HashTable/SimpleHashTable.cs:173-180 | ContainsKey as written never answers true; a null key is InvalidKey |
| SimpleFindings.ContainsKeyAsWrittenMisses | Assets/Scripts/HashTable/SimpleHashTable.cs:179 | ContainsKey as written answers false for every key |
| SimpleFindings.RemoveAsWritten | Assets/Scripts/HashTable/SimpleHashTable.cs:212-225 | Remove as written never changes the slots and never answers true; a null key is InvalidKey |
| SimpleFindings.RemoveAsWrittenKeeps | Assets/Scripts/HashTable/SimpleHashTable.cs:218 | Remove as written keeps a stored key and answers false; RemoveSpec frees its slot and answers true |
| SimpleFindings.ClearAsWritten | Assets/Scripts/HashTable/SimpleHashTable.cs:160-166 | Clear as written keeps the slot count and the entry count |
| SimpleFindings.ClearAsWrittenKeepsCount | Assets/Scripts/HashTable/SimpleHashTable.cs:162-165 | after Clear as written no slot is occupied but count is still positive |
| ChainingScenario.AddOne | Assets/Scripts/HashTableTest.cs:14 | one Add of the test never shrinks the bucket array; AddStep states what it does to lookups |
| ChainingScenario.AddAll | Assets/Scripts/HashTableTest.cs:11-15 | the test's loop of Adds never shrinks the bucket array; AddAllReadsBack states what it does to lookups |
| ChainingScenario.AddStep | Assets/Scripts/HashTableTest.cs:14 | adding a new key succeeds and adds one entry. The key then reads back and every other key reads as before |
| ChainingScenario.AddAllExtend | Assets/Scripts/HashTableTest.cs:11-15 | what a run of Adds delivers extends to one more Add of a new key |
| ChainingScenario.AddAllReadsBack | Assets/Scripts/HashTableTest.cs:11-19 | Adding distinct new keys succeeds every time and counts them all. Every added key reads back its value, and every other key reads as before |
| ChainingScenario.HashTableTestScenario | Assets/Scripts/HashTableTest.cs:9-19 | the test's 100 Adds of keys 0 to 99 leave count 100, and the indexer get of each key yields its value |

## Left out

- Unbounded integers:
  - `Mathf.Abs` and `Math.Abs` throw OverflowException on a hash code of `int.MinValue`. The model takes the magnitude of an unbounded integer, so this error path is not modelled.
  - `size * 2` in Resize (OpenAddressingHashTable.cs:376, ChainingHashTable.cs:115, SimpleHashTable.cs:106) wraps past 2^31 - 1. The model doubles an unbounded size.
  - `count++` overflow is likewise not modelled.
- Probing.Probe: does not model the 32-bit wrap-around of the probe enumerator. OpenAddressingHashTable.cs computes `index + tryCount * tryCount` (line 427) and `index + tryCount * secondary` (line 430) in unchecked `int` arithmetic. Past 2^31 - 1 the sum wraps to a negative number, `%` then gives a negative index, and the array access throws IndexOutOfRangeException. This needs a probe run of more than about 46341 steps, so an array at least that large. Probe takes the residue of the unbounded sum instead.
- Load factor: it is compared as an exact rational, not as a 32-bit float. For table sizes where float rounding would change the comparison, the model can disagree.
- CopyTo, in all its overloads (array copying with bounds checks), is not modelled.
- The `IEnumerator<LinkedList<...>>` GetEnumerator of ChainingHashTable, and `Remove(LinkedList)`, work on whole buckets. They are not modelled.
- The `NotImplementedException` members are not modelled.
- `Add(KeyValuePair)` and `Remove(KeyValuePair)` only forward to `Add(key, value)` and `Remove(key)`, so they have no members of their own.
- OpenAddressing.OpenAddressingHashTable.ContainsPair, Chaining.ChainingHashTable.ContainsPair and Simple.SimpleHashTable.ContainsPair: each takes an `Entry`, whose key is never null, so `Contains(item)` with a null `item.Key`, which throws in the source (through ContainsKey), is not expressible; the same holds for `Add(KeyValuePair)` and `Remove(KeyValuePair)`.
- Hashing.PairEqualsKey: models `KeyValuePair.Equals(key)` as false. With TKey = object or ValueType a boxed KeyValuePair can be used as a key and compare equal to the stored pair; the model does not capture that case.
- The indexer set of ChainingHashTable is not modelled:
  - Every path through it ends in a throw.
  - On the way it compares keys with an array index.
  - It modifies the chain it is enumerating.
  - No intended behaviour can be read off it.
  - Add is the modelled insertion.
- `Count` and `IsReadOnly` are plain field reads. The model reads `count` directly.
- Values of OpenAddressingHashTable as written has the same defect as Keys. Only Keys as written is modelled (KeysAsWritten).
- Resize of OpenAddressingHashTable can drop entries under quadratic probing and double hashing, when every probed slot is occupied. The model keeps that behaviour. It counts such entries in a ghost `lost` field and proves none are lost under linear probing. Concrete inputs that lose an entry are not derived.
- Add of OpenAddressingHashTable returns without storing when every probed slot is occupied. The model reports this as `Ok(false)`, since the source itself reports nothing.
- OpenAddressing.OpenAddressingHashTable.constructor: requires a capacity of at least 1, or at least 2 for double hashing. With smaller capacities the source divides by zero on first use, and that error path is not modelled.
- `Random.Range` in HashTableTest and its `Debug.Log` output are not modelled. HashTableTestScenario takes the 100 values as a parameter.
- The visualizer and UI classes (`HashTableVisualizer`, `UiBucket`, `UiItem`) and the `IHashTable` interface are not part of this model.
- The exception types are not modelled. Both `ArgumentException` and `ArgumentNullException` on a null key become `InvalidKey`.

## Findings

| source | as written | input that shows it | evidently intended | confidence | as-written member | corrected member |
|---|---|---|---|---|---|---|
| Assets/Scripts/HashTable/ChainingHashTable.cs:31 | GetIndex(key, s) computes abs(hash) mod size and ignores s, so Resize (line 124) rebuckets every entry at its home for the old size. The older copy has the same code. | 16 buckets holding key 16 (hash code 16, bucket 0); after Resize, lookup goes to bucket 16, which is empty | abs(hash) mod s | high, not executed | ChainingFindings.ResizeAsWrittenLosesKey | ChainingSpec.RebucketLookup |
| Assets/Scripts/HashTable/SimpleHashTable.cs:36 | GetIndex(key, s) ignores s, so Resize (line 113) leaves each entry at its old index | 16 slots with key 16 in slot 0; after Resize, lookup goes to slot 16, which is empty | abs(hash) mod s | high, not executed | SimpleFindings.ResizeAsWrittenLosesKey | SimpleSpec.RehashLookup |
| Assets/Scripts/HashTable/ChainingHashTable.cs:163-165 | Add replaces a non-null home chain with a new chain holding only the new entry. The older copy has this at lines 162-164 | Add key 0, then key 16 (both home 0 in 16 buckets); key 0 is gone. The repository's test adds the keys 0 to 99 in order, and every key is added while it is below the size, so the test never reaches this defect | append to the existing chain | high, not executed | ChainingFindings.AddAsWrittenLosesEntry | ChainingSpec.AddKeepsOthers |
| Assets/Scripts/HashTable/ChainingHashTable.cs:193 | ContainsKey compares the whole KeyValuePair with the key. Such an Equals is false (for every key type other than object and ValueType; see Hashing.PairEqualsKey under Left out), and a null home bucket throws in the foreach | any stored key: ContainsKey answers false | compare the entry's key | high, not executed | ChainingFindings.ContainsKeyAsWrittenMisses | Chaining.ChainingHashTable.ContainsKey |
| Assets/Scripts/HashTable/ChainingHashTable.cs:240 | Remove compares the whole KeyValuePair with the key, so nothing is ever removed (for every key type other than object and ValueType; see Hashing.PairEqualsKey under Left out) | any stored key: Remove answers false and the key stays | compare the entry's key | high, not executed | ChainingFindings.RemoveAsWrittenKeeps | ChainingSpec.RemoveCorrect |
| Assets/Scripts/HashTable/SimpleHashTable.cs:179 | ContainsKey compares the whole KeyValuePair with the key, which is false (for every key type other than object and ValueType; see Hashing.PairEqualsKey under Left out) | any stored key: ContainsKey answers false | compare the slot's key | high, not executed | SimpleFindings.ContainsKeyAsWrittenMisses | Simple.SimpleHashTable.ContainsKey |
| Assets/Scripts/HashTable/SimpleHashTable.cs:218 | Remove compares the whole KeyValuePair with the key, which is false (for every key type other than object and ValueType; see Hashing.PairEqualsKey under Left out) | any stored key: Remove answers false and the key stays | compare the slot's key | high, not executed | SimpleFindings.RemoveAsWrittenKeeps | SimpleSpec.RemoveCorrect |
| Assets/Scripts/HashTable/ChainingHashTable.cs:84 | Keys and Values (line 100) run a foreach over every bucket, including null ones | a fresh table: every bucket is null and Keys throws NullReferenceException | skip null buckets | high, not executed | ChainingFindings.EntriesAsWrittenFresh | Chaining.ChainingHashTable.Keys |
| Assets/Scripts/HashTable/ChainingHashTable.cs:172-178 | Clear nulls every bucket but leaves count unchanged | Add one key, then Clear: Count is still 1 | reset count to 0 | high, not executed | ChainingFindings.ClearAsWrittenKeepsCount | Chaining.ChainingHashTable.Clear |
| Assets/Scripts/HashTable/SimpleHashTable.cs:160-166 | Clear frees every slot but leaves count unchanged | Add one key, then Clear: Count is still 1 | reset count to 0 | high, not executed | SimpleFindings.ClearAsWrittenKeepsCount | Simple.SimpleHashTable.Clear |
| Assets/Scripts/HashTable/OpenAddressingHashTable.cs:121 | Keys writes `keys[count]` into a list created with capacity count but no elements. Values does the same at line 137 | any table holding an entry: ArgumentOutOfRangeException | append each key | high, not executed | OpenAddressing.OpenAddressingHashTable.KeysAsWritten | OpenAddressing.OpenAddressingHashTable.Keys |
