# A verified model of bifurcan's `LinearMap`

`io.lacuna.bifurcan.LinearMap` is a mutable, single-owner hash map. Callers supply its key hash
and key equality. It keeps its state in two arrays that refer to each other:

- **`entries`** is dense: key `i` sits at slot `2i` and its value at slot `2i + 1`, for the first
  `size` pairs.
- **`table`** has a power-of-two length and holds packed `long` rows. Each row holds a 32-bit
  scrambled hash, the index of its key in `entries`, and a tombstone bit.

Rows are placed by Robin Hood open addressing. A lookup walks forward from the hash's home row.
It stops at an empty row, or at a row that sits closer to its own home than the walk is to the
hash's home. Removal moves the last pair into the freed slots and leaves a tombstone in the table.

## What the model covers

The model is one class, `LinearMaps.LinearMap`, with the source's fields in their source form:

- `table: array<Long>` holds the packed rows as Java bit patterns;
- `entries: array<Slot<K, V>>` holds `Null`, keys and values in alternating slots;
- `size` and `indexMask` are plain fields;
- `hashFn` and `equalsFn` are constant function-valued fields.

Ghost fields give the abstract view:

- `rows` is the decoded table;
- `contents` is the sequence of pairs in `entries` order;
- `pos` is where each pair's row sits.

`Valid()` ties the two views together. It holds the Robin Hood order of the live rows and the
one-to-one match between live rows and the first `size` pairs. It also holds that keys are
unique under `equalsFn`, and that equal keys hash alike.

Each operation of the source is a method that keeps to the source's loops and branches:

- `tableIndex`, `contains`, `get`;
- both `put`s and `putCheckEquality`;
- `putTable` and `putEntry`;
- `update`, `remove`, `resize`, `clone`;
- `split`, `merge`, `difference`, `intersection`, `combine`, `isSubset`, `size`.

Each method is proved against `Valid()` and against pure functions on `contents` (module
`Contents`), whose lookup behaviour is proved in lemmas. The pure Java expressions are
functions, module by module:

- the bit layout of a row (module `Rows`, on Java's masks);
- `keyHash`, `estimatedIndex`, `nextIndex`, `probeDistance` and the sizing rule of `resize`
  (module `Probing`).

Java `int` and `long` values are unsigned bit patterns (`Word`, `Long`). Every mask, shift and
exclusive-or is written out on them (module `Bits`).

The supporting modules:

- `RobinHoodInvariant` states the table invariant and counts live rows.
- `Search` explains why the lookup walk may stop where it does.
- `Insertion` and `Putting` carry the insertion walk, including the tombstone bookkeeping of
  `putTable` and `put(hash, …)`.
- `Removal` covers swap-with-last deletion.
- `Rehashing` covers moving rows into the new table of `resize`.
- `Bulk` covers the table-order scans of `split`, `combine` and `merge`.
- `Layout` and `Storage` tie the arrays to the ghost view.

### Where the code does not do what it evidently means

Each of these is a row under "## Findings". The model states what the code does as written, and
the rest of the model uses the corrected member.

- **`clone()`.** A clone should be a copy of the map. The code asks for a new map of capacity
  `(int)(entries.length * 0.95)`, which can have a longer table. It then copies the old rows in
  and keeps the old `indexMask`. `LinearMap.Clone` is the exact copy. `CloneMaskStale` shows what
  the code as written leads to.
- **`isSubset(m)`.** Its caller `containsAll(map)` uses it for `LinearMap`s. For other maps the
  same method tests `map.keys().stream().allMatch(this::contains)`. The code walks `m.table` but
  probes `m.tableIndex`, so it tests `m` against itself. `IsSubset` models that, and proves it is
  always true. `ContainsAll` probes this map instead.
- **`put` after a full lap.** The walk of `put` can pass every row of a table that has no empty
  row. The code then writes the new row over the home row, and a live row that passed over that
  row can no longer be found. `LapOverwrite` shows a table, reached by `put` and `remove`, where
  this happens. `PlaceRow` places nothing in that case.
- **Results of `split`, `difference` and `intersection`.** They are built with
  `new LinearMap<>(n)`, which uses `Objects::hashCode` and `Objects::equals`. Their rows are then
  hashed with this map's `hashFn`. `DefaultHashBreaks` shows that such a result breaks its own
  table invariant. The model gives the results this map's functions.

## Model

All source paths are in the bifurcan repository.

| member | source | states |
|---|---|---|
| Rows.Construct | src/io/lacuna/bifurcan/LinearMap.java:593-595 | the packed row is the hash in the low 32 bits plus the key index modulo 2^31 shifted up by 32 |
| Rows.Hash | src/io/lacuna/bifurcan/LinearMap.java:597-599 | `hash(row)` is the row's low 32 bits |
| Rows.KeyIndex | src/io/lacuna/bifurcan/LinearMap.java:605-607 | `keyIndex(row)` is bits 32 to 62 of the row |
| Rows.Tombstone | src/io/lacuna/bifurcan/LinearMap.java:609-611 | a row is a tombstone exactly when bit 63 is set |
| Rows.Populated | src/io/lacuna/bifurcan/LinearMap.java:601-603 | a row is populated exactly when its hash is not `NONE` and it is not a tombstone |
| Rows.AddTombstone | src/io/lacuna/bifurcan/LinearMap.java:613-615 | `addTombstone` sets bit 63 and leaves the other bits |
| Rows.RemoveTombstone | src/io/lacuna/bifurcan/LinearMap.java:617-619 | `removeTombstone` clears bit 63 and leaves the other bits |
| Rows.Widen | src/io/lacuna/bifurcan/LinearMap.java:594 | widening an int to a long keeps its low 32 bits |
| Rows.ShiftRight32 | src/io/lacuna/bifurcan/LinearMap.java:606 | the arithmetic shift `row >> 32` has the same low 31 bits as the row divided by 2^32 |
| Rows.ConstructRoundTrip | src/io/lacuna/bifurcan/LinearMap.java:593-611 | for a key index below 2^31, `hash` and `keyIndex` of `construct(h, k)` give back `h` and `k`, with no tombstone |
| Rows.ConstructTruncatesKeyIndex | src/io/lacuna/bifurcan/LinearMap.java:593-595 | a key index of 2^31 or more loses its top bit in `construct` |
| Rows.AddTombstoneKeepsFields | src/io/lacuna/bifurcan/LinearMap.java:613-615 | `addTombstone` keeps hash and key index, sets the tombstone, and makes the row unpopulated |
| Rows.RemoveTombstoneKeepsFields | src/io/lacuna/bifurcan/LinearMap.java:617-619 | `removeTombstone` keeps hash and key index and clears the tombstone |
| Rows.DecodeEncode | src/io/lacuna/bifurcan/LinearMap.java:587-620 | encoding a (hash, key index, tombstone) triple and decoding it gives the triple back |
| Rows.EncodeDecode | src/io/lacuna/bifurcan/LinearMap.java:587-620 | every long is the encoding of its decoded fields, so the two forms are in bijection |
| Probing.KeyHash | src/io/lacuna/bifurcan/LinearMap.java:634-641 | `keyHash` is never `NONE`: it is the scrambled hash, or `FALLBACK` when that is `NONE` |
| Probing.ZeroHashFallsBack | src/io/lacuna/bifurcan/LinearMap.java:634-641 | a raw hash of 0 is stored as `FALLBACK` |
| Probing.EstimatedIndex | src/io/lacuna/bifurcan/LinearMap.java:622-624 | the home row of a hash is the hash modulo the table length |
| Probing.NextIndex | src/io/lacuna/bifurcan/LinearMap.java:626-628 | the next index is `idx + 1`, wrapping to 0 after the last row |
| Probing.ProbeDistance | src/io/lacuna/bifurcan/LinearMap.java:630-632 | `probeDistance` is how far forward of the hash's home the index lies, plus the length it reads, modulo the table length; it is that distance itself when the length is the table's own |
| Probing.ProbeDistanceStaleLength | src/io/lacuna/bifurcan/LinearMap.java:446-452 | during a rehash, `probeDistance` reads the old table length: it gives the true distance when the old table is not shorter, and the true distance plus the old length when that sum stays below the new length |
| Probing.Capacity | src/io/lacuna/bifurcan/LinearMap.java:439 | the capacity `resize` uses is at least 4 and at least the one asked for |
| Probing.TableLog | src/io/lacuna/bifurcan/LinearMap.java:440 | the table length is the least power of two `p` with `19p >= 20 * capacity`; it exceeds the capacity, and is at most 2^30 for a capacity within `MAX_CAPACITY` |
| RobinHoodInvariant.WriteKeepsRobinHood | src/io/lacuna/bifurcan/LinearMap.java:491-519 | writing a row where no passing live row is farther from its home keeps every live row reachable from its home |
| RobinHoodInvariant.FullWalkHasNoEmptyRow | src/io/lacuna/bifurcan/LinearMap.java:487-489 | a walk that passes every row without stopping means the table has no empty row, which is the only case where `putTable` throws |
| RobinHoodInvariant.CountLiveEmptyRow | src/io/lacuna/bifurcan/LinearMap.java:433-441 | a table without tombstones that has fewer live rows than rows has an empty row, so its walks stop |
| Search.ProbeStop | src/io/lacuna/bifurcan/LinearMap.java:474-476 | a walk that stops at an empty row, or at a row closer to its home than the walk, has passed every row that could match |
| Search.OnlyMatch | src/io/lacuna/bifurcan/LinearMap.java:472-473 | a row matching the hash and an equal key is the row of the one pair holding that key |
| Search.FoundValue | src/io/lacuna/bifurcan/LinearMap.java:176-179 | the slot after the matching row's key slot holds the value stored for the key |
| Search.NotFound | src/io/lacuna/bifurcan/LinearMap.java:468-478 | when no row matches, no pair holds the key |
| Putting.StoppedAbsent | src/io/lacuna/bifurcan/LinearMap.java:553-564 | a `put` walk that stops without a match means the key is absent, and appending the pair keeps keys unique |
| Putting.FoundMerged | src/io/lacuna/bifurcan/LinearMap.java:533-543 | merging into the value slot of the matching row gives the contents of `put` for a present key |
| Putting.SearchStop | src/io/lacuna/bifurcan/LinearMap.java:557-564 | the walk of `put` stops at an empty row or a row closer to its home, with the bookkeeping of that row done, and that is where `PutWalk` ends |
| Putting.SearchLapped | src/io/lacuna/bifurcan/LinearMap.java:547-564 | a walk of `put` that has passed every row found no match and no empty row, and `PutWalk` ends there |
| Putting.LappedPlaced | src/io/lacuna/bifurcan/LinearMap.java:571-572 | after a walk that passed every row with a tombstone recorded, writing the new row over that tombstone places the pairs with the new one |
| Putting.LappedFull | src/io/lacuna/bifurcan/LinearMap.java:547-564 | a walk of `put` that passes every row means the table has no empty row |
| Putting.TombstonesSettle | src/io/lacuna/bifurcan/LinearMap.java:558-564 | in a table of tombstones and empty rows, the walk of `put` is never `Unsettled`: it records the first tombstone it passes and keeps it |
| Putting.LapWrite | src/io/lacuna/bifurcan/LinearMap.java:558-573 | once the walk of `put` is back at its home row, the source writes over the tombstone recorded, or over the home row when none is |
| Putting.LapOverwrite | src/io/lacuna/bifurcan/LinearMap.java:545-581 | in a table whose live rows are all reachable, the walk of `put` for a new key can pass all eight rows with nothing recorded; the source's write over the home row then leaves a live row unreachable |
| Insertion.PlaceAtLap | src/io/lacuna/bifurcan/LinearMap.java:571-572 | writing the carried row over the tombstone a full walk recorded keeps every row reachable and adds the new pair |
| Putting.FoundUpdated | src/io/lacuna/bifurcan/LinearMap.java:188-191 | applying the function in the value slot of the matching row gives the contents of `update` for a present key |
| Contents.IndexOf | src/io/lacuna/bifurcan/LinearMap.java:472 | the index found is the first pair whose key is `equalsFn`-equal to the key, or -1 when there is none |
| Contents.LookupPut | src/io/lacuna/bifurcan/LinearMap.java:135-141 | after `put(k, v, f)`, `k` maps to `f(old, v)` when present and to `v` otherwise; other keys are unchanged |
| Contents.PutUnique | src/io/lacuna/bifurcan/LinearMap.java:566-569 | `put` keeps keys unique, and the size grows by exactly one when the key was absent |
| Contents.LookupRemove | src/io/lacuna/bifurcan/LinearMap.java:144-167 | after `remove(k)`, `k` is absent and other keys keep their values |
| Contents.RemoveUnique | src/io/lacuna/bifurcan/LinearMap.java:147-149 | `remove` keeps keys unique, and the size drops by exactly one when the key was present |
| Contents.LookupUpdate | src/io/lacuna/bifurcan/LinearMap.java:185-197 | after `update(k, fn)`, `k` maps to `fn` of its old value, or of nothing; other keys are unchanged |
| Contents.UpdateIsPut | src/io/lacuna/bifurcan/LinearMap.java:192-194 | `update` of an absent key is `put(k, fn(null))` |
| Contents.PutAllUnique | src/io/lacuna/bifurcan/LinearMap.java:382-387 | putting a sequence of pairs one after another keeps keys unique |
| Contents.LookupPutAll | src/io/lacuna/bifurcan/LinearMap.java:382-387 | putting another map's pairs gives every key the merge of both maps' values, the receiver's first |
| Contents.MergedFlip | src/io/lacuna/bifurcan/LinearMap.java:376-378 | merging the other way round with the flipped function gives the same values |
| Removal.RemovedPlaced | src/io/lacuna/bifurcan/LinearMap.java:153-163 | after the last pair's row is repointed and the removed row becomes a tombstone, the table places exactly the remaining pairs |
| Removal.RemovedState | src/io/lacuna/bifurcan/LinearMap.java:144-167 | all of `remove`'s writes leave a map holding `Contents.Remove`, with unique keys and proper slots |
| Rehashing.RehashDone | src/io/lacuna/bifurcan/LinearMap.java:446-455 | once every old row has been passed, the new table places every pair and has no tombstone |
| Rehashing.ResizeRoom | src/io/lacuna/bifurcan/LinearMap.java:433-441 | the table length `resize` picks leaves room for every pair, and for the walk's stale-length offset when the table grows |
| Bulk.CombinedLookup | src/io/lacuna/bifurcan/LinearMap.java:417-431 | what `combine` appends holds exactly the keys `m` lacks (or holds) with this map's values, with unique keys |
| Bulk.IntersectionBound | src/io/lacuna/bifurcan/LinearMap.java:397-399 | an intersection has at most as many pairs as the smaller map, so `min(size, m.size())` is room enough |
| Bulk.FoundIff | src/io/lacuna/bifurcan/LinearMap.java:422-423 | `m.tableIndex` gives -1 exactly when `m` lacks the key |
| Bulk.MergedLookup | src/io/lacuna/bifurcan/LinearMap.java:380-388 | putting the pairs of every live row of `m` into a copy gives every key the merge of both maps' values |
| Bulk.PartsAgree | src/io/lacuna/bifurcan/LinearMap.java:283-303 | each part of `split` holds its keys with this map's values |
| Bulk.PartsDisjoint | src/io/lacuna/bifurcan/LinearMap.java:283-303 | no key is in two parts of `split` |
| Bulk.PartsCover | src/io/lacuna/bifurcan/LinearMap.java:283-303 | every key of the map is in some part of `split` |
| Bulk.PartWithin | src/io/lacuna/bifurcan/LinearMap.java:282-287 | each range of `split(parts)` lies inside the table and is at most `MAX_CAPACITY` rows long, so `new LinearMap<>(finish - start)` never throws |
| Bulk.PartFits | src/io/lacuna/bifurcan/LinearMap.java:282-285 | on a table of even length, every range of `split`, the last one included, is at most half the table |
| Bulk.EveryPairFound | src/io/lacuna/bifurcan/LinearMap.java:364-370 | when the key of every live row is a key of another map, every key of the map is |
| Bulk.DefaultHashBreaks | src/io/lacuna/bifurcan/LinearMap.java:287-296 | rows hashed with this map's `hashFn` cannot be laid out so that they satisfy the table invariant under another hash function that hashes one of the keys differently |
| Bulk.DefaultHashMisses | src/io/lacuna/bifurcan/LinearMap.java:391-395 | for a key that this map hashes to 1 and `Objects::hashCode` to 97, an 8-row table holding its row at 1 is placed under this map's hash, while the default hash sends the lookup to row 7, which is empty, so `tableIndex` returns -1 there |
| Bulk.OwnRowsFound | src/io/lacuna/bifurcan/LinearMap.java:403-415 | probing a map for the key of each live row of that same map always finds a row, so `isSubset` as written is always true |
| Storage.NewTable | src/io/lacuna/bifurcan/LinearMap.java:445-447 | `new long[n]` holds `n` empty rows |
| Storage.NewEntries | src/io/lacuna/bifurcan/LinearMap.java:459-461 | `new Object[n]` holds no pairs |
| Storage.CopyTable | src/io/lacuna/bifurcan/LinearMap.java:252 | the copied table is fresh, of the same length, and holds the same rows |
| Storage.CopyEntries | src/io/lacuna/bifurcan/LinearMap.java:461-463 | the copied entries are fresh, of the new length, and hold the same pairs |
| Storage.ReadRow | src/io/lacuna/bifurcan/LinearMap.java:470-471 | the fields read from `table[q]` are those of the decoded row at `q` |
| Storage.WriteRow | src/io/lacuna/bifurcan/LinearMap.java:492 | `table[q] = construct(hash, keyIndex)` makes the row at `q` live with that hash and key index |
| Storage.TombstoneRow | src/io/lacuna/bifurcan/LinearMap.java:162 | the row at `q` keeps its hash and key index and becomes a tombstone |
| Storage.SetSlot | src/io/lacuna/bifurcan/LinearMap.java:191 | writing one slot of `entries` changes that slot only |
| LinearMaps.LinearMap.constructor | src/io/lacuna/bifurcan/LinearMap.java:105-115 | a new empty valid map with the given functions, `2 * max(4, capacity)` slots and the matching table length |
| LinearMaps.LinearMap.Clone | src/io/lacuna/bifurcan/LinearMap.java:248-255 | a valid map in fresh arrays of the same lengths, holding the same rows, pairs and size, with the same functions |
| LinearMaps.LinearMap.TableIndex | src/io/lacuna/bifurcan/LinearMap.java:468-478 | the result is -1 or a row index; a non-negative result is a live row with this hash whose key equals `key`; -1 means no row matches |
| LinearMaps.LinearMap.Contains | src/io/lacuna/bifurcan/LinearMap.java:169-172 | true exactly when the map holds the key |
| LinearMaps.LinearMap.Get | src/io/lacuna/bifurcan/LinearMap.java:174-183 | the value stored for the key, or the default when the key is absent |
| LinearMaps.LinearMap.PutEntry | src/io/lacuna/bifurcan/LinearMap.java:523-526 | the two slots at `keyIndex` get the key and value; no other slot changes |
| LinearMaps.LinearMap.PutTable | src/io/lacuna/bifurcan/LinearMap.java:480-521 | the carried row and the rows it displaces are written into the table in Robin Hood order, and it then places the pairs with the new one; on a table with an empty row this always succeeds |
| LinearMaps.LinearMap.Probe | src/io/lacuna/bifurcan/LinearMap.java:545-564 | the walk of `put` ends at a row matching the key, where a lookup would stop, or back at the home row after passing every row; it ends as `PutWalk` does, with the tombstone it recorded |
| LinearMaps.LinearMap.MergeAt | src/io/lacuna/bifurcan/LinearMap.java:533-543 | at a matching row the map becomes `put` of a present key: the merged value, nothing else changed |
| LinearMaps.LinearMap.PlaceRow | src/io/lacuna/bifurcan/LinearMap.java:566-580 | the new pair's row goes over the recorded tombstone, over the empty row or tombstone the walk stopped at, or is carried on by `putTable`; the table then places the pairs with the new one; it succeeds whenever a tombstone was recorded, the stopping row is not live, or the table has an empty row |
| LinearMaps.LinearMap.Append | src/io/lacuna/bifurcan/LinearMap.java:566-580 | an absent key's pair is appended to the contents, and the map stays valid; it succeeds under the same conditions as `PlaceRow` |
| LinearMaps.LinearMap.PutHashed | src/io/lacuna/bifurcan/LinearMap.java:545-583 | the map becomes `Contents.Put` of the pair, in the same arrays; it succeeds on a table with an empty row and whenever the walk is not `Unsettled` |
| LinearMaps.LinearMap.AppendRow | src/io/lacuna/bifurcan/LinearMap.java:293-296 | `putEntry` at `size << 1`, `putTable` and `size++` append a new key's pair and keep the map valid |
| LinearMaps.LinearMap.PutTableHome | src/io/lacuna/bifurcan/LinearMap.java:528-530 | `putTable` from the hash's home places the pairs with the new last one |
| LinearMaps.LinearMap.Put | src/io/lacuna/bifurcan/LinearMap.java:135-141 | the map becomes `Contents.Put` of the pair (growing `entries` first when full); it succeeds within `MAX_CAPACITY` whenever the walk `Settles`; when growing `entries` is refused beyond `MAX_CAPACITY`, the map is left valid with its old contents |
| LinearMaps.LinearMap.PutValue | src/io/lacuna/bifurcan/LinearMap.java:130-132 | `put` whose new value replaces the old, with the success condition of `Put` and the map intact after a refused grow |
| LinearMaps.LinearMap.UpdateAt | src/io/lacuna/bifurcan/LinearMap.java:188-191 | at a matching row the map becomes `Contents.Update`: the function of the old value, in place |
| LinearMaps.LinearMap.Update | src/io/lacuna/bifurcan/LinearMap.java:185-197 | the map becomes `Contents.Update` of the key: in place when present, `put(key, fn(null))` otherwise, with the success condition of `Put` and the map intact after a refused grow |
| LinearMaps.LinearMap.MoveLast | src/io/lacuna/bifurcan/LinearMap.java:153-160 | the last pair's row is repointed at the freed slots, keeping its hash, and the last pair is copied there |
| LinearMaps.LinearMap.RepointLast | src/io/lacuna/bifurcan/LinearMap.java:155-158 | the row `tableIndex` finds for the last key is the last pair's row; it gets the new key index and keeps its hash |
| LinearMaps.LinearMap.Vacate | src/io/lacuna/bifurcan/LinearMap.java:150-163 | the arrays become the removed layout: rows repointed and tombstoned, and the last slots nulled |
| LinearMaps.LinearMap.Bury | src/io/lacuna/bifurcan/LinearMap.java:162-163 | the removed row becomes a tombstone and the last pair's two slots become null |
| LinearMaps.LinearMap.RemoveAt | src/io/lacuna/bifurcan/LinearMap.java:147-164 | a present key's pair leaves the map, the last pair takes its place, and the map stays valid |
| LinearMaps.LinearMap.SetState | src/io/lacuna/bifurcan/LinearMap.java:149 | sets the size and the ghost view, and leaves the arrays and the mask alone |
| LinearMaps.LinearMap.Remove | src/io/lacuna/bifurcan/LinearMap.java:144-167 | the map becomes `Contents.Remove` of the key, in the same arrays; an absent key changes nothing |
| LinearMaps.LinearMap.Rehash | src/io/lacuna/bifurcan/LinearMap.java:446-455 | the fresh table gets every live row, placing every pair without tombstones |
| LinearMaps.LinearMap.RehashRow | src/io/lacuna/bifurcan/LinearMap.java:448-453 | one old row moves when it is populated; the new table then places the pairs of the rows passed |
| LinearMaps.LinearMap.RehashPut | src/io/lacuna/bifurcan/LinearMap.java:449-451 | `putTable(nTable, hash, keyIndex, estimatedIndex(hash))` succeeds and adds the pair of that old row |
| LinearMaps.LinearMap.Resize | src/io/lacuna/bifurcan/LinearMap.java:433-466 | fails exactly beyond `MAX_CAPACITY`, changing nothing; otherwise gives the same contents with `2 * max(4, capacity)` slots and the matching table length, and a rehashed, tombstone-free table when the length changes |
| LinearMaps.LinearMap.ResizeTable | src/io/lacuna/bifurcan/LinearMap.java:440-455 | sets the mask for the new length, and builds a fresh, rehashed table only when the length changes |
| LinearMaps.LinearMap.ResizeEntries | src/io/lacuna/bifurcan/LinearMap.java:457-464 | a fresh entries array of `2 * capacity` slots holds the same pairs |
| LinearMaps.LinearMap.Combine | src/io/lacuna/bifurcan/LinearMap.java:417-431 | `result` gets, in table order, exactly this map's pairs whose keys `m` lacks (or holds), with this map's values |
| LinearMaps.LinearMap.CombineRows | src/io/lacuna/bifurcan/LinearMap.java:418-430 | after the loop, `result` holds the kept pairs of every row, in table order |
| LinearMaps.LinearMap.CombineRow | src/io/lacuna/bifurcan/LinearMap.java:419-429 | one populated row's pair is appended when the predicate passes it |
| LinearMaps.LinearMap.CombineTest | src/io/lacuna/bifurcan/LinearMap.java:420-423 | the pair read is that of the row, and the test passes exactly when `m`'s holding of the key matches the predicate |
| LinearMaps.LinearMap.AppendFresh | src/io/lacuna/bifurcan/LinearMap.java:424-427 | adding a new key to a tombstone-free map always succeeds and appends its pair |
| LinearMaps.LinearMap.Difference | src/io/lacuna/bifurcan/LinearMap.java:391-395 | a fresh valid map holding exactly this map's keys that `m` lacks, with this map's values |
| LinearMaps.LinearMap.Intersection | src/io/lacuna/bifurcan/LinearMap.java:397-401 | a fresh valid map holding exactly this map's keys that `m` holds, with this map's values |
| LinearMaps.LinearMap.Merge | src/io/lacuna/bifurcan/LinearMap.java:314-318 | every key maps to the merge of both maps' values, this map's first; this always succeeds within `MAX_CAPACITY` on tombstone-free inputs |
| LinearMaps.LinearMap.MergeLinear | src/io/lacuna/bifurcan/LinearMap.java:375-389 | the same, including the branch that hands the work to the larger `m` with the merge function flipped |
| LinearMaps.LinearMap.MergeSmaller | src/io/lacuna/bifurcan/LinearMap.java:380-388 | the resized clone with every pair of `m` put into it holds the merge of both maps |
| LinearMaps.LinearMap.ResizedClone | src/io/lacuna/bifurcan/LinearMap.java:380-381 | a fresh copy of this map with room for `extra` more pairs, failing exactly beyond `MAX_CAPACITY` |
| LinearMaps.LinearMap.PutRows | src/io/lacuna/bifurcan/LinearMap.java:382-387 | this map becomes its old contents with the pairs of `m`'s live rows put in, in table order |
| LinearMaps.LinearMap.PutRow | src/io/lacuna/bifurcan/LinearMap.java:383-386 | one populated row of `m` has its pair put in; other rows change nothing |
| LinearMaps.LinearMap.PutPair | src/io/lacuna/bifurcan/LinearMap.java:385 | the put of that row's pair extends the table-order progress by one pair |
| LinearMaps.LinearMap.Split | src/io/lacuna/bifurcan/LinearMap.java:275-306 | `[this]` when `min(parts, size) <= 1`; otherwise at most `min(parts, size)` non-empty fresh valid parts that agree with this map, cover every key, and share none |
| LinearMaps.LinearMap.SplitFacts | src/io/lacuna/bifurcan/LinearMap.java:283-303 | parts made from ranges that together cover the table agree with the map, cover it, and are disjoint |
| LinearMaps.LinearMap.SplitParts | src/io/lacuna/bifurcan/LinearMap.java:282-303 | the kept parts, at most `parts` of them, are the non-empty ones among `parts` contiguous ranges, the last reaching the end of the table |
| LinearMaps.LinearMap.SplitStep | src/io/lacuna/bifurcan/LinearMap.java:284-302 | part `p` covers rows `p * partSize` up to the next part's start, or to the end for the last; it is kept only when non-empty, and the source's constructor accepts its length |
| LinearMaps.LinearMap.SplitPart | src/io/lacuna/bifurcan/LinearMap.java:287-298 | a fresh valid map holding, in table order, the pairs of the live rows in the range |
| LinearMaps.LinearMap.SplitRows | src/io/lacuna/bifurcan/LinearMap.java:289-298 | the loop appends the pairs of the range's live rows, in order |
| LinearMaps.LinearMap.SplitRow | src/io/lacuna/bifurcan/LinearMap.java:290-297 | one live row's pair is appended to the part |
| LinearMaps.LinearMap.PairAt | src/io/lacuna/bifurcan/LinearMap.java:292-294 | the key and value read through a live row's key index are that row's pair |
| LinearMaps.LinearMap.FindsOwnRow | src/io/lacuna/bifurcan/LinearMap.java:405-408 | true exactly when probing the map for row `i`'s key finds a row |
| LinearMaps.LinearMap.IsSubset | src/io/lacuna/bifurcan/LinearMap.java:403-415 | true exactly when every live row of `m` is found by `m`'s own `tableIndex`, which is always |
| LinearMaps.LinearMap.ContainsAll | src/io/lacuna/bifurcan/LinearMap.java:364-370 | probing this map for the key of each live row of `m` gives true exactly when every key of `m` is a key of this map |
| LinearMaps.LinearMap.Size | src/io/lacuna/bifurcan/LinearMap.java:219-222 | the number of pairs |
| LinearMaps.NewShape | src/io/lacuna/bifurcan/LinearMap.java:439-441 | a new map's mask is its table length minus one, and its entries are shorter than twice the table |
| LinearMaps.CloneCapacity | src/io/lacuna/bifurcan/LinearMap.java:249 | `(int)(entries.length * LOAD_FACTOR)` with the factor 19/20 |
| LinearMaps.CloneMaskStale | src/io/lacuna/bifurcan/LinearMap.java:248-255 | a clone of a capacity-5 map has 16 rows but mask 7; a later `resize(9)` does not rehash yet sets mask 15, moving a hash's home from row 0 to row 8 |

## Left out

- Float load factor: `LOAD_FACTOR = 0.95f` is the exact ratio 19/20 in `Probing.TableLog` and `LinearMaps.CloneCapacity`. The float rounding of `capacity / LOAD_FACTOR` is not modelled.
- Probing.TableLog: `log2Ceil` and `Math.ceil` are not modelled separately; only their combined result is.
- Input and output, the `from(...)` factories, `entries()`, `iterator()`, `equals`, `hashCode`, `toString` and `forked()` are not modelled. They delegate to `Maps`, `Lists` and `Iterators`, which are not part of this model, or they only throw.
- The branches of `merge`, `difference`, `intersection` and `containsAll` for maps and sets that are not `LinearMap`s are not modelled. They call `Maps`, `Sets` or Java streams, which are not part of this model.
- `union` is not modelled separately. It is `merge` with `Maps.MERGE_LAST_WRITE_WINS`, which `Contents.LastWriteWins` models for `put`.
- The caller's `hashFn` and `equalsFn` are parameters. The class requires that `equalsFn` is an equivalence and that equal keys hash alike.
- `Object` slots are modelled by a `Slot` datatype: `Null`, a key or a value with their static types. Java's unchecked casts are not modelled.
- Result lists of `split` are Dafny sequences rather than bifurcan `List`s.
- LinearMaps.LinearMap.constructor: requires `initialCapacity <= MAX_CAPACITY` instead of modelling the exception the source throws, because a Dafny constructor cannot fail.
- LinearMaps.LinearMap.Resize: requires `capacity >= size`. For a smaller capacity the source's `arraycopy` of `size << 1` slots fails, and every caller passes at least `size`.
- LinearMaps.LinearMap.PutTable: also gives up when the carried row's distance reaches the table length, besides the source's `abs > table.length` throw. Both cases only arise in a table without an empty row, and on a table with one it always succeeds.
- LinearMaps.LinearMap.Probe: stops once it is back at the home row after passing every row. The source's loop reads the home row once more before it stops; `Putting.LapWrite` models where that round makes it write.
- LinearMaps.LinearMap.PlaceRow: after a full lap with no tombstone recorded it places nothing and reports failure. The source writes over the home row there and loses a pair (see "## Findings").
- LinearMaps.LinearMap.PutHashed: claims no success when the walk ends `Unsettled` in a table without an empty row. There the source either writes over the home row after a full lap (see "## Findings") or hands the row to `putTable` at a live row. The model's `PutTable` promises success only on a table with an empty row.
- LinearMaps.LinearMap.Put: has the success condition of `PutHashed`, as `Settles(key)`, besides room within `MAX_CAPACITY`.
- LinearMaps.LinearMap.PutValue: has the success condition of `Put`.
- LinearMaps.LinearMap.Update: has the success condition of `Put`.
- LinearMaps.LinearMap.Merge: promises success only for inputs without tombstones and within `MAX_CAPACITY`. With tombstones, each `put` of the loop would need `Settles` in the table left by the puts before it, and the model does not track that across the loop.
- LinearMaps.LinearMap.MergeLinear: has the same success condition as `Merge`.
- LinearMaps.LinearMap.MergeSmaller: has the same success condition as `Merge`, for the same reason.
- LinearMaps.LinearMap.PutRows: promises success only when this map has no tombstones, for the same reason as `Merge`.
- The bulk operations assume that `m` shares this map's `hashFn` and `equalsFn` (`SameKeys`), as the source does when it probes `m` with hashes read from this map's rows.
- Aliasing between a map and its argument in the bulk operations is covered only by each method's frame, not separately.
- `keyHash` is computed from the value returned by `hashFn`, as a 32-bit pattern.

## Findings

| source | as written | input that shows it | evidently intended | confidence | as-written member | corrected member |
|---|---|---|---|---|---|---|
| src/io/lacuna/bifurcan/LinearMap.java:558-581 | after a walk that passes every row with no tombstone recorded, the loop reads the home row again and stops there. A tombstone there is recorded and the new row is written over it. A live home row goes to `putTable`, which laps the table again, overwrites it, and throws with that row's pair in hand | `new LinearMap(7)` (8 rows) and keys whose scrambled hashes are 7, 15, 23, 31, 8, 16 and 24: put all seven, remove 7, put 32, remove 15, put 40, remove 23. This gives `LapTable`. Then `put` of a key hashing to 48 is written over row 0, and `get` of the key hashing to 31 no longer finds it | `put` adds the pair and every other key stays in the map | not executed | Putting.LapOverwrite | LinearMaps.LinearMap.PlaceRow |
| src/io/lacuna/bifurcan/LinearMap.java:403-415 | `isSubset(m)` walks `m.table` and probes `m.tableIndex`, so it tests `m` against itself | `containsAll(m)` on an empty map with a non-empty `LinearMap` `m` is true | every key of `m` is a key of this map, as `containsAll` tests for maps that are not `LinearMap`s (lines 364-370) | not executed | LinearMaps.LinearMap.IsSubset | LinearMaps.LinearMap.ContainsAll |
| src/io/lacuna/bifurcan/LinearMap.java:287-296 | each part of `split` is `new LinearMap<>(finish - start)`, with `Objects::hashCode` and `Objects::equals`, but gets rows hashed with this map's `hashFn` | `new LinearMap<>(16, k -> 1, Objects::equals)` (32 rows) holding `"a"` and `"b"`, at rows 1 and 2. `split(2)` keeps one part of 32 rows with the same rows, and its `contains("a")` starts at row 7, the home of `"a".hashCode()`, which is empty | every part has this map's `hashFn` and `equalsFn` | not executed | Bulk.DefaultHashBreaks | LinearMaps.LinearMap.Split |
| src/io/lacuna/bifurcan/LinearMap.java:391-395 | `difference` builds its result with `new LinearMap<>(size)`, with the default functions, and fills it with rows hashed with this map's `hashFn` | a map with `hashFn` `k -> 1` holding only `"a"`, minus an empty `LinearMap`: the result (8 rows) holds the row at 1, and its `contains("a")` stops at the empty row 7 | the result has this map's `hashFn` and `equalsFn` | not executed | Bulk.DefaultHashMisses | LinearMaps.LinearMap.Difference |
| src/io/lacuna/bifurcan/LinearMap.java:397-401 | `intersection` builds its result with `new LinearMap<>(min(size, m.size()))`, with the default functions, and fills it with rows hashed with this map's `hashFn` | the same map intersected with itself: the result's `contains("a")` stops at the empty row 7 | the result has this map's `hashFn` and `equalsFn` | not executed | Bulk.DefaultHashBreaks | LinearMaps.LinearMap.Intersection |
| src/io/lacuna/bifurcan/LinearMap.java:248-255 | `clone()` allocates `new LinearMap((int)(entries.length * LOAD_FACTOR))`, copies the old rows into the first `table.length` rows and keeps the old `indexMask`, so the new table can be longer than `indexMask + 1` | a map of capacity 5 holding 5 pairs (8 rows, 10 slots): its clone has 16 rows with mask 7, and a `merge` with a map of 4 pairs calls `resize(9)` on it, which wants 16 rows, does not rehash, and sets mask 15, so a key whose scrambled hash is 8, stored from home row 0, is then looked for from row 8 | a clone of the same table length and mask, holding the same rows | not executed | LinearMaps.CloneMaskStale | LinearMaps.LinearMap.Clone |
