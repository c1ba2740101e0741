/** `LinearMap`: a hash map with caller-supplied hashing and equality that keeps its entries
    densely in one array and finds them through a second, Robin Hood hashed table.

    `entries` holds key `i` at slot `2 * i` and its value at slot `2 * i + 1`, for the first `size`
    pairs; all later slots are `Null`. `table` holds packed rows (see `Rows`), one live row per
    pair, placed by Robin Hood hashing on the scrambled hash of the key; a removed pair leaves a
    tombstone. The ghost fields give the abstract value (`contents`), the table length as a power
    of two (`log`) and the table position of each pair's row (`pos`). */
module LinearMaps {
  import opened Bits
  import opened Rows
  import opened Probing
  import opened RobinHoodInvariant
  import opened Contents
  import opened Layout
  import opened Storage
  import opened Search
  import opened Insertion
  import opened Putting
  import opened Removal
  import opened Rehashing
  import opened Bulk

  class LinearMap<K(!new), V> {
    const hashFn: K -> Word
    const equalsFn: (K, K) -> bool

    var indexMask: nat
    var table: array<Long>
    var entries: array<Slot<K, V>>
    var size: nat

    /** The table length is `2^log`. */
    ghost var log: nat
    /** The decoded rows of `table`. */
    ghost var rows: seq<Row>
    /** The pairs of the map, in the order of `entries`. */
    ghost var contents: seq<(K, V)>
    /** The table position of the row of each pair, by key index. */
    ghost var pos: map<nat, nat>

    /** The arrays hold `rows` and `contents`, and the table invariant holds: what `tableIndex`
        needs. */
    ghost predicate Searchable()
      reads this, table, entries
    {
      IsMask(indexMask, log) && table.Length == indexMask + 1 && Decodes(table[..], rows) &&
      Holds(entries[..], contents) && Placed(rows, pos, contents, hashFn)
    }

    /** The invariant of a map between operations: equal keys hash alike, no two pairs have equal
        keys, `size` counts the pairs, and the entries array is shorter than twice the table. */
    ghost predicate Valid()
      reads this, table, entries
    {
      Searchable() && KeyLaws(hashFn, equalsFn) && Unique(contents, equalsFn) && size == |contents| &&
      entries.Length % 2 == 0 && entries.Length <= 2 * MAX_CAPACITY && entries.Length < 2 * table.Length
    }

    /** `LinearMap(initialCapacity, hashFn, equalsFn)`, for a capacity the source accepts. */
    constructor (initialCapacity: int, hashFn: K -> Word, equalsFn: (K, K) -> bool)
      requires initialCapacity <= MAX_CAPACITY && KeyLaws(hashFn, equalsFn)
      ensures Valid() && fresh(table) && fresh(entries)
      ensures this.hashFn == hashFn && this.equalsFn == equalsFn
      ensures contents == [] && size == 0 && NoTombstones(rows)
      ensures entries.Length == 2 * Capacity(initialCapacity)
      ensures table.Length == Pow2(TableLog(Capacity(initialCapacity)))
    {
      var capacity := Capacity(initialCapacity);
      var lg := TableLog(capacity);
      var tableLength := Pow2(lg);
      assert capacity <= MAX_CAPACITY && tableLength <= 0x4000_0000 by { Pow2Monotone(lg, 30); Pow2Values(); }
      var t := NewTable(tableLength);
      var es := NewEntries<K, V>(2 * capacity);
      EvenLength(es.Length, capacity);
      EmptyPlaced<K, V>(tableLength, hashFn);
      this.hashFn := hashFn;
      this.equalsFn := equalsFn;
      size := 0;
      log := lg;
      indexMask := tableLength - 1;
      table := t;
      entries := es;
      rows := EmptyRows(tableLength);
      contents := [];
      pos := map[];
    }

    /** `clone()`, as its evident intent is (see `CloneMaskStale` for the code as written): fresh
        arrays of the same lengths holding the same rows and slots, the same mask, pair count and
        hash and equality functions. */
    constructor Clone(other: LinearMap<K, V>)
      requires other.Valid()
      ensures Valid() && fresh(table) && fresh(entries)
      ensures hashFn == other.hashFn && equalsFn == other.equalsFn
      ensures contents == other.contents && rows == other.rows && size == other.size
      ensures table.Length == other.table.Length && entries.Length == other.entries.Length
    {
      var t := CopyTable(other.table, other.rows);
      var es := CopyEntries(other.entries, other.entries.Length, 2 * other.size, other.contents);
      hashFn, equalsFn := other.hashFn, other.equalsFn;
      indexMask, size := other.indexMask, other.size;
      table, entries := t, es;
      log, rows, contents, pos := other.log, other.rows, other.contents, other.pos;
    }

    /** `tableIndex(hash, key)`: the position of the live row holding `hash` and a key equal to
        `key`, or -1 when there is none. The probe walk stops at an empty row or at a row closer
        to its home than the walk is to the hash's home; the Robin Hood order guarantees that no
        matching row lies beyond. */
    method TableIndex(hash: Word, key: K) returns (r: int)
      requires IsMask(indexMask, log) && table.Length == indexMask + 1 && Decodes(table[..], rows)
      requires RobinHood(rows) && Points(rows, entries[..], contents) && hash != NONE
      ensures -1 <= r < table.Length
      ensures r >= 0 ==> KeyAt(rows, contents, r, hash, key, equalsFn)
      ensures r < 0 ==> forall p :: 0 <= p < table.Length ==> !KeyAt(rows, contents, p, hash, key, equalsFn)
    {
      var table, entries, indexMask := this.table, this.entries, this.indexMask;
      ghost var rows, contents, log := this.rows, this.contents, this.log;
      var e := EstimatedIndex(hash, indexMask, log);
      var idx, dist := e, 0;
      while true
        invariant Probed(rows, contents, e, dist, hash, key, equalsFn) && idx == Pos(e, dist, table.Length)
        decreases table.Length - dist
      {
        var row := table[idx];
        RowAt(table[..], rows, idx, row);
        var currHash := Hash(row);
        if currHash == hash && !Tombstone(row) {
          if equalsFn(key, entries[KeyIndex(row)].key) {
            return idx;
          }
        }
        var currDist := ProbeDistance(currHash, idx, table.Length, indexMask, log);
        if currHash == NONE || dist > currDist {
          ProbeStop(rows, contents, e, dist, idx, hash, key, equalsFn);
          return -1;
        }
        ProbeStep(rows, contents, e, dist, idx, hash, key, equalsFn);
        idx, dist := NextIndex(idx, indexMask, log), dist + 1;
      }
    }

    /** `contains(key)`. */
    method Contains(key: K) returns (b: bool)
      requires Valid()
      ensures b <==> Lookup(contents, key, equalsFn).Some?
    {
      PlacedPoints(rows, pos, contents, entries[..]);
      var hash := KeyHash(hashFn(key));
      var idx := TableIndex(hash, key);
      if idx >= 0 {
        OnlyMatch(rows, pos, contents, equalsFn, key, hash, idx);
      } else {
        NotFound(rows, pos, contents, hashFn, equalsFn, key);
      }
      b := idx >= 0;
    }

    /** `get(key, defaultValue)`: the value held for `key`, or `defaultValue`. */
    method Get(key: K, defaultValue: V) returns (v: V)
      requires Valid()
      ensures v == match Lookup(contents, key, equalsFn) case Some(w) => w case None => defaultValue
    {
      PlacedPoints(rows, pos, contents, entries[..]);
      var hash := KeyHash(hashFn(key));
      var idx := TableIndex(hash, key);
      if idx >= 0 {
        var table, entries := this.table, this.entries;
        var row := table[idx];
        RowAt(table[..], rows, idx, row);
        FoundValue(rows, pos, contents, entries, equalsFn, key, hash, idx, KeyIndex(row));
        v := entries[KeyIndex(row) + 1].value;
      } else {
        NotFound(rows, pos, contents, hashFn, equalsFn, key);
        v := defaultValue;
      }
    }

    /** `putEntry(keyIndex, key, value)`: stores a key and its value in two adjacent slots. */
    method PutEntry(keyIndex: nat, key: Slot<K, V>, value: Slot<K, V>)
      requires keyIndex + 1 < entries.Length
      modifies entries
      ensures entries[..] == old(entries[..])[keyIndex := key][keyIndex + 1 := value]
    {
      entries[keyIndex] := key;
      entries[keyIndex + 1] := value;
    }

    /** `putTable(table, hash, keyIndex, tableIndex)`: writes the row of pair `keyIndex` into `tbl`,
        walking from `tableIndex`. Where the carried row is farther from its home than the row it
        meets, it takes the first tombstone met since the walk last passed a row farther from its
        home than the walk, or else that row's place, and the displaced row is carried on; an empty
        row ends the walk. `probeDistance` reads `indexMask`, already that of `tbl`, and the length
        of `this.table`, which `resize` replaces only afterwards (see `StaleBy`). The source throws
        once the walk has taken more steps than `tbl` has rows; the model also gives up when the
        carried row's distance reaches the table length. Both need a table without an empty row:
        with one, the row is always written and the table invariant holds again. */
    method PutTable(tbl: array<Long>, hash: Word, keyIndex: nat, tableIndex: nat, ghost t0: seq<Row>,
                    ghost pos0: map<nat, nat>, ghost c: seq<(K, V)>, ghost oldLog: nat, ghost shift: nat)
      returns (ok: bool, ghost t': seq<Row>, ghost pos': map<nat, nat>)
      requires IsMask(indexMask, log) && tbl.Length == indexMask + 1 && Decodes(tbl[..], t0)
      requires tableIndex < tbl.Length && |c| <= MAX_CAPACITY
      requires Carrying(t0, pos0, c, hashFn, Row(hash, keyIndex, false), Dist(hash, tableIndex, tbl.Length))
      requires StaleBy(t0, table.Length, oldLog, log, shift)
      modifies tbl
      ensures ok ==> Decodes(tbl[..], t') && Added(t0, pos0, t', pos', c, hashFn, keyIndex)
      ensures HasEmptyRow(t0) ==> ok
    {
      var indexMask, length := this.indexMask, this.table.Length;
      ghost var z: int := -1;
      if HasEmptyRow(t0) {
        var q :| 0 <= q < |t0| && !Occupied(t0[q]);
        z := q;
      }
      ghost var s := Setup(t0, pos0, keyIndex, c, hashFn, length, oldLog, this.log, shift, tableIndex, z);
      ghost var t: seq<Row>, pos: map<nat, nat>, r: Row := t0, pos0, Row(hash, keyIndex, false);
      ghost var d: nat, a: nat := Dist(hash, tableIndex, tbl.Length), 0;
      var rowHash: Word, rowKeyIndex: nat := hash, keyIndex;
      var tombstoneIdx: int := -1;
      var idx: nat, dist: nat, abs: nat := tableIndex, ProbeDistance(hash, tableIndex, length, indexMask, s.log), 0;
      ChainStart(s, hash, indexMask, dist);
      while true
        invariant Decodes(tbl[..], t) && r == Row(rowHash, rowKeyIndex, false)
        invariant Chain(s, t, pos, r, d, a, idx, dist, abs, tombstoneIdx)
        decreases tbl.Length + 1 - abs
      {
        ChainGuard(s, t, pos, r, d, a, idx, dist, abs, tombstoneIdx);
        var currHash, currKeyIndex, isTombstone := ReadRow(tbl, t, idx);
        if abs > tbl.Length || dist >= tbl.Length {
          return false, t, pos;
        }
        if currHash == NONE {
          ChainEmptyRow(s, t, pos, r, d, a, idx, dist, abs, tombstoneIdx, currHash, currKeyIndex, isTombstone);
          WriteRow(tbl, t, idx, rowHash, rowKeyIndex);
          assert Added(t0, pos0, t[idx := r], pos[r.keyIndex := idx], c, hashFn, keyIndex);
          return true, t[idx := r], pos[r.keyIndex := idx];
        }
        var currDist := ProbeDistance(currHash, idx, length, indexMask, s.log);
        ghost var ti, a0 := tombstoneIdx, a;
        if !isTombstone && currDist > dist {
          tombstoneIdx := -1;
        } else if isTombstone && tombstoneIdx == -1 {
          tombstoneIdx, a := idx, d;
        }
        ChainBook(s, t, pos, r, d, a0, idx, dist, abs, ti, currHash, currKeyIndex, isTombstone, indexMask, currDist,
                  tombstoneIdx, a);
        if dist > currDist {
          if tombstoneIdx >= 0 {
            ChainStopAtRecorded(s, t, pos, r, d, a, idx, dist, abs, tombstoneIdx, currDist);
            WriteRow(tbl, t, tombstoneIdx, rowHash, rowKeyIndex);
            assert Added(t0, pos0, t[tombstoneIdx := r], pos[r.keyIndex := tombstoneIdx], c, hashFn, keyIndex);
            return true, t[tombstoneIdx := r], pos[r.keyIndex := tombstoneIdx];
          }
          WriteRow(tbl, t, idx, rowHash, rowKeyIndex);
          ghost var t1, pos1, r1, d1, idx1, dist1, abs1 := t, pos, r, d, idx, dist, abs;
          t, pos, r, d := t[idx := r], Moved(pos, t[idx].keyIndex, r.keyIndex, idx), t[idx], D(t, idx) + 1;
          rowHash, rowKeyIndex := currHash, currKeyIndex;
          idx, dist, abs := NextIndex(idx, indexMask, s.log), currDist + 1, abs + 1;
          ChainDisplace(s, t1, pos1, r1, d1, a, idx1, dist1, abs1, tombstoneIdx, currDist, indexMask,
                        t, pos, r, d, idx, dist, abs);
        } else {
          ghost var d1, idx1, dist1, abs1 := d, idx, dist, abs;
          idx, dist, abs, d := NextIndex(idx, indexMask, s.log), dist + 1, abs + 1, d + 1;
          ChainPass(s, t, pos, r, d1, a, idx1, dist1, abs1, tombstoneIdx, currDist, indexMask, d, idx, dist, abs);
        }
      }
    }

    /** The walk of `put(hash, key, value, mergeFn)` from the home row of `hash`: it looks for a
        matching row as `tableIndex` does, and meanwhile keeps the tombstone bookkeeping of
        `putTable`. It ends at a matching row (`found`), where a lookup would stop, or back at the
        home row once it has passed every row. It is the walk `PutWalk` describes. */
    method Probe(hash: Word, key: K)
      returns (found: bool, idx: nat, dist: nat, tombstoneIdx: int, ghost a: nat,
               currHash: Word, currKeyIndex: Word, isTombstone: bool)
      requires Valid() && hash == KeyHash(hashFn(key))
      ensures found ==>
        idx < |rows| && KeyAt(rows, contents, idx, hash, key, equalsFn) && currKeyIndex == rows[idx].keyIndex
      ensures !found ==>
        Ended(rows, contents, hash, key, equalsFn, Rem(hash, |rows|), idx, dist, tombstoneIdx, a) &&
        (dist < |rows| ==> rows[idx] == Row(currHash, currKeyIndex, isTombstone))
      ensures !found ==> PutWalk(rows, contents, hash, key, equalsFn, 0, -1) == Stop(false, dist, tombstoneIdx)
    {
      var table, entries, indexMask := this.table, this.entries, this.indexMask;
      ghost var t, c, pos, log, eq := rows, contents, this.pos, this.log, equalsFn;
      PlacedPoints(t, pos, c, entries[..]);
      var e := EstimatedIndex(hash, indexMask, log);
      tombstoneIdx, a := -1, 0;
      idx, dist, found := e, 0, false;
      currHash, currKeyIndex, isTombstone := 0, 0, false;
      SearchStart(t, c, hash, key, eq, e);
      while true
        invariant Searching(t, c, hash, key, eq, e, idx, dist, tombstoneIdx, a)
        decreases table.Length - dist
      {
        SearchBound(t, c, hash, key, eq, e, idx, dist, tombstoneIdx, a);
        if dist == table.Length {
          SearchLapped(t, c, hash, key, eq, e, idx, dist, tombstoneIdx, a);
          return false, idx, dist, tombstoneIdx, a, currHash, currKeyIndex, isTombstone;
        }
        currHash, currKeyIndex, isTombstone := ReadRow(table, t, idx);
        if currHash == hash && !isTombstone {
          RowMatch(t, c, entries[..], idx, hash, key, eq);
          if equalsFn(key, entries[currKeyIndex].key) {
            return true, idx, dist, tombstoneIdx, a, currHash, currKeyIndex, isTombstone;
          }
        }
        var currDist := ProbeDistance(currHash, idx, table.Length, indexMask, log);
        ghost var ti0, a0 := tombstoneIdx, a;
        if !isTombstone && currDist > dist {
          tombstoneIdx := -1;
        } else if isTombstone && tombstoneIdx == -1 {
          tombstoneIdx, a := idx, dist;
        }
        SearchBook(t, c, hash, key, eq, e, idx, dist, ti0, a0, currHash, currKeyIndex, isTombstone, indexMask, log,
                   currDist, tombstoneIdx, a);
        if currHash == NONE || dist > currDist {
          SearchStop(t, c, hash, key, eq, e, idx, dist, ti0, a0, tombstoneIdx, a, currHash, currKeyIndex,
                     isTombstone, currDist);
          return false, idx, dist, tombstoneIdx, a, currHash, currKeyIndex, isTombstone;
        }
        ghost var idx0, dist0 := idx, dist;
        idx, dist := NextIndex(idx, indexMask, log), dist + 1;
        SearchPass(t, c, hash, key, eq, e, idx0, dist0, ti0, a0, tombstoneIdx, a, currHash, currKeyIndex,
                   isTombstone, indexMask, log, currDist, idx, dist);
      }
    }

    /** `putCheckEquality` at a matching row: the new value is merged into the value slot of that
        row's pair, which is what `put` promises for a present key. */
    method MergeAt(key: K, value: V, merge: (V, V) -> V, hash: Word, idx: nat, keyIndex: nat)
      requires Valid() && idx < |rows| && KeyAt(rows, contents, idx, hash, key, equalsFn)
      requires keyIndex == rows[idx].keyIndex
      modifies this, entries
      ensures table == old(table) && entries == old(entries) && indexMask == old(indexMask) && log == old(log)
      ensures rows == old(rows)
      ensures Valid() && contents == Contents.Put(old(contents), key, value, merge, equalsFn)
    {
      FoundMerged(rows, pos, contents, hashFn, equalsFn, entries[..], key, value, merge, hash, idx, keyIndex);
      ghost var v := merge(entries[keyIndex + 1].value, value);
      SetSlot(entries, keyIndex + 1, Value(merge(entries[keyIndex + 1].value, value)));
      contents := contents[keyIndex / 2 := (contents[keyIndex / 2].0, v)];
    }

    /** The row of a new pair `keyIndex`, where the walk of `put` ended: it is written over the
        recorded tombstone, over the empty row or tombstone the walk stopped at, or carried on from
        there by `putTable`. A walk that passed every row with no tombstone recorded places nothing
        (`!ok`): the source then writes over the home row, which loses a pair
        (`Putting.LapOverwrite`). */
    method PlaceRow(tbl: array<Long>, hash: Word, keyIndex: nat, idx: nat, dist: nat, tombstoneIdx: int,
                    ghost a: nat, currHash: Word, isTombstone: bool, ghost t: seq<Row>, ghost pos: map<nat, nat>,
                    ghost c: seq<(K, V)>, ghost key: K, ghost value: V)
      returns (ok: bool, ghost t': seq<Row>, ghost pos': map<nat, nat>)
      requires tbl == table && IsMask(indexMask, log) && tbl.Length == indexMask + 1 && Decodes(tbl[..], t)
      requires Placed(t, pos, c, hashFn) && hash == KeyHash(hashFn(key)) && |c| < MAX_CAPACITY && keyIndex == 2 * |c|
      requires Ended(t, c, hash, key, equalsFn, Rem(hash, |t|), idx, dist, tombstoneIdx, a)
      requires idx < |t| && (dist < |t| ==> t[idx].hash == currHash && t[idx].tombstone == isTombstone)
      modifies tbl
      ensures ok ==> Decodes(tbl[..], t') && Placed(t', pos', c + [(key, value)], hashFn)
      ensures ok && NoTombstones(t) ==> NoTombstones(t')
      ensures HasEmptyRow(t) || tombstoneIdx >= 0 || (dist < |t| && !Live(t[idx])) ==> ok
    {
      ghost var h, eq, e := hashFn, equalsFn, Rem(hash, |t|);
      if tombstoneIdx >= 0 {
        if dist < tbl.Length {
          StoppedPlaced(t, pos, c, h, eq, key, value, hash, e, idx, dist, tombstoneIdx, a, tombstoneIdx);
        } else {
          LappedPlaced(t, pos, c, h, eq, key, value, hash, e, tombstoneIdx, a);
        }
        WriteRow(tbl, t, tombstoneIdx, hash, keyIndex);
        return true, t[tombstoneIdx := Row(hash, keyIndex, false)], pos[keyIndex := tombstoneIdx];
      } else if dist == tbl.Length {
        LappedFull(t, c, hash, key, eq, e, tombstoneIdx, a);
        return false, t, pos;
      } else if currHash == NONE || isTombstone {
        StoppedPlaced(t, pos, c, h, eq, key, value, hash, e, idx, dist, tombstoneIdx, a, idx);
        WriteRow(tbl, t, idx, hash, keyIndex);
        return true, t[idx := Row(hash, keyIndex, false)], pos[keyIndex := idx];
      }
      StoppedCarrying(t, pos, c, h, eq, key, value, hash, e, idx, dist, tombstoneIdx, a);
      SameLengthStale(t, indexMask, log);
      ok, t', pos' := PutTable(tbl, hash, keyIndex, idx, t, pos, c + [(key, value)], log, 0);
      if ok {
        CarriedPlaced(t, pos, t', pos', c, h, key, value);
      }
    }

    /** A key not present: the pair is appended to `entries` (`putEntry`) and its row is placed. */
    method Append(hash: Word, key: K, value: V, idx: nat, dist: nat, tombstoneIdx: int, ghost a: nat,
                  currHash: Word, isTombstone: bool)
      returns (ok: bool)
      requires Valid() && 2 * size < entries.Length && hash == KeyHash(hashFn(key))
      requires Ended(rows, contents, hash, key, equalsFn, Rem(hash, |rows|), idx, dist, tombstoneIdx, a)
      requires idx < |rows| && (dist < |rows| ==> rows[idx].hash == currHash && rows[idx].tombstone == isTombstone)
      requires Unique(contents + [(key, value)], equalsFn)
      modifies this, table, entries
      ensures table == old(table) && entries == old(entries) && indexMask == old(indexMask) && log == old(log)
      ensures ok ==> Valid() && contents == old(contents) + [(key, value)]
      ensures ok && old(NoTombstones(rows)) ==> NoTombstones(rows)
      ensures old(HasEmptyRow(rows)) || tombstoneIdx >= 0 || (dist < old(|rows|) && !old(Live(rows[idx]))) ==> ok
    {
      ghost var c := contents;
      var keyIndex := 2 * size;
      HoldsAppend(entries[..], c, key, value);
      PutEntry(keyIndex, Key(key), Value(value));
      ghost var t', pos';
      ok, t', pos' := PlaceRow(table, hash, keyIndex, idx, dist, tombstoneIdx, a, currHash, isTombstone,
                               rows, pos, c, key, value);
      if ok {
        size, contents, rows, pos := size + 1, c + [(key, value)], t', pos';
      }
    }

    /** `put(hash, key, value, mergeFn)`, for `hash == keyHash(key)` and a free pair of slots in
        `entries`: merges into the pair of an equal key, or appends the pair. It succeeds unless
        the walk ends `Unsettled` in a table without an empty row. */
    method PutHashed(hash: Word, key: K, value: V, merge: (V, V) -> V) returns (ok: bool)
      requires Valid() && 2 * size < entries.Length && hash == KeyHash(hashFn(key))
      modifies this, table, entries
      ensures table == old(table) && entries == old(entries) && indexMask == old(indexMask) && log == old(log)
      ensures ok ==> Valid() && contents == Contents.Put(old(contents), key, value, merge, equalsFn)
      ensures ok && old(NoTombstones(rows)) ==> NoTombstones(rows)
      ensures old(HasEmptyRow(rows)) || !old(Unsettled(rows, contents, hash, key, equalsFn)) ==> ok
    {
      var found, idx, dist, tombstoneIdx, currHash, currKeyIndex, isTombstone;
      ghost var a;
      found, idx, dist, tombstoneIdx, a, currHash, currKeyIndex, isTombstone := Probe(hash, key);
      if found {
        MergeAt(key, value, merge, hash, idx, currKeyIndex);
        return true;
      }
      StoppedAbsent(rows, pos, contents, hashFn, equalsFn, key, value, merge, Rem(hash, |rows|), idx, dist,
                    tombstoneIdx, a);
      ok := Append(hash, key, value, idx, dist, tombstoneIdx, a, currHash, isTombstone);
    }

    /** `putEntry(size << 1, key, value)`, `putTable(hash, size << 1)` and `size++`: how `split`
        and `combine` add a pair whose key is known to be absent, without looking for it. The row
        is walked from the home of `hash` by `putTable`. */
    method AppendRow(hash: Word, key: K, value: V) returns (ok: bool)
      requires Valid() && 2 * size < entries.Length && hash == KeyHash(hashFn(key))
      requires Unique(contents + [(key, value)], equalsFn)
      modifies this, table, entries
      ensures table == old(table) && entries == old(entries) && indexMask == old(indexMask) && log == old(log)
      ensures ok ==> Valid() && contents == old(contents) + [(key, value)]
      ensures ok && old(NoTombstones(rows)) ==> NoTombstones(rows)
      ensures old(HasEmptyRow(rows)) ==> ok
    {
      ghost var t, p, c := rows, pos, contents;
      var keyIndex := 2 * size;
      HoldsAppend(entries[..], c, key, value);
      PutEntry(keyIndex, Key(key), Value(value));
      ghost var t', p';
      ok, t', p' := PutTableHome(table, hash, keyIndex, t, p, c, key, value);
      if ok {
        SetState(size + 1, t', p', c + [(key, value)]);
      }
    }

    /** `putTable(hash, keyIndex)`: `putTable` into this map's own table from the home row of
        `hash`, for the row of a new last pair `(key, value)`. */
    method PutTableHome(tbl: array<Long>, hash: Word, keyIndex: nat, ghost t: seq<Row>, ghost p: map<nat, nat>,
                        ghost c: seq<(K, V)>, ghost key: K, ghost value: V)
      returns (ok: bool, ghost t': seq<Row>, ghost p': map<nat, nat>)
      requires tbl == table && IsMask(indexMask, log) && tbl.Length == indexMask + 1 && Decodes(tbl[..], t)
      requires Placed(t, p, c, hashFn) && hash == KeyHash(hashFn(key)) && |c| < MAX_CAPACITY && keyIndex == 2 * |c|
      modifies tbl
      ensures ok ==> Decodes(tbl[..], t') && Placed(t', p', c + [(key, value)], hashFn)
      ensures ok && NoTombstones(t) ==> NoTombstones(t')
      ensures HasEmptyRow(t) ==> ok
    {
      var e := EstimatedIndex(hash, indexMask, log);
      DistAt(hash, e, 0, tbl.Length);
      StartCarrying(t, p, c, hashFn, key, value, hash, 0);
      SameLengthStale(t, indexMask, log);
      ok, t', p' := PutTable(tbl, hash, keyIndex, e, t, p, c + [(key, value)], log, 0);
      if ok {
        CarriedPlaced(t, p, t', p', c, hashFn, key, value);
      }
    }

    /** `put` has room for a pair: `entries` has room for one more, or can grow within
        `MAX_CAPACITY`. */
    ghost predicate CanPut()
      reads this
    {
      2 * size == entries.Length ==> 2 * size <= MAX_CAPACITY
    }

    /** The walk of `put` for `key` ends where its row can be written: the table has an empty row,
        or the walk is not `Unsettled`. */
    ghost predicate Settles(key: K)
      reads this, table
    {
      HasEmptyRow(rows) || !Unsettled(rows, contents, KeyHash(hashFn(key)), key, equalsFn)
    }

    /** `put(key, value, merge)`: when `entries` is full it is first grown to twice the size
        (`resize(size << 1)`), which fails beyond `MAX_CAPACITY`; then the pair is merged into
        the pair of an equal key, or appended. */
    method Put(key: K, value: V, merge: (V, V) -> V) returns (ok: bool)
      requires Valid()
      modifies this, table, entries
      ensures ok ==> Valid() && contents == Contents.Put(old(contents), key, value, merge, equalsFn)
      ensures old(CanPut() && Settles(key)) ==> ok
      ensures !ok && old(2 * size == entries.Length && 2 * size > MAX_CAPACITY) ==> Valid() && contents == old(contents)
    {
      if 2 * size == entries.Length {
        ok := Resize(2 * size);
        if !ok {
          return;
        }
        if NoTombstones(rows) {
          CountLiveEmptyRow(rows);
        }
      }
      ok := PutHashed(KeyHash(hashFn(key)), key, value, merge);
    }

    /** `put(key, value)`: `put` with `Maps.MERGE_LAST_WRITE_WINS`, so the new value replaces the
        value of an equal key. */
    method PutValue(key: K, value: V) returns (ok: bool)
      requires Valid()
      modifies this, table, entries
      ensures ok ==> Valid() && contents == Contents.Put(old(contents), key, value, LastWriteWins, equalsFn)
      ensures old(CanPut() && Settles(key)) ==> ok
      ensures !ok && old(2 * size == entries.Length && 2 * size > MAX_CAPACITY) ==> Valid() && contents == old(contents)
    {
      ok := Put(key, value, LastWriteWins);
    }

    /** `update(key, fn)` at a matching row: the value slot of that row's pair gets `fn` of the old
        value. */
    method UpdateAt(key: K, fn: Option<V> -> V, hash: Word, idx: nat, keyIndex: nat)
      requires Valid() && idx < |rows| && KeyAt(rows, contents, idx, hash, key, equalsFn)
      requires keyIndex == rows[idx].keyIndex
      modifies this, entries
      ensures table == old(table) && entries == old(entries) && indexMask == old(indexMask) && log == old(log)
      ensures Valid() && contents == Contents.Update(old(contents), key, fn, equalsFn)
    {
      FoundUpdated(rows, pos, contents, hashFn, equalsFn, entries[..], key, fn, hash, idx, keyIndex);
      ghost var v := fn(Some(entries[keyIndex + 1].value));
      SetSlot(entries, keyIndex + 1, Value(fn(Some(entries[keyIndex + 1].value))));
      contents := contents[keyIndex / 2 := (contents[keyIndex / 2].0, v)];
    }

    /** `update(key, fn)`: a present value `v` becomes `fn(v)` in place; for an absent key the
        source calls `put(key, fn(null))`. */
    method Update(key: K, fn: Option<V> -> V) returns (ok: bool)
      requires Valid()
      modifies this, table, entries
      ensures ok ==> Valid() && contents == Contents.Update(old(contents), key, fn, equalsFn)
      ensures old(CanPut() && Settles(key)) ==> ok
      ensures !ok && old(2 * size == entries.Length && 2 * size > MAX_CAPACITY) ==> Valid() && contents == old(contents)
    {
      PlacedPoints(rows, pos, contents, entries[..]);
      var hash := KeyHash(hashFn(key));
      var idx := TableIndex(hash, key);
      if idx >= 0 {
        var currHash, keyIndex, isTombstone := ReadRow(table, rows, idx);
        UpdateAt(key, fn, hash, idx, keyIndex);
        ok := true;
      } else {
        NotFound(rows, pos, contents, hashFn, equalsFn, key);
        UpdateIsPut(contents, key, fn, equalsFn);
        ok := PutValue(key, fn(None));
      }
    }

    /** The part of `remove` that keeps `entries` dense when the removed pair is not the last:
        `tableIndex` finds the last pair's row, which is pointed at the removed pair's slots
        `keyIndex`, `keyIndex + 1` keeping its hash, and the last pair is copied there. The ghost
        parameters name the state on entry. */
    method MoveLast(key: K, hash: Word, idx: nat, keyIndex: nat, lastKeyIndex: nat,
                    ghost t: seq<Row>, ghost p: map<nat, nat>, ghost c: seq<(K, V)>, ghost es: seq<Slot<K, V>>)
      returns (ghost lastIdx: nat)
      requires Valid() && t == rows && p == pos && c == contents && es == entries[..]
      requires KeyAt(t, c, idx, hash, key, equalsFn) && keyIndex == t[idx].keyIndex
      requires lastKeyIndex == 2 * (|c| - 1) && keyIndex != lastKeyIndex
      modifies table, entries
      ensures lastKeyIndex in p && lastIdx == p[lastKeyIndex] && lastIdx < |t|
      ensures Decodes(table[..], t[lastIdx := Row(t[lastIdx].hash, keyIndex, false)])
      ensures keyIndex + 1 < |es| && lastKeyIndex + 1 < |es|
      ensures entries[..] == es[keyIndex := es[lastKeyIndex]][keyIndex + 1 := es[lastKeyIndex + 1]]
    {
      RemovedPair(t, p, c, hashFn, equalsFn, es, key, hash, idx);
      var lastKey := entries[lastKeyIndex].key;
      var lastValue := entries[lastKeyIndex + 1].value;
      lastIdx := RepointLast(lastKey, keyIndex, t, p, c);
      PutEntry(keyIndex, Key(lastKey), Value(lastValue));
    }

    /** The table half of `MoveLast`: the row that `tableIndex` finds for the last pair's key
        `lastKey` is rewritten to point at `keyIndex`, keeping its hash. */
    method RepointLast(lastKey: K, keyIndex: nat, ghost t: seq<Row>, ghost p: map<nat, nat>, ghost c: seq<(K, V)>)
      returns (ghost lastIdx: nat)
      requires Valid() && t == rows && p == pos && c == contents
      requires |c| > 0 && lastKey == c[|c| - 1].0 && keyIndex < 2 * |c|
      modifies table
      ensures 2 * (|c| - 1) in p && lastIdx == p[2 * (|c| - 1)] && lastIdx < |t|
      ensures Decodes(table[..], t[lastIdx := Row(t[lastIdx].hash, keyIndex, false)])
    {
      PlacedPoints(t, p, c, entries[..]);
      var li := TableIndex(KeyHash(hashFn(lastKey)), lastKey);
      LastFound(t, p, c, hashFn, equalsFn, li);
      var lastHash, lastRowKeyIndex, lastTombstone := ReadRow(table, t, li);
      assert keyIndex < 0x8000_0000;
      WriteRow(table, t, li, lastHash, keyIndex);
      lastIdx := li;
    }

    /** The writes of `remove(key)` at the row `idx` that `tableIndex` found: the last pair moves
        into the removed pair's slots (`MoveLast`), the removed pair's row becomes a tombstone, and
        the last pair's slots are nulled. */
    method Vacate(key: K, hash: Word, idx: nat, keyIndex: nat,
                  ghost t: seq<Row>, ghost p: map<nat, nat>, ghost c: seq<(K, V)>, ghost es: seq<Slot<K, V>>)
      returns (lastKeyIndex: nat, ghost lastIdx: nat)
      requires Valid() && t == rows && p == pos && c == contents && es == entries[..]
      requires KeyAt(t, c, idx, hash, key, equalsFn) && keyIndex == t[idx].keyIndex
      modifies table, entries
      ensures lastKeyIndex == 2 * (|c| - 1) && lastKeyIndex in p && lastIdx == p[lastKeyIndex]
      ensures lastIdx < |t| && idx < |t| && keyIndex + 1 < |es| && lastKeyIndex + 1 < |es|
      ensures Decodes(table[..], RemovedRows(t, idx, lastIdx, keyIndex, lastKeyIndex))
      ensures entries[..] == Vacated(es, keyIndex, lastKeyIndex)
    {
      RemovedPair(t, p, c, hashFn, equalsFn, es, key, hash, idx);
      lastKeyIndex := 2 * (size - 1);
      lastIdx := p[lastKeyIndex];
      ghost var t1, es1 := t, es;
      if keyIndex != lastKeyIndex {
        lastIdx := MoveLast(key, hash, idx, keyIndex, lastKeyIndex, t, p, c, es);
        t1 := t[lastIdx := Row(t[lastIdx].hash, keyIndex, false)];
        es1 := es[keyIndex := es[lastKeyIndex]][keyIndex + 1 := es[lastKeyIndex + 1]];
      }
      RemovedWrites(t, es, idx, lastIdx, keyIndex, lastKeyIndex, t1, es1);
      Bury(idx, lastKeyIndex, t1, es1);
    }

    /** The last writes of `remove`: the removed pair's row becomes a tombstone and the last
        pair's slots are nulled. */
    method Bury(idx: nat, lastKeyIndex: nat, ghost t: seq<Row>, ghost es: seq<Slot<K, V>>)
      requires Decodes(table[..], t) && idx < table.Length && entries[..] == es && lastKeyIndex + 1 < |es|
      modifies table, entries
      ensures Decodes(table[..], t[idx := t[idx].(tombstone := true)])
      ensures entries[..] == es[lastKeyIndex := Null][lastKeyIndex + 1 := Null]
    {
      TombstoneRow(table, t, idx);
      PutEntry(lastKeyIndex, Null, Null);
    }

    /** `remove(key)` at the row `idx` that `tableIndex` found: the map loses the pair of `key`
        and its last pair takes that pair's place. */
    method RemoveAt(key: K, hash: Word, idx: nat)
      requires Valid() && KeyAt(rows, contents, idx, hash, key, equalsFn)
      modifies this, table, entries
      ensures table == old(table) && entries == old(entries) && indexMask == old(indexMask) && log == old(log)
      ensures Valid() && contents == Contents.Remove(old(contents), key, equalsFn)
    {
      ghost var t, p, c, es := rows, pos, contents, entries[..];
      PlacedPoints(t, p, c, es);
      var currHash, keyIndex, isTombstone := ReadRow(table, t, idx);
      var lastKeyIndex, lastIdx := Vacate(key, hash, idx, keyIndex, t, p, c, es);
      RemovedState(t, p, c, hashFn, equalsFn, es, key, hash, idx, lastIdx, keyIndex);
      SetState(size - 1, RemovedRows(t, idx, lastIdx, keyIndex, lastKeyIndex),
               RemovedPos(p, lastIdx, keyIndex, lastKeyIndex), Contents.Remove(c, key, equalsFn));
    }

    /** Sets the pair count and the abstract state, leaving the arrays, the mask and the hash and
        equality functions as they are. */
    method SetState(n: nat, ghost t: seq<Row>, ghost p: map<nat, nat>, ghost c: seq<(K, V)>)
      modifies this
      ensures size == n && rows == t && pos == p && contents == c
      ensures table == old(table) && entries == old(entries) && indexMask == old(indexMask) && log == old(log)
    {
      size, rows, pos, contents := n, t, p, c;
    }

    /** `remove(key)`: a map without the pair of `key`, the last pair having taken its place; an
        absent key changes nothing. */
    method Remove(key: K)
      requires Valid()
      modifies this, table, entries
      ensures table == old(table) && entries == old(entries) && indexMask == old(indexMask) && log == old(log)
      ensures Valid() && contents == Contents.Remove(old(contents), key, equalsFn)
    {
      PlacedPoints(rows, pos, contents, entries[..]);
      var hash := KeyHash(hashFn(key));
      var idx := TableIndex(hash, key);
      if idx >= 0 {
        RemoveAt(key, hash, idx);
      } else {
        NotFound(rows, pos, contents, hashFn, equalsFn, key);
      }
    }

    /** The loop of `resize` that moves every live row of `table` into the fresh table `tbl` of the
        new length. `indexMask` is already that of `tbl`, while `probeDistance` still reads the old
        `table.length`. */
    method Rehash(tbl: array<Long>, ghost oldLog: nat) returns (ghost t: seq<Row>, ghost p: map<nat, nat>)
      requires tbl != table && IsMask(indexMask, log) && tbl.Length == indexMask + 1
      requires Decodes(tbl[..], EmptyRows(tbl.Length))
      requires Decodes(table[..], rows) && Placed(rows, pos, contents, hashFn)
      requires table.Length == Pow2(oldLog) && oldLog <= 30
      requires |contents| < tbl.Length && |contents| <= MAX_CAPACITY
      requires oldLog < log ==> |contents| + table.Length < tbl.Length
      modifies tbl
      ensures Decodes(tbl[..], t) && Placed(t, p, contents, hashFn) && NoTombstones(t)
    {
      ghost var t0, pos0, c := rows, pos, contents;
      RehashStart(t0, pos0, c, hashFn, tbl.Length);
      t, p := EmptyRows(tbl.Length), map[];
      for i := 0 to table.Length
        invariant Decodes(tbl[..], t) && Moving(t0, pos0, c, hashFn, i, t, p)
      {
        t, p := RehashRow(tbl, i, oldLog, t0, pos0, c, t, p);
      }
      RehashDone(t0, pos0, c, hashFn, t, p);
    }

    /** One step of that loop: a populated row at `i` of `table` is put into `tbl`. */
    method RehashRow(tbl: array<Long>, i: nat, ghost oldLog: nat, ghost t0: seq<Row>, ghost pos0: map<nat, nat>,
                     ghost c: seq<(K, V)>, ghost t: seq<Row>, ghost p: map<nat, nat>)
      returns (ghost t': seq<Row>, ghost p': map<nat, nat>)
      requires tbl != table && IsMask(indexMask, log) && tbl.Length == indexMask + 1
      requires Decodes(table[..], t0) && Placed(t0, pos0, c, hashFn)
      requires table.Length == Pow2(oldLog) && oldLog <= 30
      requires |c| < tbl.Length && |c| <= MAX_CAPACITY
      requires oldLog < log ==> |c| + table.Length < tbl.Length
      requires i < table.Length && Decodes(tbl[..], t) && Moving(t0, pos0, c, hashFn, i, t, p)
      modifies tbl
      ensures Decodes(tbl[..], t') && Moving(t0, pos0, c, hashFn, i + 1, t', p')
    {
      var hash, keyIndex, tombstone := ReadRow(table, t0, i);
      if hash != NONE && !tombstone {
        t', p' := RehashPut(tbl, i, hash, keyIndex, oldLog, t0, pos0, c, t, p);
      } else {
        RehashSkip(t0, pos0, c, hashFn, i, t, p);
        t', p' := t, p;
      }
    }

    /** `putTable(nTable, hash, keyIndex, estimatedIndex(hash))` for the live row at `i`. */
    method RehashPut(tbl: array<Long>, i: nat, hash: Word, keyIndex: nat, ghost oldLog: nat, ghost t0: seq<Row>,
                     ghost pos0: map<nat, nat>, ghost c: seq<(K, V)>, ghost t: seq<Row>, ghost p: map<nat, nat>)
      returns (ghost t': seq<Row>, ghost p': map<nat, nat>)
      requires tbl != table && IsMask(indexMask, log) && tbl.Length == indexMask + 1
      requires Placed(t0, pos0, c, hashFn)
      requires table.Length == Pow2(oldLog) && oldLog <= 30
      requires |c| < tbl.Length && |c| <= MAX_CAPACITY
      requires oldLog < log ==> |c| + table.Length < tbl.Length
      requires |t0| == table.Length && i < |t0| && t0[i] == Row(hash, keyIndex, false) && hash != NONE
      requires Decodes(tbl[..], t) && Moving(t0, pos0, c, hashFn, i, t, p)
      modifies tbl
      ensures Decodes(tbl[..], t') && Moving(t0, pos0, c, hashFn, i + 1, t', p')
    {
      var e := EstimatedIndex(hash, indexMask, log);
      var shift := if oldLog >= log then 0 else table.Length;
      RehashCarry(t0, pos0, c, hashFn, i, t, p, oldLog, log, hash, keyIndex, e, shift);
      var ok;
      ok, t', p' := PutTable(tbl, hash, keyIndex, e, t, p, c, oldLog, shift);
      assert ok;
      RehashAdded(t0, pos0, c, hashFn, i, t, p, t', p');
    }

    /** `resize(capacity)`: fails as the source does when `capacity` exceeds `MAX_CAPACITY`;
        otherwise, with `max(4, capacity)` pairs of slots, a table of the matching length (rehashed
        when its length changes, which also clears the tombstones) and the entries copied. */
    method Resize(capacity: int) returns (ok: bool)
      requires Valid() && capacity >= size
      modifies this
      ensures ok <==> capacity <= MAX_CAPACITY
      ensures !ok ==> unchanged(this)
      ensures ok ==> Valid() && contents == old(contents)
      ensures ok ==> fresh(entries) && entries.Length == 2 * Capacity(capacity)
      ensures ok ==> table.Length == Pow2(TableLog(Capacity(capacity)))
      ensures ok && table.Length == old(table.Length) ==> table == old(table) && rows == old(rows)
      ensures ok && table.Length != old(table.Length) ==> fresh(table) && NoTombstones(rows)
    {
      if capacity > MAX_CAPACITY {
        return false;
      }
      var cap := Capacity(capacity);
      var lg := TableLog(cap);
      ResizeRoom(size, entries.Length, log, cap, lg);
      ResizeTable(lg);
      ResizeEntries(cap);
      ok := true;
    }

    /** The table part of `resize`: `indexMask` for `2^lg` rows and, when the length changes, a
        fresh table into which the live rows are moved. */
    method ResizeTable(lg: nat)
      requires Searchable() && lg <= 30 && |contents| < Pow2(lg) && |contents| <= MAX_CAPACITY
      requires log < lg ==> |contents| + table.Length < Pow2(lg)
      modifies this
      ensures entries == old(entries) && contents == old(contents) && size == old(size)
      ensures Searchable() && table.Length == Pow2(lg)
      ensures table.Length == old(table.Length) ==> table == old(table) && rows == old(rows)
      ensures table.Length != old(table.Length) ==> fresh(table) && NoTombstones(rows)
    {
      var tableLength := Pow2(lg);
      ghost var oldLog := log;
      MaskOf(lg);
      indexMask, log := tableLength - 1, lg;
      if table.Length != tableLength {
        var nTable := NewTable(tableLength);
        ghost var t, p;
        t, p := Rehash(nTable, oldLog);
        table, rows, pos := nTable, t, p;
      }
    }

    /** The entries part of `resize`: `cap` pairs of slots holding the same pairs. */
    method ResizeEntries(cap: nat)
      requires Holds(entries[..], contents) && size == |contents| && size <= cap
      modifies this
      ensures table == old(table) && indexMask == old(indexMask) && log == old(log) && rows == old(rows)
      ensures pos == old(pos) && contents == old(contents) && size == old(size)
      ensures fresh(entries) && entries.Length == 2 * cap && entries.Length % 2 == 0
      ensures Holds(entries[..], contents)
    {
      entries := CopyEntries(entries, 2 * cap, 2 * size, contents);
      EvenLength(entries.Length, cap);
    }

    /** This map and `m` hash and compare keys alike, which the bulk operations take for granted
        when they probe `m` with hashes read from this map's rows. */
    ghost predicate SameKeys<W>(m: LinearMap<K, W>)
    {
      m.hashFn == hashFn && m.equalsFn == equalsFn
    }

    /** `combine(m, result, indexPredicate)`: appends to the empty `result`, in table order, the
        pairs of this map whose key `m.tableIndex` does not find (`absent`, the predicate of
        `difference`) or finds (that of `intersection`). `result` has room for every pair of this
        map, or, when the kept keys are those `m` holds, for every pair of `m`. */
    method Combine<W>(m: LinearMap<K, W>, result: LinearMap<K, V>, absent: bool)
      requires Valid() && m.Valid() && result.Valid() && SameKeys(m) && SameKeys(result)
      requires {result, result.table, result.entries} !! {this, table, entries, m, m.table, m.entries}
      requires result.contents == [] && NoTombstones(result.rows)
      requires 2 * size <= result.entries.Length || (!absent && 2 * m.size <= result.entries.Length)
      modifies result, result.table, result.entries
      ensures result.table == old(result.table) && result.entries == old(result.entries)
      ensures result.Valid() && Indexed(rows, |contents|)
      ensures result.contents == Selected(rows, contents, 0, |rows|, Kept(m.contents, equalsFn, absent))
      ensures forall k :: Lookup(result.contents, k, equalsFn) ==
                if (Lookup(m.contents, k, equalsFn) == None) == absent then Lookup(contents, k, equalsFn) else None
    {
      ghost var t, c, keep := rows, contents, Kept(m.contents, equalsFn, absent);
      CombineRoom(t, pos, c, hashFn, m.contents, equalsFn, absent, result.entries.Length / 2);
      CombineRows(m, result, absent, t, c, keep);
      forall k
        ensures Lookup(result.contents, k, equalsFn) ==
                if (Lookup(m.contents, k, equalsFn) == None) == absent then Lookup(c, k, equalsFn) else None
      {
        CombinedLookup(t, pos, c, hashFn, m.contents, equalsFn, absent, k);
      }
    }

    /** The loop of `combine` over the rows `t` of this map, holding the pairs `c`. */
    method CombineRows<W>(m: LinearMap<K, W>, result: LinearMap<K, V>, absent: bool,
                          ghost t: seq<Row>, ghost c: seq<(K, V)>, ghost keep: K -> bool)
      requires Valid() && m.Valid() && result.Valid() && SameKeys(m) && SameKeys(result)
      requires {result, result.table, result.entries} !! {this, table, entries, m, m.table, m.entries}
      requires t == rows && c == contents && keep == Kept(m.contents, equalsFn, absent)
      requires result.contents == [] && NoTombstones(result.rows) && Indexed(t, |c|)
      requires 2 * |Selected(t, c, 0, |t|, keep)| <= result.entries.Length
      modifies result, result.table, result.entries
      ensures result.table == old(result.table) && result.entries == old(result.entries)
      ensures result.Valid() && result.contents == Selected(t, c, 0, |t|, keep)
    {
      for i := 0 to table.Length
        invariant result.Valid() && NoTombstones(result.rows)
        invariant result.table == old(result.table) && result.entries == old(result.entries)
        invariant result.contents == Selected(t, c, 0, i, keep)
      {
        CombineRow(m, result, i, absent, t, c, keep);
      }
    }

    /** One row of the loop of `combine`, over this map's rows `t` and pairs `c`: the pair of a
        populated row at `i` is appended to `result` (`putEntry`, `putTable`, `size++`) when
        `CombineTest` passes it; other rows add nothing. */
    method CombineRow<W>(m: LinearMap<K, W>, result: LinearMap<K, V>, i: nat, absent: bool,
                         ghost t: seq<Row>, ghost c: seq<(K, V)>, ghost keep: K -> bool)
      requires Valid() && m.Valid() && result.Valid() && SameKeys(m) && SameKeys(result)
      requires t == rows && c == contents && keep == Kept(m.contents, equalsFn, absent)
      requires i < |t| && Indexed(t, |c|) && NoTombstones(result.rows)
      requires 2 * |Selected(t, c, 0, |t|, keep)| <= result.entries.Length
      requires result.contents == Selected(t, c, 0, i, keep)
      modifies result, result.table, result.entries
      ensures result.table == old(result.table) && result.entries == old(result.entries)
      ensures result.Valid() && NoTombstones(result.rows)
      ensures result.contents == Selected(t, c, 0, i + 1, keep)
    {
      var hash, keyIndex, tombstone := ReadRow(table, t, i);
      if hash != NONE && !tombstone {
        var key, value, take := CombineTest(m, i, hash, keyIndex, absent);
        ScanRow(t, pos, c, hashFn, equalsFn, entries[..], 0, i, keep);
        if take {
          SelectedGrows(t, c, 0, i + 1, |t|, keep);
          result.AppendFresh(hash, key, value);
        }
      } else {
        ScanSkip(t, c, 0, i, keep);
      }
    }

    /** The test `combine` makes of the populated row at `i`, holding `hash` and `keyIndex`: the
        row's pair is read from `entries`, and its key passes when `m.tableIndex(hash, key)` gives
        -1 exactly as `absent` asks, that is, when `m` lacks the key exactly as `absent` asks. */
    method CombineTest<W>(m: LinearMap<K, W>, i: nat, hash: Word, keyIndex: nat, absent: bool)
      returns (key: K, value: V, take: bool)
      requires Valid() && m.Valid() && SameKeys(m)
      requires i < |rows| && rows[i] == Row(hash, keyIndex, false) && hash != NONE
      ensures keyIndex / 2 < |contents| && (key, value) == contents[keyIndex / 2]
      ensures take <==> (Lookup(m.contents, key, equalsFn) == None) == absent
    {
      key, value := PairAt(i, keyIndex);
      PlacedPoints(m.rows, m.pos, m.contents, m.entries[..]);
      var r := m.TableIndex(hash, key);
      FoundIff(m.rows, m.pos, m.contents, hashFn, equalsFn, key, hash, r);
      take := (r == -1) == absent;
    }

    /** `AppendRow` into a map without tombstones, which always has an empty row for `putTable`
        to stop at. */
    method AppendFresh(hash: Word, key: K, value: V)
      requires Valid() && NoTombstones(rows) && 2 * size < entries.Length && hash == KeyHash(hashFn(key))
      requires Unique(contents + [(key, value)], equalsFn)
      modifies this, table, entries
      ensures table == old(table) && entries == old(entries)
      ensures Valid() && NoTombstones(rows) && contents == old(contents) + [(key, value)]
    {
      CountLiveEmptyRow(rows);
      var ok := AppendRow(hash, key, value);
      assert ok;
    }

    /** `difference(m)`: a new map of capacity `size` holding the pairs of this map whose key `m`
        lacks. */
    method Difference<W>(m: LinearMap<K, W>) returns (result: LinearMap<K, V>)
      requires Valid() && m.Valid() && SameKeys(m)
      ensures fresh(result) && fresh(result.table) && fresh(result.entries)
      ensures result.Valid() && SameKeys(result)
      ensures forall k :: Lookup(result.contents, k, equalsFn) ==
                if Lookup(m.contents, k, equalsFn) == None then Lookup(contents, k, equalsFn) else None
    {
      result := new LinearMap(size, hashFn, equalsFn);
      Combine(m, result, true);
    }

    /** `intersection(m)`: a new map of capacity `min(size, m.size())` holding the pairs of this
        map whose key `m` holds, with this map's values. */
    method Intersection<W>(m: LinearMap<K, W>) returns (result: LinearMap<K, V>)
      requires Valid() && m.Valid() && SameKeys(m)
      ensures fresh(result) && fresh(result.table) && fresh(result.entries)
      ensures result.Valid() && SameKeys(result)
      ensures forall k :: Lookup(result.contents, k, equalsFn) ==
                if Lookup(m.contents, k, equalsFn).Some? then Lookup(contents, k, equalsFn) else None
    {
      result := new LinearMap(if size < m.size then size else m.size, hashFn, equalsFn);
      Combine(m, result, false);
    }

    /** `merge(o, mergeFn)` for a `LinearMap` `o`: a clone of this map when `o` is empty, and
        otherwise the `merge` below. Every key gets the merge of the values the two maps hold
        for it, this map's value first. */
    method Merge(m: LinearMap<K, V>, merge: (V, V) -> V) returns (ok: bool, result: LinearMap<K, V>)
      requires Valid() && m.Valid() && SameKeys(m)
      ensures fresh(result) && fresh(result.table) && fresh(result.entries)
      ensures ok ==> result.Valid() && SameKeys(result)
      ensures ok ==> forall k :: Lookup(result.contents, k, equalsFn) ==
                       Merged(Lookup(contents, k, equalsFn), Lookup(m.contents, k, equalsFn), merge)
      ensures size + m.size <= MAX_CAPACITY && NoTombstones(rows) && NoTombstones(m.rows) ==> ok
    {
      if m.size == 0 {
        result := new LinearMap.Clone(this);
        ok := true;
        return;
      }
      ok, result := MergeLinear(m, merge);
    }

    /** `merge(m, mergeFn)` for a `LinearMap` `m`: when `m` is the larger, the work is handed to it
        with the merge function flipped; otherwise a clone of this map, resized for `size + m.size`
        pairs, gets every pair of `m` put into it (`PutRows`). */
    method MergeLinear(m: LinearMap<K, V>, merge: (V, V) -> V) returns (ok: bool, result: LinearMap<K, V>)
      requires Valid() && m.Valid() && SameKeys(m)
      ensures fresh(result) && fresh(result.table) && fresh(result.entries)
      ensures ok ==> result.Valid() && SameKeys(result)
      ensures ok ==> forall k :: Lookup(result.contents, k, equalsFn) ==
                       Merged(Lookup(contents, k, equalsFn), Lookup(m.contents, k, equalsFn), merge)
      ensures size + m.size <= MAX_CAPACITY && NoTombstones(rows) && NoTombstones(m.rows) ==> ok
      decreases if m.size > size then 1 else 0
    {
      if m.size > size {
        var flipped := (x, y) => merge(y, x);
        ok, result := m.MergeLinear(this, flipped);
        forall k
          ensures ok ==> Lookup(result.contents, k, equalsFn) ==
                           Merged(Lookup(contents, k, equalsFn), Lookup(m.contents, k, equalsFn), merge)
        {
          MergedFlip(Lookup(contents, k, equalsFn), Lookup(m.contents, k, equalsFn), merge, flipped);
        }
        return;
      }
      ok, result := MergeSmaller(m, merge);
    }

    /** The body of `merge(m, mergeFn)` for an `m` no larger than this map. */
    method MergeSmaller(m: LinearMap<K, V>, merge: (V, V) -> V) returns (ok: bool, result: LinearMap<K, V>)
      requires Valid() && m.Valid() && SameKeys(m)
      ensures fresh(result) && fresh(result.table) && fresh(result.entries)
      ensures ok ==> result.Valid() && SameKeys(result)
      ensures ok ==> forall k :: Lookup(result.contents, k, equalsFn) ==
                       Merged(Lookup(contents, k, equalsFn), Lookup(m.contents, k, equalsFn), merge)
      ensures size + m.size <= MAX_CAPACITY && NoTombstones(rows) && NoTombstones(m.rows) ==> ok
    {
      ghost var t, p, c, a := m.rows, m.pos, m.contents, contents;
      assert Placed(t, p, c, hashFn) && Equivalence(equalsFn) && Unique(c, equalsFn) && Unique(a, equalsFn);
      LocatedIndexed(t, p, |c|);
      ok, result := ResizedClone(m.size);
      if !ok {
        return;
      }
      ok := result.PutRows(m.table, m.entries, merge, m.table[..], m.entries[..], t, p, c);
      if ok {
        forall k
          ensures Lookup(result.contents, k, equalsFn) ==
                    Merged(Lookup(a, k, equalsFn), Lookup(c, k, equalsFn), merge)
        {
          MergedLookup(t, p, c, hashFn, a, merge, equalsFn, k);
        }
      }
    }

    /** `this.clone()` and `resize(size + extra)` on the clone: a copy of this map with room for
        `extra` more pairs, unless that exceeds `MAX_CAPACITY`. */
    method ResizedClone(extra: nat) returns (ok: bool, result: LinearMap<K, V>)
      requires Valid()
      ensures fresh(result) && fresh(result.table) && fresh(result.entries)
      ensures ok <==> size + extra <= MAX_CAPACITY
      ensures ok ==> result.Valid() && SameKeys(result) && result.contents == contents
      ensures ok ==> 2 * (size + extra) <= result.entries.Length
      ensures ok && NoTombstones(rows) ==> NoTombstones(result.rows)
    {
      result := new LinearMap.Clone(this);
      ok := result.Resize(result.size + extra);
    }

    /** This map holds the pairs `a` with the pairs of the populated rows before `i` of `t`, whose
        pairs are `c`, put into them in table order. */
    ghost predicate PutProgress(merge: (V, V) -> V, t: seq<Row>, c: seq<(K, V)>, a: seq<(K, V)>, i: nat)
      reads this, table, entries
    {
      Valid() && i <= |t| && Indexed(t, |c|) && contents == PutAll(a, Selected(t, c, 0, i, Every), merge, equalsFn)
    }

    /** The loop of `merge` on its result: `put(hash, key, value, mergeFn)` of the pair of every
        populated row of the table `mt`, whose rows are `t`, with the pairs `c` in `me`, in table
        order and with the hash read from the row. The entries have room for all of them; with no
        tombstone in this map the table always has an empty row, so every `put` succeeds. */
    method PutRows(mt: array<Long>, me: array<Slot<K, V>>, merge: (V, V) -> V, ghost ts: seq<Long>,
                   ghost es: seq<Slot<K, V>>, ghost t: seq<Row>, ghost mpos: map<nat, nat>, ghost c: seq<(K, V)>)
      returns (ok: bool)
      requires Valid() && {mt, me} !! {this, table, entries} && mt[..] == ts && me[..] == es
      requires Decodes(ts, t) && Holds(es, c) && Placed(t, mpos, c, hashFn) && Unique(c, equalsFn)
      requires Indexed(t, |c|) && 2 * (size + |c|) <= entries.Length
      modifies this, table, entries
      ensures table == old(table) && entries == old(entries)
      ensures ok ==> Valid() && contents == PutAll(old(contents), Selected(t, c, 0, |t|, Every), merge, equalsFn)
      ensures old(NoTombstones(rows)) ==> ok
    {
      ghost var a := contents;
      ghost var clean := NoTombstones(rows);
      for i := 0 to mt.Length
        invariant PutProgress(merge, t, c, a, i) && table == old(table) && entries == old(entries)
        invariant clean ==> NoTombstones(rows)
      {
        ok := PutRow(mt, me, merge, i, ts, es, t, mpos, c, a, clean);
        if !ok {
          return;
        }
      }
      ok := true;
    }

    /** One row of that loop: the pair of a populated row at `i` of the table `mt`, whose rows are
        `t`, with the pairs `c` in `me`, is put into this map. */
    method PutRow(mt: array<Long>, me: array<Slot<K, V>>, merge: (V, V) -> V, i: nat, ghost ts: seq<Long>,
                  ghost es: seq<Slot<K, V>>, ghost t: seq<Row>, ghost mpos: map<nat, nat>, ghost c: seq<(K, V)>,
                  ghost a: seq<(K, V)>, ghost clean: bool)
      returns (ok: bool)
      requires mt[..] == ts && me[..] == es
      requires Decodes(ts, t) && Holds(es, c) && Placed(t, mpos, c, hashFn) && Unique(c, equalsFn)
      requires i < |t| && 2 * (|a| + |c|) <= entries.Length && PutProgress(merge, t, c, a, i)
      requires clean ==> NoTombstones(rows)
      modifies this, table, entries
      ensures table == old(table) && entries == old(entries)
      ensures ok ==> PutProgress(merge, t, c, a, i + 1)
      ensures ok && clean ==> NoTombstones(rows)
      ensures clean ==> ok
    {
      var hash, keyIndex, tombstone := ReadRow(mt, t, i);
      if hash != NONE && !tombstone {
        ScanRow(t, mpos, c, hashFn, equalsFn, es, 0, i, Every);
        var key, value := me[keyIndex].key, me[keyIndex + 1].value;
        ok := PutPair(hash, key, value, merge, i, t, c, a, clean);
      } else {
        ScanSkip(t, c, 0, i, Every);
        ok := true;
      }
    }

    /** The put of that row's pair `(key, value)`, whose position in the scan is `i`. */
    method PutPair(hash: Word, key: K, value: V, merge: (V, V) -> V, i: nat, ghost t: seq<Row>,
                   ghost c: seq<(K, V)>, ghost a: seq<(K, V)>, ghost clean: bool)
      returns (ok: bool)
      requires i < |t| && CountLive(t) == |c| && 2 * (|a| + |c|) <= entries.Length && PutProgress(merge, t, c, a, i)
      requires Selected(t, c, 0, i + 1, Every) == Selected(t, c, 0, i, Every) + [(key, value)]
      requires hash == KeyHash(hashFn(key)) && (clean ==> NoTombstones(rows))
      modifies this, table, entries
      ensures table == old(table) && entries == old(entries)
      ensures ok ==> PutProgress(merge, t, c, a, i + 1)
      ensures ok && clean ==> NoTombstones(rows)
      ensures clean ==> ok
    {
      ghost var s := Selected(t, c, 0, i, Every);
      PutAllSnoc(a, s, (key, value), merge, equalsFn);
      PutAllLength(a, s, merge, equalsFn);
      SelectedGrows(t, c, 0, i + 1, |t|, Every);
      SelectedBound(t, c, 0, |t|, Every);
      if NoTombstones(rows) {
        CountLiveEmptyRow(rows);
      }
      ok := PutHashed(hash, key, value, merge);
    }

    /** `split(parts)`: with `n = min(parts, size)`, a list holding only this map when `n <= 1`;
        otherwise the table is cut into `n` ranges of `table.length / n` rows, the last taking the
        rest, and each range with a live row gives a new map of its pairs. The parts hold the
        pairs of this map with their values, each pair in exactly one part. No part is longer
        than half the table, so the source's constructor accepts every one. */
    method Split(parts: int) returns (list: seq<LinearMap<K, V>>)
      requires Valid()
      ensures (if parts < size then parts else size) <= 1 ==> list == [this]
      ensures (if parts < size then parts else size) > 1 ==>
                (forall m | m in list :: fresh(m)) && (forall j :: 0 <= j < |list| ==> list[j].size > 0) &&
                |list| <= (if parts < size then parts else size)
      ensures forall j :: 0 <= j < |list| ==> list[j].Valid() && SameKeys(list[j])
      ensures forall j, k :: 0 <= j < |list| && Lookup(list[j].contents, k, equalsFn).Some? ==>
                Lookup(list[j].contents, k, equalsFn) == Lookup(contents, k, equalsFn)
      ensures forall k :: Lookup(contents, k, equalsFn).Some? ==>
                exists j :: 0 <= j < |list| && Lookup(list[j].contents, k, equalsFn).Some?
      ensures forall j, j', k :: 0 <= j < j' < |list| ==>
                Lookup(list[j].contents, k, equalsFn).None? || Lookup(list[j'].contents, k, equalsFn).None?
    {
      var n := if parts < size then parts else size;
      if n <= 1 {
        list := [this];
        assert list[0] == this;
        return list;
      }
      ghost var r, cs;
      LocatedIndexed(rows, pos, |contents|);
      list, r, cs := SplitParts(n, rows, contents);
      SplitFacts(r, cs);
    }

    /** What the ranges `r` of `SplitParts` give the pairs `cs` of the parts, key by key. */
    lemma {:induction false} SplitFacts(r: seq<(nat, nat)>, cs: seq<seq<(K, V)>>)
      requires Valid() && Indexed(rows, |contents|) && |r| == |cs| && Covers(rows, r, |rows|)
      requires forall j :: 0 <= j < |cs| ==> cs[j] == Selected(rows, contents, r[j].0, r[j].1, Every)
      ensures forall j, k :: 0 <= j < |cs| && Lookup(cs[j], k, equalsFn).Some? ==>
                Lookup(cs[j], k, equalsFn) == Lookup(contents, k, equalsFn)
      ensures forall k :: Lookup(contents, k, equalsFn).Some? ==>
                exists j :: 0 <= j < |cs| && Lookup(cs[j], k, equalsFn).Some?
      ensures forall j, j', k :: 0 <= j < j' < |cs| ==>
                Lookup(cs[j], k, equalsFn).None? || Lookup(cs[j'], k, equalsFn).None?
    {
      forall k
        ensures forall j :: 0 <= j < |cs| && Lookup(cs[j], k, equalsFn).Some? ==>
                  Lookup(cs[j], k, equalsFn) == Lookup(contents, k, equalsFn)
      {
        PartsAgree(rows, pos, contents, hashFn, equalsFn, r, cs, k);
      }
      forall k
        ensures Lookup(contents, k, equalsFn).Some? ==> exists j :: 0 <= j < |cs| && Lookup(cs[j], k, equalsFn).Some?
      {
        PartsCover(rows, pos, contents, hashFn, equalsFn, r, cs, k);
      }
      forall k, j, j' | 0 <= j < j' < |cs|
        ensures Lookup(cs[j], k, equalsFn).None? || Lookup(cs[j'], k, equalsFn).None?
      {
        PartsDisjoint(rows, pos, contents, hashFn, equalsFn, r, cs, k);
      }
    }

    /** A part of `split`: a valid, non-empty map with this map's key functions holding `c`. */
    ghost predicate IsPart(m: LinearMap<K, V>, c: seq<(K, V)>)
      reads m, m.table, m.entries
    {
      m.Valid() && SameKeys(m) && m.size > 0 && m.contents == c
    }

    /** The loop of `split` over its `n` parts: the ranges `r` the kept parts were made from. */
    method SplitParts(n: nat, ghost t: seq<Row>, ghost c: seq<(K, V)>)
      returns (list: seq<LinearMap<K, V>>, ghost r: seq<(nat, nat)>, ghost cs: seq<seq<(K, V)>>)
      requires Valid() && t == rows && c == contents && Indexed(t, |c|) && 2 <= n <= size
      ensures |r| == |list| == |cs| <= n && Covers(t, r, |t|)
      ensures forall j :: 0 <= j < |cs| ==> cs[j] == Selected(t, c, r[j].0, r[j].1, Every)
      ensures forall j :: 0 <= j < |list| ==> IsPart(list[j], cs[j])
      ensures forall m | m in list :: fresh(m)
    {
      var partSize: nat := table.Length / n;
      list, r, cs := [], [], [];
      var start: nat := 0;
      CoversStart(t);
      for p := 0 to n
        invariant start == if p == n then |t| else p * partSize
        invariant |r| == |list| == |cs| <= p && Covers(t, r, start)
        invariant forall j :: 0 <= j < |list| ==> IsPart(list[j], cs[j]) && cs[j] == Selected(t, c, r[j].0, r[j].1, Every)
        invariant forall m | m in list :: fresh(m)
      {
        list, r, cs, start := SplitStep(p, n, partSize, start, list, t, c, r, cs);
      }
    }

    /** Part `p` of the `n` parts of `split`, of rows `start = p * partSize` up to the next part's
        start, or to the end for the last part: a new map of the pairs of those rows, kept when it
        is not empty. The range is at most half the table (`PartFits`), so within `MAX_CAPACITY`. */
    method SplitStep(p: nat, n: nat, partSize: nat, start: nat, list: seq<LinearMap<K, V>>,
                     ghost t: seq<Row>, ghost c: seq<(K, V)>, ghost r: seq<(nat, nat)>, ghost cs: seq<seq<(K, V)>>)
      returns (list': seq<LinearMap<K, V>>, ghost r': seq<(nat, nat)>, ghost cs': seq<seq<(K, V)>>, finish: nat)
      requires Valid() && t == rows && c == contents && Indexed(t, |c|)
      requires p < n && 2 <= n <= size && partSize == table.Length / n && start == p * partSize
      requires |r| == |list| == |cs| && Covers(t, r, start)
      requires forall j :: 0 <= j < |list| ==> IsPart(list[j], cs[j]) && cs[j] == Selected(t, c, r[j].0, r[j].1, Every)
      ensures finish == if p + 1 == n then |t| else (p + 1) * partSize
      ensures |r'| == |list'| == |cs'| <= |list| + 1 && Covers(t, r', finish)
      ensures forall j :: 0 <= j < |list'| ==>
                IsPart(list'[j], cs'[j]) && cs'[j] == Selected(t, c, r'[j].0, r'[j].1, Every)
      ensures forall m | m in list' :: m in list || fresh(m)
    {
      PartWithin(table.Length, log, n, p, partSize);
      finish := if p == n - 1 then table.Length else start + partSize;
      var m := SplitPart(start, finish, t, c);
      if m.size > 0 {
        CoversAdd(t, r, start, finish);
        list', r', cs' := list + [m], r + [(start, finish)], cs + [m.contents];
      } else {
        CoversSkip(t, c, r, start, finish);
        list', r', cs' := list, r, cs;
      }
    }

    /** One part of `split`: a new map of capacity `finish - start` holding, in table order, the
        pairs of the live rows in `[start, finish)`, each added by `putEntry`, `putTable` and
        `size++`. */
    method SplitPart(start: nat, finish: nat, ghost t: seq<Row>, ghost c: seq<(K, V)>) returns (m: LinearMap<K, V>)
      requires Valid() && t == rows && c == contents && Indexed(t, |c|)
      requires start <= finish <= |t| && finish - start <= MAX_CAPACITY
      ensures fresh(m) && m.Valid() && SameKeys(m) && m.contents == Selected(t, c, start, finish, Every)
    {
      SelectedBound(t, c, start, finish, Every);
      m := new LinearMap(finish - start, hashFn, equalsFn);
      SplitRows(m, start, finish, t, c);
    }

    /** The loop of a part of `split` over the rows `[start, finish)`, appending to the empty `m`. */
    method SplitRows(m: LinearMap<K, V>, start: nat, finish: nat, ghost t: seq<Row>, ghost c: seq<(K, V)>)
      requires Valid() && m.Valid() && SameKeys(m) && t == rows && c == contents && Indexed(t, |c|)
      requires {m, m.table, m.entries} !! {this, table, entries}
      requires start <= finish <= |t| && m.contents == [] && NoTombstones(m.rows)
      requires 2 * |Selected(t, c, start, finish, Every)| <= m.entries.Length
      modifies m, m.table, m.entries
      ensures m.table == old(m.table) && m.entries == old(m.entries)
      ensures m.Valid() && m.contents == Selected(t, c, start, finish, Every)
    {
      for i := start to finish
        invariant m.table == old(m.table) && m.entries == old(m.entries)
        invariant m.Valid() && NoTombstones(m.rows)
        invariant m.contents == Selected(t, c, start, i, Every)
      {
        SplitRow(m, start, i, finish, t, c);
      }
    }

    /** One row of a part of `split`: the pair of a live row at `i` is appended to `m`. */
    method SplitRow(m: LinearMap<K, V>, start: nat, i: nat, finish: nat, ghost t: seq<Row>, ghost c: seq<(K, V)>)
      requires Valid() && m.Valid() && SameKeys(m) && t == rows && c == contents && Indexed(t, |c|)
      requires {m, m.table, m.entries} !! {this, table, entries}
      requires start <= i < finish <= |t| && NoTombstones(m.rows)
      requires 2 * |Selected(t, c, start, finish, Every)| <= m.entries.Length
      requires m.contents == Selected(t, c, start, i, Every)
      modifies m, m.table, m.entries
      ensures m.table == old(m.table) && m.entries == old(m.entries)
      ensures m.Valid() && NoTombstones(m.rows) && m.contents == Selected(t, c, start, i + 1, Every)
    {
      var hash, keyIndex, tombstone := ReadRow(table, t, i);
      if hash != NONE && !tombstone {
        var key, value := PairAt(i, keyIndex);
        SplitRowPair(start, i, finish);
        m.AppendFresh(hash, key, value);
      } else {
        ScanSkip(t, c, start, i, Every);
      }
    }

    /** The live row at `i` adds its pair, with the key's scrambled hash, to a scan of the rows
        from `start`, which stays free of duplicate keys and within the scan up to `finish`. */
    lemma {:induction false} SplitRowPair(start: nat, i: nat, finish: nat)
      requires Valid() && start <= i < finish <= |rows| && Live(rows[i])
      ensures var k := rows[i].keyIndex; var s := Selected(rows, contents, start, i + 1, Every);
        k / 2 < |contents| && rows[i].hash == KeyHash(hashFn(contents[k / 2].0)) &&
        s == Selected(rows, contents, start, i, Every) + [contents[k / 2]] &&
        Unique(s, equalsFn) && |s| <= |Selected(rows, contents, start, finish, Every)|
    {
      ScanRow(rows, pos, contents, hashFn, equalsFn, entries[..], start, i, Every);
      SelectedGrows(rows, contents, start, i + 1, finish, Every);
    }

    /** `(K) entries[keyIndex]` and `(V) entries[keyIndex + 1]` for the key index of the live row
        at `i`: that row's pair. */
    method PairAt(i: nat, keyIndex: nat) returns (key: K, value: V)
      requires Valid() && i < |rows| && Live(rows[i]) && keyIndex == rows[i].keyIndex
      ensures keyIndex / 2 < |contents| && (key, value) == contents[keyIndex / 2]
    {
      PairOfRow(rows, pos, contents, entries[..], i);
      key, value := entries[keyIndex].key, entries[keyIndex + 1].value;
    }

    /** Whether probing this map with `tableIndex` for the key of row `i`, with that row's hash,
        finds a row, as `isSubset` does for each populated row. */
    method FindsOwnRow(i: nat) returns (found: bool)
      requires Valid() && i < table.Length
      ensures found <==> RowFound(rows, contents, equalsFn, i)
    {
      var hash, keyIndex, tombstone := ReadRow(table, rows, i);
      if hash != NONE && !tombstone {
        var key, value := PairAt(i, keyIndex);
        PlacedPoints(rows, pos, contents, entries[..]);
        var r := TableIndex(hash, key);
        found := r != -1;
        if found {
          assert KeyAt(rows, contents, r, hash, key, equalsFn);
        }
      } else {
        found := true;
      }
    }

    /** `isSubset(m)` as written: it walks the rows of `m` and probes each populated row's key with
        `m.tableIndex`, in `m` itself, never consulting this map. It returns true exactly when
        every such probe finds a row, which by `OwnRowsFound` is always so. `ContainsAll` is the
        test `containsAll` means. */
    method IsSubset<W>(m: LinearMap<K, W>) returns (b: bool)
      requires m.Valid()
      ensures b <==> forall i :: 0 <= i < |m.rows| ==> RowFound(m.rows, m.contents, m.equalsFn, i)
      ensures b
    {
      OwnRowsFound(m.rows, m.contents, m.equalsFn);
      for i := 0 to m.table.Length
        invariant forall j :: 0 <= j < i ==> RowFound(m.rows, m.contents, m.equalsFn, j)
      {
        var found := m.FindsOwnRow(i);
        if !found {
          return false;
        }
      }
      return true;
    }

    /** `containsAll(m)` for a `LinearMap` `m` as its branch for other maps states it,
        `map.keys().stream().allMatch(this::contains)`: each populated row of `m` has its key
        probed by this map's `tableIndex`. True exactly when every key of `m` is a key of this
        map. */
    method ContainsAll<W>(m: LinearMap<K, W>) returns (b: bool)
      requires Valid() && m.Valid() && SameKeys(m)
      ensures b <==> forall i :: 0 <= i < |m.contents| ==> Lookup(contents, m.contents[i].0, equalsFn).Some?
    {
      ghost var t, c, d, eq := m.rows, m.contents, contents, equalsFn;
      for i := 0 to m.table.Length
        invariant KeysFoundBefore(t, c, d, eq, i)
      {
        var hash, keyIndex, tombstone := ReadRow(m.table, t, i);
        if hash != NONE && !tombstone {
          var key, value, take := m.CombineTest(this, i, hash, keyIndex, false);
          if !take {
            assert Lookup(d, c[keyIndex / 2].0, eq).None?;
            return false;
          }
        }
        KeysFoundStep(t, c, d, eq, i);
      }
      EveryPairFound(t, m.pos, c, m.hashFn, d, eq);
      return true;
    }

    /** `size()`. */
    function Size(): (n: nat)
      reads this, table, entries
      requires Valid()
      ensures n == |contents|
    {
      size
    }
  }

  /** The lengths and mask of a map: what `clone()` as written gets wrong. */
  datatype Shape = Shape(tableLength: nat, indexMask: nat, entriesLength: nat)

  /** A new map of the given capacity: `2^TableLog(c)` rows, the matching mask and `2 * c`
      slots, `c` being `max(4, capacity)`. */
  function NewShape(capacity: int): (s: Shape)
    ensures s.tableLength == s.indexMask + 1 && s.entriesLength < 2 * s.tableLength
  {
    var c := Capacity(capacity);
    Shape(Pow2(TableLog(c)), Pow2(TableLog(c)) - 1, 2 * c)
  }

  /** `(int) (entries.length * LOAD_FACTOR)`, the capacity `clone()` asks for, with the load factor
      as 19/20. */
  function CloneCapacity(entriesLength: nat): (c: nat)
    ensures 20 * c <= 19 * entriesLength < 20 * (c + 1)
  {
    19 * entriesLength / 20
  }

  /** `clone()` as written: a new map of capacity `CloneCapacity(entries.length)`, into whose
      table the old rows are copied, keeping the old `indexMask`. */
  function ClonedShape(s: Shape): Shape
  {
    NewShape(CloneCapacity(s.entriesLength)).(indexMask := s.indexMask)
  }

  /** `resize(capacity)` as written, on the shape: the table is rebuilt only when its length
      changes, while the mask is always set to that of the new length. */
  function ResizedShape(s: Shape, capacity: int): (r: Shape)
  {
    var n := NewShape(capacity);
    Shape(n.tableLength, n.indexMask, n.entriesLength)
  }

  /** Whether `resize(capacity)` rehashes the rows: only when the table length changes. */
  function Rehashes(s: Shape, capacity: int): bool
  {
    NewShape(capacity).tableLength != s.tableLength
  }

  /** The code of `clone()` as written breaks the map on a later `resize`. A map of capacity 5
      has 8 rows and 10 slots; let it hold 5 pairs. Its clone has 16 rows but keeps the mask 7 of 8 rows, so rows
      stay where homes of `hash & 7` put them. `merge` of it with a map of 4 pairs calls
      `resize(9)`, which wants 16 rows: as the length is unchanged nothing is rehashed, yet the
      mask becomes 15. A pair whose scrambled hash is 8 has its row in the first 8 rows, from
      home row 0; a lookup now starts at row 8, and every later probe from a home among rows
      8..15 misses rows placed from homes 0..7. */
  lemma {:induction false} CloneMaskStale()
    ensures NewShape(5) == Shape(8, 7, 10)
    ensures ClonedShape(NewShape(5)) == Shape(16, 7, 18)
    ensures ClonedShape(NewShape(5)).tableLength != ClonedShape(NewShape(5)).indexMask + 1
    ensures !Rehashes(ClonedShape(NewShape(5)), 5 + 4)
    ensures ResizedShape(ClonedShape(NewShape(5)), 5 + 4).indexMask == 15
    ensures Rem(8, 7 + 1) == 0 && Rem(8, 15 + 1) == 8
  {
    assert Pow2(2) == 4 && Pow2(3) == 8 && Pow2(4) == 16;
    assert TableLog(5) == 3 by {
      assert TableLogFrom(5, 2) == TableLogFrom(5, 3) == 3;
    }
    assert TableLog(9) == 4 by {
      assert TableLogFrom(9, 3) == TableLogFrom(9, 4) == 4;
    }
  }
}
