/** What `put(hash, key, value, merge)` knows while it walks from the home row of `hash`: it looks
    for a matching row exactly as `tableIndex` does, and meanwhile keeps the same tombstone
    bookkeeping as `putTable`. The walk ends at a matching row (the value is merged in place) or
    where a lookup would stop (the pair is appended, and its row is written over the recorded
    tombstone, over the empty row, or handed to `putTable`), or back at the home row once it has
    passed every row of a table without an empty row. */
module Putting {
  import opened Bits
  import opened Rows
  import opened Probing
  import opened RobinHoodInvariant
  import opened Contents
  import opened Layout
  import opened Storage
  import opened Search
  import opened Insertion

  /** The tombstone bookkeeping of `put` and `putTable` at the row `q`, `d` rows into a walk that
      had recorded `ti`: a row that is not a tombstone and lies farther from its home than `d`
      clears the record, the first tombstone after that is recorded, and any other row keeps it. */
  function Book(t: seq<Row>, q: nat, d: nat, ti: int): int
    requires q < |t|
  {
    if !t[q].tombstone && D(t, q) > d then -1 else if t[q].tombstone && ti == -1 then q else ti
  }

  /** How a walk of `put` ends: at a matching row (`found`) or not, `dist` rows from the home row,
      with `ti` recorded. */
  datatype Stop = Stop(found: bool, dist: nat, ti: int)

  /** The walk of `put` for `key`, taken up `d` rows from the home row of `hash` with `ti`
      recorded, on the decoded table `t` of the pairs `c`. It ends at a matching row, at an empty
      row or a row closer to its home than the walk (after the bookkeeping of that row), or, once
      it has passed every row, back at the home row with the record it had. */
  ghost function PutWalk<K, V>(t: seq<Row>, c: seq<(K, V)>, hash: Word, key: K, eq: (K, K) -> bool,
                               d: nat, ti: int): (s: Stop)
    requires 0 < |t| && d <= |t|
    ensures d <= s.dist <= |t| && (ti >= -1 ==> s.ti >= -1)
    decreases |t| - d
  {
    var q := Pos(Rem(hash, |t|), d, |t|);
    if d == |t| then Stop(false, d, ti)
    else if KeyAt(t, c, q, hash, key, eq) then Stop(true, d, ti)
    else if !Occupied(t[q]) || D(t, q) < d then Stop(false, d, Book(t, q, d, ti))
    else PutWalk(t, c, hash, key, eq, d + 1, Book(t, q, d, ti))
  }

  /** The walk of `put` for `key` ends where its row can only be placed by carrying rows on: at a
      live row with no tombstone recorded, or, having passed every row, with none recorded. */
  ghost predicate Unsettled<K, V>(t: seq<Row>, c: seq<(K, V)>, hash: Word, key: K, eq: (K, K) -> bool)
  {
    |t| > 0 &&
    var s := PutWalk(t, c, hash, key, eq, 0, -1);
    !s.found && s.ti < 0 && (s.dist == |t| || Live(t[Pos(Rem(hash, |t|), s.dist, |t|)]))
  }

  /** The walk of `put` has passed `dist` rows from the home row `e` of `hash`, none of them a
      match for `key`, and stands at `idx`; `ti` is the recorded tombstone. The rest of the walk
      ends as the whole walk does. */
  ghost predicate Searching<K, V>(t: seq<Row>, c: seq<(K, V)>, hash: Word, key: K, eq: (K, K) -> bool,
                                  e: nat, idx: nat, dist: nat, ti: int, a: nat)
  {
    |t| > 0 && e == Rem(hash, |t|) && Probed(t, c, e, dist, hash, key, eq) && idx == Pos(e, dist, |t|) &&
    ti >= -1 && Recorded(t, e, dist, ti, a) &&
    PutWalk(t, c, hash, key, eq, dist, ti) == PutWalk(t, c, hash, key, eq, 0, -1)
  }

  /** The walk of `put` stopped at `idx`, `dist` rows from the home row `e` of `hash`: no row of
      the table matches `key`, every row before `idx` could be passed, the row at `idx` is empty
      or closer to its home, and `ti` is the recorded tombstone. */
  ghost predicate Stopped<K, V>(t: seq<Row>, c: seq<(K, V)>, hash: Word, key: K, eq: (K, K) -> bool,
                                e: nat, idx: nat, dist: nat, ti: int, a: nat)
  {
    |t| > 0 && e == Rem(hash, |t|) && dist < |t| && idx == Pos(e, dist, |t|) && Walked(t, e, dist) &&
    StopsAt(t, e, dist) && (forall p :: 0 <= p < |t| ==> !KeyAt(t, c, p, hash, key, eq)) &&
    ti >= -1 && Recorded(t, e, dist + 1, ti, a) && (ti < 0 ==> !t[idx].tombstone)
  }

  /** The walk of `put` has passed every row from the home row `e` of `hash`, so no row of the
      table matches `key` and none is empty, and `ti` is the recorded tombstone. */
  ghost predicate Lapped<K, V>(t: seq<Row>, c: seq<(K, V)>, hash: Word, key: K, eq: (K, K) -> bool,
                               e: nat, ti: int, a: nat)
  {
    |t| > 0 && e == Rem(hash, |t|) && Walked(t, e, |t|) && (forall p :: 0 <= p < |t| ==> !KeyAt(t, c, p, hash, key, eq)) &&
    ti >= -1 && Recorded(t, e, |t|, ti, a)
  }

  /** The walk of `put` ended without a match: it stopped at `idx`, or it passed every row and
      came back to the home row. */
  ghost predicate Ended<K, V>(t: seq<Row>, c: seq<(K, V)>, hash: Word, key: K, eq: (K, K) -> bool,
                              e: nat, idx: nat, dist: nat, ti: int, a: nat)
  {
    if dist < |t| then Stopped(t, c, hash, key, eq, e, idx, dist, ti, a)
    else dist == |t| && idx == e && Lapped(t, c, hash, key, eq, e, ti, a)
  }

  /** The walk starts at the home row with nothing recorded. */
  lemma {:induction false} SearchStart<K, V>(t: seq<Row>, c: seq<(K, V)>, hash: Word, key: K, eq: (K, K) -> bool, e: nat)
    requires |t| > 0 && e == Rem(hash, |t|)
    ensures Searching(t, c, hash, key, eq, e, e, 0, -1, 0)
  {
  }

  /** The walk of `put` never goes beyond one lap of the table, and never completes one in a
      table with an empty row. */
  lemma {:induction false} SearchBound<K, V>(t: seq<Row>, c: seq<(K, V)>, hash: Word, key: K, eq: (K, K) -> bool,
                          e: nat, idx: nat, dist: nat, ti: int, a: nat)
    requires Searching(t, c, hash, key, eq, e, idx, dist, ti, a)
    ensures idx < |t| && dist <= |t|
    ensures HasEmptyRow(t) ==> dist < |t|
  {
    if dist == |t| {
      FullWalkHasNoEmptyRow(t, e);
    }
  }

  /** Whether the row at `p` matches `key` is the test `put` applies: a live row with the hash
      whose key slot holds an equal key. */
  lemma {:induction false} RowMatch<K, V>(t: seq<Row>, c: seq<(K, V)>, es: seq<Slot<K, V>>, p: nat, hash: Word, key: K,
                       eq: (K, K) -> bool)
    requires Points(t, es, c) && p < |t| && Live(t[p]) && t[p].hash == hash
    ensures t[p].keyIndex < |es| && es[t[p].keyIndex].Key?
    ensures KeyAt(t, c, p, hash, key, eq) <==> eq(key, es[t[p].keyIndex].key)
  {
  }

  /** The tombstone bookkeeping of `put` for the row at `idx`, whose distance is `currDist`: the
      same three cases as in `putTable`. */
  lemma {:induction false} SearchBook<K, V>(t: seq<Row>, c: seq<(K, V)>, hash: Word, key: K, eq: (K, K) -> bool,
                         e: nat, idx: nat, dist: nat, ti: int, a: nat, currHash: Word, currKeyIndex: Word,
                         isTombstone: bool, indexMask: nat, log: nat, currDist: int, ti': int, a': nat)
    requires Searching(t, c, hash, key, eq, e, idx, dist, ti, a) && dist < |t|
    requires IsMask(indexMask, log) && |t| == indexMask + 1
    requires t[idx] == Row(currHash, currKeyIndex, isTombstone)
    requires currDist == ProbeDistance(currHash, idx, |t|, indexMask, log)
    requires !isTombstone && currDist > dist ==> ti' == -1
    requires !(!isTombstone && currDist > dist) && isTombstone && ti == -1 ==> ti' == idx && a' == dist
    requires !(!isTombstone && currDist > dist) && !(isTombstone && ti == -1) ==> ti' == ti && a' == a
    ensures currDist == D(t, idx) && ti' >= -1 && Recorded(t, e, dist + 1, ti', a')
    ensures ti' < 0 ==> !isTombstone
    ensures ti' == Book(t, idx, dist, ti)
  {
    if !isTombstone && currDist > dist {
    } else if isTombstone && ti == -1 {
      NewRecord(t, e, dist, idx);
    } else {
      KeepRecord(t, e, dist, ti, a, idx);
    }
  }

  /** The walk passes a row that is neither a match nor a reason to stop. */
  lemma {:induction false} SearchPass<K, V>(t: seq<Row>, c: seq<(K, V)>, hash: Word, key: K, eq: (K, K) -> bool,
                         e: nat, idx: nat, dist: nat, ti0: int, a0: nat, ti: int, a: nat, currHash: Word,
                         currKeyIndex: Word, isTombstone: bool, indexMask: nat, log: nat, currDist: int,
                         idx': nat, dist': nat)
    requires Searching(t, c, hash, key, eq, e, idx, dist, ti0, a0)
    requires dist < |t| && IsMask(indexMask, log) && |t| == indexMask + 1
    requires t[idx] == Row(currHash, currKeyIndex, isTombstone)
    requires currHash == hash && !isTombstone ==> !KeyAt(t, c, idx, hash, key, eq)
    requires currDist == D(t, idx) && ti >= -1 && Recorded(t, e, dist + 1, ti, a) && ti == Book(t, idx, dist, ti0)
    requires !(currHash == NONE || dist > currDist)
    requires idx' == NextIndex(idx, indexMask, log) && dist' == dist + 1
    ensures Searching(t, c, hash, key, eq, e, idx', dist', ti, a)
  {
    ProbeStep(t, c, e, dist, idx, hash, key, eq);
    PosNext(e, dist, |t|, indexMask);
  }

  /** The walk stops where a lookup of `key` would: no row matches. */
  lemma {:induction false} SearchStop<K, V>(t: seq<Row>, c: seq<(K, V)>, hash: Word, key: K, eq: (K, K) -> bool,
                         e: nat, idx: nat, dist: nat, ti0: int, a0: nat, ti: int, a: nat, currHash: Word,
                         currKeyIndex: Word, isTombstone: bool, currDist: int)
    requires RobinHood(t) && Searching(t, c, hash, key, eq, e, idx, dist, ti0, a0) && dist < |t|
    requires t[idx] == Row(currHash, currKeyIndex, isTombstone)
    requires currHash == hash && !isTombstone ==> !KeyAt(t, c, idx, hash, key, eq)
    requires currDist == D(t, idx) && ti >= -1 && Recorded(t, e, dist + 1, ti, a) && (ti < 0 ==> !isTombstone)
    requires ti == Book(t, idx, dist, ti0)
    requires currHash == NONE || dist > currDist
    ensures Stopped(t, c, hash, key, eq, e, idx, dist, ti, a)
    ensures PutWalk(t, c, hash, key, eq, 0, -1) == Stop(false, dist, ti)
  {
    ProbeStop(t, c, e, dist, idx, hash, key, eq);
  }

  /** The walk has passed every row and is back at the home row: no row matches and the walk
      ends there, with the record it has. */
  lemma {:induction false} SearchLapped<K, V>(t: seq<Row>, c: seq<(K, V)>, hash: Word, key: K, eq: (K, K) -> bool,
                           e: nat, idx: nat, dist: nat, ti: int, a: nat)
    requires Searching(t, c, hash, key, eq, e, idx, dist, ti, a) && dist == |t|
    ensures Ended(t, c, hash, key, eq, e, idx, dist, ti, a)
    ensures PutWalk(t, c, hash, key, eq, 0, -1) == Stop(false, dist, ti)
  {
    forall p | 0 <= p < |t|
      ensures !KeyAt(t, c, p, hash, key, eq)
    {
      assert Pos(e, Off(e, p, |t|), |t|) == p;
    }
  }

  /** A walk that ends without a match means the key is absent: appending its pair is what `put`
      promises, and keeps the keys distinct. */
  lemma {:induction false} StoppedAbsent<K(!new), V>(t: seq<Row>, pos: map<nat, nat>, c: seq<(K, V)>, h: K -> Word,
                                  eq: (K, K) -> bool, key: K, value: V, merge: (V, V) -> V,
                                  e: nat, idx: nat, dist: nat, ti: int, a: nat)
    requires Placed(t, pos, c, h) && KeyLaws(h, eq) && Unique(c, eq)
    requires Ended(t, c, KeyHash(h(key)), key, eq, e, idx, dist, ti, a)
    ensures Lookup(c, key, eq) == None
    ensures Put(c, key, value, merge, eq) == c + [(key, value)] && Unique(c + [(key, value)], eq)
  {
    NotFound(t, pos, c, h, eq, key);
    PutUnique(c, key, value, merge, eq);
  }

  /** The appended pair's row written over the recorded tombstone, or over the empty row where the
      walk stopped: the table places the appended pairs. */
  lemma {:induction false} StoppedPlaced<K, V>(t: seq<Row>, pos: map<nat, nat>, c: seq<(K, V)>, h: K -> Word,
                            eq: (K, K) -> bool, key: K, value: V, hash: Word,
                            e: nat, idx: nat, dist: nat, ti: int, a: nat, q: nat)
    requires Placed(t, pos, c, h) && hash == KeyHash(h(key)) && |c| < MAX_CAPACITY
    requires Stopped(t, c, hash, key, eq, e, idx, dist, ti, a)
    requires (ti >= 0 && q == ti) || (ti < 0 && q == idx && !Occupied(t[idx]))
    ensures 2 * |c| < 0x8000_0000
    ensures Placed(t[q := Row(hash, 2 * |c|, false)], pos[2 * |c| := q], c + [(key, value)], h)
  {
    var c' := c + [(key, value)];
    var r := Row(hash, 2 * |c|, false);
    StartCarrying(t, pos, c, h, key, value, hash, dist);
    if ti >= 0 {
      PlaceAtStep(t, pos, c', h, r, dist, ti, a);
    } else {
      NewRecord(t, e, dist, idx);
      PlaceAtStep(t, pos, c', h, r, dist, idx, dist);
    }
    AddedPlaced(t, pos, t[q := r], pos[2 * |c| := q], c', h);
  }

  /** After a walk that passed every row with a tombstone recorded, the appended pair's row
      written over that tombstone: the table places the appended pairs. */
  lemma {:induction false} LappedPlaced<K, V>(t: seq<Row>, pos: map<nat, nat>, c: seq<(K, V)>, h: K -> Word,
                           eq: (K, K) -> bool, key: K, value: V, hash: Word, e: nat, ti: int, a: nat)
    requires Placed(t, pos, c, h) && hash == KeyHash(h(key)) && |c| < MAX_CAPACITY
    requires Lapped(t, c, hash, key, eq, e, ti, a) && ti >= 0
    ensures 2 * |c| < 0x8000_0000
    ensures Placed(t[ti := Row(hash, 2 * |c|, false)], pos[2 * |c| := ti], c + [(key, value)], h)
  {
    var c' := c + [(key, value)];
    var r := Row(hash, 2 * |c|, false);
    StartCarrying(t, pos, c, h, key, value, hash, |t|);
    PlaceAtLap(t, pos, c', h, r, ti, a);
    AddedPlaced(t, pos, t[ti := r], pos[2 * |c| := ti], c', h);
  }

  /** A walk that passed every row leaves no empty row in the table. */
  lemma {:induction false} LappedFull<K, V>(t: seq<Row>, c: seq<(K, V)>, hash: Word, key: K, eq: (K, K) -> bool,
                         e: nat, ti: int, a: nat)
    requires Lapped(t, c, hash, key, eq, e, ti, a)
    ensures !HasEmptyRow(t)
  {
    FullWalkHasNoEmptyRow(t, e);
  }

  /** At a stop at a live row with nothing recorded, the appended pair's row is carried on by
      `putTable` from that row. */
  lemma {:induction false} StoppedCarrying<K, V>(t: seq<Row>, pos: map<nat, nat>, c: seq<(K, V)>, h: K -> Word,
                              eq: (K, K) -> bool, key: K, value: V, hash: Word,
                              e: nat, idx: nat, dist: nat, ti: int, a: nat)
    requires Placed(t, pos, c, h) && hash == KeyHash(h(key)) && |c| < MAX_CAPACITY
    requires Stopped(t, c, hash, key, eq, e, idx, dist, ti, a)
    ensures 2 * |c| < 0x8000_0000 && idx < |t|
    ensures Carrying(t, pos, c + [(key, value)], h, Row(hash, 2 * |c|, false), Dist(hash, idx, |t|))
    ensures PairIndices(pos.Keys + {2 * |c|}, |c| + 1) && CountLive(t) == |c|
  {
    DistAt(hash, e, dist, |t|);
    StartCarrying(t, pos, c, h, key, value, hash, dist);
  }

  /** The pair `putTable` was given is in the table once it is done. */
  lemma {:induction false} CarriedPlaced<K, V>(t: seq<Row>, pos: map<nat, nat>, t': seq<Row>, pos': map<nat, nat>,
                            c: seq<(K, V)>, h: K -> Word, key: K, value: V)
    requires PairIndices(pos.Keys + {2 * |c|}, |c| + 1) && CountLive(t) == |c|
    requires Added(t, pos, t', pos', c + [(key, value)], h, 2 * |c|)
    ensures Placed(t', pos', c + [(key, value)], h)
  {
    AddedPlaced(t, pos, t', pos', c + [(key, value)], h);
  }

  /** A matching row found: `putCheckEquality` merges the new value into that pair's value slot,
      which is what `put` promises for a present key, and the table still places the pairs. */
  lemma {:induction false} FoundMerged<K(!new), V>(t: seq<Row>, pos: map<nat, nat>, c: seq<(K, V)>, h: K -> Word,
                                eq: (K, K) -> bool, es: seq<Slot<K, V>>, key: K, value: V, merge: (V, V) -> V,
                                hash: Word, idx: nat, k: nat)
    requires Placed(t, pos, c, h) && Holds(es, c) && KeyLaws(h, eq) && Unique(c, eq)
    requires KeyAt(t, c, idx, hash, key, eq) && k == t[idx].keyIndex
    ensures k + 1 < |es| && es[k + 1].Value?
    ensures var c' := c[k / 2 := (c[k / 2].0, merge(es[k + 1].value, value))];
      c' == Put(c, key, value, merge, eq) && Unique(c', eq) && Placed(t, pos, c', h) &&
      Holds(es[k + 1 := Value(merge(es[k + 1].value, value))], c')
  {
    PairOfRow(t, pos, c, es, idx);
    OnlyMatch(t, pos, c, eq, key, hash, idx);
    var c' := c[k / 2 := (c[k / 2].0, merge(es[k + 1].value, value))];
    PutUnique(c, key, value, merge, eq);
    PlacedSameKeys(t, pos, c, c', h);
    HoldsSetValue(es, c, k, merge(es[k + 1].value, value));
  }

  /** A matching row found by `update`: the value slot of that pair gets `fn` of the old value,
      which is what `update` promises for a present key, and the table still places the pairs. */
  lemma {:induction false} FoundUpdated<K(!new), V>(t: seq<Row>, pos: map<nat, nat>, c: seq<(K, V)>, h: K -> Word,
                                 eq: (K, K) -> bool, es: seq<Slot<K, V>>, key: K, fn: Option<V> -> V,
                                 hash: Word, idx: nat, k: nat)
    requires Placed(t, pos, c, h) && Holds(es, c) && KeyLaws(h, eq) && Unique(c, eq)
    requires KeyAt(t, c, idx, hash, key, eq) && k == t[idx].keyIndex
    ensures k + 1 < |es| && es[k + 1].Value?
    ensures var c' := c[k / 2 := (c[k / 2].0, fn(Some(es[k + 1].value)))];
      c' == Update(c, key, fn, eq) && Unique(c', eq) && Placed(t, pos, c', h) &&
      Holds(es[k + 1 := Value(fn(Some(es[k + 1].value)))], c')
  {
    PairOfRow(t, pos, c, es, idx);
    OnlyMatch(t, pos, c, eq, key, hash, idx);
    var v := fn(Some(es[k + 1].value));
    var c' := c[k / 2 := (c[k / 2].0, v)];
    UpdateIsPut(c, key, fn, eq);
    PutUnique(c, key, v, LastWriteWins, eq);
    PlacedSameKeys(t, pos, c, c', h);
    HoldsSetValue(es, c, k, v);
  }

  /** In a table without live rows the walk of `put` records the first row it passes, a
      tombstone, and keeps it to the end. */
  lemma {:induction false} TombstonesWalk<K, V>(t: seq<Row>, c: seq<(K, V)>, hash: Word, key: K, eq: (K, K) -> bool,
                            d: nat, ti: int)
    requires 0 < |t| && d <= |t| && forall p :: 0 <= p < |t| ==> !Live(t[p])
    requires ti >= -1 && (d > 0 ==> ti >= 0)
    ensures PutWalk(t, c, hash, key, eq, d, ti).dist == |t| ==> PutWalk(t, c, hash, key, eq, d, ti).ti >= 0
    decreases |t| - d
  {
    var q := Pos(Rem(hash, |t|), d, |t|);
    if d < |t| && Occupied(t[q]) && D(t, q) >= d {
      TombstonesWalk(t, c, hash, key, eq, d + 1, Book(t, q, d, ti));
    }
  }

  /** A table of tombstones and empty rows never leaves the walk of `put` unsettled: it writes
      over the first tombstone it meets, or over the empty row it stops at. */
  lemma {:induction false} TombstonesSettle<K, V>(t: seq<Row>, c: seq<(K, V)>, hash: Word, key: K, eq: (K, K) -> bool)
    requires 0 < |t| && forall p :: 0 <= p < |t| ==> !Live(t[p])
    ensures !Unsettled(t, c, hash, key, eq)
  {
    TombstonesWalk(t, c, hash, key, eq, 0, -1);
  }

  /** The row `put` as written writes the new row over when its walk has passed every row and is
      back at the home row `e` with `ti` recorded. Its loop reads the home row once more, which
      records the home row when it is a tombstone and nothing was recorded, and stops there: the
      row goes over the recorded row, or, with none, to `putTable` from the home row, which laps
      the table to the home row again and writes over it before it throws. */
  function LapWrite(t: seq<Row>, e: nat, ti: int): (q: nat)
    requires e < |t| && -1 <= ti < |t|
    ensures ti >= 0 ==> q == ti
    ensures ti < 0 ==> q == e
  {
    var ti' := Book(t, e, |t|, ti);
    if ti' >= 0 then ti' else e
  }

  /** Eight rows that `put` and `remove` as written reach from an empty map of capacity 7: rows 3
      to 7 hold keys whose home is row 0, row 2 a key whose home is row 7, and rows 0 and 1 are
      tombstones of keys whose home is row 7. Each `remove` moved the last pair into the freed
      slots, so the key indices of rows 5, 6 and 7 are those of the removed pairs. */
  function LapTable(): seq<Row>
  {
    [Row(15, 2, true), Row(23, 4, true), Row(31, 6, false), Row(8, 8, false),
     Row(16, 10, false), Row(24, 0, false), Row(32, 2, false), Row(40, 4, false)]
  }

  /** `LapTable` holds six live rows. */
  lemma {:induction false} LapTableCount()
    ensures CountLive(LapTable()) == 6
  {
    var t := LapTable();
    assert t[..8] == t;
    assert t[..1][..0] == t[..0] && CountLive(t[..1]) == 0;
    assert t[..2][..1] == t[..1] && CountLive(t[..2]) == 0;
    assert t[..3][..2] == t[..2] && CountLive(t[..3]) == 1;
    assert t[..4][..3] == t[..3] && CountLive(t[..4]) == 2;
    assert t[..5][..4] == t[..4] && CountLive(t[..5]) == 3;
    assert t[..6][..5] == t[..5] && CountLive(t[..6]) == 4;
    assert t[..7][..6] == t[..6] && CountLive(t[..7]) == 5;
    assert t[..8][..7] == t[..7] && CountLive(t[..8]) == 6;
  }

  /** `put` as written loses a pair. Every live row of `LapTable` can be found, yet the walk of
      `put` for a new key whose row hash is 48 (home row 0) passes all eight rows with nothing
      recorded: the tombstone at row 0 is recorded at the first step and cleared at the third, by
      the row at 2, three rows from its home 7. The source then writes the new row over row 0,
      where the walk for the row at 2 now stops. */
  lemma {:induction false} LapOverwrite()
    ensures RobinHood(LapTable()) && CountLive(LapTable()) == 6
    ensures PutWalk<int, int>(LapTable(), [], 48, 0, (x: int, y: int) => x == y, 0, -1) == Stop(false, 8, -1)
    ensures Rem(48, 8) == 0 && LapWrite(LapTable(), 0, -1) == 0
    ensures !Reachable(LapTable()[0 := Row(48, 12, false)], 2) && !RobinHood(LapTable()[0 := Row(48, 12, false)])
  {
    LapTableCount();
  }
}
