/** What `put` and `putTable` know while they walk the table to insert a row. The row being
    inserted, or the row it last displaced, is carried forward from its home row; `Carrying` is
    the table invariant with that one row out of the table, and `Recorded` is the bookkeeping of
    the first tombstone met since the walk last passed a row farther from its home than the walk
    is. A carried row is finally written over an empty row, over the recorded tombstone, or over
    the row where the walk stops; the lemmas here say that each of these keeps the invariant. */
module Insertion {
  import opened Bits
  import opened Rows
  import opened Probing
  import opened RobinHoodInvariant
  import opened Contents
  import opened Layout
  import opened Storage

  /** The row `j + 1` rows forward of `b` is the row after the row `j` rows forward, wrapping
      after the last row `m` of a table of `m + 1` rows. */
  lemma {:induction false} PosNext(b: nat, j: nat, n: nat, m: nat)
    requires b < n && j < n && n == m + 1
    ensures Pos(b, j + 1, n) == if Pos(b, j, n) == m then 0 else Pos(b, j, n) + 1
  {
  }

  /** A row `j` rows forward of the home of `hash` is at probe distance `j`. */
  lemma {:induction false} DistAt(hash: Word, e: nat, j: nat, n: nat)
    requires n > 0 && e == Rem(hash, n) && j < n
    ensures Dist(hash, Pos(e, j, n), n) == j
  {
    PosOff(e, j, n);
  }

  /** The table invariant holds for the pairs in `pos`, and the live row `r` of one more pair,
      which belongs to no row of the table, may walk `d` rows forward of its home. */
  ghost predicate Carrying<K, V>(t: seq<Row>, pos: map<nat, nat>, c: seq<(K, V)>, h: K -> Word, r: Row, d: nat)
  {
    RobinHood(t) && Located(t, pos) && HashesAre(t, pos, c, h) &&
    Live(r) && r.keyIndex !in pos && HashOf(r, c, h) && d <= |t| && Walked(t, Rem(r.hash, |t|), d)
  }

  /** The row of pair `k` has been written into `t` giving `t'`: the invariant holds again, for
      the pairs of `pos` and pair `k`, and one more row is live. */
  ghost predicate Added<K, V>(t: seq<Row>, pos: map<nat, nat>, t': seq<Row>, pos': map<nat, nat>, c: seq<(K, V)>,
                              h: K -> Word, k: nat)
  {
    |t'| == |t| && RobinHood(t') && Located(t', pos') && HashesAre(t', pos', c, h) &&
    pos'.Keys == pos.Keys + {k} && CountLive(t') == CountLive(t) + 1 && (NoTombstones(t) ==> NoTombstones(t'))
  }

  /** `tombstoneIdx` after `d` steps of a walk from `e`: either -1, or a row that is not live met
      at step `a`, after which the walk has passed no row farther from its home than the walk. */
  ghost predicate Recorded(t: seq<Row>, e: nat, d: nat, ti: int, a: nat)
    requires e < |t| && d <= |t|
  {
    ti < 0 || (a < d && ti == Pos(e, a, |t|) && !Live(t[ti]) && NoResetBetween(t, e, a, d))
  }

  /** Passing a row that gives no reason to forget the recorded tombstone keeps it. */
  lemma {:induction false} KeepRecord(t: seq<Row>, e: nat, d: nat, ti: int, a: nat, q: nat)
    requires e < |t| && d < |t| && Recorded(t, e, d, ti, a) && q == Pos(e, d, |t|)
    requires !(Live(t[q]) && D(t, q) > d)
    ensures Recorded(t, e, d + 1, ti, a)
  {
  }

  /** The first tombstone after a reset is recorded. */
  lemma {:induction false} NewRecord(t: seq<Row>, e: nat, d: nat, q: nat)
    requires e < |t| && d < |t| && q == Pos(e, d, |t|) && !Live(t[q])
    ensures Recorded(t, e, d + 1, q, d)
  {
  }

  /** A carried row may pass an occupied row no closer to its home than the carried row is. */
  lemma {:induction false} PassRow<K, V>(t: seq<Row>, pos: map<nat, nat>, c: seq<(K, V)>, h: K -> Word, r: Row, d: nat, q: nat)
    requires Carrying(t, pos, c, h, r, d) && d < |t| && q == Pos(Rem(r.hash, |t|), d, |t|)
    requires Occupied(t[q]) && D(t, q) >= d
    ensures Carrying(t, pos, c, h, r, d + 1)
  {
    var n, e := |t|, Rem(r.hash, |t|);
    forall j | 0 <= j < d + 1
      ensures Occupied(t[Pos(e, j, n)]) && D(t, Pos(e, j, n)) >= j
    {
      if j < d {
        assert Walked(t, e, d);
      }
    }
  }

  /** A walk that stops at step `d` writes the carried row over the recorded row `q`, met at step
      `a`; when nothing was recorded, `q` is the row at step `d` and is not live. */
  lemma {:induction false} PlaceAtStep<K, V>(t: seq<Row>, pos: map<nat, nat>, c: seq<(K, V)>, h: K -> Word, r: Row, d: nat,
                          q: int, a: nat)
    requires Carrying(t, pos, c, h, r, d) && d < |t| && q >= 0
    requires Recorded(t, Rem(r.hash, |t|), d + 1, q, a) && StopsAt(t, Rem(r.hash, |t|), d)
    ensures Added(t, pos, t[q := r], pos[r.keyIndex := q], c, h, r.keyIndex)
  {
    var n := |t|;
    var e := Rem(r.hash, n);
    DistAt(r.hash, e, a, n);
    if a < d {
      RecordedRowSupports(t, e, a, d);
    } else if Occupied(t[q]) {
      BetterSupports(t, q, a);
    } else {
      EmptySupports(t, q, a);
    }
    PlaceAt(t, pos, c, h, q, r);
  }

  /** A walk that passed every row writes the carried row over the row `q` it recorded at step
      `a`. */
  lemma {:induction false} PlaceAtLap<K, V>(t: seq<Row>, pos: map<nat, nat>, c: seq<(K, V)>, h: K -> Word, r: Row,
                         q: int, a: nat)
    requires Carrying(t, pos, c, h, r, |t|) && q >= 0 && Recorded(t, Rem(r.hash, |t|), |t|, q, a)
    ensures Added(t, pos, t[q := r], pos[r.keyIndex := q], c, h, r.keyIndex)
  {
    var n := |t|;
    var e := Rem(r.hash, n);
    DistAt(r.hash, e, a, n);
    RecordedRowSupports(t, e, a, n);
    PlaceAt(t, pos, c, h, q, r);
  }

  /** Writing the carried row over a live row closer to its home leaves that row carried, one
      row past its old place. */
  lemma {:induction false} DisplaceCarried<K, V>(t: seq<Row>, pos: map<nat, nat>, c: seq<(K, V)>, h: K -> Word, r: Row, d: nat, q: nat)
    requires Carrying(t, pos, c, h, r, d) && d < |t| && q == Pos(Rem(r.hash, |t|), d, |t|)
    requires Live(t[q]) && D(t, q) < d
    ensures var t', pos' := t[q := r], Moved(pos, t[q].keyIndex, r.keyIndex, q);
      Carrying(t', pos', c, h, t[q], D(t, q) + 1) && pos'.Keys + {t[q].keyIndex} == pos.Keys + {r.keyIndex} &&
      |t'| == |t| && CountLive(t') == CountLive(t) && (NoTombstones(t) ==> NoTombstones(t')) &&
      Pos(Rem(t[q].hash, |t|), D(t, q), |t|) == q
  {
    var n := |t|;
    DistAt(r.hash, Rem(r.hash, n), d, n);
    DisplaceAt(t, pos, c, h, q, r);
    assert Reachable(t, q);
    PosOff(Home(t, q), D(t, q), n);
  }

  /** The pairs `c` with one more pair `(key, value)` appended, whose row is about to be written:
      the map's invariant holds with that row carried `d` rows from its home. */
  lemma {:induction false} StartCarrying<K, V>(t: seq<Row>, pos: map<nat, nat>, c: seq<(K, V)>, h: K -> Word, key: K, value: V,
                            hash: Word, d: nat)
    requires Placed(t, pos, c, h) && hash == KeyHash(h(key)) && d <= |t| && Walked(t, Rem(hash, |t|), d)
    ensures Carrying(t, pos, c + [(key, value)], h, Row(hash, 2 * |c|, false), d)
    ensures PairIndices(pos.Keys + {2 * |c|}, |c| + 1) && CountLive(t) == |c|
  {
    var c' := c + [(key, value)];
    assert 2 * |c| !in pos.Keys;
    assert (2 * |c|) / 2 == |c|;
    forall k | k in pos
      ensures pos[k] < |t| && k / 2 < |c'| && t[pos[k]].hash == KeyHash(h(c'[k / 2].0))
    {
      assert k in pos.Keys;
    }
    forall k: nat
      ensures k in pos.Keys + {2 * |c|} <==> k % 2 == 0 && k < 2 * (|c| + 1)
    {
      if k % 2 == 0 && k < 2 * (|c| + 1) && k != 2 * |c| {
        assert k in pos.Keys;
      }
    }
  }

  /** The carried row of the appended pair has been written: the map places all of `c`. */
  lemma {:induction false} AddedPlaced<K, V>(t: seq<Row>, pos: map<nat, nat>, t': seq<Row>, pos': map<nat, nat>, c: seq<(K, V)>,
                          h: K -> Word)
    requires |c| > 0 && PairIndices(pos.Keys + {2 * (|c| - 1)}, |c|) && CountLive(t) + 1 == |c|
    requires Added(t, pos, t', pos', c, h, 2 * (|c| - 1))
    ensures Placed(t', pos', c, h)
  {
  }

  /** While `resize` rehashes, `probeDistance` still reads the length `length == 2^oldLog` of the
      old table, so every distance it computes for the table `t` is the probe distance plus
      `shift`: 0 when the old table is at least as long as `t`, and `length` when it is shorter;
      then `t` is being filled afresh, has no tombstones, and has room for `length` more rows
      than are live, so no sum reaches the length of `t`. */
  ghost predicate StaleBy(t: seq<Row>, length: nat, oldLog: nat, log: nat, shift: nat)
  {
    length == Pow2(oldLog) && length <= 0x4000_0000 &&
    ((shift == 0 && oldLog >= log) || (shift == length && NoTombstones(t) && CountLive(t) + length < |t|))
  }

  /** A table walked with its own length and mask is not stale. */
  lemma {:induction false} SameLengthStale(t: seq<Row>, indexMask: nat, log: nat)
    requires IsMask(indexMask, log)
    ensures StaleBy(t, indexMask + 1, log, log, 0)
  {
    Pow2Monotone(log, 30);
    Pow2Values();
  }

  /** What `probeDistance` gives for the occupied row at `q`. */
  lemma {:induction false} RowDistance(t: seq<Row>, q: nat, hash: Word, length: nat, indexMask: nat, log: nat, oldLog: nat, shift: nat)
    requires IsMask(indexMask, log) && |t| == indexMask + 1 && q < |t| && RobinHood(t)
    requires Occupied(t[q]) && hash == t[q].hash && StaleBy(t, length, oldLog, log, shift)
    ensures ProbeDistance(hash, q, length, indexMask, log) == D(t, q) + shift
  {
    if shift > 0 {
      ReachableCount(t, q);
    }
    ProbeDistanceStaleLength(hash, q, oldLog, indexMask, log);
  }

  /** What `probeDistance` gives for a carried row at `q`, which it could walk to. */
  lemma {:induction false} StartDistance(t: seq<Row>, q: nat, hash: Word, length: nat, indexMask: nat, log: nat, oldLog: nat, shift: nat)
    requires IsMask(indexMask, log) && |t| == indexMask + 1 && q < |t| && StaleBy(t, length, oldLog, log, shift)
    requires Walked(t, Rem(hash, |t|), Dist(hash, q, |t|))
    ensures ProbeDistance(hash, q, length, indexMask, log) == Dist(hash, q, |t|) + shift
  {
    if shift > 0 {
      WalkedCount(t, Rem(hash, |t|), Dist(hash, q, |t|));
    }
    ProbeDistanceStaleLength(hash, q, oldLog, indexMask, log);
  }

  /** A walk stays below the table length when the table has an empty row `z`, and stays below
      it even with the stale length added when the table is being filled afresh. */
  lemma {:induction false} WalkBound(t: seq<Row>, e: nat, d: nat, length: nat, oldLog: nat, log: nat, shift: nat, z: nat)
    requires e < |t| && d <= |t| && Walked(t, e, d) && StaleBy(t, length, oldLog, log, shift)
    ensures (shift > 0 || (z < |t| && !Occupied(t[z]))) ==> d + shift < |t|
  {
    if shift > 0 {
      WalkedCount(t, e, d);
    } else if z < |t| && !Occupied(t[z]) && d == |t| {
      FullWalkHasNoEmptyRow(t, e);
    }
  }

  /** `putTable` has taken `abs` steps from `b` to `idx`, and the empty row `z` is not behind it:
      the walk ends before `abs` exceeds the table length. */
  ghost predicate EmptyAhead(t: seq<Row>, b: nat, abs: nat, idx: nat, z: nat)
  {
    b < |t| && z < |t| && !Occupied(t[z]) && abs <= Off(b, z, |t|) && idx == Pos(b, abs, |t|)
  }

  /** Stepping past an occupied row keeps the empty row ahead. */
  lemma {:induction false} EmptyAheadStep(t: seq<Row>, b: nat, abs: nat, idx: nat, z: nat, m: nat)
    requires |t| == m + 1 && idx < |t| && Occupied(t[idx])
    ensures EmptyAhead(t, b, abs, idx, z) ==> EmptyAhead(t, b, abs + 1, if idx == m then 0 else idx + 1, z)
  {
    if EmptyAhead(t, b, abs, idx, z) {
      PosNext(b, abs, m + 1, m);
    }
  }

  /** Writing over an occupied row keeps the empty row empty. */
  lemma {:induction false} EmptyAheadWrite(t: seq<Row>, b: nat, abs: nat, idx: nat, z: nat, x: Row)
    requires idx < |t| && Occupied(t[idx])
    ensures EmptyAhead(t, b, abs, idx, z) ==> EmptyAhead(t[idx := x], b, abs, idx, z)
  {
  }

  /** The row of a pair of a map of at most `MAX_CAPACITY` pairs survives `Row.construct`. */
  lemma {:induction false} Encoded<K, V>(r: Row, c: seq<(K, V)>, h: K -> Word)
    requires HashOf(r, c, h) && |c| <= MAX_CAPACITY && !r.tombstone
    ensures r.keyIndex < 0x8000_0000 && Decode(Construct(r.hash, r.keyIndex)) == r
  {
    ConstructRoundTrip(r.hash, r.keyIndex);
  }

  /** What stays fixed during one call of `putTable`: the table `t0` and the pairs `pos0` it
      places, the key index `k0` of the row being inserted, the pairs and hash function of the
      map, the stale length (see `StaleBy`), the starting row, and an empty row `z` of `t0`, or
      -1 when it has none. */
  datatype Setup<!K, V> = Setup(t0: seq<Row>, pos0: map<nat, nat>, k0: nat, c: seq<(K, V)>, h: K -> Word,
                               length: nat, oldLog: nat, log: nat, shift: nat, start: nat, z: int)

  /** The part of the state of `putTable` that does not depend on the tombstone bookkeeping: the
      table `t` with the carried row `r` out of it, walked `d` rows from its home to `idx`, after
      `abs` steps from the start. */
  ghost predicate Core<K, V>(s: Setup<K, V>, t: seq<Row>, pos: map<nat, nat>, r: Row, d: nat, idx: nat, abs: nat)
  {
    |t| == |s.t0| && Carrying(t, pos, s.c, s.h, r, d) && idx == Pos(Rem(r.hash, |t|), d, |t|) &&
    pos.Keys + {r.keyIndex} == s.pos0.Keys + {s.k0} && CountLive(t) == CountLive(s.t0) &&
    (NoTombstones(s.t0) ==> NoTombstones(t)) && StaleBy(t, s.length, s.oldLog, s.log, s.shift) &&
    abs <= |t| + 1 && (s.z >= 0 ==> EmptyAhead(t, s.start, abs, idx, s.z)) && |s.c| <= MAX_CAPACITY
  }

  /** The state of `putTable` at the head of its loop: `dist` is the carried row's distance as
      `probeDistance` reckons it, and `ti` the recorded tombstone. */
  ghost predicate Chain<K, V>(s: Setup<K, V>, t: seq<Row>, pos: map<nat, nat>, r: Row, d: nat, a: nat,
                              idx: nat, dist: nat, abs: nat, ti: int)
  {
    Core(s, t, pos, r, d, idx, abs) && dist == d + s.shift && ti >= -1 && Recorded(t, Rem(r.hash, |t|), d, ti, a)
  }

  /** The state of `putTable` after the bookkeeping of the occupied row at `idx`, whose distance
      is `currDist` as `probeDistance` reckons it. */
  ghost predicate Booked<K, V>(s: Setup<K, V>, t: seq<Row>, pos: map<nat, nat>, r: Row, d: nat, a: nat,
                               idx: nat, dist: nat, abs: nat, ti: int, currDist: int)
  {
    Core(s, t, pos, r, d, idx, abs) && d < |t| && abs <= |t| && dist == d + s.shift && Occupied(t[idx]) &&
    currDist == D(t, idx) + s.shift && ti >= -1 && Recorded(t, Rem(r.hash, |t|), d + 1, ti, a) &&
    (ti < 0 ==> !t[idx].tombstone)
  }

  /** The loop of `putTable` starts at `start` with the distance `probeDistance` gives there. */
  lemma {:induction false} ChainStart<K, V>(s: Setup<K, V>, hash: Word, indexMask: nat, dist: nat)
    requires IsMask(indexMask, s.log) && |s.t0| == indexMask + 1 && s.start < |s.t0| && |s.c| <= MAX_CAPACITY
    requires Carrying(s.t0, s.pos0, s.c, s.h, Row(hash, s.k0, false), Dist(hash, s.start, |s.t0|))
    requires StaleBy(s.t0, s.length, s.oldLog, s.log, s.shift) && (s.z >= 0 ==> s.z < |s.t0| && !Occupied(s.t0[s.z]))
    requires dist == ProbeDistance(hash, s.start, s.length, indexMask, s.log)
    ensures Chain(s, s.t0, s.pos0, Row(hash, s.k0, false), Dist(hash, s.start, |s.t0|), 0, s.start, dist, 0, -1)
  {
    StartDistance(s.t0, s.start, hash, s.length, indexMask, s.log, s.oldLog, s.shift);
  }

  /** With an empty row, the walk never takes more steps than there are rows, and the carried
      row's distance stays below the table length. */
  lemma {:induction false} ChainGuard<K, V>(s: Setup<K, V>, t: seq<Row>, pos: map<nat, nat>, r: Row, d: nat, a: nat,
                         idx: nat, dist: nat, abs: nat, ti: int)
    requires Chain(s, t, pos, r, d, a, idx, dist, abs, ti)
    ensures |t| == |s.t0| && idx < |t|
    ensures s.z >= 0 ==> abs <= |t| && dist < |t|
  {
    if s.z >= 0 {
      WalkBound(t, Rem(r.hash, |t|), d, s.length, s.oldLog, s.log, s.shift, s.z);
    }
  }

  /** An empty row ends the walk: the carried row is written there. */
  lemma {:induction false} ChainEmptyRow<K, V>(s: Setup<K, V>, t: seq<Row>, pos: map<nat, nat>, r: Row, d: nat, a: nat,
                            idx: nat, dist: nat, abs: nat, ti: int, currHash: Word, currKeyIndex: Word, isTombstone: bool)
    requires Chain(s, t, pos, r, d, a, idx, dist, abs, ti) && dist < |t|
    requires t[idx] == Row(currHash, currKeyIndex, isTombstone) && currHash == NONE
    ensures r.keyIndex < 0x8000_0000 && Added(s.t0, s.pos0, t[idx := r], pos[r.keyIndex := idx], s.c, s.h, s.k0)
  {
    Encoded(r, s.c, s.h);
    NewRecord(t, Rem(r.hash, |t|), d, idx);
    PlaceAtStep(t, pos, s.c, s.h, r, d, idx, d);
  }

  /** The tombstone bookkeeping of `putTable` for the occupied row at `idx`: a live row farther
      from its home than the walk resets `tombstoneIdx` to -1, the first tombstone after that is
      recorded, and any other row leaves it as it was. */
  lemma {:induction false} ChainBook<K, V>(s: Setup<K, V>, t: seq<Row>, pos: map<nat, nat>, r: Row, d: nat, a: nat,
                        idx: nat, dist: nat, abs: nat, ti: int, currHash: Word, currKeyIndex: Word, isTombstone: bool,
                        indexMask: nat, currDist: int, ti': int, a': nat)
    requires Chain(s, t, pos, r, d, a, idx, dist, abs, ti) && dist < |t| && abs <= |t|
    requires IsMask(indexMask, s.log) && |t| == indexMask + 1
    requires t[idx] == Row(currHash, currKeyIndex, isTombstone) && currHash != NONE
    requires currDist == ProbeDistance(currHash, idx, s.length, indexMask, s.log)
    requires !isTombstone && currDist > dist ==> ti' == -1
    requires !(!isTombstone && currDist > dist) && isTombstone && ti == -1 ==> ti' == idx && a' == d
    requires !(!isTombstone && currDist > dist) && !(isTombstone && ti == -1) ==> ti' == ti && a' == a
    ensures Booked(s, t, pos, r, d, a', idx, dist, abs, ti', currDist)
  {
    var e := Rem(r.hash, |t|);
    RowDistance(t, idx, currHash, s.length, indexMask, s.log, s.oldLog, s.shift);
    if !isTombstone && currDist > dist {
    } else if isTombstone && ti == -1 {
      NewRecord(t, e, d, idx);
    } else {
      KeepRecord(t, e, d, ti, a, idx);
    }
  }

  /** The walk stops with a tombstone recorded: the carried row is written over it. */
  lemma {:induction false} ChainStopAtRecorded<K, V>(s: Setup<K, V>, t: seq<Row>, pos: map<nat, nat>, r: Row, d: nat, a: nat,
                                  idx: nat, dist: nat, abs: nat, ti: int, currDist: int)
    requires Booked(s, t, pos, r, d, a, idx, dist, abs, ti, currDist) && dist > currDist && ti >= 0
    ensures r.keyIndex < 0x8000_0000 && Added(s.t0, s.pos0, t[ti := r], pos[r.keyIndex := ti], s.c, s.h, s.k0)
  {
    Encoded(r, s.c, s.h);
    PlaceAtStep(t, pos, s.c, s.h, r, d, ti, a);
  }

  /** The walk stops at a live row with nothing recorded: the carried row takes its place (`t'`,
      `pos'`), and the displaced row `r'`, `d'` rows from its home, is carried on from the next
      row. */
  lemma {:induction false} ChainDisplace<K, V>(s: Setup<K, V>, t: seq<Row>, pos: map<nat, nat>, r: Row, d: nat, a: nat,
                            idx: nat, dist: nat, abs: nat, ti: int, currDist: int, indexMask: nat,
                            t': seq<Row>, pos': map<nat, nat>, r': Row, d': nat, idx': nat, dist': nat, abs': nat)
    requires Booked(s, t, pos, r, d, a, idx, dist, abs, ti, currDist) && dist > currDist && ti < 0
    requires IsMask(indexMask, s.log) && |t| == indexMask + 1
    requires t' == t[idx := r] && pos' == Moved(pos, t[idx].keyIndex, r.keyIndex, idx) && r' == t[idx]
    requires d' == D(t, idx) + 1 && idx' == NextIndex(idx, indexMask, s.log) && dist' == currDist + 1 && abs' == abs + 1
    ensures r.keyIndex < 0x8000_0000 && !r'.tombstone
    ensures Chain(s, t', pos', r', d', a, idx', dist', abs', ti)
  {
    Encoded(r, s.c, s.h);
    DisplaceCore(s, t, pos, r, d, idx, abs, indexMask);
  }

  lemma {:induction false} DisplaceCore<K, V>(s: Setup<K, V>, t: seq<Row>, pos: map<nat, nat>, r: Row, d: nat, idx: nat, abs: nat,
                           indexMask: nat)
    requires Core(s, t, pos, r, d, idx, abs) && d < |t| && abs <= |t| && Live(t[idx]) && D(t, idx) < d
    requires IsMask(indexMask, s.log) && |t| == indexMask + 1
    ensures Core(s, t[idx := r], Moved(pos, t[idx].keyIndex, r.keyIndex, idx), t[idx], D(t, idx) + 1,
                 NextIndex(idx, indexMask, s.log), abs + 1)
  {
    var n, next := |t|, NextIndex(idx, indexMask, s.log);
    var t', pos', r', d' := t[idx := r], Moved(pos, t[idx].keyIndex, r.keyIndex, idx), t[idx], D(t, idx) + 1;
    DisplaceCarried(t, pos, s.c, s.h, r, d, idx);
    PosNext(Rem(r'.hash, n), D(t, idx), n, indexMask);
    if s.z >= 0 {
      EmptyAheadWrite(t, s.start, abs, idx, s.z, r);
      EmptyAheadStep(t', s.start, abs, idx, s.z, indexMask);
    }
  }

  /** The walk passes the row at `idx`. */
  lemma {:induction false} ChainPass<K, V>(s: Setup<K, V>, t: seq<Row>, pos: map<nat, nat>, r: Row, d: nat, a: nat,
                        idx: nat, dist: nat, abs: nat, ti: int, currDist: int, indexMask: nat,
                        d': nat, idx': nat, dist': nat, abs': nat)
    requires Booked(s, t, pos, r, d, a, idx, dist, abs, ti, currDist) && !(dist > currDist)
    requires IsMask(indexMask, s.log) && |t| == indexMask + 1
    requires d' == d + 1 && idx' == NextIndex(idx, indexMask, s.log) && dist' == dist + 1 && abs' == abs + 1
    ensures Chain(s, t, pos, r, d', a, idx', dist', abs', ti)
  {
    var n := |t|;
    PassRow(t, pos, s.c, s.h, r, d, idx);
    if s.z >= 0 {
      EmptyAheadStep(t, s.start, abs, idx, s.z, indexMask);
    }
    PosNext(Rem(r.hash, n), d, n, indexMask);
  }
}
