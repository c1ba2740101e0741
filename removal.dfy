/** What `remove(key)` does to the two arrays. The pair of `key` is taken out of `entries` by
    moving the last pair into its slots; the row of the last pair is retargeted to those slots,
    and the removed pair's row becomes a tombstone, so that walks that passed it still pass it.
    The lemmas say that this keeps the invariant of the map for the pairs `Contents.Remove`
    gives. */
module Removal {
  import opened Bits
  import opened Rows
  import opened Probing
  import opened RobinHoodInvariant
  import opened Contents
  import opened Layout
  import opened Storage
  import opened Search

  /** The rows after `remove` took out the pair with key index `k`, whose row is at `idx`: the row
      of the last pair `lk`, at `lastIdx`, points at `k` instead (when the two differ), and the
      row at `idx` is a tombstone. */
  function RemovedRows(t: seq<Row>, idx: nat, lastIdx: nat, k: nat, lk: nat): (t': seq<Row>)
    requires idx < |t| && lastIdx < |t|
    ensures |t'| == |t|
  {
    var t1 := if k != lk then t[lastIdx := Row(t[lastIdx].hash, k, false)] else t;
    t1[idx := t1[idx].(tombstone := true)]
  }

  /** `RemovedRows` and `Vacated` as the two writes of `remove` build them: first the last pair is
      moved (when it is not the removed one), giving `t1` and `es1`, then the removed pair's row is
      made a tombstone and the last pair's slots are nulled. */
  lemma {:induction false} RemovedWrites<K, V>(t: seq<Row>, es: seq<Slot<K, V>>, idx: nat, lastIdx: nat, k: nat, lk: nat,
                            t1: seq<Row>, es1: seq<Slot<K, V>>)
    requires idx < |t| && lastIdx < |t| && k + 1 < |es| && lk + 1 < |es|
    requires t1 == if k != lk then t[lastIdx := Row(t[lastIdx].hash, k, false)] else t
    requires es1 == if k != lk then es[k := es[lk]][k + 1 := es[lk + 1]] else es
    ensures RemovedRows(t, idx, lastIdx, k, lk) == t1[idx := t1[idx].(tombstone := true)]
    ensures Vacated(es, k, lk) == es1[lk := Null][lk + 1 := Null]
  {
  }

  /** Where the remaining pairs' rows are: the last pair, now with key index `k`, at `lastIdx`. */
  function RemovedPos(pos: map<nat, nat>, lastIdx: nat, k: nat, lk: nat): (pos': map<nat, nat>)
    ensures lk !in pos'
    ensures k != lk ==> k in pos' && pos'[k] == lastIdx
    ensures forall k2 :: k2 in pos' && k2 != k ==> k2 in pos && pos'[k2] == pos[k2]
    ensures forall k2 :: k2 in pos && k2 != k && k2 != lk ==> k2 in pos'
  {
    if k != lk then (pos - {lk})[k := lastIdx] else pos - {k}
  }

  /** The row `idx` that a probe for `key` found, in a map whose invariant holds: it is the row of
      the pair `k / 2` that holds `key`, the last pair sits in the last two slots, and removing
      `key` moves that last pair into the place of pair `k / 2`. */
  lemma {:induction false} RemovedPair<K(!new), V>(t: seq<Row>, pos: map<nat, nat>, c: seq<(K, V)>, h: K -> Word,
                                eq: (K, K) -> bool, es: seq<Slot<K, V>>, key: K, hash: Word, idx: nat)
    requires Placed(t, pos, c, h) && Holds(es, c) && KeyLaws(h, eq) && Unique(c, eq)
    requires KeyAt(t, c, idx, hash, key, eq)
    ensures var k, last := t[idx].keyIndex, |c| - 1;
      |c| > 0 && k % 2 == 0 && k / 2 == IndexOf(c, key, eq) && k in pos && pos[k] == idx &&
      2 * last in pos && 2 * last + 1 < |es| && k + 1 < |es| &&
      es[2 * last] == Key(c[last].0) && es[2 * last + 1] == Value(c[last].1) &&
      Remove(c, key, eq) == c[k / 2 := c[last]][..last]
  {
    var k, last := t[idx].keyIndex, |c| - 1;
    PairOfRow(t, pos, c, es, idx);
    OnlyMatch(t, pos, c, eq, key, hash, idx);
    LastPairIndex(pos.Keys, |c|);
    LastSlots(es, c);
  }

  /** The probe `remove` makes for the last pair's key finds that pair's row. */
  lemma {:induction false} LastFound<K(!new), V>(t: seq<Row>, pos: map<nat, nat>, c: seq<(K, V)>, h: K -> Word,
                              eq: (K, K) -> bool, r: int)
    requires Placed(t, pos, c, h) && KeyLaws(h, eq) && Unique(c, eq) && |c| > 0
    requires var key := c[|c| - 1].0;
      (r >= 0 ==> KeyAt(t, c, r, KeyHash(h(key)), key, eq)) &&
      (r < 0 ==> forall p :: 0 <= p < |t| ==> !KeyAt(t, c, p, KeyHash(h(key)), key, eq))
    ensures r >= 0 && 2 * (|c| - 1) in pos && pos[2 * (|c| - 1)] == r
  {
    var last := |c| - 1;
    var key := c[last].0;
    IndexOfUnique(c, last, key, eq);
    PairMatches(t, pos, c, h, eq, key);
    OnlyMatch(t, pos, c, eq, key, KeyHash(h(key)), r);
  }

  /** Rows that keep their hashes and become no more live keep the Robin Hood order. */
  lemma {:induction false} SameHashesRobinHood(t: seq<Row>, t': seq<Row>)
    requires RobinHood(t) && |t'| == |t|
    requires forall p :: 0 <= p < |t| ==> t'[p].hash == t[p].hash && (Live(t'[p]) ==> Live(t[p]))
    ensures RobinHood(t')
  {
    forall p | 0 <= p < |t'| && Live(t'[p])
      ensures Reachable(t', p)
    {
      assert Reachable(t, p);
      forall j | 0 <= j < D(t', p)
        ensures Occupied(t'[Pos(Home(t', p), j, |t'|)]) && D(t', Pos(Home(t', p), j, |t'|)) >= j
      {
        assert Occupied(t[Pos(Home(t, p), j, |t|)]) && D(t, Pos(Home(t, p), j, |t|)) >= j;
      }
    }
  }

  /** The rows and positions after a removal still point at each other. */
  lemma {:induction false} RemovedLocated(t: seq<Row>, pos: map<nat, nat>, idx: nat, lastIdx: nat, k: nat, lk: nat)
    requires Located(t, pos) && k in pos && pos[k] == idx && lk in pos && pos[lk] == lastIdx
    ensures Located(RemovedRows(t, idx, lastIdx, k, lk), RemovedPos(pos, lastIdx, k, lk))
  {
    var t', pos' := RemovedRows(t, idx, lastIdx, k, lk), RemovedPos(pos, lastIdx, k, lk);
    forall k2 | k2 in pos'
      ensures pos'[k2] < |t'| && Live(t'[pos'[k2]]) && t'[pos'[k2]].keyIndex == k2
    {
      if k2 != k {
        assert t[pos[k2]].keyIndex == k2;
      }
    }
    forall p | 0 <= p < |t'| && Live(t'[p])
      ensures t'[p].keyIndex in pos' && pos'[t'[p].keyIndex] == p
    {
      if k == lk || p != lastIdx {
        assert t'[p] == t[p];
      }
    }
  }

  /** The count of live rows drops by one. */
  lemma {:induction false} RemovedCount(t: seq<Row>, idx: nat, lastIdx: nat, k: nat, lk: nat)
    requires idx < |t| && lastIdx < |t| && (k == lk || idx != lastIdx) && Live(t[idx]) && Live(t[lastIdx])
    ensures CountLive(RemovedRows(t, idx, lastIdx, k, lk)) == CountLive(t) - 1
  {
    var t1 := if k != lk then t[lastIdx := Row(t[lastIdx].hash, k, false)] else t;
    if k != lk {
      CountLiveUpdate(t, lastIdx, Row(t[lastIdx].hash, k, false));
    }
    assert t1[idx] == t[idx];
    CountLiveUpdate(t1, idx, t1[idx].(tombstone := true));
  }

  /** Retargeting a live row and tombstoning another keeps the Robin Hood order. */
  lemma {:induction false} RemovedRobinHood(t: seq<Row>, idx: nat, lastIdx: nat, k: nat, lk: nat)
    requires RobinHood(t) && idx < |t| && lastIdx < |t| && Live(t[lastIdx])
    ensures RobinHood(RemovedRows(t, idx, lastIdx, k, lk))
  {
    var t' := RemovedRows(t, idx, lastIdx, k, lk);
    forall p | 0 <= p < |t|
      ensures t'[p].hash == t[p].hash && (Live(t'[p]) ==> Live(t[p]))
    {
    }
    SameHashesRobinHood(t, t');
  }

  /** Removing `key`, whose row is at `idx`, with the last pair's row at `lastIdx`: the table
      places the pairs `Contents.Remove` leaves, and has no more tombstones than one new one. */
  lemma {:induction false} RemovedPlaced<K(!new), V>(t: seq<Row>, pos: map<nat, nat>, c: seq<(K, V)>, h: K -> Word,
                                  eq: (K, K) -> bool, key: K, idx: nat, lastIdx: nat, k: nat)
    requires Placed(t, pos, c, h) && |c| > 0
    requires k % 2 == 0 && k in pos && pos[k] == idx
    requires 2 * (|c| - 1) in pos && pos[2 * (|c| - 1)] == lastIdx
    requires Remove(c, key, eq) == c[k / 2 := c[|c| - 1]][..|c| - 1]
    ensures var lk := 2 * (|c| - 1);
      Placed(RemovedRows(t, idx, lastIdx, k, lk), RemovedPos(pos, lastIdx, k, lk), Remove(c, key, eq), h)
  {
    var last := |c| - 1;
    var lk := 2 * last;
    var t', pos', c' := RemovedRows(t, idx, lastIdx, k, lk), RemovedPos(pos, lastIdx, k, lk), Remove(c, key, eq);
    assert k in pos.Keys && lk in pos.Keys;
    assert k == lk || idx != lastIdx by {
      assert t[pos[k]].keyIndex == k && t[pos[lk]].keyIndex == lk;
    }
    assert Live(t[idx]) && Live(t[lastIdx]);
    RemovedRobinHood(t, idx, lastIdx, k, lk);
    RemovedLocated(t, pos, idx, lastIdx, k, lk);
    RemovedCount(t, idx, lastIdx, k, lk);
    RemovedIndices(pos, lastIdx, k, |c|);
    RemovedHashes(t, pos, c, h, idx, lastIdx, k);
  }

  /** The pairs left are the first `size - 1`. */
  lemma {:induction false} RemovedIndices(pos: map<nat, nat>, lastIdx: nat, k: nat, size: nat)
    requires PairIndices(pos.Keys, size) && size > 0 && k % 2 == 0 && k < 2 * size
    ensures PairIndices(RemovedPos(pos, lastIdx, k, 2 * (size - 1)).Keys, size - 1)
  {
    var pos' := RemovedPos(pos, lastIdx, k, 2 * (size - 1));
    forall k2: nat
      ensures k2 in pos'.Keys <==> k2 % 2 == 0 && k2 < 2 * (size - 1)
    {
      if k2 % 2 == 0 && k2 < 2 * (size - 1) {
        assert k2 in pos.Keys;
      }
      if k2 in pos' && k2 != k {
        assert k2 in pos.Keys;
      }
    }
  }

  /** The rows left hold the hashes of the keys of the pairs left, the retargeted row that of the
      last pair's key, which now sits in the removed pair's place. */
  lemma {:induction false} RemovedHashes<K, V>(t: seq<Row>, pos: map<nat, nat>, c: seq<(K, V)>, h: K -> Word,
                            idx: nat, lastIdx: nat, k: nat)
    requires Located(t, pos) && PairIndices(pos.Keys, |c|) && HashesAre(t, pos, c, h) && |c| > 0
    requires k % 2 == 0 && k in pos && pos[k] == idx
    requires 2 * (|c| - 1) in pos && pos[2 * (|c| - 1)] == lastIdx
    ensures var last := |c| - 1;
      HashesAre(RemovedRows(t, idx, lastIdx, k, 2 * last), RemovedPos(pos, lastIdx, k, 2 * last),
                c[k / 2 := c[last]][..last], h)
  {
    var last := |c| - 1;
    var lk := 2 * last;
    var t', pos', c' := RemovedRows(t, idx, lastIdx, k, lk), RemovedPos(pos, lastIdx, k, lk), c[k / 2 := c[last]][..last];
    forall k2 | k2 in pos'
      ensures pos'[k2] < |t'| && k2 / 2 < |c'| && t'[pos'[k2]].hash == KeyHash(h(c'[k2 / 2].0))
    {
      if k2 == k {
        assert lk / 2 == last;
        assert k / 2 < last by { assert k != lk; }
      } else {
        assert k2 in pos.Keys;
        assert k2 % 2 == 0 && k2 < lk;
        EvenHalves(k2, k);
        EvenHalves(k2, lk);
        assert t'[pos'[k2]] == t[pos[k2]] by {
          assert t[pos[k2]].keyIndex == k2;
        }
      }
    }
  }

  /** All of `remove(key)` at the row `idx` a probe found: with the table rows retargeted and
      tombstoned and the entries vacated, the map holds the pairs `Contents.Remove` leaves, still
      with distinct keys, one fewer than before. */
  lemma {:induction false} RemovedState<K(!new), V>(t: seq<Row>, pos: map<nat, nat>, c: seq<(K, V)>, h: K -> Word,
                                 eq: (K, K) -> bool, es: seq<Slot<K, V>>, key: K, hash: Word, idx: nat,
                                 lastIdx: nat, k: nat)
    requires Placed(t, pos, c, h) && Holds(es, c) && KeyLaws(h, eq) && Unique(c, eq)
    requires KeyAt(t, c, idx, hash, key, eq) && k == t[idx].keyIndex
    requires 2 * (|c| - 1) in pos && lastIdx == pos[2 * (|c| - 1)]
    ensures var lk, c' := 2 * (|c| - 1), Remove(c, key, eq);
      lastIdx < |t| && k + 1 < |es| && lk + 1 < |es| &&
      Placed(RemovedRows(t, idx, lastIdx, k, lk), RemovedPos(pos, lastIdx, k, lk), c', h) &&
      Holds(Vacated(es, k, lk), c') && Unique(c', eq) && |c'| == |c| - 1
  {
    RemovedPair(t, pos, c, h, eq, es, key, hash, idx);
    RemovedPlaced(t, pos, c, h, eq, key, idx, lastIdx, k);
    HoldsRemove(es, c, k);
    RemoveUnique(c, key, eq);
  }
}
