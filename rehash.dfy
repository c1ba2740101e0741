/** What `resize` knows while it moves the live rows of the old table `t0` into a fresh table of
    another length, one old row at a time: the new table places exactly the pairs whose rows it
    has passed, in Robin Hood order, without tombstones. */
module Rehashing {
  import opened Bits
  import opened Rows
  import opened Probing
  import opened RobinHoodInvariant
  import opened Contents
  import opened Layout
  import opened Storage
  import opened Insertion

  /** After the first `i` rows of `t0`, the new table `t` places the pairs whose rows in `t0` are
      among them, and no others. */
  ghost predicate Moving<K, V>(t0: seq<Row>, pos0: map<nat, nat>, c: seq<(K, V)>, h: K -> Word, i: nat,
                               t: seq<Row>, pos: map<nat, nat>)
  {
    i <= |t0| && RobinHood(t) && Located(t, pos) && HashesAre(t, pos, c, h) && NoTombstones(t) &&
    (forall k :: k in pos <==> k in pos0 && pos0[k] < i) && CountLive(t) == CountLive(t0[..i])
  }

  /** A fresh table of `n` zeros has passed no row. */
  lemma {:induction false} RehashStart<K, V>(t0: seq<Row>, pos0: map<nat, nat>, c: seq<(K, V)>, h: K -> Word, n: nat)
    requires n > 0
    ensures Moving(t0, pos0, c, h, 0, EmptyRows(n), map[])
  {
    EmptyPlaced<K, V>(n, h);
    assert t0[..0] == [];
  }

  /** A row of `t0` that is not live moves nothing. */
  lemma {:induction false} RehashSkip<K, V>(t0: seq<Row>, pos0: map<nat, nat>, c: seq<(K, V)>, h: K -> Word, i: nat,
                         t: seq<Row>, pos: map<nat, nat>)
    requires Located(t0, pos0) && Moving(t0, pos0, c, h, i, t, pos) && i < |t0| && !Live(t0[i])
    ensures Moving(t0, pos0, c, h, i + 1, t, pos)
  {
    CountLivePrefix(t0, i);
    forall k | k in pos0 && pos0[k] == i
      ensures false
    {
    }
  }

  /** The live row at `i` of `t0`, carried from its home in `t`, where `probeDistance` reads the
      old length `|t0|`: `t` has room for it, and when `t` is longer than `t0` every distance
      `probeDistance` gives there is off by `|t0|` (see `StaleBy`). */
  lemma {:induction false} RehashCarry<K, V>(t0: seq<Row>, pos0: map<nat, nat>, c: seq<(K, V)>, h: K -> Word, i: nat,
                          t: seq<Row>, pos: map<nat, nat>, oldLog: nat, log: nat,
                          hash: Word, keyIndex: nat, e: nat, shift: nat)
    requires Placed(t0, pos0, c, h) && Moving(t0, pos0, c, h, i, t, pos) && i < |t0|
    requires t0[i] == Row(hash, keyIndex, false) && hash != NONE
    requires |t0| == Pow2(oldLog) && oldLog <= 30 && |t| == Pow2(log) && |c| < |t|
    requires oldLog < log ==> |c| + |t0| < |t|
    requires e == Rem(hash, |t|) && shift == if oldLog >= log then 0 else |t0|
    ensures Carrying(t, pos, c, h, Row(hash, keyIndex, false), Dist(hash, e, |t|))
    ensures StaleBy(t, |t0|, oldLog, log, shift) && HasEmptyRow(t)
  {
    assert keyIndex in pos0 && pos0[keyIndex] == i;
    assert keyIndex in pos0.Keys;
    DistAt(hash, e, 0, |t|);
    RehashRoom(t0, pos0, c, h, i, t, pos, oldLog, log);
  }

  /** The part of `RehashCarry` about room: with fewer live rows than `t0` has pairs, `t` has an
      empty row, and room for `|t0|` more when it is longer than `t0`. */
  lemma {:induction false} RehashRoom<K, V>(t0: seq<Row>, pos0: map<nat, nat>, c: seq<(K, V)>, h: K -> Word, i: nat,
                         t: seq<Row>, pos: map<nat, nat>, oldLog: nat, log: nat)
    requires CountLive(t0) == |c| && Moving(t0, pos0, c, h, i, t, pos) && i < |t0| && Live(t0[i])
    requires |t0| == Pow2(oldLog) && oldLog <= 30 && |t| == Pow2(log) && |c| < |t|
    requires oldLog < log ==> |c| + |t0| < |t|
    ensures StaleBy(t, |t0|, oldLog, log, if oldLog >= log then 0 else |t0|) && HasEmptyRow(t)
  {
    CountLivePrefix(t0, i);
    CountLivePrefixBound(t0, i + 1);
    CountLiveEmptyRow(t);
    Pow2Monotone(oldLog, 30);
    Pow2Values();
  }

  /** The carried row of pair `k`, the row at `i` of `t0`, has been written. */
  lemma {:induction false} RehashAdded<K, V>(t0: seq<Row>, pos0: map<nat, nat>, c: seq<(K, V)>, h: K -> Word, i: nat,
                          t: seq<Row>, pos: map<nat, nat>, t': seq<Row>, pos': map<nat, nat>)
    requires Located(t0, pos0) && Moving(t0, pos0, c, h, i, t, pos) && i < |t0| && Live(t0[i])
    requires Added(t, pos, t', pos', c, h, t0[i].keyIndex)
    ensures Moving(t0, pos0, c, h, i + 1, t', pos')
  {
    CountLivePrefix(t0, i);
    forall k
      ensures k in pos' <==> k in pos0 && pos0[k] < i + 1
    {
      assert k in pos'.Keys <==> k in pos.Keys || k == t0[i].keyIndex;
      if k in pos0 && pos0[k] == i {
        assert t0[pos0[k]].keyIndex == k;
      }
    }
  }

  /** Once every row of `t0` has been passed, the new table places all the pairs. */
  lemma {:induction false} RehashDone<K, V>(t0: seq<Row>, pos0: map<nat, nat>, c: seq<(K, V)>, h: K -> Word,
                         t: seq<Row>, pos: map<nat, nat>)
    requires Placed(t0, pos0, c, h) && Moving(t0, pos0, c, h, |t0|, t, pos)
    ensures Placed(t, pos, c, h) && NoTombstones(t)
  {
    assert t0[..|t0|] == t0;
    forall k: nat
      ensures k in pos.Keys <==> k % 2 == 0 && k < 2 * |c|
    {
      assert k in pos.Keys <==> k in pos0.Keys;
    }
  }

  /** The sizes `resize(capacity)` works with, for `size <= capacity`: the new table has room for
      every pair, and when it is longer than the old one, at least twice as long, it has room for
      as many more rows as the old table has. */
  lemma {:induction false} ResizeRoom(size: nat, entriesLength: nat, oldLog: nat, capacity: nat, log: nat)
    requires 2 * size <= entriesLength < 2 * Pow2(oldLog) && size <= capacity <= MAX_CAPACITY
    requires log == TableLog(capacity)
    ensures log <= 30 && IsMask(Pow2(log) - 1, log) && size < Pow2(log)
    ensures oldLog < log ==> size + Pow2(oldLog) < Pow2(log)
  {
    MaskOf(log);
    if oldLog < log {
      Pow2Monotone(oldLog + 1, log);
      assert Pow2(oldLog + 1) == 2 * Pow2(oldLog);
    }
  }

  /** A table of `2^log` rows, for `log <= 30`, has the mask `2^log - 1`. */
  lemma {:induction false} MaskOf(log: nat)
    requires log <= 30
    ensures IsMask(Pow2(log) - 1, log)
  {
    Pow2Monotone(log, 30);
    Pow2Values();
  }
}
