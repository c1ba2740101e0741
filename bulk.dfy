/** The scans the bulk operations of `LinearMap` make over a table: `split` copies the live rows of
    a range, `combine` (behind `difference` and `intersection`) copies the live rows whose key
    another map does or does not hold, and `merge` puts the live rows of the smaller map into a
    copy of the larger. Each scan visits the rows in table order, so what it collects is the
    `Selected` sequence of `Layout`; these lemmas say what that sequence holds. */
module Bulk {
  import opened Bits
  import opened Rows
  import opened Probing
  import opened RobinHoodInvariant
  import opened Contents
  import opened Layout
  import opened Storage
  import opened Search

  /** Keeps every key: the scans of `split` and `merge`, which copy every live row. */
  function Every<K>(k: K): bool
  {
    true
  }

  /** The test `combine` makes of a key of this map: `m.tableIndex` of it is -1 (`absent`, the
      `i -> i == -1` of `difference`) or is not (the `i -> i != -1` of `intersection`). */
  function Kept<K, W>(mc: seq<(K, W)>, eq: (K, K) -> bool, absent: bool): K -> bool
  {
    k => (IndexOf(mc, k, eq) < 0) == absent
  }

  /** The live row at `i`, met by a scan of `t[lo..]`: it points at its pair's key and value
      slots, holds its key's scrambled hash, and the scan appends that pair exactly when it keeps
      the key, staying free of duplicate keys. */
  lemma {:induction false} ScanRow<K(!new), V>(t: seq<Row>, pos: map<nat, nat>, c: seq<(K, V)>, h: K -> Word, eq: (K, K) -> bool,
                            es: seq<Slot<K, V>>, lo: nat, i: nat, keep: K -> bool)
    requires Placed(t, pos, c, h) && Holds(es, c) && Equivalence(eq) && Unique(c, eq)
    requires lo <= i < |t| && Live(t[i])
    ensures Indexed(t, |c|)
    ensures var k := t[i].keyIndex;
      k / 2 < |c| && k + 1 < |es| && es[k] == Key(c[k / 2].0) && es[k + 1] == Value(c[k / 2].1) &&
      t[i].hash == KeyHash(h(c[k / 2].0)) &&
      Selected(t, c, lo, i + 1, keep) ==
        (if keep(c[k / 2].0) then Selected(t, c, lo, i, keep) + [c[k / 2]] else Selected(t, c, lo, i, keep)) &&
      Unique(Selected(t, c, lo, i + 1, keep), eq)
  {
    PairOfRow(t, pos, c, es, i);
    LocatedIndexed(t, pos, |c|);
    var k := t[i].keyIndex;
    assert k in pos;
    var e := eq;
    SelectedLookup(t, pos, c, lo, i + 1, keep, e, c[k / 2].0);
  }

  /** A row that is not live adds nothing to a scan. */
  lemma {:induction false} ScanSkip<K, V>(t: seq<Row>, c: seq<(K, V)>, lo: nat, i: nat, keep: K -> bool)
    requires Indexed(t, |c|) && lo <= i < |t| && !Live(t[i])
    ensures Selected(t, c, lo, i + 1, keep) == Selected(t, c, lo, i, keep)
  {
  }

  /** A longer scan collects at least as many pairs. */
  lemma {:induction false} SelectedGrows<K, V>(t: seq<Row>, c: seq<(K, V)>, lo: nat, i: nat, hi: nat,
                                               keep: K -> bool)
    requires lo <= i <= hi <= |t| && Indexed(t, |c|)
    ensures |Selected(t, c, lo, i, keep)| <= |Selected(t, c, lo, hi, keep)|
    decreases hi
  {
    if i < hi {
      SelectedGrows(t, c, lo, i, hi - 1, keep);
    }
  }

  /** A scan of `t[lo..hi]` collects at most one pair per row, and a scan from the first row at
      most one per pair. */
  lemma {:induction false} SelectedBound<K, V>(t: seq<Row>, c: seq<(K, V)>, lo: nat, hi: nat, keep: K -> bool)
    requires Indexed(t, |c|) && CountLive(t) == |c| && lo <= hi <= |t|
    ensures |Selected(t, c, lo, hi, keep)| <= hi - lo
    ensures lo == 0 ==> |Selected(t, c, lo, hi, keep)| <= |c|
  {
    SelectedLength(t, c, lo, hi, keep);
    SelectedGrows(t, c, lo, hi, |t|, keep);
    SelectedLength(t, c, 0, |t|, keep);
    assert t[0..|t|] == t;
  }

  /** Every pair a scan collects has a key it keeps. */
  lemma {:induction false} SelectedKept<K, V>(t: seq<Row>, c: seq<(K, V)>, lo: nat, hi: nat, keep: K -> bool)
    requires lo <= hi <= |t| && Indexed(t, |c|)
    ensures forall j :: 0 <= j < |Selected(t, c, lo, hi, keep)| ==> keep(Selected(t, c, lo, hi, keep)[j].0)
    decreases hi
  {
    if hi > lo {
      SelectedKept(t, c, lo, hi - 1, keep);
    }
  }

  /** `combine(m, result, ...)` over the whole table gives `result` the pairs of this map whose
      key `m` lacks (`absent`) or holds (otherwise), with this map's values, and no others. */
  lemma {:induction false} CombinedLookup<K(!new), V, W>(t: seq<Row>, pos: map<nat, nat>, c: seq<(K, V)>, h: K -> Word,
                                      mc: seq<(K, W)>, eq: (K, K) -> bool, absent: bool, k: K)
    requires Placed(t, pos, c, h) && Equivalence(eq) && Unique(c, eq)
    ensures Indexed(t, |c|)
    ensures Unique(Selected(t, c, 0, |t|, Kept(mc, eq, absent)), eq)
    ensures Lookup(Selected(t, c, 0, |t|, Kept(mc, eq, absent)), k, eq) ==
              if (Lookup(mc, k, eq) == None) == absent then Lookup(c, k, eq) else None
  {
    var e := eq;
    SelectedLookup(t, pos, c, 0, |t|, Kept(mc, eq, absent), e, k);
    var j := IndexOf(c, k, eq);
    if j >= 0 {
      assert 2 * j in pos.Keys;
      IndexOfEq(mc, k, c[j].0, eq);
    }
  }

  /** A map's scan that keeps every key holds exactly the map's pairs, once each. */
  lemma {:induction false} ScanAll<K(!new), V>(t: seq<Row>, pos: map<nat, nat>, c: seq<(K, V)>, h: K -> Word, eq: (K, K) -> bool, k: K)
    requires Placed(t, pos, c, h) && Equivalence(eq) && Unique(c, eq)
    ensures Indexed(t, |c|)
    ensures Unique(Selected(t, c, 0, |t|, Every), eq)
    ensures Lookup(Selected(t, c, 0, |t|, Every), k, eq) == Lookup(c, k, eq)
  {
    var e := eq;
    SelectedLookup(t, pos, c, 0, |t|, Every, e, k);
    var j := IndexOf(c, k, eq);
    if j >= 0 {
      assert 2 * j in pos.Keys;
    }
  }

  /** `intersection` keeps keys that both maps hold, so at most as many pairs as the smaller map
      has: the capacity `min(size, m.size())` it gives its result is enough. */
  lemma {:induction false} IntersectionBound<K(!new), V, W>(t: seq<Row>, pos: map<nat, nat>, c: seq<(K, V)>, h: K -> Word,
                                         mc: seq<(K, W)>, eq: (K, K) -> bool)
    requires Placed(t, pos, c, h) && Equivalence(eq) && Unique(c, eq)
    ensures Indexed(t, |c|)
    ensures |Selected(t, c, 0, |t|, Kept(mc, eq, false))| <= |c|
    ensures |Selected(t, c, 0, |t|, Kept(mc, eq, false))| <= |mc|
  {
    var s := Selected(t, c, 0, |t|, Kept(mc, eq, false));
    LocatedIndexed(t, pos, |c|);
    SelectedBound(t, c, 0, |t|, Kept(mc, eq, false));
    SelectedKept(t, c, 0, |t|, Kept(mc, eq, false));
    if s == [] {
      return;
    }
    CombinedLookup(t, pos, c, h, mc, eq, false, s[0].0);
    forall j | 0 <= j < |s|
      ensures IndexOf(mc, s[j].0, eq) >= 0
    {
      assert Kept(mc, eq, false)(s[j].0);
    }
    FoundKeysBound(s, mc, eq);
  }

  /** Putting one more pair after the pairs of `s`. */
  lemma {:induction false} PutAllSnoc<K, V>(a: seq<(K, V)>, s: seq<(K, V)>, x: (K, V), merge: (V, V) -> V, eq: (K, K) -> bool)
    ensures PutAll(a, s + [x], merge, eq) == Put(PutAll(a, s, merge, eq), x.0, x.1, merge, eq)
  {
    assert (s + [x])[..|s|] == s;
  }

  /** Each put adds at most one pair. */
  lemma {:induction false} PutAllLength<K, V>(a: seq<(K, V)>, s: seq<(K, V)>, merge: (V, V) -> V, eq: (K, K) -> bool)
    ensures |PutAll(a, s, merge, eq)| <= |a| + |s|
    decreases |s|
  {
    if s != [] {
      PutAllLength(a, s[..|s| - 1], merge, eq);
    }
  }

  /** What `m.tableIndex(hash, key)` tells `combine` about a key of this map, probed with its
      scrambled hash: -1 exactly when `m` lacks the key. */
  lemma {:induction false} FoundIff<K(!new), W>(t: seq<Row>, pos: map<nat, nat>, c: seq<(K, W)>, h: K -> Word, eq: (K, K) -> bool,
                             key: K, hash: Word, r: int)
    requires Placed(t, pos, c, h) && KeyLaws(h, eq) && Unique(c, eq) && hash == KeyHash(h(key))
    requires r >= 0 ==> KeyAt(t, c, r, hash, key, eq)
    requires r < 0 ==> forall p :: 0 <= p < |t| ==> !KeyAt(t, c, p, hash, key, eq)
    ensures r < 0 <==> Lookup(c, key, eq) == None
  {
    if r >= 0 {
      OnlyMatch(t, pos, c, eq, key, hash, r);
    } else {
      NotFound(t, pos, c, h, eq, key);
    }
  }

  /** The capacities `difference` and `intersection` give their results are enough: room for
      `size` pairs, or for `m.size()` pairs when only the keys `m` holds are kept, holds every
      pair `combine` appends. */
  lemma {:induction false} CombineRoom<K(!new), V, W>(t: seq<Row>, pos: map<nat, nat>, c: seq<(K, V)>, h: K -> Word,
                                   mc: seq<(K, W)>, eq: (K, K) -> bool, absent: bool, room: nat)
    requires Placed(t, pos, c, h) && Equivalence(eq) && Unique(c, eq)
    requires |c| <= room || (!absent && |mc| <= room)
    ensures Indexed(t, |c|)
    ensures |Selected(t, c, 0, |t|, Kept(mc, eq, absent))| <= room
  {
    LocatedIndexed(t, pos, |c|);
    SelectedBound(t, c, 0, |t|, Kept(mc, eq, absent));
    if !absent {
      IntersectionBound(t, pos, c, h, mc, eq);
    }
  }

  /** Putting the pairs of every live row of a map's table, in table order, into the pairs `a`
      gives every key the merge of what `a` and the map hold for it. */
  lemma {:induction false} MergedLookup<K(!new), V>(t: seq<Row>, pos: map<nat, nat>, c: seq<(K, V)>, h: K -> Word,
                                 a: seq<(K, V)>, merge: (V, V) -> V, eq: (K, K) -> bool, k: K)
    requires Placed(t, pos, c, h) && Equivalence(eq) && Unique(c, eq) && Unique(a, eq)
    ensures Indexed(t, |c|)
    ensures Lookup(PutAll(a, Selected(t, c, 0, |t|, Every), merge, eq), k, eq) ==
              Merged(Lookup(a, k, eq), Lookup(c, k, eq), merge)
  {
    ScanAll(t, pos, c, h, eq, k);
    LookupPutAll(a, Selected(t, c, 0, |t|, Every), merge, eq, k);
  }

  /** The ranges `r` of table rows that `split` has made parts of: each in order and ending by
      `hi`, and together holding every live row of `t` before `hi`. */
  ghost predicate Covers(t: seq<Row>, r: seq<(nat, nat)>, hi: nat)
  {
    hi <= |t| &&
    (forall j :: 0 <= j < |r| ==> r[j].0 <= r[j].1 <= hi) &&
    (forall j, j' :: 0 <= j < j' < |r| ==> r[j].1 <= r[j'].0) &&
    (forall q {:trigger InSome(r, q)} :: 0 <= q < hi && Live(t[q]) ==> InSome(r, q))
  }

  /** Row `q` lies in one of the ranges `r`. */
  ghost predicate InSome(r: seq<(nat, nat)>, q: nat)
  {
    exists j :: 0 <= j < |r| && r[j].0 <= q < r[j].1
  }

  /** No range yet. */
  lemma {:induction false} CoversStart(t: seq<Row>)
    ensures Covers(t, [], 0)
  {
  }

  /** A range `[hi, finish)` that follows the others is added. */
  lemma {:induction false} CoversAdd(t: seq<Row>, r: seq<(nat, nat)>, hi: nat, finish: nat)
    requires Covers(t, r, hi) && hi <= finish <= |t|
    ensures Covers(t, r + [(hi, finish)], finish)
  {
    var r' := r + [(hi, finish)];
    forall q | 0 <= q < finish && Live(t[q])
      ensures InSome(r', q)
    {
      if q < hi {
        assert InSome(r, q);
        var j :| 0 <= j < |r| && r[j].0 <= q < r[j].1;
        assert r'[j] == r[j];
      } else {
        assert r'[|r|] == (hi, finish);
      }
    }
  }

  /** A range `[hi, finish)` whose scan collects nothing holds no live row, so it need not be a
      part. */
  lemma {:induction false} CoversSkip<K, V>(t: seq<Row>, c: seq<(K, V)>, r: seq<(nat, nat)>, hi: nat, finish: nat)
    requires Covers(t, r, hi) && hi <= finish <= |t| && Indexed(t, |c|)
    requires Selected(t, c, hi, finish, Every) == []
    ensures Covers(t, r, finish)
  {
    forall q | 0 <= q < finish && Live(t[q])
      ensures InSome(r, q)
    {
      if q < hi {
        assert InSome(r, q);
      } else {
        EmptyScanNoLive(t, c, hi, q, finish);
      }
    }
  }

  /** A scan that keeps every key and collects nothing passed no live row. */
  lemma {:induction false} EmptyScanNoLive<K, V>(t: seq<Row>, c: seq<(K, V)>, lo: nat, q: nat, hi: nat)
    requires lo <= q < hi <= |t| && Indexed(t, |c|) && Selected(t, c, lo, hi, Every) == []
    ensures !Live(t[q])
    decreases hi
  {
    if q < hi - 1 {
      EmptyScanNoLive(t, c, lo, q, hi - 1);
    }
  }

  /** Where the scan of a range finds a key: only when the key's row lies in the range, with this
      map's value. */
  lemma {:induction false} RangeLookup<K(!new), V>(t: seq<Row>, pos: map<nat, nat>, c: seq<(K, V)>, eq: (K, K) -> bool,
                                lo: nat, hi: nat, k: K)
    requires Located(t, pos) && PairIndices(pos.Keys, |c|) && Equivalence(eq) && Unique(c, eq)
    requires lo <= hi <= |t|
    ensures Indexed(t, |c|)
    ensures Lookup(Selected(t, c, lo, hi, Every), k, eq).Some? ==>
              Lookup(Selected(t, c, lo, hi, Every), k, eq) == Lookup(c, k, eq) &&
              lo <= pos[2 * IndexOf(c, k, eq)] < hi
  {
    var e := eq;
    SelectedLookup(t, pos, c, lo, hi, Every, e, k);
  }

  /** Each part `split` returns holds its keys with this map's values. */
  lemma {:induction false} PartsAgree<K(!new), V>(t: seq<Row>, pos: map<nat, nat>, c: seq<(K, V)>, h: K -> Word, eq: (K, K) -> bool,
                               r: seq<(nat, nat)>, parts: seq<seq<(K, V)>>, k: K)
    requires Placed(t, pos, c, h) && Equivalence(eq) && Unique(c, eq) && Covers(t, r, |t|)
    requires |parts| == |r| && Indexed(t, |c|)
    requires forall j :: 0 <= j < |r| ==> parts[j] == Selected(t, c, r[j].0, r[j].1, Every)
    ensures forall j :: 0 <= j < |r| && Lookup(parts[j], k, eq).Some? ==> Lookup(parts[j], k, eq) == Lookup(c, k, eq)
  {
    forall j | 0 <= j < |r| && Lookup(parts[j], k, eq).Some?
      ensures Lookup(parts[j], k, eq) == Lookup(c, k, eq)
    {
      RangeLookup(t, pos, c, eq, r[j].0, r[j].1, k);
    }
  }

  /** No key is in two of the parts `split` returns, as their ranges do not overlap. */
  lemma {:induction false} PartsDisjoint<K(!new), V>(t: seq<Row>, pos: map<nat, nat>, c: seq<(K, V)>, h: K -> Word, eq: (K, K) -> bool,
                                  r: seq<(nat, nat)>, parts: seq<seq<(K, V)>>, k: K)
    requires Placed(t, pos, c, h) && Equivalence(eq) && Unique(c, eq) && Covers(t, r, |t|)
    requires |parts| == |r| && Indexed(t, |c|)
    requires forall j :: 0 <= j < |r| ==> parts[j] == Selected(t, c, r[j].0, r[j].1, Every)
    ensures forall j, j' :: 0 <= j < j' < |r| ==> Lookup(parts[j], k, eq).None? || Lookup(parts[j'], k, eq).None?
  {
    forall j, j' | 0 <= j < j' < |r|
      ensures Lookup(parts[j], k, eq).None? || Lookup(parts[j'], k, eq).None?
    {
      RangeLookup(t, pos, c, eq, r[j].0, r[j].1, k);
      RangeLookup(t, pos, c, eq, r[j'].0, r[j'].1, k);
    }
  }

  /** Every key of the map is in some part `split` returns, as the ranges hold every live row. */
  lemma {:induction false} PartsCover<K(!new), V>(t: seq<Row>, pos: map<nat, nat>, c: seq<(K, V)>, h: K -> Word, eq: (K, K) -> bool,
                               r: seq<(nat, nat)>, parts: seq<seq<(K, V)>>, k: K)
    requires Placed(t, pos, c, h) && Equivalence(eq) && Unique(c, eq) && Covers(t, r, |t|)
    requires |parts| == |r| && Indexed(t, |c|)
    requires forall j :: 0 <= j < |r| ==> parts[j] == Selected(t, c, r[j].0, r[j].1, Every)
    ensures Lookup(c, k, eq).Some? ==> exists j :: 0 <= j < |r| && Lookup(parts[j], k, eq).Some?
  {
    var i := IndexOf(c, k, eq);
    if i >= 0 {
      assert 2 * i in pos.Keys;
      var q := pos[2 * i];
      assert Live(t[q]) && InSome(r, q);
      var j :| 0 <= j < |r| && r[j].0 <= q < r[j].1;
      var e := eq;
      SelectedLookup(t, pos, c, r[j].0, r[j].1, Every, e, k);
      assert Lookup(parts[j], k, eq).Some?;
    }
  }

  /** The ranges of `split(parts)`: with `partSize = length / parts`, part `p` starts at
      `p * partSize`, and all but the last are `partSize` rows long, inside the table. */
  lemma {:induction false} PartRange(length: nat, parts: nat, p: nat, q: int)
    requires 0 < parts && p < parts && q == length / parts
    ensures 0 <= p * q && p * q + q <= length && (p + 1) * q == p * q + q
  {
    if q > 0 {
      MulMonotone(q, p + 1, parts);
    }
  }

  /** Every part of `split(parts)` with `2 <= parts` below the table length fits the source's
      constructor, on a table of even length up to `2 * MAX_CAPACITY`: the parts before the last
      are at most half the table, and so is the last, which also takes the `length % parts` rows
      left over. */
  lemma {:induction false} PartFits(length: nat, parts: nat, p: nat, q: int)
    requires 2 <= parts < length <= 2 * MAX_CAPACITY && length % 2 == 0 && p < parts && q == length / parts
    ensures 2 * (if p == parts - 1 then length - p * q else q) <= length
  {
    var r := length % parts;
    assert length == parts * q + r && 0 <= r < parts;
    assert q >= 1;
    HalfParts(length, parts, q, r);
    if p == parts - 1 {
      assert p * q == parts * q - q;
    }
  }

  /** The ranges of `split(parts)` on a table of `2^log` rows, `log <= 30`, with `2 <= parts`
      below the table length: part `p` lies inside the table and is at most `MAX_CAPACITY` rows
      long. */
  lemma {:induction false} PartWithin(length: nat, log: nat, parts: nat, p: nat, q: int)
    requires length == Pow2(log) && log <= 30 && 2 <= parts < length && p < parts && q == length / parts
    ensures 0 <= p * q && p * q + q <= length && (p + 1) * q == p * q + q
    ensures (if p == parts - 1 then length - p * q else q) <= MAX_CAPACITY
  {
    PartRange(length, parts, p, q);
    assert Pow2(log) == 2 * Pow2(log - 1);
    Pow2Monotone(log, 30);
    Pow2Values();
    PartFits(length, parts, p, q);
  }

  /** With an even `length == parts * q + r`, both `q` and `q + r` are at most half of it. */
  lemma {:induction false} HalfParts(length: nat, parts: nat, q: nat, r: nat)
    requires 2 <= parts && r < parts && 1 <= q && length == parts * q + r && length % 2 == 0
    ensures 2 * q <= length && 2 * (q + r) <= length
  {
    MulMonotone(q, 2, parts);
    if parts > 2 && q > 1 {
      MulMonotone(parts - 2, 2, q);
      assert parts * q == 2 * q + (parts - 2) * q;
    } else if parts > 2 {
      assert length == parts + r && r != parts - 1;
    } else {
      assert r == 0;
    }
  }

  /** Every live row of `t` before `i` points at a pair of `c` whose key is a key of `d`. */
  ghost predicate KeysFoundBefore<K, V, W>(t: seq<Row>, c: seq<(K, V)>, d: seq<(K, W)>, eq: (K, K) -> bool, i: nat)
  {
    forall j :: 0 <= j < i && j < |t| && Live(t[j]) && t[j].keyIndex / 2 < |c| ==>
      Lookup(d, c[t[j].keyIndex / 2].0, eq).Some?
  }

  /** One more row whose pair's key is a key of `d`, or which is not live. */
  lemma {:induction false} KeysFoundStep<K, V, W>(t: seq<Row>, c: seq<(K, V)>, d: seq<(K, W)>, eq: (K, K) -> bool, i: nat)
    requires KeysFoundBefore(t, c, d, eq, i) && i < |t|
    requires Live(t[i]) && t[i].keyIndex / 2 < |c| ==> Lookup(d, c[t[i].keyIndex / 2].0, eq).Some?
    ensures KeysFoundBefore(t, c, d, eq, i + 1)
  {
  }

  /** When every live row of a table that places `c` points at a pair whose key is a key of `d`,
      every key of `c` is a key of `d`. */
  lemma {:induction false} EveryPairFound<K, V, W>(t: seq<Row>, pos: map<nat, nat>, c: seq<(K, V)>, h: K -> Word,
                            d: seq<(K, W)>, eq: (K, K) -> bool)
    requires Placed(t, pos, c, h) && KeysFoundBefore(t, c, d, eq, |t|)
    ensures forall i :: 0 <= i < |c| ==> Lookup(d, c[i].0, eq).Some?
  {
    forall i | 0 <= i < |c|
      ensures Lookup(d, c[i].0, eq).Some?
    {
      assert (2 * i) % 2 == 0 && 2 * i in pos;
      assert t[pos[2 * i]].keyIndex / 2 == i;
    }
  }

  /** `split`, `difference` and `intersection` as written build their result with
      `new LinearMap<>(n)`, whose hash function `dh` is `Objects::hashCode`, and fill it with
      rows that hold the hashes of this map's `h`. When the two hash one of the pairs' keys
      differently, no layout of those rows places the pairs under `dh`, so the result's own
      lookups do not find its rows. */
  lemma {:induction false} DefaultHashBreaks<K, V>(t: seq<Row>, pos: map<nat, nat>, c: seq<(K, V)>, h: K -> Word,
                            dh: K -> Word, i: nat, pos': map<nat, nat>)
    requires Placed(t, pos, c, h) && i < |c| && KeyHash(h(c[i].0)) != KeyHash(dh(c[i].0))
    ensures !Placed(t, pos', c, dh)
  {
    if Located(t, pos') && PairIndices(pos'.Keys, |c|) {
      var k := 2 * i;
      assert k % 2 == 0 && k in pos && k in pos';
      assert pos'[k] == pos[k] && k / 2 == i;
      assert t[pos'[k]].hash != KeyHash(dh(c[k / 2].0));
    }
  }

  /** The table of `difference` as written for a map whose `hashFn` gives 1 for its one key: eight
      rows, the pair's row at 1. */
  function MissTable(): seq<Row>
  {
    [EMPTY, Row(1, 0, false), EMPTY, EMPTY, EMPTY, EMPTY, EMPTY, EMPTY]
  }

  /** The miss `DefaultHashBreaks` leads to, for a key `k` that this map's `h` hashes to 1 and the
      default `dh` to 97 (`"a".hashCode()`): `MissTable` places the pair under `h`, but under
      `dh` the key's home is row 7, which is empty, so `tableIndex` stops there at once and
      returns -1. */
  lemma {:induction false} DefaultHashMisses<K, V>(k: K, v: V, h: K -> Word, dh: K -> Word)
    requires h(k) == 1 && dh(k) == 97
    ensures Placed(MissTable(), map[0 := 1], [(k, v)], h)
    ensures KeyHash(dh(k)) == 103 && Rem(103, 8) == 7 && !Occupied(MissTable()[7])
  {
    var t := MissTable();
    assert Xor(1, 0) == 1 && Xor(0, 0) == 0;
    assert Xor(97, 0) == 97 && Xor(0, 6) == 6;
    assert Xor(97, 6) == 2 * Xor(48, 3) + 1 == 103 by {
      assert Xor(48, 3) == 2 * Xor(24, 1) + 1 && Xor(24, 1) == 2 * Xor(12, 0) + 1 == 25;
    }
    RemIsMod(103, 8);
    RemIsMod(1, 8);
    assert t[..8] == t;
    assert t[..1][..0] == t[..0] && CountLive(t[..1]) == 0;
    assert t[..2][..1] == t[..1] && CountLive(t[..2]) == 1;
    assert t[..3][..2] == t[..2] && CountLive(t[..3]) == 1;
    assert t[..4][..3] == t[..3] && CountLive(t[..4]) == 1;
    assert t[..5][..4] == t[..4] && CountLive(t[..5]) == 1;
    assert t[..6][..5] == t[..5] && CountLive(t[..6]) == 1;
    assert t[..7][..6] == t[..6] && CountLive(t[..7]) == 1;
    assert t[..8][..7] == t[..7] && CountLive(t[..8]) == 1;
  }

  /** What `isSubset(m)` asks of row `i` of `m`: when it is live, probing `m` for its key with its
      hash finds some row. */
  ghost predicate RowFound<K, W>(t: seq<Row>, c: seq<(K, W)>, eq: (K, K) -> bool, i: nat)
  {
    i < |t| && Live(t[i]) && t[i].keyIndex / 2 < |c| ==>
      exists p :: KeyAt(t, c, p, t[i].hash, c[t[i].keyIndex / 2].0, eq)
  }

  /** Every live row of a map is found by probing the map itself for its key: so
      `isSubset(m)`, which probes `m` rather than this map, always returns true. */
  lemma {:induction false} OwnRowsFound<K(!new), W>(t: seq<Row>, c: seq<(K, W)>, eq: (K, K) -> bool)
    requires Equivalence(eq)
    ensures forall i :: 0 <= i < |t| ==> RowFound(t, c, eq, i)
  {
    forall i | 0 <= i < |t| && Live(t[i]) && t[i].keyIndex / 2 < |c|
      ensures KeyAt(t, c, i, t[i].hash, c[t[i].keyIndex / 2].0, eq)
    {
    }
  }
}
