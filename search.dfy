/** What `tableIndex` looks for and why its probe walk may stop where it does. `KeyAt` is the
    test the walk applies to each row; `Probed` is what the walk knows after a number of steps;
    `ProbeStop` is the Robin Hood argument that nothing matches beyond the stop; and the last two
    lemmas say that in a map whose invariant holds, the rows that match a key are exactly the row
    of the pair holding that key. */
module Search {
  import opened Bits
  import opened Rows
  import opened Probing
  import opened RobinHoodInvariant
  import opened Contents
  import opened Layout
  import opened Storage

  /** The live row at `p` holds `hash` and points at a pair of `c` whose key `eq` says `key`
      equals. */
  ghost predicate KeyAt<K, V>(t: seq<Row>, c: seq<(K, V)>, p: nat, hash: Word, key: K, eq: (K, K) -> bool)
  {
    p < |t| && Live(t[p]) && t[p].hash == hash && t[p].keyIndex / 2 < |c| &&
    eq(key, c[t[p].keyIndex / 2].0)
  }

  /** A probe from row `e` has passed `dist` rows, none of them closer to its home than the probe
      is to `e`, and none of them a match. */
  ghost predicate Probed<K, V>(t: seq<Row>, c: seq<(K, V)>, e: nat, dist: nat, hash: Word, key: K,
                               eq: (K, K) -> bool)
  {
    e < |t| && dist <= |t| && Walked(t, e, dist) &&
    forall j :: 0 <= j < dist ==> !KeyAt(t, c, Pos(e, j, |t|), hash, key, eq)
  }

  /** Passing the row at `q`, `dist` rows from `e`, which is neither a match nor a reason to
      stop. */
  lemma {:induction false} ProbeStep<K, V>(t: seq<Row>, c: seq<(K, V)>, e: nat, dist: nat, q: nat, hash: Word, key: K,
                        eq: (K, K) -> bool)
    requires Probed(t, c, e, dist, hash, key, eq) && dist < |t| && q == Pos(e, dist, |t|)
    requires Occupied(t[q]) && D(t, q) >= dist && !KeyAt(t, c, q, hash, key, eq)
    ensures Probed(t, c, e, dist + 1, hash, key, eq)
  {
  }

  /** A probe from the home row of `hash` that reaches, at `q`, an empty row or a row closer to
      its home than the probe is to `e` has passed every row that could match. */
  lemma {:induction false} ProbeStop<K, V>(t: seq<Row>, c: seq<(K, V)>, e: nat, dist: nat, q: nat, hash: Word, key: K,
                        eq: (K, K) -> bool)
    requires RobinHood(t) && Probed(t, c, e, dist, hash, key, eq) && e == Rem(hash, |t|)
    requires q == Pos(e, dist, |t|) && (t[q].hash == NONE || dist > D(t, q))
    ensures forall p :: 0 <= p < |t| ==> !KeyAt(t, c, p, hash, key, eq)
  {
    assert StopsAt(t, e, dist);
    forall p | 0 <= p < |t|
      ensures !KeyAt(t, c, p, hash, key, eq)
    {
      if Live(t[p]) && t[p].hash == hash {
        HomeRowsVisited(t, e, dist, p);
      }
    }
  }

  /** A row that matches `key` is the row of the pair whose key equals `key`. */
  lemma {:induction false} OnlyMatch<K(!new), V>(t: seq<Row>, pos: map<nat, nat>, c: seq<(K, V)>, eq: (K, K) -> bool,
                              key: K, hash: Word, p: nat)
    requires Located(t, pos) && PairIndices(pos.Keys, |c|) && Equivalence(eq) && Unique(c, eq)
    requires KeyAt(t, c, p, hash, key, eq)
    ensures var j := IndexOf(c, key, eq); j >= 0 && 2 * j in pos && pos[2 * j] == p && t[p].keyIndex / 2 == j
  {
    var k := t[p].keyIndex;
    assert k in pos.Keys;
    assert 2 * (k / 2) == k;
    IndexOfUnique(c, k / 2, key, eq);
  }

  /** The row of the pair whose key equals `key` matches `key` and its hash. */
  lemma {:induction false} PairMatches<K(!new), V>(t: seq<Row>, pos: map<nat, nat>, c: seq<(K, V)>, h: K -> Word,
                                eq: (K, K) -> bool, key: K)
    requires Located(t, pos) && PairIndices(pos.Keys, |c|) && HashesAre(t, pos, c, h) && KeyLaws(h, eq)
    requires IndexOf(c, key, eq) >= 0
    ensures var j := IndexOf(c, key, eq);
      2 * j in pos && KeyAt(t, c, pos[2 * j], KeyHash(h(key)), key, eq)
  {
    var j := IndexOf(c, key, eq);
    assert 2 * j in pos.Keys;
    assert (2 * j) / 2 == j;
    assert h(key) == h(c[j].0);
  }

  /** A probe that found the row at `p`: the pair the row points at holds the value a lookup of
      `key` finds, in the slot after the key slot `k`. */
  lemma {:induction false} FoundValue<K(!new), V>(t: seq<Row>, pos: map<nat, nat>, c: seq<(K, V)>, entries: array<Slot<K, V>>,
                               eq: (K, K) -> bool, key: K, hash: Word, p: nat, k: nat)
    requires Located(t, pos) && PairIndices(pos.Keys, |c|) && Equivalence(eq) && Unique(c, eq)
    requires Points(t, entries[..], c) && KeyAt(t, c, p, hash, key, eq) && k == t[p].keyIndex
    ensures k + 1 < entries.Length && entries[k + 1].Value? && Lookup(c, key, eq) == Some(entries[k + 1].value)
  {
    OnlyMatch(t, pos, c, eq, key, hash, p);
    assert entries[..][k + 1] == entries[k + 1];
  }

  /** A probe for the scrambled hash of `key` that found no matching row: no pair holds `key`. */
  lemma {:induction false} NotFound<K(!new), V>(t: seq<Row>, pos: map<nat, nat>, c: seq<(K, V)>, h: K -> Word,
                             eq: (K, K) -> bool, key: K)
    requires Located(t, pos) && PairIndices(pos.Keys, |c|) && HashesAre(t, pos, c, h) && KeyLaws(h, eq)
    requires forall p :: 0 <= p < |t| ==> !KeyAt(t, c, p, KeyHash(h(key)), key, eq)
    ensures Lookup(c, key, eq) == None
  {
    if IndexOf(c, key, eq) >= 0 {
      PairMatches(t, pos, c, h, eq, key);
    }
  }
}
