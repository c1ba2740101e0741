/** How the two arrays of a map refer to each other. `pos` maps the key index of every entry pair
    (0, 2, 4, ...) to the table position of its row; `Located` says that this is a bijection
    between the pairs and the live rows. `Selected` is what a scan of the table over a range
    appends to a fresh map (`split`, `combine`), and its lemmas say what a lookup then finds. */
module Layout {
  import opened Bits
  import opened Rows
  import opened Probing
  import opened RobinHoodInvariant
  import opened Contents

  /** Each pair in `pos` sits in a live row that points back to it, and each live row is the row
      of a pair in `pos`. */
  predicate Located(t: seq<Row>, pos: map<nat, nat>)
  {
    (forall k :: k in pos ==> pos[k] < |t| && Live(t[pos[k]]) && t[pos[k]].keyIndex == k) &&
    (forall p :: 0 <= p < |t| && Live(t[p]) ==> t[p].keyIndex in pos && pos[t[p].keyIndex] == p)
  }

  /** The key indices of the first `size` pairs, 0, 2, ..., 2 * size - 2. */
  ghost predicate PairIndices(keys: set<nat>, size: nat)
  {
    forall k: nat :: k in keys <==> k % 2 == 0 && k < 2 * size
  }

  /** Halving keeps the order of even key indices. */
  lemma {:induction false} EvenHalves(a: nat, b: nat)
    requires a % 2 == 0 && b % 2 == 0
    ensures (a == b <==> a / 2 == b / 2) && (a < b <==> a / 2 < b / 2)
  {
  }

  /** The key index of the last of `size` pairs is one of them. */
  lemma {:induction false} LastPairIndex(keys: set<nat>, size: nat)
    requires PairIndices(keys, size) && size > 0
    ensures 2 * (size - 1) in keys
  {
    assert (2 * (size - 1)) % 2 == 0;
  }

  /** Every live row points at one of the first `size` pairs. */
  predicate Indexed(t: seq<Row>, size: nat)
  {
    forall p :: 0 <= p < |t| && Live(t[p]) ==> t[p].keyIndex % 2 == 0 && t[p].keyIndex < 2 * size
  }

  /** The row of every pair in `pos` holds the scrambled hash, under the hash function `h`, of
      the pair's key in `c`. */
  predicate HashesAre<K, V>(t: seq<Row>, pos: map<nat, nat>, c: seq<(K, V)>, h: K -> Word)
  {
    forall k :: k in pos ==> pos[k] < |t| && k / 2 < |c| && t[pos[k]].hash == KeyHash(h(c[k / 2].0))
  }

  /** The row `r` holds the scrambled hash of the pair it points at. */
  predicate HashOf<K, V>(r: Row, c: seq<(K, V)>, h: K -> Word)
  {
    r.keyIndex / 2 < |c| && KeyHash(h(c[r.keyIndex / 2].0)) == r.hash
  }

  lemma {:induction false} LocatedIndexed(t: seq<Row>, pos: map<nat, nat>, size: nat)
    requires Located(t, pos) && PairIndices(pos.Keys, size)
    ensures Indexed(t, size)
  {
  }

  /** Writing a live row over a row that is not live adds its pair. */
  lemma {:induction false} WriteNew<K, V>(t: seq<Row>, pos: map<nat, nat>, c: seq<(K, V)>, h: K -> Word, q: nat, r: Row)
    requires Located(t, pos) && HashesAre(t, pos, c, h)
    requires q < |t| && !Live(t[q]) && Live(r) && r.keyIndex !in pos
    requires HashOf(r, c, h)
    ensures Located(t[q := r], pos[r.keyIndex := q]) && HashesAre(t[q := r], pos[r.keyIndex := q], c, h)
  {
  }

  /** The positions of `pos` once the pair `gone` has left row `q` and the pair `k` has taken it. */
  function Moved(pos: map<nat, nat>, gone: nat, k: nat, q: nat): (pos': map<nat, nat>)
    ensures k in pos' && pos'[k] == q && gone != k ==> gone !in pos'
  {
    (pos - {gone})[k := q]
  }

  /** Writing a live row over a live row exchanges their pairs. */
  lemma {:induction false} WriteDisplace<K, V>(t: seq<Row>, pos: map<nat, nat>, c: seq<(K, V)>, h: K -> Word, q: nat, r: Row)
    requires Located(t, pos) && HashesAre(t, pos, c, h)
    requires q < |t| && Live(t[q]) && Live(r) && r.keyIndex !in pos
    requires HashOf(r, c, h)
    ensures t[q].keyIndex in pos && t[q].keyIndex != r.keyIndex
    ensures var pos' := Moved(pos, t[q].keyIndex, r.keyIndex, q);
      Located(t[q := r], pos') && HashesAre(t[q := r], pos', c, h)
  {
  }

  /** Writing the live row `r` of a new pair into a row that is not live, where the Robin Hood
      order lets it stand: the invariant, the location of every pair and their hashes are kept,
      and one more row is live. */
  lemma {:induction false} PlaceAt<K, V>(t: seq<Row>, pos: map<nat, nat>, c: seq<(K, V)>, h: K -> Word, q: nat, r: Row)
    requires RobinHood(t) && Located(t, pos) && HashesAre(t, pos, c, h)
    requires q < |t| && !Live(t[q]) && Live(r) && r.keyIndex !in pos
    requires HashOf(r, c, h)
    requires Supports(t, q, Dist(r.hash, q, |t|)) && Walked(t, Rem(r.hash, |t|), Dist(r.hash, q, |t|))
    ensures var t' := t[q := r]; var pos' := pos[r.keyIndex := q];
      RobinHood(t') && Located(t', pos') && HashesAre(t', pos', c, h) &&
      CountLive(t') == CountLive(t) + 1 && (NoTombstones(t) ==> NoTombstones(t'))
  {
    WriteKeepsRobinHood(t, q, r);
    WriteNew(t, pos, c, h, q, r);
    CountLiveUpdate(t, q, r);
  }

  /** Writing the live row `r` over a live row that is closer to its home: the invariant holds
      with the displaced row's pair taken out, and the displaced row may continue its walk from
      its own home up to its old position. */
  lemma {:induction false} DisplaceAt<K, V>(t: seq<Row>, pos: map<nat, nat>, c: seq<(K, V)>, h: K -> Word, q: nat, r: Row)
    requires RobinHood(t) && Located(t, pos) && HashesAre(t, pos, c, h)
    requires q < |t| && Live(t[q]) && Live(r) && r.keyIndex !in pos
    requires HashOf(r, c, h)
    requires D(t, q) < Dist(r.hash, q, |t|) && Walked(t, Rem(r.hash, |t|), Dist(r.hash, q, |t|))
    ensures t[q].keyIndex in pos && t[q].keyIndex != r.keyIndex
    ensures var t' := t[q := r]; var pos' := Moved(pos, t[q].keyIndex, r.keyIndex, q);
      RobinHood(t') && Located(t', pos') && HashesAre(t', pos', c, h) &&
      CountLive(t') == CountLive(t) && (NoTombstones(t) ==> NoTombstones(t')) &&
      Walked(t', Home(t, q), D(t, q) + 1)
  {
    var n := |t|;
    var t' := t[q := r];
    BetterSupports(t, q, Dist(r.hash, q, n));
    WriteKeepsRobinHood(t, q, r);
    WriteDisplace(t, pos, c, h, q, r);
    CountLiveUpdate(t, q, r);
    DisplacedWalk(t, q, r);
  }

  /** The walk from the home of the live row at `q` up to and including `q` is still walked once
      a row farther from its home has been written at `q`. */
  lemma {:induction false} DisplacedWalk(t: seq<Row>, q: nat, r: Row)
    requires RobinHood(t) && q < |t| && Live(t[q]) && Live(r) && D(t, q) < Dist(r.hash, q, |t|)
    ensures Walked(t[q := r], Home(t, q), D(t, q) + 1)
  {
    var n, t', e := |t|, t[q := r], Home(t, q);
    assert Reachable(t, q);
    forall j | 0 <= j < D(t, q) + 1
      ensures Occupied(t'[Pos(e, j, n)]) && D(t', Pos(e, j, n)) >= j
    {
      PosOff(e, j, n);
      PosOff(e, D(t, q), n);
    }
  }

  /** The pairs of the live rows in `t[lo..hi]` whose key satisfies `keep`, in table order. */
  function Selected<K, V>(t: seq<Row>, c: seq<(K, V)>, lo: nat, hi: nat, keep: K -> bool): seq<(K, V)>
    requires lo <= hi <= |t| && Indexed(t, |c|)
    decreases hi
  {
    if hi == lo then []
    else
      var s := Selected(t, c, lo, hi - 1, keep);
      var r := t[hi - 1];
      if Live(r) && keep(c[r.keyIndex / 2].0) then s + [c[r.keyIndex / 2]] else s
  }

  /** A scan appends at most one pair per live row. */
  lemma {:induction false} SelectedLength<K, V>(t: seq<Row>, c: seq<(K, V)>, lo: nat, hi: nat, keep: K -> bool)
    requires lo <= hi <= |t| && Indexed(t, |c|)
    ensures |Selected(t, c, lo, hi, keep)| <= CountLive(t[lo..hi])
    decreases hi
  {
    if hi > lo {
      SelectedLength(t, c, lo, hi - 1, keep);
      assert t[lo..hi][..hi - 1 - lo] == t[lo..hi - 1];
    }
  }

  /** What a scan selected: a key is found exactly when its pair's row lies in the range and the
      pair is kept, and the selection has no duplicate keys. */
  lemma {:induction false} SelectedLookup<K(!new), V>(t: seq<Row>, pos: map<nat, nat>, c: seq<(K, V)>,
                                                    lo: nat, hi: nat, keep: K -> bool, eq: (K, K) -> bool, k: K)
    requires Located(t, pos) && PairIndices(pos.Keys, |c|) && Equivalence(eq) && Unique(c, eq)
    requires lo <= hi <= |t|
    ensures Indexed(t, |c|)
    ensures Unique(Selected(t, c, lo, hi, keep), eq)
    ensures Lookup(Selected(t, c, lo, hi, keep), k, eq)
         == var j := IndexOf(c, k, eq);
            if j >= 0 && lo <= pos[2 * j] < hi && keep(c[j].0) then Some(c[j].1) else None
    decreases hi
  {
    LocatedIndexed(t, pos, |c|);
    if hi > lo {
      var s := Selected(t, c, lo, hi - 1, keep);
      var r := t[hi - 1];
      SelectedLookup(t, pos, c, lo, hi - 1, keep, eq, k);
      if Live(r) && keep(c[r.keyIndex / 2].0) {
        var j' := r.keyIndex / 2;
        var x := c[j'];
        assert pos[2 * j'] == hi - 1;
        IndexOfSnoc(s, x, k, eq);
        var j := IndexOf(c, k, eq);
        if eq(k, x.0) {
          IndexOfUnique(c, j', k, eq);
        } else {
          assert j >= 0 ==> pos[2 * j] != hi - 1;
        }
        SelectedLookup(t, pos, c, lo, hi - 1, keep, eq, x.0);
        IndexOfUnique(c, j', x.0, eq);
        assert Lookup(s, x.0, eq).None?;
        forall a, b | 0 <= a < |s| + 1 && 0 <= b < |s| + 1 && a != b
          ensures !eq((s + [x])[a].0, (s + [x])[b].0)
        {
          if a == |s| {
            assert !eq(x.0, s[b].0);
          } else if b == |s| {
            assert !eq(x.0, s[a].0);
          } else {
            assert (s + [x])[a] == s[a] && (s + [x])[b] == s[b];
          }
        }
      } else {
        var j := IndexOf(c, k, eq);
        assert j >= 0 && pos[2 * j] == hi - 1 ==> Live(r) && r.keyIndex / 2 == j;
      }
    }
  }
}
