/** How the two arrays of a map hold its pairs. `entries` holds key `i` at slot `2 * i` and its
    value at slot `2 * i + 1`, for the first `size` pairs, and `null` after them; `table` holds
    one packed row per slot of the hash table. The predicates here relate the arrays' contents to
    the abstract value of the map (its pairs and its decoded rows), and `Placed` is the whole
    invariant of the decoded table. */
module Storage {
  import opened Bits
  import opened Rows
  import opened Probing
  import opened RobinHoodInvariant
  import opened Contents
  import opened Layout

  /** An element of the `Object[] entries` array: `null`, a key or a value. */
  datatype Slot<K, V> = Null | Key(key: K) | Value(value: V)

  /** Slot `i` of the entries of a map holding the pairs `c`. */
  function SlotAt<K, V>(c: seq<(K, V)>, i: nat): Slot<K, V>
  {
    if i < 2 * |c| then (if i % 2 == 0 then Key(c[i / 2].0) else Value(c[i / 2].1)) else Null
  }

  /** `es` holds the pairs of `c`, each key followed by its value, and `null` after them. */
  ghost predicate Holds<K, V>(es: seq<Slot<K, V>>, c: seq<(K, V)>)
  {
    2 * |c| <= |es| && forall i :: 0 <= i < |es| ==> es[i] == SlotAt(c, i)
  }

  /** `t` is the decoding of the packed rows `ts`. */
  predicate Decodes(ts: seq<Long>, t: seq<Row>)
  {
    |ts| == |t| && forall p {:trigger ts[p]} :: 0 <= p < |ts| ==> Decode(ts[p]) == t[p]
  }

  /** The fields of the packed row at `p`, as `Row` reads them, are those of the decoded row. */
  lemma {:induction false} RowAt(ts: seq<Long>, t: seq<Row>, p: nat, row: Long)
    requires Decodes(ts, t) && p < |ts| && row == ts[p]
    ensures Hash(row) == t[p].hash && KeyIndex(row) == t[p].keyIndex && Tombstone(row) == t[p].tombstone
  {
    assert Decode(ts[p]) == t[p];
  }

  /** The decoded table `t` is in Robin Hood order and holds one live row for each pair of `c`,
      at the position `pos` gives its key index, with the scrambled hash (under `h`) of its key. */
  ghost predicate Placed<K, V>(t: seq<Row>, pos: map<nat, nat>, c: seq<(K, V)>, h: K -> Word)
  {
    RobinHood(t) && Located(t, pos) && PairIndices(pos.Keys, |c|) && HashesAre(t, pos, c, h) &&
    CountLive(t) == |c|
  }

  /** The live row at `p` points at a key slot followed by the value slot of the same pair. */
  lemma {:induction false} PairOfRow<K, V>(t: seq<Row>, pos: map<nat, nat>, c: seq<(K, V)>, es: seq<Slot<K, V>>, p: nat)
    requires Located(t, pos) && PairIndices(pos.Keys, |c|) && Holds(es, c)
    requires p < |t| && Live(t[p])
    ensures var k := t[p].keyIndex;
      k % 2 == 0 && k / 2 < |c| && k + 1 < |es| && k in pos && pos[k] == p &&
      es[k] == Key(c[k / 2].0) && es[k + 1] == Value(c[k / 2].1)
  {
    var k := t[p].keyIndex;
    assert k in pos.Keys;
    assert (k + 1) / 2 == k / 2;
  }

  /** Every live row of `t` points at a key slot of `es` holding the key of its pair in `c`,
      followed by that pair's value. */
  ghost predicate Points<K, V>(t: seq<Row>, es: seq<Slot<K, V>>, c: seq<(K, V)>)
  {
    forall p :: 0 <= p < |t| && Live(t[p]) ==>
      t[p].keyIndex / 2 < |c| && t[p].keyIndex + 1 < |es| &&
      es[t[p].keyIndex] == Key(c[t[p].keyIndex / 2].0) && es[t[p].keyIndex + 1] == Value(c[t[p].keyIndex / 2].1)
  }

  lemma {:induction false} PlacedPoints<K, V>(t: seq<Row>, pos: map<nat, nat>, c: seq<(K, V)>, es: seq<Slot<K, V>>)
    requires Located(t, pos) && PairIndices(pos.Keys, |c|) && Holds(es, c)
    ensures Points(t, es, c)
  {
    forall p | 0 <= p < |t| && Live(t[p])
      ensures t[p].keyIndex / 2 < |c| && t[p].keyIndex + 1 < |es| &&
        es[t[p].keyIndex] == Key(c[t[p].keyIndex / 2].0) && es[t[p].keyIndex + 1] == Value(c[t[p].keyIndex / 2].1)
    {
      PairOfRow(t, pos, c, es, p);
    }
  }

  /** The decoded rows of a fresh table of `n` zeros. */
  function EmptyRows(n: nat): (t: seq<Row>)
    ensures |t| == n && forall p :: 0 <= p < n ==> t[p] == EMPTY
  {
    seq(n, _ => EMPTY)
  }

  /** `new long[n]`: a table of `n` zeros, which decode to empty rows. */
  method NewTable(n: nat) returns (t: array<Long>)
    ensures fresh(t) && t.Length == n && Decodes(t[..], EmptyRows(n))
  {
    t := new Long[n](_ => 0);
    assert Decode(0) == EMPTY;
  }

  /** `new long[tbl.length]` and `arraycopy(tbl, 0, nTable, 0, tbl.length)`: a fresh table
      holding the same rows. */
  method CopyTable(tbl: array<Long>, ghost t: seq<Row>) returns (tbl': array<Long>)
    requires Decodes(tbl[..], t)
    ensures fresh(tbl') && tbl'.Length == tbl.Length && tbl'[..] == tbl[..] && Decodes(tbl'[..], t)
  {
    tbl' := NewTable(tbl.Length);
    for i := 0 to tbl.Length
      invariant forall j :: 0 <= j < i ==> tbl'[j] == tbl[j]
    {
      tbl'[i] := tbl[i];
    }
  }

  /** `new Object[n]`: `n` nulls, which hold no pairs. */
  method NewEntries<K, V>(n: nat) returns (es: array<Slot<K, V>>)
    ensures fresh(es) && es.Length == n && Holds<K, V>(es[..], [])
  {
    es := new Slot<K, V>[n](_ => Null);
  }

  /** An entries array of `2 * c` slots has an even length. */
  lemma {:induction false} EvenLength(n: nat, c: nat)
    requires n == 2 * c
    ensures n % 2 == 0
  {
  }

  /** A table of `n` empty rows places the empty map. */
  lemma {:induction false} EmptyPlaced<K, V>(n: nat, h: K -> Word)
    requires n > 0
    ensures Placed<K, V>(EmptyRows(n), map[], [], h)
  {
    var t := EmptyRows(n);
    assert forall p :: 0 <= p < n ==> !Live(t[p]);
    CountLiveEmpty(t);
  }

  /** `long row = table[q]` and the fields `Row.hash(row)`, `Row.keyIndex(row)` and
      `Row.tombstone(row)`, which are those of the decoded row at `q`. */
  method ReadRow(tbl: array<Long>, ghost t: seq<Row>, q: nat) returns (hash: Word, keyIndex: Word, tombstone: bool)
    requires Decodes(tbl[..], t) && q < tbl.Length
    ensures t[q] == Row(hash, keyIndex, tombstone)
  {
    var row := tbl[q];
    RowAt(tbl[..], t, q, row);
    hash, keyIndex, tombstone := Hash(row), KeyIndex(row), Tombstone(row);
  }

  /** `table[q] = Row.construct(hash, keyIndex)`, for a key index below 2^31: the row at `q`
      decodes to a live row of that hash and key index. */
  method WriteRow(tbl: array<Long>, ghost t: seq<Row>, q: nat, hash: Word, keyIndex: nat)
    requires Decodes(tbl[..], t) && q < tbl.Length && keyIndex < 0x8000_0000
    modifies tbl
    ensures Decodes(tbl[..], t[q := Row(hash, keyIndex, false)])
  {
    ConstructRoundTrip(hash, keyIndex);
    tbl[q] := Construct(hash, keyIndex);
    assert tbl[..] == old(tbl[..])[q := Construct(hash, keyIndex)];
  }

  /** `entries[i] = x`. */
  method SetSlot<K, V>(es: array<Slot<K, V>>, i: nat, x: Slot<K, V>)
    requires i < es.Length
    modifies es
    ensures es[..] == old(es[..])[i := x]
  {
    es[i] := x;
  }

  /** Writing a new pair's key and value into the two slots after the last pair appends it. */
  lemma {:induction false} HoldsAppend<K, V>(es: seq<Slot<K, V>>, c: seq<(K, V)>, k: K, v: V)
    requires Holds(es, c) && 2 * |c| + 1 < |es|
    ensures Holds(es[2 * |c| := Key(k)][2 * |c| + 1 := Value(v)], c + [(k, v)])
  {
    var es', c' := es[2 * |c| := Key(k)][2 * |c| + 1 := Value(v)], c + [(k, v)];
    forall i | 0 <= i < |es'|
      ensures es'[i] == SlotAt(c', i)
    {
      if i < 2 * |c| {
        assert es'[i] == es[i] == SlotAt(c, i);
        assert i / 2 < |c|;
      } else if i <= 2 * |c| + 1 {
        assert i / 2 == |c|;
      }
    }
  }

  /** The last pair's key and value are in the two slots after the first `|c| - 1` pairs. */
  lemma {:induction false} LastSlots<K, V>(es: seq<Slot<K, V>>, c: seq<(K, V)>)
    requires Holds(es, c) && |c| > 0
    ensures var lk := 2 * (|c| - 1);
      lk + 1 < |es| && es[lk] == Key(c[|c| - 1].0) && es[lk + 1] == Value(c[|c| - 1].1)
  {
    var lk := 2 * (|c| - 1);
    assert es[lk] == SlotAt(c, lk) && es[lk + 1] == SlotAt(c, lk + 1);
    assert lk / 2 == (lk + 1) / 2 == |c| - 1;
  }

  /** Writing a value into the value slot `k + 1` of the pair whose key slot is `k` replaces that
      pair's value. */
  lemma {:induction false} HoldsSetValue<K, V>(es: seq<Slot<K, V>>, c: seq<(K, V)>, k: nat, v: V)
    requires Holds(es, c) && k % 2 == 0 && k / 2 < |c|
    ensures Holds(es[k + 1 := Value(v)], c[k / 2 := (c[k / 2].0, v)])
  {
    var es', c' := es[k + 1 := Value(v)], c[k / 2 := (c[k / 2].0, v)];
    forall i | 0 <= i < |es'|
      ensures es'[i] == SlotAt(c', i)
    {
      assert (k + 1) / 2 == k / 2 && (k + 1) % 2 == 1;
      if i < 2 * |c| && i != k + 1 && i / 2 == k / 2 {
        assert i == k;
      }
    }
  }

  /** Changing values but not keys keeps the table's placement of the pairs. */
  lemma {:induction false} PlacedSameKeys<K, V>(t: seq<Row>, pos: map<nat, nat>, c: seq<(K, V)>, c': seq<(K, V)>, h: K -> Word)
    requires Placed(t, pos, c, h) && |c'| == |c| && forall j :: 0 <= j < |c| ==> c'[j].0 == c[j].0
    ensures Placed(t, pos, c', h)
  {
    forall k | k in pos
      ensures pos[k] < |t| && k / 2 < |c'| && t[pos[k]].hash == KeyHash(h(c'[k / 2].0))
    {
    }
  }

  /** `table[q] = Row.addTombstone(table[q])`: the row at `q` keeps its hash and key index and
      becomes a tombstone. */
  method TombstoneRow(tbl: array<Long>, ghost t: seq<Row>, q: nat)
    requires Decodes(tbl[..], t) && q < tbl.Length
    modifies tbl
    ensures Decodes(tbl[..], t[q := t[q].(tombstone := true)])
  {
    var row := tbl[q];
    RowAt(tbl[..], t, q, row);
    AddTombstoneKeepsFields(row);
    tbl[q] := AddTombstone(row);
    assert tbl[..] == old(tbl[..])[q := AddTombstone(row)];
  }

  /** `new Object[n]` and `arraycopy(es, 0, nEntries, 0, count)`: a fresh entries array of `n`
      slots holding the pairs `es` holds. */
  method CopyEntries<K, V>(es: array<Slot<K, V>>, n: nat, count: nat, ghost c: seq<(K, V)>)
    returns (es': array<Slot<K, V>>)
    requires Holds(es[..], c) && count == 2 * |c| && count <= n
    ensures fresh(es') && es'.Length == n && Holds(es'[..], c)
  {
    es' := NewEntries<K, V>(n);
    for i := 0 to count
      invariant forall j :: 0 <= j < n ==> es'[j] == if j < i then es[j] else Null
    {
      es'[i] := es[i];
    }
    forall j | 0 <= j < n
      ensures es'[..][j] == SlotAt(c, j)
    {
      if j < count {
        assert es[..][j] == SlotAt(c, j);
      }
    }
  }

  /** The entries after `remove` has moved the last pair `lk`, `lk + 1` into the removed pair's
      slots `k`, `k + 1` (when they differ) and nulled the last pair's slots. */
  function Vacated<K, V>(es: seq<Slot<K, V>>, k: nat, lk: nat): (es': seq<Slot<K, V>>)
    requires k + 1 < |es| && lk + 1 < |es|
    ensures |es'| == |es|
  {
    (if k != lk then es[k := es[lk]][k + 1 := es[lk + 1]] else es)[lk := Null][lk + 1 := Null]
  }

  /** Moving the last pair into the slots of the removed pair `k / 2` and nulling the last pair's
      slots holds the pairs with the last one moved into the removed one's place. */
  lemma {:induction false} HoldsRemove<K, V>(es: seq<Slot<K, V>>, c: seq<(K, V)>, k: nat)
    requires Holds(es, c) && k % 2 == 0 && k / 2 < |c|
    ensures var last := |c| - 1;
      Holds(Vacated(es, k, 2 * last), c[k / 2 := c[last]][..last])
  {
    var last := |c| - 1;
    var es', c' := Vacated(es, k, 2 * last), c[k / 2 := c[last]][..last];
    forall i | 0 <= i < |es'|
      ensures es'[i] == SlotAt(c', i)
    {
      assert es[i] == SlotAt(c, i);
      if i < 2 * last && i / 2 == k / 2 {
        assert i == k || i == k + 1;
        assert es[2 * last] == SlotAt(c, 2 * last) && es[2 * last + 1] == SlotAt(c, 2 * last + 1);
      }
    }
  }
}
