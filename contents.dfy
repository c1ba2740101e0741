/** The abstract value of a map: the sequence of its key/value pairs in entry-array order, where
    keys are compared by the map's own equality `eq` rather than by Dafny's `==`. The operations
    here say what `put`, `remove` and `update` do to that sequence, and the lemmas say what a
    lookup sees afterwards. */
module Contents {

  datatype Option<T> = None | Some(value: T)

  /** `eq` is an equivalence relation, as `equalsFn` must be. */
  ghost predicate Equivalence<K(!new)>(eq: (K, K) -> bool)
  {
    (forall a :: eq(a, a)) &&
    (forall a, b {:trigger eq(a, b), eq(b, a)} :: eq(a, b) ==> eq(b, a)) &&
    (forall a, b, c {:trigger eq(a, b), eq(b, c), eq(a, c)} :: eq(a, b) && eq(b, c) ==> eq(a, c))
  }

  /** `eq` is an equivalence and equal keys have equal hashes, as `hashFn` and `equalsFn` must. */
  ghost predicate KeyLaws<K(!new), H>(hash: K -> H, eq: (K, K) -> bool)
  {
    Equivalence(eq) && forall a, b {:trigger eq(a, b)} :: eq(a, b) ==> hash(a) == hash(b)
  }

  /** No two pairs hold equal keys. */
  predicate Unique<K, V>(c: seq<(K, V)>, eq: (K, K) -> bool)
  {
    forall i, j {:trigger eq(c[i].0, c[j].0)} :: 0 <= i < |c| && 0 <= j < |c| && i != j ==> !eq(c[i].0, c[j].0)
  }

  /** The position of the first pair whose key equals `k`, or -1. */
  function IndexOf<K, V>(c: seq<(K, V)>, k: K, eq: (K, K) -> bool): (r: int)
    ensures -1 <= r < |c|
    ensures r >= 0 ==> eq(k, c[r].0) && forall j {:trigger eq(k, c[j].0)} :: 0 <= j < r ==> !eq(k, c[j].0)
    ensures r < 0 ==> forall j {:trigger eq(k, c[j].0)} :: 0 <= j < |c| ==> !eq(k, c[j].0)
  {
    if |c| == 0 then -1
    else if eq(k, c[0].0) then 0
    else
      var r := IndexOf(c[1..], k, eq);
      assert forall j :: 1 <= j < |c| ==> c[j] == c[1..][j - 1];
      if r < 0 then -1 else r + 1
  }

  /** The value held for `k`. */
  function Lookup<K, V>(c: seq<(K, V)>, k: K, eq: (K, K) -> bool): (r: Option<V>)
  {
    var i := IndexOf(c, k, eq);
    if i < 0 then None else Some(c[i].1)
  }

  /** `put(key, value, merge)`: a present key keeps its stored key and gets `merge(old, value)`; an
      absent key is appended. */
  function Put<K, V>(c: seq<(K, V)>, k: K, v: V, merge: (V, V) -> V, eq: (K, K) -> bool): seq<(K, V)>
  {
    var i := IndexOf(c, k, eq);
    if i >= 0 then c[i := (c[i].0, merge(c[i].1, v))] else c + [(k, v)]
  }

  /** `remove(key)`: the last pair moves into the removed pair's place. */
  function Remove<K, V>(c: seq<(K, V)>, k: K, eq: (K, K) -> bool): seq<(K, V)>
  {
    var i := IndexOf(c, k, eq);
    if i < 0 then c else c[i := c[|c| - 1]][..|c| - 1]
  }

  /** `update(key, fn)`: a present value `v` becomes `fn(Some(v))`; an absent key is appended with
      `fn(None)` (Java passes `null`). */
  function Update<K, V>(c: seq<(K, V)>, k: K, fn: Option<V> -> V, eq: (K, K) -> bool): seq<(K, V)>
  {
    var i := IndexOf(c, k, eq);
    if i >= 0 then c[i := (c[i].0, fn(Some(c[i].1)))] else c + [(k, fn(None))]
  }

  /** `Maps.MERGE_LAST_WRITE_WINS`: the new value replaces the old one. */
  function LastWriteWins<V>(old_: V, new_: V): V
  {
    new_
  }

  /** The pairs of `s` put into `a` one after the other. */
  function PutAll<K, V>(a: seq<(K, V)>, s: seq<(K, V)>, merge: (V, V) -> V, eq: (K, K) -> bool): seq<(K, V)>
  {
    if s == [] then a
    else
      var x := s[|s| - 1];
      Put(PutAll(a, s[..|s| - 1], merge, eq), x.0, x.1, merge, eq)
  }

  /** The value a merge of two maps holds for a key, from the values the two maps hold for it. */
  function Merged<V>(a: Option<V>, b: Option<V>, merge: (V, V) -> V): Option<V>
  {
    match (a, b)
    case (Some(x), Some(y)) => Some(merge(x, y))
    case (Some(x), None) => Some(x)
    case (None, _) => b
  }

  // Lemmas

  /** Equal keys are interchangeable on either side of `eq`. The laws of `Equivalence` fire only
      on terms that are already present, so proofs name the keys through this lemma. */
  lemma {:induction false} Interchangeable<K(!new)>(eq: (K, K) -> bool, a: K, b: K, c: K)
    requires Equivalence(eq) && eq(a, b)
    ensures eq(b, a) && (eq(a, c) <==> eq(b, c)) && (eq(c, a) <==> eq(c, b))
  {
  }

  /** In a sequence without duplicate keys, a key equal to the key at `i` equals no other key. */
  lemma {:induction false} UniqueOthers<K(!new), V>(c: seq<(K, V)>, i: nat, k: K, eq: (K, K) -> bool)
    requires Equivalence(eq) && Unique(c, eq) && i < |c| && eq(k, c[i].0)
    ensures forall m :: 0 <= m < |c| && m != i ==> !eq(k, c[m].0)
  {
    forall m | 0 <= m < |c| && m != i
      ensures !eq(k, c[m].0)
    {
      Interchangeable(eq, k, c[i].0, c[m].0);
    }
  }

  /** Equal keys find the same pair. */
  lemma {:induction false} IndexOfEq<K(!new), V>(c: seq<(K, V)>, k: K, k': K, eq: (K, K) -> bool)
    requires Equivalence(eq) && eq(k, k')
    ensures IndexOf(c, k, eq) == IndexOf(c, k', eq)
  {
    var i, i' := IndexOf(c, k, eq), IndexOf(c, k', eq);
    forall j | 0 <= j < |c|
      ensures eq(k, c[j].0) <==> eq(k', c[j].0)
    {
      Interchangeable(eq, k, k', c[j].0);
    }
  }

  /** In a sequence without duplicate keys, the pair at `i` is found by its own key and by every
      key equal to it. */
  lemma {:induction false} IndexOfUnique<K(!new), V>(c: seq<(K, V)>, i: nat, k: K, eq: (K, K) -> bool)
    requires Equivalence(eq) && Unique(c, eq) && i < |c| && eq(k, c[i].0)
    ensures IndexOf(c, k, eq) == i
  {
    UniqueOthers(c, i, k, eq);
  }

  /** The position of a key in `c + [x]`. */
  lemma {:induction false} IndexOfSnoc<K(!new), V>(c: seq<(K, V)>, x: (K, V), k: K, eq: (K, K) -> bool)
    ensures IndexOf(c + [x], k, eq)
         == if IndexOf(c, k, eq) >= 0 then IndexOf(c, k, eq) else if eq(k, x.0) then |c| else -1
  {
    var c' := c + [x];
    var r, r' := IndexOf(c, k, eq), IndexOf(c', k, eq);
    assert forall j :: 0 <= j < |c| ==> c'[j] == c[j];
    if r >= 0 {
      assert eq(k, c'[r].0);
    } else if eq(k, x.0) {
      assert c'[|c|] == x;
    }
  }

  /** The position of a key depends only on the keys. */
  lemma {:induction false} IndexOfSameKeys<K(!new), V>(c: seq<(K, V)>, c': seq<(K, V)>, k: K, eq: (K, K) -> bool)
    requires |c| == |c'| && forall j :: 0 <= j < |c| ==> c[j].0 == c'[j].0
    ensures IndexOf(c, k, eq) == IndexOf(c', k, eq)
  {
    var i, i' := IndexOf(c, k, eq), IndexOf(c', k, eq);
    if i >= 0 {
      assert eq(k, c'[i].0);
    }
    if i' >= 0 {
      assert eq(k, c[i'].0);
    }
  }

  /** After `put(k, v, merge)`, `k` (and every key equal to it) holds the merged or the new value,
      and every other key holds what it held before. */
  lemma {:induction false} LookupPut<K(!new), V>(c: seq<(K, V)>, k: K, v: V, merge: (V, V) -> V, eq: (K, K) -> bool, k2: K)
    requires Equivalence(eq) && Unique(c, eq)
    ensures Lookup(Put(c, k, v, merge, eq), k2, eq)
         == if eq(k2, k) then Some(match Lookup(c, k, eq) case None => v case Some(w) => merge(w, v))
            else Lookup(c, k2, eq)
  {
    var i := IndexOf(c, k, eq);
    var c' := Put(c, k, v, merge, eq);
    if i >= 0 {
      IndexOfSameKeys(c, c', k2, eq);
      if eq(k2, k) {
        IndexOfUnique(c, i, k2, eq);
      } else {
        var j := IndexOf(c, k2, eq);
        Interchangeable(eq, k, c[i].0, k2);
        assert j >= 0 ==> j != i;
      }
    } else {
      IndexOfSnoc(c, (k, v), k2, eq);
      if eq(k2, k) {
        IndexOfEq(c, k, k2, eq);
      }
    }
  }

  /** `put` keeps keys unique and grows the sequence by one exactly when the key was absent. */
  lemma {:induction false} PutUnique<K(!new), V>(c: seq<(K, V)>, k: K, v: V, merge: (V, V) -> V, eq: (K, K) -> bool)
    requires Equivalence(eq) && Unique(c, eq)
    ensures Unique(Put(c, k, v, merge, eq), eq)
    ensures |Put(c, k, v, merge, eq)| == |c| + (if Lookup(c, k, eq).None? then 1 else 0)
  {
    var c' := Put(c, k, v, merge, eq);
    if IndexOf(c, k, eq) < 0 {
      forall i, j | 0 <= i < |c'| && 0 <= j < |c'| && i != j
        ensures !eq(c'[i].0, c'[j].0)
      {
        if i == |c| {
          assert !eq(k, c[j].0);
        } else if j == |c| {
          assert !eq(k, c[i].0);
        }
      }
    }
  }

  /** After `remove(k)`, `k` (and every key equal to it) is absent and every other key holds what
      it held before. */
  lemma {:induction false} LookupRemove<K(!new), V>(c: seq<(K, V)>, k: K, eq: (K, K) -> bool, k2: K)
    requires Equivalence(eq) && Unique(c, eq)
    ensures Lookup(Remove(c, k, eq), k2, eq) == if eq(k2, k) then None else Lookup(c, k2, eq)
  {
    var i := IndexOf(c, k, eq);
    var c' := Remove(c, k, eq);
    RemoveUnique(c, k, eq);
    if i < 0 {
      if eq(k2, k) {
        IndexOfEq(c, k2, k, eq);
      }
    } else {
      var last := |c| - 1;
      if eq(k2, k) {
        IndexOfEq(c, k2, k, eq);
        UniqueOthers(c, i, k2, eq);
        forall j | 0 <= j < |c'|
          ensures !eq(k2, c'[j].0)
        {
          var m := if j == i then last else j;
          assert c'[j] == c[m];
        }
      } else {
        var j := IndexOf(c, k2, eq);
        if j >= 0 {
          Interchangeable(eq, k, c[i].0, k2);
          assert j != i;
          var j' := if j == last then i else j;
          assert c'[j'] == c[j];
          IndexOfUnique(c', j', k2, eq);
        } else {
          forall j | 0 <= j < |c'|
            ensures !eq(k2, c'[j].0)
          {
          }
        }
      }
    }
  }

  /** `remove` keeps keys unique and shrinks the sequence by one exactly when the key was present. */
  lemma {:induction false} RemoveUnique<K(!new), V>(c: seq<(K, V)>, k: K, eq: (K, K) -> bool)
    requires Equivalence(eq) && Unique(c, eq)
    ensures Unique(Remove(c, k, eq), eq)
    ensures |Remove(c, k, eq)| == |c| - (if Lookup(c, k, eq).Some? then 1 else 0)
  {
    var i := IndexOf(c, k, eq);
    if i >= 0 {
      var c' := Remove(c, k, eq);
      var last := |c| - 1;
      forall a, b | 0 <= a < |c'| && 0 <= b < |c'| && a != b
        ensures !eq(c'[a].0, c'[b].0)
      {
        var a' := if a == i then last else a;
        var b' := if b == i then last else b;
        assert c'[a] == c[a'] && c'[b] == c[b'] && a' != b';
      }
    }
  }

  /** After `update(k, fn)`, `k` (and every key equal to it) holds `fn` of its old value, and every
      other key holds what it held before. */
  lemma {:induction false} LookupUpdate<K(!new), V>(c: seq<(K, V)>, k: K, fn: Option<V> -> V, eq: (K, K) -> bool, k2: K)
    requires Equivalence(eq) && Unique(c, eq)
    ensures Lookup(Update(c, k, fn, eq), k2, eq)
         == if eq(k2, k) then Some(fn(Lookup(c, k, eq))) else Lookup(c, k2, eq)
  {
    var i := IndexOf(c, k, eq);
    var c' := Update(c, k, fn, eq);
    if i >= 0 {
      IndexOfSameKeys(c, c', k2, eq);
      if eq(k2, k) {
        IndexOfUnique(c, i, k2, eq);
      } else {
        var j := IndexOf(c, k2, eq);
        Interchangeable(eq, k, c[i].0, k2);
        assert j >= 0 ==> j != i;
      }
    } else {
      IndexOfSnoc(c, (k, fn(None)), k2, eq);
      if eq(k2, k) {
        IndexOfEq(c, k, k2, eq);
      }
    }
  }

  /** `update` with an absent key is `put` of `fn(None)`, and with a present key `put` with
      `fn` applied to the old value, exactly as the source calls `put(key, update.apply(null))`
      or writes the value slot in place. */
  lemma {:induction false} UpdateIsPut<K(!new), V>(c: seq<(K, V)>, k: K, fn: Option<V> -> V, eq: (K, K) -> bool)
    ensures Lookup(c, k, eq).None? ==> Update(c, k, fn, eq) == Put(c, k, fn(None), LastWriteWins, eq)
    ensures Lookup(c, k, eq).Some? ==>
      Update(c, k, fn, eq) == Put(c, k, fn(Lookup(c, k, eq)), LastWriteWins, eq)
  {
  }

  lemma {:induction false} PutAllUnique<K(!new), V>(a: seq<(K, V)>, s: seq<(K, V)>, merge: (V, V) -> V, eq: (K, K) -> bool)
    requires Equivalence(eq) && Unique(a, eq)
    ensures Unique(PutAll(a, s, merge, eq), eq)
    decreases |s|
  {
    if s != [] {
      var x := s[|s| - 1];
      PutAllUnique(a, s[..|s| - 1], merge, eq);
      PutUnique(PutAll(a, s[..|s| - 1], merge, eq), x.0, x.1, merge, eq);
    }
  }

  /** Putting every pair of a key-unique `s` into `a` with `merge` gives every key the merge of the
      values the two hold for it, in whatever order `s` lists its pairs. */
  lemma {:induction false} LookupPutAll<K(!new), V>(a: seq<(K, V)>, s: seq<(K, V)>, merge: (V, V) -> V,
                                             eq: (K, K) -> bool, k: K)
    requires Equivalence(eq) && Unique(a, eq) && Unique(s, eq)
    ensures Lookup(PutAll(a, s, merge, eq), k, eq) == Merged(Lookup(a, k, eq), Lookup(s, k, eq), merge)
    decreases |s|
  {
    if s != [] {
      var s0, x := s[..|s| - 1], s[|s| - 1];
      assert s == s0 + [x];
      assert Unique(s0, eq);
      var p0 := PutAll(a, s0, merge, eq);
      PutAllUnique(a, s0, merge, eq);
      LookupPut(p0, x.0, x.1, merge, eq, k);
      IndexOfSnoc(s0, x, k, eq);
      if eq(k, x.0) {
        LookupPutAll(a, s0, merge, eq, x.0);
        IndexOfSnoc(s0, x, x.0, eq);
        IndexOfEq(a, k, x.0, eq);
        forall j | 0 <= j < |s0|
          ensures !eq(x.0, s0[j].0) && !eq(k, s0[j].0)
        {
          assert s[j] == s0[j] && s[|s| - 1] == x;
          Interchangeable(eq, k, x.0, s0[j].0);
        }
      } else {
        LookupPutAll(a, s0, merge, eq, k);
      }
    }
  }

  /** Merging with the operands swapped and the merge function flipped gives the same value: the
      reason `merge` may hand the work to the larger map. */
  lemma {:induction false} MergedFlip<V>(a: Option<V>, b: Option<V>, merge: (V, V) -> V, flipped: (V, V) -> V)
    requires forall x, y :: flipped(x, y) == merge(y, x)
    ensures Merged(b, a, flipped) == Merged(a, b, merge)
  {
  }

  /** A key-unique sequence whose every key is present in `c` is no longer than `c`. */
  lemma {:induction false} FoundKeysBound<K(!new), V, W>(s: seq<(K, V)>, c: seq<(K, W)>, eq: (K, K) -> bool)
    requires Equivalence(eq) && Unique(s, eq)
    requires forall i :: 0 <= i < |s| ==> IndexOf(c, s[i].0, eq) >= 0
    ensures |s| <= |c|
    decreases |s|
  {
    if s != [] {
      var last := |s| - 1;
      var j := IndexOf(c, s[last].0, eq);
      var c' := c[..j] + c[j + 1..];
      var s' := s[..last];
      forall i | 0 <= i < |s'|
        ensures IndexOf(c', s'[i].0, eq) >= 0
      {
        var ji := IndexOf(c, s[i].0, eq);
        var ki, kl := s[i].0, s[last].0;
        Interchangeable(eq, kl, c[j].0, ki);
        assert ji == j ==> eq(ki, kl);
        var ji' := if ji < j then ji else ji - 1;
        assert c'[ji'] == c[ji];
        assert eq(s'[i].0, c'[ji'].0);
      }
      FoundKeysBound(s', c', eq);
    }
  }
}
