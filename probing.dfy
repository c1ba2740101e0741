/** The integer arithmetic of the map: the hash scrambling applied to every key, the
    power-of-two table length chosen for a capacity, and the three masked index computations
    (`estimatedIndex`, `nextIndex`, `probeDistance`). Each Java expression is written out with the
    bit operations of `Bits`, and its contract gives its arithmetic meaning on a table of
    `indexMask + 1` rows. */
module Probing {
  import opened Bits
  import opened Rows

  const MAX_CAPACITY: nat := 0x2000_0000                 // 1 << 29

  /** The scrambling step of `keyHash`: `h ^= (h >>> 20) ^ (h >>> 12); h ^= (h >>> 7) ^ (h >>> 4)`. */
  function Scramble(h: Word): (r: Word)
  {
    Pow2Values();
    var h1 := Xor(h, Xor(h / 0x10_0000, h / 0x1000));
    assert h1 < Pow2(32) by {
      XorBound(h / 0x10_0000, h / 0x1000, 32);
      XorBound(h, Xor(h / 0x10_0000, h / 0x1000), 32);
    }
    var h2 := Xor(h1, Xor(h1 / 0x80, h1 / 0x10));
    assert h2 < Pow2(32) by {
      XorBound(h1 / 0x80, h1 / 0x10, 32);
      XorBound(h1, Xor(h1 / 0x80, h1 / 0x10), 32);
    }
    h2
  }

  /** `keyHash`: the scrambled hash of a key, where `raw` is what the map's hash function
      returned for it. The result is never `NONE`, so a row that holds a key is never mistaken
      for an empty row. */
  function KeyHash(raw: Word): (r: Word)
    ensures r != NONE
    ensures r == Scramble(raw) || (Scramble(raw) == NONE && r == FALLBACK)
  {
    var h := Scramble(raw);
    if h == NONE then FALLBACK else h
  }

  /** A raw hash of 0 (the hash of `null` under `Objects::hashCode`) scrambles to `NONE` and is
      therefore stored as `FALLBACK`. */
  lemma {:induction false} ZeroHashFallsBack()
    ensures KeyHash(0) == FALLBACK
  {
    assert Xor(0, 0) == 0;
  }

  /** A table length and its index mask `length - 1`, where the length is `2^log`. */
  predicate IsMask(indexMask: nat, log: nat)
  {
    indexMask + 1 == Pow2(log) && log <= 30 && indexMask < 0x4000_0000
  }

  lemma {:induction false} MaskBound(indexMask: nat, log: nat)
    requires IsMask(indexMask, log)
    ensures indexMask < 0x4000_0000
  {
    Pow2Monotone(log, 30);
    Pow2Values();
  }

  /** The remainder of `x` divided by `n`, by repeated subtraction. The contracts below use it in
      place of `%`, which `RemIsMod` shows it equals. */
  function Rem(x: nat, n: nat): (r: nat)
    requires n > 0
    ensures r < n
    decreases x
  {
    if x < n then x else Rem(x - n, n)
  }

  lemma {:induction false} RemIsMod(x: nat, n: nat)
    requires n > 0
    ensures Rem(x, n) == x % n
    decreases x
  {
    if x >= n {
      RemIsMod(x - n, n);
      DivMod(x - n, n);
      MulDistrib(n, (x - n) / n, 1);
      DivModUnique(x, n, (x - n) / n + 1, (x - n) % n);
    }
  }

  /** `estimatedIndex`: `hash & indexMask`, the home row of a hash: its remainder modulo the
      table length. */
  function EstimatedIndex(hash: Word, indexMask: nat, ghost log: nat): (r: nat)
    requires IsMask(indexMask, log)
    ensures r == Rem(hash, indexMask + 1)
  {
    AndLowMask(hash, log);
    RemIsMod(hash, indexMask + 1);
    And(hash, indexMask)
  }

  /** `nextIndex`: `(idx + 1) & indexMask`, the row after `idx`, wrapping at the end. */
  function NextIndex(idx: nat, indexMask: nat, ghost log: nat): (r: nat)
    requires IsMask(indexMask, log) && idx <= indexMask
    ensures r == if idx == indexMask then 0 else idx + 1
  {
    AndLowMask(idx + 1, log);
    DivModUnique(idx + 1, indexMask + 1, if idx == indexMask then 1 else 0,
                 if idx == indexMask then 0 else idx + 1);
    And(idx + 1, indexMask)
  }

  /** The two's complement bit pattern of a Java int expression whose value is `v`. */
  function IntPattern(v: int): (r: Word)
    requires -0x8000_0000 <= v < 0x8000_0000
    ensures r % 0x1_0000_0000 == v % 0x1_0000_0000
  {
    if v >= 0 then v else v + 0x1_0000_0000
  }

  /** `probeDistance`: `(index + length - (hash & indexMask)) & indexMask`, where `length` is the
      length of `this.table`. The result is the probe distance of the hash at `index` in a table
      of `n == indexMask + 1` rows plus `length`, modulo `n`; with the table's own length it is the
      probe distance itself. */
  function ProbeDistance(hash: Word, index: nat, length: nat, indexMask: nat, ghost log: nat): (r: nat)
    requires IsMask(indexMask, log) && index <= indexMask && length <= 0x4000_0000
    ensures r == Rem(Dist(hash, index, indexMask + 1) + length, indexMask + 1)
    ensures length == indexMask + 1 ==> r == Dist(hash, index, indexMask + 1)
  {
    var v := index + length - EstimatedIndex(hash, indexMask, log);
    ghost var n := indexMask + 1;
    ghost var w := v + n;
    MaskedPattern(v, n, log);
    SubtractedHome(hash, index, length, n, w);
    And(IntPattern(v), indexMask)
  }

  /** The low `log` bits of the 32-bit pattern of `v` are the remainder of `v` modulo `2^log`. */
  lemma {:induction false} MaskedPattern(v: int, n: nat, log: nat)
    requires n == Pow2(log) && log <= 30 && 0 <= v + n && v < 0x8000_0000
    ensures -0x8000_0000 <= v
    ensures And(IntPattern(v), n - 1) == Rem(v + n, n)
  {
    assert n <= 0x4000_0000 by { Pow2Monotone(log, 30); Pow2Values(); }
    var x := IntPattern(v);
    assert x % n == v % n by {
      if v < 0 {
        Pow2Add(log, 32 - log);
        Pow2Values();
        ModShift(v, n, Pow2(32 - log));
      }
    }
    assert And(x, n - 1) == x % n by { AndLowMask(x, log); }
    assert (v + n) % n == v % n by { ModShift(v, n, 1); }
    RemIsMod(v + n, n);
  }

  /** Adding a multiple of `n` keeps the remainder modulo `n`. */
  lemma {:induction false} ModShift(u: int, n: int, k: int)
    requires n > 0
    ensures (u + n * k) % n == u % n
  {
    DivMod(u, n);
    MulDistrib(n, u / n, k);
    DivModUnique(u + n * k, n, u / n + k, u % n);
  }

  /** The remainder in `probeDistance`, by the cases of `Dist`. */
  lemma {:induction false} SubtractedHome(hash: Word, index: nat, length: nat, n: nat, w: nat)
    requires index < n && w == index + length + n - Rem(hash, n)
    ensures Rem(w, n) == Rem(Dist(hash, index, n) + length, n)
    ensures Rem(Dist(hash, index, n) + n, n) == Dist(hash, index, n)
  {
    var d := Dist(hash, index, n);
    if index >= Rem(hash, n) {
      assert w == d + length + n;
      assert Rem(w, n) == Rem(d + length, n);
    } else {
      assert w == d + length;
    }
    assert Rem(d + n, n) == Rem(d, n) == d;
  }

  lemma {:induction false} ModOfProductInt(v: int, p: nat, q: nat)
    requires p > 0 && q > 0
    ensures (v % (p * q)) % p == v % p
  {
    var pq := p * q;
    DivMod(v, pq);
    var z := v / pq;
    var y := v % pq;
    assert pq * z == p * (q * z) by { MulAssoc(p, q, z); }
    DivMod(y, p);
    var w := y / p;
    assert p * (q * z) + p * w == p * (q * z + w) by { MulDistrib(p, q * z, w); }
    DivModUnique(v, p, q * z + w, y % p);
  }

  /** The row `j` rows forward of row `b` in a table of `n` rows, wrapping at the end. */
  function Pos(b: nat, j: nat, n: nat): (q: nat)
    requires b < n && j <= n
    ensures q < n
  {
    if b + j < n then b + j else b + j - n
  }

  /** How many rows forward of row `b` row `q` lies, in a table of `n` rows. */
  function Off(b: nat, q: nat, n: nat): (j: nat)
    requires b < n && q < n
    ensures j < n && Pos(b, j, n) == q
  {
    if q >= b then q - b else q + n - b
  }

  /** The probe distance of a hash at `index` in a table of `n` rows: how many rows forward of its
      home row `index` lies. */
  function Dist(hash: Word, index: nat, n: nat): (d: nat)
    requires index < n
    ensures d < n
  {
    Off(Rem(hash, n), index, n)
  }

  /** While `resize` rehashes into a table of a new length, `probeDistance` still reads the old
      length: every distance it computes is the probe distance plus the old length, modulo the
      new length. When the old table is at least as long, the two agree; when the probe distance
      plus the old length stays below the new length, the result is exactly that sum. */
  lemma {:induction false} ProbeDistanceStaleLength(hash: Word, index: nat, oldLog: nat, indexMask: nat, log: nat)
    requires IsMask(indexMask, log) && index <= indexMask && Pow2(oldLog) <= 0x4000_0000
    ensures oldLog >= log ==>
      ProbeDistance(hash, index, Pow2(oldLog), indexMask, log) == Dist(hash, index, indexMask + 1)
    ensures Dist(hash, index, indexMask + 1) + Pow2(oldLog) < indexMask + 1 ==>
      ProbeDistance(hash, index, Pow2(oldLog), indexMask, log) == Dist(hash, index, indexMask + 1) + Pow2(oldLog)
  {
    if oldLog >= log {
      RemOfMultiple(Dist(hash, index, indexMask + 1), indexMask + 1, log, oldLog);
    }
  }

  /** Adding a multiple of the table length does not move a row. */
  lemma {:induction false} RemOfMultiple(d: nat, n: nat, log: nat, oldLog: nat)
    requires n == Pow2(log) && d < n && log <= oldLog
    ensures Rem(d + Pow2(oldLog), n) == d
  {
    var L := Pow2(oldLog);
    Pow2Add(log, oldLog - log);
    assert L == n * Pow2(oldLog - log);
    DivModUnique(d + L, n, Pow2(oldLog - log), d);
    RemIsMod(d + L, n);
  }

  /** The capacity `resize` settles on: `max(4, capacity)`. */
  function Capacity(capacity: int): (c: nat)
    ensures c >= 4 && c >= capacity
  {
    if capacity < 4 then 4 else capacity
  }

  /** The integer form of `log2Ceil(ceil(capacity / LOAD_FACTOR))` with a load factor of 19/20:
      the least `log` with `19 * 2^log >= 20 * capacity`. The table length is `2^log`, which
      exceeds the capacity; a capacity of at most `MAX_CAPACITY` gives at most 2^30 rows. */
  function TableLog(capacity: nat): (log: nat)
    ensures 19 * Pow2(log) >= 20 * capacity
    ensures log == 0 || 19 * Pow2(log - 1) < 20 * capacity
    ensures Pow2(log) > capacity
    ensures capacity <= MAX_CAPACITY ==> log <= 30
  {
    var r := TableLogFrom(capacity, 0);
    TableLogBound(capacity, r);
    r
  }

  lemma {:induction false} TableLogBound(capacity: nat, r: nat)
    requires r == 0 || 19 * Pow2(r - 1) < 20 * capacity
    ensures capacity <= MAX_CAPACITY ==> r <= 30
  {
    if capacity <= MAX_CAPACITY && r > 30 {
      Pow2Monotone(30, r - 1);
      Pow2Values();
      assert false;
    }
  }

  function TableLogFrom(capacity: nat, log: nat): (r: nat)
    requires log == 0 || 19 * Pow2(log - 1) < 20 * capacity
    ensures 19 * Pow2(r) >= 20 * capacity
    ensures r == 0 || 19 * Pow2(r - 1) < 20 * capacity
    decreases 20 * capacity - 19 * Pow2(log)
  {
    if 19 * Pow2(log) >= 20 * capacity then
      log
    else
      TableLogFrom(capacity, log + 1)
  }
}
