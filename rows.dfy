/** The packed `long` rows of the hash table: the low 32 bits hold the scrambled hash, bits 32-62
    the index of the key in the entry array, bit 63 the tombstone flag. A row whose hash is 0
    (`NONE`) is empty. The map itself keeps rows in the decoded form `Row`; `Decode` and `Encode`
    are proved to be inverse bijections between the two forms. */
module Rows {
  import opened Bits

  const NONE: Word := 0
  const FALLBACK: Word := 1

  const HASH_MASK: Long := 0xFFFF_FFFF                      // (1L << 32) - 1
  const KEY_INDEX_MASK: Long := 0x7FFF_FFFF                 // (1L << 31) - 1
  const TOMBSTONE_MASK: Long := 0x8000_0000_0000_0000       // 1L << 63

  /** The decoded form of a row. */
  datatype Row = Row(hash: Word, keyIndex: nat, tombstone: bool)

  const EMPTY: Row := Row(NONE, 0, false)

  /** Java's widening of an int to a long (sign extension), on unsigned bit patterns. */
  function Widen(w: Word): (r: Long)
    ensures r % Pow2(32) == w
  {
    var lo: int := w;
    assert Pow2(32) == 0x1_0000_0000 by { Pow2Values(); }
    if w < 0x8000_0000 then lo else lo + 0xFFFF_FFFF_0000_0000
  }

  /** Java's arithmetic right shift `x >> 32` of a long, on unsigned bit patterns. */
  function ShiftRight32(x: Long): (r: Long)
    ensures r % Pow2(31) == (x / Pow2(32)) % Pow2(31)
  {
    Pow2Values();
    var q: int := x / 0x1_0000_0000;
    if x < 0x8000_0000_0000_0000 then q else q + 0xFFFF_FFFF_0000_0000
  }

  lemma {:induction false} Pow2Values()
    ensures Pow2(31) == 0x8000_0000 && Pow2(32) == 0x1_0000_0000
    ensures Pow2(63) == 0x8000_0000_0000_0000
    ensures Pow2(29) == 0x2000_0000 && Pow2(30) == 0x4000_0000
  {
    assert Pow2(8) == 256;
    assert Pow2(16) == 65536 by { Pow2Add(8, 8); }
    assert Pow2(31) == 0x8000_0000 by { Pow2Add(16, 15); assert Pow2(15) == 32768 by { Pow2Add(8, 7); } }
    assert Pow2(32) == 0x1_0000_0000 by { Pow2Add(16, 16); }
    assert Pow2(29) == 0x2000_0000 && Pow2(30) == 0x4000_0000 by {
      Pow2Add(16, 13); Pow2Add(16, 14); assert Pow2(13) == 8192 by { Pow2Add(8, 5); }
    }
    assert Pow2(63) == 0x8000_0000_0000_0000 by { Pow2Add(32, 31); }
  }

  lemma {:induction false} Pow2Add(a: nat, b: nat)
    ensures Pow2(a + b) == Pow2(a) * Pow2(b)
  {
    if b > 0 {
      Pow2Add(a, b - 1);
      assert Pow2(a + b) == 2 * Pow2(a + b - 1);
      assert Pow2(a) * Pow2(b) == 2 * (Pow2(a) * Pow2(b - 1));
    }
  }

  /** `Row.construct`: `(hash & HASH_MASK) | (keyIndex & KEY_INDEX_MASK) << 32`. */
  function Construct(hash: Word, keyIndex: Word): (r: Long)
    ensures r == hash + (keyIndex % 0x8000_0000) * 0x1_0000_0000
  {
    var lo := And(Widen(hash), HASH_MASK);
    var hi := And(Widen(keyIndex), KEY_INDEX_MASK);
    Pow2Values();
    AndLowMask(Widen(hash), 32);
    AndLowMask(Widen(keyIndex), 31);
    assert Widen(keyIndex) % Pow2(31) == keyIndex % Pow2(31) by {
      ModOfMod(Widen(keyIndex), 31, 32);
    }
    OrDisjoint(lo, hi, 32);
    Or(lo, hi * Pow2(32))
  }

  lemma {:induction false} ModOfMod(x: nat, a: nat, b: nat)
    requires a <= b
    ensures (x % Pow2(b)) % Pow2(a) == x % Pow2(a)
  {
    Pow2Add(a, b - a);
    ModOfProduct(x, Pow2(a), Pow2(b - a));
  }

  lemma {:induction false} ModOfProduct(x: nat, p: nat, q: nat)
    requires p > 0 && q > 0
    ensures (x % (p * q)) % p == x % p
  {
    var pq := p * q;
    var y := x % pq;
    var z := x / pq;
    DivMod(x, pq);
    assert pq * z == p * (q * z) by { MulAssoc(p, q, z); }
    var w := y / p;
    DivMod(y, p);
    assert p * (q * z) + p * w == p * (q * z + w) by { MulDistrib(p, q * z, w); }
    DivModUnique(x, p, q * z + w, y % p);
  }

  lemma {:induction false} DivMod(x: int, d: int)
    requires d > 0
    ensures x == d * (x / d) + x % d && 0 <= x % d < d
  {
  }

  lemma {:induction false} MulAssoc(a: int, b: int, c: int)
    ensures (a * b) * c == a * (b * c)
  {
  }

  lemma {:induction false} MulDistrib(a: int, b: int, c: int)
    ensures a * b + a * c == a * (b + c)
  {
  }

  /** `Row.hash`: `(int) (row & HASH_MASK)`. */
  function Hash(row: Long): (r: Word)
    ensures r == row % 0x1_0000_0000
  {
    Pow2Values();
    AndLowMask(row, 32);
    And(row, HASH_MASK)
  }

  /** `Row.keyIndex`: `(int) ((row >> 32) & KEY_INDEX_MASK)`. */
  function KeyIndex(row: Long): (r: Word)
    ensures r == (row / 0x1_0000_0000) % 0x8000_0000
  {
    Pow2Values();
    AndLowMask(ShiftRight32(row), 31);
    And(ShiftRight32(row), KEY_INDEX_MASK)
  }

  /** `Row.tombstone`: `(row & TOMBSTONE_MASK) != 0`. */
  function Tombstone(row: Long): (r: bool)
    ensures r <==> row >= 0x8000_0000_0000_0000
  {
    Pow2Values();
    AndBit(row, 63);
    And(row, TOMBSTONE_MASK) != 0
  }

  /** `Row.populated`: the hash is not `NONE` and the tombstone bit is clear. */
  function Populated(row: Long): (r: bool)
    ensures r <==> Hash(row) != NONE && !Tombstone(row)
  {
    And(row, HASH_MASK) != NONE && And(row, TOMBSTONE_MASK) == 0
  }

  /** `Row.addTombstone`: `row | TOMBSTONE_MASK`. */
  function AddTombstone(row: Long): (r: Long)
    ensures r == if row >= 0x8000_0000_0000_0000 then row else row + 0x8000_0000_0000_0000
  {
    Pow2Values();
    OrBit(row, 63);
    Or(row, TOMBSTONE_MASK)
  }

  /** `Row.removeTombstone`: `row & ~TOMBSTONE_MASK`, where `~TOMBSTONE_MASK` is 2^63 - 1. */
  function RemoveTombstone(row: Long): (r: Long)
    ensures r == row % 0x8000_0000_0000_0000
  {
    Pow2Values();
    AndLowMask(row, 63);
    And(row, 0x7FFF_FFFF_FFFF_FFFF)
  }

  /** A decoded row whose key index fits in the 31 bits the packed form reserves for it. */
  predicate Encodable(r: Row)
  {
    r.keyIndex < 0x8000_0000
  }

  function Decode(row: Long): Row
  {
    Row(Hash(row), KeyIndex(row), Tombstone(row))
  }

  function Encode(r: Row): Long
    requires Encodable(r)
  {
    var row := Construct(r.hash, r.keyIndex);
    if r.tombstone then AddTombstone(row) else row
  }

  /** `construct` keeps the hash and any key index below 2^31, and clears the tombstone. */
  lemma {:induction false} ConstructRoundTrip(hash: Word, keyIndex: Word)
    requires keyIndex < 0x8000_0000
    ensures Decode(Construct(hash, keyIndex)) == Row(hash, keyIndex, false)
  {
    ConstructTruncatesKeyIndex(hash, keyIndex);
    DivModUnique(keyIndex, 0x8000_0000, 0, keyIndex);
  }

  /** `construct` keeps the hash, keeps only the 31 low bits of the key index, and clears the
      tombstone. */
  lemma {:induction false} ConstructTruncatesKeyIndex(hash: Word, keyIndex: Word)
    ensures Decode(Construct(hash, keyIndex)) == Row(hash, keyIndex % 0x8000_0000, false)
  {
    FieldsSplit(Construct(hash, keyIndex), hash, keyIndex % 0x8000_0000);
  }

  lemma {:induction false} FieldsSplit(x: int, h: int, k: int)
    requires 0 <= h < 0x1_0000_0000 && 0 <= k < 0x8000_0000 && x == 0x1_0000_0000 * k + h
    ensures x % 0x1_0000_0000 == h && (x / 0x1_0000_0000) % 0x8000_0000 == k
    ensures x < 0x8000_0000_0000_0000
  {
    DivModUnique(x, 0x1_0000_0000, k, h);
    DivModUnique(k, 0x8000_0000, 0, k);
  }

  /** `addTombstone` sets the tombstone and leaves hash and key index unchanged. */
  lemma {:induction false} AddTombstoneKeepsFields(row: Long)
    ensures Decode(AddTombstone(row)) == Decode(row).(tombstone := true)
    ensures !Populated(AddTombstone(row))
  {
    if row < 0x8000_0000_0000_0000 {
      var x := AddTombstone(row);
      var q, r := row / 0x1_0000_0000, row % 0x1_0000_0000;
      assert row == 0x1_0000_0000 * q + r;
      assert x == 0x1_0000_0000 * (q + 0x8000_0000) + r;
      DivModUnique(x, 0x1_0000_0000, q + 0x8000_0000, r);
      assert (q + 0x8000_0000) % 0x8000_0000 == q % 0x8000_0000 by {
        DivModUnique(q + 0x8000_0000, 0x8000_0000, q / 0x8000_0000 + 1, q % 0x8000_0000);
      }
    }
  }

  /** `removeTombstone` clears the tombstone and leaves hash and key index unchanged. */
  lemma {:induction false} RemoveTombstoneKeepsFields(row: Long)
    ensures Decode(RemoveTombstone(row)) == Decode(row).(tombstone := false)
  {
    var x := RemoveTombstone(row);
    if row >= 0x8000_0000_0000_0000 {
      DivModUnique(row, 0x8000_0000_0000_0000, 1, row - 0x8000_0000_0000_0000);
      assert x == row - 0x8000_0000_0000_0000;
      assert AddTombstone(x) == row;
      AddTombstoneKeepsFields(x);
      assert !Tombstone(x);
    } else {
      DivModUnique(row, 0x8000_0000_0000_0000, 0, row);
      assert x == row;
    }
  }

  /** Decoding the encoding of a row gives the row back. */
  lemma {:induction false} DecodeEncode(r: Row)
    requires Encodable(r)
    ensures Decode(Encode(r)) == r
  {
    ConstructRoundTrip(r.hash, r.keyIndex);
    if r.tombstone {
      AddTombstoneKeepsFields(Construct(r.hash, r.keyIndex));
    }
  }

  /** Every long is the encoding of its decoding: the packed form has no redundant bits. */
  lemma {:induction false} EncodeDecode(row: Long)
    ensures Encodable(Decode(row)) && Encode(Decode(row)) == row
  {
    var h, k := Hash(row), KeyIndex(row);
    DivModUnique(k, 0x8000_0000, 0, k);
    FieldsRecompose(row, h, k);
  }

  lemma {:induction false} FieldsRecompose(row: Long, h: int, k: int)
    requires h == row % 0x1_0000_0000 && k == (row / 0x1_0000_0000) % 0x8000_0000
    ensures row == h + k * 0x1_0000_0000 + (if row >= 0x8000_0000_0000_0000 then 0x8000_0000_0000_0000 else 0)
  {
    var q := row / 0x1_0000_0000;
    DivMod(row, 0x1_0000_0000);
    DivMod(q, 0x8000_0000);
    var t := q / 0x8000_0000;
    assert q < 0x1_0000_0000;
    assert row >= 0x8000_0000_0000_0000 <==> t == 1;
  }
}
