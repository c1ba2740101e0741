/** Java's bitwise operators on int and long, modelled on the unsigned reading of their bit
    patterns. A Java int is a nat below 2^32 and a long a nat below 2^64; `&`, `|` and `^` are
    defined bit by bit, `x >>> n` is division by 2^n and `x << n` multiplication by 2^n (where no bit
    is shifted out). */
module Bits {

  function Pow2(k: nat): (r: nat)
    ensures r >= 1
  {
    if k == 0 then 1 else 2 * Pow2(k - 1)
  }

  /** A Java int, as its 32-bit two's complement pattern read unsigned. */
  type Word = x: int | 0 <= x < 0x1_0000_0000

  /** A Java long, as its 64-bit two's complement pattern read unsigned. */
  type Long = x: int | 0 <= x < 0x1_0000_0000_0000_0000

  /** Bitwise AND. */
  function And(x: nat, y: nat): nat
    decreases x
  {
    if x == 0 || y == 0 then 0
    else 2 * And(x / 2, y / 2) + (if x % 2 == 1 && y % 2 == 1 then 1 else 0)
  }

  /** Bitwise OR. */
  function Or(x: nat, y: nat): nat
    decreases x + y
  {
    if x == 0 then y
    else if y == 0 then x
    else 2 * Or(x / 2, y / 2) + (if x % 2 == 1 || y % 2 == 1 then 1 else 0)
  }

  /** Bitwise exclusive OR. */
  function Xor(x: nat, y: nat): nat
    decreases x + y
  {
    if x == 0 then y
    else if y == 0 then x
    else 2 * Xor(x / 2, y / 2) + (if x % 2 != y % 2 then 1 else 0)
  }

  // Division and remainder facts used by the bit lemmas below.

  lemma {:induction false} DivModUnique(x: int, d: int, q: int, r: int)
    requires d > 0 && 0 <= r < d && x == d * q + r
    ensures x / d == q && x % d == r
  {
    var q', r' := x / d, x % d;
    assert x == d * q' + r';
    if q' > q {
      assert d * q' >= d * (q + 1) by { MulMonotone(d, q + 1, q'); }
    } else if q' < q {
      assert d * q >= d * (q' + 1) by { MulMonotone(d, q' + 1, q); }
    }
  }

  /** Multiplying by the same positive `d` keeps the order of `a` and `b`. */
  lemma {:induction false} MulMonotone(d: int, a: int, b: int)
    requires d > 0 && a <= b
    ensures d * a <= d * b
  {
  }

  /** Halving commutes with reduction modulo a doubled power: x % 2m == 2 * ((x/2) % m) + x % 2. */
  lemma {:induction false} ModDouble(x: nat, m: nat)
    requires m >= 1
    ensures x % (2 * m) == 2 * ((x / 2) % m) + x % 2
    ensures x / (2 * m) == (x / 2) / m
  {
    var h, b := x / 2, x % 2;
    var q, r := h / m, h % m;
    assert x == 2 * h + b;
    assert h == m * q + r;
    assert x == (2 * m) * q + (2 * r + b);
    DivModUnique(x, 2 * m, q, 2 * r + b);
  }

  /** AND with 2^k - 1 keeps the k low bits, i.e. reduces modulo 2^k. */
  lemma {:induction false} AndLowMask(x: nat, k: nat)
    ensures And(x, Pow2(k) - 1) == x % Pow2(k)
  {
    if k == 0 {
    } else if x == 0 {
    } else {
      var m := Pow2(k - 1);
      assert (Pow2(k) - 1) / 2 == m - 1 && (Pow2(k) - 1) % 2 == 1;
      AndLowMask(x / 2, k - 1);
      ModDouble(x, m);
    }
  }

  /** `x | (y << k)` when x fits in the k low bits: the two fields do not overlap. */
  lemma {:induction false} OrDisjoint(x: nat, y: nat, k: nat)
    requires x < Pow2(k)
    ensures Or(x, y * Pow2(k)) == x + y * Pow2(k)
  {
    if k == 0 {
    } else if x == 0 {
    } else if y == 0 {
    } else {
      var m := Pow2(k - 1);
      var z := y * m;
      assert y * Pow2(k) == 2 * z;
      assert (2 * z) / 2 == z && (2 * z) % 2 == 0;
      assert x / 2 < m;
      OrDisjoint(x / 2, y, k - 1);
      assert Or(x / 2, z) == x / 2 + z;
      assert Or(x, 2 * z) == 2 * Or(x / 2, z) + x % 2;
    }
  }

  /** AND with the single bit 2^k isolates that bit. */
  lemma {:induction false} AndBit(x: nat, k: nat)
    ensures And(x, Pow2(k)) == Pow2(k) * ((x / Pow2(k)) % 2)
  {
    if k == 0 {
      assert And(x, 1) == x % 2 by { AndLowMask(x, 1); }
    } else if x == 0 {
    } else {
      var m := Pow2(k - 1);
      AndBit(x / 2, k - 1);
      AndDouble(x, m, ((x / 2) / m) % 2);
    }
  }

  /** The step of `AndBit`: AND with an even `2m` shifts the AND of `x / 2` with `m` left by one. */
  lemma {:induction false} AndDouble(x: nat, m: nat, b: int)
    requires m >= 1 && And(x / 2, m) == m * b && b == ((x / 2) / m) % 2
    ensures And(x, 2 * m) == (2 * m) * ((x / (2 * m)) % 2)
  {
    var m2 := 2 * m;
    assert m2 / 2 == m && m2 % 2 == 0;
    assert And(x, m2) == 2 * And(x / 2, m);
    ModDouble(x, m);
  }

  /** OR with the single bit 2^k sets that bit. */
  lemma {:induction false} OrBit(x: nat, k: nat)
    ensures Or(x, Pow2(k)) == x + (if (x / Pow2(k)) % 2 == 0 then Pow2(k) else 0)
  {
    if k == 0 {
    } else if x == 0 {
    } else {
      var m := Pow2(k - 1);
      assert Pow2(k) == 2 * m;
      OrBit(x / 2, k - 1);
      ModDouble(x, m);
      assert Or(x, 2 * m) == 2 * Or(x / 2, m) + x % 2;
      assert x / (2 * m) == (x / 2) / m;
    }
  }

  /** Exclusive OR of two k-bit values is a k-bit value. */
  lemma {:induction false} XorBound(x: nat, y: nat, k: nat)
    requires x < Pow2(k) && y < Pow2(k)
    ensures Xor(x, y) < Pow2(k)
  {
    if k == 0 {
    } else if x == 0 {
    } else if y == 0 {
    } else {
      var m := Pow2(k - 1);
      assert Pow2(k) == 2 * m;
      assert x / 2 < m && y / 2 < m;
      XorBound(x / 2, y / 2, k - 1);
      assert Xor(x, y) <= 2 * Xor(x / 2, y / 2) + 1;
    }
  }

  /** x ^ x == 0. */
  lemma {:induction false} XorSelf(x: nat)
    ensures Xor(x, x) == 0
  {
    if x != 0 {
      XorSelf(x / 2);
    }
  }

  lemma {:induction false} Pow2Monotone(a: nat, b: nat)
    requires a <= b
    ensures Pow2(a) <= Pow2(b)
  {
    if a < b {
      Pow2Monotone(a, b - 1);
    }
  }
}
