/**
 * JavaScript's bitwise operators `|`, `&`, `>>` and `<<` on the small
 * non-negative numbers the UTF-8 encoder feeds them (all below 2^21, so the
 * 32-bit conversion JavaScript applies first changes nothing).
 */
module Bits {

  function Pow2(k: nat): (r: nat)
    ensures r >= 1
  {
    if k == 0 then 1 else 2 * Pow2(k - 1)
  }

  lemma Pow2Values()
    ensures Pow2(3) == 8 && Pow2(4) == 16 && Pow2(6) == 64 && Pow2(10) == 1024
    ensures Pow2(12) == 4096 && Pow2(18) == 262144
  {
  }

  /** `a | b`, bit by bit from the least significant bit. */
  function Or(a: nat, b: nat): nat
    decreases a + b
  {
    if a == 0 then b
    else if b == 0 then a
    else 2 * Or(a / 2, b / 2) + (if a % 2 == 1 || b % 2 == 1 then 1 else 0)
  }

  /** `a & b`, bit by bit from the least significant bit. */
  function And(a: nat, b: nat): nat
    decreases a + b
  {
    if a == 0 || b == 0 then 0
    else 2 * And(a / 2, b / 2) + (if a % 2 == 1 && b % 2 == 1 then 1 else 0)
  }

  /** `a >> k` for a non-negative `a`. */
  function Shr(a: nat, k: nat): nat {
    QuotientNonNegative(a, Pow2(k));
    a / Pow2(k)
  }

  lemma QuotientNonNegative(a: nat, d: int)
    requires d >= 1
    ensures a / d >= 0
  {
  }

  /** `a << k` for a result below 2^31. */
  function Shl(a: nat, k: nat): nat {
    a * Pow2(k)
  }

  /** Or-ing a value into the free low `k` bits of another adds the two. */
  lemma {:induction false} OrLowBits(a: nat, b: nat, k: nat)
    requires b < Pow2(k)
    ensures Or(a * Pow2(k), b) == a * Pow2(k) + b
    decreases k
  {
    if k > 0 && a != 0 && b != 0 {
      var h := a * Pow2(k - 1);
      assert a * Pow2(k) == 2 * h;
      assert (2 * h) / 2 == h && (2 * h) % 2 == 0;
      OrLowBits(a, b / 2, k - 1);
      assert Or(2 * h, b) == 2 * Or(h, b / 2) + b % 2;
    }
  }

  /** `a | b` is `a + b` when `b` fits below the lowest set bit of `a`. */
  lemma OrDisjoint(a: nat, b: nat, k: nat)
    requires a % Pow2(k) == 0 && b < Pow2(k)
    ensures Or(a, b) == a + b
  {
    var q := a / Pow2(k);
    assert a == q * Pow2(k);
    OrLowBits(q, b, k);
  }

  /** Euclidean division is unique: a quotient and remainder in range are the ones `/` and `%` give. */
  lemma DivModUnique(x: int, d: int, q: int, r: int)
    requires d > 0 && 0 <= r < d && x == d * q + r
    ensures x / d == q && x % d == r
  {
    var q', r' := x / d, x % d;
    assert x == d * q' + r';
    assert d * (q - q') == r' - r;
    if q > q' {
      assert d * (q - q') >= d by { MulAtLeast(d, q - q'); }
    } else if q < q' {
      assert d * (q' - q) >= d by { MulAtLeast(d, q' - q); }
    }
  }

  lemma MulAtLeast(d: int, n: int)
    requires d > 0 && n >= 1
    ensures d * n >= d
  {
  }

  lemma ModHalf(x: nat, m: nat)
    requires m >= 1
    ensures x % (2 * m) == 2 * ((x / 2) % m) + x % 2
  {
    var q := (x / 2) / m;
    var r := (x / 2) % m;
    assert x / 2 == m * q + r;
    assert x == 2 * (x / 2) + x % 2;
    assert x == (2 * m) * q + (2 * r + x % 2);
    DivModUnique(x, 2 * m, q, 2 * r + x % 2);
  }

  /** Masking with `2^k - 1` keeps the low `k` bits: `x & (2^k - 1) == x % 2^k`. */
  lemma {:induction false} AndLowMask(x: nat, k: nat)
    ensures And(x, Pow2(k) - 1) == x % Pow2(k)
    decreases k
  {
    if k == 0 {
      assert Pow2(k) == 1;
      DivModUnique(x, 1, x, 0);
    } else if x == 0 {
      DivModUnique(0, Pow2(k), 0, 0);
    } else {
      var m := Pow2(k - 1);
      var mask := Pow2(k) - 1;
      assert Pow2(k) == 2 * m;
      assert mask == 2 * (m - 1) + 1;
      DivModUnique(mask, 2, m - 1, 1);
      assert And(x, mask) == 2 * And(x / 2, m - 1) + x % 2;
      AndLowMask(x / 2, k - 1);
      assert And(x / 2, m - 1) == (x / 2) % m;
      ModHalf(x, m);
      assert And(x, mask) == x % (2 * m);
    }
  }
}
