/**
 * Bit-level arithmetic on unbounded naturals.
 *
 * The backend builds and reads back literal words with `|`, `<<`, `>>` and
 * `&`. The model keeps every value as a natural number: a left shift by k is a
 * multiplication by Pow2(k), a right shift a division, a mask with 2^k - 1 a
 * remainder, and `|` is BitOr below, defined bit by bit.
 */
module Bits {

  function Pow2(k: nat): (r: nat)
    ensures r >= 1
  {
    if k == 0 then 1 else 2 * Pow2(k - 1)
  }

  lemma {:induction false} Pow2Add(a: nat, b: nat)
    ensures Pow2(a + b) == Pow2(a) * Pow2(b)
  {
    if a > 0 {
      Pow2Add(a - 1, b);
      assert Pow2(a + b) == 2 * Pow2(a - 1 + b);
    }
  }

  /** Bitwise OR of two naturals: the low bits are combined, the rest recursively. */
  function BitOr(a: nat, b: nat): nat
    decreases a + b
  {
    if a == 0 then b
    else if b == 0 then a
    else (if a % 2 == 1 || b % 2 == 1 then 1 else 0) + 2 * BitOr(a / 2, b / 2)
  }

  lemma MulAtLeast(m: int, k: int)
    requires m > 0 && k >= 1
    ensures m * k >= m
  {
    assert m * k == m + m * (k - 1);
  }

  /** Euclidean division is determined by any quotient/remainder pair. */
  lemma DivModUnique(x: int, m: int, q: int, r: int)
    requires m > 0 && 0 <= r < m && x == m * q + r
    ensures x / m == q && x % m == r
  {
    var q', r' := x / m, x % m;
    assert x == m * q' + r';
    assert m * (q - q') == r' - r;
    if q > q' {
      MulAtLeast(m, q - q');
    } else if q < q' {
      MulAtLeast(m, q' - q);
    }
  }

  lemma MulMod(m: int, q: int)
    requires m > 0
    ensures (m * q) % m == 0 && (m * q) / m == q
  {
    DivModUnique(m * q, m, q, 0);
  }

  lemma HalfOfMultiple(b: nat, m: nat)
    requires m >= 1
    requires b % (2 * m) == 0
    ensures b % 2 == 0
    ensures (b / 2) % m == 0
  {
    var q := b / (2 * m);
    assert b == (2 * m) * q;
    assert b == 2 * (m * q);
    DivModUnique(b, 2, m * q, 0);
    MulMod(m, q);
  }

  /**
   * OR of two naturals whose set bits do not overlap — `a` below bit k and `b`
   * a multiple of 2^k — is their sum.
   */
  lemma {:induction false} BitOrDisjoint(a: nat, b: nat, k: nat)
    requires a < Pow2(k)
    requires b % Pow2(k) == 0
    ensures BitOr(a, b) == a + b
  {
    if a != 0 && b != 0 {
      assert k > 0;
      HalfOfMultiple(b, Pow2(k - 1));
      BitOrDisjoint(a / 2, b / 2, k - 1);
    }
  }

  lemma MultipleOfPow2(c: nat, k: nat)
    ensures (c * Pow2(k)) % Pow2(k) == 0
  {
    var p := Pow2(k);
    MulMod(p, c);
    assert c * p == p * c;
  }

  /** Dividing by a and then by b is dividing by a * b. */
  lemma DivDiv(x: nat, a: nat, b: nat)
    requires a > 0 && b > 0
    ensures (x / a) / b == x / (a * b)
  {
    var q1, r1 := x / a, x % a;
    var q2, r2 := q1 / b, q1 % b;
    assert x == a * (b * q2 + r2) + r1;
    assert x == (a * b) * q2 + (a * r2 + r1);
    assert a * r2 + r1 < a * b by {
      assert r2 <= b - 1;
      MulAtMost(a, r2, b - 1);
    }
    DivModUnique(x, a * b, q2, a * r2 + r1);
  }

  lemma MulAtMost(a: nat, x: nat, y: nat)
    requires x <= y
    ensures a * x <= a * y
  {
    if x < y {
      MulAtLeast(a + 1, y - x);
    }
  }
}
