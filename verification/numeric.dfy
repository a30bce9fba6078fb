/** Integer division as Rust and chrono do it: the quotient is truncated toward
    zero and the remainder takes the sign of the dividend. (Dafny's own `/` and
    `%` are Euclidean: its remainder is never negative.) */
module Numeric {

  /** An unsigned 8-bit value. */
  type u8 = x: int | 0 <= x < 256

  function Max(a: int, b: int): int { if a >= b then a else b }

  function Min(a: int, b: int): int { if a <= b then a else b }

  /** Quotient truncated toward zero. */
  function TDiv(a: int, b: int): (q: int)
    requires b > 0
    ensures a >= 0 ==> 0 <= q && b * q <= a < b * q + b
    ensures a < 0 ==> q <= 0 && b * q - b < a <= b * q
  {
    if a >= 0 then
      FloorBounds(a, b);
      a / b
    else
      FloorBounds(-a, b);
      NegatedProduct(b, (-a) / b);
      -((-a) / b)
  }

  /** Dafny's division of a non-negative number by a positive one. */
  lemma FloorBounds(a: int, b: int)
    requires a >= 0 && b > 0
    ensures 0 <= a / b && b * (a / b) <= a < b * (a / b) + b
  {
    var q, r := a / b, a % b;
    assert a == b * q + r;
  }

  lemma NegatedProduct(b: int, p: int)
    ensures b * -p == -(b * p)
  {
  }

  /** Remainder with the sign of the dividend, so that a == b * TDiv(a, b) + TMod(a, b). */
  function TMod(a: int, b: int): (r: int)
    requires b > 0
    ensures a == b * TDiv(a, b) + r
    ensures a >= 0 ==> 0 <= r < b
    ensures a < 0 ==> -b < r <= 0
  {
    a - b * TDiv(a, b)
  }

  /** Truncating twice is truncating once by the product. */
  lemma {:induction false} TDivTDiv(a: int, b: int, c: int)
    requires b > 0 && c > 0
    ensures TDiv(TDiv(a, b), c) == TDiv(a, b * c)
  {
    if a >= 0 {
      NonNegDivDiv(a, b, c);
    } else {
      NonNegDivDiv(-a, b, c);
    }
  }

  lemma NonNegDivDiv(a: int, b: int, c: int)
    requires a >= 0 && b > 0 && c > 0
    ensures (a / b) / c == a / (b * c)
  {
    var q, r := a / b, a % b;
    var q2, r2 := q / c, q % c;
    assert a == b * q + r;
    assert q == c * q2 + r2;
    Regroup(b, c, q2, r2);
    RemainderBound(b, c, r2);
    DivUnique(a, b * c, q2, b * r2 + r);
  }

  lemma Regroup(b: int, c: int, q: int, r: int)
    ensures b * (c * q + r) == (b * c) * q + b * r
  {
  }

  lemma RemainderBound(b: int, c: int, r: int)
    requires b > 0 && 0 <= r < c
    ensures 0 <= b * r && b * r + b <= b * c
  {
    assert b * r + b == b * (r + 1);
  }

  lemma DivUnique(a: int, d: int, q: int, r: int)
    requires d > 0 && 0 <= r < d && a == d * q + r
    ensures a / d == q
  {
    var q0, r0 := a / d, a % d;
    assert d * (q0 - q) == r - r0;
    ScaledAtLeastOne(d, q0 - q);
  }

  /** Adding to a number and to its remainder leaves the same remainder. */
  lemma ModShift(a: int, d: int, n: int)
    requires n > 0
    ensures (a + d) % n == (a % n + d) % n
  {
    var r := a % n + d;
    assert a + d == n * (a / n + r / n) + r % n;
    DivUnique(a + d, n, a / n + r / n, r % n);
  }

  lemma ScaledAtLeastOne(d: int, x: int)
    requires d > 0
    ensures x >= 1 ==> d * x >= d
    ensures x <= -1 ==> d * x <= -d
  {
  }

  /** Dividends smaller in magnitude than the divisor truncate to zero and remain whole. */
  lemma TDivSmall(a: int, b: int)
    requires b > 0 && -b < a < b
    ensures TDiv(a, b) == 0 && TMod(a, b) == a
  {
  }
}
