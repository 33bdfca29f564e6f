/** Facts about division and products that the solver needs in small pieces. */
module Arith {

  // The values of a size_t of 32 bits.
  const SIZE_T_RANGE := 0x1_0000_0000

  function Abs(a: int): (r: int)
    ensures r >= 0
  {
    if a < 0 then -a else a
  }

  lemma AtLeast(n: int, d: int)
    requires n >= 1 && d > 0
    ensures n * d >= d
  {
  }

  lemma NonNegative(a: int, b: int)
    requires a >= 0 && b >= 0
    ensures a * b >= 0
  {
  }

  lemma Monotone(a: int, b: int, d: int)
    requires a <= b && d >= 0
    ensures a * d <= b * d
  {
  }

  lemma UniqueQuotient(q: int, r: int, p: int, s: int, d: int)
    requires 0 <= r < d && 0 <= s < d && q * d + r == p * d + s
    ensures q == p && r == s
  {
    assert (q - p) * d == q * d - p * d;
    assert (p - q) * d == p * d - q * d;
    if q > p {
      AtLeast(q - p, d);
    } else if q < p {
      AtLeast(p - q, d);
    }
  }

  lemma Fundamental(a: int, d: int)
    requires d > 0
    ensures a == a / d * d + a % d && 0 <= a % d < d
  {
  }

  // The quotient and the remainder are what they are written as.
  lemma DivMod(q: int, r: int, d: int)
    requires 0 <= r < d
    ensures (q * d + r) / d == q && (q * d + r) % d == r
  {
    var a := q * d + r;
    Fundamental(a, d);
    UniqueQuotient(q, r, a / d, a % d, d);
  }

  lemma QuotientNonNegative(a: int, d: int)
    requires a >= 0 && d > 0
    ensures a / d >= 0
  {
  }

  lemma Associate(a: int, b: int, c: int)
    ensures a * b * c == a * (b * c)
  {
  }

  lemma Distribute(a: int, b: int, d: int)
    ensures (a + b) * d == a * d + b * d
  {
  }
}
