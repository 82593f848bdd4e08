/** The int64 of Go, and facts about integer products and division that the solver needs told. */
module Arithmetic {

  const MIN_INT64 := -0x8000_0000_0000_0000
  const MAX_INT64 := 0x7fff_ffff_ffff_ffff

  /** Go's int64 multiplication and addition wrap around. */
  function Wrap64(x: int): (r: int)
    ensures MIN_INT64 <= r <= MAX_INT64
    ensures MIN_INT64 <= x <= MAX_INT64 ==> r == x
  {
    (x - MIN_INT64) % 0x1_0000_0000_0000_0000 + MIN_INT64
  }

  /** Go's integer division truncates toward zero. */
  function TruncDiv(a: int, b: int): int
    requires b > 0
  {
    if a >= 0 then a / b else -(-a / b)
  }

  /** A wrapped number differs from the exact one by a multiple of 2^64. */
  lemma Wrap64Exactly(x: int)
    ensures -9_223_372_036_854_775_808 <= Wrap64(x) <= 9_223_372_036_854_775_807
    ensures (x - Wrap64(x)) % 18_446_744_073_709_551_616 == 0
  {
    var m := 18_446_744_073_709_551_616;
    var y := x - MIN_INT64;
    assert x - Wrap64(x) == y - y % m == (y / m) * m;
  }

  /** The quotient is rounded toward zero, for dividends of either sign. */
  lemma TruncDivExactly(a: int, b: int)
    requires b > 0
    ensures var q := TruncDiv(a, b);
      && (a >= 0 ==> q * b <= a < q * b + b)
      && (a <= 0 ==> q * b - b < a <= q * b)
  {
    var p := if a >= 0 then a / b else -a / b;
    assert (-p) * b == -(p * b);
  }

  lemma NotNegative(k: nat, d: nat)
    ensures k * d >= 0
  {}

  lemma MulLess(a: int, b: int, d: int)
    requires a < b && d >= 0
    ensures a * d + d <= b * d
  {
    var k := b - a - 1;
    NotNegative(k, d);
    assert (a + 1 + k) * d == a * d + d + k * d;
  }

  lemma DivBounds(x: int, d: int)
    requires d > 0
    ensures (x / d) * d <= x < (x / d) * d + d
  {}

  /** Division by d > 0 is the only q with q * d <= x < q * d + d. */
  lemma DivIs(x: int, d: int, q: int)
    requires d > 0 && q * d <= x < q * d + d
    ensures x / d == q
  {
    DivBounds(x, d);
    if x / d < q {
      MulLess(x / d, q, d);
    } else if x / d > q {
      MulLess(q, x / d, d);
    }
  }

  lemma DivMono(x: int, y: int, d: int)
    requires d > 0 && x <= y
    ensures x / d <= y / d
  {
    DivBounds(x, d);
    DivBounds(y, d);
    if x / d > y / d {
      MulLess(y / d, x / d, d);
    }
  }
}
