/** Integer division and remainder the way C++ computes them: towards zero. */
module CArith {
  function TruncDiv(a: int, b: int): int
    requires b > 0
  {
    if a >= 0 then a / b else -((-a) / b)
  }

  function TruncMod(a: int, b: int): int
    requires b > 0
  {
    a - TruncDiv(a, b) * b
  }

  /** The remainder keeps the sign of the dividend and stays below the divisor. */
  lemma TruncModRange(a: int, b: int)
    requires b > 0
    ensures a >= 0 ==> 0 <= TruncMod(a, b) < b
    ensures a < 0 ==> -b < TruncMod(a, b) <= 0
  {
    if a >= 0 {
      assert a == (a / b) * b + a % b;
    } else {
      assert -a == ((-a) / b) * b + (-a) % b;
    }
  }

  /** On non-negative operands truncation is floor division. */
  lemma TruncNonNegative(a: int, b: int)
    requires a >= 0 && b > 0
    ensures TruncDiv(a, b) == a / b && TruncMod(a, b) == a % b && a / b >= 0
  {
    assert a == b * (a / b) + a % b;
  }

  /** A quotient is pinned down by any remainder in range. */
  lemma DivUnique(a: int, b: int, q: int, r: int)
    requires 0 <= r < b && a == q * b + r
    ensures a / b == q && a % b == r
  {
    var k := a / b - q;
    assert a == b * (a / b) + a % b;
    assert k * b == r - a % b;
    MulBelow(b, k);
  }

  lemma MulBelow(b: int, k: int)
    requires b > 0
    ensures k >= 1 ==> k * b >= b
    ensures k <= -1 ==> k * b <= -b
  {
  }

  /** Division and remainder of a non-negative number. */
  function Quotient(a: int, b: int): (q: nat)
    requires a >= 0 && b > 0
    ensures q == a / b
  {
    NonNegativeQuotient(a, b);
    a / b
  }

  lemma NonNegativeQuotient(a: int, b: int)
    requires a >= 0 && b > 0
    ensures a / b >= 0
  {
    assert a == b * (a / b) + a % b;
    MulBelow(b, a / b);
  }

  lemma Distribute(n: int, a: int, b: int)
    ensures (n - 1) * (a + b) == (n - 1) * a + (n - 1) * b
    ensures n * a == (n - 1) * a + a
  {
  }

  lemma MulMono(a: int, b: int, k: int)
    requires a <= b && k >= 0
    ensures a * k <= b * k
  {
  }
}
