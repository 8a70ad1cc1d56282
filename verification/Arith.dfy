/** Facts about products, quotients and powers of two that several modules rest on. */
module Arith {

  function Pow2(n: nat): (p: nat)
    ensures p > 0
  {
    if n == 0 then 1 else 2 * Pow2(n - 1)
  }

  function Quotient(x: nat, d: nat): nat
    requires d > 0
  {
    x / d
  }

  lemma QuotientRemainder(x: nat, d: nat)
    requires d > 0
    ensures x == Quotient(x, d) * d + x % d && x % d < d
  {
  }

  lemma AtLeast(k: int, b: nat)
    requires k >= 1
    ensures k * b >= b
  {
    assert (k - 1) * b >= 0;
    assert k * b == (k - 1) * b + b;
  }

  lemma Scales(a: nat, b: nat, c: nat)
    requires a <= b
    ensures a * c <= b * c
  {
    assert (b - a) * c >= 0;
  }

  /** The quotient is the largest number whose product with the divisor is not too large. */
  lemma AtMostQuotient(x: nat, m: nat, d: nat)
    requires d > 0
    ensures x <= Quotient(m, d) <==> x * d <= m
  {
    var top := Quotient(m, d);
    QuotientRemainder(m, d);
    hide Quotient;
    if x <= top {
      Scales(x, top, d);
    } else {
      Scales(top + 1, x, d);
      assert (top + 1) * d == top * d + d;
    }
  }

  /** Quotient and remainder are the only ones. */
  lemma DivMod(a: int, b: nat, q: int, r: int)
    requires b > 0 && a == q * b + r && 0 <= r < b
    ensures a / b == q && a % b == r
  {
    var e := q - a / b;
    assert a == (a / b) * b + a % b;
    assert e * b == a % b - r by {
      assert e * b == q * b - (a / b) * b;
    }
    if e >= 1 { AtLeast(e, b); } else if e <= -1 { AtLeast(-e, b); }
  }
}
