/** Facts about products and quotients of numbers that are not constants: how a product grows, and
    that a quotient with its remainder is unique. Bounds on sizes and positions need them. */
module Arithmetic {
  lemma Quotient(a: int, b: nat, q: nat, r: nat)
    requires a == b * q + r && r < b
    ensures 0 <= a && a / b == q
  {
    var k, m := a / b, a % b;
    assert a == b * k + m && 0 <= m < b;
    if k < q {
      MulMonotone(b, k + 1, q);
    } else if q < k {
      MulMonotone(b, q + 1, k);
    }
  }

  lemma MulMonotone(b: nat, x: int, y: int)
    requires x <= y
    ensures b * x <= b * y && b * x == b * (x - 1) + b
  {}

  lemma MulStep(n: nat, k: int)
    ensures k * n == n + (k - 1) * n
  {}

  lemma ZeroTimes(n: nat)
    ensures 0 * n == 0
  {}

  lemma Nonnegative(a: nat, b: nat)
    ensures 0 <= a * b
  {}

  /** Division as in C, towards zero. */
  function TruncDiv(a: int, b: int): int
    requires 0 < b
  {
    if a >= 0 then a / b else -(-a / b)
  }
}
