/** Division by way of products. */
module Arithmetic {

  lemma Divided(x: nat, d: nat) returns (q: nat, r: nat)
    requires d > 0
    ensures q == x / d && r < d && x == d * q + r
  {
    q, r := x / d, x % d;
  }

  lemma ProductGap(d: nat, a: nat, b: nat)
    requires a < b
    ensures d * b >= d * a + d
  {
    var k := b - a - 1;
    assert d * b == d * a + d + d * k;
  }

  /** Products ascend in their factor. */
  lemma Scaled(d: nat, a: nat, b: nat)
    requires a <= b
    ensures d * a <= d * b
  {
    if a < b {
      ProductGap(d, a, b);
    }
  }

  /** A quotient is determined by its remainder being small enough. */
  lemma DivideExactly(x: nat, d: nat, q: nat, r: nat)
    requires d > 0 && r < d && x == d * q + r
    ensures x / d == q
  {
    var q' := x / d;
    assert x == d * q' + x % d;
    if q' < q {
      ProductGap(d, q', q);
    } else if q < q' {
      ProductGap(d, q, q');
    }
  }
}
