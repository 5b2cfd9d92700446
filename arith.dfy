/** Facts about integer multiplication and Euclidean division that the fee
    arithmetic relies on. Only non-negative or positive divisors occur. */
module Arith {

  /** For a positive divisor, division is characterised by quotient and remainder. */
  lemma DivUnique(a: int, b: int, q: int, r: int)
    requires b > 0 && a == b * q + r && 0 <= r < b
    ensures a / b == q && a % b == r
  {
    var q0, r0 := a / b, a % b;
    assert a == b * q0 + r0 && 0 <= r0 < b;
    if q0 < q {
      assert b * (q0 + 1) == b * q0 + b;
      MulMonotone(b, q0 + 1, q);
    } else if q < q0 {
      assert b * (q + 1) == b * q + b;
      MulMonotone(b, q + 1, q0);
    }
  }

  lemma MulMonotone(b: int, x: int, y: int)
    requires b >= 0 && x <= y
    ensures b * x <= b * y
  {
    assert b * y - b * x == b * (y - x);
  }

  /** The quotient reaches a bound exactly when the dividend reaches bound times divisor. */
  lemma DivAtLeast(m: int, g: int, k: int)
    requires g > 0
    ensures m / g >= k <==> m >= k * g
  {
    var q, r := m / g, m % g;
    assert m == g * q + r && 0 <= r < g;
    if q >= k {
      MulMonotone(g, k, q);
      assert k * g == g * k;
    } else {
      assert g * (q + 1) == g * q + g;
      assert k * g == g * k;
      MulMonotone(g, q + 1, k);
    }
  }

  /** Multiplying by a positive number and dividing again gives the number back. */
  lemma MulDivCancel(c: int, g: int)
    requires g > 0
    ensures (c * g) / g == c
  {
    DivUnique(c * g, g, c, 0);
  }
}
