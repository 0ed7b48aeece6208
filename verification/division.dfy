/** Facts about multiplication and floor division by a positive divisor, used by the bucket and chunk arithmetic. */
module Division {

  /** A positive number taken at least once is at least itself. */
  lemma {:induction false} MulAtLeast(d: int, k: int)
    requires d > 0 && k >= 1
    ensures d * k >= d
  {
    if k > 1 {
      MulAtLeast(d, k - 1);
      assert d * k == d * (k - 1) + d;
    }
  }

  /** Division by a positive divisor never reverses the order of two values. */
  lemma DivMonotone(x: int, y: int, d: int)
    requires x <= y && d > 0
    ensures x / d <= y / d
  {
    var qx, qy := x / d, y / d;
    if qx > qy {
      MulAtLeast(d, qx - qy);
      assert false;
    }
  }

  /** The quotient is the only multiplier that leaves a remainder in [0, d). */
  lemma DivUnique(n: int, d: int, q: int, r: int)
    requires d > 0 && 0 <= r < d && n == q * d + r
    ensures n / d == q
  {
    var q' := n / d;
    if q' > q {
      MulAtLeast(d, q' - q);
      assert false;
    } else if q' < q {
      MulAtLeast(d, q - q');
      assert false;
    }
  }

  /** Multiplying both sides by a non-negative factor keeps their order. */
  lemma MulMonotone(a: int, b: int, c: int)
    requires a <= b && c >= 0
    ensures a * c <= b * c
  {
    if a < b && c > 0 {
      MulAtLeast(c, b - a);
      assert b * c - a * c == c * (b - a);
    }
  }
}
