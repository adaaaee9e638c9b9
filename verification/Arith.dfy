/** The few non-linear integer facts the other modules need. */
module Arith {

  lemma MulMonotone(p: int, x: int, y: int)
    requires p >= 0 && x <= y
    ensures p * x <= p * y
  {
  }

  /** The only multiple of p strictly between -p and p is zero. */
  lemma SmallMultiple(p: int, q: int)
    requires -p < p * q < p
    ensures q == 0
  {
    if q >= 1 {
      MulMonotone(p, 1, q);
    } else if q <= -1 {
      MulMonotone(p, q, -1);
    }
  }

  lemma Times3(p: int, k: int)
    ensures (3 * p) * k == 3 * (p * k)
  {
  }

  lemma UnitMultiples(p: int)
    ensures p * 1 == p && p * 0 == 0 && p * -1 == -p
  {
  }

  /** Quotient and remainder are unique. */
  lemma DivisionIs(a: int, p: int, q: int, r: int)
    requires a == p * q + r && 0 <= r < p
    ensures a / p == q && a % p == r
  {
    var e := a / p - q;
    assert p * e == r - a % p by {
      assert p * e == p * (a / p) - p * q;
    }
    SmallMultiple(p, e);
  }

  /** A multiple of p does not change the Euclidean remainder. */
  lemma ModShift(x: int, p: int, q: int)
    requires p > 0
    ensures (x + p * q) % p == x % p
  {
    assert x + p * q == p * (x / p + q) + x % p by {
      assert p * (x / p + q) == p * (x / p) + p * q;
    }
    DivisionIs(x + p * q, p, x / p + q, x % p);
  }
}
