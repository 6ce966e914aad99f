/** Products and quotients, in small steps. */
module Division {
  lemma Product(a: int, b: int)
    requires a >= 0 && b >= 0
    ensures a * b >= 0
  {
  }

  /** One more of a factor is one more of the other in the product. */
  lemma Successor(a: int, m: int)
    ensures (a + 1) * m == a * m + m && m * (a + 1) == m * a + m
  {
  }

  /** A greater factor makes the product greater by at least the other factor. */
  lemma Factor(a: int, b: int, m: int)
    requires a < b && m >= 1
    ensures a * m + m <= b * m && (a + 1) * m <= b * m
  {
    Product(b - a - 1, m);
    assert b * m == a * m + m + (b - a - 1) * m;
    Successor(a, m);
  }

  lemma Monotone(a: int, b: int, m: int)
    requires a <= b && m >= 0
    ensures a * m <= b * m
  {
    Product(b - a, m);
    assert b * m == a * m + (b - a) * m;
  }

  lemma Distribute(a: int, b: int, m: int)
    ensures (a - b) * m == a * m - b * m
  {
  }

  lemma Associate(a: int, b: int, c: int)
    ensures a * (b * c) == (a * c) * b == (a * b) * c
  {
  }

  lemma Split(a: int, b: int)
    requires b >= 1
    ensures a == (a / b) * b + a % b && 0 <= a % b < b
    ensures a >= 0 ==> a / b >= 0 && (a >= b ==> a / b >= 1)
  {
  }

  /** Euclidean division has only one quotient and remainder. */
  lemma QuotientIs(x: int, d: int, q: int, r: int)
    requires d > 0 && 0 <= r < d && x == q * d + r
    ensures x / d == q && x % d == r
  {
    Split(x, d);
    if x / d > q {
      Factor(q, x / d, d);
    } else if x / d < q {
      Factor(x / d, q, d);
    }
  }
}
