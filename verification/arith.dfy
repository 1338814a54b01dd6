/**
 * Facts about Euclidean `/` and `%` with a variable divisor, which the
 * solver does not find on its own. Used by the ring-buffer slot arithmetic
 * and the column stepping of the despeckle filter, and by the bump-map
 * offset normalisation.
 */
module Arith {

  lemma MulAtLeast(d: int, m: int)
    requires d >= 1 && m > 0
    ensures d * m >= m
  {
    var e := d - 1;
    assert d * m == e * m + m;
    assert e * m >= 0;
  }

  /** Quotient and remainder are unique. */
  lemma DivModUnique(n: int, m: int, q: int, r: int)
    requires m > 0 && 0 <= r < m && n == q * m + r
    ensures n % m == r && n / m == q
  {
    var q', r' := n / m, n % m;
    assert n == q' * m + r';
    assert (q' - q) * m == r - r' by {
      assert (q' - q) * m == q' * m - q * m;
    }
    if q' > q {
      MulAtLeast(q' - q, m);
    } else if q' < q {
      assert (q - q') * m == -((q' - q) * m);
      MulAtLeast(q - q', m);
    }
  }

  lemma ModAddMultiple(a: int, k: int, m: int)
    requires m > 0
    ensures (a + k * m) % m == a % m
  {
    assert a == (a / m) * m + a % m;
    assert a + k * m == (a / m + k) * m + a % m;
    DivModUnique(a + k * m, m, a / m + k, a % m);
  }

  /** A value in [0, m) is its own remainder. */
  lemma ModSmall(a: int, m: int)
    requires 0 <= a < m
    ensures a % m == a && a / m == 0
  {
    DivModUnique(a, m, 0, a);
  }

  /** Two different values closer than `m` have different remainders. */
  lemma ModInjective(a: int, b: int, m: int)
    requires m > 0 && a != b && -m < a - b < m
    ensures a % m != b % m
  {
    if a % m == b % m {
      assert a == (a / m) * m + a % m;
      assert b == (b / m) * m + b % m;
      assert a - b == (a / m - b / m) * m;
      if a / m > b / m {
        MulAtLeast(a / m - b / m, m);
      } else {
        assert b - a == (b / m - a / m) * m;
        MulAtLeast(b / m - a / m, m);
      }
    }
  }

  /** Advancing a remainder by one and wrapping at `m` follows the value. */
  lemma ModStep(a: int, m: int)
    requires m > 0
    ensures (a % m + 1) % m == (a + 1) % m
  {
    assert a == (a / m) * m + a % m;
    if a % m + 1 < m {
      ModSmall(a % m + 1, m);
      DivModUnique(a + 1, m, a / m, a % m + 1);
    } else {
      ModSmall(0, m);
      DivModUnique(a + 1, m, a / m + 1, 0);
    }
  }

  /** Multiplying by a non-negative factor keeps an order. */
  lemma MulMonotone(a: int, b: int, c: int)
    requires a >= 0 && b <= c
    ensures a * b <= a * c
  {
    assert a * c - a * b == a * (c - b);
  }

  /** Adding to a remainder and wrapping at `m` follows the sum. */
  lemma ModAddRemainder(a: int, k: int, m: int)
    requires m > 0
    ensures (a % m + k) % m == (a + k) % m
  {
    assert a % m + k == (a + k) + (-(a / m)) * m by {
      assert a == (a / m) * m + a % m;
    }
    ModAddMultiple(a + k, -(a / m), m);
  }

  /** Squares of non-negative numbers keep their order. */
  lemma SquareMonotone(a: int, b: int)
    requires 0 <= a <= b
    ensures a * a <= b * b
  {
    MulMonotone(a, a, b);
    MulMonotone(b, a, b);
  }

  /** Dividing twice is dividing by the product. */
  lemma DivDiv(a: int, m: int, n: int)
    requires a >= 0 && m > 0 && n > 0
    ensures a / m / n == a / (m * n)
  {
    var q, r := a / m, a % m;
    var q2, r2 := q / n, q % n;
    assert a == q2 * (m * n) + (r2 * m + r) by {
      assert a == q * m + r;
      assert q == q2 * n + r2;
      assert q * m == q2 * (m * n) + r2 * m;
    }
    assert r2 * m + r < m * n by {
      MulMonotone(m, r2, n - 1);
      assert m * (n - 1) == m * n - m;
    }
    assert r2 * m >= 0;
    DivModUnique(a, m * n, q2, r2 * m + r);
  }

  /** Dividing keeps an order. */
  lemma DivMonotone(a: int, b: int, m: int)
    requires a <= b && m > 0
    ensures a / m <= b / m
  {
    assert a == (a / m) * m + a % m;
    assert b == (b / m) * m + b % m;
    if a / m > b / m {
      assert (a / m - b / m) * m == (a / m) * m - (b / m) * m;
      MulAtLeast(a / m - b / m, m);
    }
  }
}
