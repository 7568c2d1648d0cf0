/** Small facts about products and quotients that several models share. */
module Arith {

  /** A quotient is determined by its defining inequality. */
  lemma QuotientUnique(x: int, d: nat, q: int)
    requires 0 < d && q * d <= x < (q + 1) * d
    ensures x / d == q
  {
    var e := x / d;
    assert x == d * e + x % d;
    if e < q {
      MulMonotone(e + 1, q, d);
    } else if q < e {
      MulMonotone(q + 1, e, d);
    }
  }

  lemma QuotientBounds(x: nat, d: nat)
    requires 0 < d
    ensures x / d * d <= x < (x / d + 1) * d && x / d <= x
  {
    var q := x / d;
    assert x == d * q + x % d;
    MulDistributes(q, 1, d);
    MulMonotone(1, d, q);
  }

  lemma RemainderUnique(x: int, d: nat, q: int, m: nat)
    requires x == q * d + m && m < d
    ensures x / d == q && x % d == m
  {
    QuotientUnique(x, d, q);
  }

  lemma MulAssociates(a: int, b: int, c: int)
    ensures a * b * c == a * (b * c)
  {
  }

  lemma MulMonotone(a: int, b: int, d: nat)
    requires a <= b
    ensures a * d <= b * d
  {
    assert b * d - a * d == (b - a) * d;
  }

  lemma MultipleDivides(k: int, d: nat)
    requires 0 < d
    ensures k * d / d == k && k * d % d == 0
  {
    QuotientUnique(k * d, d, k);
  }

  lemma MulDistributes(a: int, b: int, d: int)
    ensures a * d + b * d == (a + b) * d
    ensures a * d - b * d == (a - b) * d
  {
  }

  /** Shifting left by `lo` within a word of size `hi * lo` keeps the low part. */
  lemma ShiftWithinWord(x: nat, hi: nat, lo: nat)
    requires 0 < hi && 0 < lo
    ensures hi * lo > 0 && x * lo % (hi * lo) == x % hi * lo
  {
    var q, r := x / hi, x % hi;
    MulMonotone(1, hi, lo);
    assert x * lo == q * (hi * lo) + r * lo by {
      assert x == q * hi + r;
      MulDistributes(q * hi, r, lo);
      MulAssociates(q, hi, lo);
    }
    assert r * lo < hi * lo by {
      MulMonotone(r + 1, hi, lo);
      MulDistributes(r, 1, lo);
    }
    RemainderUnique(x * lo, hi * lo, q, r * lo);
  }

  lemma DivDiv(x: nat, a: nat, b: nat)
    requires 0 < a && 0 < b
    ensures a * b > 0 && x / (a * b) == x / a / b
  {
    MulMonotone(1, a, b);
    var m, q := x / a, x / a / b;
    assert x == m * a + x % a;
    assert m == q * b + m % b;
    var rest := m % b * a + x % a;
    assert x == q * (a * b) + rest by {
      MulDistributes(q * b, m % b, a);
      MulAssociates(q, b, a);
    }
    assert rest < a * b by {
      MulMonotone(m % b + 1, b, a);
      MulDistributes(m % b, 1, a);
    }
    RemainderUnique(x, a * b, q, rest);
  }

  /** A digit does not depend on what lies above it. */
  lemma DigitOfRemainder(x: nat, p: nat, q: nat, k: nat)
    requires 0 < p && 0 < q && 0 < k
    ensures p * (q * k) > 0 && x % (p * (q * k)) / p % q == x / p % q
  {
    var n := q * k;
    MulMonotone(1, q, k);
    MulMonotone(1, p, n);
    var a, m := x / (p * n), x % (p * n);
    assert x == a * (p * n) + m;
    assert x == (a * n + m / p) * p + m % p by {
      assert m == m / p * p + m % p;
      MulDistributes(a * n, m / p, p);
      MulAssociates(a, n, p);
    }
    RemainderUnique(x, p, a * n + m / p, m % p);
    var d := m / p;
    assert a * n + d == (a * k + d / q) * q + d % q by {
      assert d == d / q * q + d % q;
      MulDistributes(a * k, d / q, q);
      MulAssociates(a, k, q);
    }
    RemainderUnique(a * n + d, q, a * k + d / q, d % q);
  }
}
