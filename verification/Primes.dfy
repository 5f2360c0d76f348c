/** Powers, divisibility and primality over the integers. */
module Primes {

  function Pow(b: nat, e: nat): nat {
    if e == 0 then 1 else b * Pow(b, e - 1)
  }

  predicate Divides(d: int, n: int) {
    d != 0 && n % d == 0
  }

  predicate Prime(n: int) {
    2 <= n && forall d | 2 <= d < n :: !Divides(d, n)
  }

  lemma MultipleSteps(d: int, x: int)
    requires d > 0
    ensures x >= 1 ==> d * x >= d
    ensures x <= 0 ==> d * x <= 0
    ensures x <= -1 ==> d * x <= -d
  {
    if x >= 1 {
      assert d * (x - 1) >= 0;
    } else if x <= -1 {
      assert d * (-x - 1) >= 0;
    }
  }

  /** Euclidean division has one answer. */
  lemma DivModUnique(n: int, d: int, q: int, r: int)
    requires 0 <= r < d && n == d * q + r
    ensures n / d == q && n % d == r
  {
    var q', r' := n / d, n % d;
    assert d * (q - q') == r' - r by {
      assert n == d * q' + r';
      assert d * (q - q') == d * q - d * q';
    }
    MultipleSteps(d, q - q');
  }

  /** Taking the divisor away once. */
  lemma DivModStep(n: int, d: int)
    requires d > 0
    ensures n / d == (n - d) / d + 1 && n % d == (n - d) % d
  {
    var q, r := (n - d) / d, (n - d) % d;
    assert n - d == d * q + r;
    assert d * (q + 1) == d * q + d;
    DivModUnique(n, d, q + 1, r);
  }

  lemma MultipleIsDivided(d: int, k: int)
    requires d > 0
    ensures Divides(d, d * k) && d * k / d == k
  {
    DivModUnique(d * k, d, k, 0);
  }

  lemma DividesTransitive(a: int, b: int, n: int)
    requires a > 0 && b > 0 && Divides(a, b) && Divides(b, n)
    ensures Divides(a, n)
  {
    var i, j := b / a, n / b;
    assert n == b * j && b == a * i;
    assert n == a * (i * j);
    MultipleIsDivided(a, i * j);
  }

  /** A positive number is no smaller than its positive divisors. */
  lemma DivisorBound(d: int, n: int)
    requires d > 0 && n > 0 && Divides(d, n)
    ensures d <= n && n / d >= 1
  {
    var k := n / d;
    assert n == d * k;
    MultipleSteps(d, k);
  }

  /** Every number above one has a prime factor; for a composite one it is at most the square root. */
  lemma PrimeFactor(n: int) returns (p: int)
    requires n >= 2
    ensures Prime(p) && Divides(p, n) && p <= n
    ensures !Prime(n) ==> p * p <= n
  {
    p := 2;
    while p < n && !Divides(p, n)
      invariant 2 <= p <= n
      invariant forall d | 2 <= d < p :: !Divides(d, n)
    {
      p := p + 1;
    }
    MultipleIsDivided(n, 1);
    forall d | 2 <= d < p
      ensures !Divides(d, p)
    {
      if Divides(d, p) {
        DividesTransitive(d, p, n);
      }
    }
    if p < n {
      LeastFactorIsSmall(n, p);
    }
  }

  /** Euclid's lemma, for a factor already reduced modulo the prime. */
  lemma {:induction false} Euclid(p: int, a: int, b: int)
    requires Prime(p) && 1 <= a < p && Divides(p, a * b)
    ensures Divides(p, b)
    decreases a
  {
    if a > 1 {
      var q, r := p / a, p % a;
      assert !Divides(a, p);
      assert r * b == p * b - q * (a * b) by {
        assert p == q * a + r;
        assert p * b == (q * a + r) * b == q * a * b + r * b;
        assert q * (a * b) == q * a * b;
      }
      var k := a * b / p;
      assert q * (a * b) == p * (q * k) by {
        assert a * b == p * k;
      }
      assert r * b == p * (b - q * k);
      MultipleIsDivided(p, b - q * k);
      Euclid(p, r, b);
    }
  }

  lemma {:induction false} EuclidAny(p: int, a: int, b: int)
    requires Prime(p) && Divides(p, a * b)
    ensures Divides(p, a) || Divides(p, b)
  {
    var q, r := a / p, a % p;
    if r != 0 {
      var k := a * b / p;
      assert r * b == p * (k - q * b) by {
        assert a == p * q + r && a * b == p * k;
        assert (p * q + r) * b == p * (q * b) + r * b;
      }
      MultipleIsDivided(p, k - q * b);
      Euclid(p, r, b);
    }
  }

  /** The only proper factor of the square of a prime is the prime. */
  lemma SquareFactor(p: int, d: int, k: int)
    requires Prime(p) && d > 1 && k > 1 && d * k == p * p
    ensures d == p
  {
    MultipleIsDivided(p, p);
    EuclidAny(p, d, k);
    if Divides(p, d) {
      PrimeCofactor(p, d, k);
    } else {
      assert k * d == p * p;
      PrimeCofactor(p, k, d);
    }
  }

  lemma PrimeCofactor(p: int, d: int, k: int)
    requires Prime(p) && d > 1 && k > 1 && d * k == p * p && Divides(p, d)
    ensures d == p && k == p
  {
    var m := d / p;
    assert d == p * m;
    assert p * (m * k) == p * p;
    MultipleSteps(p, m * k - p);
    MultipleSteps(p, p - m * k);
    assert p * (m * k - p) == p * (m * k) - p * p;
    assert m * k == p;
    MultipleSteps(k, m);
    if m >= 2 {
      MultipleIsDivided(k, m);
      assert k * m == p;
      MultipleSteps(k, m);
    }
  }

  lemma LeastFactorIsSmall(n: int, p: int)
    requires 2 <= p < n && Divides(p, n) && forall d | 2 <= d < p :: !Divides(d, n)
    ensures p * p <= n
  {
    var k := n / p;
    assert n == p * k == k * p;
    DivisorBound(p, n);
    MultipleIsDivided(k, p);
    assert k != 1;
    assert p <= k;
    assert p * (k - p) >= 0;
  }
}
