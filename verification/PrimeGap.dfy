/** A prime between an odd number q and about half its square. The Sundaram sieve gives up its last
    claim, and only the existence of such a prime keeps that claim from mattering. The proof compares
    a central binomial coefficient with the common multiple that would bound it if no prime lay in
    the gap. */
module PrimeGap {
  import opened Primes

  function Choose(n: nat, k: nat): nat {
    if k == 0 then 1 else if n == 0 then 0 else Choose(n - 1, k - 1) + Choose(n - 1, k)
  }

  lemma Regroup(x: int, y: int, z: int)
    ensures x * (y * z) == x * y * z
  {
  }

  lemma Exchange(m: int, x: int, y: int)
    ensures 2 * m * (x * y) == (2 * x) * (m * y)
  {
    Regroup(2 * m, x, y);
    Regroup(2 * x, m, y);
  }

  // Powers

  lemma {:induction false} PowPositive(b: nat, e: nat)
    requires b > 0
    ensures Pow(b, e) > 0
  {
    if e > 0 {
      PowPositive(b, e - 1);
      MultipleSteps(b, Pow(b, e - 1));
    }
  }

  lemma {:induction false} PowAdd(b: nat, x: nat, y: nat)
    ensures Pow(b, x + y) == Pow(b, x) * Pow(b, y)
  {
    if x > 0 {
      PowAdd(b, x - 1, y);
      Regroup(b, Pow(b, x - 1), Pow(b, y));
    }
  }

  lemma {:induction false} PowPow(b: nat, x: nat, y: nat)
    ensures Pow(b, x * y) == Pow(Pow(b, x), y)
  {
    if y > 0 {
      assert x * y == x + x * (y - 1);
      PowAdd(b, x, x * (y - 1));
      PowPow(b, x, y - 1);
    }
  }

  lemma MulMonotone(a: nat, b: nat, c: nat, d: nat)
    requires a <= b && c <= d
    ensures a * c <= b * d
  {
    assert (b - a) * c >= 0;
    assert b * (d - c) >= 0;
  }

  lemma {:induction false} PowMonotone(a: nat, b: nat, e: nat)
    requires a <= b
    ensures Pow(a, e) <= Pow(b, e)
  {
    if e > 0 {
      PowMonotone(a, b, e - 1);
      MulMonotone(a, b, Pow(a, e - 1), Pow(b, e - 1));
    }
  }

  lemma {:induction false} PowOfDouble(m: nat, e: nat)
    ensures Pow(2 * m, e) == Pow(2, e) * Pow(m, e)
  {
    if e > 0 {
      PowOfDouble(m, e - 1);
      Exchange(m, Pow(2, e - 1), Pow(m, e - 1));
    }
  }

  /** 4^i outgrows 4 i (i + 1) from i = 3 on. */
  lemma {:induction false} FourPowersGrow(i: nat)
    requires i >= 3
    ensures Pow(4, i) >= 4 * (i * (i + 1))
  {
    if i == 3 {
      assert Pow(4, 3) == 4 * Pow(4, 2) == 16 * Pow(4, 1) == 64 * Pow(4, 0);
    } else {
      FourPowersGrow(i - 1);
      assert 4 * ((i - 1) * i) >= i * (i + 1) by {
        assert 4 * ((i - 1) * i) - i * (i + 1) == i * (3 * i - 5);
        MulMonotone(0, i, 0, 3 * i - 5);
      }
    }
  }

  // Binomial coefficients

  lemma {:induction false} ChooseTooMany(n: nat, k: nat)
    requires k > n
    ensures Choose(n, k) == 0
  {
    if n > 0 {
      ChooseTooMany(n - 1, k - 1);
      ChooseTooMany(n - 1, k);
    }
  }

  lemma {:induction false} ChooseSymmetric(a: nat, b: nat)
    ensures Choose(a + b, a) == Choose(a + b, b)
  {
    if a == 0 || b == 0 {
      ChooseAll(a + b);
    } else {
      ChooseSymmetric(a - 1, b);
      ChooseSymmetric(a, b - 1);
    }
  }

  lemma {:induction false} ChooseAll(n: nat)
    ensures Choose(n, n) == 1
  {
    if n > 0 {
      ChooseAll(n - 1);
      ChooseTooMany(n - 1, n);
    }
  }

  lemma {:induction false} Absorption(n: nat, k: nat)
    requires n >= 1
    ensures (k + 1) * Choose(n, k + 1) == n * Choose(n - 1, k)
  {
    if n == 1 {
      assert Choose(1, k + 1) == Choose(0, k) + Choose(0, k + 1);
    } else {
      Absorption(n - 1, k);
      var x := if k == 0 then 0 else Choose(n - 2, k - 1);
      if k > 0 {
        Absorption(n - 1, k - 1);
      }
      AbsorptionStep(n, k, Choose(n - 1, k), Choose(n - 1, k + 1), x, Choose(n - 2, k));
    }
  }

  lemma AbsorptionStep(n: int, k: int, a: int, b: int, x: int, y: int)
    requires k * a == (n - 1) * x && (k + 1) * b == (n - 1) * y && a == x + y
    ensures (k + 1) * (a + b) == n * a
  {
    assert (n - 1) * a == (n - 1) * x + (n - 1) * y;
  }

  lemma {:induction false} CentralGrows(m: nat)
    requires m >= 1
    ensures 2 * (m * Choose(2 * m, m)) >= Pow(4, m)
  {
    if m == 1 {
      assert Choose(2, 1) == Choose(1, 0) + Choose(1, 1);
      assert Choose(1, 1) == Choose(0, 0) + Choose(0, 1);
      assert Pow(4, 1) == 4 * Pow(4, 0);
    } else {
      CentralGrows(m - 1);
      CentralStep(m - 1);
      assert Pow(4, m) == 4 * Pow(4, m - 1);
    }
  }

  lemma CentralStep(h: nat)
    ensures (h + 1) * Choose(2 * (h + 1), h + 1) == 4 * (h * Choose(2 * h, h)) + 2 * Choose(2 * h, h)
  {
    var c, d, e := Choose(2 * h, h), Choose(2 * h + 1, h), Choose(2 * h + 2, h + 1);
    Absorption(2 * h + 2, h);
    ChooseSymmetric(h, h + 1);
    Absorption(2 * h + 1, h);
    CentralArithmetic(h, c, d, e);
  }

  lemma CentralArithmetic(h: nat, c: nat, d: nat, e: nat)
    requires (h + 1) * e == (2 * h + 2) * d && (h + 1) * d == (2 * h + 1) * c
    ensures (h + 1) * e == 4 * (h * c) + 2 * c
  {
    assert (2 * h + 1) * c == 2 * (h * c) + c;
    assert (2 * h + 2) * d == 2 * ((h + 1) * d);
  }

  /** Nair's divisibility: a common multiple of 1..n is a multiple of m C(n, m). */
  lemma {:induction false} CommonMultiple(l: int, n: nat, m: nat) returns (x: int)
    requires 1 <= m <= n
    requires forall k | 1 <= k <= n :: Divides(k, l)
    ensures x * (m * Choose(n, m)) == l
    decreases m
  {
    if m == 1 {
      Absorption(n, 0);
      assert Divides(n, l);
      x := l / n;
    } else {
      var h := m - 1;
      var x1 := CommonMultiple(l, n - 1, h);
      var x2 := CommonMultiple(l, n, h);
      Absorption(n, h - 1);
      Absorption(n, h);
      var a, c := Choose(n - 1, h), Choose(n - 1, h - 1);
      NairStep(x1, x2, h, n, a, c, l);
      x := x1 - x2;
    }
  }

  lemma NairStep(x1: int, x2: int, h: int, n: int, a: int, c: int, l: int)
    requires h >= 1
    requires x1 * (h * a) == l && x2 * (h * (a + c)) == l
    requires h * (a + c) == n * c
    ensures (x1 - x2) * (n * a) == l
  {
    Cancel(h, x1 * a, x2 * (a + c)) by {
      Reorder(x1, h, a);
      Reorder(x2, h, a + c);
    }
    Reorder(x2, n, c);
    var y := x1 - x2;
    assert y * a == x2 * c;
    Reorder(y, n, a);
  }

  lemma Cancel(h: int, u: int, v: int)
    requires h >= 1 && h * u == h * v
    ensures u == v
  {
    assert h * (u - v) == 0;
    MultipleSteps(h, u - v);
    MultipleSteps(h, v - u);
  }

  lemma Reorder(x: int, y: int, z: int)
    ensures x * (y * z) == y * (x * z)
  {
  }

  // The smallest number all q-smooth numbers up to m divide

  /** The largest power of q that is at most m. */
  function TopPower(q: nat, m: nat): (t: nat)
    requires q >= 2
    ensures t >= 1 && (m >= 1 ==> t <= m)
    decreases m
  {
    if q > m then 1
    else
      MultipleSteps(q, m / q);
      assert m / q < m by { QuotientShrinks(q, m); }
      var t := TopPower(q, m / q);
      assert q * t <= m by { MulMonotone(q, q, t, m / q); }
      assert q * t >= 1 by { MultipleSteps(q, t); }
      q * t
  }

  lemma QuotientShrinks(q: nat, m: nat)
    requires 2 <= q <= m
    ensures 1 <= m / q < m
  {
    var k := m / q;
    assert m == q * k + m % q;
    MultipleSteps(q, k);
    assert (q - 2) * k >= 0 || k < 0;
  }

  function SmoothMultiple(m: nat, q: nat): nat {
    if q < 2 then 1
    else SmoothMultiple(m, q - 1) * (if Prime(q) then TopPower(q, m) else 1)
  }

  ghost predicate Smooth(k: nat, q: nat) {
    forall p | Prime(p) && Divides(p, k) :: p <= q
  }

  lemma {:induction false} SmoothDivides(k: nat, q: nat, m: nat)
    requires 1 <= k <= m && Smooth(k, q)
    ensures Divides(k, SmoothMultiple(m, q))
    decreases q, 0, k
  {
    if q < 2 {
      if k >= 2 {
        var p := PrimeFactor(k);
        assert false;
      }
    } else if Prime(q) {
      StripFactor(k, q, m, m);
    } else {
      SmoothDivides(k, q - 1, m);
    }
  }

  lemma {:induction false} StripFactor(k: nat, q: nat, b: nat, m: nat)
    requires Prime(q) && 1 <= k <= b <= m && Smooth(k, q)
    ensures Divides(k, SmoothMultiple(m, q - 1) * TopPower(q, b))
    decreases q - 1, 1, k
  {
    var rest := SmoothMultiple(m, q - 1);
    if Divides(q, k) {
      var k1, b1 := k / q, b / q;
      Stripped(k, q, b);
      StripFactor(k1, q, b1, m);
      ScaleProduct(q, k1, rest, TopPower(q, b1), k, TopPower(q, b));
    } else {
      SmoothDivides(k, q - 1, m);
      DividesProduct(k, rest, TopPower(q, b));
    }
  }

  lemma DividesProduct(k: nat, n: nat, t: nat)
    requires k >= 1 && Divides(k, n)
    ensures Divides(k, n * t)
  {
    var y := n / k;
    assert n * t == k * (y * t) by { assert n == k * y; }
    MultipleIsDivided(k, y * t);
  }

  lemma ScaleProduct(q: nat, k: nat, r: nat, t: nat, k': nat, t': nat)
    requires q >= 1 && k >= 1 && Divides(k, r * t)
    requires k' == q * k && t' == q * t
    ensures Divides(k', r * t')
  {
    var y := r * t / k;
    assert r * (q * t) == q * (r * t) == q * (k * y) == (q * k) * y;
    MultipleSteps(q, k);
    MultipleIsDivided(q * k, y);
  }

  lemma Stripped(k: nat, q: nat, b: nat)
    requires q >= 2 && 1 <= k <= b && Divides(q, k) && Smooth(k, q)
    ensures k == q * (k / q) && 1 <= k / q < k && k / q <= b / q <= b && q <= b
    ensures Smooth(k / q, q)
  {
    DivisorBound(q, k);
    QuotientShrinks(q, k);
    QuotientShrinks(q, b);
    QuotientMonotone(q, k, b);
    var k1 := k / q;
    MultipleIsDivided(k1, q);
    assert k == k1 * q;
    forall p | Prime(p) && Divides(p, k1)
      ensures p <= q
    {
      DividesTransitive(p, k1, k);
    }
  }

  lemma QuotientMonotone(q: nat, a: nat, b: nat)
    requires q >= 1 && a <= b
    ensures a / q <= b / q
  {
    var x, y := a / q, b / q;
    assert a == q * x + a % q && b == q * y + b % q;
    assert q * (x - y) < q;
    MultipleSteps(q, x - y);
  }

  /** At most i + 1 primes are at most 2 i + 1, and each contributes at most m. */
  lemma {:induction false} SmoothMultipleBound(m: nat, i: nat)
    requires m >= 1
    ensures SmoothMultiple(m, 2 * i + 1) <= Pow(m, i + 1)
  {
    if i == 0 {
      assert Pow(m, 1) == m * Pow(m, 0);
    } else {
      SmoothMultipleBound(m, i - 1);
      var q := 2 * i + 1;
      var low := SmoothMultiple(m, q - 2);
      assert SmoothMultiple(m, q - 1) == low * (if Prime(q - 1) then TopPower(q - 1, m) else 1);
      var f := if Prime(q) then TopPower(q, m) else 1;
      assert SmoothMultiple(m, q) == SmoothMultiple(m, q - 1) * f;
      if i == 1 {
        assert low == 1;
        MulMonotone(SmoothMultiple(m, 2), m, f, m);
        assert Pow(m, 2) == m * Pow(m, 1) == m * (m * Pow(m, 0));
      } else {
        MultipleIsDivided(2, i);
        assert !Prime(2 * i) by { assert Divides(2, 2 * i); }
        MulMonotone(f, m, low, Pow(m, i));
        assert SmoothMultiple(m, q) == f * low;
      }
    }
  }

  /** No prime in the gap would make the common multiple smaller than the binomial it bounds. */
  lemma GapIsNotEmpty(i: nat)
    requires i >= 3
    ensures exists p :: Prime(p) && 2 * i + 1 < p <= 2 * (i * (i + 1))
  {
    var q, m := 2 * i + 1, i * (i + 1);
    var top := 2 * m;
    var l := SmoothMultiple(top, q);
    MulMonotone(3, i, 4, i + 1);
    if forall p | q < p <= top :: !Prime(p) {
      forall k | 1 <= k <= top
        ensures Divides(k, l)
      {
        forall p | Prime(p) && Divides(p, k)
          ensures p <= q
        {
          DivisorBound(p, k);
        }
        SmoothDivides(k, q, top);
      }
      var x := CommonMultiple(l, top, m);
      SmoothMultipleBound(top, i);
      BinomialWins(i);
      var b := m * Choose(top, m);
      assert x * b == l && 0 < l < b by { SmoothMultiplePositive(top, q); }
      assert b * x == l;
      MultipleSteps(b, x);
      assert false;
    }
  }

  lemma {:induction false} SmoothMultiplePositive(m: nat, q: nat)
    ensures SmoothMultiple(m, q) > 0
  {
    if q >= 2 {
      SmoothMultiplePositive(m, q - 1);
      MultipleSteps(SmoothMultiple(m, q - 1), if Prime(q) then TopPower(q, m) else 1);
    }
  }

  lemma BinomialWins(i: nat)
    requires i >= 3
    ensures var m := i * (i + 1); m * Choose(2 * m, m) > Pow(2 * m, i + 1)
  {
    var m := i * (i + 1);
    MulMonotone(3, i, 4, i + 1);
    CentralGrows(m);
    PowPow(4, i, i + 1);
    FourPowersGrow(i);
    PowMonotone(2 * (2 * m), Pow(4, i), i + 1);
    PowOfDouble(2 * m, i + 1);
    var y := Pow(2 * m, i + 1);
    PowPositive(2 * m, i + 1);
    assert Pow(2, i + 1) >= 4 by {
      assert Pow(2, i + 1) == 2 * Pow(2, i) == 4 * Pow(2, i - 1);
      PowPositive(2, i - 1);
    }
    MulMonotone(4, Pow(2, i + 1), y, y);
  }

  /** For an odd q = 2 i + 1 with q * q <= n there is a prime above q and at most n / 2 + 1. */
  lemma PrimeBelowHalf(i: nat, n: nat) returns (p: nat)
    requires i >= 1 && (2 * i + 1) * (2 * i + 1) <= n
    ensures Prime(p) && 2 * i + 1 < p <= n / 2 + 1
  {
    if i == 1 {
      p := 5;
    } else if i == 2 {
      p := 7;
    } else {
      GapIsNotEmpty(i);
      p :| Prime(p) && 2 * i + 1 < p <= 2 * (i * (i + 1));
      assert (2 * i + 1) * (2 * i + 1) == 4 * (i * (i + 1)) + 1;
    }
  }
}
