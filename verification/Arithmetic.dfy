/** Facts about multiplication, division and powers. */
module Arithmetic {

  function Pow(b: nat, n: nat): nat {
    if n == 0 then 1 else b * Pow(b, n - 1)
  }

  lemma {:induction false} PowPositive(b: nat, n: nat)
    requires b > 0
    ensures Pow(b, n) > 0
  {
    if n > 0 {
      PowPositive(b, n - 1);
      MulGap(b, 0, Pow(b, n - 1));
    }
  }

  lemma {:induction false} PowAdd(b: nat, m: nat, n: nat)
    ensures Pow(b, m + n) == Pow(b, m) * Pow(b, n)
  {
    if m > 0 {
      PowAdd(b, m - 1, n);
      MulAssoc(b, Pow(b, m - 1), Pow(b, n));
    }
  }

  lemma MulNonNegative(x: int, y: int)
    requires x >= 0 && y >= 0
    ensures x * y >= 0
  {
  }

  lemma MulGap(d: int, small: int, big: int)
    requires d >= 0 && small < big
    ensures d * big >= d * small + d
  {
    MulNonNegative(d, big - small - 1);
    assert d * (big - small - 1) == d * big - d * small - d;
  }

  lemma QuotientUnique(d: int, q: int, r: int, q': int, r': int)
    requires d > 0 && d * q + r == d * q' + r' && 0 <= r < d && 0 <= r' < d
    ensures q == q' && r == r'
  {
    if q < q' {
      MulGap(d, q, q');
    } else if q' < q {
      MulGap(d, q', q);
    }
  }

  lemma DivModOf(a: int, d: int)
    requires d > 0
    ensures a == d * (a / d) + a % d && 0 <= a % d < d
  {
  }

  lemma DivUnique(a: int, d: int, q: int, r: int)
    requires d > 0 && a == d * q + r && 0 <= r < d
    ensures a / d == q && a % d == r
  {
    DivModOf(a, d);
    QuotientUnique(d, q, r, a / d, a % d);
  }

  lemma DivShrinks(x: nat, p: nat)
    requires p > 0
    ensures 0 <= x / p <= x
  {
    DivModOf(x, p);
    var q := x / p;
    if q < 0 {
      MulGap(p, q, 0);
    } else {
      MulNonNegative(p - 1, q);
      assert p * q == (p - 1) * q + q;
    }
  }

  lemma DivTwice(a: nat, p: nat, q: nat)
    requires p > 0 && q > 0
    ensures p * q > 0 && a / (p * q) == a / p / q
  {
    var b := a / p;
    DivModOf(a, p);
    DivModOf(b, q);
    var x, rest := b / q, p * (b % q) + a % p;
    calc {
      a;
      p * b + a % p;
      p * (q * x + b % q) + a % p;
      p * (q * x) + rest;
      { MulAssoc(p, q, x); }
      (p * q) * x + rest;
    }
    MulGap(p, b % q, q);
    MulNonNegative(p, b % q);
    MulGap(q, 0, p);
    DivUnique(a, p * q, x, rest);
  }

  lemma MulAssoc(p: int, q: int, r: int)
    ensures p * (q * r) == (p * q) * r
  {
  }
}
