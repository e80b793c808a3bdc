/**
 * What a decimal number is worth: an integer divided by a power of ten; and
 * what it means to round a quotient of two of them.
 */
module DecimalValues {
  import opened Arithmetic
  import opened Basics

  // ----- what a decimal is worth -----

  function Ten(n: nat): (r: real)
    ensures r > 0.0
  {
    if n == 0 then 1.0 else 10.0 * Ten(n - 1)
  }

  /** The rational number an integer and a scale stand for. */
  function Value(v: int, scale: nat): real { v as real / Ten(scale) }

  /** No trailing zero behind the point. */
  predicate Canonical(v: int, scale: nat) { scale == 0 || v % 10 != 0 }

  function RealSign(x: real): int { if x > 0.0 then 1 else if x < 0.0 then -1 else 0 }

  lemma {:induction false} TenAdd(m: nat, n: nat)
    ensures Ten(m + n) == Ten(m) * Ten(n)
  {
    if m > 0 {
      TenAdd(m - 1, n);
    }
  }

  lemma {:induction false} TenIsPow(n: nat)
    ensures Ten(n) == Pow(10, n) as real && Pow(10, n) > 0
  {
    if n > 0 {
      TenIsPow(n - 1);
    }
  }

  lemma RealMul(a: int, b: int)
    ensures (a * b) as real == a as real * b as real
  {
  }

  lemma DivOrder(a: real, b: real, c: real)
    requires c > 0.0
    ensures a / c < b / c <==> a < b
    ensures a / c == b / c <==> a == b
  {
  }

  lemma DivAdd(a: real, b: real, c: real)
    requires c > 0.0
    ensures a / c + b / c == (a + b) / c
  {
  }

  lemma DivMul(a: real, b: real, c: real, d: real)
    requires c > 0.0 && d > 0.0
    ensures c * d > 0.0 && (a / c) * (b / d) == (a * b) / (c * d)
  {
  }

  lemma DivScale(a: real, c: real, k: real)
    requires c > 0.0 && k > 0.0
    ensures c * k > 0.0 && (a * k) / (c * k) == a / c
  {
  }

  /** Raising the scale and the integer together changes nothing. */
  lemma ValueUpscaled(v: int, scale: nat, k: nat)
    ensures Value(v * Pow(10, k), scale + k) == Value(v, scale)
  {
    TenIsPow(k);
    TenAdd(scale, k);
    RealMul(v, Pow(10, k));
    DivScale(v as real, Ten(scale), Ten(k));
  }

  lemma ValueOrder(a: int, b: int, scale: nat)
    ensures RealSign(Value(a, scale) - Value(b, scale)) == Sign(a - b)
  {
    DivOrder(a as real, b as real, Ten(scale));
    DivOrder(b as real, a as real, Ten(scale));
  }

  lemma ValueSum(a: int, b: int, scale: nat)
    ensures Value(a + b, scale) == Value(a, scale) + Value(b, scale)
    ensures Value(a - b, scale) == Value(a, scale) - Value(b, scale)
  {
    DivAdd(a as real, b as real, Ten(scale));
    DivAdd((a - b) as real, b as real, Ten(scale));
  }

  lemma ValueProduct(a: int, s: nat, b: int, t: nat)
    ensures Value(a * b, s + t) == Value(a, s) * Value(b, t)
  {
    TenAdd(s, t);
    RealMul(a, b);
    DivMul(a as real, b as real, Ten(s), Ten(t));
  }

  /** A canonical decimal is determined by what it is worth. */
  lemma CanonicalIsUnique(a: int, s: nat, b: int, t: nat)
    requires Canonical(a, s) && Canonical(b, t) && Value(a, s) == Value(b, t)
    ensures a == b && s == t
  {
    if s <= t {
      LowerScale(a, s, b, t);
    } else {
      LowerScale(b, t, a, s);
    }
  }

  lemma LowerScale(a: int, s: nat, b: int, t: nat)
    requires s <= t && Canonical(b, t) && Value(a, s) == Value(b, t)
    ensures a == b && s == t
  {
    ValueUpscaled(a, s, t - s);
    ValueOrder(a * Pow(10, t - s), b, t);
    assert b == a * Pow(10, t - s);
    if s < t {
      MultipleOfTen(a, t - s);
    }
  }

  lemma MultipleOfTen(a: int, k: nat)
    requires k > 0
    ensures (a * Pow(10, k)) % 10 == 0
  {
    var p := Pow(10, k - 1);
    assert a * (10 * p) == 10 * (a * p);
    DivUnique(10 * (a * p), 10, a * p, 0);
  }

  // ----- rounding -----

  datatype Rounding =
    | TiesToEven
    | TiesAwayFromZero
    | TowardsZero
    | TowardsPositiveInfinity
    | TowardsNegativeInfinity

  /** The integer a mode prescribes for a real number. */
  ghost predicate IsRounded(mode: Rounding, y: real, q: int) {
    var d := y - q as real;
    match mode
    case TiesToEven => -0.5 <= d <= 0.5 && (d == 0.5 || d == -0.5 ==> q % 2 == 0)
    case TiesAwayFromZero => -0.5 <= d <= 0.5 && (d == 0.5 ==> y < 0.0) && (d == -0.5 ==> y > 0.0)
    case TowardsZero => if y >= 0.0 then 0.0 <= d < 1.0 else -1.0 < d <= 0.0
    case TowardsPositiveInfinity => -1.0 < d <= 0.0
    case TowardsNegativeInfinity => 0.0 <= d < 1.0
  }

  /** Every mode prescribes one integer. */
  lemma RoundingIsUnique(mode: Rounding, y: real, p: int, q: int)
    requires IsRounded(mode, y, p) && IsRounded(mode, y, q)
    ensures p == q
  {
    assert -1 <= p - q <= 1;
  }

  predicate AtLeast(p: int, y: real) { p as real >= y }

  predicate AtMost(p: int, y: real) { p as real <= y }

  /** Rounding up and down gives the nearest integer on that side, towards zero the one on the side of zero. */
  lemma DirectedExactly(y: real, q: int)
    ensures IsRounded(TowardsPositiveInfinity, y, q) <==> AtLeast(q, y) && forall p: int :: AtLeast(p, y) ==> q <= p
    ensures IsRounded(TowardsNegativeInfinity, y, q) <==> AtMost(q, y) && forall p: int :: AtMost(p, y) ==> p <= q
    ensures IsRounded(TowardsZero, y, q) <==>
      IsRounded(if y >= 0.0 then TowardsNegativeInfinity else TowardsPositiveInfinity, y, q)
  {
    UpExactly(y, q);
    DownExactly(y, q);
  }

  lemma UpExactly(y: real, q: int)
    ensures IsRounded(TowardsPositiveInfinity, y, q) <==> AtLeast(q, y) && forall p: int :: AtLeast(p, y) ==> q <= p
  {
    assert AtLeast(q - 1, y) <==> q as real - 1.0 >= y;
  }

  lemma DownExactly(y: real, q: int)
    ensures IsRounded(TowardsNegativeInfinity, y, q) <==> AtMost(q, y) && forall p: int :: AtMost(p, y) ==> p <= q
  {
    assert AtMost(q + 1, y) <==> q as real + 1.0 <= y;
  }

  /** How far an integer is from a number. */
  function Distance(y: real, p: int): real { if y >= p as real then y - p as real else p as real - y }

  /** No integer is nearer. */
  ghost predicate IsNearest(y: real, q: int) { forall p: int :: Distance(y, q) <= Distance(y, p) }

  lemma NearestIsWithinHalf(y: real, q: int)
    ensures IsNearest(y, q) <==> Distance(y, q) <= 0.5
  {
    NeighboursAreFurther(y, q);
    if Distance(y, q) <= 0.5 {
      forall p: int ensures Distance(y, q) <= Distance(y, p) {
        WithinHalf(y, q, p);
      }
    }
  }

  lemma NeighboursAreFurther(y: real, q: int)
    ensures Distance(y, q) <= Distance(y, q + 1) && Distance(y, q) <= Distance(y, q - 1) ==> Distance(y, q) <= 0.5
  {
  }

  lemma WithinHalf(y: real, q: int, p: int)
    requires Distance(y, q) <= 0.5
    ensures Distance(y, q) <= Distance(y, p)
  {
    assert p > q ==> p as real >= q as real + 1.0;
    assert p < q ==> p as real <= q as real - 1.0;
  }

  /** Both ways of breaking ties give a nearest integer; of two the even one, or the one further from zero. */
  lemma NearestExactly(y: real, q: int)
    ensures IsRounded(TiesToEven, y, q) <==>
      IsNearest(y, q) && forall p: int :: p != q && Distance(y, p) == Distance(y, q) ==> q % 2 == 0
    ensures IsRounded(TiesAwayFromZero, y, q) <==>
      IsNearest(y, q) && forall p: int :: p != q && Distance(y, p) == Distance(y, q) ==> Abs(q) > Abs(p)
  {
    NearestIsWithinHalf(y, q);
    TieExactly(y, q);
  }

  /** An integer ties with another exactly from the middle between them. */
  lemma TieExactly(y: real, q: int)
    ensures forall p: int :: Distance(y, q) <= 0.5 && p != q && Distance(y, p) == Distance(y, q) ==>
      (y == q as real + 0.5 && p == q + 1) || (y == q as real - 0.5 && p == q - 1)
    ensures y == q as real + 0.5 ==> Distance(y, q + 1) == Distance(y, q)
    ensures y == q as real - 0.5 ==> Distance(y, q - 1) == Distance(y, q)
  {
  }

  function Abs(x: int): nat { if x < 0 then -x else x }

  /** The quotient of two natural numbers. */
  function Quotient(a: nat, d: nat): (k: nat)
    requires d > 0
    ensures d * k <= a < d * k + d
  {
    DivModOf(a, d);
    DivShrinks(a, d);
    a / d
  }

  lemma SignedDivision(n: int, d: int, k: int, rest: int)
    requires Abs(n) == Abs(d) * k + rest && 0 <= rest < Abs(d)
    ensures var q := if (n >= 0) == (d > 0) then k else -k;
      n - q * d == if n >= 0 then rest else -rest
  {
    assert (-d) * k == -(d * k) == d * (-k);
  }

  lemma Scaled(r: real, d: real, c: real)
    requires d > 0.0
    ensures (r / d < c <==> r < c * d) && (r / d == c <==> r == c * d)
  {
  }

  lemma Negated(r: real, d: real)
    requires d != 0.0
    ensures r / d == (-r) / (-d)
  {
  }

  /** What a positive divisor's remainder tells of the part behind the point. */
  lemma FractionBounds(r: real, d: real)
    requires d > 0.0
    ensures var f := r / d;
      && (-d < r < d <==> -1.0 < f < 1.0) && (f == 0.0 <==> r == 0.0) && (f > 0.0 <==> r > 0.0)
      && (-d < 2.0 * r < d <==> -0.5 < f < 0.5)
      && (2.0 * r == d <==> f == 0.5) && (2.0 * r == -d <==> f == -0.5)
  {
    Scaled(r, d, 0.0);
    Scaled(r, d, 1.0);
    Scaled(r, d, -1.0);
    Scaled(r, d, 0.5);
    Scaled(r, d, -0.5);
  }

  /** The quotient of two integers, by what truncating division leaves of it. */
  lemma Remainder(n: int, d: int, q: int, r: int)
    requires d != 0 && n == q * d + r && Abs(r) < Abs(d)
    ensures var f := n as real / d as real - q as real;
      && -1.0 < f < 1.0 && (f == 0.0 <==> r == 0)
      && (r != 0 ==> (f > 0.0 <==> Sign(r) == Sign(d)))
      && (2 * Abs(r) < Abs(d) <==> -0.5 < f < 0.5)
      && (2 * Abs(r) == Abs(d) <==> f == 0.5 || f == -0.5)
  {
    RealMul(q, d);
    RealDivision(n as real, q as real, d as real, r as real);
    if d > 0 {
      FractionBounds(r as real, d as real);
    } else {
      Negated(r as real, d as real);
      FractionBounds(-r as real, -d as real);
    }
  }

  lemma RealDivision(n: real, q: real, d: real, r: real)
    requires d != 0.0 && n == q * d + r
    ensures n / d == q + r / d
  {
  }

  lemma QuotientSign(n: int, d: int)
    requires d != 0
    ensures RealSign(n as real / d as real) == Sign(n) * Sign(d)
  {
    if d > 0 {
      Scaled(n as real, d as real, 0.0);
      Scaled(-n as real, d as real, 0.0);
    } else {
      Negated(n as real, d as real);
      Scaled(-n as real, -d as real, 0.0);
    }
  }

  /** The true quotient of two numbers, in units of the n-th digit behind the point. */
  ghost function Exact(x: real, y: real, n: nat): real
    requires y != 0.0
  {
    x / y * Ten(n)
  }

  lemma ValueIsZero(v: int, s: nat)
    ensures Value(v, s) == 0.0 <==> v == 0
  {
    Scaled(v as real, Ten(s), 0.0);
  }

  /** With the scales n apart the quotient is that of the integers. */
  lemma ExactRatio(x: int, b: int, m: nat, n: nat)
    requires b != 0
    ensures Value(b, m) != 0.0 && Exact(Value(x, m + n), Value(b, m), n) == x as real / b as real
  {
    ValueIsZero(b, m);
    TenAdd(m, n);
    UnitsCancel(x as real, b as real, Ten(m), Ten(n));
  }

  lemma UnitsCancel(x: real, b: real, t: real, k: real)
    requires b != 0.0 && t > 0.0 && k > 0.0
    ensures t * k > 0.0 && b / t != 0.0 && (x / (t * k)) / (b / t) * k == x / b
  {
    var y, z, r := x / (t * k), b / t, x / b;
    assert z * t == b && r * b == x && y * (t * k) == x;
    assert (y * k) * t == (r * z) * t;
    RealCancel(y * k, r * z, t);
    MulQuotient(y, z, k);
    CrossEqual(y * k, z, r, 1.0);
  }

  lemma RealCancel(a: real, b: real, t: real)
    requires t > 0.0 && a * t == b * t
    ensures a == b
  {
  }

  lemma CrossEqual(a: real, b: real, c: real, d: real)
    requires b != 0.0 && d != 0.0 && a * d == c * b
    ensures a / b == c / d
  {
  }

  lemma MulQuotient(x: real, d: real, k: real)
    requires d != 0.0
    ensures (x / d) * k == (x * k) / d
  {
    var f := x / d;
    assert f * d == x;
    assert (f * k) * d == x * k;
    CrossEqual(f * k, 1.0, x * k, d);
  }

  /** With a small scale the dividend is raised. */
  lemma RaisedDividend(v: int, s: nat, ov: int, os: nat, n: nat)
    requires ov != 0 && s <= n + os
    ensures Value(ov, os) != 0.0
    ensures Exact(Value(v, s), Value(ov, os), n) == (v * Pow(10, n + os - s)) as real / ov as real
  {
    ValueUpscaled(v, s, n + os - s);
    ExactRatio(v * Pow(10, n + os - s), ov, os, n);
  }

  /** With a large scale the divisor is raised. */
  lemma RaisedDivisor(v: int, s: nat, ov: int, os: nat, n: nat)
    requires ov != 0 && s >= n + os
    ensures ov * Pow(10, s - n - os) != 0 && Value(ov, os) != 0.0
    ensures Exact(Value(v, s), Value(ov, os), n) == v as real / (ov * Pow(10, s - n - os)) as real
  {
    var k := s - n - os;
    PowPositive(10, k);
    NonZeroProduct(ov, Pow(10, k));
    ValueUpscaled(ov, os, k);
    ExactRatio(v, ov * Pow(10, k), os + k, n);
  }

  lemma NonZeroProduct(a: int, b: nat)
    requires a != 0 && b > 0
    ensures a * b != 0 && Sign(a * b) == Sign(a)
  {
    if a > 0 {
      MulGap(a, 0, b);
    } else {
      MulGap(-a, 0, b);
      assert -a * b == -(a * b);
    }
  }

  /** A power of ten, which is positive. */
  function Power(k: nat): (p: nat)
    ensures p == Pow(10, k) && p > 0
  {
    PowPositive(10, k);
    Pow(10, k)
  }

  /** Whichever was raised, the integers have the true quotient. */
  lemma Raised(v: int, s: nat, ov: int, os: nat, n: nat, num: int, den: int)
    requires v != 0 && ov != 0
    requires num == if s - os < n then v * Power(n - (s - os)) else v
    requires den == if s - os > n then ov * Power(s - os - n) else ov
    ensures num != 0 && den != 0 && Value(ov, os) != 0.0
    ensures Exact(Value(v, s), Value(ov, os), n) == num as real / den as real
  {
    if s - os <= n {
      RaisedDividend(v, s, ov, os, n);
      NonZeroProduct(v, Power(n - (s - os)));
      assert v * Pow(10, 0) == v;
    } else {
      RaisedDivisor(v, s, ov, os, n);
    }
  }

  /** The stored value is what the mode prescribes for x / y, and the code is the sign of stored minus true. */
  ghost predicate IsQuotient(v: int, scale: nat, x: real, y: real, n: nat, mode: Rounding, result: int) {
    && y != 0.0 && scale <= n
    && IsRounded(mode, Exact(x, y, n), v * Pow(10, n - scale))
    && result == RealSign(Value(v, scale) - x / y)
  }

  lemma SideOfQuotient(v: int, scale: nat, q: int, n: nat, x: real, y: real)
    requires y != 0.0 && Holds(v, scale, q, n)
    ensures RealSign(Value(v, scale) - x / y) == RealSign(q as real - Exact(x, y, n))
  {
    ValueUpscaled(v, scale, n - scale);
    Scaled(q as real, Ten(n), x / y);
    Scaled(-q as real, Ten(n), -x / y);
    NegatedQuotients(q as real, Ten(n), x, y);
  }

  lemma QuotientHeld(v: int, scale: nat, q: int, n: nat, x: real, y: real, mode: Rounding, result: int)
    requires y != 0.0 && Holds(v, scale, q, n)
    requires IsRounded(mode, Exact(x, y, n), q) && result == RealSign(q as real - Exact(x, y, n))
    ensures IsQuotient(v, scale, x, y, n, mode, result)
  {
    SideOfQuotient(v, scale, q, n, x, y);
  }

  lemma NegatedQuotients(q: real, t: real, x: real, y: real)
    requires t > 0.0 && y != 0.0
    ensures (-q) / t == -(q / t) && (-x) / y == -(x / y) && (-x) / y * t == -(x / y * t)
  {
  }

  lemma QuotientOfSame(x: real, n: nat, mode: Rounding)
    requires x != 0.0
    ensures IsQuotient(1, 0, x, x, n, mode, 0)
  {
    TenIsPow(n);
    assert x / x == 1.0;
    assert 1 * Pow(10, n) == Pow(10, n);
    assert Value(1, 0) == 1.0;
  }

  lemma QuotientOfZero(y: real, n: nat, mode: Rounding)
    requires y != 0.0
    ensures IsQuotient(0, 0, 0.0, y, n, mode, 0)
  {
    assert 0.0 / y == 0.0;
    assert 0 * Pow(10, n) == 0;
    assert Value(0, 0) == 0.0;
  }

  /** A decimal worth q units of the n-th digit behind the point. */
  ghost predicate Holds(v: int, scale: nat, q: int, n: nat) { scale <= n && v * Pow(10, n - scale) == q }

  lemma OneZeroLess(v: int, scale: nat, q: int, n: nat)
    requires scale > 0 && v % 10 == 0 && Holds(v, scale, q, n)
    ensures Holds(v / 10, scale - 1, q, n) && Value(v / 10, scale - 1) == Value(v, scale)
  {
    var w := v / 10;
    DivModOf(v, 10);
    assert w * Pow(10, 1) == v;
    ValueUpscaled(w, scale - 1, 1);
    MulAssoc(w, 10, Pow(10, n - scale));
  }
}
