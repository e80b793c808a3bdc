/** Decimal numbers, updated in place; division rounds and says on which side it ended. */
module Decimals {
  import opened Arithmetic
  import opened Basics
  import opened DecimalText
  import opened DecimalValues

  /** Division that truncates; the remainder has the sign of the dividend. */
  method TruncatingDivide(n: int, d: int) returns (q: int, r: int)
    requires d != 0
    ensures n == q * d + r && Abs(r) < Abs(d) && (r > 0 ==> n > 0) && (r < 0 ==> n < 0)
  {
    var k: int := Quotient(Abs(n), Abs(d));
    q := if (n >= 0) == (d > 0) then k else -k;
    r := n - q * d;
    SignedDivision(n, d, k, Abs(n) - Abs(d) * k);
  }

  /** Moves a truncated quotient to the integer the mode prescribes; also tells on which side of the truth it lies. */
  method Round(mode: Rounding, n: int, d: int, q: int, r: int) returns (rounded: int, result: int)
    requires d != 0 && n == q * d + r && Abs(r) < Abs(d) && (r > 0 ==> n > 0) && (r < 0 ==> n < 0) && n != 0
    ensures IsRounded(mode, n as real / d as real, rounded)
    ensures result == RealSign(rounded as real - n as real / d as real)
  {
    Remainder(n, d, q, r);
    QuotientSign(n, d);
    rounded, result := q, 0;
    var dir := if Sign(n) == Sign(d) then 1 else -1;
    if r != 0 {
      match mode
      case TowardsPositiveInfinity =>
        result := 1;
        if dir > 0 {
          rounded := q + 1;
        }
      case TowardsNegativeInfinity =>
        result := -1;
        if dir < 0 {
          rounded := q - 1;
        }
      case TowardsZero =>
        result := -dir;
      case _ =>
        var bump := true;
        var twice := 2 * r;
        if Abs(twice) == Abs(d) {
          if mode == TiesToEven {
            bump := q % 2 != 0;
          }
        } else if Abs(twice) < Abs(d) {
          bump := false;
        }
        if bump {
          result := dir;
          rounded := q + dir;
        } else {
          result := -dir;
        }
    }
  }

  // ----- reading a numeral -----

  /** What the scan of a text has found in its first `n` characters. */
  ghost predicate Scanned(s: string, n: nat, kept: string, digits: nat, scale: int, zdigits: nat)
    requires n <= |s|
  {
    var ds := Digits(s, n);
    && kept == Minus(Negative(s)) + ds && digits == |ds|
    && scale == (if Point(s, n) then Fraction(s, n) else -1)
    && zdigits == TrailingZeros(ds, |ds|)
  }

  lemma ScanStarts(s: string)
    requires s != []
    ensures Scanned(s, if Negative(s) then 1 else 0, Minus(Negative(s)), 0, -1, 0)
    ensures Negative(s) ==> Fits(s, 0)
  {
    assert Digits(s, 0) == [] && !Point(s, 0) && TrailingZeros([], 0) == 0;
    WholeText(Minus(Negative(s)));
  }

  lemma ScanDigit(s: string, n: nat, kept: string, digits: nat, scale: int, zdigits: nat)
    requires n < |s| && IsDigit(s[n]) && Scanned(s, n, kept, digits, scale, zdigits)
    ensures Scanned(s, n + 1, kept + [s[n]], digits + 1,
                    if scale >= 0 then scale + 1 else scale, if s[n] == '0' then zdigits + 1 else 0)
    ensures Fits(s, n)
  {
    var ds := Digits(s, n);
    Assoc(Minus(Negative(s)), ds, [s[n]]);
    TrailingPrefix(ds + [s[n]], ds, |ds|);
    NoPointNoFraction(s, n);
  }

  lemma ScanPoint(s: string, n: nat, kept: string, digits: nat, scale: int, zdigits: nat)
    requires n < |s| && s[n] == '.' && Scanned(s, n, kept, digits, scale, zdigits)
    ensures scale < 0 <==> Fits(s, n)
    ensures scale < 0 ==> Scanned(s, n + 1, kept, digits, 0, zdigits)
  {
    NoPointNoFraction(s, n);
    WholeText(Digits(s, n));
  }

  lemma {:induction false} NoPointNoFraction(s: string, n: nat)
    requires n <= |s|
    ensures !Point(s, n) ==> Fraction(s, n) == 0
  {
    if n > 0 {
      NoPointNoFraction(s, n - 1);
    }
  }

  lemma {:induction false} TrailingPrefix(s: string, t: string, n: nat)
    requires n <= |s| && n <= |t| && forall i :: 0 <= i < n ==> s[i] == t[i]
    ensures TrailingZeros(s, n) == TrailingZeros(t, n)
  {
    if n > 0 {
      TrailingPrefix(s, t, n - 1);
    }
  }

  /** The loop of Parse: copies the minus and the digits, and counts. */
  method Scan(s: string, buffer: array<char>) returns (ok: bool, pos: nat, digits: nat, scale: int, zdigits: nat)
    requires 0 < |s| < buffer.Length
    modifies buffer
    ensures ok <==> forall i :: 0 <= i < |s| ==> Fits(s, i)
    ensures pos <= |s| && (ok ==> Scanned(s, |s|, buffer[..pos], digits, scale, zdigits))
  {
    ok, pos, digits, scale, zdigits := true, 0, 0, -1, 0;
    var p := 0;
    ScanStarts(s);
    if s[p] == '-' {
      Store(buffer, pos, s[p]);
      pos := pos + 1;
      p := p + 1;
    }
    assert buffer[..pos] == Minus(Negative(s));
    while p < |s|
      invariant pos <= p <= |s| && forall i :: 0 <= i < p ==> Fits(s, i)
      invariant Scanned(s, p, buffer[..pos], digits, scale, zdigits)
    {
      if '0' <= s[p] <= '9' {
        ScanDigit(s, p, buffer[..pos], digits, scale, zdigits);
        digits := digits + 1;
        Store(buffer, pos, s[p]);
        pos := pos + 1;
        if scale >= 0 {
          scale := scale + 1;
        }
        zdigits := if s[p] == '0' then zdigits + 1 else 0;
      } else if s[p] == '.' {
        ScanPoint(s, p, buffer[..pos], digits, scale, zdigits);
        if scale >= 0 {
          ok := false;
          return;
        }
        scale := 0;
      } else {
        assert !Fits(s, p);
        ok := false;
        return;
      }
      p := p + 1;
    }
  }

  /** The integer that an optional minus and digits write. */
  function Integer(t: string): int {
    Signed(Negative(t), Number(t, if Negative(t) then 1 else 0, |t|))
  }

  lemma {:induction false} DigitsAreDigits(s: string, n: nat)
    requires n <= |s|
    ensures OnlyDigits(Digits(s, n))
  {
    if n > 0 {
      DigitsAreDigits(s, n - 1);
    }
  }

  /** A numeral of zeros denotes zero. */
  lemma AllZeros(s: string, kept: string, digits: nat, scale: int, zdigits: nat)
    requires Scanned(s, |s|, kept, digits, scale, zdigits) && zdigits == digits
    ensures Denoted(s) == 0.0 == Value(0, 0)
  {
    var ds := Digits(s, |s|);
    ZerosMultiply(ds, |ds|, |ds|);
    assert Number(ds, 0, 0) == 0;
    assert 0 * Pow(10, |ds|) == 0;
    ValueIsZero(0, 0);
    ValueIsZero(0, Fraction(s, |s|));
  }

  /** What is left of the digits after `z` zeros have been cut off. */
  lemma KeptDigits(negative: bool, ds: string, k: nat)
    requires 0 < k <= |ds| && OnlyDigits(ds)
    ensures Integer((Minus(negative) + ds)[..|Minus(negative)| + k]) == Signed(negative, Number(ds, 0, k))
  {
    var a := |Minus(negative)|;
    var t := (Minus(negative) + ds)[..a + k];
    assert t[a + 0] == ds[0];
    assert Negative(t) == negative;
    NumberShift(t, a, ds, k);
  }

  /** Cutting off the zeros behind the point leaves a canonical decimal that is worth the numeral. */
  lemma ZerosCut(s: string, kept: string, digits: nat, scale: int, zdigits: nat, z: nat)
    requires Scanned(s, |s|, kept, digits, scale, zdigits) && zdigits < digits
    requires z == if scale <= 0 then 0 else if zdigits < scale then zdigits else scale
    ensures z <= |kept|
    ensures var v, left := Integer(kept[..|kept| - z]), if scale > 0 then scale - z else 0;
      Canonical(v, left) && Value(v, left) == Denoted(s)
  {
    var ds, negative := Digits(s, |s|), Negative(s);
    var k := |ds| - z;
    DigitsAreDigits(s, |s|);
    KeptDigits(negative, ds, k);
    ZerosMultiply(ds, |ds|, z);
    NoPointNoFraction(s, |s|);
    var v, left := Signed(negative, Number(ds, 0, k)), if scale > 0 then scale - z else 0;
    SignedProduct(negative, Number(ds, 0, k), Pow(10, z));
    ValueUpscaled(v, left, z);
    if left > 0 {
      EndOfZeros(ds, |ds|);
      LastDigit(ds, k, negative);
    }
  }

  lemma SignedProduct(negative: bool, x: int, p: int)
    ensures Signed(negative, x * p) == Signed(negative, x) * p
  {
  }

  lemma {:induction false} EndOfZeros(s: string, n: nat)
    requires n <= |s| && TrailingZeros(s, n) < n
    ensures s[n - TrailingZeros(s, n) - 1] != '0'
  {
    if s[n - 1] == '0' {
      EndOfZeros(s, n - 1);
    }
  }

  // ----- writing a numeral -----

  /** The digits behind the point with the point in front, if zeros or digits are to follow it. */
  function Dotted(f: string, extra: nat): string { if f == [] && extra == 0 then [] else "." + f }

  /** A text before its last zeros are appended. */
  function Unpadded(negative: bool, w: nat, scale: nat, extra: nat): string {
    Minus(negative) + (ToDigits(Drop(w, scale)) + Dotted(Padded(w, scale), extra))
  }

  /** Inserts zeros in front of the digits and turns the second of them into the point. */
  method InsertZeros(negative: bool, w: nat, scale: nat) returns (s: string)
    requires scale >= |ToDigits(w)|
    ensures s == Unpadded(negative, w, scale, 0)
  {
    var d := ToDigits(w);
    var p, more := |Minus(negative)|, scale - |d|;
    s := Minus(negative) + (Zeros(more + 2) + d);
    s := s[p + 1 := '.'];
    ZerosInFront(w, scale);
    TwoZeros(more, d);
    UpdateBehind(Minus(negative), Zeros(more + 2) + d);
    ToDigitsAre(w);
    assert ToDigits(0) == "0";
  }

  lemma TwoZeros(more: nat, d: string)
    ensures (Zeros(more + 2) + d)[1 := '.'] == "0" + ("." + (Zeros(more) + d))
  {
    var x, y := (Zeros(more + 2) + d)[1 := '.'], "0" + ("." + (Zeros(more) + d));
    assert |x| == |y|;
    forall i | 0 <= i < |x| ensures x[i] == y[i] {
    }
  }

  lemma UpdateBehind(m: string, t: string)
    requires |t| > 1
    ensures (m + t)[|m| + 1 := '.'] == m + t[1 := '.']
  {
  }

  /** Inserts the point among the digits. */
  method InsertPoint(negative: bool, w: nat, scale: nat) returns (s: string)
    requires 0 < scale < |ToDigits(w)|
    ensures s == Unpadded(negative, w, scale, 0)
  {
    var d := ToDigits(w);
    var pos := |d| - scale;
    s := Minus(negative) + (d[..pos] + ("." + d[pos..]));
    CutInTwo(w, scale);
  }

  /** The text is that of the number scaled up, once the zeros are there. */
  lemma TextOfScaled(v: int, scale: nat, extra: nat)
    ensures Text(v * Pow(10, extra), scale + extra) == Unpadded(v < 0, Abs(v), scale, extra) + Zeros(extra)
  {
    var w, p := Abs(v), Pow(10, extra);
    PowPositive(10, extra);
    AbsProduct(v, p);
    ZerosBehind(w, scale, extra);
    var f := Padded(w, scale);
    Assoc(Minus(v < 0), ToDigits(Drop(w, scale)) + Dotted(f, extra), Zeros(extra));
    Assoc(ToDigits(Drop(w, scale)), Dotted(f, extra), Zeros(extra));
    DotAndZeros(f, extra);
  }

  lemma DotAndZeros(f: string, extra: nat)
    ensures PointAnd(f + Zeros(extra)) == Dotted(f, extra) + Zeros(extra)
  {
  }

  lemma AbsProduct(v: int, p: nat)
    requires p > 0
    ensures Abs(v * p) == Abs(v) * p && (v * p < 0 <==> v < 0)
  {
    if v < 0 {
      MulGap(-v, 0, p);
    } else {
      MulNonNegative(v, p);
    }
    assert (-v) * p == -(v * p);
  }

  /** A number, in units of the n-th digit behind the point. */
  function InUnits(x: real, n: nat): real { x * Ten(n) }

  /** The text writes the integer that the mode prescribes for y, and the code is the sign of written minus true. */
  ghost predicate WritesRounded(s: string, ret: int, q: int, n: nat, mode: Rounding, y: real) {
    s == Text(q, n) && IsRounded(mode, y, q) && ret == RealSign(q as real - y)
  }

  /** A division happened, with the side its result lies on, or was refused. */
  datatype Outcome = Done(result: int) | InvalidScale | DividedByZero

  class Decimal {
    var v: int
    var scale: nat

    ghost predicate Valid()
      reads this
    {
      Canonical(v, scale)
    }

    ghost function Worth(): real
      reads this
    {
      Value(v, scale)
    }

    constructor (n: int)
      ensures v == n && scale == 0 && Valid()
    {
      v, scale := n, 0;
    }

    constructor Copy(o: Decimal)
      ensures v == o.v && scale == o.scale
    {
      v, scale := o.v, o.scale;
    }

    method Upscale(s: nat)
      modifies this
      ensures v == old(v) * Pow(10, s) && scale == old(scale) + s && Worth() == old(Worth())
    {
      ValueUpscaled(v, scale, s);
      v := v * Pow(10, s);
      scale := scale + s;
    }

    /** Drops the zeros behind the last digit that matters. */
    method Cleanup()
      modifies this
      ensures Valid() && Worth() == old(Worth())
      ensures Holds(v, scale, old(v), old(scale))
    {
      assert v * Pow(10, 0) == v;
      while scale != 0
        invariant Worth() == old(Worth()) && Holds(v, scale, old(v), old(scale))
        decreases scale
      {
        if v % 10 != 0 {
          break;
        }
        OneZeroLess(v, scale, old(v), old(scale));
        v := v / 10;
        scale := scale - 1;
      }
    }

    method Add(o: Decimal)
      modifies this
      ensures Valid() && Worth() == old(Worth()) + old(o.Worth())
    {
      if scale < o.scale {
        Upscale(o.scale - scale);
        ValueSum(v, o.v, scale);
        v := v + o.v;
      } else if scale > o.scale {
        var t := new Decimal.Copy(o);
        t.Upscale(scale - o.scale);
        ValueSum(v, t.v, scale);
        v := v + t.v;
      } else {
        ValueSum(v, o.v, scale);
        v := v + o.v;
      }
      Cleanup();
    }

    method Sub(o: Decimal)
      modifies this
      ensures Valid() && Worth() == old(Worth()) - old(o.Worth())
    {
      if this == o {
        ValueIsZero(0, 0);
        v := 0;
        scale := 0;
      } else if scale < o.scale {
        Upscale(o.scale - scale);
        ValueSum(v, o.v, scale);
        v := v - o.v;
      } else if scale > o.scale {
        var t := new Decimal.Copy(o);
        t.Upscale(scale - o.scale);
        ValueSum(v, t.v, scale);
        v := v - t.v;
      } else {
        ValueSum(v, o.v, scale);
        v := v - o.v;
      }
      Cleanup();
    }

    method Mul(o: Decimal)
      modifies this
      ensures Valid() && Worth() == old(Worth()) * old(o.Worth())
    {
      MulRaw(o);
      Cleanup();
    }

    method MulRaw(o: Decimal)
      modifies this
      ensures Worth() == old(Worth()) * old(o.Worth())
    {
      ValueProduct(v, scale, o.v, o.scale);
      v := v * o.v;
      scale := scale + o.scale;
    }

    /**
     * Divides in place, to `n` digits behind the point; the result code tells
     * on which side of the true quotient the stored value lies.
     */
    method Div(o: Decimal, n: int, mode: Rounding) returns (r: Outcome)
      requires Valid()
      modifies this
      ensures r.InvalidScale? <==> n < 0
      ensures r.DividedByZero? <==> n >= 0 && old(o.v) == 0
      ensures Valid() && (!r.Done? ==> v == old(v) && scale == old(scale))
      ensures r.Done? ==> IsQuotient(v, scale, old(Worth()), old(o.Worth()), n, mode, r.result)
    {
      if n < 0 {
        return InvalidScale;
      } else if o.v == 0 {
        return DividedByZero;
      }
      ValueIsZero(o.v, o.scale);
      ValueIsZero(v, scale);
      if this == o {
        QuotientOfSame(Worth(), n, mode);
        v, scale := 1, 0;
        return Done(0);
      } else if v == 0 {
        QuotientOfZero(o.Worth(), n, mode);
        return Done(0);
      }
      var num, den := v, o.v;
      var diff := scale - o.scale;
      if diff < n {
        num := v * Power(n - diff);
      } else if diff > n {
        den := o.v * Power(diff - n);
      }
      Raised(v, scale, o.v, o.scale, n, num, den);
      var q, rest := TruncatingDivide(num, den);
      var result;
      q, result := Round(mode, num, den, q, rest);
      ghost var x, y := Worth(), o.Worth();
      v, scale := q, n;
      Cleanup();
      QuotientHeld(v, scale, q, n, x, y, mode, result);
      return Done(result);
    }

    /** Reads a numeral of fewer than 1024 characters; anything else leaves the decimal alone. */
    method Parse(s: string) returns (ok: bool)
      modifies this
      ensures ok <==> |s| < 1024 && IsNumeral(s)
      ensures ok ==> Valid() && Worth() == Denoted(s)
      ensures !ok ==> v == old(v) && scale == old(scale)
    {
      if s == [] || |s| >= 1024 {
        return false;
      }
      var buffer := new char[1024];
      var pos, digits, newScale, zdigits;
      ok, pos, digits, newScale, zdigits := Scan(s, buffer);
      if !ok || digits == 0 {
        return false;
      }
      ghost var kept := buffer[..pos];
      if zdigits == digits {
        AllZeros(s, kept, digits, newScale, zdigits);
        v, scale := 0, 0;
        return true;
      }
      ghost var z := if newScale <= 0 then 0 else if zdigits < newScale then zdigits else newScale;
      ZerosCut(s, kept, digits, newScale, zdigits, z);
      if newScale > 0 {
        zdigits := if zdigits < newScale then zdigits else newScale;
        if zdigits > 0 {
          newScale := newScale - zdigits;
          pos := pos - zdigits;
        }
      }
      assert buffer[..pos] == kept[..|kept| - z];
      v := Integer(buffer[..pos]);
      scale := if newScale < 0 then 0 else newScale;
    }

    /** Writes the decimal with `n` digits behind the point, which is enough for all of it. */
    method SerializeWithAppending(n: nat) returns (s: string)
      requires Valid() && n >= scale
      ensures s == Text(v * Pow(10, n - scale), n)
    {
      var extra := n - scale;
      assert extra >= 0;
      var w := Abs(v);
      if scale != 0 {
        PaddedAre(w, scale);
        if scale >= |ToDigits(w)| {
          s := InsertZeros(v < 0, w, scale);
        } else {
          s := InsertPoint(v < 0, w, scale);
        }
      } else {
        s := Minus(v < 0) + ToDigits(w);
        if extra > 0 {
          s := s + ".";
        }
        Unscaled(v < 0, w, extra);
      }
      assert s == Unpadded(v < 0, w, scale, extra);
      ghost var start := s;
      WholeText(s);
      var i := 0;
      while i < extra
        invariant i <= extra && s == start + Zeros(i)
      {
        Assoc(start, Zeros(i), "0");
        s := s + "0";
        i := i + 1;
      }
      TextOfScaled(v, scale, extra);
    }

    /** Writes the decimal rounded to `n` digits behind the point, fewer than it has; also tells on which side. */
    method SerializeWithRounding(n: nat, mode: Rounding) returns (s: string, ret: int)
      requires Valid() && n < scale
      ensures exists q :: WritesRounded(s, ret, q, n, mode, InUnits(Worth(), n))
    {
      var m := new Decimal.Copy(this);
      var one := new Decimal(1);
      ByOne(v, scale, n);
      ghost var x := Worth();
      var r := m.Div(one, n, mode);
      ret := r.result;
      s := m.SerializeWithAppending(n);
      ghost var q := m.v * Pow(10, n - m.scale);
      SideOfQuotient(m.v, m.scale, q, n, x, 1.0);
      assert Worth() == x;
      assert WritesRounded(s, ret, q, n, mode, InUnits(Worth(), n));
    }

    /** A negative scale asks for as many digits as the decimal has. */
    method Serialize(n: int, mode: Rounding) returns (s: string, ret: int)
      requires Valid()
      ensures n < 0 || n >= scale ==> ret == 0
      ensures n < 0 ==> s == Text(v, scale)
      ensures n >= scale ==> s == Text(v * Pow(10, n - scale), n)
      ensures 0 <= n < scale ==>
        exists q :: WritesRounded(s, ret, q, n, mode, InUnits(Worth(), n))
    {
      if n < 0 && v == 0 {
        assert Text(0, 0) == "0";
        return "0", 0;
      }
      var k := if n >= 0 then n else scale;
      if k - scale >= 0 {
        s := SerializeWithAppending(k);
        ret := 0;
        assert v * Pow(10, 0) == v;
      } else {
        s, ret := SerializeWithRounding(k, mode);
      }
    }

    /** What is written is a numeral in its plain form; it denotes the decimal, or its multiple of the last digit. */
    method SerializePlainly(n: int, mode: Rounding) returns (s: string, ret: int)
      requires Valid()
      ensures IsNumeral(s) && IsPlain(s, if n >= 0 then n else scale)
      ensures n < 0 || n >= scale ==> ret == 0 && Denoted(s) == Worth()
      ensures 0 <= n < scale ==> exists q :: Denoted(s) == Value(q, n) && IsRounded(mode, InUnits(Worth(), n), q)
      ensures 0 <= n < scale ==> ret == RealSign(Denoted(s) - Worth())
    {
      s, ret := Serialize(n, mode);
      if 0 <= n < scale {
        ghost var q :| WritesRounded(s, ret, q, n, mode, InUnits(Worth(), n));
        RoundedPlainly(s, ret, q, n, mode, Worth());
      } else {
        WrittenInFull(v, scale, if n >= 0 then n else scale);
        assert v * Pow(10, 0) == v;
      }
    }

    /** Compares what two decimals are worth. */
    method Compare(o: Decimal) returns (c: int)
      requires Valid() && o.Valid()
      ensures c == RealSign(Worth() - o.Worth())
      ensures c == 0 <==> v == o.v && scale == o.scale
    {
      if this == o {
        c := 0;
      } else if scale == o.scale {
        ValueOrder(v, o.v, scale);
        c := Sign(v - o.v);
      } else if scale < o.scale {
        var t := new Decimal.Copy(this);
        t.Upscale(o.scale - scale);
        ValueOrder(t.v, o.v, o.scale);
        c := Sign(t.v - o.v);
      } else {
        var t := new Decimal.Copy(o);
        t.Upscale(scale - o.scale);
        ValueOrder(v, t.v, scale);
        c := Sign(v - t.v);
      }
      if c == 0 {
        CanonicalIsUnique(v, scale, o.v, o.scale);
      }
    }
  }

  /** Written with as many digits as it has, or more, a decimal is all there. */
  lemma WrittenInFull(v: int, scale: nat, k: nat)
    requires k >= scale
    ensures var s := Text(v * Pow(10, k - scale), k); IsNumeral(s) && IsPlain(s, k) && Denoted(s) == Value(v, scale)
  {
    TextIsPlain(v * Pow(10, k - scale), k);
    TextDenotes(v * Pow(10, k - scale), k);
    ValueUpscaled(v, scale, k - scale);
  }

  lemma RoundedPlainly(s: string, ret: int, q: int, n: nat, mode: Rounding, x: real)
    requires WritesRounded(s, ret, q, n, mode, InUnits(x, n))
    ensures IsNumeral(s) && IsPlain(s, n) && Denoted(s) == Value(q, n) && ret == RealSign(Denoted(s) - x)
  {
    TextIsPlain(q, n);
    TextDenotes(q, n);
    OverOne(x, n);
    assert q * Pow(10, 0) == q;
    SideOfQuotient(q, n, q, n, x, 1.0);
  }

  lemma Unscaled(negative: bool, w: nat, extra: nat)
    ensures Unpadded(negative, w, 0, extra) == Minus(negative) + ToDigits(w) + if extra > 0 then "." else ""
  {
  }

  lemma ByOne(v: int, scale: nat, n: nat)
    ensures Value(1, 0) == 1.0 && Exact(Value(v, scale), 1.0, n) == InUnits(Value(v, scale), n)
  {
  }

  // ----- writing and reading back -----

  /** Every number of units has a canonical form. */
  lemma {:induction false} CanonicalForm(v: int, scale: nat, q: int, n: nat) returns (v': int, scale': nat)
    requires Holds(v, scale, q, n)
    ensures Canonical(v', scale') && Holds(v', scale', q, n)
    decreases scale
  {
    if Canonical(v, scale) {
      v', scale' := v, scale;
    } else {
      OneZeroLess(v, scale, q, n);
      v', scale' := CanonicalForm(v / 10, scale - 1, q, n);
    }
  }

  /** What is read from a rounded text is the quotient by one, and the code told on which side it lies. */
  lemma ReadsBackRounded(v: int, scale: nat, x: real, s: string, ret: int, q: int, n: nat, mode: Rounding)
    requires WritesRounded(s, ret, q, n, mode, InUnits(x, n))
    requires Canonical(v, scale) && Value(v, scale) == Denoted(s)
    ensures IsQuotient(v, scale, x, 1.0, n, mode, ret)
  {
    ReadsBackUnits(v, scale, q, n);
    OverOne(x, n);
    QuotientHeld(v, scale, q, n, x, 1.0, mode, ret);
  }

  lemma ReadsBackUnits(v: int, scale: nat, q: int, n: nat)
    requires Canonical(v, scale) && Value(v, scale) == Denoted(Text(q, n))
    ensures Holds(v, scale, q, n)
  {
    assert q * Pow(10, 0) == q;
    var w, m := CanonicalForm(q, n, q, n);
    ReadsBack(w, m, q, n, v, scale);
  }

  lemma OverOne(x: real, n: nat)
    ensures Exact(x, 1.0, n) == InUnits(x, n)
  {
  }

  /**
   * Writes one decimal and reads the text into another, or into itself. The text reads unless it is
   * too long; with enough digits it restores the decimal, and with fewer it gives what dividing by one does.
   */
  method WriteAndRead(d: Decimal, n: int, mode: Rounding, e: Decimal) returns (s: string, ret: int, ok: bool)
    requires d.Valid()
    modifies e
    ensures ok <==> |s| < 1024
    ensures ok ==> e.Valid()
    ensures ok && (n < 0 || n >= old(d.scale)) ==> ret == 0 && e.v == old(d.v) && e.scale == old(d.scale)
    ensures ok && 0 <= n < old(d.scale) ==> IsQuotient(e.v, e.scale, old(d.Worth()), 1.0, n, mode, ret)
    ensures !ok ==> e.v == old(e.v) && e.scale == old(e.scale)
  {
    ghost var v, scale, x := d.v, d.scale, d.Worth();
    s, ret := d.Serialize(n, mode);
    if 0 <= n < d.scale {
      ghost var q :| WritesRounded(s, ret, q, n, mode, InUnits(x, n));
      TextDenotes(q, n);
      ok := e.Parse(s);
      if ok {
        ReadsBackRounded(e.v, e.scale, x, s, ret, q, n, mode);
      }
    } else {
      ghost var k := if n < 0 then scale else n;
      assert v * Pow(10, 0) == v;
      TextDenotes(v * Pow(10, k - scale), k);
      ok := e.Parse(s);
      if ok {
        ReadsBack(v, scale, v * Pow(10, k - scale), k, e.v, e.scale);
      }
    }
  }
}
