/**
 * Decimal numerals as text: which texts are numerals, what they denote, and
 * the one text that writes an integer number of units of a given digit.
 */
module DecimalText {
  import opened Arithmetic
  import opened Basics
  import opened DecimalValues

  function DigitOf(c: char): int { c as int - '0' as int }

  function Digit(d: int): (c: char)
    requires 0 <= d < 10
    ensures IsDigit(c) && DigitOf(c) == d
  {
    ('0' as int + d) as char
  }

  // ----- reading -----

  predicate Negative(s: string) { s != [] && s[0] == '-' }

  /** The digits among the first `n` characters. */
  function Digits(s: string, n: nat): string
    requires n <= |s|
  {
    if n == 0 then [] else Digits(s, n - 1) + if IsDigit(s[n - 1]) then [s[n - 1]] else []
  }

  /** There is a point among the first `n` characters. */
  predicate Point(s: string, n: nat)
    requires n <= |s|
  {
    n > 0 && (s[n - 1] == '.' || Point(s, n - 1))
  }

  /** The number of digits behind the point among the first `n` characters. */
  function Fraction(s: string, n: nat): nat
    requires n <= |s|
  {
    if n == 0 then 0
    else if IsDigit(s[n - 1]) && Point(s, n - 1) then Fraction(s, n - 1) + 1
    else Fraction(s, n - 1)
  }

  /** The character at `i` may stand there: a leading minus, a digit, or the only point. */
  predicate Fits(s: string, i: nat)
    requires i < |s|
  {
    (i == 0 && s[i] == '-') || IsDigit(s[i]) || (s[i] == '.' && !Point(s, i))
  }

  /** An optional minus, then digits with at most one point among, before or behind them, and at least one digit. */
  predicate IsNumeral(s: string) {
    (forall i :: 0 <= i < |s| ==> Fits(s, i)) && Digits(s, |s|) != []
  }

  /** The integer the characters from `a` up to `n` write. */
  function Number(s: string, a: nat, n: nat): int
    requires n <= |s|
  {
    if n <= a then 0 else 10 * Number(s, a, n - 1) + DigitOf(s[n - 1])
  }

  function Signed(negative: bool, x: int): int { if negative then -x else x }

  /** What a numeral denotes. */
  function Denoted(s: string): real {
    var ds := Digits(s, |s|);
    Value(Signed(Negative(s), Number(ds, 0, |ds|)), Fraction(s, |s|))
  }

  lemma {:induction false} NumberShift(s: string, a: nat, t: string, k: nat)
    requires a + k <= |s| && k <= |t| && forall i :: 0 <= i < k ==> s[a + i] == t[i]
    ensures Number(s, a, a + k) == Number(t, 0, k)
  {
    if k > 0 {
      assert s[a + (k - 1)] == t[k - 1];
      NumberShift(s, a, t, k - 1);
    }
  }

  /** How many of the first `n` characters are zeros at the end. */
  function TrailingZeros(s: string, n: nat): (z: nat)
    requires n <= |s|
    ensures z <= n
  {
    if n > 0 && s[n - 1] == '0' then TrailingZeros(s, n - 1) + 1 else 0
  }

  /** Trailing zeros multiply by ten. */
  lemma {:induction false} ZerosMultiply(s: string, n: nat, z: nat)
    requires n <= |s| && z <= TrailingZeros(s, n)
    ensures Number(s, 0, n) == Number(s, 0, n - z) * Pow(10, z)
  {
    if z > 0 {
      ZerosMultiply(s, n - 1, z - 1);
      MulTenRight(Number(s, 0, n - z), Pow(10, z - 1));
    }
  }

  lemma MulTenRight(a: int, p: int)
    ensures 10 * (a * p) == a * (10 * p)
  {
  }

  /** The last digit decides divisibility by ten. */
  lemma LastDigit(s: string, n: nat, negative: bool)
    requires 0 < n <= |s| && IsDigit(s[n - 1]) && s[n - 1] != '0'
    ensures Signed(negative, Number(s, 0, n)) % 10 != 0
  {
    var x, d := Number(s, 0, n - 1), DigitOf(s[n - 1]);
    DivUnique(10 * x + d, 10, x, d);
    DivUnique(-(10 * x + d), 10, -x - 1, 10 - d);
  }

  // ----- writing -----

  /** The digits of a natural number. */
  function ToDigits(w: nat): string {
    if w < 10 then [Digit(w)] else ToDigits(w / 10) + [Digit(w % 10)]
  }

  /** The last `n` digits, zeros in front if there are fewer. */
  function Padded(w: nat, n: nat): string {
    if n == 0 then [] else Padded(w / 10, n - 1) + [Digit(w % 10)]
  }

  /** Without its last `n` digits. */
  function Drop(w: nat, n: nat): nat {
    if n == 0 then w else Drop(w / 10, n - 1)
  }

  /** The digits before the point and those behind it. */
  function AllDigits(w: nat, n: nat): string { ToDigits(Drop(w, n)) + Padded(w, n) }

  function PointAnd(ds: string): string { if ds == [] then [] else "." + ds }

  function Minus(negative: bool): string { if negative then "-" else "" }

  /** q units of the n-th digit behind the point, written with exactly n digits behind it. */
  function Text(q: int, n: nat): string {
    Minus(q < 0) + (ToDigits(Drop(Abs(q), n)) + PointAnd(Padded(Abs(q), n)))
  }

  /** All the characters are digits. */
  ghost predicate OnlyDigits(s: string) { forall i :: 0 <= i < |s| ==> IsDigit(s[i]) }

  lemma {:induction false} ToDigitsAre(w: nat)
    ensures OnlyDigits(ToDigits(w)) && ToDigits(w) != [] && Number(ToDigits(w), 0, |ToDigits(w)|) == w
  {
    if w >= 10 {
      var t := ToDigits(w / 10);
      ToDigitsAre(w / 10);
      NumberAppend(t, Digit(w % 10));
    } else {
      var s := [Digit(w)];
      assert Number(s, 0, 0) == 0;
      assert Number(s, 0, 1) == w;
    }
  }

  lemma NumberAppend(t: string, c: char)
    ensures Number(t + [c], 0, |t| + 1) == 10 * Number(t, 0, |t|) + DigitOf(c)
  {
    NumberShift(t + [c], 0, t, |t|);
  }

  lemma {:induction false} PaddedAre(w: nat, n: nat)
    ensures OnlyDigits(Padded(w, n)) && |Padded(w, n)| == n
  {
    if n > 0 {
      PaddedAre(w / 10, n - 1);
    }
  }

  /** The digits before and behind the point are those of the number. */
  lemma {:induction false} AllDigitsAre(w: nat, n: nat)
    ensures Number(AllDigits(w, n), 0, |AllDigits(w, n)|) == w
  {
    if n == 0 {
      ToDigitsAre(w);
      assert ToDigits(w) + [] == ToDigits(w);
    } else {
      var t := AllDigits(w / 10, n - 1);
      AllDigitsAre(w / 10, n - 1);
      AllDigitsStep(w, n);
      NumberAppend(t, Digit(w % 10));
    }
  }

  lemma AllDigitsStep(w: nat, n: nat)
    requires n > 0
    ensures AllDigits(w, n) == AllDigits(w / 10, n - 1) + [Digit(w % 10)]
  {
  }

  // ----- what is written reads back -----

  /** From `a` on, `s` holds `t`. */
  ghost predicate At(s: string, a: nat, t: string) {
    a + |t| <= |s| && forall j :: 0 <= j < |t| ==> s[a + j] == t[j]
  }

  lemma {:induction false} LexBefore(s: string, a: nat, i: string, k: nat)
    requires At(s, a, i) && OnlyDigits(i) && k <= |i| && (a == 0 || (a == 1 && s[0] == '-'))
    ensures Digits(s, a + k) == i[..k] && !Point(s, a + k) && Fraction(s, a + k) == 0
  {
    if k > 0 {
      LexBefore(s, a, i, k - 1);
      assert s[a + (k - 1)] == i[k - 1];
      assert i[..k] == i[..k - 1] + [i[k - 1]];
    } else if a == 1 {
      assert Digits(s, 0) == [] && !Point(s, 0) && Fraction(s, 0) == 0;
    }
  }

  lemma {:induction false} LexBehind(s: string, b: nat, f: string, k: nat)
    requires b < |s| && s[b] == '.' && Fraction(s, b) == 0 && At(s, b + 1, f) && OnlyDigits(f) && k <= |f|
    ensures Digits(s, b + 1 + k) == Digits(s, b) + f[..k] && Point(s, b + 1 + k) && Fraction(s, b + 1 + k) == k
  {
    if k > 0 {
      LexBehind(s, b, f, k - 1);
      assert s[b + 1 + (k - 1)] == f[k - 1];
      assert f[..k] == f[..k - 1] + [f[k - 1]];
      Assoc(Digits(s, b), f[..k - 1], [f[k - 1]]);
    }
  }

  /** The text is a minus or none, the digits `i`, and possibly a point with the digits `f` behind it. */
  ghost predicate Spelled(s: string, negative: bool, i: string, point: bool, f: string) {
    && OnlyDigits(i) && OnlyDigits(f) && (point || f == [])
    && |s| == |Minus(negative)| + |i| + (if point then 1 + |f| else 0)
    && (negative ==> s[0] == '-')
    && At(s, |Minus(negative)|, i)
    && (point ==> s[|Minus(negative)| + |i|] == '.' && At(s, |Minus(negative)| + |i| + 1, f))
  }

  /** The same with a digit in front, and a point only if digits follow. */
  ghost predicate Shaped(s: string, negative: bool, i: string, f: string) {
    i != [] && Spelled(s, negative, i, f != [], f)
  }

  lemma WholeText(t: string)
    ensures t[..|t|] == t && t + [] == t
  {
  }

  /** What is read up to the point, or the end. */
  lemma SpelledFront(s: string, negative: bool, i: string, point: bool, f: string)
    requires Spelled(s, negative, i, point, f)
    ensures var b := |Minus(negative)| + |i|; Digits(s, b) == i && !Point(s, b) && Fraction(s, b) == 0
    ensures Negative(s) == negative
  {
    var a := |Minus(negative)|;
    LexBefore(s, a, i, |i|);
    WholeText(i);
    DigitsAt(s, a, i);
  }

  /** How such a text is read. */
  lemma SpelledReads(s: string, negative: bool, i: string, point: bool, f: string)
    requires Spelled(s, negative, i, point, f)
    ensures Digits(s, |s|) == i + f && Fraction(s, |s|) == |f| && (Point(s, |s|) <==> point)
    ensures Negative(s) == negative
  {
    var b := |Minus(negative)| + |i|;
    SpelledFront(s, negative, i, point, f);
    if point {
      BehindPoint(s, b, f);
    } else {
      WholeText(i);
    }
  }

  lemma BehindPoint(s: string, b: nat, f: string)
    requires |s| == b + 1 + |f| && s[b] == '.' && Fraction(s, b) == 0 && At(s, b + 1, f) && OnlyDigits(f)
    ensures Digits(s, |s|) == Digits(s, b) + f && Point(s, |s|) && Fraction(s, |s|) == |f|
  {
    LexBehind(s, b, f, |f|);
    WholeText(f);
  }

  lemma DigitsAt(s: string, a: nat, t: string)
    requires At(s, a, t) && OnlyDigits(t)
    ensures forall k :: a <= k < a + |t| ==> IsDigit(s[k])
    ensures t != [] ==> s[a] == t[0]
  {
    forall k | a <= k < a + |t| ensures IsDigit(s[k]) {
      assert s[a + (k - a)] == t[k - a];
    }
    if t != [] {
      assert s[a + 0] == t[0];
    }
  }

  lemma SpelledFits(s: string, negative: bool, i: string, point: bool, f: string, k: nat)
    requires Spelled(s, negative, i, point, f) && k < |s|
    ensures Fits(s, k)
  {
    var a, b := |Minus(negative)|, |Minus(negative)| + |i|;
    if k < b {
      DigitsAt(s, a, i);
    } else if k == b {
      SpelledFront(s, negative, i, point, f);
    } else {
      DigitsAt(s, b + 1, f);
    }
  }

  lemma SpelledIsNumeral(s: string, negative: bool, i: string, point: bool, f: string)
    requires Spelled(s, negative, i, point, f) && i + f != []
    ensures IsNumeral(s)
  {
    SpelledReads(s, negative, i, point, f);
    forall k | 0 <= k < |s| ensures Fits(s, k) {
      SpelledFits(s, negative, i, point, f, k);
    }
  }

  /** The only point, and what stands around it. */
  lemma {:induction false} OnlyPoint(s: string, n: nat) returns (p: nat)
    requires n <= |s| && Point(s, n) && forall k :: 0 <= k < n ==> Fits(s, k)
    ensures p < n && s[p] == '.' && !Point(s, p)
    ensures forall k :: p < k < n ==> IsDigit(s[k])
  {
    assert Fits(s, n - 1);
    if s[n - 1] == '.' {
      p := n - 1;
    } else {
      p := OnlyPoint(s, n - 1);
    }
  }

  lemma {:induction false} NoPoint(s: string, n: nat)
    requires n <= |s| && !Point(s, n) && forall k :: 0 <= k < n ==> Fits(s, k)
    ensures forall k :: 0 <= k < n && (k > 0 || !Negative(s)) ==> IsDigit(s[k])
  {
    if n > 0 {
      NoPoint(s, n - 1);
      assert Fits(s, n - 1);
    }
  }

  lemma NumeralIsSpelled(s: string) returns (i: string, point: bool, f: string)
    requires IsNumeral(s)
    ensures Spelled(s, Negative(s), i, point, f) && i + f != []
  {
    var a := |Minus(Negative(s))|;
    point := Point(s, |s|);
    if point {
      var p := OnlyPoint(s, |s|);
      NoPoint(s, p);
      i, f := s[a..p], s[p + 1..];
    } else {
      NoPoint(s, |s|);
      i, f := s[a..], [];
    }
    SpelledReads(s, Negative(s), i, point, f);
  }

  /** Which texts are numerals: those that are spelled so with one digit at least. */
  lemma NumeralExactly(s: string)
    ensures IsNumeral(s) <==>
      exists negative: bool, i: string, point: bool, f: string :: Spelled(s, negative, i, point, f) && i + f != []
  {
    if IsNumeral(s) {
      var i, point, f := NumeralIsSpelled(s);
    }
    forall negative: bool, i: string, point: bool, f: string | Spelled(s, negative, i, point, f) && i + f != []
      ensures IsNumeral(s)
    {
      SpelledIsNumeral(s, negative, i, point, f);
    }
  }

  /** A numeral denotes the integer all its digits write, in units of its last digit. */
  lemma NumeralDenotes(s: string, negative: bool, i: string, point: bool, f: string)
    requires Spelled(s, negative, i, point, f)
    ensures Denoted(s) == Value(Signed(negative, Number(i + f, 0, |i + f|)), |f|)
  {
    SpelledReads(s, negative, i, point, f);
  }

  lemma TextIsShaped(q: int, n: nat)
    ensures Shaped(Text(q, n), q < 0, ToDigits(Drop(Abs(q), n)), Padded(Abs(q), n))
  {
    ToDigitsAre(Drop(Abs(q), n));
    PaddedAre(Abs(q), n);
  }

  /** A written number is a numeral with exactly n digits behind the point, and denotes what was written. */
  lemma TextDenotes(q: int, n: nat)
    ensures var s := Text(q, n);
      IsNumeral(s) && Fraction(s, |s|) == n && (Point(s, |s|) <==> n > 0) && Denoted(s) == Value(q, n)
  {
    var s, i, f := Text(q, n), ToDigits(Drop(Abs(q), n)), Padded(Abs(q), n);
    TextIsShaped(q, n);
    SpelledReads(s, q < 0, i, f != [], f);
    SpelledIsNumeral(s, q < 0, i, f != [], f);
    PaddedAre(Abs(q), n);
    AllDigitsAre(Abs(q), n);
  }

  /** A canonical decimal that is read from a text is the one that was written, if that was canonical. */
  lemma ReadsBack(v: int, scale: nat, q: int, n: nat, v': int, scale': nat)
    requires Holds(v, scale, q, n) && Canonical(v, scale)
    requires Canonical(v', scale') && Value(v', scale') == Denoted(Text(q, n))
    ensures v' == v && scale' == scale
  {
    TextDenotes(q, n);
    ValueUpscaled(v, scale, n - scale);
    CanonicalIsUnique(v, scale, v', scale');
  }

  // ----- the form of what is written -----

  /** Where the digits in front of the point begin, and where they end if n digits stand behind it. */
  function Start(s: string): nat { if Negative(s) then 1 else 0 }

  function End(s: string, n: nat): int { if n == 0 then |s| else |s| - n - 1 }

  /**
   * The plain numeral with n digits behind the point: at least one digit in front of it, and no zero
   * in front of another digit there; a point only if digits follow; a minus exactly for what is negative.
   */
  ghost predicate IsPlain(s: string, n: nat) {
    HasForm(s, n) && (Negative(s) <==> Denoted(s) < 0.0)
  }

  ghost predicate HasForm(s: string, n: nat) {
    PlainFront(s, Start(s), End(s, n)) && (n > 0 ==> PlainRest(s, End(s, n)))
  }

  ghost predicate PlainFront(s: string, a: nat, b: int) {
    a < b <= |s| && (forall i :: a <= i < b ==> IsDigit(s[i])) && (s[a] == '0' ==> b == a + 1)
  }

  ghost predicate PlainRest(s: string, b: int) {
    0 <= b < |s| && s[b] == '.' && forall i :: b < i < |s| ==> IsDigit(s[i])
  }

  lemma {:induction false} NoLeadingZero(w: nat)
    ensures ToDigits(w)[0] == '0' <==> w == 0
    ensures |ToDigits(w)| > 1 ==> w > 0
    decreases w
  {
    if w >= 10 {
      NoLeadingZero(w / 10);
      ToDigitsAre(w / 10);
    }
  }

  lemma SingleZero(w: nat)
    requires ToDigits(w)[0] == '0'
    ensures |ToDigits(w)| == 1
  {
    NoLeadingZero(w);
  }

  lemma ValueSign(q: int, n: nat)
    ensures Value(q, n) < 0.0 <==> q < 0
  {
    Scaled(q as real, Ten(n), 0.0);
  }

  lemma ShapedFrontIsPlain(s: string, negative: bool, i: string, f: string)
    requires Shaped(s, negative, i, f) && (i[0] == '0' ==> |i| == 1)
    ensures PlainFront(s, |Minus(negative)|, |Minus(negative)| + |i|)
  {
    DigitsAt(s, |Minus(negative)|, i);
  }

  lemma ShapedRestIsPlain(s: string, negative: bool, i: string, f: string)
    requires Shaped(s, negative, i, f) && f != []
    ensures PlainRest(s, |Minus(negative)| + |i|)
  {
    DigitsAt(s, |Minus(negative)| + |i| + 1, f);
  }

  lemma ShapedHasForm(s: string, negative: bool, i: string, f: string)
    requires Shaped(s, negative, i, f) && (i[0] == '0' ==> |i| == 1)
    ensures HasForm(s, |f|) && Negative(s) == negative
  {
    SpelledFront(s, negative, i, f != [], f);
    ShapedFrontIsPlain(s, negative, i, f);
    if f != [] {
      ShapedRestIsPlain(s, negative, i, f);
    }
  }

  /** What is written is plain. */
  lemma TextIsPlain(q: int, n: nat)
    ensures IsPlain(Text(q, n), n)
  {
    var i := ToDigits(Drop(Abs(q), n));
    TextIsShaped(q, n);
    TextDenotes(q, n);
    ValueSign(q, n);
    PaddedAre(Abs(q), n);
    if i[0] == '0' {
      SingleZero(Drop(Abs(q), n));
    }
    ShapedHasForm(Text(q, n), q < 0, i, Padded(Abs(q), n));
  }

  /** Digits that write one number and are as many are the same. */
  lemma {:induction false} SameDigits(s: string, t: string, n: nat)
    requires OnlyDigits(s) && OnlyDigits(t) && n <= |s| && n <= |t| && Number(s, 0, n) == Number(t, 0, n)
    ensures s[..n] == t[..n]
  {
    if n > 0 {
      QuotientUnique(10, Number(s, 0, n - 1), DigitOf(s[n - 1]), Number(t, 0, n - 1), DigitOf(t[n - 1]));
      SameDigits(s, t, n - 1);
      assert s[..n] == s[..n - 1] + [s[n - 1]] && t[..n] == t[..n - 1] + [t[n - 1]];
    }
  }

  /** How large a number is whose first digit is not zero, and how small any with so many digits. */
  lemma {:induction false} NumberBounds(s: string, n: nat)
    requires OnlyDigits(s) && n <= |s|
    ensures 0 <= Number(s, 0, n) < Pow(10, n)
    ensures n > 0 && s[0] != '0' ==> Number(s, 0, n) >= Pow(10, n - 1)
  {
    if n > 0 {
      NumberBounds(s, n - 1);
      if n == 1 {
        assert Number(s, 0, 0) == 0;
      }
    }
  }

  lemma {:induction false} PowGrows(m: nat, n: nat)
    requires m <= n
    ensures Pow(10, m) <= Pow(10, n)
  {
    if m < n {
      PowGrows(m, n - 1);
      PowPositive(10, n - 1);
    }
  }

  /** Of two writings of one number, neither has more digits unless it starts with a zero. */
  lemma NoMoreDigits(s: string, t: string)
    requires OnlyDigits(s) && OnlyDigits(t) && |s| > |t| && s[0] != '0'
    ensures Number(s, 0, |s|) != Number(t, 0, |t|)
  {
    NumberBounds(s, |s|);
    NumberBounds(t, |t|);
    PowGrows(|t|, |s| - 1);
  }

  ghost function Front(s: string, n: nat): string
    requires HasForm(s, n)
  {
    s[Start(s)..End(s, n)]
  }

  ghost function Rest(s: string, n: nat): string
    requires HasForm(s, n)
  {
    if n == 0 then [] else s[End(s, n) + 1..]
  }

  lemma PlainIsShaped(s: string, n: nat)
    requires HasForm(s, n)
    ensures Shaped(s, Negative(s), Front(s, n), Rest(s, n)) && |Rest(s, n)| == n
  {
    var a, b := Start(s), End(s, n);
    SliceAt(s, a, b);
    if n > 0 {
      SliceAt(s, b + 1, |s|);
      assert s[b + 1..|s|] == s[b + 1..];
    }
  }

  lemma SliceAt(s: string, a: nat, b: int)
    requires a <= b <= |s| && forall i :: a <= i < b ==> IsDigit(s[i])
    ensures At(s, a, s[a..b]) && OnlyDigits(s[a..b])
  {
  }

  lemma PlainParts(s: string, n: nat)
    requires HasForm(s, n)
    ensures s == Minus(Negative(s)) + (Front(s, n) + PointAnd(Rest(s, n)))
  {
    if n == 0 {
      WithoutPoint(s);
    } else {
      WithPoint(s, End(s, n));
    }
  }

  lemma WithoutPoint(s: string)
    ensures s == Minus(Negative(s)) + (s[Start(s)..|s|] + "")
  {
    MinusFirst(s);
    CutTwice(s, Start(s), |s|);
  }

  lemma WithPoint(s: string, b: nat)
    requires Start(s) <= b < |s| - 1 && s[b] == '.'
    ensures s == Minus(Negative(s)) + (s[Start(s)..b] + PointAnd(s[b + 1..]))
  {
    MinusFirst(s);
    CutTwice(s, Start(s), b);
    CutPoint(s, b);
  }

  lemma MinusFirst(s: string)
    ensures s[..Start(s)] == Minus(Negative(s))
  {
  }

  lemma CutTwice(s: string, a: nat, b: nat)
    requires a <= b <= |s|
    ensures s == s[..a] + (s[a..b] + s[b..])
  {
  }

  lemma CutPoint(s: string, b: nat)
    requires b < |s| && s[b] == '.'
    ensures s[b..] == "." + s[b + 1..]
  {
  }

  /** The integer a plain numeral writes. */
  lemma PlainReads(s: string, n: nat)
    requires IsPlain(s, n)
    ensures var ds := Front(s, n) + Rest(s, n);
      && OnlyDigits(ds) && |ds| > n && (ds[0] == '0' ==> |ds| == n + 1)
      && Denoted(s) == Value(Signed(Negative(s), Number(ds, 0, |ds|)), n)
  {
    PlainIsShaped(s, n);
    SpelledReads(s, Negative(s), Front(s, n), Rest(s, n) != [], Rest(s, n));
  }

  lemma SamePlainDigits(s: string, t: string, n: nat)
    requires OnlyDigits(s) && |s| > n && (s[0] == '0' ==> |s| == n + 1)
    requires OnlyDigits(t) && |t| > n && (t[0] == '0' ==> |t| == n + 1)
    requires Number(s, 0, |s|) == Number(t, 0, |t|)
    ensures s == t
  {
    if |s| > |t| {
      NoMoreDigits(s, t);
    } else if |t| > |s| {
      NoMoreDigits(t, s);
    } else {
      SameDigits(s, t, |s|);
      assert s[..|s|] == s && t[..|t|] == t;
    }
  }

  /** There is one plain numeral for every number: what is written is the only way to write it. */
  lemma PlainIsUnique(s: string, t: string, n: nat)
    requires IsPlain(s, n) && IsPlain(t, n) && Denoted(s) == Denoted(t)
    ensures s == t
  {
    SamePieces(s, t, n);
    PlainParts(s, n);
    PlainParts(t, n);
  }

  lemma SamePieces(s: string, t: string, n: nat)
    requires IsPlain(s, n) && IsPlain(t, n) && Denoted(s) == Denoted(t)
    ensures Negative(s) == Negative(t) && Front(s, n) == Front(t, n) && Rest(s, n) == Rest(t, n)
  {
    var ds, es := Front(s, n) + Rest(s, n), Front(t, n) + Rest(t, n);
    PlainReads(s, n);
    PlainReads(t, n);
    PlainIsShaped(s, n);
    PlainIsShaped(t, n);
    SameSigned(Negative(s), Number(ds, 0, |ds|), Number(es, 0, |es|), n);
    SamePlainDigits(ds, es, n);
    SplitAlike(Front(s, n), Rest(s, n), Front(t, n), Rest(t, n));
  }

  lemma SameSigned(negative: bool, x: int, y: int, n: nat)
    requires Value(Signed(negative, x), n) == Value(Signed(negative, y), n)
    ensures x == y
  {
    ValueOrder(Signed(negative, x), Signed(negative, y), n);
  }

  lemma SplitAlike(a: string, b: string, c: string, d: string)
    requires a + b == c + d && |b| == |d|
    ensures a == c && b == d
  {
    assert a == (a + b)[..|a|] && c == (c + d)[..|c|];
    assert b == (a + b)[|a|..] && d == (c + d)[|c|..];
  }

  // ----- how the digits of a scaled number lie -----

  function Zeros(n: nat): (z: string)
    ensures |z| == n && forall i :: 0 <= i < n ==> z[i] == '0'
  {
    if n == 0 then [] else Zeros(n - 1) + ['0']
  }

  /** Multiplying by ten appends a zero behind the point. */
  lemma {:induction false} ZerosBehind(w: nat, m: nat, e: nat)
    ensures w * Pow(10, e) >= 0
    ensures Padded(w * Pow(10, e), m + e) == Padded(w, m) + Zeros(e)
    ensures Drop(w * Pow(10, e), m + e) == Drop(w, m)
  {
    if e == 0 {
      assert w * Pow(10, 0) == w;
      assert Padded(w, m) + [] == Padded(w, m);
    } else {
      var x := w * Pow(10, e - 1);
      ZerosBehind(w, m, e - 1);
      MulTenRight(w, Pow(10, e - 1));
      DivUnique(10 * x, 10, x, 0);
      Assoc(Padded(w, m), Zeros(e - 1), ['0']);
    }
  }

  /** Fewer digits behind the point than there are: the digits are cut in two. */
  lemma {:induction false} CutInTwo(w: nat, m: nat)
    requires m < |ToDigits(w)|
    ensures var d := ToDigits(w);
      ToDigits(Drop(w, m)) == d[..|d| - m] && Padded(w, m) == d[|d| - m..]
  {
    if m > 0 {
      CutInTwo(w / 10, m - 1);
    }
  }

  /** As many or more: zeros stand in front. */
  lemma {:induction false} ZerosInFront(w: nat, m: nat)
    requires m >= |ToDigits(w)|
    ensures Drop(w, m) == 0 && Padded(w, m) == Zeros(m - |ToDigits(w)|) + ToDigits(w)
  {
    if w < 10 {
      ZeroPadded(m - 1);
    } else {
      ZerosInFront(w / 10, m - 1);
      Assoc(Zeros(m - |ToDigits(w)|), ToDigits(w / 10), [Digit(w % 10)]);
    }
  }

  lemma {:induction false} ZeroPadded(m: nat)
    ensures Drop(0, m) == 0 && Padded(0, m) == Zeros(m)
  {
    if m > 0 {
      ZeroPadded(m - 1);
    }
  }
}
