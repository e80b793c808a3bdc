/** The names of council nodes: how they are made, and which children of the election path count. */
module CouncilNodes {
  import opened Arithmetic
  import opened Basics
  import opened DecimalText

  const INT32_MAX := 0x7FFF_FFFF

  /** The node of a candidate: its name, an underscore and ten digits. */
  function NodeName(name: string, i: nat): string { name + ("_" + Padded(i, 10)) }

  predicate IsSpace(c: char) {
    c == ' ' || c == '\t' || c == '\n' || c == '\r' || c as int == 11 || c as int == 12
  }

  /** Where the blanks that start at `p` end. */
  function BlanksEnd(t: string, p: nat): (q: nat)
    requires p <= |t|
    ensures p <= q <= |t|
    decreases |t| - p
  {
    if p < |t| && IsSpace(t[p]) then BlanksEnd(t, p + 1) else p
  }

  /** atoi32: blanks, a sign and digits to the very end, or -1; also -1 for what is negative or does not fit. */
  function Atoi32(t: string): int {
    var p := BlanksEnd(t, 0);
    var q := if p < |t| && (t[p] == '-' || t[p] == '+') then p + 1 else p;
    var x := Number(t, q, |t|);
    if q == |t| || exists k :: q <= k < |t| && !IsDigit(t[k]) then -1
    else if t[p] == '-' then (if x == 0 then 0 else -1)
    else if x > INT32_MAX then -1
    else x
  }

  /** Where the last underscore of the first `n` characters stands, or -1. */
  function LastUnderscore(s: string, n: nat): (p: int)
    requires n <= |s|
    ensures -1 <= p < n
  {
    if n == 0 then -1 else if s[n - 1] == '_' then n - 1 else LastUnderscore(s, n - 1)
  }

  /** A child that counts: its number and the name in front. */
  function Candidate(s: string): Option<(int, string)> {
    var pos := LastUnderscore(s, |s|);
    if pos <= 0 || pos + 11 != |s| then None
    else
      var i := Atoi32(s[pos + 1..]);
      if i < 0 then None else Some((i, s[..pos]))
  }

  lemma {:induction false} PaddedNumber(w: nat, n: nat)
    requires w < Pow(10, n)
    ensures |Padded(w, n)| == n && Number(Padded(w, n), 0, n) == w
  {
    PaddedAre(w, n);
    if n > 0 {
      PaddedAre(w / 10, n - 1);
      PaddedNumber(w / 10, n - 1);
      NumberAppend(Padded(w / 10, n - 1), Digit(w % 10));
    }
  }

  lemma {:induction false} NoUnderscore(s: string, p: nat, n: nat)
    requires p < n <= |s| && s[p] == '_' && forall k :: p < k < n ==> s[k] != '_'
    ensures LastUnderscore(s, n) == p
  {
    if n > p + 1 {
      NoUnderscore(s, p, n - 1);
    }
  }

  /** A child counts exactly if it is a name, an underscore and ten characters that are understood as a number. */
  lemma CandidateExactly(s: string, i: int, name: string)
    ensures Candidate(s) == Some((i, name)) <==> exists t: string :: IsChild(s, i, name, t)
  {
    if Candidate(s) == Some((i, name)) {
      CandidateIsChild(s, i, name);
    }
    forall t: string | IsChild(s, i, name, t) ensures Candidate(s) == Some((i, name)) {
      ChildIsCandidate(s, i, name, t);
    }
  }

  lemma CandidateIsChild(s: string, i: int, name: string)
    requires Candidate(s) == Some((i, name))
    ensures IsChild(s, i, name, s[LastUnderscore(s, |s|) + 1..])
  {
    var pos := LastUnderscore(s, |s|);
    CandidateParts(s);
    LastIsLast(s, |s|);
    SplitAt(s, pos);
    NoneBehind(s, pos);
  }

  lemma CandidateParts(s: string)
    requires Candidate(s).Some?
    ensures var pos := LastUnderscore(s, |s|); var c := Candidate(s).value;
      0 < pos && pos + 11 == |s| && c.0 == Atoi32(s[pos + 1..]) >= 0 && c.1 == s[..pos] != ""
  {
  }

  lemma NoneBehind(s: string, p: nat)
    requires p < |s| && forall k :: p < k < |s| ==> s[k] != '_'
    ensures '_' !in s[p + 1..]
  {
  }

  lemma SplitAt(s: string, p: nat)
    requires p < |s| && s[p] == '_'
    ensures s == s[..p] + ("_" + s[p + 1..])
  {
  }

  lemma ChildIsCandidate(s: string, i: int, name: string, t: string)
    requires IsChild(s, i, name, t)
    ensures Candidate(s) == Some((i, name))
  {
    assert forall k :: |name| < k < |s| ==> s[k] == t[k - |name| - 1];
    NoUnderscore(s, |name|, |s|);
    assert s[|name| + 1..] == t && s[..|name|] == name;
  }

  ghost predicate IsChild(s: string, i: int, name: string, t: string) {
    name != [] && |t| == 10 && '_' !in t && s == name + ("_" + t) && i >= 0 && Atoi32(t) == i
  }

  lemma {:induction false} LastIsLast(s: string, n: nat)
    requires n <= |s|
    ensures var p := LastUnderscore(s, n);
      (p >= 0 ==> s[p] == '_') && forall k :: p < k < n ==> s[k] != '_'
  {
    if n > 0 && s[n - 1] != '_' {
      LastIsLast(s, n - 1);
    }
  }

  ghost predicate AllSpaces(b: string) { forall i :: 0 <= i < |b| ==> IsSpace(b[i]) }

  lemma {:induction false} BlanksEndIs(t: string, p: nat, q: nat)
    requires p <= q <= |t| && (forall i :: p <= i < q ==> IsSpace(t[i])) && (q < |t| ==> !IsSpace(t[q]))
    ensures BlanksEnd(t, p) == q
    decreases q - p
  {
    if p < q {
      BlanksEndIs(t, p + 1, q);
    }
  }

  /** The text is blanks, a sign or none, and at least one digit. */
  ghost predicate IsSigned(t: string, b: string, sign: string, d: string) {
    && t == b + (sign + d) && AllSpaces(b) && (sign == "" || sign == "+" || sign == "-")
    && d != [] && OnlyDigits(d)
  }

  /** Blanks, a sign and digits are understood as that number, if it is not negative and fits in 32 bits. */
  lemma NumeralsAreUnderstood(t: string, b: string, sign: string, d: string)
    requires IsSigned(t, b, sign, d)
    ensures var x := Number(d, 0, |d|);
      Atoi32(t) == if (sign == "-" && x != 0) || (sign != "-" && x > INT32_MAX) then -1 else x
  {
    SignedHead(t, b, sign, d);
    SignedTail(t, b, sign, d);
    UnderstoodAt(t, |b|, |b| + |sign|, d);
  }

  lemma UnderstoodAt(t: string, p: nat, a: nat, d: string)
    requires p == BlanksEnd(t, 0) && p <= a < |t| && a == (if t[p] == '-' || t[p] == '+' then p + 1 else p)
    requires |t| == a + |d| && At(t, a, d) && OnlyDigits(d)
    ensures var x := Number(d, 0, |d|);
      Atoi32(t) == if (t[p] == '-' && x != 0) || (t[p] != '-' && x > INT32_MAX) then -1 else x
  {
    SignedDigits(t, a, d);
    Atoi32Is(t, p, a, Number(d, 0, |d|));
  }

  lemma SignedTail(t: string, b: string, sign: string, d: string)
    requires IsSigned(t, b, sign, d)
    ensures |t| == |b| + |sign| + |d| && At(t, |b| + |sign|, d)
  {
    Assoc(b, sign, d);
    StandsBehind(b + sign, d);
  }

  lemma SignedHead(t: string, b: string, sign: string, d: string)
    requires IsSigned(t, b, sign, d)
    ensures BlanksEnd(t, 0) == |b| < |t|
    ensures (t[|b|] == '-' <==> sign == "-") && (t[|b|] == '+' <==> sign == "+")
  {
    var p := |b|;
    assert forall i :: 0 <= i < p ==> t[i] == b[i];
    assert t[p] == (sign + d)[0];
    assert IsDigit(d[0]);
    BlanksEndIs(t, 0, p);
  }

  lemma SignedDigits(t: string, a: nat, d: string)
    requires |t| == a + |d| && At(t, a, d) && OnlyDigits(d)
    ensures Number(t, a, |t|) == Number(d, 0, |d|)
    ensures forall k :: a <= k < |t| ==> IsDigit(t[k])
  {
    NumberBehind(t, a, d);
    DigitsAt(t, a, d);
  }

  lemma NumberBehind(t: string, a: nat, d: string)
    requires |t| == a + |d| && forall i :: 0 <= i < |d| ==> t[a + i] == d[i]
    ensures Number(t, a, |t|) == Number(d, 0, |d|)
  {
    NumberShift(t, a, d, |d|);
  }

  lemma StandsBehind(front: string, d: string)
    ensures At(front + d, |front|, d)
  {
  }

  lemma Atoi32Is(t: string, p: nat, q: nat, x: int)
    requires p == BlanksEnd(t, 0) && p <= q < |t| && (forall k :: q <= k < |t| ==> IsDigit(t[k]))
    requires q == (if t[p] == '-' || t[p] == '+' then p + 1 else p) && x == Number(t, q, |t|)
    ensures Atoi32(t) == if (t[p] == '-' && x != 0) || (t[p] != '-' && x > INT32_MAX) then -1 else x
  {
  }

  /** Nothing else is understood. */
  lemma OnlyNumeralsAreUnderstood(t: string) returns (b: string, sign: string, d: string)
    requires Atoi32(t) >= 0
    ensures IsSigned(t, b, sign, d)
  {
    var p := BlanksEnd(t, 0);
    var q := if p < |t| && (t[p] == '-' || t[p] == '+') then p + 1 else p;
    b, sign, d := t[..p], t[p..q], t[q..];
    BlanksAre(t, 0);
    CutTwice(t, p, q);
    UnderstoodDigits(t, p, q);
    assert q == p + 1 ==> sign == [t[p]];
  }

  lemma UnderstoodDigits(t: string, p: nat, q: nat)
    requires Atoi32(t) >= 0 && p == BlanksEnd(t, 0)
    requires q == if p < |t| && (t[p] == '-' || t[p] == '+') then p + 1 else p
    ensures q < |t| && OnlyDigits(t[q..])
  {
  }

  lemma {:induction false} BlanksAre(t: string, p: nat)
    requires p <= |t|
    ensures forall i :: p <= i < BlanksEnd(t, p) ==> IsSpace(t[i])
    decreases |t| - p
  {
    if p < |t| && IsSpace(t[p]) {
      BlanksAre(t, p + 1);
    }
  }

  lemma TenDigits(i: nat)
    requires i <= INT32_MAX
    ensures Atoi32(Padded(i, 10)) == i
  {
    var t := Padded(i, 10);
    PaddedAre(i, 10);
    assert Pow(10, 3) == 1000;
    PowAdd(10, 3, 3);
    PowAdd(10, 6, 3);
    PowAdd(10, 9, 1);
    assert Pow(10, 1) == 10;
    PaddedNumber(i, 10);
    assert IsDigit(t[0]);
  }

  /** Every process finds every candidate again under its own number and name. */
  lemma NodeIsCandidate(name: string, i: nat)
    requires name != [] && i <= INT32_MAX
    ensures Candidate(NodeName(name, i)) == Some((i, name))
  {
    var s, t := NodeName(name, i), Padded(i, 10);
    PaddedAre(i, 10);
    TenDigits(i);
    assert forall k :: |name| < k < |s| ==> s[k] == t[k - |name| - 1] && IsDigit(s[k]);
    NoUnderscore(s, |name|, |s|);
    assert s[|name| + 1..] == t && s[..|name|] == name;
  }

  /** The candidates among the first `n` children; of two with one number the first counts. */
  function Candidates(children: seq<string>, n: nat): map<int, string>
    requires n <= |children|
  {
    if n == 0 then map[]
    else
      var m := Candidates(children, n - 1);
      match Candidate(children[n - 1])
      case None => m
      case Some(c) => if c.0 in m then m else m[c.0 := c.1]
  }

  /** Exactly the numbers of the children that count. */
  lemma {:induction false} CandidatesAre(children: seq<string>, n: nat, i: int)
    requires n <= |children|
    ensures i in Candidates(children, n) <==>
      exists k :: 0 <= k < n && Candidate(children[k]).Some? && Candidate(children[k]).value.0 == i
  {
    if n > 0 {
      CandidatesAre(children, n - 1, i);
    }
  }

  method FindCandidates(children: seq<string>) returns (m: map<int, string>)
    ensures m == Candidates(children, |children|)
  {
    m := map[];
    var k := 0;
    while k < |children|
      invariant k <= |children| && m == Candidates(children, k)
    {
      var s := children[k];
      var pos := LastUnderscore(s, |s|);
      if pos != -1 && pos != 0 && pos + 11 == |s| {
        var i := Atoi32(s[pos + 1..]);
        if i >= 0 && i !in m {
          m := m[i := s[..pos]];
        }
      }
      k := k + 1;
    }
  }
}
