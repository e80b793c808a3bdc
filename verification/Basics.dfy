/** What several of the models need: options, signs, characters, and steps over sets and increasing sequences. */
module Basics {
  datatype Option<+T> = None | Some(value: T)

  function Sign(x: int): int { if x > 0 then 1 else if x < 0 then -1 else 0 }

  predicate IsDigit(c: char) { '0' <= c <= '9' }

  predicate IsBlank(c: char) { c == ' ' || c == '\t' }

  lemma Assoc<T>(a: seq<T>, b: seq<T>, c: seq<T>)
    ensures (a + b) + c == a + (b + c)
  {
  }

  lemma FrontAndLast<T>(s: seq<T>)
    requires s != []
    ensures s == s[..|s| - 1] + [s[|s| - 1]]
  {
  }

  /** Stores one character behind the first `n`. */
  method Store(buffer: array<char>, n: nat, c: char)
    requires n < buffer.Length
    modifies buffer
    ensures buffer[..n + 1] == old(buffer[..n]) + [c]
  {
    buffer[n] := c;
  }

  // ----- sets and increasing sequences -----

  predicate Increasing(s: seq<int>) { forall i, j :: 0 <= i < j < |s| ==> s[i] < s[j] }

  function Elements(s: seq<int>): set<int> { set x | x in s }

  /** A set that is not empty has an element. */
  lemma SomeElement(s: set<int>)
    ensures s != {} ==> exists x :: x in s
  {
    if forall x :: x !in s {
      assert s == {};
    }
  }

  lemma {:induction false} SubsetSmaller(a: set<int>, b: set<int>)
    requires a <= b
    ensures |a| <= |b|
  {
    if |a| > 0 {
      SomeElement(a);
      var x :| x in a;
      SubsetSmaller(a - {x}, b - {x});
    }
  }

  /** A set has one increasing enumeration. */
  lemma {:induction false} IncreasingUnique(a: seq<int>, b: seq<int>)
    requires Increasing(a) && Increasing(b) && Elements(a) == Elements(b)
    ensures a == b
    decreases |a|
  {
    forall k | 0 <= k < |a| ensures a[k] in Elements(b) {
      assert a[k] in Elements(a);
    }
    forall k | 0 <= k < |b| ensures b[k] in Elements(a) {
      assert b[k] in Elements(b);
    }
    assert |a| > 0 ==> a[0] in b;
    assert |b| > 0 ==> b[0] in a;
    if a != [] && b != [] {
      var x, y := a[|a| - 1], b[|b| - 1];
      assert x == y;
      DropLast(a);
      DropLast(b);
      IncreasingUnique(a[..|a| - 1], b[..|b| - 1]);
    }
  }

  lemma DropLast(a: seq<int>)
    requires a != [] && Increasing(a)
    ensures Increasing(a[..|a| - 1]) && Elements(a[..|a| - 1]) == Elements(a) - {a[|a| - 1]}
    ensures a == a[..|a| - 1] + [a[|a| - 1]]
  {
  }

  /** The least element of a set. */
  method Smallest(s: set<int>) returns (m: int)
    requires |s| > 0
    ensures m in s && forall x :: x in s ==> m <= x
  {
    SomeElement(s);
    m :| m in s;
    var left := s - {m};
    while |left| > 0
      invariant left <= s && m in s && forall x :: x in s && x !in left ==> m <= x
      decreases |left|
    {
      SomeElement(left);
      var x :| x in left;
      if x < m {
        m := x;
      }
      left := left - {x};
    }
    assert left == {};
  }

  /** All that is listed is below all that is left. */
  ghost predicate Below(list: seq<int>, left: set<int>) {
    forall x, k :: x in left && 0 <= k < |list| ==> list[k] < x
  }

  lemma AppendGreatest(list: seq<int>, m: int)
    requires Increasing(list) && forall k :: 0 <= k < |list| ==> list[k] < m
    ensures Increasing(list + [m]) && Elements(list + [m]) == Elements(list) + {m}
  {
  }

  /** A nonempty set has a greatest element. */
  lemma {:induction false} Greatest(s: set<int>) returns (m: int)
    requires |s| > 0
    ensures m in s && forall x :: x in s ==> x <= m
    decreases |s|
  {
    SomeElement(s);
    var x :| x in s;
    var t := s - {x};
    assert s == t + {x};
    if |t| == 0 {
      assert t == {};
      m := x;
    } else {
      m := Greatest(t);
      if m < x {
        m := x;
      }
    }
  }

  /** A finite set, listed in order. */
  lemma {:induction false} InAList(s: set<int>) returns (list: seq<int>)
    ensures Increasing(list) && Elements(list) == s
    decreases |s|
  {
    if |s| == 0 {
      list := [];
      assert s == {};
    } else {
      var m := Greatest(s);
      var init := InAList(s - {m});
      assert forall k :: 0 <= k < |init| ==> init[k] in Elements(init);
      AppendGreatest(init, m);
      list := init + [m];
    }
  }

  /** An increasing sequence has as many elements as places. */
  lemma {:induction false} IncreasingCounts(a: seq<int>)
    requires Increasing(a)
    ensures |Elements(a)| == |a|
    decreases |a|
  {
    if a != [] {
      DropLast(a);
      IncreasingCounts(a[..|a| - 1]);
    }
  }

  lemma MoveSmallest(list: seq<int>, left: set<int>, m: int)
    requires Increasing(list) && Below(list, left) && m in left && forall x :: x in left ==> m <= x
    ensures Increasing(list + [m]) && Below(list + [m], left - {m})
    ensures Elements(list + [m]) + (left - {m}) == Elements(list) + left
  {
    AppendGreatest(list, m);
  }

  /** The keys of a map in the order it is walked. */
  method InOrder(keys: set<int>) returns (list: seq<int>)
    ensures Increasing(list) && Elements(list) == keys
  {
    list := [];
    var left := keys;
    while |left| > 0
      invariant Increasing(list) && Below(list, left) && Elements(list) + left == keys
      decreases |left|
    {
      var m := Smallest(left);
      MoveSmallest(list, left, m);
      list := list + [m];
      left := left - {m};
    }
    assert left == {};
  }
}
