/** Parser of affinity lists such as "0-3, 8; ; 1,5". */
module Explode {
  // Lists are separated by semicolons, each a comma list of numbers and ascending ranges. A terminating NUL also
  // ends a list, as it does in a C string.

  import opened Basics
  import DecimalText

  const INT_MAX := 0x7fff_ffff

  // ----- the grammar -----

  datatype Token = Number(n: int) | Dash | Comma

  datatype Item = Single(n: int) | Range(low: int, high: int)

  predicate IsSeparator(c: char) { c == ';' || c == '\0' }

  /** Where the run of digits that starts at `p` ends. */
  function DigitsEnd(s: string, p: nat, e: nat): (q: nat)
    requires p <= e <= |s|
    ensures p <= q <= e
    ensures p < e && IsDigit(s[p]) ==> p < q
    decreases e - p
  {
    if p < e && IsDigit(s[p]) then DigitsEnd(s, p + 1, e) else p
  }

  /** The number written with the characters from `p` to `q`. */
  function NumberAt(s: string, p: nat, q: nat): (n: int)
    requires p <= q <= |s|
    decreases q
  {
    if q == p then 0 else 10 * NumberAt(s, p, q - 1) + (s[q - 1] as int - '0' as int)
  }

  /** The tokens between `p` and `e`; none when a character fits nowhere. */
  function Lex(s: string, p: nat, e: nat): Option<seq<Token>>
    requires p <= e <= |s|
    decreases e - p
  {
    if p == e then Some([])
    else if IsBlank(s[p]) then Lex(s, p + 1, e)
    else if IsDigit(s[p]) then
      var q := DigitsEnd(s, p, e);
      Prepend(Number(NumberAt(s, p, q)), Lex(s, q, e))
    else if s[p] == ',' then Prepend(Comma, Lex(s, p + 1, e))
    else if s[p] == '-' then Prepend(Dash, Lex(s, p + 1, e))
    else None
  }

  /** The tokens of one list. */
  function Tokens(s: string): Option<seq<Token>> { Lex(s, 0, |s|) }

  function Prepend(t: Token, rest: Option<seq<Token>>): Option<seq<Token>> {
    if rest.None? then None else Some([t] + rest.value)
  }

  /** The tokens an item is written with. */
  function Render(item: Item): seq<Token> {
    match item
    case Single(n) => [Number(n)]
    case Range(low, high) => [Number(low), Dash, Number(high)]
  }

  /** The tokens a comma list of items is written with. */
  function RenderAll(items: seq<Item>): seq<Token> {
    if items == [] then []
    else if |items| == 1 then Render(items[0])
    else Render(items[0]) + [Comma] + RenderAll(items[1..])
  }

  predicate ValidItem(item: Item, max: int) {
    match item
    case Single(n) => n <= max
    case Range(low, high) => low <= high <= max
  }

  predicate Valid(items: seq<Item>, max: int) {
    forall i :: 0 <= i < |items| ==> ValidItem(items[i], max)
  }

  function Interval(low: int, high: int): (r: set<int>)
    ensures forall i :: i in r <==> low <= i <= high
    decreases high - low
  {
    if high < low then {} else Interval(low, high - 1) + {high}
  }

  function Denoted(item: Item): set<int> {
    match item
    case Single(n) => {n}
    case Range(low, high) => Interval(low, high)
  }

  function DenotedAll(items: seq<Item>): set<int> {
    if items == [] then {} else Denoted(items[0]) + DenotedAll(items[1..])
  }

  /** The text is a list of valid items, and these are the items. */
  ghost predicate Spells(s: string, items: seq<Item>, max: int) {
    Tokens(s) == Some(RenderAll(items)) && Valid(items, max)
  }

  // ----- the automaton of the code, over tokens -----

  datatype Last = NONE | DASH | COMMA | DIGIT | RANGE

  /** What one token does: the integers it adds, and the new last token and pending number. */
  datatype Move = Move(added: set<int>, last: Last, digit: int)

  function After(last: Last, digit: int, t: Token, max: int): Option<Move> {
    match t
    case Number(n) =>
      if (last != COMMA && last != DASH && last != NONE) || n > max then None
      else if last == DASH then
        if digit > n then None else Some(Move(Interval(digit, n), RANGE, digit))
      else Some(Move({}, DIGIT, n))
    case Comma =>
      if last != DIGIT && last != RANGE then None
      else Some(Move(if last == DIGIT then {digit} else {}, COMMA, digit))
    case Dash =>
      if last != DIGIT then None else Some(Move({}, DASH, digit))
  }

  /** What the end of the list does. */
  function AtEnd(last: Last, digit: int): Option<set<int>> {
    if last == DIGIT then Some({digit}) else if last == RANGE || last == NONE then Some({}) else None
  }

  /** The set collected from here on, given the last token and the pending number; none on an error. */
  function Collect(last: Last, digit: int, ts: seq<Token>, max: int): Option<set<int>>
    decreases |ts|
  {
    if ts == [] then AtEnd(last, digit)
    else
      var m := After(last, digit, ts[0], max);
      if m.None? then None
      else Join(m.value.added, Collect(m.value.last, m.value.digit, ts[1..], max))
  }

  function Join(a: set<int>, b: Option<set<int>>): Option<set<int>> {
    if b.None? then None else Some(a + b.value)
  }

  /** The set of integers one list denotes; none when it is malformed. */
  function ListValue(s: string, max: int): Option<set<int>> {
    var ts := Tokens(s);
    if ts.None? then None else Collect(NONE, -1, ts.value, max)
  }

  /** The automaton accepts everything the grammar generates, with the right set. */
  lemma {:induction false} AcceptsGrammar(items: seq<Item>, last: Last, digit: int, max: int)
    requires Valid(items, max) && (last == NONE || last == COMMA) && (items == [] ==> last == NONE)
    ensures Collect(last, digit, RenderAll(items), max) == Some(DenotedAll(items))
    decreases |items|
  {
    if items != [] {
      var item := items[0];
      assert ValidItem(item, max);
      var n := if item.Single? then item.n else item.low;
      var rest := if |items| == 1 then [] else [Comma] + RenderAll(items[1..]);
      assert RenderAll(items) == Render(item) + rest;
      if |items| > 1 {
        AcceptsGrammar(items[1..], COMMA, n, max);
        assert rest[1..] == RenderAll(items[1..]);
      } else {
        assert items[1..] == [];
      }
      ReadsItem(item, rest, last, digit, max);
    }
  }

  /** The automaton moves over one item, and over the comma after it. */
  lemma ReadsItem(item: Item, rest: seq<Token>, last: Last, digit: int, max: int)
    requires (last == NONE || last == COMMA) && ValidItem(item, max)
    requires rest == [] || rest[0] == Comma
    ensures var n := if item.Single? then item.n else item.low;
      Collect(last, digit, Render(item) + rest, max) ==
      Join(Denoted(item), if rest == [] then Some({}) else Collect(COMMA, n, rest[1..], max))
  {
    var n := if item.Single? then item.n else item.low;
    var ts := Render(item) + rest;
    assert forall a: set<int> :: {} + a == a && a + {} == a;
    if item.Range? {
      assert ts[1..] == [Dash, Number(item.high)] + rest;
      assert ts[1..][1..] == [Number(item.high)] + rest;
      assert ts[1..][1..][1..] == rest;
      assert Collect(DASH, n, ts[1..][1..], max) == Join(Denoted(item), Collect(RANGE, n, rest, max));
      assert Collect(DIGIT, n, ts[1..], max) == Collect(DASH, n, ts[1..][1..], max);
    } else {
      assert ts[1..] == rest;
    }
  }

  /** What the automaton accepts starts with one item, at the end of the list or before a comma. */
  lemma FirstItem(ts: seq<Token>, last: Last, digit: int, max: int) returns (item: Item, n: int, k: nat)
    requires (last == NONE || last == COMMA) && ts != []
    requires Collect(last, digit, ts, max).Some?
    ensures k <= |ts| && ts[..k] == Render(item) && ValidItem(item, max)
    ensures ts[k..] == [] ==> Collect(last, digit, ts, max) == Some(Denoted(item))
    ensures ts[k..] != [] ==> ts[k] == Comma
    ensures ts[k..] != [] ==>
      Collect(last, digit, ts, max) == Join(Denoted(item), Collect(COMMA, n, ts[k + 1..], max))
  {
    n := ts[0].n;
    var t := ts[1..];
    assert forall a: set<int> :: {} + a == a && a + {} == a;
    assert Collect(last, digit, ts, max) == Collect(DIGIT, n, t, max);
    if t == [] || t[0] == Comma {
      item, k := Single(n), 1;
    } else {
      var u := t[1..];
      assert t[0] == Dash && Collect(DIGIT, n, t, max) == Collect(DASH, n, u, max);
      item, k := Range(n, u[0].n), 3;
      assert ts[3..] == u[1..];
      assert Collect(DASH, n, u, max) == Join(Denoted(item), Collect(RANGE, n, ts[3..], max));
    }
  }

  /** Whatever the automaton accepts was generated by the grammar from items denoting that set. */
  lemma {:induction false} AcceptedIsGrammar(ts: seq<Token>, last: Last, digit: int, max: int)
    returns (items: seq<Item>)
    requires last == NONE || last == COMMA
    requires Collect(last, digit, ts, max).Some?
    ensures ts == RenderAll(items) && Valid(items, max) && (last == COMMA ==> items != [])
    ensures Collect(last, digit, ts, max).value == DenotedAll(items)
    decreases |ts|
  {
    if ts == [] {
      return [];
    }
    var item, n, k := FirstItem(ts, last, digit, max);
    assert ts == ts[..k] + ts[k..];
    if ts[k..] == [] {
      items := [item];
      OneItem(item, max);
    } else {
      var tail := AcceptedIsGrammar(ts[k + 1..], COMMA, n, max);
      assert ts[k..] == [Comma] + ts[k + 1..];
      items := [item] + tail;
      MoreItems(item, tail, max);
    }
  }

  lemma OneItem(item: Item, max: int)
    requires ValidItem(item, max)
    ensures RenderAll([item]) == Render(item) && DenotedAll([item]) == Denoted(item) && Valid([item], max)
  {
    assert [item][1..] == [];
  }

  lemma MoreItems(item: Item, tail: seq<Item>, max: int)
    requires ValidItem(item, max) && Valid(tail, max) && tail != []
    ensures var all := [item] + tail;
      && RenderAll(all) == Render(item) + [Comma] + RenderAll(tail)
      && DenotedAll(all) == Denoted(item) + DenotedAll(tail)
      && Valid(all, max)
  {
    assert ([item] + tail)[1..] == tail;
  }

  /** A list has a value exactly when the grammar spells it, and the value is what the items denote. */
  lemma ListMeetsGrammar(s: string, max: int)
    ensures ListValue(s, max).Some? <==> exists items :: Spells(s, items, max)
    ensures forall items :: Spells(s, items, max) ==> ListValue(s, max) == Some(DenotedAll(items))
  {
    forall items | Spells(s, items, max) ensures ListValue(s, max) == Some(DenotedAll(items)) {
      AcceptsGrammar(items, NONE, -1, max);
    }
    if ListValue(s, max).Some? {
      var items := AcceptedIsGrammar(Tokens(s).value, NONE, -1, max);
      assert Spells(s, items, max);
    }
  }

  // ----- lists as they are written -----

  /** How a token is written: a number in decimal. */
  function Word(t: Token): string {
    match t
    case Number(n) => if n < 0 then "" else DecimalText.ToDigits(n)
    case Dash => "-"
    case Comma => ","
  }

  /** Tokens written one after another with these gaps in front, between and behind. */
  function Spelling(ts: seq<Token>, gaps: seq<string>): string
    requires |gaps| == |ts| + 1
  {
    if ts == [] then gaps[0] else gaps[0] + (Word(ts[0]) + Spelling(ts[1..], gaps[1..]))
  }

  ghost predicate AllBlank(g: string) { forall i :: 0 <= i < |g| ==> g[i] == ' ' || g[i] == '\t' }

  /** The gaps are blanks, and two numbers do not run together. */
  ghost predicate Spaced(ts: seq<Token>, gaps: seq<string>) {
    && |gaps| == |ts| + 1 && (forall k :: 0 <= k < |gaps| ==> AllBlank(gaps[k]))
    && (forall k :: 0 <= k < |ts| && ts[k].Number? ==> ts[k].n >= 0)
    && forall k :: 0 <= k < |ts| - 1 && ts[k].Number? && ts[k + 1].Number? ==> gaps[k + 1] != []
  }

  lemma {:induction false} LexBlanks(s: string, p: nat, q: nat, e: nat)
    requires p <= q <= e <= |s| && forall i :: p <= i < q ==> IsBlank(s[i])
    ensures Lex(s, p, e) == Lex(s, q, e)
    decreases q - p
  {
    if p < q {
      LexBlanks(s, p + 1, q, e);
    }
  }

  lemma {:induction false} DigitsEndIs(s: string, p: nat, q: nat, e: nat)
    requires p <= q <= e <= |s| && (forall i :: p <= i < q ==> IsDigit(s[i])) && (q < e ==> !IsDigit(s[q]))
    ensures DigitsEnd(s, p, e) == q
    decreases q - p
  {
    if p < q {
      DigitsEndIs(s, p + 1, q, e);
    }
  }

  lemma {:induction false} NumberAtIs(s: string, p: nat, w: string, k: nat)
    requires p + k <= |s| && k <= |w| && forall i :: 0 <= i < k ==> s[p + i] == w[i]
    ensures NumberAt(s, p, p + k) == DecimalText.Number(w, 0, k)
  {
    if k > 0 {
      NumberAtIs(s, p, w, k - 1);
      assert s[p + (k - 1)] == w[k - 1];
    }
  }

  /** Nothing that follows a number continues it. */
  lemma NoDigitNext(ts: seq<Token>, gaps: seq<string>)
    requires ts != [] && Spaced(ts, gaps) && ts[0].Number?
    ensures var rest := Spelling(ts[1..], gaps[1..]); rest != [] ==> !IsDigit(rest[0])
  {
    var t := ts[1..];
    assert AllBlank(gaps[1]);
    if gaps[1] == [] && t != [] {
      assert !ts[1].Number?;
    }
  }

  lemma SpacedRest(ts: seq<Token>, gaps: seq<string>)
    requires ts != [] && Spaced(ts, gaps)
    ensures Spaced(ts[1..], gaps[1..])
  {
  }

  /** One written token is read as itself. */
  lemma LexWord(s: string, p: nat, t: Token)
    requires (t.Number? ==> t.n >= 0) && p + |Word(t)| <= |s|
    requires forall i :: 0 <= i < |Word(t)| ==> s[p + i] == Word(t)[i]
    requires t.Number? && p + |Word(t)| < |s| ==> !IsDigit(s[p + |Word(t)|])
    ensures Lex(s, p, |s|) == Prepend(t, Lex(s, p + |Word(t)|, |s|))
  {
    var w := Word(t);
    match t
    case Number(n) =>
      DecimalText.ToDigitsAre(n);
      forall i | p <= i < p + |w| ensures IsDigit(s[i]) {
        assert s[p + (i - p)] == w[i - p];
      }
      DigitsEndIs(s, p, p + |w|, |s|);
      NumberAtIs(s, p, w, |w|);
    case Dash => assert s[p + 0] == '-';
    case Comma => assert s[p + 0] == ',';
  }

  lemma WordStands(pre: string, gap: string, w: string, rest: string)
    ensures var s := pre + (gap + (w + rest));
      && s == (pre + gap + w) + rest
      && (forall i :: 0 <= i < |w| ==> s[|pre| + |gap| + i] == w[i])
      && |s| == |pre| + |gap| + |w| + |rest| && (rest != [] ==> s[|pre| + |gap| + |w|] == rest[0])
  {
  }

  lemma SkipGap(pre: string, gap: string, rest: string)
    requires AllBlank(gap)
    ensures var s := pre + (gap + rest); Lex(s, |pre|, |s|) == Lex(s, |pre| + |gap|, |s|)
  {
    var s := pre + (gap + rest);
    assert forall i :: |pre| <= i < |pre| + |gap| ==> s[i] == gap[i - |pre|];
    LexBlanks(s, |pre|, |pre| + |gap|, |s|);
  }

  lemma ReadWord(pre: string, gap: string, t: Token, rest: string)
    requires (t.Number? ==> t.n >= 0) && (t.Number? && rest != [] ==> !IsDigit(rest[0]))
    ensures var s, p := pre + (gap + (Word(t) + rest)), |pre| + |gap|;
      Lex(s, p, |s|) == Prepend(t, Lex(s, p + |Word(t)|, |s|))
  {
    var w := Word(t);
    var s := pre + (gap + (w + rest));
    WordStands(pre, gap, w, rest);
    assert t.Number? && |pre| + |gap| + |w| < |s| ==> rest != [];
    LexWord(s, |pre| + |gap|, t);
  }

  /** What is written is read as the tokens it was written from. */
  lemma {:induction false} LexSpelling(pre: string, ts: seq<Token>, gaps: seq<string>)
    requires Spaced(ts, gaps)
    ensures var s := pre + Spelling(ts, gaps); Lex(s, |pre|, |s|) == Some(ts)
    decreases |ts|
  {
    assert AllBlank(gaps[0]);
    if ts == [] {
      SkipGap(pre, gaps[0], []);
      assert gaps[0] + [] == gaps[0];
    } else {
      var w, rest := Word(ts[0]), Spelling(ts[1..], gaps[1..]);
      var before := pre + gaps[0] + w;
      if ts[0].Number? {
        NoDigitNext(ts, gaps);
      }
      SkipGap(pre, gaps[0], w + rest);
      ReadWord(pre, gaps[0], ts[0], rest);
      SpacedRest(ts, gaps);
      LexSpelling(before, ts[1..], gaps[1..]);
      WordStands(pre, gaps[0], w, rest);
      FirstAndRest(ts);
    }
  }

  lemma FirstAndRest(ts: seq<Token>)
    requires ts != []
    ensures [ts[0]] + ts[1..] == ts
  {
  }

  ghost predicate NonNegative(item: Item) { if item.Single? then item.n >= 0 else item.low >= 0 && item.high >= 0 }

  /** No two numbers stand together, and none is negative. */
  ghost predicate NumbersApart(ts: seq<Token>) {
    && (forall k :: 0 <= k < |ts| - 1 ==> !ts[k].Number? || !ts[k + 1].Number?)
    && forall k :: 0 <= k < |ts| && ts[k].Number? ==> ts[k].n >= 0
  }

  lemma CommaBetween(head: seq<Token>, tail: seq<Token>)
    requires NumbersApart(head) && NumbersApart(tail)
    ensures NumbersApart(head + [Comma] + tail)
  {
    var ts := head + [Comma] + tail;
    forall k | 0 <= k < |ts| - 1 ensures !ts[k].Number? || !ts[k + 1].Number? {
      if k > |head| {
        assert ts[k] == tail[k - |head| - 1] && ts[k + 1] == tail[k - |head|];
      }
    }
  }

  lemma {:induction false} RenderedApart(items: seq<Item>)
    requires forall i :: 0 <= i < |items| ==> NonNegative(items[i])
    ensures NumbersApart(RenderAll(items))
    decreases |items|
  {
    if items != [] {
      assert NonNegative(items[0]) && NumbersApart(Render(items[0]));
      if |items| > 1 {
        RenderedApart(items[1..]);
        CommaBetween(Render(items[0]), RenderAll(items[1..]));
      }
    }
  }

  /** Every list of valid items, written in decimal with any blanks, has the value it denotes. */
  lemma WrittenListsHaveTheirValue(items: seq<Item>, gaps: seq<string>, max: int)
    requires Valid(items, max) && forall i :: 0 <= i < |items| ==> NonNegative(items[i])
    requires |gaps| == |RenderAll(items)| + 1 && forall k :: 0 <= k < |gaps| ==> AllBlank(gaps[k])
    ensures ListValue(Spelling(RenderAll(items), gaps), max) == Some(DenotedAll(items))
  {
    var ts := RenderAll(items);
    var s := Spelling(ts, gaps);
    RenderedApart(items);
    LexSpelling("", ts, gaps);
    assert "" + s == s;
    AcceptsGrammar(items, NONE, -1, max);
  }

  // ----- sorted vectors -----

  /** Insertion into a strictly increasing vector. */
  function Insert(x: int, s: seq<int>): seq<int> {
    if s == [] then [x]
    else if x < s[0] then [x] + s
    else if x == s[0] then s
    else [s[0]] + Insert(x, s[1..])
  }

  /** What sorting and then dropping equal neighbours leaves. */
  function SortUnique(s: seq<int>): seq<int> {
    if s == [] then [] else Insert(s[0], SortUnique(s[1..]))
  }

  lemma {:induction false} InsertKeepsOrder(x: int, s: seq<int>)
    requires Increasing(s)
    ensures Increasing(Insert(x, s)) && Elements(Insert(x, s)) == Elements(s) + {x}
  {
    if s == [] || x <= s[0] {
      Cons(x, s);
    } else {
      assert s == [s[0]] + s[1..];
      InsertKeepsOrder(x, s[1..]);
      InsertAfter(s[0], x, s[1..], Insert(x, s[1..]));
    }
  }

  lemma InsertAfter(head: int, x: int, tail: seq<int>, inserted: seq<int>)
    requires head < x && Increasing([head] + tail)
    requires Increasing(inserted) && Elements(inserted) == Elements(tail) + {x}
    ensures Increasing([head] + inserted) && Elements([head] + inserted) == Elements([head] + tail) + {x}
  {
    Cons(head, tail);
    Cons(head, inserted);
  }

  /** Putting `x` in front. */
  lemma Cons(x: int, t: seq<int>)
    ensures Elements([x] + t) == {x} + Elements(t)
    ensures Increasing([x] + t) <==> Increasing(t) && forall y :: y in Elements(t) ==> x < y
  {
    var s := [x] + t;
    if Increasing(s) {
      forall y | y in Elements(t) ensures x < y {
        var i :| 0 <= i < |t| && t[i] == y;
        assert s[0] < s[i + 1];
      }
      forall i, j | 0 <= i < j < |t| ensures t[i] < t[j] {
        assert s[i + 1] < s[j + 1];
      }
    } else {
      var i, j :| 0 <= i < j < |s| && s[i] >= s[j];
      assert t[j - 1] in Elements(t);
      assert i > 0 ==> t[i - 1] >= t[j - 1];
    }
  }

  /** The sorted vector is strictly increasing and has the elements of the unsorted one. */
  lemma {:induction false} SortUniqueSorts(s: seq<int>)
    ensures Increasing(SortUnique(s)) && Elements(SortUnique(s)) == Elements(s)
  {
    if s != [] {
      SortUniqueSorts(s[1..]);
      InsertKeepsOrder(s[0], SortUnique(s[1..]));
      Cons(s[0], s[1..]);
      assert s == [s[0]] + s[1..];
    }
  }

  // ----- the code -----

  /** Where the list that starts at `p` ends. */
  function ListEnd(s: string, p: nat): (e: nat)
    requires p <= |s|
    ensures p <= e <= |s|
    ensures forall i :: p <= i < e ==> !IsSeparator(s[i])
    ensures e < |s| ==> IsSeparator(s[e])
    decreases |s| - p
  {
    if p == |s| || IsSeparator(s[p]) then p else ListEnd(s, p + 1)
  }

  /** The character at `i`, with the NUL that ends a C string. */
  function CharAt(s: string, i: nat): char { if i < |s| then s[i] else '\0' }

  /** Parses the list that starts at `from`; `next` is the position after its separator. */
  method ExplodeListInternal(s: string, from: nat, max: int) returns (ok: bool, next: nat, o: seq<int>)
    requires from <= |s| && 0 <= max < INT_MAX
    ensures var e := ListEnd(s, from);
      && ok == ListValue(s[from..e], max).Some?
      && (ok ==> next == e + 1)
      && (ok ==> Increasing(o) && Elements(o) == ListValue(s[from..e], max).value)
  {
    ghost var e := ListEnd(s, from);
    ghost var value := ListValue(s[from..e], max);
    var last, digit, p := NONE, -1, from;
    ok, next, o := false, from, [];
    Start(s, from, e, max);
    while true
      invariant from <= p <= e
      invariant value == Continue(o, last, digit, Lex(s, p, e), max)
      decreases e - p
    {
      ghost var ts, o', last', digit' := Lex(s, p, e), o, last, digit;
      var c := CharAt(s, p);
      if IsDigit(c) {
        var q := DigitsEnd(s, p, |s|);
        DigitsStop(s, p, e);
        var n := NumberAt(s, p, q);
        Stuck(o, last, digit, Number(n), Lex(s, q, e), max);
        if last != COMMA && last != DASH && last != NONE {
          return;
        }
        if n > max {
          return;
        }
        if last == DASH {
          if digit > n {
            return;
          }
          last := RANGE;
          o := PushRange(o, digit, n);
        } else {
          last := DIGIT;
          digit := n;
        }
        p := q;
        Advance(o', o, last', last, digit', digit, Number(n), Lex(s, p, e), max);
      } else if c == ',' {
        Stuck(o, last, digit, Comma, Lex(s, p + 1, e), max);
        if last != DIGIT && last != RANGE {
          return;
        }
        if last == DIGIT {
          PushElement(o, digit);
          o := o + [digit];
        }
        last := COMMA;
        p := p + 1;
        Advance(o', o, last', last, digit', digit, Comma, Lex(s, p, e), max);
      } else if c == '-' {
        Stuck(o, last, digit, Dash, Lex(s, p + 1, e), max);
        if last != DIGIT {
          return;
        }
        last := DASH;
        p := p + 1;
        Advance(o', o, last', last, digit', digit, Dash, Lex(s, p, e), max);
      } else if IsBlank(c) {
        p := p + 1;
      } else if IsSeparator(c) {
        if last == DIGIT {
          PushElement(o, digit);
          o := o + [digit];
        } else if last != RANGE && last != NONE {
          return;
        }
        p := p + 1;
        break;
      } else {
        return;
      }
    }
    SortUniqueSorts(o);
    ok, next, o := true, p, SortUnique(o);
  }

  /** Appends low, low + 1, ..., high. */
  method PushRange(o: seq<int>, low: int, high: int) returns (r: seq<int>)
    requires low <= high
    ensures Elements(r) == Elements(o) + Interval(low, high)
  {
    r := o;
    var i := low;
    while i <= high
      invariant low <= i <= high + 1
      invariant Elements(r) == Elements(o) + Interval(low, i - 1)
    {
      PushElement(r, i);
      r := r + [i];
      i := i + 1;
    }
  }

  /** The value of a list whose prefix filled `o` and left the automaton in `last`. */
  ghost function Continue(o: seq<int>, last: Last, digit: int, ts: Option<seq<Token>>, max: int): Option<set<int>> {
    if ts.None? then None else Join(Elements(o), Collect(last, digit, ts.value, max))
  }

  lemma Start(s: string, from: nat, e: nat, max: int)
    requires from <= e <= |s|
    ensures Continue([], NONE, -1, Lex(s, from, e), max) == ListValue(s[from..e], max)
  {
    LexShift(s, from, from, e);
    assert forall v: set<int> :: Elements([]) + v == v;
  }

  /** Lexing does not depend on where the list sits in the text. */
  lemma {:induction false} LexShift(s: string, from: nat, p: nat, e: nat)
    requires from <= p <= e <= |s|
    ensures Lex(s, p, e) == Lex(s[from..e], p - from, e - from)
    decreases e - p
  {
    if p < e {
      LexShift(s, from, p + 1, e);
      if IsDigit(s[p]) {
        var q := DigitsEnd(s, p, e);
        DigitsShift(s, from, p, e);
        NumberShift(s, from, p, q, e);
        LexShift(s, from, q, e);
      }
    }
  }

  lemma {:induction false} DigitsShift(s: string, from: nat, p: nat, e: nat)
    requires from <= p <= e <= |s|
    ensures DigitsEnd(s, p, e) == from + DigitsEnd(s[from..e], p - from, e - from)
    decreases e - p
  {
    if p < e {
      DigitsShift(s, from, p + 1, e);
    }
  }

  lemma {:induction false} NumberShift(s: string, from: nat, p: nat, q: nat, e: nat)
    requires from <= p <= q <= e <= |s|
    ensures NumberAt(s, p, q) == NumberAt(s[from..e], p - from, q - from)
    decreases q
  {
    if p < q {
      NumberShift(s, from, p, q - 1, e);
    }
  }

  /** A run of digits ends within its list. */
  lemma {:induction false} DigitsStop(s: string, p: nat, e: nat)
    requires p <= e <= |s| && (e < |s| ==> !IsDigit(s[e]))
    ensures DigitsEnd(s, p, |s|) == DigitsEnd(s, p, e)
    decreases e - p
  {
    if p < e {
      DigitsStop(s, p + 1, e);
    }
  }

  /** The value does not change when the automaton moves over a token. */
  lemma Advance(o: seq<int>, o': seq<int>, last: Last, last': Last, digit: int, digit': int,
                t: Token, rest: Option<seq<Token>>, max: int)
    requires After(last, digit, t, max).Some?
    requires var m := After(last, digit, t, max).value;
      m.last == last' && m.digit == digit' && Elements(o') == Elements(o) + m.added
    ensures Continue(o, last, digit, Prepend(t, rest), max) == Continue(o', last', digit', rest, max)
  {
    if rest.Some? {
      var ts := [t] + rest.value;
      assert ts[1..] == rest.value;
      var m, after := After(last, digit, t, max).value, Collect(last', digit', rest.value, max);
      if after.Some? {
        assert Elements(o) + (m.added + after.value) == Elements(o') + after.value;
      }
    }
  }

  /** A token the automaton refuses leaves the list without a value. */
  lemma Stuck(o: seq<int>, last: Last, digit: int, t: Token, rest: Option<seq<Token>>, max: int)
    ensures After(last, digit, t, max).None? ==> Continue(o, last, digit, Prepend(t, rest), max).None?
  {
  }

  lemma PushElement(o: seq<int>, x: int)
    ensures Elements(o + [x]) == Elements(o) + {x}
  {
  }

  method ExplodeList(input: string, max: int) returns (result: int, output: seq<int>)
    requires max < INT_MAX
    ensures var list := input[..ListEnd(input, 0)];
      && (result == 0 <==> max >= 0 && ListValue(list, max).Some?)
      && (result == 0 ==> Increasing(output) && Elements(output) == ListValue(list, max).value)
  {
    output := [];
    if max < 0 {
      return -1, [];
    }
    var ok, next, o := ExplodeListInternal(input, 0, max);
    assert input[0..ListEnd(input, 0)] == input[..ListEnd(input, 0)];
    return if ok then 0 else -1, o;
  }

  /** The lists of the text from `p` on, in order: one more than its separators. */
  function ListsFrom(s: string, p: nat): (r: seq<string>)
    requires p <= |s|
    decreases |s| - p
  {
    var e := ListEnd(s, p);
    if e == |s| then [s[p..e]] else [s[p..e]] + ListsFrom(s, e + 1)
  }

  function Lists(s: string): seq<string> { ListsFrom(s, 0) }

  /** Pieces joined by the given separators, one between each two. */
  function Interleave(pieces: seq<string>, seps: string): string
    requires |pieces| == |seps| + 1
  {
    if seps == [] then pieces[0] else pieces[0] + [seps[0]] + Interleave(pieces[1..], seps[1..])
  }

  /** The lists are the pieces between separators: none holds one, and with them they make up the text. */
  lemma {:induction false} ListsCutAtSeparators(s: string, p: nat) returns (seps: string)
    requires p <= |s|
    ensures forall i, c :: 0 <= i < |ListsFrom(s, p)| && c in ListsFrom(s, p)[i] ==> c != ';' && c != '\0'
    ensures forall c :: c in seps ==> c == ';' || c == '\0'
    ensures |ListsFrom(s, p)| == |seps| + 1 && Interleave(ListsFrom(s, p), seps) == s[p..]
    decreases |s| - p
  {
    var e := ListEnd(s, p);
    if e == |s| {
      seps := [];
    } else {
      var more := ListsCutAtSeparators(s, e + 1);
      seps := [s[e]] + more;
      assert ListsFrom(s, p)[1..] == ListsFrom(s, e + 1) && seps[1..] == more;
      assert s[p..] == s[p..e] + [s[e]] + s[e + 1..];
    }
  }

  /** The vectors are the values of the first lists. */
  ghost predicate Holds(output: seq<seq<int>>, lists: seq<string>, max: int) {
    && |output| <= |lists|
    && forall i :: 0 <= i < |output| ==>
      ListValue(lists[i], max).Some? && Increasing(output[i]) && Elements(output[i]) == ListValue(lists[i], max).value
  }

  /** Success means that every list has a value, and then the vectors are those values in order. */
  method ExplodeLists(input: string, max: int) returns (result: int, output: seq<seq<int>>)
    requires max < INT_MAX
    ensures result == 0 <==> max >= 0 && forall i :: 0 <= i < |Lists(input)| ==> ListValue(Lists(input)[i], max).Some?
    ensures result == 0 ==> |output| == |Lists(input)| && Holds(output, Lists(input), max)
  {
    output := [];
    if max < 0 {
      return -1, [];
    }
    var s, e := 0, |input|;
    ghost var all := Lists(input);
    while s <= e
      invariant 0 <= s <= e + 1
      invariant Holds(output, all, max)
      invariant if s <= e then all[|output|..] == ListsFrom(input, s) else |output| == |all|
    {
      assert all[|output|] == all[|output|..][0] && all[|output| + 1..] == all[|output|..][1..];
      var ok, next, one := ExplodeListInternal(input, s, max);
      if !ok {
        return -1, output;
      }
      s := next;
      Push(output, one, all, max);
      output := output + [one];
    }
    return 0, output;
  }

  lemma Push(output: seq<seq<int>>, one: seq<int>, lists: seq<string>, max: int)
    requires Holds(output, lists, max) && |output| < |lists|
    requires ListValue(lists[|output|], max).Some? && Increasing(one)
    requires Elements(one) == ListValue(lists[|output|], max).value
    ensures Holds(output + [one], lists, max)
  {
  }
}
