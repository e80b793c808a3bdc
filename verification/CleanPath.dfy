/** make_clean_path: two passes that normalise slashes and resolve "." and "..". */
module CleanPath {
  // The passes run over character buffers. They compute what a stack of path components would, and stay inside
  // their buffers.

  import opened Basics

  // ----- the component-stack semantics -----

  predicate IsSlash(c: char) { c == '/' || c == '\\' }

  /** The maximal slash-free pieces of the first `n` characters, in order. */
  function Pieces(path: string, n: nat): seq<string>
    requires n <= |path|
  {
    if n == 0 then []
    else
      var cs, c := Pieces(path, n - 1), path[n - 1];
      if IsSlash(c) then cs
      else if cs == [] || (n > 1 && IsSlash(path[n - 2])) then cs + [[c]]
      else cs[..|cs| - 1] + [cs[|cs| - 1] + [c]]
  }

  function Components(path: string): seq<string> { Pieces(path, |path|) }

  predicate IsAbsolute(path: string) { path != [] && IsSlash(path[0]) }

  /** What one component does to the stack: ".." stays at a relative front and is absorbed at the root. */
  function Push(absolute: bool, stack: seq<string>, c: string): seq<string> {
    if c == "." then stack
    else if c != ".." then stack + [c]
    else if stack == [] then if absolute then [] else [".."]
    else if stack[|stack| - 1] == ".." then stack + [".."]
    else stack[..|stack| - 1]
  }

  /** The stack after the first `n` components. */
  function ReduceFirst(absolute: bool, cs: seq<string>, n: nat): seq<string>
    requires n <= |cs|
  {
    if n == 0 then [] else Push(absolute, ReduceFirst(absolute, cs, n - 1), cs[n - 1])
  }

  function Reduce(absolute: bool, cs: seq<string>): seq<string> { ReduceFirst(absolute, cs, |cs|) }

  /** Each component followed by a slash. */
  function Render(cs: seq<string>): string {
    if cs == [] then "" else Render(cs[..|cs| - 1]) + (cs[|cs| - 1] + "/")
  }

  function Root(absolute: bool): string { if absolute then "/" else "" }

  /** The path with the given components; "." and "/" when there are none. */
  function Join(absolute: bool, stack: seq<string>): string {
    if stack == [] then if absolute then "/" else "."
    else (Root(absolute) + Render(stack))[..|Root(absolute) + Render(stack)| - 1]
  }

  function LeftTrim(s: string): string {
    if s != [] && IsBlank(s[0]) then LeftTrim(s[1..]) else s
  }

  /** The length of the first `n` characters without their trailing blanks. */
  function TrimmedLength(s: string, n: nat): (m: nat)
    requires n <= |s|
    ensures m <= n
  {
    if n > 0 && IsBlank(s[n - 1]) then TrimmedLength(s, n - 1) else n
  }

  function RightTrim(s: string): string { s[..TrimmedLength(s, |s|)] }

  function Trim(s: string, trim: bool): string {
    if trim then RightTrim(LeftTrim(s)) else s
  }

  /** The clean form of a path. */
  function Clean(path: string, trim: bool): string {
    var p := Trim(path, trim);
    Join(IsAbsolute(p), Reduce(IsAbsolute(p), Components(p)))
  }

  /** A component that starts with a dot and is neither "." nor "..". */
  predicate IsHidden(c: string) { c != [] && c[0] == '.' && c != "." && c != ".." }

  // ----- pass one -----

  /** The first `n` characters with slashes turned forward and runs of them collapsed. */
  function Collapse(s: string, n: nat): string
    requires n <= |s|
  {
    if n == 0 then []
    else
      var r, c := Collapse(s, n - 1), s[n - 1];
      if !IsSlash(c) then r + [c]
      else if r == [] || r[|r| - 1] != '/' then r + ['/']
      else r
  }

  function Closed(s: string): string {
    var t := if s == [] then "." else s;
    if t[|t| - 1] != '/' then t + "/" else t
  }

  lemma {:induction false} CollapseShrinks(s: string, n: nat)
    requires n <= |s|
    ensures |Collapse(s, n)| <= n && forall x :: x in Collapse(s, n) ==> x in s || x == '/'
  {
    if n > 0 {
      CollapseShrinks(s, n - 1);
    }
  }

  lemma {:induction false} CollapsePrefix(s: string, t: string, n: nat)
    requires n <= |s| && n <= |t| && s[..n] == t[..n]
    ensures Collapse(s, n) == Collapse(t, n)
  {
    if n > 0 {
      assert s[..n][n - 1] == t[..n][n - 1];
      assert s[..n - 1] == s[..n][..n - 1] == t[..n][..n - 1] == t[..n - 1];
      CollapsePrefix(s, t, n - 1);
    }
  }

  /** The stage with trailing blanks dropped is the collapse of the trimmed text. */
  lemma {:induction false} CollapseThenTrim(s: string, n: nat)
    requires n <= |s|
    ensures RightTrim(Collapse(s, n)) == Collapse(s, TrimmedLength(s, n))
  {
    if n > 0 {
      var r := Collapse(s, n);
      if IsBlank(s[n - 1]) {
        var q := Collapse(s, n - 1);
        CollapseThenTrim(s, n - 1);
        TrimmedPrefix(r, q, |q|);
      }
    }
  }

  lemma CollapseTrimmed(s: string)
    ensures RightTrim(Collapse(s, |s|)) == Collapse(RightTrim(s), |RightTrim(s)|)
  {
    var n := TrimmedLength(s, |s|);
    CollapseThenTrim(s, |s|);
    assert s[..n][..n] == s[..n];
    CollapsePrefix(s, s[..n], n);
  }

  lemma {:induction false} TrimmedPrefix(s: string, t: string, n: nat)
    requires n <= |s| && n <= |t| && s[..n] == t[..n]
    ensures TrimmedLength(s, n) == TrimmedLength(t, n)
    ensures s[..TrimmedLength(s, n)] == t[..TrimmedLength(t, n)]
  {
    if n > 0 {
      assert s[..n][n - 1] == t[..n][n - 1];
      assert s[..n - 1] == s[..n][..n - 1] == t[..n][..n - 1] == t[..n - 1];
      TrimmedPrefix(s, t, n - 1);
    }
  }

  /** Stage 1.2: the position after the leading blanks. */
  method SkipBlanks(path: string) returns (p: nat)
    ensures p <= |path| && path[p..] == LeftTrim(path)
  {
    p := 0;
    assert path[0..] == path;
    while p < |path|
      invariant p <= |path| && LeftTrim(path[p..]) == LeftTrim(path)
    {
      if path[p] != ' ' && path[p] != '\t' {
        break;
      }
      assert path[p..][1..] == path[p + 1..];
      p := p + 1;
    }
  }

  /** Stage 1.3: copies the rest of the path, collapsing slashes. */
  method CollapseInto(path: string, from: nat, stage: array<char>) returns (r: nat)
    requires from <= |path| && |path| + 7 <= stage.Length
    modifies stage
    ensures r <= |path| - from && stage[..r] == Collapse(path[from..], |path| - from)
  {
    ghost var text := path[from..];
    var p := from;
    r := 0;
    while p < |path|
      invariant from <= p <= |path| && r <= p - from
      invariant stage[..r] == Collapse(text, p - from)
    {
      assert text[p - from] == path[p];
      if path[p] == '/' || path[p] == '\\' {
        if r == 0 || stage[r - 1] != '/' {
          Store(stage, r, '/');
          r := r + 1;
        }
      } else {
        Store(stage, r, path[p]);
        r := r + 1;
      }
      p := p + 1;
    }
  }

  /** Stage 1.4: the length without the trailing blanks. */
  method DropBlanks(stage: array<char>, len: nat) returns (r: nat)
    requires len <= stage.Length
    ensures r <= len && stage[..r] == RightTrim(stage[..len])
  {
    ghost var text := stage[..len];
    r := len;
    while r != 0
      invariant r <= len && TrimmedLength(text, r) == TrimmedLength(text, len)
    {
      assert stage[r - 1] == text[r - 1];
      if stage[r - 1] != ' ' && stage[r - 1] != '\t' {
        break;
      }
      r := r - 1;
    }
    assert stage[..r] == text[..r];
  }

  /** What pass one leaves: the trimmed text, collapsed and closed. */
  function Staged(path: string, trim: bool): string {
    var text := Trim(path, trim);
    Closed(Collapse(text, |text|))
  }

  method StageOne(path: string, trim: bool) returns (stage: array<char>, len: nat)
    ensures fresh(stage) && 0 < len < stage.Length == |path| + 7
    ensures stage[..len] == Staged(path, trim) && stage[len] == '\0'
  {
    stage := new char[|path| + 7];
    var p := 0;
    if trim {
      p := SkipBlanks(path);
    }
    assert path[0..] == path;
    ghost var text := path[p..];
    var r := CollapseInto(path, p, stage);
    if trim {
      CollapseTrimmed(text);
      r := DropBlanks(stage, r);
    }
    len := Close(stage, r);
  }

  /** Stages 1.5 to 1.7: never blank, always ending in a slash, and closed. */
  method Close(stage: array<char>, r: nat) returns (len: nat)
    requires r + 3 <= stage.Length
    modifies stage
    ensures 0 < len < stage.Length && stage[..len] == Closed(old(stage[..r])) && stage[len] == '\0'
  {
    ghost var text := stage[..r];
    len := r;
    if len == 0 {
      stage[len] := '.';
      len := len + 1;
      assert stage[..len] == ".";
    }
    if stage[len - 1] != '/' {
      ghost var before := stage[..len];
      stage[len] := '/';
      len := len + 1;
      assert stage[..len] == before + "/";
    }
    stage[len] := '\0';
  }

  // ----- what pass one hands to pass two -----

  lemma Halves(a: string, b: string)
    ensures (a + b)[..|a|] == a && (a + b)[|a|..] == b
  {
  }

  lemma RenderLast(cs: seq<string>, c: string)
    ensures Render(cs + [c]) == Render(cs) + (c + "/")
  {
    assert (cs + [c])[..|cs|] == cs;
  }

  /** What collapsing the first `n` characters has to do with their components. */
  ghost predicate Rendered(s: string, n: nat)
    requires 0 < n <= |s|
  {
    var r, text := Collapse(s, n), Root(IsAbsolute(s)) + Render(Pieces(s, n));
    && r != []
    && (r[|r| - 1] == '/' <==> IsSlash(s[n - 1]))
    && (if IsSlash(s[n - 1]) then r == text else Pieces(s, n) != [] && r + "/" == text)
  }

  /** Collapsing a path and closing it with a slash renders its components. */
  lemma {:induction false} CollapseRenders(s: string, n: nat)
    requires 0 < n <= |s|
    ensures Rendered(s, n)
  {
    if n == 1 {
      assert Collapse(s, 0) == [] && Pieces(s, 0) == [];
      RenderLast([], [s[0]]);
    } else {
      CollapseRenders(s, n - 1);
      OneMore(s, n - 1);
    }
  }

  /** One more character: another slash, the first of a component, or the next of one. */
  lemma OneMore(s: string, n: nat)
    requires 0 < n < |s| && Rendered(s, n)
    ensures Rendered(s, n + 1)
  {
    var c, r, cs, root := s[n], Collapse(s, n), Pieces(s, n), Root(IsAbsolute(s));
    if !IsSlash(c) {
      assert Collapse(s, n + 1) == r + [c];
      if IsSlash(s[n - 1]) {
        assert Pieces(s, n + 1) == cs + [[c]];
        RenderLast(cs, [c]);
        Assoc(r, [c], "/");
        Assoc(root, Render(cs), [c] + "/");
      } else {
        assert Pieces(s, n + 1) == cs[..|cs| - 1] + [cs[|cs| - 1] + [c]];
        LastGrows(r, root, cs, c);
      }
    }
  }

  lemma LastGrows(r: string, root: string, cs: seq<string>, c: char)
    requires cs != [] && r + "/" == root + Render(cs)
    ensures var k := |cs| - 1;
      (r + [c]) + "/" == root + Render(cs[..k] + [cs[k] + [c]])
  {
    var k := |cs| - 1;
    var a, b := Render(cs[..k]), cs[k];
    RenderLast(cs[..k], b + [c]);
    Assoc(root, a, b + "/");
    Assoc(root + a, b, "/");
    StripSlash(r, (root + a) + b);
    Assoc(root + a, b, [c]);
    Assoc(root + a, b + [c], "/");
    Assoc(root, a, (b + [c]) + "/");
  }

  lemma StripSlash(a: string, b: string)
    requires a + "/" == b + "/"
    ensures a == b
  {
    Halves(a, "/");
    Halves(b, "/");
  }

  /** A nonempty piece of `s` without slashes. */
  ghost predicate IsPiece(c: string, s: string) { c != [] && forall x :: x in c ==> !IsSlash(x) && x in s }

  /** The components of a path are nonempty, and their characters are those of the path except slashes. */
  lemma {:induction false} PiecesArePieces(s: string, n: nat)
    requires n <= |s|
    ensures forall i :: 0 <= i < |Pieces(s, n)| ==> IsPiece(Pieces(s, n)[i], s)
  {
    if n > 0 {
      PiecesArePieces(s, n - 1);
      forall i | 0 <= i < |Pieces(s, n)| ensures IsPiece(Pieces(s, n)[i], s) {
        if i < |Pieces(s, n - 1)| {
          assert IsPiece(Pieces(s, n - 1)[i], s);
        }
      }
    }
  }

  // ----- pass two -----

  ghost predicate IsToken(c: string) { c != [] && !IsHidden(c) && '/' !in c && '\0' !in c }

  ghost predicate AllTokens(cs: seq<string>) { forall i :: 0 <= i < |cs| ==> IsToken(cs[i]) }

  /** The stack never holds "." and, under a root, never "..". */
  ghost predicate IsStack(absolute: bool, stack: seq<string>) {
    AllTokens(stack) && forall i :: 0 <= i < |stack| ==> stack[i] != "." && (absolute ==> stack[i] != "..")
  }

  lemma PushKeepsStack(absolute: bool, stack: seq<string>, c: string)
    requires IsStack(absolute, stack) && IsToken(c)
    ensures IsStack(absolute, Push(absolute, stack, c))
  {
  }

  /** The last token of a result, and what stands before it. */
  ghost function LastToken(stack: seq<string>): string { if stack == [] then "" else stack[|stack| - 1] }

  ghost function FrontOf(absolute: bool, stack: seq<string>): string {
    if stack == [] then "" else Root(absolute) + Render(stack[..|stack| - 1])
  }

  ghost predicate EndsInSlash(s: string) { s == [] || s[|s| - 1] == '/' }

  lemma SplitLast(absolute: bool, stack: seq<string>)
    requires IsStack(absolute, stack) && (stack == [] ==> absolute)
    ensures var front, c := FrontOf(absolute, stack), LastToken(stack);
      && Root(absolute) + Render(stack) == (front + c) + "/"
      && '/' !in c && EndsInSlash(front)
  {
    if stack != [] {
      var init := stack[..|stack| - 1];
      Assoc(Root(absolute), Render(init), LastToken(stack) + "/");
      Assoc(FrontOf(absolute, stack), LastToken(stack), "/");
      assert IsToken(stack[|stack| - 1]);
      RenderEnds(init);
    }
  }

  lemma RenderEnds(cs: seq<string>)
    ensures EndsInSlash(Render(cs))
  {
  }

  /** The inner loop of "..": where the last token of the result starts. */
  method RewindToken(result: array<char>, r: nat, ghost front: string, ghost c: string) returns (s: nat)
    requires r <= result.Length && result[..r] == (front + c) + "/" && '/' !in c && EndsInSlash(front)
    ensures s == |front| && s + |c| + 1 == r && result[..s] == front && result[r - 1] == '/'
    ensures forall i :: 0 <= i < |c| ==> result[s + i] == c[i]
  {
    Taken(result[..r], front, c);
    ghost var text := result[..r];
    assert front != [] ==> text[|front| - 1] == '/';
    forall j | |front| <= j < r - 1 ensures result[j] != '/' {
      assert result[j] == text[j] == c[j - |front|] && c[j - |front|] in c;
    }
    s := r - 1;
    while s != 0 && result[s - 1] != '/'
      invariant |front| <= s <= r - 1
    {
      s := s - 1;
    }
  }

  /** Stage 2.2 on a ".." token; returns the new end of the result. */
  method Parent(result: array<char>, r: nat, ghost absolute: bool, ghost stack: seq<string>) returns (r': nat)
    requires r + 3 <= result.Length
    requires result[..r] == Root(absolute) + Render(stack) && IsStack(absolute, stack)
    modifies result
    ensures r' <= r + 3
    ensures result[..r'] == Root(absolute) + Render(Push(absolute, stack, ".."))
  {
    ghost var before := result[..r];
    if r == 0 {
      WriteParent(result, r);
      Appended(absolute, stack, "..", before, result[..r + 3]);
      return r + 3;
    }
    NonemptyResult(absolute, stack);
    SplitLast(absolute, stack);
    ghost var front, last := FrontOf(absolute, stack), LastToken(stack);
    var s := RewindToken(result, r, front, last);
    UpFrom(absolute, stack);
    if s == 0 {
      if result[s] == '/' {
        return r;
      } else if result[s] != '.' {
        return s;
      }
    }
    if r - s == 3 && result[s] == '.' && result[s + 1] == '.' {
      WriteParent(result, r);
      Appended(absolute, stack, "..", before, result[..r + 3]);
      return r + 3;
    }
    return s;
  }

  /** What ".." does to the result, by its last token. */
  lemma UpFrom(absolute: bool, stack: seq<string>)
    requires IsStack(absolute, stack) && (stack == [] ==> absolute)
    ensures var last, up := LastToken(stack), Push(absolute, stack, "..");
      && (last == [] <==> stack == [])
      && (stack == [] ==> up == [])
      && (last == ".." <==> |last| == 2 && last[0] == '.' && last[1] == '.')
      && (stack != [] ==> last[0] != '/' && (last[0] == '.' ==> last == ".."))
      && (stack != [] && last == ".." ==> up == stack + [".."])
      && (stack != [] && last != ".." ==> Root(absolute) + Render(up) == FrontOf(absolute, stack))
  {
    if stack != [] {
      assert IsToken(LastToken(stack)) && LastToken(stack)[0] in LastToken(stack);
    }
  }

  method WriteParent(result: array<char>, r: nat)
    requires r + 3 <= result.Length
    modifies result
    ensures result[..r + 3] == old(result[..r]) + (".." + "/")
  {
    result[r], result[r + 1], result[r + 2] := '.', '.', '/';
  }

  /** Stage 2.2 on one token: `c` lies at `p` and ends at the slash `q`; returns the new end of the result. */
  method OneToken(stage: array<char>, p: nat, q: nat, result: array<char>, r: nat,
                  ghost absolute: bool, ghost stack: seq<string>, ghost c: string) returns (r': nat)
    requires stage != result && p < q < stage.Length && stage[q] == '/' && stage[p..q] == c && IsToken(c)
    requires r + (q - p) + 1 <= result.Length
    requires result[..r] == Root(absolute) + Render(stack) && IsStack(absolute, stack)
    modifies result
    ensures r' <= r + (q - p) + 1
    ensures result[..r'] == Root(absolute) + Render(Push(absolute, stack, c))
  {
    if stage[p] == '.' {
      if q - p == 2 && stage[p + 1] == '.' {
        assert c == "..";
        r' := Parent(result, r, absolute, stack);
      } else {
        assert c == "." by { assert c[0] == '.' && !IsHidden(c); }
        r' := r;
      }
    } else {
      ghost var before := result[..r];
      assert c[0] != '.';
      forall k | 0 <= k < q - p + 1 {
        result[r + k] := stage[p + k];
      }
      r' := r + (q - p) + 1;
      Appended(absolute, stack, c, before, result[..r']);
    }
  }

  lemma Appended(absolute: bool, stack: seq<string>, c: string, before: string, after: string)
    requires before == Root(absolute) + Render(stack) && after == before + (c + "/")
    ensures after == Root(absolute) + Render(stack + [c])
  {
    RenderLast(stack, c);
    Assoc(Root(absolute), Render(stack), c + "/");
  }

  lemma NonemptyResult(absolute: bool, stack: seq<string>)
    requires Root(absolute) + Render(stack) != []
    ensures stack == [] ==> absolute
  {
  }

  lemma Taken(text: string, front: string, c: string)
    requires text == (front + c) + "/"
    ensures text[..|front|] == front && text[|front|..|text| - 1] == c && |text| == |front| + |c| + 1
  {
  }

  lemma {:induction false} RenderFirst(c: string, rest: seq<string>)
    ensures Render([c] + rest) == (c + "/") + Render(rest)
  {
    if rest == [] {
      RenderLast([], c);
      assert [c] + rest == [] + [c];
    } else {
      var init, last := rest[..|rest| - 1], rest[|rest| - 1];
      RenderFirst(c, init);
      assert [c] + rest == ([c] + init) + [last];
      RenderLast([c] + init, last);
      Assoc(c + "/", Render(init), last + "/");
    }
  }

  /** The inner loop that skips a token. */
  method TokenEnd(stage: array<char>, p: nat, len: nat, ghost c: string, ghost rest: string) returns (q: nat)
    requires p <= len < stage.Length && stage[p..len] == (c + "/") + rest && '/' !in c
    ensures q == p + |c| < len && stage[q] == '/' && stage[p..q] == c && stage[q + 1..len] == rest
  {
    ghost var text := stage[p..len];
    forall j | 0 <= j < |text| ensures stage[p + j] == text[j] {
    }
    forall j | p <= j < p + |c| ensures stage[j] != '/' && stage[j] == c[j - p] {
      assert stage[j] == text[j - p] == c[j - p] && c[j - p] in c;
    }
    assert text[|c|] == '/' && text[|c| + 1..] == rest;
    q := p;
    while stage[q] != '/'
      invariant p <= q <= p + |c|
      decreases p + |c| - q
    {
      q := q + 1;
    }
  }

  lemma ReduceNext(absolute: bool, cs: seq<string>, i: nat)
    requires i < |cs| && AllTokens(cs) && IsStack(absolute, ReduceFirst(absolute, cs, i))
    ensures IsStack(absolute, ReduceFirst(absolute, cs, i + 1))
    ensures Render(cs[i..]) == (cs[i] + "/") + Render(cs[i + 1..])
  {
    assert IsToken(cs[i]);
    PushKeepsStack(absolute, ReduceFirst(absolute, cs, i), cs[i]);
    assert cs[i..] == [cs[i]] + cs[i + 1..];
    RenderFirst(cs[i], cs[i + 1..]);
  }

  lemma StageStart(text: string, absolute: bool, cs: seq<string>)
    requires text == Root(absolute) + Render(cs) && AllTokens(cs)
    ensures text != [] && text[0] == '/' <==> absolute
    ensures text[|Root(absolute)|..] == Render(cs)
  {
    if cs != [] {
      assert cs == [cs[0]] + cs[1..];
      RenderFirst(cs[0], cs[1..]);
      assert IsToken(cs[0]) && cs[0][0] in cs[0];
    }
  }

  lemma RenderIsEmpty(cs: seq<string>)
    ensures Render(cs) == [] <==> cs == []
  {
  }

  /** Stages 2.3 to 2.5: never blank, no trailing slash but the root's, and closed. */
  method Finish(result: array<char>, r: nat, ghost absolute: bool, ghost stack: seq<string>) returns (n: nat)
    requires r + 1 < result.Length && result[..r] == Root(absolute) + Render(stack) && IsStack(absolute, stack)
    modifies result
    ensures n < result.Length && result[n] == '\0' && result[..n] == Join(absolute, stack)
  {
    ghost var text := result[..r];
    RenderIsEmpty(stack);
    RenderEnds(stack);
    if stack != [] {
      RenderLast(stack[..|stack| - 1], stack[|stack| - 1]);
      assert IsToken(stack[|stack| - 1]);
    }
    n := r;
    if n == 0 {
      result[n] := '.';
      n := n + 1;
      assert result[..n] == ".";
    } else {
      assert result[n - 1] == text[r - 1] == '/';
      assert result[..r - 1] == text[..r - 1];
    }
    if result[n - 1] == '/' {
      if n - 1 != 0 {
        n := n - 1;
      }
    }
    result[n] := '\0';
  }

  /** Pass two has read the first `i` tokens of `text`, up to `p`, and holds `done`. */
  ghost predicate Progress(text: string, absolute: bool, cs: seq<string>, p: nat, i: nat, done: string) {
    && AllTokens(cs) && '\0' !in text && p <= |text| && i <= |cs|
    && text[p..] == Render(cs[i..])
    && IsStack(absolute, ReduceFirst(absolute, cs, i))
    && done == Root(absolute) + Render(ReduceFirst(absolute, cs, i))
  }

  lemma ProgressStarts(text: string, absolute: bool, cs: seq<string>)
    requires text == Root(absolute) + Render(cs) && AllTokens(cs) && '\0' !in text
    ensures Progress(text, absolute, cs, |Root(absolute)|, 0, Root(absolute))
    ensures (text != [] && text[0] == '/') <==> absolute
  {
    StageStart(text, absolute, cs);
    assert cs[0..] == cs;
    assert ReduceFirst(absolute, cs, 0) == [];
    assert Root(absolute) + [] == Root(absolute);
  }

  lemma ProgressEnds(text: string, absolute: bool, cs: seq<string>, p: nat, i: nat, done: string)
    requires Progress(text, absolute, cs, p, i, done)
    ensures p == |text| <==> i == |cs|
    ensures p == |text| ==> done == Root(absolute) + Render(Reduce(absolute, cs))
  {
    RenderIsEmpty(cs[i..]);
  }

  /** One turn of pass two: a token and its slash. */
  method Resolve(stage: array<char>, len: nat, p: nat, result: array<char>, r: nat,
                 ghost text: string, ghost absolute: bool, ghost cs: seq<string>, ghost i: nat)
    returns (p': nat, r': nat)
    requires stage != result && len < stage.Length && stage[..len] == text && p < len
    requires r <= p && result.Length == len + 3 && Progress(text, absolute, cs, p, i, result[..r])
    modifies result
    ensures r' <= p' && p < p' <= len && i < |cs| && Progress(text, absolute, cs, p', i + 1, result[..r'])
  {
    ghost var stack := ReduceFirst(absolute, cs, i);
    ProgressEnds(text, absolute, cs, p, i, result[..r]);
    assert IsToken(cs[i]);
    ReduceNext(absolute, cs, i);
    assert stage[p..len] == text[p..];
    var q := TokenEnd(stage, p, len, cs[i], Render(cs[i + 1..]));
    assert text[q + 1..] == stage[q + 1..len];
    r' := OneToken(stage, p, q, result, r, absolute, stack, cs[i]);
    p' := q + 1;
  }

  /** Stage 2.1: the root of an absolute path. */
  method StageRoot(stage: array<char>, result: array<char>, ghost absolute: bool) returns (n: nat)
    requires stage != result && stage.Length > 0 && result.Length > 0 && (stage[0] == '/' <==> absolute)
    modifies result
    ensures n == |Root(absolute)| && result[..n] == Root(absolute)
  {
    n := 0;
    if stage[n] == '/' {
      result[n] := '/';
      n := n + 1;
    }
  }

  /** Stages 2.1 and 2.2: all the tokens of the stage. */
  method ResolveAll(stage: array<char>, len: nat, result: array<char>,
                    ghost text: string, ghost absolute: bool, ghost cs: seq<string>)
    returns (r: nat)
    requires stage != result && len < stage.Length && result.Length == len + 3
    requires stage[len] == '\0' && '\0' !in text && stage[..len] == text
    requires text == Root(absolute) + Render(cs) && AllTokens(cs)
    modifies result
    ensures r <= len && result[..r] == Root(absolute) + Render(Reduce(absolute, cs))
  {
    ghost var i := 0;
    ProgressStarts(text, absolute, cs);
    EndsAtNul(stage, len, 0);
    var p := StageRoot(stage, result, absolute);
    r := p;
    EndsAtNul(stage, len, p);
    while stage[p] != '\0'
      invariant r <= p <= len && (stage[p] == '\0' <==> p == len)
      invariant Progress(text, absolute, cs, p, i, result[..r])
      decreases len - p
    {
      p, r := Resolve(stage, len, p, result, r, text, absolute, cs, i);
      EndsAtNul(stage, len, p);
      i := i + 1;
    }
    ProgressEnds(text, absolute, cs, p, i, result[..r]);
  }

  /** Pass two: resolves the tokens of the stage into a buffer of len + 3 characters. */
  method StageTwo(stage: array<char>, len: nat, ghost absolute: bool, ghost cs: seq<string>)
    returns (result: array<char>, n: nat)
    requires len < stage.Length && stage[len] == '\0' && '\0' !in stage[..len]
    requires stage[..len] == Root(absolute) + Render(cs) && AllTokens(cs)
    ensures fresh(result) && n < result.Length == len + 3 && result[n] == '\0'
    ensures result[..n] == Join(absolute, Reduce(absolute, cs))
  {
    result := new char[len + 3];
    var r := ResolveAll(stage, len, result, stage[..len], absolute, cs);
    ReduceKeepsStack(absolute, cs, |cs|);
    n := Finish(result, r, absolute, Reduce(absolute, cs));
  }

  lemma {:induction false} ReduceKeepsStack(absolute: bool, cs: seq<string>, n: nat)
    requires n <= |cs| && AllTokens(cs)
    ensures IsStack(absolute, ReduceFirst(absolute, cs, n))
  {
    if n > 0 {
      ReduceKeepsStack(absolute, cs, n - 1);
      PushKeepsStack(absolute, ReduceFirst(absolute, cs, n - 1), cs[n - 1]);
    }
  }

  lemma EndsAtNul(stage: array<char>, len: nat, p: nat)
    requires p <= len < stage.Length && stage[len] == '\0' && '\0' !in stage[..len]
    ensures stage[p] == '\0' <==> p == len
    ensures p < len ==> stage[p] == stage[..len][p]
  {
    if p < len {
      assert stage[p] in stage[..len];
    }
  }

  /** The path has no component that starts with a dot other than "." and "..". */
  predicate NoHidden(path: string) {
    forall i :: 0 <= i < |Components(path)| ==> !IsHidden(Components(path)[i])
  }

  /** make_clean_path computes the component-stack semantics. */
  method MakeCleanPath(path: string, trim: bool) returns (clean: string)
    requires '\0' !in path && NoHidden(Trim(path, trim))
    ensures clean == Clean(path, trim)
  {
    ghost var text := Trim(path, trim);
    var stage, len := StageOne(path, trim);
    StageRenders(path, trim);
    DotReduces();
    var result, n := StageTwo(stage, len, IsAbsolute(text), StageTokens(text));
    clean := result[..n];
  }

  /** The tokens of the stage: those of the text, or "." when it is blank. */
  ghost function StageTokens(text: string): seq<string> {
    if text == [] then ["."] else Components(text)
  }

  lemma DotReduces()
    ensures Reduce(false, ["."]) == []
  {
    assert ReduceFirst(false, ["."], 0) == [];
  }

  lemma {:induction false} TrimKeeps(s: string)
    ensures forall x :: x in LeftTrim(s) ==> x in s
    ensures forall x :: x in RightTrim(s) ==> x in s
  {
    if s != [] {
      TrimKeeps(s[1..]);
    }
  }

  lemma TokensAreTokens(text: string)
    requires '\0' !in text && NoHidden(text)
    ensures AllTokens(StageTokens(text))
  {
    if text != [] {
      PiecesArePieces(text, |text|);
      var cs := Components(text);
      forall i | 0 <= i < |cs| ensures IsToken(cs[i]) {
        assert IsPiece(cs[i], text);
      }
    }
  }

  lemma TextRenders(text: string)
    ensures Closed(Collapse(text, |text|)) == Root(IsAbsolute(text)) + Render(StageTokens(text))
  {
    if text == [] {
      assert [] + ["."] == ["."];
      RenderLast([], ".");
    } else {
      CollapseRenders(text, |text|);
    }
  }

  lemma NulFree(path: string, trim: bool)
    requires '\0' !in path
    ensures '\0' !in Trim(path, trim) && '\0' !in Staged(path, trim)
  {
    var text := Trim(path, trim);
    TrimKeeps(path);
    TrimKeeps(LeftTrim(path));
    CollapseShrinks(text, |text|);
  }

  /** The stage of a path renders its tokens. */
  lemma StageRenders(path: string, trim: bool)
    requires '\0' !in path && NoHidden(Trim(path, trim))
    ensures var text := Trim(path, trim);
      && Staged(path, trim) == Root(IsAbsolute(text)) + Render(StageTokens(text))
      && AllTokens(StageTokens(text)) && '\0' !in Staged(path, trim)
  {
    NulFree(path, trim);
    TextRenders(Trim(path, trim));
    TokensAreTokens(Trim(path, trim));
  }

  // ----- cleaning twice -----

  /** ".." only in front, never under a root, and no ".". */
  ghost predicate Normal(absolute: bool, stack: seq<string>) {
    && (forall i :: 0 <= i < |stack| ==> stack[i] != "." && (absolute ==> stack[i] != ".."))
    && forall i, j :: 0 <= i < j < |stack| && stack[j] == ".." ==> stack[i] == ".."
  }

  lemma {:induction false} ReduceIsNormal(absolute: bool, cs: seq<string>, n: nat)
    requires n <= |cs|
    ensures Normal(absolute, ReduceFirst(absolute, cs, n))
    ensures forall i :: 0 <= i < |ReduceFirst(absolute, cs, n)| ==> ReduceFirst(absolute, cs, n)[i] in cs
  {
    if n > 0 {
      ReduceIsNormal(absolute, cs, n - 1);
    }
  }

  lemma {:induction false} NormalIsReduced(absolute: bool, stack: seq<string>, n: nat)
    requires n <= |stack| && Normal(absolute, stack)
    ensures ReduceFirst(absolute, stack, n) == stack[..n]
  {
    if n > 0 {
      NormalIsReduced(absolute, stack, n - 1);
      assert stack[..n] == stack[..n - 1] + [stack[n - 1]];
    }
  }

  lemma {:induction false} PiecesPrefix(s: string, t: string, n: nat)
    requires n <= |s| && n <= |t| && forall i :: 0 <= i < n ==> s[i] == t[i]
    ensures Pieces(s, n) == Pieces(t, n)
  {
    if n > 0 {
      PiecesPrefix(s, t, n - 1);
    }
  }

  lemma {:induction false} OnePiece(front: string, s: string, n: nat)
    requires EndsInSlash(front) && |front| < n <= |s| && s[..|front|] == front
    requires forall i :: |front| <= i < n ==> !IsSlash(s[i])
    ensures Pieces(s, n) == Components(front) + [s[|front|..n]]
  {
    if n == |front| + 1 {
      assert forall i :: 0 <= i < |front| ==> s[i] == s[..|front|][i];
      PiecesPrefix(s, front, |front|);
      assert s[|front|..n] == [s[n - 1]];
    } else {
      OnePiece(front, s, n - 1);
      assert s[|front|..n] == s[|front|..n - 1] + [s[n - 1]];
    }
  }

  ghost predicate ArePieces(stack: seq<string>) {
    forall i :: 0 <= i < |stack| ==> stack[i] != [] && forall k :: 0 <= k < |stack[i]| ==> !IsSlash(stack[i][k])
  }

  /** A piece and a slash behind a text that ends in one. */
  lemma PieceAndSlash(front: string, c: string)
    requires EndsInSlash(front) && c != [] && forall i :: 0 <= i < |c| ==> !IsSlash(c[i])
    ensures Components(front + (c + "/")) == Components(front) + [c]
    ensures Components(front + c) == Components(front) + [c]
  {
    PieceThenSlash(front, c);
    PieceAtEnd(front, c);
  }

  lemma PieceAtEnd(front: string, c: string)
    requires EndsInSlash(front) && c != [] && forall i :: 0 <= i < |c| ==> !IsSlash(c[i])
    ensures Components(front + c) == Components(front) + [c]
  {
    PieceBehind(front, c, "");
    assert c + "" == c;
  }

  lemma PieceThenSlash(front: string, c: string)
    requires EndsInSlash(front) && c != [] && forall i :: 0 <= i < |c| ==> !IsSlash(c[i])
    ensures Components(front + (c + "/")) == Components(front) + [c]
  {
    var s, n := front + (c + "/"), |front| + |c|;
    PieceBehind(front, c, "/");
    assert |s| == n + 1 && s[n] == '/';
  }

  lemma PieceBehind(front: string, c: string, rest: string)
    requires EndsInSlash(front) && c != [] && forall i :: 0 <= i < |c| ==> !IsSlash(c[i])
    ensures Pieces(front + (c + rest), |front| + |c|) == Components(front) + [c]
  {
    var s, n := front + (c + rest), |front| + |c|;
    assert s[..|front|] == front && s[|front|..n] == c;
    assert forall i :: |front| <= i < n ==> s[i] == c[i - |front|];
    OnePiece(front, s, n);
  }

  lemma {:induction false} ComponentsOfRender(absolute: bool, stack: seq<string>)
    requires ArePieces(stack)
    ensures Components(Root(absolute) + Render(stack)) == stack
  {
    if stack == [] {
      assert Root(absolute) + Render(stack) == Root(absolute);
      RootHasNone(absolute);
    } else {
      var k := |stack| - 1;
      var root, body := Root(absolute), Render(stack[..k]);
      ComponentsOfRender(absolute, stack[..k]);
      RenderEnds(stack[..k]);
      PieceAndSlash(root + body, stack[k]);
      Assoc(root, body, stack[k] + "/");
      FrontAndLast(stack);
    }
  }

  lemma RootHasNone(absolute: bool)
    ensures Components(Root(absolute)) == [] && Components(".") == ["."]
  {
    assert Pieces("/", 0) == [] && Pieces(".", 0) == [];
  }

  /** The joined path of a nonempty stack, by its last component. */
  lemma JoinLast(absolute: bool, stack: seq<string>)
    requires stack != []
    ensures var k := |stack| - 1;
      Join(absolute, stack) == (Root(absolute) + Render(stack[..k])) + stack[k]
  {
    var k := |stack| - 1;
    Assoc(Root(absolute), Render(stack[..k]), stack[k] + "/");
    Assoc(Root(absolute) + Render(stack[..k]), stack[k], "/");
    Halves((Root(absolute) + Render(stack[..k])) + stack[k], "/");
  }

  /** The joined path has the components it was joined from. */
  lemma JoinSplits(absolute: bool, stack: seq<string>)
    requires ArePieces(stack)
    ensures IsAbsolute(Join(absolute, stack)) == absolute
    ensures Components(Join(absolute, stack)) == if stack == [] && !absolute then ["."] else stack
  {
    RootHasNone(absolute);
    if stack != [] {
      var k := |stack| - 1;
      var front := Root(absolute) + Render(stack[..k]);
      JoinLast(absolute, stack);
      ComponentsOfRender(absolute, stack[..k]);
      RenderEnds(stack[..k]);
      PieceAndSlash(front, stack[k]);
      FrontAndLast(stack);
      FirstCharacter(absolute, stack);
    }
  }

  lemma FirstCharacter(absolute: bool, stack: seq<string>)
    requires ArePieces(stack) && stack != []
    ensures IsAbsolute(Join(absolute, stack)) == absolute
  {
    var k := |stack| - 1;
    JoinLast(absolute, stack);
    if !absolute {
      RenderIsEmpty(stack[..k]);
      if k > 0 {
        assert stack[..k] == [stack[0]] + stack[1..k];
        RenderFirst(stack[0], stack[1..k]);
      }
    }
  }

  lemma ReducedArePieces(path: string, absolute: bool)
    ensures ArePieces(Reduce(absolute, Components(path)))
  {
    var cs := Components(path);
    var stack := Reduce(absolute, cs);
    PiecesArePieces(path, |path|);
    ReduceIsNormal(absolute, cs, |cs|);
    forall i | 0 <= i < |stack| ensures stack[i] != [] && forall k :: 0 <= k < |stack[i]| ==> !IsSlash(stack[i][k]) {
      var j :| 0 <= j < |cs| && cs[j] == stack[i];
      assert IsPiece(cs[j], path);
    }
  }

  /** With no trimming, cleaning twice is cleaning once. */
  lemma CleaningTwice(path: string)
    ensures Clean(Clean(path, false), false) == Clean(path, false)
  {
    var a, cs := IsAbsolute(path), Components(path);
    var stack := Reduce(a, cs);
    ReducedArePieces(path, a);
    ReduceIsNormal(a, cs, |cs|);
    JoinSplits(a, stack);
    NormalIsReduced(a, stack, |stack|);
    assert stack[..|stack|] == stack;
    DotReduces();
  }

  /** The clean form of a path without hidden components has none, so it can be cleaned again. */
  lemma CleanStaysInDomain(path: string)
    requires NoHidden(path)
    ensures NoHidden(Clean(path, false))
  {
    var a, cs := IsAbsolute(path), Components(path);
    var stack := Reduce(a, cs);
    ReducedArePieces(path, a);
    ReduceIsNormal(a, cs, |cs|);
    JoinSplits(a, stack);
    forall i | 0 <= i < |stack| ensures !IsHidden(stack[i]) {
      var j :| 0 <= j < |cs| && cs[j] == stack[i];
    }
  }

  // ----- what makes no difference -----

  /** The path with its backslashes turned forward. */
  function Forward(path: string): string {
    seq(|path|, i requires 0 <= i < |path| => if path[i] == '\\' then '/' else path[i])
  }

  lemma {:induction false} PiecesForward(path: string, n: nat)
    requires n <= |path|
    ensures Pieces(Forward(path), n) == Pieces(path, n)
  {
    if n > 0 {
      PiecesForward(path, n - 1);
    }
  }

  /** Backslashes are slashes. */
  lemma BackslashesAreSlashes(path: string)
    ensures Clean(Forward(path), false) == Clean(path, false)
  {
    PiecesForward(path, |path|);
  }

  ghost predicate SpacesAndTabs(g: string) { forall i :: 0 <= i < |g| ==> g[i] == ' ' || g[i] == '\t' }

  lemma {:induction false} LeftTrimOver(g: string, s: string)
    requires SpacesAndTabs(g)
    ensures LeftTrim(g + s) == LeftTrim(s)
  {
    if g != [] {
      assert (g + s)[1..] == g[1..] + s;
      LeftTrimOver(g[1..], s);
    } else {
      assert g + s == s;
    }
  }

  lemma {:induction false} RightTrimOver(s: string, g: string, n: nat)
    requires SpacesAndTabs(g) && n <= |g|
    ensures TrimmedLength(s + g, |s| + n) == TrimmedLength(s, |s|)
  {
    if n > 0 {
      RightTrimOver(s, g, n - 1);
    } else {
      assert (s + g)[..|s|] == s[..|s|];
      TrimmedPrefix(s + g, s, |s|);
    }
  }

  /** What LeftTrim leaves of a text with blanks behind it: nothing, or what it leaves of the text, with the blanks. */
  lemma {:induction false} LeftTrimBefore(s: string, g: string)
    requires SpacesAndTabs(g)
    ensures LeftTrim(s) != [] ==> LeftTrim(s + g) == LeftTrim(s) + g
    ensures LeftTrim(s) == [] ==> LeftTrim(s + g) == []
  {
    if s == [] {
      LeftTrimOver(g, []);
      assert g + [] == g && [] + g == g;
    } else if IsBlank(s[0]) {
      assert (s + g)[1..] == s[1..] + g;
      LeftTrimBefore(s[1..], g);
    }
  }

  /** Spaces and tabs around a path are not part of it. */
  lemma BlanksAroundAreIgnored(before: string, path: string, behind: string)
    requires SpacesAndTabs(before) && SpacesAndTabs(behind)
    ensures Clean(before + (path + behind), true) == Clean(path, true)
  {
    LeftTrimOver(before, path + behind);
    LeftTrimBefore(path, behind);
    if LeftTrim(path) != [] {
      var t := LeftTrim(path);
      RightTrimOver(t, behind, |behind|);
      assert RightTrim(t + behind) == RightTrim(t);
    }
  }

  // ----- a clean path leads to the same place -----

  /** Where one component leads from a directory: ".." at the root stays there. */
  function Visit(place: seq<string>, c: string): seq<string> {
    if c == "." then place
    else if c != ".." then place + [c]
    else if place == [] then []
    else place[..|place| - 1]
  }

  /** Where the first `n` components lead from a directory. */
  function Walk(start: seq<string>, cs: seq<string>, n: nat): seq<string>
    requires n <= |cs|
  {
    if n == 0 then start else Visit(Walk(start, cs, n - 1), cs[n - 1])
  }

  lemma {:induction false} WalkPrefix(start: seq<string>, cs: seq<string>, ds: seq<string>, n: nat)
    requires n <= |cs| && n <= |ds| && cs[..n] == ds[..n]
    ensures Walk(start, cs, n) == Walk(start, ds, n)
  {
    if n > 0 {
      assert cs[..n][n - 1] == ds[..n][n - 1];
      assert cs[..n - 1] == cs[..n][..n - 1] == ds[..n][..n - 1] == ds[..n - 1];
      WalkPrefix(start, cs, ds, n - 1);
    }
  }

  lemma WalkOneMore(start: seq<string>, cs: seq<string>, c: string)
    ensures Walk(start, cs + [c], |cs| + 1) == Visit(Walk(start, cs, |cs|), c)
  {
    assert (cs + [c])[..|cs|] == cs[..|cs|];
    WalkPrefix(start, cs + [c], cs, |cs|);
  }

  /** A path with one component more leads from everywhere where the pushed stack leads; from the root if absolute. */
  lemma PushLeads(absolute: bool, start: seq<string>, stack: seq<string>, c: string)
    requires Normal(absolute, stack) && (absolute ==> start == [])
    ensures var pushed := Push(absolute, stack, c);
      Walk(start, pushed, |pushed|) == Visit(Walk(start, stack, |stack|), c)
  {
    if c == "." {
    } else if stack != [] && c == ".." && stack[|stack| - 1] != ".." {
      var init := stack[..|stack| - 1];
      assert stack == init + [stack[|stack| - 1]];
      WalkOneMore(start, init, stack[|stack| - 1]);
    } else if stack == [] && c == ".." && absolute {
    } else {
      assert stack == [] && c == ".." ==> [".."] == stack + [c];
      WalkOneMore(start, stack, c);
    }
  }

  /** What is left of the components leads where all of them lead. */
  lemma {:induction false} ReduceLeads(absolute: bool, start: seq<string>, cs: seq<string>, n: nat)
    requires n <= |cs| && (absolute ==> start == [])
    ensures var stack := ReduceFirst(absolute, cs, n); Walk(start, stack, |stack|) == Walk(start, cs, n)
  {
    if n > 0 {
      ReduceLeads(absolute, start, cs, n - 1);
      ReduceIsNormal(absolute, cs, n - 1);
      PushLeads(absolute, start, ReduceFirst(absolute, cs, n - 1), cs[n - 1]);
    }
  }

  /** The place a path leads to from a directory; an absolute path starts at the root. */
  function LeadsTo(path: string, start: seq<string>): seq<string> {
    var cs := Components(path);
    Walk(if IsAbsolute(path) then [] else start, cs, |cs|)
  }

  /** A clean path leads, from every directory, where the path leads; it is absolute if that is. */
  lemma CleanLeadsToTheSamePlace(path: string, start: seq<string>)
    ensures LeadsTo(Clean(path, false), start) == LeadsTo(path, start)
    ensures IsAbsolute(Clean(path, false)) == IsAbsolute(path)
  {
    var a, cs := IsAbsolute(path), Components(path);
    var stack := Reduce(a, cs);
    ReducedArePieces(path, a);
    JoinSplits(a, stack);
    ReduceLeads(a, if a then [] else start, cs, |cs|);
    if stack == [] && !a {
      DotLeads(start);
    }
  }

  /** So many names of a kind no component left has. */
  function Dots(k: nat): seq<string> { seq(k, i => ".") }

  /** How many of the first `n` components left go up; they stand in front. */
  ghost predicate Ups(stack: seq<string>, u: nat) {
    && u <= |stack| && (forall i :: 0 <= i < u ==> stack[i] == "..")
    && forall i :: u <= i < |stack| ==> stack[i] != ".." && stack[i] != "."
  }

  lemma {:induction false} UpsOf(stack: seq<string>, n: nat) returns (u: nat)
    requires n <= |stack| && Normal(false, stack)
    ensures u <= n && (forall i :: 0 <= i < u ==> stack[i] == "..") && forall i :: u <= i < n ==> stack[i] != ".."
  {
    if n == 0 {
      u := 0;
    } else {
      u := UpsOf(stack, n - 1);
      if stack[n - 1] == ".." {
        assert forall i :: 0 <= i < n - 1 ==> stack[i] == "..";
        u := n;
      }
    }
  }

  /** From deep enough it goes up and then down again. */
  lemma {:induction false} WalkUpAndDown(stack: seq<string>, u: nat, k: nat, n: nat)
    requires Ups(stack, u) && n <= |stack| <= k
    ensures Walk(Dots(k), stack, n) == if n <= u then Dots(k - n) else Dots(k - u) + stack[u..n]
  {
    if n > 0 {
      WalkUpAndDown(stack, u, k, n - 1);
      if n <= u {
        assert Dots(k - (n - 1))[..k - n] == Dots(k - n);
      } else {
        assert stack[u..n] == stack[u..n - 1] + [stack[n - 1]];
        assert Dots(k - u) + stack[u..u] == Dots(k - u);
        Assoc(Dots(k - u), stack[u..n - 1], [stack[n - 1]]);
      }
    }
  }

  lemma RelativeWalk(stack: seq<string>, k: nat) returns (u: nat)
    requires Normal(false, stack) && |stack| <= k
    ensures Ups(stack, u) && Walk(Dots(k), stack, |stack|) == Dots(k - u) + stack[u..]
  {
    u := UpsOf(stack, |stack|);
    WalkUpAndDown(stack, u, k, |stack|);
    assert stack[u..|stack|] == stack[u..];
    assert Dots(k - u) + [] == Dots(k - u);
  }

  /** Where the names begin in a place: behind the dots. */
  lemma NamesBegin(x: seq<string>, p: nat, q: nat)
    requires (forall j :: 0 <= j < p && j < |x| ==> x[j] == ".") && (forall j :: q <= j < |x| ==> x[j] != ".")
    ensures q < |x| ==> x[q] != "." && p <= q
  {
  }

  lemma UpAsFar(s: seq<string>, t: seq<string>, u: nat, v: nat, k: nat)
    requires Ups(s, u) && Ups(t, v) && |s| <= k && |t| <= k
    requires Dots(k - u) + s[u..] == Dots(k - v) + t[v..]
    ensures v <= u
  {
    var x := Dots(k - u) + s[u..];
    assert forall j :: k - v <= j < |x| ==> x[j] == t[v..][j - (k - v)];
    NamesBegin(x, k - u, k - v);
  }

  /** Two ways up and down that end in one place are one. */
  lemma OneWay(s: seq<string>, t: seq<string>, u: nat, v: nat, k: nat)
    requires Ups(s, u) && Ups(t, v) && |s| <= k && |t| <= k
    requires Dots(k - u) + s[u..] == Dots(k - v) + t[v..]
    ensures s == t
  {
    UpAsFar(s, t, u, v, k);
    UpAsFar(t, s, v, u, k);
    var x, y := Dots(k - u) + s[u..], Dots(k - v) + t[v..];
    assert s[u..] == x[k - u..] && t[u..] == y[k - u..];
    assert s == s[..u] + s[u..] && t == t[..u] + t[u..];
    assert s[..u] == t[..u];
  }

  lemma RelativeStacksDiffer(s: seq<string>, t: seq<string>, k: nat)
    requires Normal(false, s) && Normal(false, t) && |s| <= k && |t| <= k
    requires Walk(Dots(k), s, |s|) == Walk(Dots(k), t, |t|)
    ensures s == t
  {
    var u := RelativeWalk(s, k);
    var v := RelativeWalk(t, k);
    OneWay(s, t, u, v, k);
  }

  lemma {:induction false} AbsoluteWalk(s: seq<string>, n: nat)
    requires Normal(true, s) && n <= |s|
    ensures Walk([], s, n) == s[..n]
  {
    if n > 0 {
      AbsoluteWalk(s, n - 1);
      assert s[..n] == s[..n - 1] + [s[n - 1]];
    }
  }

  /** An absolute path leads to one place, a relative one does not. */
  lemma AbsoluteDiffers(s: seq<string>, t: seq<string>)
    requires Normal(true, s) && Normal(false, t)
    ensures Walk([], s, |s|) != Walk(Dots(|t| + 1), t, |t|)
  {
    var u := RelativeWalk(t, |t| + 1);
    var place := Dots(|t| + 1 - u) + t[u..];
    AbsoluteWalk(s, |s|);
    assert s[..|s|] == s;
    assert place[0] == ".";
    NoDots(s);
  }

  lemma NoDots(s: seq<string>)
    requires Normal(true, s)
    ensures s != [] ==> s[0] != "."
  {
  }

  /** The components left by a path. */
  function LeftOf(path: string): seq<string> { Reduce(IsAbsolute(path), Components(path)) }

  /** Where a path leads is where what is left of it leads. */
  lemma LeftLeads(path: string, start: seq<string>)
    ensures var a, stack := IsAbsolute(path), LeftOf(path);
      && Normal(a, stack) && LeadsTo(path, start) == Walk(if a then [] else start, stack, |stack|)
      && Clean(path, false) == Join(a, stack)
  {
    var a, cs := IsAbsolute(path), Components(path);
    ReduceIsNormal(a, cs, |cs|);
    ReduceLeads(a, if a then [] else start, cs, |cs|);
  }

  /** From where two paths that are not cleaned alike lead to different places. */
  ghost function Apart(p: string, q: string): seq<string> {
    Dots(|LeftOf(p)| + |LeftOf(q)| + 1)
  }

  lemma SamePlaceSameLeft(p: string, q: string)
    requires LeadsTo(p, Dots(|LeftOf(p)| + 1)) == LeadsTo(q, Dots(|LeftOf(p)| + 1))
    requires LeadsTo(p, Dots(|LeftOf(q)| + 1)) == LeadsTo(q, Dots(|LeftOf(q)| + 1))
    requires LeadsTo(p, Apart(p, q)) == LeadsTo(q, Apart(p, q))
    ensures IsAbsolute(p) == IsAbsolute(q) && LeftOf(p) == LeftOf(q)
  {
    var s, t := LeftOf(p), LeftOf(q);
    LeftLeads(p, Dots(|s| + 1));
    LeftLeads(q, Dots(|s| + 1));
    LeftLeads(p, Dots(|t| + 1));
    LeftLeads(q, Dots(|t| + 1));
    LeftLeads(p, Apart(p, q));
    LeftLeads(q, Apart(p, q));
    if IsAbsolute(p) && IsAbsolute(q) {
      AbsoluteWalk(s, |s|);
      AbsoluteWalk(t, |t|);
      assert s[..|s|] == s && t[..|t|] == t;
    } else if IsAbsolute(p) {
      AbsoluteDiffers(s, t);
    } else if IsAbsolute(q) {
      AbsoluteDiffers(t, s);
    } else {
      RelativeStacksDiffer(s, t, |s| + |t| + 1);
    }
  }

  /** Two paths are cleaned alike if and only if they lead to the same place from every directory. */
  lemma CleanedAlikeExactly(p: string, q: string)
    ensures Clean(p, false) == Clean(q, false) <==> forall start: seq<string> :: LeadsTo(p, start) == LeadsTo(q, start)
  {
    if Clean(p, false) == Clean(q, false) {
      forall start: seq<string> ensures LeadsTo(p, start) == LeadsTo(q, start) {
        CleanLeadsToTheSamePlace(p, start);
        CleanLeadsToTheSamePlace(q, start);
      }
    }
    if forall start: seq<string> :: LeadsTo(p, start) == LeadsTo(q, start) {
      SamePlaceSameLeft(p, q);
    }
  }

  lemma DotLeads(start: seq<string>)
    ensures Walk(start, ["."], 1) == start == Walk(start, [], 0)
  {
    assert Walk(start, ["."], 0) == start;
  }

  // ----- cleaning twice with trimming, exactly -----

  predicate StartsBlank(s: string) { s != [] && IsBlank(s[0]) }

  predicate EndsBlank(s: string) { s != [] && IsBlank(s[|s| - 1]) }

  /** The components that cleaning leaves of a trimmed path. */
  function Left(path: string): seq<string> {
    var p := Trim(path, true);
    Reduce(IsAbsolute(p), Components(p))
  }

  /**
   * With trimming it is once if and only if nothing is left, or no blank came to stand at an end:
   * the last component left does not end in one and, in a relative path, the first does not start with one.
   */
  lemma TrimmedCleaningTwice(path: string)
    ensures var stack := Left(path);
      Clean(Clean(path, true), true) == Clean(path, true) <==>
        stack == [] || (!EndsBlank(stack[|stack| - 1]) && (IsAbsolute(Trim(path, true)) || !StartsBlank(stack[0])))
  {
    var p := Trim(path, true);
    var c := Clean(path, true);
    assert c == Clean(p, false);
    ReducedArePieces(p, IsAbsolute(p));
    JoinEnds(IsAbsolute(p), Left(path));
    TrimmedAlready(c);
    CleanNeverGrows(Trim(c, true));
    CleaningTwice(p);
    if c == " " || c == "\t" {
      BlankIsDot(c);
    }
  }

  lemma BlankIsDot(c: string)
    requires c == " " || c == "\t"
    ensures Clean(c, true) == "."
  {
    assert LeftTrim(c) == [] by { assert c[1..] == []; }
    assert Pieces("", 0) == [];
  }

  /** The ends of a joined path are those of its components, or a root. */
  lemma JoinEnds(absolute: bool, stack: seq<string>)
    requires ArePieces(stack)
    ensures var c := Join(absolute, stack);
      && c != []
      && (EndsBlank(c) <==> stack != [] && EndsBlank(stack[|stack| - 1]))
      && (StartsBlank(c) <==> stack != [] && !absolute && StartsBlank(stack[0]))
  {
    if stack != [] {
      var k := |stack| - 1;
      JoinLast(absolute, stack);
      if !absolute {
        RenderIsEmpty(stack[..k]);
        if k > 0 {
          assert stack[..k] == [stack[0]] + stack[1..k];
          RenderFirst(stack[0], stack[1..k]);
        }
      }
    }
  }

  lemma {:induction false} LeftTrimShrinks(s: string)
    ensures |LeftTrim(s)| <= |s| && (StartsBlank(s) ==> |LeftTrim(s)| < |s|)
  {
    if StartsBlank(s) {
      LeftTrimShrinks(s[1..]);
    }
  }

  /** Trimming shortens a text unless it has no blank at either end. */
  lemma TrimmedAlready(s: string)
    ensures Trim(s, true) == s <==> !StartsBlank(s) && !EndsBlank(s)
    ensures Trim(s, true) != s ==> |Trim(s, true)| < |s|
  {
    LeftTrimShrinks(s);
  }

  /** What one component adds to the rendered stack is at most itself and a slash. */
  lemma PushRenders(absolute: bool, stack: seq<string>, c: string)
    ensures |Render(Push(absolute, stack, c))| <= |Render(stack)| + |c| + 1
  {
    RenderLast(stack, c);
  }

  lemma {:induction false} ReduceRenders(absolute: bool, cs: seq<string>, n: nat)
    requires n <= |cs|
    ensures |Render(ReduceFirst(absolute, cs, n))| <= |Render(cs[..n])|
  {
    if n > 0 {
      ReduceRenders(absolute, cs, n - 1);
      PushRenders(absolute, ReduceFirst(absolute, cs, n - 1), cs[n - 1]);
      assert cs[..n] == cs[..n - 1] + [cs[n - 1]];
      RenderLast(cs[..n - 1], cs[n - 1]);
    }
  }

  /** A clean path is no longer than the path, save that the empty path becomes a dot. */
  lemma CleanNeverGrows(path: string)
    ensures |Clean(path, false)| <= if path == [] then 1 else |path|
  {
    var a, cs := IsAbsolute(path), Components(path);
    if path != [] {
      CollapseRenders(path, |path|);
      CollapseShrinks(path, |path|);
      ReduceRenders(a, cs, |cs|);
      assert cs[..|cs|] == cs;
    } else {
      assert cs == [] && Reduce(a, cs) == [];
    }
  }

  /** As when cleaning drops the slash that kept a blank from being trimmed. */
  lemma TrimmingTwiceDiffers()
    ensures Clean("a /", true) == "a " && Left("a /") == ["a "] && Clean(Clean("a /", true), true) != Clean("a /", true)
  {
    assert LeftTrim("a /") == "a /" && RightTrim("a /") == "a /";
    PieceAndSlash("", "a ");
    assert "" + ("a " + "/") == "a /";
    OneComponent("a ");
    TrimmedCleaningTwice("a /");
  }

  lemma OneComponent(c: string)
    requires c != "." && c != ".."
    ensures Reduce(false, [c]) == [c] && Join(false, [c]) == c
  {
    JoinLast(false, [c]);
    assert [c][..0] == [] && ReduceFirst(false, [c], 0) == [];
    assert (Root(false) + Render([])) + c == c;
  }
}
