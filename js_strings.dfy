/**
 The few JavaScript string primitives the icon generator relies on:
 `String.prototype.trim`, `String.prototype.endsWith` and
 `Array.prototype.join`, stated over Dafny strings (`seq<char>`).
 `Split` is `Join`'s inverse on lines without a line break; `SplitJoin`
 uses it to state that joining loses nothing.
 */
module JsStrings {

  /** The characters ECMAScript's `trim` removes: the WhiteSpace
      production (TAB, VT, FF, SP, NBSP, ZWNBSP and the other Unicode
      space separators, category Zs) and the LineTerminator production
      (LF, CR, LS, PS). */
  predicate IsWhitespace(c: char) {
    || c == '\t' || c == '\n' || c == '\U{000B}' || c == '\U{000C}' || c == '\r'
    || c == ' ' || c == '\U{00A0}' || c == '\U{1680}'
    || ('\U{2000}' <= c <= '\U{200A}')
    || c == '\U{2028}' || c == '\U{2029}' || c == '\U{202F}' || c == '\U{205F}'
    || c == '\U{3000}' || c == '\U{FEFF}'
  }

  predicate AllWhitespace(s: string) {
    forall i :: 0 <= i < |s| ==> IsWhitespace(s[i])
  }

  /** No whitespace at either end: what `trim` leaves. */
  predicate IsTrimmed(s: string) {
    s == [] || (!IsWhitespace(s[0]) && !IsWhitespace(s[|s| - 1]))
  }

  /** The number of whitespace characters `s` starts with. */
  function Lead(s: string): (k: nat)
    ensures k <= |s| && AllWhitespace(s[..k])
    ensures k < |s| ==> !IsWhitespace(s[k])
    decreases |s|
  {
    if |s| > 0 && IsWhitespace(s[0]) then
      var j := Lead(s[1..]);
      LeadStep(s, s[1..], j);
      1 + j
    else 0
  }

  /** One more whitespace character in front of `j` of them. */
  lemma LeadStep(s: string, p: string, j: nat)
    requires |s| > 0 && IsWhitespace(s[0]) && p == s[1..]
    requires j <= |p| && AllWhitespace(p[..j])
    ensures AllWhitespace(s[..j + 1])
  {
    var t := s[..j + 1];
    assert forall i :: 1 <= i < |t| ==> t[i] == p[..j][i - 1];
  }

  /** The number of whitespace characters `s` ends with. */
  function Trail(s: string): (k: nat)
    ensures k <= |s| && AllWhitespace(s[|s| - k..])
    ensures k < |s| ==> !IsWhitespace(s[|s| - 1 - k])
    decreases |s|
  {
    if |s| > 0 && IsWhitespace(s[|s| - 1]) then
      var j := Trail(s[..|s| - 1]);
      TrailStep(s, s[..|s| - 1], j);
      1 + j
    else 0
  }

  /** One more whitespace character behind `j` of them. */
  lemma TrailStep(s: string, p: string, j: nat)
    requires |s| > 0 && IsWhitespace(s[|s| - 1]) && p == s[..|s| - 1]
    requires j <= |p| && AllWhitespace(p[|p| - j..])
    ensures AllWhitespace(s[|s| - (j + 1)..])
  {
    var t, u := s[|s| - (j + 1)..], p[|p| - j..];
    assert forall i :: 0 <= i < |u| ==> t[i] == u[i];
  }

  /** Drops the leading whitespace. */
  function TrimStart(s: string): (r: string)
    ensures |r| <= |s| && r == s[|s| - |r|..]
    ensures AllWhitespace(s[..|s| - |r|])
    ensures r == [] || !IsWhitespace(r[0])
  {
    s[Lead(s)..]
  }

  /** Drops the trailing whitespace. */
  function TrimEnd(s: string): (r: string)
    ensures |r| <= |s| && r == s[..|r|]
    ensures AllWhitespace(s[|r|..])
    ensures r == [] || !IsWhitespace(r[|r| - 1])
  {
    s[..|s| - Trail(s)]
  }

  /** `r` is the slice of `s` from `a` on, with only whitespace before and after it. */
  predicate TrimmedFrom(s: string, a: nat, r: string) {
    && a + |r| <= |s| && r == s[a..a + |r|]
    && AllWhitespace(s[..a]) && AllWhitespace(s[a + |r|..])
  }

  /** `s.trim()`: the longest slice of `s` that has no whitespace at
      either end, with only whitespace cut off around it; it starts where
      the leading whitespace ends. */
  function Trim(s: string): (r: string)
    ensures IsTrimmed(r)
    ensures TrimmedFrom(s, Lead(s), r)
  {
    var t := TrimStart(s);
    var r := TrimEnd(t);
    TrimPieces(s, Lead(s), t, r);
    r
  }

  /** The two halves of `trim` put together: `t` is `s` without its `a`
      leading whitespace characters and `r` is `t` without its trailing
      whitespace. */
  lemma TrimPieces(s: string, a: nat, t: string, r: string)
    requires a <= |s| && t == s[a..] && AllWhitespace(s[..a])
    requires t == [] || !IsWhitespace(t[0])
    requires |r| <= |t| && r == t[..|r|] && AllWhitespace(t[|r|..])
    requires r == [] || !IsWhitespace(r[|r| - 1])
    ensures IsTrimmed(r)
    ensures TrimmedFrom(s, a, r)
  {
    SliceOfSuffix(s, a, |r|);
    if r != [] {
      assert r[0] == t[0];
    }
  }

  lemma SliceOfSuffix(s: string, a: nat, n: nat)
    requires a + n <= |s|
    ensures s[a..][..n] == s[a..a + n] && s[a..][n..] == s[a + n..]
  {
  }

  lemma {:induction false} LeadOfPadded(w: string, t: string)
    requires AllWhitespace(w)
    requires t == [] || !IsWhitespace(t[0])
    ensures Lead(w + t) == |w|
    decreases |w|
  {
    if w == [] {
      assert w + t == t;
    } else {
      assert (w + t)[1..] == w[1..] + t;
      LeadOfPadded(w[1..], t);
    }
  }

  lemma {:induction false} TrailOfPadded(t: string, w: string)
    requires AllWhitespace(w)
    requires t == [] || !IsWhitespace(t[|t| - 1])
    ensures Trail(t + w) == |w|
    decreases |w|
  {
    if w == [] {
      assert t + w == t;
    } else {
      assert (t + w)[..|t + w| - 1] == t + w[..|w| - 1];
      TrailOfPadded(t, w[..|w| - 1]);
    }
  }

  lemma TrimStartOfPadded(w: string, t: string)
    requires AllWhitespace(w)
    requires t == [] || !IsWhitespace(t[0])
    ensures TrimStart(w + t) == t
  {
    LeadOfPadded(w, t);
    assert (w + t)[|w|..] == t;
  }

  lemma TrimEndOfPadded(t: string, w: string)
    requires AllWhitespace(w)
    requires t == [] || !IsWhitespace(t[|t| - 1])
    ensures TrimEnd(t + w) == t
  {
    TrailOfPadded(t, w);
    assert (t + w)[..|t|] == t;
  }

  /** Trim is determined by its contract: whatever the whitespace padding
      around a trimmed core, `trim` returns exactly that core. */
  lemma TrimOfPadded(w1: string, core: string, w2: string)
    requires AllWhitespace(w1) && AllWhitespace(w2) && IsTrimmed(core)
    ensures Trim(w1 + core + w2) == core
  {
    if core == [] {
      assert w1 + core + w2 == w1 + w2;
      assert AllWhitespace(w1 + w2);
      TrimStartOfPadded(w1 + w2, []);
      assert w1 + w2 + [] == w1 + w2;
      assert TrimEnd([]) == [];
    } else {
      assert w1 + core + w2 == w1 + (core + w2);
      TrimStartOfPadded(w1, core + w2);
      TrimEndOfPadded(core, w2);
    }
  }

  /** Text with no whitespace at either end is its own trim. */
  lemma TrimOfTrimmed(r: string)
    requires IsTrimmed(r)
    ensures Trim(r) == r
  {
    if r != [] {
      assert Lead(r) == 0;
      assert r[0..] == r;
      assert Trail(r) == 0;
      assert r[..|r|] == r;
    }
  }

  /** Trimming twice changes nothing. */
  lemma TrimIdempotent(s: string)
    ensures Trim(Trim(s)) == Trim(s)
  {
    TrimOfTrimmed(Trim(s));
  }

  /** `s.endsWith(suffix)`. */
  predicate EndsWith(s: string, suffix: string) {
    |suffix| <= |s| && s[|s| - |suffix|..] == suffix
  }

  /** `lines.join("\n")`: no separator before the first line or after the
      last; the empty array joins to the empty string. */
  function Join(lines: seq<string>): (r: string)
    ensures lines == [] ==> r == ""
    ensures |lines| == 1 ==> r == lines[0]
  {
    if lines == [] then ""
    else if |lines| == 1 then lines[0]
    else lines[0] + "\n" + Join(lines[1..])
  }

  /** The position of the first line break in `s`, or `|s|` if none. */
  function LineEnd(s: string): (k: nat)
    ensures k <= |s|
    ensures k < |s| ==> s[k] == '\n'
    ensures '\n' !in s[..k]
  {
    if s == [] then 0
    else if s[0] == '\n' then 0
    else
      var k := 1 + LineEnd(s[1..]);
      assert s[..k] == [s[0]] + s[1..][..k - 1];
      k
  }

  /** Splits on every line break, like JavaScript's `s.split("\n")`. */
  function Split(s: string): (r: seq<string>)
    ensures |r| >= 1
    decreases |s|
  {
    var k := LineEnd(s);
    if k == |s| then [s] else [s[..k]] + Split(s[k + 1..])
  }

  /** `Join` loses nothing: the lines come back from splitting the
      joined text, provided no line holds a line break itself. */
  lemma {:induction false} SplitJoin(lines: seq<string>)
    requires |lines| >= 1
    requires forall i :: 0 <= i < |lines| ==> '\n' !in lines[i]
    ensures Split(Join(lines)) == lines
    decreases |lines|
  {
    var a := lines[0];
    if |lines| == 1 {
      assert a + "" == a;
      LineEndOfLine(a, "");
    } else {
      var more := lines[1..];
      assert forall i :: 0 <= i < |more| ==> more[i] == lines[i + 1];
      SplitJoin(more);
      SplitAtBreak(a, Join(more));
      assert [a] + more == lines;
    }
  }

  /** Splitting a line, a break and the rest gives the line, then the
      rest's lines. */
  lemma SplitAtBreak(a: string, rest: string)
    requires '\n' !in a
    ensures Split(a + "\n" + rest) == [a] + Split(rest)
  {
    var s := a + "\n" + rest;
    assert s == a + ("\n" + rest);
    LineEndOfLine(a, "\n" + rest);
    assert s[..|a|] == a;
    assert s[|a| + 1..] == rest;
  }

  /** The first line break of `a + rest` is the one `rest` starts with. */
  lemma {:induction false} LineEndOfLine(a: string, rest: string)
    requires '\n' !in a
    requires rest == [] || rest[0] == '\n'
    ensures LineEnd(a + rest) == |a|
    decreases |a|
  {
    if a == [] {
      assert a + rest == rest;
    } else {
      assert (a + rest)[1..] == a[1..] + rest;
      assert '\n' !in a[1..] by { assert forall i :: 0 <= i < |a| - 1 ==> a[1..][i] == a[i + 1]; }
      LineEndOfLine(a[1..], rest);
    }
  }
}
