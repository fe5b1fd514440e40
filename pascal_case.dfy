/**
 The identifier transform `toPascalCase`: the global substitution
 `/(^\w|-\w)/g`, where every match is replaced by itself with the hyphen
 removed and upper-cased. `\w` is ASCII-only (no `u` flag), so only
 `[A-Za-z0-9_]` are word characters and only `a`-`z` change case.
 */
module PascalCase {

  /** `\w` in a regular expression without the `u` flag. */
  predicate IsWordChar(c: char) {
    ('a' <= c <= 'z') || ('A' <= c <= 'Z') || ('0' <= c <= '9') || c == '_'
  }

  /** `toUpperCase` on an ASCII word character. */
  function Upper(c: char): (u: char)
    ensures 'a' <= c <= 'z' ==> 'A' <= u <= 'Z' && u as int == c as int - 32
    ensures !('a' <= c <= 'z') ==> u == c
    ensures IsWordChar(u) <==> IsWordChar(c)
  {
    if 'a' <= c <= 'z' then (c as int - 32) as char else c
  }

  /** The regex engine's left-to-right scan away from position 0, where
      only the `-\w` alternative can match; after a match the scan resumes
      behind it, so matches never overlap. */
  function Scan(s: string): string
    decreases |s|
  {
    if |s| >= 2 && s[0] == '-' && IsWordChar(s[1]) then [Upper(s[1])] + Scan(s[2..])
    else if s == [] then []
    else [s[0]] + Scan(s[1..])
  }

  /** `toPascalCase(input)`: at position 0 the `^\w` alternative is
      tried first; everywhere else only `-\w`. */
  function ToPascalCase(s: string): string {
    if |s| >= 1 && IsWordChar(s[0]) then [Upper(s[0])] + Scan(s[1..]) else Scan(s)
  }

  // ---------------------------------------------------------------------
  // A reference definition, position by position

  /** Position `i` is a hyphen that a word character follows: it is deleted. */
  predicate Dropped(s: string, i: nat)
    requires i < |s|
  {
    s[i] == '-' && i + 1 < |s| && IsWordChar(s[i + 1])
  }

  /** Position `i` is a word character that starts the string or follows a
      hyphen: it is upper-cased. */
  predicate Capitalised(s: string, i: nat)
    requires i < |s|
  {
    IsWordChar(s[i]) && (i == 0 || s[i - 1] == '-')
  }

  /** What position `i` of the input contributes to the output. */
  function Emit(s: string, i: nat): (r: string)
    requires i < |s|
    ensures |r| <= 1
  {
    if Dropped(s, i) then []
    else if Capitalised(s, i) then [Upper(s[i])]
    else [s[i]]
  }

  /** The output for positions `i..` of the input, each position on its own. */
  function Out(s: string, i: nat): string
    requires i <= |s|
    decreases |s| - i
  {
    if i == |s| then [] else Emit(s, i) + Out(s, i + 1)
  }

  /** The number of hyphens directly followed by a word character. */
  function Joints(s: string): nat
    decreases |s|
  {
    if |s| < 2 then 0
    else (if s[0] == '-' && IsWordChar(s[1]) then 1 else 0) + Joints(s[1..])
  }

  /** The scan agrees with the per-position definition from any position
      the scan can resume at: one that needs no upper-casing, so neither
      position 0 holding a word character nor the word character of a
      `-\w` match. */
  lemma {:induction false} ScanIsOut(s: string, i: nat)
    requires i <= |s|
    requires i < |s| ==> !Capitalised(s, i)
    ensures Scan(s[i..]) == Out(s, i)
    decreases |s| - i
  {
    if i == |s| {
      assert s[i..] == [];
    } else if Dropped(s, i) {
      ScanAtDropped(s, i);
      OutAtDropped(s, i);
      ScanIsOut(s, i + 2);
    } else {
      ScanAtKept(s, i);
      OutAtKept(s, i);
      ScanIsOut(s, i + 1);
    }
  }

  lemma ScanAtDropped(s: string, i: nat)
    requires i < |s| && Dropped(s, i)
    ensures Scan(s[i..]) == [Upper(s[i + 1])] + Scan(s[i + 2..])
  {
    var t := s[i..];
    assert t[0] == s[i] && t[1] == s[i + 1] && t[2..] == s[i + 2..];
  }

  lemma ScanAtKept(s: string, i: nat)
    requires i < |s| && !Dropped(s, i)
    ensures Scan(s[i..]) == [s[i]] + Scan(s[i + 1..])
  {
    var t := s[i..];
    assert t[0] == s[i] && t[1..] == s[i + 1..];
    assert |t| >= 2 ==> t[1] == s[i + 1];
  }

  lemma OutAtDropped(s: string, i: nat)
    requires i < |s| && Dropped(s, i)
    ensures Out(s, i) == [Upper(s[i + 1])] + Out(s, i + 2)
    ensures i + 2 < |s| ==> !Capitalised(s, i + 2)
  {
    assert Emit(s, i) == [];
    assert Emit(s, i + 1) == [Upper(s[i + 1])];
  }

  lemma OutAtKept(s: string, i: nat)
    requires i < |s| && !Dropped(s, i) && !Capitalised(s, i)
    ensures Out(s, i) == [s[i]] + Out(s, i + 1)
    ensures i + 1 < |s| ==> !Capitalised(s, i + 1)
  {
  }

  /** `toPascalCase` is the per-position transform: the first character,
      if a word character, is upper-cased; every hyphen followed by a word
      character is deleted and that character upper-cased; every other
      character is kept as it is. */
  lemma ToPascalCaseIsOut(s: string)
    ensures ToPascalCase(s) == Out(s, 0)
  {
    if |s| >= 1 && IsWordChar(s[0]) {
      assert !Dropped(s, 0) && Capitalised(s, 0);
      ScanIsOut(s, 1);
    } else {
      assert s[0..] == s;
      ScanIsOut(s, 0);
    }
  }

  lemma {:induction false} ScanLength(s: string)
    ensures |Scan(s)| == |s| - Joints(s)
    decreases |s|
  {
    if |s| >= 2 && s[0] == '-' && IsWordChar(s[1]) {
      assert s[1..][1..] == s[2..];
      ScanLength(s[2..]);
    } else if s != [] {
      ScanLength(s[1..]);
    }
  }

  /** Every `-\w` pair costs one character and nothing else changes length. */
  lemma ToPascalCaseLength(s: string)
    ensures |ToPascalCase(s)| == |s| - Joints(s)
  {
    ScanLength(s);
    if |s| >= 1 && IsWordChar(s[0]) {
      ScanLength(s[1..]);
    }
  }

  /** A hyphen with no word character after it (the first of `--`, a
      trailing one) survives, and so the output of a kebab-case name
      without such hyphens holds none. */
  lemma {:induction false} ScanKeepsOnlyLooseHyphens(s: string)
    requires forall i :: 0 <= i < |s| && s[i] == '-' ==> i + 1 < |s| && IsWordChar(s[i + 1])
    ensures '-' !in Scan(s)
    decreases |s|
  {
    if |s| >= 2 && s[0] == '-' && IsWordChar(s[1]) {
      assert forall i :: 0 <= i < |s| - 2 ==> s[2..][i] == s[i + 2];
      ScanKeepsOnlyLooseHyphens(s[2..]);
    } else if s != [] {
      assert forall i :: 0 <= i < |s| - 1 ==> s[1..][i] == s[i + 1];
      ScanKeepsOnlyLooseHyphens(s[1..]);
    }
  }

  lemma NoHyphenLeft(s: string)
    requires forall i :: 0 <= i < |s| && s[i] == '-' ==> i + 1 < |s| && IsWordChar(s[i + 1])
    ensures '-' !in ToPascalCase(s)
  {
    ScanKeepsOnlyLooseHyphens(s);
    if |s| >= 1 && IsWordChar(s[0]) {
      assert forall i :: 0 <= i < |s| - 1 ==> s[1..][i] == s[i + 1];
      ScanKeepsOnlyLooseHyphens(s[1..]);
    }
  }

  lemma {:induction false} ScanKeepsUnhyphenated(s: string)
    requires '-' !in s
    ensures Scan(s) == s
    decreases |s|
  {
    if s != [] {
      assert '-' !in s[1..] by {
        assert forall i :: 0 <= i < |s| - 1 ==> s[1..][i] == s[i + 1];
      }
      ScanKeepsUnhyphenated(s[1..]);
    }
  }

  /** A name without hyphens only has its first character upper-cased. */
  lemma WithoutHyphens(s: string)
    requires '-' !in s && |s| >= 1
    ensures ToPascalCase(s) == [Upper(s[0])] + s[1..]
  {
    assert '-' !in s[1..] by {
      assert forall i :: 0 <= i < |s| - 1 ==> s[1..][i] == s[i + 1];
    }
    ScanKeepsUnhyphenated(s);
    ScanKeepsUnhyphenated(s[1..]);
    assert s == [s[0]] + s[1..];
  }

  /** Scanning over a hyphen-free run and then a `-\w` pair. */
  lemma {:induction false} ScanAcrossHyphen(a: string, b: string)
    requires '-' !in a && |b| >= 1 && IsWordChar(b[0])
    ensures Scan(a + "-" + b) == a + [Upper(b[0])] + Scan(b[1..])
    decreases |a|
  {
    var s := a + "-" + b;
    if a == [] {
      assert s == "-" + b && s[2..] == b[1..];
    } else {
      assert s[0] == a[0] && a[0] != '-';
      assert s[1..] == a[1..] + "-" + b;
      assert '-' !in a[1..] by {
        assert forall i :: 0 <= i < |a| - 1 ==> a[1..][i] == a[i + 1];
      }
      ScanAcrossHyphen(a[1..], b);
      assert a == [a[0]] + a[1..];
    }
  }

  /** Two hyphen-free words starting with word characters, joined by a
      hyphen: each word gets its first character upper-cased and the
      hyphen goes. */
  lemma TwoWords(a: string, b: string)
    requires '-' !in a && |a| >= 1 && IsWordChar(a[0])
    requires '-' !in b && |b| >= 1 && IsWordChar(b[0])
    ensures ToPascalCase(a + "-" + b) == [Upper(a[0])] + a[1..] + [Upper(b[0])] + b[1..]
  {
    var s := a + "-" + b;
    assert s[0] == a[0] && s[1..] == a[1..] + "-" + b;
    assert '-' !in a[1..] && '-' !in b[1..] by {
      assert forall i :: 0 <= i < |a| - 1 ==> a[1..][i] == a[i + 1];
      assert forall i :: 0 <= i < |b| - 1 ==> b[1..][i] == b[i + 1];
    }
    ScanAcrossHyphen(a[1..], b);
    ScanKeepsUnhyphenated(b[1..]);
  }

  lemma ExampleArrowLeft()
    ensures ToPascalCase("arrow-left") == "ArrowLeft"
  {
    TwoWords("arrow", "left");
    assert "arrow" + "-" + "left" == "arrow-left";
    assert [Upper('a')] + "rrow" + [Upper('l')] + "eft" == "ArrowLeft";
  }

  lemma ExampleHome()
    ensures ToPascalCase("home") == "Home"
  {
    WithoutHyphens("home");
    assert "home"[1..] == "ome";
  }

  lemma ExampleDoubleHyphen()
    ensures ToPascalCase("a--b") == "A-B"
  {
    var s := "a--b";
    assert s[0] == 'a' && s[1..] == "--b";
    var t := "--b";
    assert t[1] == '-' && t[1..] == "" + "-" + "b";
    ScanAcrossHyphen("", "b");
    assert "b"[1..] == [];
  }

  /** Not idempotent: a second pass removes the hyphen the first one kept. */
  lemma NotIdempotent()
    ensures ToPascalCase(ToPascalCase("a--b")) != ToPascalCase("a--b")
  {
    ExampleDoubleHyphen();
    var s := "A-B";
    assert s[0] == 'A' && s[1..] == "" + "-" + "B";
    ScanAcrossHyphen("", "B");
    assert "B"[1..] == [];
  }
}
