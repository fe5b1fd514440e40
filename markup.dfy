/**
 What becomes of one icon's markup: the outer `<svg …>` / `</svg>` tags are
 cut out of the optimized text, the rest is trimmed and embedded in the
 fixed Svelte component template under the attribution banner.
 */
module Markup {
  import opened JsStrings

  // ---------------------------------------------------------------------
  // Outer-tag stripping: `replace(/<svg[^>]*>|<\/svg>/g, '').trim()`

  /** The position of the first `>` at or after `from`, or `|s|` if none. */
  function CloseAngle(s: string, from: nat): (k: nat)
    requires from <= |s|
    ensures from <= k <= |s|
    ensures k < |s| ==> s[k] == '>'
    ensures forall j :: from <= j < k ==> s[j] != '>'
    decreases |s| - from
  {
    if from == |s| || s[from] == '>' then from else CloseAngle(s, from + 1)
  }

  /** `s` starts with `<svg`, where the first alternative can match. */
  predicate OpensTag(s: string) {
    |s| >= 4 && s[0] == '<' && s[1] == 's' && s[2] == 'v' && s[3] == 'g'
  }

  /** `s` starts with `</svg>`, the second alternative. */
  predicate ClosesTag(s: string) {
    && |s| >= 6 && s[0] == '<' && s[1] == '/' && s[2] == 's' && s[3] == 'v'
    && s[4] == 'g' && s[5] == '>'
  }

  /** One left-to-right pass of the global replacement. At each position
      the first alternative `<svg[^>]*>` matches up to the first `>`
      after `<svg` (if there is one); otherwise `</svg>` is tried; a
      position where neither matches is copied and the scan moves on.
      Text that a removal brings together is not looked at again. */
  function StripOuterTags(s: string): string
    decreases |s|
  {
    if s == [] then []
    else if OpensTag(s) && CloseAngle(s, 4) < |s| then StripOuterTags(s[CloseAngle(s, 4) + 1..])
    else if ClosesTag(s) then StripOuterTags(s[6..])
    else [s[0]] + StripOuterTags(s[1..])
  }

  /** `innerSvg`: the optimized markup without its outer tags, trimmed. */
  function InnerMarkup(optimized: string): (r: string)
    ensures IsTrimmed(r)
  {
    Trim(StripOuterTags(optimized))
  }

  /** Neither `<svg` nor `</svg>` occurs anywhere in `s`. */
  predicate TagFree(s: string) {
    forall i :: 0 <= i < |s| ==> !OpensTag(s[i..]) && !ClosesTag(s[i..])
  }

  /** Tag-free text, followed by nothing or by a closing tag, comes out of
      the pass as it is: no match can start inside it, not even one that
      would run on into the closing tag. */
  lemma {:induction false} StripTagFree(body: string, tail: string)
    requires TagFree(body)
    requires tail == "" || tail == "</svg>"
    ensures StripOuterTags(body + tail) == body
    decreases |body|
  {
    var t := body + tail;
    if body == [] {
      assert t == tail;
      if tail == "</svg>" {
        assert t[6..] == [];
      }
    } else {
      NoMatchAtStart(body, tail);
      assert t[1..] == body[1..] + tail;
      assert TagFree(body[1..]) by {
        forall i | 0 <= i < |body| - 1
          ensures !OpensTag(body[1..][i..]) && !ClosesTag(body[1..][i..])
        {
          assert body[1..][i..] == body[i + 1..];
        }
      }
      StripTagFree(body[1..], tail);
    }
  }

  /** Neither alternative matches at the start of tag-free text, even
      when a closing tag follows it. */
  lemma NoMatchAtStart(body: string, tail: string)
    requires TagFree(body) && |body| > 0
    requires tail == "" || tail == "</svg>"
    ensures !OpensTag(body + tail) && !ClosesTag(body + tail)
  {
    var t := body + tail;
    assert body[0..] == body;
    assert forall j :: 0 <= j < |body| ==> t[j] == body[j];
    if tail == "</svg>" && |body| < 6 {
      assert t[|body|] == '<';
    }
  }

  lemma WithoutAngleIsTagFree(s: string)
    requires '<' !in s
    ensures TagFree(s)
  {
    forall i | 0 <= i < |s| ensures !OpensTag(s[i..]) && !ClosesTag(s[i..]) {
      assert s[i..][0] == s[i];
    }
  }

  /** For markup of the shape `<svg attrs>body</svg>`, where the opening
      tag's attributes hold no `>` and the body no `<svg` or `</svg>`,
      the inner markup is exactly the trimmed body. */
  lemma InnerOfWrapped(attrs: string, body: string)
    requires '>' !in attrs
    requires TagFree(body)
    ensures InnerMarkup("<svg" + attrs + ">" + body + "</svg>") == Trim(body)
  {
    var s := "<svg" + attrs + ">" + body + "</svg>";
    assert s == "<svg" + attrs + ">" + (body + "</svg>");
    OpeningTagRemoved(attrs, body + "</svg>");
    StripTagFree(body, "</svg>");
  }

  /** An opening tag whose attributes hold no `>` is removed up to and
      including its `>`, and the scan resumes behind it. */
  lemma OpeningTagRemoved(attrs: string, rest: string)
    requires '>' !in attrs
    ensures StripOuterTags("<svg" + attrs + ">" + rest) == StripOuterTags(rest)
  {
    var s := "<svg" + attrs + ">" + rest;
    var k := 4 + |attrs|;
    assert s[k] == '>' && s[k + 1..] == rest;
    assert forall j :: 4 <= j < k ==> s[j] == attrs[j - 4];
    assert OpensTag(s) by { assert s[..4] == "<svg"; }
    assert CloseAngle(s, 4) == k;
  }

  /** The pass runs once: removing a closing tag can bring together text
      that is not looked at again, however it reads. */
  lemma {:induction false} RemovalNotRescanned(b: string)
    requires TagFree(b)
    ensures StripOuterTags("</" + "</svg>" + b) == "</" + b
  {
    var s := "</" + "</svg>" + b;
    var t, u := s[1..], s[2..];
    assert t[1..] == u && u[6..] == b;
    CopiedWhenNoMatch(s);
    CopiedWhenNoMatch(t);
    ClosingTagRemoved(u);
    StripTagFree(b, "");
    assert b + "" == b;
    assert StripOuterTags(s) == [s[0]] + ([t[0]] + b);
  }

  /** So `</</svg>svg>` comes out as a new `</svg>`. */
  lemma SinglePass()
    ensures StripOuterTags("</</svg>svg>") == "</svg>"
  {
    WithoutAngleIsTagFree("svg>");
    RemovalNotRescanned("svg>");
    assert "</" + "</svg>" + "svg>" == "</</svg>svg>";
    assert "</" + "svg>" == "</svg>";
  }

  /** A closing tag at the start is removed and the scan resumes behind it. */
  lemma ClosingTagRemoved(s: string)
    requires ClosesTag(s)
    ensures StripOuterTags(s) == StripOuterTags(s[6..])
  {
  }

  lemma CopiedWhenNoMatch(s: string)
    requires |s| >= 3 && s[1] != 's' && s[2] != 's'
    ensures StripOuterTags(s) == [s[0]] + StripOuterTags(s[1..])
  {
  }

  // ---------------------------------------------------------------------
  // The attribution banner and the component template

  const AuthorName := "Peyman Naderi"
  const GithubUrl := "https://github.com/peymanath"
  const TelegramUrl := "https://t.me/svelte_ch"

  /** `bannerComment`: the banner's template literal after `trim`, which
      removes its opening and closing line break (see `BannerIsTrimmed`). */
  const BannerComment: string :=
    "/**" + "\n * Icon Generator Script - Built for Svelte projects\n * Author: " + AuthorName
    + "\n * GitHub: " + GithubUrl + "\n * Telegram Channel: " + TelegramUrl
    + "\n *\n * Description: This script converts raw SVG files into Svelte components and auto-generates a barrel export."
    + "\n * Reusable, fast, and ideal for Svelte + TypeScript monorepos.\n *\n * Feel free to share or fork — credit is appreciated"
    + "\n */"

  lemma BannerIsTrimmed()
    ensures Trim("\n" + BannerComment + "\n") == BannerComment
  {
    assert BannerComment[0] == '/' && BannerComment[|BannerComment| - 1] == '/';
    TrimOfPadded("\n", BannerComment, "\n");
  }

  const ScriptOpen := "<script lang=\"ts\">"
  const SizeProp := "export let size: string = \"24\";"
  const ViewBox := "viewBox=\"0 0 24 24\""
  const HeadMiddle := "\n</script>\n\n<svg\n  xmlns=\"http://www.w3.org/2000/svg\"\n  width={size}\n  height={size}\n  "
  const HeadClose := "\n>\n  "

  /** The template text before the inner markup, as written to the file,
      for the banner `banner` (the generator always uses `BannerComment`). */
  function ComponentHead(banner: string): string {
    ScriptOpen + "\n  " + banner + "\n  " + SizeProp + HeadMiddle + ViewBox + HeadClose
  }

  /** The template text after the inner markup, as written to the file. */
  const ComponentTail := "\n" + "</svg>"

  /** `componentCode`, the template literal with its line breaks at both ends. */
  function ComponentTemplate(banner: string, inner: string): string {
    "\n" + ComponentHead(banner) + inner + ComponentTail + "\n"
  }

  /** `componentCode.trim()`, the text written to the component file. The
      trim only removes the template's outer line breaks: it never reaches
      the banner or the inner markup, whatever they are. */
  function ComponentCode(banner: string, inner: string): (r: string)
    ensures r == ComponentHead(banner) + inner + ComponentTail
  {
    var core := ComponentHead(banner) + inner + ComponentTail;
    assert core[0] == '<' && core[|core| - 1] == '>';
    assert ComponentTemplate(banner, inner) == "\n" + core + "\n";
    TrimOfPadded("\n", core, "\n");
    Trim(ComponentTemplate(banner, inner))
  }

  /** `sub` occurs in `s` (JavaScript's `s.includes(sub)`). */
  predicate Includes(s: string, sub: string) {
    exists i :: 0 <= i <= |s| && sub <= s[i..]
  }

  lemma IncludesMiddle(a: string, b: string, c: string)
    ensures Includes(a + b + c, b)
  {
    assert (a + b + c)[|a|..] == b + c;
  }

  /** Every component file opens the script block, carries the banner,
      declares the `size` property with default "24", keeps the 24×24 view
      box and ends by closing the `svg` element. */
  lemma ComponentShape(banner: string, inner: string)
    ensures ScriptOpen <= ComponentCode(banner, inner)
    ensures EndsWith(ComponentCode(banner, inner), "</svg>")
    ensures Includes(ComponentCode(banner, inner), banner)
    ensures Includes(ComponentCode(banner, inner), SizeProp)
    ensures Includes(ComponentCode(banner, inner), ViewBox)
  {
    ComponentOpensScript(banner, inner);
    ComponentClosesSvg(banner, inner);
    ComponentHasPieces(banner, inner);
  }

  lemma ComponentOpensScript(banner: string, inner: string)
    ensures ScriptOpen <= ComponentCode(banner, inner)
  {
    PrefixOf(ScriptOpen, "\n  ", banner, "\n  ", SizeProp, HeadMiddle, ViewBox, HeadClose,
      inner, ComponentTail);
  }

  lemma ComponentClosesSvg(banner: string, inner: string)
    ensures EndsWith(ComponentCode(banner, inner), "</svg>")
  {
    EndsWithClose(ComponentHead(banner) + inner);
  }

  lemma ComponentHasPieces(banner: string, inner: string)
    ensures Includes(ComponentCode(banner, inner), banner)
    ensures Includes(ComponentCode(banner, inner), SizeProp)
    ensures Includes(ComponentCode(banner, inner), ViewBox)
  {
    PiecesIncluded(ScriptOpen + "\n  ", banner, "\n  ", SizeProp, HeadMiddle, ViewBox, HeadClose,
      inner, ComponentTail);
  }

  lemma PrefixOf(a: string, b: string, c: string, d: string, e: string, f: string, g: string,
                 h: string, i: string, j: string)
    ensures a <= a + b + c + d + e + f + g + h + i + j
  {
    assert a + b + c + d + e + f + g + h + i + j == a + (b + c + d + e + f + g + h + i + j);
  }

  lemma EndsWithClose(front: string)
    ensures EndsWith(front + ComponentTail, "</svg>")
  {
    assert front + ComponentTail == (front + "\n") + "</svg>";
  }

  /** Plain associativity, stated once for abstract pieces so that it is
      not recomputed on the template's text. */
  lemma PiecesIncluded(a: string, b: string, c: string, d: string, e: string, f: string, g: string,
                       h: string, i: string)
    ensures Includes(a + b + c + d + e + f + g + h + i, b)
    ensures Includes(a + b + c + d + e + f + g + h + i, d)
    ensures Includes(a + b + c + d + e + f + g + h + i, f)
  {
    assert a + b + c + d + e + f + g + h + i == a + b + (c + d + e + f + g + h + i);
    IncludesMiddle(a, b, c + d + e + f + g + h + i);
    assert a + b + c + d + e + f + g + h + i == (a + b + c) + d + (e + f + g + h + i);
    IncludesMiddle(a + b + c, d, e + f + g + h + i);
    assert a + b + c + d + e + f + g + h + i == (a + b + c + d + e) + f + (g + h + i);
    IncludesMiddle(a + b + c + d + e, f, g + h + i);
  }

  lemma SliceMiddle(x: string, y: string, z: string)
    ensures |x + y + z| == |x| + |y| + |z|
    ensures (x + y + z)[|x|..|x| + |y|] == y
  {
  }

  /** Different inner markups give different component files. */
  lemma ComponentCodeInjective(banner: string, a: string, b: string)
    requires ComponentCode(banner, a) == ComponentCode(banner, b)
    ensures a == b
  {
    SliceMiddle(ComponentHead(banner), a, ComponentTail);
    SliceMiddle(ComponentHead(banner), b, ComponentTail);
  }
}
