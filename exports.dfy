/**
 The barrel (re-export) text: one export line per component, the icons
 index that lists them under the banner, and the package index that
 re-exports the icons folder.
 */
module Exports {
  import opened JsStrings

  /** The export line pushed for component `name`. */
  function ExportLine(name: string): string {
    "export { default as " + name + " } from './" + name + ".svelte';"
  }

  /** The component name can be read back from its export line, so
      different names give different lines. */
  lemma ExportLineInjective(a: string, b: string)
    requires ExportLine(a) == ExportLine(b)
    ensures a == b
  {
    var p := "export { default as ";
    assert |ExportLine(a)| == |p| + 2 * |a| + |" } from './"| + |".svelte';"|;
    assert |a| == |b|;
    assert ExportLine(a)[|p|..|p| + |a|] == a;
    assert ExportLine(b)[|p|..|p| + |b|] == b;
  }

  /** An export line is a single line when the name is. */
  lemma ExportLineIsOneLine(name: string)
    requires '\n' !in name
    ensures '\n' !in ExportLine(name)
  {
  }

  /** `iconsIndexContent` for the banner `banner`: the banner, a blank
      line, the export lines joined by line breaks, and a final line break. */
  function IconsIndex(banner: string, lines: seq<string>): string {
    banner + "\n\n" + Join(lines) + "\n"
  }

  /** With no icons the index is the banner followed by three line breaks. */
  lemma IconsIndexEmpty(banner: string)
    ensures IconsIndex(banner, []) == banner + "\n\n\n"
  {
    assert Join([]) == "";
    Regroup3(banner, "\n\n", "\n");
  }

  lemma Regroup3(a: string, b: string, c: string)
    ensures a + b + "" + c == a + (b + c)
  {
  }

  /** The icons index lists exactly the export lines, in order: after the
      banner's two line breaks and before the final one, splitting on line
      breaks gives the lines back. */
  lemma IconsIndexListsLines(banner: string, lines: seq<string>)
    requires |lines| >= 1
    requires forall i :: 0 <= i < |lines| ==> '\n' !in lines[i]
    ensures var c := IconsIndex(banner, lines);
      var h := |banner| + 2;
      && h < |c|
      && c[..h] == banner + "\n\n"
      && c[|c| - 1] == '\n'
      && Split(c[h..|c| - 1]) == lines
  {
    Framed(banner + "\n\n", Join(lines), "\n");
    SplitJoin(lines);
  }

  lemma Framed(head: string, body: string, last: string)
    requires |last| == 1
    ensures var c := head + body + last;
      && |c| == |head| + |body| + 1
      && c[..|head|] == head && c[|head|..|c| - 1] == body && c[|c| - 1] == last[0]
  {
  }

  /** The one line of the package index. */
  const WildcardExport := "export * from \"./icons\";"

  /** `rootIndexContent`: the banner and one wildcard re-export of the
      icons folder; nothing in it depends on the icons. */
  function RootIndex(banner: string): string {
    banner + "\n\n" + WildcardExport + "\n"
  }

  /** The package index has the icons index's layout, with the wildcard
      re-export as its only line. */
  lemma RootIndexIsOneLineIndex(banner: string)
    ensures RootIndex(banner) == IconsIndex(banner, [WildcardExport])
    ensures Split(RootIndex(banner)[|banner| + 2..|RootIndex(banner)| - 1]) == [WildcardExport]
  {
    assert Join([WildcardExport]) == WildcardExport;
    IconsIndexListsLines(banner, [WildcardExport]);
  }
}
