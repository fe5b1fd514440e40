/**
 The `IconGenerator` pipeline: wipe the output folder, list the `.svg`
 files, write one component per file and collect its export line, then
 write the two index files. The file system is modelled by the contents
 of the two folders written to (maps from file name to text) and, for the
 input folder, a listing in the order the system returns it plus a map
 from file name to text. The SVG optimizer is a parameter that either
 returns the optimized markup or fails, as svgo does when it cannot parse
 its input.
 */
module Generator {
  import opened JsStrings
  import opened PascalCase
  import opened Markup
  import opened Exports

  datatype Option<T> = None | Some(value: T)

  /** Why a run stopped: `readFileSync` threw on the file, or the
      optimizer could not produce markup for it. */
  datatype Failure = Unreadable(file: string) | NotOptimized(file: string)

  // ---------------------------------------------------------------------
  // Listing and naming

  /** `readdirSync(...).filter((file) => file.endsWith('.svg'))`. */
  function SvgFiles(listing: seq<string>): (r: seq<string>)
    ensures |r| <= |listing|
    ensures forall f :: f in r <==> f in listing && EndsWith(f, ".svg")
  {
    if listing == [] then []
    else (if EndsWith(listing[0], ".svg") then [listing[0]] else []) + SvgFiles(listing[1..])
  }

  /** The positions of the `.svg` names in the listing, in increasing order. */
  function SvgPositions(listing: seq<string>): (p: seq<nat>)
    ensures forall j :: 0 <= j < |p| ==> p[j] < |listing|
    ensures forall j, k :: 0 <= j < k < |p| ==> p[j] < p[k]
    ensures forall i :: 0 <= i < |listing| ==> (i in p <==> EndsWith(listing[i], ".svg"))
  {
    if listing == [] then []
    else
      var n := |listing| - 1;
      SvgPositions(listing[..n]) + (if EndsWith(listing[n], ".svg") then [n] else [])
  }

  lemma {:induction false} SvgFilesAppend(a: seq<string>, b: seq<string>)
    ensures SvgFiles(a + b) == SvgFiles(a) + SvgFiles(b)
    decreases |a|
  {
    if a == [] {
      assert a + b == b;
    } else {
      assert (a + b)[1..] == a[1..] + b;
      SvgFilesAppend(a[1..], b);
    }
  }

  /** The filter keeps exactly the `.svg` names, in listing order: its
      result is the listing read at the increasing positions of the `.svg`
      names, and at no other position. */
  lemma {:induction false} SvgFilesIsSubsequence(listing: seq<string>)
    ensures |SvgFiles(listing)| == |SvgPositions(listing)|
    ensures forall j :: 0 <= j < |SvgPositions(listing)| ==>
      SvgFiles(listing)[j] == listing[SvgPositions(listing)[j]]
    decreases |listing|
  {
    if listing != [] {
      var n := |listing| - 1;
      var front, last := listing[..n], listing[n];
      SvgFilesIsSubsequence(front);
      SvgFilesSnoc(front, last);
      assert front + [last] == listing;
      PickedSnoc(front, last, SvgFiles(front), SvgPositions(front), EndsWith(last, ".svg"));
    }
  }

  /** Reading a listing at increasing positions, extended by one more name
      that is or is not picked. */
  lemma PickedSnoc(front: seq<string>, last: string, picked: seq<string>, at: seq<nat>, keep: bool)
    requires |picked| == |at|
    requires forall j :: 0 <= j < |at| ==> at[j] < |front| && picked[j] == front[at[j]]
    ensures var picked', at' := picked + (if keep then [last] else []), at + (if keep then [|front|] else []);
      && |picked'| == |at'|
      && forall j :: 0 <= j < |at'| ==> picked'[j] == (front + [last])[at'[j]]
  {
  }

  lemma SvgFilesSnoc(front: seq<string>, last: string)
    ensures SvgFiles(front + [last]) == SvgFiles(front) + (if EndsWith(last, ".svg") then [last] else [])
  {
    SvgFilesAppend(front, [last]);
    assert [last][1..] == [];
  }

  /** Filtering twice keeps the same names. */
  lemma {:induction false} SvgFilesIdempotent(listing: seq<string>)
    ensures SvgFiles(SvgFiles(listing)) == SvgFiles(listing)
    decreases |listing|
  {
    if listing != [] {
      var head := if EndsWith(listing[0], ".svg") then [listing[0]] else [];
      SvgFilesAppend(head, SvgFiles(listing[1..]));
      if head != [] {
        assert head[1..] == [];
      }
      SvgFilesIdempotent(listing[1..]);
    }
  }

  /** `path.basename(file, '.svg')` for a bare file name. Node returns the
      empty string when the name is the suffix itself, so `.svg` has the
      empty stem; a name without the suffix is returned whole. */
  function Stem(file: string): (stem: string)
    ensures EndsWith(file, ".svg") ==> stem + ".svg" == file
    ensures !EndsWith(file, ".svg") ==> stem == file
  {
    if EndsWith(file, ".svg") then file[..|file| - 4] else file
  }

  lemma StemOfSuffixOnly()
    ensures Stem(".svg") == ""
  {
  }

  /** `componentName`. */
  function ComponentName(file: string): string {
    ToPascalCase(Stem(file))
  }

  /** The component's file name in the output folder. */
  function ComponentFile(file: string): string {
    ComponentName(file) + ".svelte"
  }

  /** Two files share a component file exactly when they share a name, and
      no component file is the icons index. */
  lemma ComponentFileNaming(a: string, b: string)
    ensures ComponentFile(a) == ComponentFile(b) <==> ComponentName(a) == ComponentName(b)
    ensures ComponentFile(a) != "index.ts"
  {
    var x, y := ComponentName(a), ComponentName(b);
    if ComponentFile(a) == ComponentFile(b) {
      assert x == ComponentFile(a)[..|x|] && y == ComponentFile(b)[..|y|];
    }
    assert ComponentFile(a)[|ComponentFile(a)| - 1] == 'e';
  }

  /** The text written for a file whose optimized markup is `optimized`. */
  function ComponentText(banner: string, optimized: string): string {
    ComponentCode(banner, InnerMarkup(optimized))
  }

  /** The per-file rendering the pipeline applies, as one function of the
      raw text: it fails where the optimizer fails. It exists so that the
      class methods can take the rendering as an abstract parameter. */
  function Render(banner: string, optimize: string -> Option<string>): string -> Option<string> {
    raw => if optimize(raw).Some? then Some(ComponentText(banner, optimize(raw).value)) else None
  }

  lemma RenderIs(banner: string, optimize: string -> Option<string>, raw: string)
    ensures Render(banner, optimize)(raw).Some? <==> optimize(raw).Some?
    ensures optimize(raw).Some? ==> Render(banner, optimize)(raw).value == ComponentText(banner, optimize(raw).value)
  {
  }

  /** The per-file steps composed: when the optimizer returns one `<svg …>`
      element whose opening tag holds no `>` and whose body holds no
      `<svg` or `</svg>`, the component file is the template's head, the
      trimmed body and the template's tail. */
  lemma RenderOfWrapped(banner: string, optimize: string -> Option<string>, raw: string, attrs: string, body: string)
    requires optimize(raw) == Some("<svg" + attrs + ">" + body + "</svg>")
    requires '>' !in attrs && TagFree(body)
    ensures Render(banner, optimize)(raw) == Some(ComponentHead(banner) + Trim(body) + ComponentTail)
  {
    InnerOfWrapped(attrs, body);
  }

  // ---------------------------------------------------------------------
  // The pipeline as functions of its inputs

  /** The export lines `generateComponents` returns: one per file, in order. */
  function ExportLines(files: seq<string>): (lines: seq<string>)
    ensures |lines| == |files|
    ensures forall i :: 0 <= i < |files| ==> lines[i] == ExportLine(ComponentName(files[i]))
  {
    if files == [] then []
    else ExportLines(files[..|files| - 1]) + [ExportLine(ComponentName(files[|files| - 1]))]
  }

  lemma ExportLinesSnoc(files: seq<string>, i: nat)
    requires i < |files|
    ensures ExportLines(files[..i + 1]) == ExportLines(files[..i]) + [ExportLine(ComponentName(files[i]))]
  {
    assert files[..i + 1][..i] == files[..i];
  }

  /** What a file turns into: nothing when it cannot be read or its
      text cannot be rendered, else the rendered text. */
  function Convert(rawFiles: map<string, string>, render: string -> Option<string>, file: string): Option<string> {
    if file in rawFiles then render(rawFiles[file]) else None
  }

  /** Every one of `files` can be read and rendered. */
  predicate Converts(files: seq<string>, rawFiles: map<string, string>, render: string -> Option<string>) {
    forall i :: 0 <= i < |files| ==> Convert(rawFiles, render, files[i]).Some?
  }

  lemma ConvertsSnoc(files: seq<string>, rawFiles: map<string, string>, render: string -> Option<string>, i: nat)
    requires i < |files| && Converts(files[..i], rawFiles, render) && Convert(rawFiles, render, files[i]).Some?
    ensures Converts(files[..i + 1], rawFiles, render)
  {
    var longer := files[..i + 1];
    forall j | 0 <= j < |longer| ensures Convert(rawFiles, render, longer[j]).Some? {
      if j < i {
        assert files[..i][j] == files[j];
      }
    }
  }

  /** The position of the first file that cannot be read or rendered, or `|files|`. */
  function FirstFailure(files: seq<string>, rawFiles: map<string, string>, render: string -> Option<string>): (k: nat)
    ensures k <= |files| && Converts(files[..k], rawFiles, render)
    ensures k < |files| ==> Convert(rawFiles, render, files[k]).None?
    ensures k == |files| ==> Converts(files, rawFiles, render)
  {
    assert files[..|files|] == files;
    if files == [] then 0
    else if Convert(rawFiles, render, files[0]).None? then 0
    else
      var k := 1 + FirstFailure(files[1..], rawFiles, render);
      assert forall i :: 1 <= i < k ==> files[..k][i] == files[1..][..k - 1][i - 1];
      k
  }

  /** The failure reported for a file that cannot be converted. */
  function FailureOf(rawFiles: map<string, string>, file: string): Failure {
    if file in rawFiles then NotOptimized(file) else Unreadable(file)
  }

  /** Folder contents after writing the (file name, text) `entries` in
      order over `dir`: a later entry overwrites an earlier one of the
      same name. */
  function WriteAll(dir: map<string, string>, entries: seq<(string, string)>): map<string, string> {
    if entries == [] then dir
    else WriteAll(dir, entries[..|entries| - 1])[entries[|entries| - 1].0 := entries[|entries| - 1].1]
  }

  /** The file names among `entries`. */
  function Names(entries: seq<(string, string)>): set<string> {
    set i | 0 <= i < |entries| :: entries[i].0
  }

  predicate DistinctKeys(entries: seq<(string, string)>) {
    forall i, j :: 0 <= i < j < |entries| ==> entries[i].0 != entries[j].0
  }

  lemma NamesSnoc(entries: seq<(string, string)>)
    requires entries != []
    ensures Names(entries) == Names(entries[..|entries| - 1]) + {entries[|entries| - 1].0}
  {
    var p := entries[..|entries| - 1];
    forall x | x in Names(entries) ensures x in Names(p) + {entries[|entries| - 1].0} {
      var i :| 0 <= i < |entries| && entries[i].0 == x;
      if i < |p| {
        assert entries[i] == p[i];
      }
    }
    forall x | x in Names(p) ensures x in Names(entries) {
      var i :| 0 <= i < |p| && p[i].0 == x;
      assert entries[i] == p[i];
    }
  }

  /** Writing adds exactly the entries' names to the folder. */
  lemma {:induction false} WriteAllKeys(dir: map<string, string>, entries: seq<(string, string)>)
    ensures WriteAll(dir, entries).Keys == dir.Keys + Names(entries)
    decreases |entries|
  {
    if entries != [] {
      NamesSnoc(entries);
      WriteAllKeys(dir, entries[..|entries| - 1]);
    }
  }

  /** Last writer wins. */
  lemma {:induction false} WriteAllLastWins(dir: map<string, string>, entries: seq<(string, string)>, i: nat)
    requires i < |entries|
    requires forall j :: i < j < |entries| ==> entries[j].0 != entries[i].0
    ensures entries[i].0 in WriteAll(dir, entries)
    ensures WriteAll(dir, entries)[entries[i].0] == entries[i].1
    decreases |entries|
  {
    var n := |entries| - 1;
    if i < n {
      assert forall j :: i < j < n ==> entries[..n][j] == entries[j];
      WriteAllLastWins(dir, entries[..n], i);
    }
  }

  /** A name no entry carries keeps whatever the folder held. */
  lemma {:induction false} WriteAllElsewhere(dir: map<string, string>, entries: seq<(string, string)>, name: string)
    requires name !in Names(entries)
    ensures name in WriteAll(dir, entries) <==> name in dir
    ensures name in dir ==> WriteAll(dir, entries)[name] == dir[name]
    decreases |entries|
  {
    if entries != [] {
      NamesSnoc(entries);
      WriteAllElsewhere(dir, entries[..|entries| - 1], name);
    }
  }

  /** N entries carry at most N names, exactly N when no two share one. */
  lemma {:induction false} NamesCount(entries: seq<(string, string)>)
    ensures |Names(entries)| <= |entries|
    ensures |Names(entries)| == |entries| <==> DistinctKeys(entries)
    decreases |entries|
  {
    if entries != [] {
      var n := |entries| - 1;
      var p, x := entries[..n], entries[n].0;
      NamesSnoc(entries);
      NamesCount(p);
      if x in Names(p) {
        var i :| 0 <= i < |p| && p[i].0 == x;
        assert entries[i].0 == entries[n].0;
      } else {
        DistinctSnoc(entries);
      }
    }
  }

  /** An entry whose name is new keeps the names pairwise different. */
  lemma DistinctSnoc(entries: seq<(string, string)>)
    requires entries != [] && entries[|entries| - 1].0 !in Names(entries[..|entries| - 1])
    ensures DistinctKeys(entries) <==> DistinctKeys(entries[..|entries| - 1])
  {
    var n := |entries| - 1;
    var p := entries[..n];
    assert forall i :: 0 <= i < n ==> entries[i] == p[i];
    if DistinctKeys(p) {
      forall i, j | 0 <= i < j < |entries| ensures entries[i].0 != entries[j].0 {
        if j == n {
          assert p[i].0 in Names(p);
        }
      }
    }
  }

  /** What `generateComponents` writes for `files`: one entry per file, its
      component file name and its rendered text. */
  function Entries(files: seq<string>, rawFiles: map<string, string>,
                   render: string -> Option<string>): (es: seq<(string, string)>)
    requires Converts(files, rawFiles, render)
    ensures |es| == |files|
  {
    seq(|files|, i requires 0 <= i < |files| => (ComponentFile(files[i]), Convert(rawFiles, render, files[i]).value))
  }

  /** Entry `i` is file `i`'s component file and its rendered text. */
  lemma EntryAt(files: seq<string>, rawFiles: map<string, string>, render: string -> Option<string>, i: nat)
    requires Converts(files, rawFiles, render) && i < |files|
    ensures Entries(files, rawFiles, render)[i] == (ComponentFile(files[i]), Convert(rawFiles, render, files[i]).value)
  {
  }

  /** Writing one more file adds its entry behind the others. */
  lemma EntriesSnoc(files: seq<string>, rawFiles: map<string, string>, render: string -> Option<string>, i: nat)
    requires i < |files| && Converts(files[..i + 1], rawFiles, render)
    ensures Converts(files[..i], rawFiles, render)
    ensures Entries(files[..i + 1], rawFiles, render)[..i] == Entries(files[..i], rawFiles, render)
    ensures Entries(files[..i + 1], rawFiles, render)[i] == (ComponentFile(files[i]), Convert(rawFiles, render, files[i]).value)
  {
    assert forall j :: 0 <= j <= i ==> files[..i + 1][j] == files[j];
    assert forall j :: 0 <= j < i ==> files[..i][j] == files[j];
    var long, short := Entries(files[..i + 1], rawFiles, render), Entries(files[..i], rawFiles, render);
    forall j | 0 <= j < i ensures long[j] == short[j] {
      EntryAt(files[..i + 1], rawFiles, render, j);
      EntryAt(files[..i], rawFiles, render, j);
    }
    EntryAt(files[..i + 1], rawFiles, render, i);
  }

  /** Generating one more component writes its file over the folder so far. */
  lemma WriteComponentsSnoc(dir: map<string, string>, files: seq<string>, rawFiles: map<string, string>,
                            render: string -> Option<string>, i: nat)
    requires i < |files| && Converts(files[..i + 1], rawFiles, render)
    ensures Converts(files[..i], rawFiles, render)
    ensures WriteComponents(dir, files[..i + 1], rawFiles, render)
         == WriteComponents(dir, files[..i], rawFiles, render)[ComponentFile(files[i]) := Convert(rawFiles, render, files[i]).value]
  {
    EntriesSnoc(files, rawFiles, render, i);
  }

  /** The component files written for `files`, in order, over `dir`. */
  function WriteComponents(dir: map<string, string>, files: seq<string>,
                           rawFiles: map<string, string>, render: string -> Option<string>): map<string, string>
    requires Converts(files, rawFiles, render)
  {
    WriteAll(dir, Entries(files, rawFiles, render))
  }

  /** The component files named by `files`. */
  function ComponentFiles(files: seq<string>): set<string> {
    set i | 0 <= i < |files| :: ComponentFile(files[i])
  }

  /** No two files give the same component name. */
  predicate DistinctNames(files: seq<string>) {
    forall i, j :: 0 <= i < j < |files| ==> ComponentName(files[i]) != ComponentName(files[j])
  }

  /** The entries carry exactly the component file names, pairwise
      different exactly when the component names are. */
  lemma EntryNames(files: seq<string>, rawFiles: map<string, string>, render: string -> Option<string>)
    requires Converts(files, rawFiles, render)
    ensures Names(Entries(files, rawFiles, render)) == ComponentFiles(files)
    ensures DistinctKeys(Entries(files, rawFiles, render)) <==> DistinctNames(files)
  {
    var es := Entries(files, rawFiles, render);
    forall i | 0 <= i < |files| ensures es[i].0 == ComponentFile(files[i]) {
      EntryAt(files, rawFiles, render, i);
    }
    forall x | x in Names(es) ensures x in ComponentFiles(files) {
      var i :| 0 <= i < |es| && es[i].0 == x;
    }
    forall x | x in ComponentFiles(files) ensures x in Names(es) {
      var i :| 0 <= i < |files| && ComponentFile(files[i]) == x;
      assert es[i].0 == x;
    }
    forall i, j | 0 <= i < j < |files|
      ensures es[i].0 == es[j].0 <==> ComponentName(files[i]) == ComponentName(files[j])
    {
      ComponentFileNaming(files[i], files[j]);
    }
  }

  /** The output folder after a successful run: the components over an
      emptied folder, then the icons index. */
  function RunOutput(listing: seq<string>, rawFiles: map<string, string>,
                     optimize: string -> Option<string>, banner: string): map<string, string>
    requires Converts(SvgFiles(listing), rawFiles, Render(banner, optimize))
  {
    var files := SvgFiles(listing);
    WriteComponents(map[], files, rawFiles, Render(banner, optimize))["index.ts" := IconsIndex(banner, ExportLines(files))]
  }

  /** After a run the output folder holds one component file per name and
      the icons index, and nothing from before: N `.svg` files give at most
      N + 1 files, exactly N + 1 when the component names are distinct. */
  lemma RunOutputFiles(listing: seq<string>, rawFiles: map<string, string>, optimize: string -> Option<string>,
                       banner: string)
    requires Converts(SvgFiles(listing), rawFiles, Render(banner, optimize))
    ensures var files := SvgFiles(listing);
      && RunOutput(listing, rawFiles, optimize, banner).Keys == ComponentFiles(files) + {"index.ts"}
      && |RunOutput(listing, rawFiles, optimize, banner).Keys| <= |files| + 1
      && (|RunOutput(listing, rawFiles, optimize, banner).Keys| == |files| + 1 <==> DistinctNames(files))
  {
    var files := SvgFiles(listing);
    WrittenWithIndex(files, rawFiles, Render(banner, optimize), IconsIndex(banner, ExportLines(files)));
  }

  /** The folder keys after writing the components of `files` over an empty
      folder and then an index file, whatever the texts are. */
  lemma WrittenWithIndex(files: seq<string>, rawFiles: map<string, string>, render: string -> Option<string>,
                         index: string)
    requires Converts(files, rawFiles, render)
    ensures var out := WriteComponents(map[], files, rawFiles, render)["index.ts" := index];
      && out.Keys == ComponentFiles(files) + {"index.ts"}
      && |out.Keys| <= |files| + 1
      && (|out.Keys| == |files| + 1 <==> DistinctNames(files))
  {
    var es := Entries(files, rawFiles, render);
    EntryNames(files, rawFiles, render);
    IndexIsNoComponent(files);
    EntriesWithIndex(es, "index.ts", index);
  }

  /** The folder keys after writing `entries` over an empty folder and
      then a file of a name no entry carries. */
  lemma EntriesWithIndex(entries: seq<(string, string)>, name: string, text: string)
    requires name !in Names(entries)
    ensures var out := WriteAll(map[], entries)[name := text];
      && out.Keys == Names(entries) + {name}
      && |out.Keys| <= |entries| + 1
      && (|out.Keys| == |entries| + 1 <==> DistinctKeys(entries))
  {
    WriteAllKeys(map[], entries);
    NamesCount(entries);
    AddFreshName(WriteAll(map[], entries), name, text);
  }

  /** The icons index never collides with a component file. */
  lemma IndexIsNoComponent(files: seq<string>)
    ensures "index.ts" !in ComponentFiles(files)
  {
    forall i | 0 <= i < |files| ensures ComponentFile(files[i]) != "index.ts" {
      ComponentFileNaming(files[i], files[i]);
    }
  }

  lemma AddFreshName(dir: map<string, string>, name: string, text: string)
    requires name !in dir
    ensures dir[name := text].Keys == dir.Keys + {name}
    ensures |dir[name := text].Keys| == |dir.Keys| + 1
  {
  }

  /** The last `.svg` file of each name supplies that component's text,
      and the icons index lists every file's export line in listing order. */
  lemma RunOutputContents(listing: seq<string>, rawFiles: map<string, string>,
                          optimize: string -> Option<string>, banner: string, i: nat)
    requires Converts(SvgFiles(listing), rawFiles, Render(banner, optimize))
    requires i < |SvgFiles(listing)|
    requires forall j :: i < j < |SvgFiles(listing)| ==>
      ComponentName(SvgFiles(listing)[j]) != ComponentName(SvgFiles(listing)[i])
    ensures var files := SvgFiles(listing);
      var out := RunOutput(listing, rawFiles, optimize, banner);
      && ComponentFile(files[i]) in out
      && files[i] in rawFiles && optimize(rawFiles[files[i]]).Some?
      && out[ComponentFile(files[i])] == ComponentText(banner, optimize(rawFiles[files[i]]).value)
      && out["index.ts"] == IconsIndex(banner, ExportLines(files))
  {
    var files := SvgFiles(listing);
    assert Convert(rawFiles, Render(banner, optimize), files[i]).Some?;
    ComponentLastWins(files, rawFiles, Render(banner, optimize), i);
    IndexIsNoComponent(files);
    assert ComponentFile(files[i]) in ComponentFiles(files);
    RenderIs(banner, optimize, rawFiles[files[i]]);
  }

  /** With no `.svg` files a run leaves only the icons index, which is the
      banner followed by three line breaks. */
  lemma RunOutputNoIcons(listing: seq<string>, rawFiles: map<string, string>,
                         optimize: string -> Option<string>, banner: string)
    requires SvgFiles(listing) == []
    ensures Converts(SvgFiles(listing), rawFiles, Render(banner, optimize))
    ensures RunOutput(listing, rawFiles, optimize, banner) == map["index.ts" := banner + "\n\n\n"]
  {
    IconsIndexEmpty(banner);
  }

  /** The component written for file `i`, when no later file shares its
      name, is that file's rendered text. */
  lemma ComponentLastWins(files: seq<string>, rawFiles: map<string, string>, render: string -> Option<string>, i: nat)
    requires Converts(files, rawFiles, render) && i < |files|
    requires forall j :: i < j < |files| ==> ComponentName(files[j]) != ComponentName(files[i])
    ensures ComponentFile(files[i]) in WriteComponents(map[], files, rawFiles, render)
    ensures WriteComponents(map[], files, rawFiles, render)[ComponentFile(files[i])] == Convert(rawFiles, render, files[i]).value
  {
    var es := Entries(files, rawFiles, render);
    forall j | i < j < |es| ensures es[j].0 != es[i].0 {
      EntryAt(files, rawFiles, render, j);
      EntryAt(files, rawFiles, render, i);
      ComponentFileNaming(files[j], files[i]);
    }
    WriteAllLastWins(map[], es, i);
    EntryAt(files, rawFiles, render, i);
  }

  // ---------------------------------------------------------------------
  // The generator object

  /** `IconGenerator`: the three folders it is configured with, the banner
      its files carry (the module constant `bannerComment`), and the
      contents of the two folders it writes to. Path resolution is not
      modelled: the folder names only identify the folders. */
  class IconGenerator {
    const rawDir: string
    const outDir: string
    const burrelExportDir: string
    const bannerComment: string
    /** The files in `outDir`. */
    var outFiles: map<string, string>
    /** The files directly in `burrelExportDir`. */
    var barrelFiles: map<string, string>

    constructor (outFiles: map<string, string>, barrelFiles: map<string, string>,
                 rawDir: string := "src/lib/icon-pack/svg",
                 outDir: string := "src/lib/icon-pack/icons",
                 burrelExportDir: string := "src/lib/icon-pack")
      ensures this.rawDir == rawDir && this.outDir == outDir && this.burrelExportDir == burrelExportDir
      ensures bannerComment == BannerComment
      ensures this.outFiles == outFiles && this.barrelFiles == barrelFiles
    {
      this.rawDir := rawDir;
      this.outDir := outDir;
      this.burrelExportDir := burrelExportDir;
      bannerComment := BannerComment;
      this.outFiles := outFiles;
      this.barrelFiles := barrelFiles;
    }

    /** `run`: on success the output folder is `RunOutput` whatever it held
        before, and the package index is written. When a listed `.svg` file
        cannot be read, or the optimizer fails on it, the run stops there:
        the folder keeps the components written so far and no index file
        is written. */
    method Run(listing: seq<string>, rawFiles: map<string, string>, optimize: string -> Option<string>)
      returns (failure: Option<Failure>)
      modifies this
      ensures var files := SvgFiles(listing);
        var k := FirstFailure(files, rawFiles, Render(bannerComment, optimize));
        if k == |files| then
          && failure == None
          && outFiles == RunOutput(listing, rawFiles, optimize, bannerComment)
          && barrelFiles == old(barrelFiles)["index.ts" := RootIndex(bannerComment)]
        else
          && failure == Some(FailureOf(rawFiles, files[k]))
          && outFiles == WriteComponents(map[], files[..k], rawFiles, Render(bannerComment, optimize))
          && barrelFiles == old(barrelFiles)
    {
      CleanOutDir();
      var svgFiles := SvgFiles(listing);
      var exports;
      exports, failure := GenerateComponents(svgFiles, rawFiles, Render(bannerComment, optimize));
      if failure.Some? {
        return;
      }
      assert svgFiles[..|svgFiles|] == svgFiles;
      WriteBarrelFile(exports);
    }

    /** `cleanOutDir`: the output folder is removed and made again, empty. */
    method CleanOutDir()
      modifies this
      ensures outFiles == map[] && barrelFiles == old(barrelFiles)
    {
      outFiles := map[];
    }

    /** `generateComponents`: writes one component per file in order and
        returns the export lines; stops at the first file that cannot be
        read or optimized. `render` is the text built from a raw file: the
        optimizer, the outer-tag strip and the template (`Render`). */
    method GenerateComponents(files: seq<string>, rawFiles: map<string, string>, render: string -> Option<string>)
      returns (exportLines: seq<string>, failure: Option<Failure>)
      modifies this
      ensures barrelFiles == old(barrelFiles)
      ensures var k := FirstFailure(files, rawFiles, render);
        && outFiles == WriteComponents(old(outFiles), files[..k], rawFiles, render)
        && failure == (if k < |files| then Some(FailureOf(rawFiles, files[k])) else None)
        && (k == |files| ==> exportLines == ExportLines(files))
    {
      exportLines := [];
      for i := 0 to |files|
        invariant Converts(files[..i], rawFiles, render)
        invariant outFiles == WriteComponents(old(outFiles), files[..i], rawFiles, render)
        invariant exportLines == ExportLines(files[..i])
        invariant barrelFiles == old(barrelFiles)
      {
        var file := files[i];
        if file !in rawFiles {
          FirstFailureIs(files, rawFiles, render, i);
          return exportLines, Some(Unreadable(file));
        }
        var componentCode := render(rawFiles[file]);
        if componentCode.None? {
          FirstFailureIs(files, rawFiles, render, i);
          return exportLines, Some(NotOptimized(file));
        }
        ConvertsSnoc(files, rawFiles, render, i);
        WriteComponentsSnoc(old(outFiles), files, rawFiles, render, i);
        ExportLinesSnoc(files, i);
        var exportLine := WriteComponent(file, componentCode.value);
        exportLines := exportLines + [exportLine];
      }
      assert files[..|files|] == files;
      FirstFailureIs(files, rawFiles, render, |files|);
      failure := None;
    }

    /** The end of one turn of `generateComponents`' loop: the component
        text is written under the component name of `file`, and the export
        line to collect is returned. */
    method WriteComponent(file: string, componentCode: string)
      returns (exportLine: string)
      modifies this
      ensures outFiles == old(outFiles)[ComponentFile(file) := componentCode]
      ensures barrelFiles == old(barrelFiles)
      ensures exportLine == ExportLine(ComponentName(file))
    {
      var componentName := ComponentName(file);
      outFiles := outFiles[componentName + ".svelte" := componentCode];
      exportLine := ExportLine(componentName);
    }

    /** `writeBarrelFile`: the icons index into the output folder and the
        package index into the barrel folder. */
    method WriteBarrelFile(exports: seq<string>)
      modifies this
      ensures outFiles == old(outFiles)["index.ts" := IconsIndex(bannerComment, exports)]
      ensures barrelFiles == old(barrelFiles)["index.ts" := RootIndex(bannerComment)]
    {
      outFiles := outFiles["index.ts" := IconsIndex(bannerComment, exports)];
      barrelFiles := barrelFiles["index.ts" := RootIndex(bannerComment)];
    }
  }

  /** The first failing position is the one where converting first fails. */
  lemma FirstFailureIs(files: seq<string>, rawFiles: map<string, string>, render: string -> Option<string>, k: nat)
    requires k <= |files| && Converts(files[..k], rawFiles, render)
    requires k < |files| ==> Convert(rawFiles, render, files[k]).None?
    ensures FirstFailure(files, rawFiles, render) == k
  {
    var f := FirstFailure(files, rawFiles, render);
    assert forall j :: 0 <= j < k ==> files[..k][j] == files[j];
    assert forall j :: 0 <= j < f ==> files[..f][j] == files[j];
  }

  /** Running twice over the same inputs gives the same outcome and leaves
      the same two folders: nothing the first run wrote influences the
      second. */
  method RunTwice(g: IconGenerator, listing: seq<string>, rawFiles: map<string, string>,
                  optimize: string -> Option<string>)
    returns (first: Option<Failure>, second: Option<Failure>,
             outAfterFirst: map<string, string>, barrelAfterFirst: map<string, string>)
    modifies g
    ensures second == first
    ensures g.outFiles == outAfterFirst
    ensures g.barrelFiles == barrelAfterFirst
  {
    first := g.Run(listing, rawFiles, optimize);
    outAfterFirst, barrelAfterFirst := g.outFiles, g.barrelFiles;
    second := g.Run(listing, rawFiles, optimize);
  }
}
