# Svelte icon generator, modelled in Dafny

`script/convert-svgs-to-svelte.ts` turns a folder of raw SVG icons into
Svelte components. Its `IconGenerator` class runs five steps:

- empties the output folder;
- lists the `.svg` files of the raw folder;
- for each file, in listing order:
  - derives a PascalCase component name from the file name;
  - runs the markup through the SVG optimizer;
  - cuts out the outer `<svg …>` / `</svg>` tags and trims the rest;
  - embeds the result in a fixed component template under an attribution
    banner, and writes the component;
- writes an icons index that re-exports every component, and a package
  index that re-exports the icons folder;
- formats the written files with Prettier (not modelled, see
  "## Left out").

The model has five modules.

- `JsStrings` (`js_strings.dfy`): the JavaScript string primitives the
  script uses.
  - `trim` is `Trim`. It uses ECMAScript's exact whitespace set: the
    WhiteSpace production including every Zs space separator, and the
    LineTerminator production.
  - `endsWith` is `EndsWith`.
  - `join("\n")` is `Join`, with a `Split` that inverts it.
- `PascalCase` (`pascal_case.dfy`): `toPascalCase` is `ToPascalCase`,
  the left-to-right scan `Scan` of the global regular expression
  `/(^\w|-\w)/g`.
  - It is proved equal to a position-by-position reference definition.
- `Markup` (`markup.dfy`): the rest of one file's text.
  - The single-pass tag removal `/<svg[^>]*>|<\/svg>/g` is
    `StripOuterTags`; with the trim after it, it is `InnerMarkup`.
  - The banner `bannerComment` is `BannerComment`.
  - The component template is `ComponentTemplate`; with the `trim`
    applied before writing, it is `ComponentCode`.
- `Exports` (`exports.dfy`): the export line of a component
  (`ExportLine`), the icons index (`IconsIndex`) and the package index
  (`RootIndex`).
- `Generator` (`icon_generator.dfy`): the `.svg` filter, the component
  name (`path.basename` is `Stem`, the name `ComponentName`, its
  `.svelte` file `ComponentFile`), the per-file rendering `Render`, and
  the class `IconGenerator` with `Run`, `CleanOutDir`,
  `GenerateComponents`, `WriteComponent` and `WriteBarrelFile`.
  - The file system is modelled by the contents of the two folders the
    generator writes to. Each folder is a map from file name to text, held
    in the fields `outFiles` and `barrelFiles`.
  - The raw folder is a listing in the order the system returns it, plus a
    map from file name to text. A listed `.svg` name absent from that map
    is a file that cannot be read. There `readFileSync` throws, so the run
    stops: the components written so far stay, and no index is written.
  - The optimizer is a function parameter `optimize` from the raw text
    to an optional result. `None` stands for the optimizer throwing, or
    for an `svgo` that returns no `data`, so that the `.replace` at line 92
    throws. The run stops there just as it does for an unreadable file.
    `Failure` records which of the two stopped it.
  - `getSvgFiles` is the function `SvgFiles` over that listing.
  - The specification functions give what a run leaves behind:
    - `WriteAll` / `WriteComponents` write files in order, last writer
      wins;
    - `RunOutput` is the output folder after a successful run;
    - `ExportLines` are the collected export lines.
  - The methods are proved against these functions. The properties the
    generator promises are lemmas about the functions.

Modelling choices:

- **Banner as a field.** The banner is the module constant `bannerComment`
  in the script. In the model it is `IconGenerator.bannerComment`, which
  the constructor sets to `Markup.BannerComment`. The text builders take
  the banner as an argument, so their properties hold for any banner.
  `Markup.BannerIsTrimmed` shows that trimming the template literal leaves
  exactly `BannerComment`.
- **Rendering as a parameter.** `GenerateComponents` and `WriteComponent`
  take the per-file rendering as a parameter `render`. `Run` passes
  `Render(bannerComment, optimize)`, which is the script's per-file steps
  composed, for each raw text:
  1. the optimizer;
  2. the tag strip and `trim`;
  3. the template and its `trim`.
- **One loop turn as a method.** `WriteComponent` is the body of
  `generateComponents`' loop, factored out into a method of its own.
- **`.svg` as a file name.** Node's `path.basename(".svg", ".svg")`
  returns the empty string, not `.svg`: it checks whether the name equals
  the suffix before stripping. The model follows that code, so
  `Stem(".svg") == ""` (`Generator.StemOfSuffixOnly`). A file literally
  named `.svg` therefore gives the component file `.svelte`.

## Model

| member | source | states |
|---|---|---|
| JsStrings.Trim | script/convert-svgs-to-svelte.ts:92 | `trim` returns a slice of its input with no whitespace at either end, starting where the leading whitespace ends, with only whitespace cut off before and after it |
| JsStrings.TrimOfPadded | script/convert-svgs-to-svelte.ts:92 | trimming whitespace, a core with no whitespace at either end, and more whitespace gives back exactly that core |
| JsStrings.TrimIdempotent | script/convert-svgs-to-svelte.ts:92 | trimming twice gives the same text as trimming once |
| JsStrings.Join | script/convert-svgs-to-svelte.ts:121 | joining no lines gives the empty string; joining one line gives that line, with no separator added |
| JsStrings.SplitJoin | script/convert-svgs-to-svelte.ts:121 | joining lines with line breaks loses nothing: splitting the result on line breaks gives the lines back, provided no line holds a break itself |
| PascalCase.Upper | script/convert-svgs-to-svelte.ts:137 | upper-casing a matched word character maps `a`-`z` to `A`-`Z` and keeps every other character, so the result is still a word character |
| PascalCase.ToPascalCaseIsOut | script/convert-svgs-to-svelte.ts:137 | `toPascalCase` upper-cases the first character when it is a word character; it deletes every hyphen directly followed by a word character and upper-cases that character; it keeps every other character as it is |
| PascalCase.ScanIsOut | script/convert-svgs-to-svelte.ts:137 | from every position where the regex scan resumes, the scan's output is the position-by-position reference output |
| PascalCase.ToPascalCaseLength | script/convert-svgs-to-svelte.ts:137 | the output is shorter than the input by exactly the number of `-\w` pairs |
| PascalCase.NoHyphenLeft | script/convert-svgs-to-svelte.ts:137 | when every hyphen is followed by a word character, no hyphen is left in the output |
| PascalCase.WithoutHyphens | script/convert-svgs-to-svelte.ts:137 | a name without hyphens has only its first character upper-cased |
| PascalCase.TwoWords | script/convert-svgs-to-svelte.ts:137 | `word-word` becomes both words with their first characters upper-cased, without the hyphen |
| PascalCase.ExampleArrowLeft | script/convert-svgs-to-svelte.ts:137 | `arrow-left` becomes `ArrowLeft` |
| PascalCase.ExampleHome | script/convert-svgs-to-svelte.ts:137 | `home` becomes `Home` |
| PascalCase.ExampleDoubleHyphen | script/convert-svgs-to-svelte.ts:137 | `a--b` becomes `A-B`: the first hyphen of `--` survives |
| PascalCase.NotIdempotent | script/convert-svgs-to-svelte.ts:137 | applying `toPascalCase` twice differs from applying it once (`a--b`) |
| Markup.CloseAngle | script/convert-svgs-to-svelte.ts:92 | `[^>]*>` ends at the first `>` at or after the given position, or there is no `>` and the first alternative does not match |
| Markup.InnerMarkup | script/convert-svgs-to-svelte.ts:92 | the inner markup never has whitespace at either end |
| Markup.InnerOfWrapped | script/convert-svgs-to-svelte.ts:92 | for `<svg attrs>body</svg>`, with no `>` in the attributes and no `<svg` or `</svg>` in the body, the inner markup is the trimmed body |
| Markup.OpeningTagRemoved | script/convert-svgs-to-svelte.ts:92 | an opening tag is removed up to and including its first `>`, and the pass goes on behind it |
| Markup.StripTagFree | script/convert-svgs-to-svelte.ts:92 | text without `<svg` or `</svg>` passes unchanged, even when followed by a closing tag, which is removed |
| Markup.RemovalNotRescanned | script/convert-svgs-to-svelte.ts:92 | the pass does not rescan: text brought together by a removal is kept as it is |
| Markup.SinglePass | script/convert-svgs-to-svelte.ts:92 | `</</svg>svg>` becomes `</svg>`, so a closing tag can survive the strip |
| Markup.BannerIsTrimmed | script/convert-svgs-to-svelte.ts:22-34 | trimming the banner's template literal removes exactly its opening and closing line breaks |
| Markup.ComponentCode | script/convert-svgs-to-svelte.ts:94-110 | after `trim`, the component file is the template's fixed head, then the inner markup, then the fixed tail; the trim never reaches the banner or the inner markup |
| Markup.ComponentShape | script/convert-svgs-to-svelte.ts:94-108 | every component file starts with `<script lang="ts">` and ends with `</svg>`; it contains the banner, `export let size: string = "24";` and `viewBox="0 0 24 24"` |
| Markup.ComponentCodeInjective | script/convert-svgs-to-svelte.ts:94-110 | different inner markups give different component files |
| Exports.ExportLineInjective | script/convert-svgs-to-svelte.ts:111 | the component name can be read back from its export line, so different names give different lines |
| Exports.ExportLineIsOneLine | script/convert-svgs-to-svelte.ts:111 | an export line holds no line break when the name holds none |
| Exports.IconsIndexEmpty | script/convert-svgs-to-svelte.ts:121 | with no icons, the icons index is the banner followed by three line breaks |
| Exports.IconsIndexListsLines | script/convert-svgs-to-svelte.ts:121 | the icons index is the banner and a blank line, then exactly the export lines, in order, one per line, then a final line break |
| Exports.RootIndexIsOneLineIndex | script/convert-svgs-to-svelte.ts:122 | the package index has the icons index's layout, with `export * from "./icons";` as its only line, whatever the icons |
| Generator.SvgFiles | script/convert-svgs-to-svelte.ts:61 | a name is kept exactly when it is listed and ends in `.svg`; the result is no longer than the listing |
| Generator.SvgFilesIsSubsequence | script/convert-svgs-to-svelte.ts:61 | the kept names are the listing read at the increasing positions of the `.svg` names, so listing order is kept |
| Generator.SvgFilesIdempotent | script/convert-svgs-to-svelte.ts:61 | filtering the filtered list changes nothing |
| Generator.Stem | script/convert-svgs-to-svelte.ts:68 | a name ending in `.svg` is its stem followed by `.svg`; any other name is its own stem |
| Generator.StemOfSuffixOnly | script/convert-svgs-to-svelte.ts:68 | the name `.svg` has the empty stem |
| Generator.ComponentFileNaming | script/convert-svgs-to-svelte.ts:68-70 | two files share a component file exactly when they share a component name, and no component file is `index.ts` |
| Generator.ExportLines | script/convert-svgs-to-svelte.ts:64-115 | one export line per file, in file order; line `i` is the export line of file `i`'s component name |
| Generator.FirstFailure | script/convert-svgs-to-svelte.ts:71-92 | every file before the returned position can be read and optimized, and the file at that position, if any, cannot; when all can, the whole list converts |
| Generator.RenderOfWrapped | script/convert-svgs-to-svelte.ts:73-110 | when the optimizer returns `<svg attrs>body</svg>` with no `>` in the attributes and no `<svg` or `</svg>` in the body, the component file is the template's head, the trimmed body and the template's tail |
| Generator.WriteAllKeys | script/convert-svgs-to-svelte.ts:110 | writing files adds exactly their names to the folder |
| Generator.WriteAllLastWins | script/convert-svgs-to-svelte.ts:110 | a written file that no later write of the same name overwrites holds its own text |
| Generator.WriteAllElsewhere | script/convert-svgs-to-svelte.ts:110 | a name nothing is written to keeps whatever the folder held |
| Generator.NamesCount | script/convert-svgs-to-svelte.ts:110 | N writes create at most N names, exactly N when no two writes share a name |
| Generator.ComponentLastWins | script/convert-svgs-to-svelte.ts:110 | the component file of file `i`, when no later file shares its name, holds file `i`'s rendered text |
| Generator.RunOutputFiles | script/convert-svgs-to-svelte.ts:43-49 | after a run, the output folder holds exactly one component file per `.svg` name plus `index.ts`, and nothing from before; for N files that is at most N + 1 files, exactly N + 1 when the component names are distinct |
| Generator.RunOutputContents | script/convert-svgs-to-svelte.ts:43-49 | after a run, the last file of each component name supplies that component's text (optimized, stripped, templated); `index.ts` lists every file's export line in listing order |
| Generator.RunOutputNoIcons | script/convert-svgs-to-svelte.ts:43-49 | with no `.svg` files a run succeeds and leaves only `index.ts`, holding the banner followed by three line breaks |
| Generator.IconGenerator.constructor | script/convert-svgs-to-svelte.ts:37-41 | the three folders default to `src/lib/icon-pack/svg`, `src/lib/icon-pack/icons` and `src/lib/icon-pack`, and the banner is `bannerComment` |
| Generator.IconGenerator.Run | script/convert-svgs-to-svelte.ts:43-49 | when every listed `.svg` file can be read and optimized, the output folder is `RunOutput` whatever it held before, and the package index is written; otherwise the run reports the first file that cannot be read or optimized, and which of the two, keeps the components written before it, and writes no index |
| Generator.IconGenerator.CleanOutDir | script/convert-svgs-to-svelte.ts:51-57 | the output folder is left empty and the barrel folder untouched |
| Generator.IconGenerator.GenerateComponents | script/convert-svgs-to-svelte.ts:64-115 | the components of the files before the first one that cannot be read or optimized are written in order over the folder; failure names that file and says whether reading or optimizing failed; when all convert, the export lines are `ExportLines` of the files |
| Generator.IconGenerator.WriteComponent | script/convert-svgs-to-svelte.ts:68-111 | the end of one loop turn: the rendered text is stored under `<componentName>.svelte`, overwriting any file of that name; the barrel folder is untouched; the returned line is the component's export line |
| Generator.IconGenerator.WriteBarrelFile | script/convert-svgs-to-svelte.ts:117-126 | `index.ts` in the output folder becomes the icons index of the export lines, and `index.ts` in the barrel folder the package index; nothing else changes |
| Generator.RunTwice | script/convert-svgs-to-svelte.ts:43-49 | running twice over the same inputs gives the same outcome and leaves the same output and barrel folders: nothing from the first run influences the second |

## Left out

- The SVG optimizer (`svgo`'s `optimize`, lines 73-90) is a foreign library. It is the uninterpreted parameter `optimize`. Nothing is claimed about its output beyond whether there is one: not what it does to colours or style attributes.
- `formatOutput` (lines 128-134) runs Prettier in a subprocess and logs its failure. The model stops before it, so the texts it states are those written before Prettier reformats them.
- Node's file system and path handling are not modelled.
  - `path.resolve`, `existsSync`, `rmSync` and `mkdirSync` are reduced to "the output folder is emptied".
  - The three folders are assumed to be distinct, and the barrel folder's map holds only its direct files. With the default paths, the output folder is a sub-folder of the barrel folder.
  - The order `readdirSync` returns is the given listing.
  - File names are compared case-sensitively. On a case-insensitive file system, `ab.svg` and `a-b.svg` give `Ab.svelte` and `AB.svelte`, which are one file there. `RunOutputFiles`' "exactly N + 1" holds only where such names are distinct.
  - Encodings, permissions, and every write or directory error are not modelled. The I/O failures modelled are a listed `.svg` file that cannot be read and an optimizer that fails on it.
- File names are bare names from the listing. `path.basename` is modelled only for names without a separator.
- The direct-invocation guard (lines 141-144) and the console logging are not modelled.
- JavaScript strings are UTF-16 code-unit sequences. Dafny's `char` is a Unicode scalar value, so a lone surrogate cannot be represented.
