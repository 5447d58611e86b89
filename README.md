# typebundler core, modelled in Dafny

typebundler drives esbuild for TypeScript web projects. This project models
the parts of it that decide *what* gets built and *what ends up in each
file*:

- `stringInsertion` (utils.ts) is the indentation-aware splicer. It puts a
  value before, over or after the first occurrence of a marker such as
  `</head>`. Before and after work on whole lines and copy the indentation
  of the nearest non-blank line (module `Utils`).
- `trailingSlash`, `commonPathPrefix` and the `files` getter (options.ts)
  turn the entry points, `outbase`/`outdir`/`outfile` and the sourcemap
  mode into the ordered artifact list of `BuildFile`s (module `Options`).
- The `BuildFile` record and four plugin hooks (plugins.ts), modelled in
  module `Plugins`:
  - delete-files removes every artifact's destination;
  - read-files reads every artifact's content from its source;
  - import-globals adds a `<script src>` before `</head>` per global. Its
    resolve filter and its `onResolve`/`onLoad` answers are modelled too;
  - write-files adds a `<script src>` before `</body>` per `.js` artifact,
    then writes every artifact.
- `readArg`, `readValueArg`, `carefully` and `readBuildArgs` (args.ts) take
  command-line flags out of the argument array and fill in the serve
  options and the import table (module `Args`).

Supporting modules:

- Module `Js` gives the JavaScript string built-ins these need, with
  ECMAScript semantics: `indexOf`/`lastIndexOf` with clamped start
  positions, `slice` with negative bounds, `trim`, `split`/`join`, and a
  string-pattern `replace` that changes the first occurrence only.
- Module `Wrappers` holds `Option` and `Result`.

The state the hooks change is in class `Plugins.Build`. Its `files` field is
the artifact list that all hooks share. Its `store` field is a map from paths
to contents that stands for the file system. The arguments `readBuildArgs`
splices are the `args` field of class `Args.Argv`. Both are rewritten in
place by the methods, as the source does.

`stringInsertion` loops over line breaks, and that loop need not end. The
model therefore specifies the walk with fuel (`Utils.Walk`), and the method
requires that the walk stops (`Utils.Terminates`). Whether it stops is
characterised by lemmas:

- Before mode: exactly when (`BeforeHaltsIff`) a line break stands before
  the closest line above the marker that is not blank.
- After mode: when (`AfterHalts`) a line break follows text that is not
  blank below the insertion point.

The hooks that insert script tags require the same, once per insertion.

Behaviour worth knowing, beside the promise of the doc comment at
utils.ts:39-47 that insertion adheres "to linebreaks and indentation":

- `stringInsertion("  <head>\n  </head>", "</head>", v, Before)` does not
  return, because no line break precedes the line `  <head>`
  (`Utils.BeforeIndentedHeadDiverges`). `"</head>\n"` in After mode loops
  the same way (`Utils.AfterHeadDiverges`).
- Before mode moves the marker line's own indentation in front of the
  inserted line. Inserting `<s/>` before `</head>` in
  `"<html>\n  <head>\n  </head>\n</html>"` gives
  `"<html>\n  <head>\n    <s/>\n</head>\n</html>"`
  (`Utils.BeforeMovesIndent`). The inserted line has four spaces: the two
  of `</head>` and the two copied from `  <head>`. `</head>` keeps none.
- `dstPath` is not unique: `a.ts` and `a.tsx` both become `a.js`
  (`Options.ToJsStem`). Sourcemaps also get `.map` appended to such a
  path.
- `commonPathPrefix` is not a prefix in general. The reduce keeps the
  segment at position `i` of what it has kept so far when it equals
  segment `i` of the next path (`Options.KeepEqual`). So `a/b/c/x` and
  `a/z/c/y` give `a/c/` (`Options.CommonPathPrefixSkips`). With more than
  two paths, positions refer to the already filtered list: `a/b/c/x`,
  `a/z/c/y` and `a/c/q/w` give `a/c/`, although `c` is not at the same
  position in all three.
- For primary artifacts, `srcPath` is the output path (after the `outdir`
  replacement), not the entry point.

## Model

| member | source | states |
|---|---|---|
| Js.TrimEmptyIffBlank | utils.ts:74 | `trim()` gives `''` exactly when every character is ECMAScript whitespace or a line terminator |
| Js.SliceBlank | utils.ts:74 | the slice between the walk's two positions trims to empty exactly when every character in the clamped range is whitespace |
| Js.IndexOfChar | utils.ts:70 | `indexOf('\n', from)` is -1 or the position of a `'\n'` at or after the clamped start |
| Js.IndexOfCharFirst | utils.ts:70 | no `'\n'` lies between the clamped start and the position `indexOf` returns |
| Js.LastIndexOfChar | utils.ts:79 | `lastIndexOf('\n', from)` is -1 or the position of a `'\n'` at or before the clamped start |
| Js.LastIndexOfCharLast | utils.ts:79 | no `'\n'` lies between the position `lastIndexOf` returns and the clamped start |
| Js.LastIndexOfCharAtLeast | utils.ts:79 | any `'\n'` at or before the clamped start is at or before the result |
| Js.IndexOf | utils.ts:49 | `text.indexOf(find)` is the first position where `find` occurs, or -1 when it occurs nowhere |
| Js.Slice | utils.ts:92-96 | `slice(a, b)` is `s[a..b]` when `0 <= a <= b <= |s|`, and empty when `0 <= b <= a` |
| Js.Split | options.ts:12 | `split('/')` gives at least one piece and no piece holds a `/` |
| Js.SplitLength | options.ts:12 | `split` gives one piece more than there are separators |
| Js.JoinSplit | options.ts:16 | `join` with the separator undoes `split` |
| Js.ReplaceFirst | options.ts:88 | `replace(pattern, r)` with a string pattern leaves the text alone when the pattern is absent, and otherwise splices `r` over its first occurrence |
| Utils.FindBreak | utils.ts:67-70 | the direction-dependent line-break search returns -1 or the position of a `'\n'` |
| Utils.Walk | utils.ts:74-77 | the `while` loop as a walk over line breaks that moves by the mode's value (`InsertionMode`, utils.ts:32-36: -1, 0, 1) and stops only on a position a line-break search can return; `WalkLands`, `WalkUnique` and `StepOverBlank` state where it stops |
| Utils.WalkLands | utils.ts:74-77 | when the walk stops, the span between the line break it stopped at and the insertion point is not blank |
| Utils.WalkUnique | utils.ts:74-77 | the walk stops at the same line break whatever fuel lets it stop |
| Utils.TerminatesIffFuel | utils.ts:48-97 | the splicer terminates exactly when some fuel gives a result |
| Utils.InsertionFuel | utils.ts:48-97 | any two fuels that give a result give the same one |
| Utils.EmptyLine | utils.ts:74 | the loop test is the blankness of the span between line break and insertion point |
| Utils.StepOverBlank | utils.ts:73-77 | the loop ends at the line break where the walk stops, and `hasNewLine` says whether the first span was blank |
| Utils.WalkLineBreaks | utils.ts:70-77 | the walk lands on a line break whose span to the insertion point is not blank, and `hasNewLine` is whether the walk ran |
| Utils.LineStart | utils.ts:78-81 | the start of the landing line is 0 or just after a `'\n'` |
| Utils.StartOfLine | utils.ts:78-81 | the line start computed in place equals `LineStart` |
| Utils.IndentRunMaximal | utils.ts:84-89 | the indentation counted is a maximal run of spaces and tabs from the line start |
| Utils.IndentWidth | utils.ts:84-89 | the counting loop returns that maximal run, which stays inside the text |
| Utils.IndentRun | utils.ts:84-89 | the indentation count, a function with no contract of its own; `IndentRunMaximal` states it is the maximal run of spaces and tabs, and `IndentWidth` that the loop computes it |
| Utils.AssembleShape | utils.ts:92-96 | the result is the text up to the insertion point, the segment, and the rest of the text |
| Utils.Segment | utils.ts:93-95 | the inserted middle part, a function with no contract of its own; `SegmentParts` states its pieces |
| Utils.Assemble | utils.ts:92-96 | the returned concatenation, a function with no contract of its own; `AssembleShape` states its shape |
| Utils.Inserted | utils.ts:61-96 | the Before/After branch with fuel for the walk, a function with no contract of its own; `InsertAt` states what it keeps and that the loops compute it |
| Utils.Insertion | utils.ts:48-97 | the whole splicer with fuel for the walk, a function with no contract of its own; `TerminatesIffFuel`, `InsertionFuel`, `StringInsertion` and the example lemmas below state what it returns |
| Utils.InsertAt | utils.ts:61-96 | Before/After insertion keeps the text before the insertion point and after it, and agrees with the fuel specification |
| Utils.StringInsertion | utils.ts:48-97 | a missing marker leaves the text unchanged; Replace splices the value over the marker; Before/After keep everything around the insertion point; the result agrees with the fuel specification |
| Utils.MarkerInText | utils.ts:49 | a found marker lies inside the text, and an empty marker is found at 0 |
| Utils.Spliced | utils.ts:48-97 | the result of a terminating insertion is that of every fuel that gives one |
| Utils.SplicedIs | utils.ts:48-97 | the result of `StringInsertion` is `Spliced` |
| Utils.InlineWhenNoWalk | utils.ts:73-96 | when the walk does not run, the value goes in at the insertion point with no line break and no indentation |
| Utils.SegmentParts | utils.ts:84-96 | the segment is the value alone when the walk did not run; otherwise it adds the indentation and a line break, the break after the value in Before mode and before it in After mode |
| Utils.SplicedShape | utils.ts:48-97 | a Before/After result is the text before the insertion point, the segment, and the text from the insertion point on |
| Utils.BeforeStuck | utils.ts:73-77 | with no line break before the closest non-blank line above the marker, the Before walk never stops |
| Utils.BeforeReaches | utils.ts:73-77 | with such a line break, the Before walk stops |
| Utils.BeforeHaltsIff | utils.ts:73-77 | the Before walk stops exactly when a line break precedes a non-blank stretch before the marker |
| Utils.BeforeLanding | utils.ts:70-77 | the Before walk stops at the last line break before the marker whose span to the marker is not blank |
| Utils.AfterReaches | utils.ts:73-77 | with a line break after non-blank text below the insertion point, the After walk stops |
| Utils.AfterHalts | utils.ts:73-77 | the same, stated as termination of the After walk |
| Utils.AfterLanding | utils.ts:70-77 | the After walk stops at the first line break after the insertion point whose span from it is not blank |
| Utils.AfterHeadDiverges | utils.ts:62-77 | After-mode insertion at `</head>` in `"</head>\n"` never returns |
| Utils.FirstAfterPrefix | utils.ts:49 | `indexOf` finds a marker of two or more characters right after a prefix, whatever follows, when its second character differs from its first and does not occur in the prefix |
| Utils.IndentedHeadNoLineAbove | utils.ts:73-77 | in `"  <head>\n  </head>"` no line break precedes the non-blank line above `</head>` |
| Utils.BeforeIndentedHeadDiverges | utils.ts:66-77 | Before-mode insertion at `</head>` in `"  <head>\n  </head>"` never returns |
| Utils.Landing | utils.ts:70-77 | the line break a stopping walk lands on |
| Utils.BeforeInline | utils.ts:70-96 | in Before mode, when the text between the last line break and the marker is not blank, the value goes in right before the marker |
| Utils.LastBreakIs | utils.ts:79 | `lastIndexOf('\n', from)` is the line break with no other line break between it and `from` |
| Utils.HeadLineMarker | utils.ts:49 | in `"<html>\n  <head>\n  </head>\n</html>"`, `</head>` is found at 18 |
| Utils.HeadLineFirstBreak | utils.ts:70-74 | there the first line break before the marker is at 15, and only spaces follow it up to the marker |
| Utils.HeadLineSecondBreak | utils.ts:74-75 | the next line break searched for is at 6, and the span from it to the marker is not blank |
| Utils.HeadLineIndent | utils.ts:84-89 | the line after that break starts with two spaces and no more |
| Utils.HeadLineWalk | utils.ts:70-89 | the walk steps once over the blank span, stops at 6, and two spaces are copied |
| Utils.HeadLineAssemble | utils.ts:92-96 | the returned text is the text before the marker, the two spaces, the value and a line break, then the rest |
| Utils.HeadLineResult | utils.ts:92-96 | `"<html>\n  <head>\n    <s/>\n</head>\n</html>"` is made of exactly those pieces |
| Utils.BeforeMovesIndent | utils.ts:48-97 | Before-mode insertion of `<s/>` at `</head>` in that text gives `"<html>\n  <head>\n    <s/>\n</head>\n</html>"`; the marker line's indentation moves in front of the inserted line |
| Plugins.Keys | args.ts:59-62 | the keys of the import table, in insertion order |
| Plugins.Lookup | plugins.ts:186 | `options.import[path]` is absent exactly when the key is not in the table, and is otherwise the entry stored for it |
| Plugins.Put | args.ts:60 | the table grows by one exactly when the key is new |
| Plugins.PutKeys | args.ts:60 | setting a key keeps the key order, and appends the key when it is new |
| Plugins.PutDistinct | args.ts:59-62 | keys stay distinct |
| Plugins.PutLookupSame | args.ts:60 | after setting a key, it holds the new entry |
| Plugins.PutLookupOther | args.ts:60 | setting a key leaves every other key alone |
| Plugins.Escape | plugins.ts:156 | escaping does not shorten a path |
| Plugins.UnescapeEscape | plugins.ts:156 | the escaped path reads back as the literal path |
| Plugins.FilterPaths | plugins.ts:154 | the filter uses every key when `extern` is set and none otherwise |
| Plugins.Alternatives | plugins.ts:155-157 | at least one alternative |
| Plugins.AnchoredMatches | plugins.ts:156 | `^escaped$` matches exactly the path itself |
| Plugins.FilterMatches | plugins.ts:153-158 | whether the filter matches a path: one anchored alternative per path in use, a predicate with no contract of its own; `FilterMatchesKeys` and `FilterMatchesNoKeys` state what it matches |
| Plugins.FilterMatchesKeys | plugins.ts:153-158 | with `extern` and a non-empty table, the filter matches exactly the table's keys |
| Plugins.FilterMatchesNoKeys | plugins.ts:153-158 | with no keys in use, the filter is `^\\b$` and matches only the literal `\b` |
| Plugins.OnResolve | plugins.ts:185-190 | resolves to the path in `global-ns` exactly when the entry has a non-empty name; throws `Unknown import: path` for an empty name and a `TypeError` for a missing entry |
| Plugins.OnLoad | plugins.ts:192-194 | loads `module.exports = name;` as `js` exactly when the path has an entry |
| Plugins.FilteredResolves | plugins.ts:185-194 | every path the filter lets through has an entry, resolves when that entry's name is non-empty, and loads its name |
| Plugins.HeadScripts | plugins.ts:173-177 | one script tag per table value, in table order, sourcing its `src` |
| Plugins.InsertAll | plugins.ts:172-180 | the inner `forEach` as a fold of Before insertions, None when one does not return, a function with no contract of its own; `InsertEach`, `InsertAllNoMarker` and `InsertAllReturns` state its results |
| Plugins.MarkerSurvives | plugins.ts:172-180 | a Before insertion keeps the marker in the text |
| Plugins.InsertAllNoMarker | plugins.ts:172-180 | a text without the marker comes through any number of insertions unchanged |
| Plugins.NoOccurrenceAcross | plugins.ts:172-180 | a segment starting with none of the marker's later characters creates no occurrence of the marker that starts before it |
| Plugins.ClearSegment | plugins.ts:172-180 | a Before insertion splices a segment in at the first marker, and that segment starts with none of the marker's later characters |
| Plugins.FirstNotEarlier | plugins.ts:172-180 | inserting such a segment at the first marker keeps the text before it, and the first marker of the result is not earlier |
| Plugins.FirstMarkerStays | plugins.ts:172-180 | with a marker free of spaces and tabs after its first character, and a value that cannot continue it, a Before insertion keeps the text up to the first marker and does not move that marker earlier |
| Plugins.LineAboveStays | plugins.ts:172-180 | a line break above a non-blank line before a position survives when the text up to that position does |
| Plugins.InsertAllReturns | plugins.ts:172-180 | when the first text has a line break above the closest non-blank line before its first marker, and neither the values nor an indentation can continue the marker, every insertion of the fold returns |
| Plugins.ScriptTagStart | plugins.ts:177 | a script tag is not empty and starts with `<` |
| Plugins.TagsClear | plugins.ts:172-180 | `</head>` and `</body>` hold no space or tab, and no script tag can continue them |
| Plugins.HeadInsertionsReturn | plugins.ts:168-183 | when every html file has a line break above the closest non-blank line before its first `</head>`, every insertion of import-globals returns, which is what `Build.ImportGlobals` requires |
| Plugins.BodyInsertionsReturn | plugins.ts:209-224 | the same for `</body>` and write-files, which is what `Build.WriteFiles` requires |
| Plugins.InsertEach | plugins.ts:172-180 | the insertion loop yields the fold of Before insertions of the values |
| Plugins.LineEnd | plugins.ts:216 | the next line terminator from a position, or the end |
| Plugins.LastSlash | plugins.ts:216 | the last `/` in a range, or -1 |
| Plugins.StripDirFrom | plugins.ts:216 | the regex search for `/.*\//` from a position: the first start whose line still holds a `/`, matched greedily to that line's last `/`; a function with no contract of its own |
| Plugins.StripDir | plugins.ts:216 | `dstPath.replace(/.*\//, '')`, a function with no contract of its own; `StripDirCut` and `StripDirNone` state its result |
| Plugins.StripDirCut | plugins.ts:216 | on a one-line path, `replace(/.*\//, '')` cuts everything up to and including the last `/` |
| Plugins.StripDirNone | plugins.ts:216 | a path without `/` is left as it is |
| Plugins.JsFiles | plugins.ts:213-214 | the filter keeps exactly the files whose `dstPath` ends with `.js`, and no more files than given |
| Plugins.JsFilesAppend | plugins.ts:213-214 | the filter keeps list order: filtering a concatenation concatenates the filtered parts |
| Plugins.JsFilesNone | plugins.ts:213-214 | a list without `.js` files filters to nothing |
| Plugins.BodyScripts | plugins.ts:213-223 | one script tag per filtered `.js` file, in list order, sourcing its `dstPath` after the last `/` |
| Plugins.MapIsNoScript | options.ts:102-106 | a sourcemap path, ending with `.map`, never ends with `.js`, so the `.js` filter drops it |
| Plugins.MapsAddNoScripts | options.ts:100-107 | appending sourcemaps leaves the filtered `.js` files and the body script tags unchanged |
| Plugins.BodyScriptsPaths | plugins.ts:213-223 | the body scripts depend only on the paths, so content edits do not change them |
| Plugins.DstPaths | plugins.ts:54-58 | the set of every file's `dstPath` |
| Plugins.ReadContent | plugins.ts:75 | `readFile(srcPath) ?? ''`, a function with no contract of its own; `Build.ReadFiles` states the contents it gives |
| Plugins.WriteAll | plugins.ts:226 | the store after each file is written in list order, a function with no contract of its own; `WriteAllLast` and `WriteAllUntouched` state what it holds |
| Plugins.WriteAllLast | plugins.ts:226 | the stored content at a path is that of the last file written to it |
| Plugins.WriteAllUntouched | plugins.ts:226 | a path no file is written to keeps its stored content |
| Plugins.InjectScripts | plugins.ts:212-224 | an html file gets all insertions in order; any other file is unchanged |
| Plugins.Build.constructor | plugins.ts:46 | the build starts with the given artifacts and store |
| Plugins.Build.DeleteFiles | plugins.ts:54-58 | every `dstPath` is removed from the store; the artifacts are unchanged |
| Plugins.Build.ReadFiles | plugins.ts:73-77 | every content becomes what the store has at `srcPath`, or `''`; paths and store are unchanged |
| Plugins.Build.ImportGlobals | plugins.ts:168-183 | with `extern`, each html file gets the script tags of the table before `</head>`; without it nothing changes |
| Plugins.Build.WriteFiles | plugins.ts:209-228 | each html file gets a script tag before `</body>` per `.js` file of the original list, and the store ends up as every file written in list order |
| Options.TrailingSlash | options.ts:7-9 | the path, extended by at most one character, ends with `/` |
| Options.TrailingSlashKeeps | options.ts:7-9 | a path ending with `/` is kept, another one gets `/` appended, and applying it twice is the same as once |
| Options.DirSegments | options.ts:12 | directory segments hold no `/` |
| Options.KeepEqual | options.ts:14 | the filtered segments are a subsequence of the common ones |
| Options.KeepEqualSelf | options.ts:14 | filtering against itself keeps every segment |
| Options.FoldKeep | options.ts:13-14 | the reduce keeps a subsequence of the first path's segments |
| Options.CommonSegments | options.ts:12-14 | the kept segments are a subsequence of the first path's directory segments and hold no `/` |
| Options.CommonPathPrefix | options.ts:11-17 | the result is empty or ends with `/` |
| Options.CommonPathPrefixSingle | options.ts:11-17 | for one path it is the path up to and including its last `/`, or empty |
| Options.CommonPathPrefixTwo | options.ts:11-17 | for two paths it joins the first path's directory segments that equal the second's at the same position |
| Options.DirSegmentsJoin | options.ts:12 | splitting a `/`-join of segments without `/` gives the segments back |
| Options.CommonPathPrefixDiffer | options.ts:11-17 | two paths sharing their directories up to a last differing one give those shared directories |
| Options.CommonPathPrefixSkips | options.ts:11-17 | `a/b/d/…` and `a/c/d/…` with `b != c` give `a/d/`, not a prefix |
| Options.EntryPaths | options.ts:70-74 | the entry point list, record values, or `out` fields, in order; none when unset |
| Options.Outbase | options.ts:76-82 | the configured outbase with a trailing slash, else the common prefix of the entries; it throws exactly when both are missing |
| Options.Outdir | options.ts:84-94 | the configured outdir with a trailing slash, else the directory of `outfile`; empty or ending with `/` |
| Options.Primaries | options.ts:84-94 | each entry with its first `outbase` replaced by `outdir`, or the single `outfile` |
| Options.ToJs | options.ts:97 | a final `.tsx` or `.ts` becomes `.js`; other paths are kept |
| Options.TsxIsNoTs | options.ts:97 | the two extensions never both match |
| Options.ToJsStem | options.ts:97 | `x.ts` and `x.tsx` both give `x.js` |
| Options.EmitsMaps | options.ts:101 | the sourcemap modes that list map files (`true`, `linked`, `external`, `both`), a predicate with no contract of its own; `BuildFiles` and `Files` use it |
| Options.BuildFiles | options.ts:95-107 | one primary per path, followed by one sourcemap per primary when maps are emitted |
| Options.AddHtml | options.ts:109-115 | the discovered html files are appended in order, each with its first `outbase` replaced by `outdir` |
| Options.ArtifactList | options.ts:95-115 | the artifact list: the primaries, then their sourcemaps when maps are emitted, then the html files; a predicate with no contract of its own; `ArtifactSections` and `Files` state that the getter builds it |
| Options.ArtifactSections | options.ts:95-115 | the three sections make up the artifact list |
| Options.Files | options.ts:65-117 | fails exactly when there is neither an outbase nor an entry point; otherwise it lists the primaries, the sourcemaps (true/linked/external/both only) and the html files under the effective outbase |
| Args.FirstIndex | args.ts:12 | the first index of the name, or -1 exactly when it is absent |
| Args.ArgRead | args.ts:11-18 | removes the first occurrence and returns its index, or throws `Missing argument: name` and changes nothing |
| Args.ValueArgRead | args.ts:21-27 | removes the flag and the next element and returns that element; throws without the flag, and throws after removing a flag in last place |
| Args.ValueArgShrinks | args.ts:21-27 | the arguments never grow |
| Args.Carefully | args.ts:30-39 | the outcome when it succeeds, the fallback when it throws |
| Args.Imports | args.ts:49-63 | the table built from the three-piece arguments has distinct keys |
| Args.ImportsLast | args.ts:59-62 | a key holds the name and src of the last argument that sets it |
| Args.ImportsAbsent | args.ts:52-62 | a key no three-piece argument sets is absent |
| Args.ServeArgs | args.ts:43-46 | serve options stay absent when absent, and the arguments stay as they are then |
| Args.GlobalsArgs | args.ts:47-63 | globals options stay absent when absent, and the arguments stay as they are then |
| Args.BuildArgs | args.ts:42-65 | the arguments never grow |
| Args.ServeFromFlags | args.ts:43-46 | host and port come from their flags when those carry a value, and keep their old values otherwise |
| Args.ExternFromFlag | args.ts:47-63 | `extern` holds exactly when `--extern` is given; then that flag is removed and the table is rebuilt from the rest, otherwise table and arguments are kept |
| Args.ServeBeforeTable | args.ts:42-63 | the table is built from what remains after host, port and `--extern` are taken out |
| Args.Argv.constructor | args.ts:42 | the argument array as given |
| Args.Argv.ReadArg | args.ts:11-18 | the in-place read returns and leaves what `ArgRead` says |
| Args.Argv.ReadValueArg | args.ts:21-27 | the in-place read returns and leaves what `ValueArgRead` says |
| Args.Argv.ParseImports | args.ts:50-62 | the loop over the arguments builds `Imports` |
| Args.Argv.ReadBuildArgs | args.ts:42-65 | the options returned and the arguments left are what `BuildArgs` says |

## Left out

- Real file-system I/O is not modelled. `ts.sys.readFile`, `writeFile` and `deleteFile` act on the `store` map instead. `readDirectory(outbase, ['.html'])` is the `discover` parameter of `Options.Files`, so its order and depth are whatever that function gives.
- esbuild itself is not modelled: plugin registration, the moment each hook runs, and the dispatch of `onResolve`/`onLoad` through the filter. The hooks are separate operations on one `Build`.
- The checkTypes and buildInfo plugins, `format`, serve.ts and build.ts are not part of this model.
- Console output is left out. That covers import-globals' listing of the table, `carefully`'s silent flag, and the "Invalid argument" message.
- Plugins.FilterMatches: the general regular-expression engine is not modelled. `Unescape` reads back only the escaped literal form that the filter is built from.
- Plugins.StripDirCut: proved for paths on one line. For paths that hold line terminators, `StripDir` follows the regex search, but only the no-`/` case is proved.
- Js.ReplaceFirst: the replacement string is inserted literally; JavaScript interprets `$&`, `$1` and similar patterns in it, so an `outdir` holding `$` is modelled only when it holds none of those.
- Plugins.Lookup: JavaScript object key order is insertion order here. Integer-like keys, which JavaScript lists first, and keys inherited from `Object.prototype` (such as `__proto__`) are not modelled.
- Args.ServeArgs: `into` is a value returned anew, not an object aliased by the caller; the `files` field of `ImportGlobalsPluginOptions` is not carried in `GlobalsOptions`.
- Utils.AfterHalts: for the After mode only a sufficient condition for termination is proved; the exact one (it also depends on the wrap-around of `indexOf` to position 0 past a missing line break) is not.
- Utils.StringInsertion: the method requires that the walk terminates, where the source can loop forever; Plugins.Build.ImportGlobals and Plugins.Build.WriteFiles require the same of each insertion. `Plugins.HeadInsertionsReturn` and `Plugins.BodyInsertionsReturn` meet those requirements for html files with a line break above the closest non-blank line before the marker.
- Strings are sequences of Unicode scalar values, where JavaScript strings are UTF-16 code units. Positions differ after an astral character, and lone surrogates cannot be represented. For well-formed text the results agree, because every search is for characters of the Basic Multilingual Plane.
- Plugins.Build.ImportGlobals: the `BuildFile` objects are shared among the plugins' option records in the source; the model updates elements of one sequence instead, so aliasing between distinct lists is not modelled.
- Options.Files: the shared output list that `buildFiles.push` extends is built as a sequence value; the `inject` getter and the other option getters are not part of this model.
