/** The derivation of the artifact list in options.ts: `trailingSlash`,
    `commonPathPrefix`, and the `files` getter, which turns the entry
    points, `outbase`/`outdir`/`outfile` and the sourcemap mode into the
    ordered list of `BuildFile`s the plugins work on. The `.html` files the
    getter discovers on disk are given as a function of the directory
    searched. */
module Options {
  import opened Js
  import opened Wrappers
  import opened Plugins

  /** `trailingSlash` (options.ts:7-9). */
  function TrailingSlash(path: string): (r: string)
    ensures EndsWith(r, "/")
    ensures |path| <= |r| <= |path| + 1 && r[..|path|] == path
  {
    if EndsWith(path, "/") then path else path + "/"
  }

  /** A path that ends with `/` is its own trailing-slashed form, so
      `trailingSlash` is idempotent. */
  lemma TrailingSlashKeeps(path: string)
    ensures EndsWith(path, "/") ==> TrailingSlash(path) == path
    ensures TrailingSlash(TrailingSlash(path)) == TrailingSlash(path)
    ensures !EndsWith(path, "/") ==> TrailingSlash(path) == path + "/"
  {
  }

  // ---------------------------------------------------------------------
  // commonPathPrefix (options.ts:11-17)

  /** `a` is `b` with some elements left out, the rest in order. */
  predicate Subseq(a: seq<string>, b: seq<string>)
    decreases |b|
  {
    if a == [] then true
    else if b == [] then false
    else (a[0] == b[0] && Subseq(a[1..], b[1..])) || Subseq(a, b[1..])
  }

  lemma {:induction false} SubseqTrans(a: seq<string>, b: seq<string>, c: seq<string>)
    requires Subseq(a, b) && Subseq(b, c)
    ensures Subseq(a, c)
    decreases |c|
  {
    if a != [] {
      if Subseq(b, c[1..]) {
        SubseqTrans(a, b, c[1..]);
      } else if a[0] == b[0] && Subseq(a[1..], b[1..]) {
        SubseqTrans(a[1..], b[1..], c[1..]);
      } else {
        SubseqTrans(a, b[1..], c[1..]);
      }
    }
  }

  lemma {:induction false} SubseqIn(a: seq<string>, b: seq<string>, x: string)
    requires Subseq(a, b) && x in a
    ensures x in b
    decreases |b|
  {
    if a[0] == b[0] && Subseq(a[1..], b[1..]) {
      if x != a[0] {
        SubseqIn(a[1..], b[1..], x);
      }
    } else {
      SubseqIn(a, b[1..], x);
    }
  }

  /** `path.split('/').slice(0, -1)`: the directory segments. */
  function DirSegments(path: string): (r: seq<string>)
    ensures forall k :: 0 <= k < |r| ==> '/' !in r[k]
  {
    var pieces := Split(path, '/');
    pieces[..|pieces| - 1]
  }

  /** `common.filter((segment, idx) => segment === split[idx])` from index
      `i` on: the segments of `common` equal to the segment of `split` at
      the same index. */
  function KeepEqual(common: seq<string>, split: seq<string>, i: nat): (r: seq<string>)
    requires i <= |common|
    ensures Subseq(r, common[i..])
    decreases |common| - i
  {
    if i == |common| then []
    else
      var rest := KeepEqual(common, split, i + 1);
      assert common[i..][1..] == common[i + 1..];
      if i < |split| && common[i] == split[i] then [common[i]] + rest
      else
        SubseqTail(rest, common[i..]);
        rest
  }

  /** A subsequence of the tail is one of the whole. */
  lemma SubseqTail(a: seq<string>, b: seq<string>)
    requires b != [] && Subseq(a, b[1..])
    ensures Subseq(a, b)
  {
  }

  /** A list keeps all of itself when filtered against itself. */
  lemma {:induction false} KeepEqualSelf(common: seq<string>, i: nat)
    requires i <= |common|
    ensures KeepEqual(common, common, i) == common[i..]
    decreases |common| - i
  {
    if i < |common| {
      KeepEqualSelf(common, i + 1);
      assert common[i..] == [common[i]] + common[i + 1..];
    }
  }

  /** The `reduce` over the split paths, from the accumulated `common`. */
  function FoldKeep(common: seq<string>, splits: seq<seq<string>>): (r: seq<string>)
    ensures Subseq(r, common)
    decreases |splits|
  {
    if splits == [] then
      SubseqRefl(common);
      common
    else
      var next := KeepEqual(common, splits[0], 0);
      var r := FoldKeep(next, splits[1..]);
      assert common[0..] == common;
      SubseqTrans(r, next, common);
      r
  }

  lemma {:induction false} SubseqRefl(a: seq<string>)
    ensures Subseq(a, a)
  {
    if a != [] {
      SubseqRefl(a[1..]);
    }
  }

  /** The segments `commonPathPrefix` keeps: a subsequence of the
      directory segments of the first path, none holding a `/`. */
  function CommonSegments(paths: seq<string>): (r: seq<string>)
    requires |paths| > 0
    ensures Subseq(r, DirSegments(paths[0]))
    ensures forall k :: 0 <= k < |r| ==> '/' !in r[k]
  {
    var splits := seq(|paths|, i requires 0 <= i < |paths| => DirSegments(paths[i]));
    var r := FoldKeep(splits[0], splits);
    forall k | 0 <= k < |r| ensures '/' !in r[k] {
      SubseqIn(r, splits[0], r[k]);
    }
    r
  }

  /** `commonPathPrefix` (options.ts:11-17): the kept segments joined with
      `/`, each followed by `/`. On an empty list the code throws, so the
      list must not be empty. */
  function CommonPathPrefix(paths: seq<string>): (r: string)
    requires |paths| > 0
    ensures r == [] || EndsWith(r, "/")
  {
    var segs := CommonSegments(paths);
    if segs == [] then Join(segs + [""], "/")
    else
      JoinSnoc(segs, "", "/");
      Join(segs + [""], "/")
  }

  /** Joining one more piece appends the separator and the piece. */
  lemma {:induction false} JoinSnoc(xs: seq<string>, y: string, sep: string)
    requires xs != []
    ensures Join(xs + [y], sep) == Join(xs, sep) + sep + y
    decreases |xs|
  {
    if |xs| > 1 {
      JoinSnoc(xs[1..], y, sep);
      assert (xs + [y])[1..] == xs[1..] + [y];
    } else {
      assert (xs + [y])[1..] == [y];
    }
  }

  /** For a single path, `commonPathPrefix` is the path up to and including
      its last `/`, or empty when it has none. */
  lemma CommonPathPrefixSingle(path: string)
    ensures var r := CommonPathPrefix([path]);
      && |r| <= |path| && r == path[..|r|]
      && (r == [] || r[|r| - 1] == '/')
      && forall j :: |r| <= j < |path| ==> path[j] != '/'
  {
    var pieces := Split(path, '/');
    var dirs := DirSegments(path);
    var last := pieces[|pieces| - 1];
    assert pieces == dirs + [last];
    assert '/' !in last;
    JoinSplit(path, '/');
    KeepEqualSelf(dirs, 0);
    assert dirs[0..] == dirs;
    var splits := seq(1, i requires 0 <= i < 1 => DirSegments([path][i]));
    assert splits == [dirs];
    assert FoldKeep(dirs, [dirs]) == FoldKeep(dirs, []);
    assert CommonSegments([path]) == dirs;
    var r := CommonPathPrefix([path]);
    if dirs == [] {
      assert pieces == [last] && path == last;
    } else {
      JoinSnoc(dirs, last, "/");
      JoinSnoc(dirs, "", "/");
      assert r == Join(dirs, "/") + "/";
      assert path == r + last;
      assert path[..|r|] == r;
      forall j | |r| <= j < |path| ensures path[j] != '/' {
        assert path[j] == last[j - |r|];
      }
    }
  }

  /** For two paths, `commonPathPrefix` keeps the segments of the first
      that equal the segment of the second at the same index. */
  lemma CommonPathPrefixTwo(p: string, q: string)
    ensures CommonPathPrefix([p, q]) == Join(KeepEqual(DirSegments(p), DirSegments(q), 0) + [""], "/")
  {
    var dp, dq := DirSegments(p), DirSegments(q);
    var splits := seq(2, i requires 0 <= i < 2 => DirSegments([p, q][i]));
    assert splits == [dp, dq];
    KeepEqualSelf(dp, 0);
    assert dp[0..] == dp;
    assert FoldKeep(dp, [dp, dq]) == FoldKeep(dp, [dq]);
    assert FoldKeep(dp, [dq]) == FoldKeep(KeepEqual(dp, dq, 0), []);
  }

  /** `split` of a piece followed by the separator. */
  lemma SplitCons(a: string, c: char, b: string)
    requires c !in a
    ensures Split(a + [c] + b, c) == [a] + Split(b, c)
  {
    var s := a + [c] + b;
    assert s[|a|] == c;
    assert forall j :: 0 <= j < |a| ==> s[j] == a[j];
    IndexOfCharFirst(s, c, 0);
    assert s[..|a|] == a && s[|a| + 1..] == b;
  }

  /** A path made of segments without `/`, joined with `/`, splits back
      into those segments; all but the last are its directories. */
  lemma {:induction false} DirSegmentsJoin(segs: seq<string>, name: string)
    requires forall k :: 0 <= k < |segs| ==> '/' !in segs[k]
    requires '/' !in name
    ensures Split(Join(segs + [name], "/"), '/') == segs + [name]
    ensures DirSegments(Join(segs + [name], "/")) == segs
    decreases |segs|
  {
    if segs == [] {
      IndexOfCharFirst(name, '/', 0);
    } else {
      var rest := Join(segs[1..] + [name], "/");
      assert (segs + [name])[1..] == segs[1..] + [name];
      assert Join(segs + [name], "/") == segs[0] + "/" + rest;
      DirSegmentsJoin(segs[1..], name);
      SplitCons(segs[0], '/', rest);
      assert segs + [name] == [segs[0]] + (segs[1..] + [name]);
    }
  }

  /** Two paths whose directories agree on `dirs` and then differ in one
      directory share exactly `dirs`: the differing directory is dropped
      whole, never cut to a common beginning. For `/foo/bar/x` and
      `/foo/baz2/y` (whose directories are `''`, `foo`, then `bar` or
      `baz2`; see DirSegmentsJoin) this is `/foo/`. */
  lemma CommonPathPrefixDiffer(p: string, q: string, dirs: seq<string>, b: string, c: string)
    requires DirSegments(p) == dirs + [b] && DirSegments(q) == dirs + [c] && b != c
    ensures CommonPathPrefix([p, q]) == Join(dirs + [""], "/")
  {
    CommonPathPrefixTwo(p, q);
    KeepEqualLast(dirs, b, c, 0);
    assert dirs[0..] == dirs;
  }

  lemma {:induction false} KeepEqualLast(dirs: seq<string>, b: string, c: string, i: nat)
    requires i <= |dirs| && b != c
    ensures KeepEqual(dirs + [b], dirs + [c], i) == dirs[i..]
    decreases |dirs| - i
  {
    if i < |dirs| {
      KeepEqualLast(dirs, b, c, i + 1);
      assert (dirs + [b])[i] == dirs[i] == (dirs + [c])[i];
      assert dirs[i..] == [dirs[i]] + dirs[i + 1..];
    } else {
      assert (dirs + [b])[i] == b && (dirs + [c])[i] == c;
    }
  }

  /** Segments equal at the same index are kept even after a difference:
      for `a/b/c/x` and `a/z/c/y` the result is `a/c/`, which is a prefix
      of neither path. */
  lemma CommonPathPrefixSkips(p: string, q: string, a: string, b: string, c: string, d: string)
    requires DirSegments(p) == [a, b, d] && DirSegments(q) == [a, c, d] && b != c
    ensures CommonPathPrefix([p, q]) == a + "/" + d + "/"
  {
    CommonPathPrefixTwo(p, q);
    var dp, dq := [a, b, d], [a, c, d];
    assert KeepEqual(dp, dq, 3) == [];
    assert KeepEqual(dp, dq, 2) == [d];
    assert KeepEqual(dp, dq, 1) == [d];
    assert KeepEqual(dp, dq, 0) == [a, d];
    assert [a, d] + [""] == [a, d, ""];
    assert [a, d, ""][1..] == [d, ""];
    assert [d, ""][1..] == [""];
    assert Join([d, ""], "/") == d + "/" + "";
    assert Join([a, d, ""], "/") == a + "/" + (d + "/" + "");
  }

  // ---------------------------------------------------------------------
  // The files getter (options.ts:65-117)

  /** An element of an entry-point array: a path, or an `{in, out}` pair. */
  datatype EntryPoint = Path(path: string) | InOut(input: string, out: string)

  /** `entryPoints`: absent, an array, or a record from names to paths (its
      values in enumeration order). */
  datatype EntryPoints = NoEntryPoints | Items(items: seq<EntryPoint>) | Record(values: seq<(string, string)>)

  /** The `sourcemap` option: absent, a boolean, or one of esbuild's modes. */
  datatype SourceMap = NoSourceMap | Flag(on: bool) | Linked | External | Inline | Both

  datatype Config = Config(
    entryPoints: EntryPoints,
    outbase: Option<string>,
    outdir: Option<string>,
    outfile: Option<string>,
    sourcemap: SourceMap)

  /** `x ?? fallback` */
  function OrElse(x: Option<string>, fallback: string): string {
    match x
    case Some(v) => v
    case None => fallback
  }

  /** The normalised entry points (options.ts:70-74): an array as it is,
      a record by its values, an `{in, out}` pair by its `out`. */
  function EntryPaths(e: EntryPoints): (r: seq<string>)
    ensures e.NoEntryPoints? ==> r == []
    ensures e.Items? ==> |r| == |e.items|
    ensures e.Items? ==> forall i :: 0 <= i < |r| ==> r[i] == (match e.items[i] { case Path(p) => p case InOut(_, out) => out })
    ensures e.Record? ==> |r| == |e.values| && forall i :: 0 <= i < |r| ==> r[i] == e.values[i].1
  {
    match e
    case NoEntryPoints => []
    case Items(items) =>
      seq(|items|, i requires 0 <= i < |items| => match items[i] { case Path(p) => p case InOut(_, out) => out })
    case Record(values) => seq(|values|, i requires 0 <= i < |values| => values[i].1)
  }

  /** Sourcemaps are files of their own for `true`, `linked`, `external`
      and `both`. */
  predicate EmitsMaps(m: SourceMap) {
    m == Flag(true) || m == Linked || m == External || m == Both
  }

  /** The effective `outbase` (options.ts:76-82): the configured one with a
      trailing slash, or else the common path prefix of the entry points;
      None where that throws, for want of entry points. */
  function Outbase(cfg: Config): (r: Option<string>)
    ensures r.None? <==> OrElse(cfg.outbase, "") == [] && EntryPaths(cfg.entryPoints) == []
    ensures r.Some? ==> r.value == [] || EndsWith(r.value, "/")
  {
    var outbase := OrElse(cfg.outbase, "");
    var entries := EntryPaths(cfg.entryPoints);
    if |outbase| > 0 then Some(TrailingSlash(outbase))
    else if entries == [] then None
    else Some(CommonPathPrefix(entries))
  }

  /** The effective `outdir` (options.ts:84-94): the configured one with a
      trailing slash, or else the directory of `outfile`. */
  function Outdir(cfg: Config): (r: string)
    ensures r == [] || EndsWith(r, "/")
    ensures OrElse(cfg.outdir, "") != [] ==> r == TrailingSlash(OrElse(cfg.outdir, ""))
  {
    var outdir := OrElse(cfg.outdir, "");
    if |outdir| > 0 then TrailingSlash(outdir) else CommonPathPrefix([OrElse(cfg.outfile, "")])
  }

  /** The paths of the primary files (options.ts:84-94): each entry point
      with its first `outbase` replaced by `outdir`, or `outfile` alone. */
  function Primaries(cfg: Config, outbase: string): (r: seq<string>)
    ensures OrElse(cfg.outdir, "") != [] ==>
      var entries := EntryPaths(cfg.entryPoints);
      |r| == |entries| && forall i :: 0 <= i < |r| ==> r[i] == ReplaceFirst(entries[i], outbase, Outdir(cfg))
    ensures OrElse(cfg.outdir, "") == [] ==> r == [OrElse(cfg.outfile, "")]
  {
    var entries := EntryPaths(cfg.entryPoints);
    if OrElse(cfg.outdir, "") != [] then
      seq(|entries|, i requires 0 <= i < |entries| => ReplaceFirst(entries[i], outbase, Outdir(cfg)))
    else [OrElse(cfg.outfile, "")]
  }

  /** `path.replace(/\.tsx?$/, '.js')`: a final `.ts` or `.tsx` becomes
      `.js`; any other path stays as it is. */
  function ToJs(path: string): (r: string)
    ensures EndsWith(path, ".tsx") ==> r == path[..|path| - 4] + ".js"
    ensures EndsWith(path, ".ts") ==> r == path[..|path| - 3] + ".js"
    ensures !EndsWith(path, ".ts") && !EndsWith(path, ".tsx") ==> r == path
  {
    TsxIsNoTs(path);
    if EndsWith(path, ".tsx") then path[..|path| - 4] + ".js"
    else if EndsWith(path, ".ts") then path[..|path| - 3] + ".js"
    else path
  }

  /** A path ending with `.tsx` does not end with `.ts`. */
  lemma TsxIsNoTs(path: string)
    ensures EndsWith(path, ".tsx") ==> !EndsWith(path, ".ts")
  {
    if EndsWith(path, ".tsx") {
      assert path[|path| - 1] == 'x';
    }
  }

  /** A TypeScript source is renamed in its extension only, and the result
      is a `.js` path; so `a.ts` and `a.tsx` get the same `dstPath`. */
  lemma ToJsStem(stem: string)
    ensures ToJs(stem + ".ts") == stem + ".js"
    ensures ToJs(stem + ".tsx") == stem + ".js"
    ensures EndsWith(ToJs(stem + ".ts"), ".js")
  {
    var a, b := stem + ".ts", stem + ".tsx";
    assert a[|a| - 3..] == ".ts" && a[..|a| - 3] == stem;
    assert b[|b| - 4..] == ".tsx" && b[..|b| - 4] == stem;
    assert !EndsWith(a, ".tsx") by {
      assert a[|a| - 1] == 's';
    }
    var r := stem + ".js";
    assert r[|r| - 3..] == ".js";
  }

  /** JavaScript's error for `splitPaths[0].concat('')` on no entry points. */
  const NoEntriesError: string := "TypeError: Cannot read properties of undefined (reading 'concat')"

  /** One primary file per path, in order: the path is the `srcPath`, its
      `.js` form the `dstPath`. */
  predicate PrimaryFiles(paths: seq<string>, fs: seq<BuildFile>) {
    |fs| == |paths| && forall i :: 0 <= i < |paths| ==> fs[i] == BuildFile(paths[i], ToJs(paths[i]), "")
  }

  /** One sourcemap per primary path, in order. */
  predicate MapFiles(paths: seq<string>, fs: seq<BuildFile>) {
    |fs| == |paths| && forall i :: 0 <= i < |paths| ==> fs[i] == BuildFile(paths[i], ToJs(paths[i]) + ".map", "")
  }

  /** One file per discovered html path, in order, its `dstPath` the path
      with the first `outbase` replaced by `outdir`. */
  predicate HtmlFiles(html: seq<string>, outbase: string, outdir: string, fs: seq<BuildFile>) {
    |fs| == |html| && forall i :: 0 <= i < |html| ==> fs[i] == BuildFile(html[i], ReplaceFirst(html[i], outbase, outdir), "")
  }

  /** The artifact list for `outbase` and `outdir`: the primaries, then
      their sourcemaps when maps are emitted, then the html files. */
  predicate ArtifactList(cfg: Config, outbase: string, outdir: string, html: seq<string>, fs: seq<BuildFile>) {
    var paths := Primaries(cfg, outbase);
    var n := |paths|;
    var m := if EmitsMaps(cfg.sourcemap) then n else 0;
    && |fs| == n + m + |html|
    && PrimaryFiles(paths, fs[..n])
    && (EmitsMaps(cfg.sourcemap) ==> MapFiles(paths, fs[n..n + m]))
    && HtmlFiles(html, outbase, outdir, fs[n + m..])
  }

  /** The `files` getter (options.ts:65-117). `discover` stands for
      `readDirectory(outbase, ['.html'], undefined, undefined, 0)`. */
  method Files(cfg: Config, discover: string -> seq<string>) returns (r: Result<seq<BuildFile>, string>)
    ensures r.Err? <==> Outbase(cfg).None?
    ensures r.Err? ==> r.error == NoEntriesError
    ensures r.Ok? ==> ArtifactList(cfg, Outbase(cfg).value, Outdir(cfg), discover(Outbase(cfg).value), r.value)
  {
    var outbase := OrElse(cfg.outbase, "");
    var outdir := OrElse(cfg.outdir, "");
    var entryPoints := EntryPaths(cfg.entryPoints);
    if |outbase| > 0 {
      outbase := TrailingSlash(outbase);
    } else {
      if |entryPoints| == 0 {
        return Err(NoEntriesError);
      }
      outbase := CommonPathPrefix(entryPoints);
    }
    assert Outbase(cfg) == Some(outbase);
    var paths: seq<string>;
    if |outdir| > 0 {
      outdir := TrailingSlash(outdir);
      paths := seq(|entryPoints|, i requires 0 <= i < |entryPoints| => ReplaceFirst(entryPoints[i], outbase, outdir));
    } else {
      paths := [OrElse(cfg.outfile, "")];
      outdir := CommonPathPrefix(paths);
    }
    assert outdir == Outdir(cfg);
    assert paths == Primaries(cfg, outbase);
    var buildFiles := BuildFiles(paths, EmitsMaps(cfg.sourcemap));
    ghost var head := buildFiles;
    var found := discover(outbase);
    buildFiles := AddHtml(buildFiles, found, outbase, outdir);
    ArtifactSections(cfg, outbase, outdir, found, head, buildFiles);
    r := Ok(buildFiles);
  }

  /** The primary files and, when maps are emitted, one sourcemap per
      primary pushed after them (options.ts:95-107). */
  method BuildFiles(paths: seq<string>, maps: bool) returns (buildFiles: seq<BuildFile>)
    ensures |buildFiles| == if maps then 2 * |paths| else |paths|
    ensures PrimaryFiles(paths, buildFiles[..|paths|])
    ensures maps ==> MapFiles(paths, buildFiles[|paths|..])
  {
    buildFiles := seq(|paths|, i requires 0 <= i < |paths| => BuildFile(paths[i], ToJs(paths[i]), ""));
    assert buildFiles[..|paths|] == buildFiles;
    if maps {
      var sourcemaps := seq(|buildFiles|, i requires 0 <= i < |buildFiles| =>
        BuildFile(buildFiles[i].srcPath, buildFiles[i].dstPath + ".map", ""));
      assert MapFiles(paths, sourcemaps);
      buildFiles := buildFiles + sourcemaps;
      assert buildFiles[|paths|..] == sourcemaps;
    }
  }

  /** The discovered html files pushed after the others, in order
      (options.ts:109-115). */
  method AddHtml(files: seq<BuildFile>, found: seq<string>, outbase: string, outdir: string) returns (buildFiles: seq<BuildFile>)
    ensures |buildFiles| == |files| + |found|
    ensures buildFiles[..|files|] == files
    ensures HtmlFiles(found, outbase, outdir, buildFiles[|files|..])
  {
    buildFiles := files;
    for i := 0 to |found|
      invariant |buildFiles| == |files| + i
      invariant buildFiles[..|files|] == files
      invariant HtmlFiles(found[..i], outbase, outdir, buildFiles[|files|..])
    {
      var html := BuildFile(found[i], ReplaceFirst(found[i], outbase, outdir), "");
      assert (buildFiles + [html])[|files|..] == buildFiles[|files|..] + [html];
      assert found[..i + 1] == found[..i] + [found[i]];
      buildFiles := buildFiles + [html];
    }
    assert found[..|found|] == found;
  }

  /** The list built from the primaries and their maps, followed by the
      html files, is the artifact list. */
  lemma ArtifactSections(cfg: Config, outbase: string, outdir: string, html: seq<string>, head: seq<BuildFile>, fs: seq<BuildFile>)
    requires var paths := Primaries(cfg, outbase);
      && |head| == (if EmitsMaps(cfg.sourcemap) then 2 * |paths| else |paths|)
      && PrimaryFiles(paths, head[..|paths|])
      && (EmitsMaps(cfg.sourcemap) ==> MapFiles(paths, head[|paths|..]))
    requires |fs| == |head| + |html| && fs[..|head|] == head && HtmlFiles(html, outbase, outdir, fs[|head|..])
    ensures ArtifactList(cfg, outbase, outdir, html, fs)
  {
    var n := |Primaries(cfg, outbase)|;
    assert fs[..n] == head[..n];
    assert fs[n..|head|] == head[n..];
  }
}
