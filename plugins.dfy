/** The content logic of the esbuild plugins of plugins.ts: the artifact
    record `BuildFile`, the import-globals table with its resolve filter and
    its `onResolve`/`onLoad` answers, and the `onStart` hooks of
    delete-files, read-files, import-globals and write-files. The file
    system is an abstract store from paths to contents, and the artifact
    list is one shared sequence that the hooks update in turn. */
module Plugins {
  import opened Js
  import opened Wrappers
  import opened Utils

  /** `BuildFile` (plugins.ts:6-10). */
  datatype BuildFile = BuildFile(srcPath: string, dstPath: string, content: string)

  /** A value of the import table: the global a module stands for, and the
      script that defines it. */
  datatype Global = Global(name: string, src: string)

  /** The import table `Record<string, {name, src}>`, as its entries in
      enumeration order. */
  type ImportTable = seq<(string, Global)>

  /** An object has each key once. */
  predicate KeysDistinct(t: ImportTable) {
    forall a, b :: 0 <= a < b < |t| ==> t[a].0 != t[b].0
  }

  /** `Object.entries(t).map(([path]) => path)` */
  function Keys(t: ImportTable): (r: seq<string>)
    ensures |r| == |t| && forall j :: 0 <= j < |t| ==> r[j] == t[j].0
  {
    if t == [] then [] else [t[0].0] + Keys(t[1..])
  }

  /** `t[key]`: the value of the entry with that key, if any. */
  function Lookup(t: ImportTable, key: string): (r: Option<Global>)
    ensures r.None? <==> key !in Keys(t)
    ensures r.Some? ==> exists j :: 0 <= j < |t| && t[j] == (key, r.value)
  {
    if t == [] then None else if t[0].0 == key then Some(t[0].1) else Lookup(t[1..], key)
  }

  /** `t[key] = g`: an existing key keeps its place and gets the new value;
      a new key goes at the end. */
  function Put(t: ImportTable, key: string, g: Global): (r: ImportTable)
    ensures |r| == |t| + (if key in Keys(t) then 0 else 1)
  {
    if t == [] then [(key, g)]
    else if t[0].0 == key then [(key, g)] + t[1..]
    else [t[0]] + Put(t[1..], key, g)
  }

  /** After `t[key] = g` the keys keep their order; a new key comes last. */
  lemma {:induction false} PutKeys(t: ImportTable, key: string, g: Global)
    ensures Keys(Put(t, key, g)) == if key in Keys(t) then Keys(t) else Keys(t) + [key]
  {
    if t != [] {
      var r := Put(t, key, g);
      assert Keys(t) == [t[0].0] + Keys(t[1..]);
      if t[0].0 == key {
        assert r[1..] == t[1..];
      } else {
        PutKeys(t[1..], key, g);
        assert r[1..] == Put(t[1..], key, g);
      }
      assert Keys(r) == [r[0].0] + Keys(r[1..]);
    }
  }

  /** `t[key] = g` keeps the keys distinct. */
  lemma PutDistinct(t: ImportTable, key: string, g: Global)
    requires KeysDistinct(t)
    ensures KeysDistinct(Put(t, key, g))
  {
    var r := Put(t, key, g);
    PutKeys(t, key, g);
    forall a, b | 0 <= a < b < |r| ensures r[a].0 != r[b].0 {
      assert Keys(r)[a] == r[a].0 && Keys(r)[b] == r[b].0;
      if key !in Keys(t) && b == |t| {
        assert Keys(t)[a] == r[a].0;
      } else {
        assert Keys(t)[a] == t[a].0 && Keys(t)[b] == t[b].0;
      }
    }
  }

  /** After `t[key] = g`, `key` holds `g`. */
  lemma {:induction false} PutLookupSame(t: ImportTable, key: string, g: Global)
    ensures Lookup(Put(t, key, g), key) == Some(g)
  {
    if t != [] && t[0].0 != key {
      PutLookupSame(t[1..], key, g);
      assert Put(t, key, g)[1..] == Put(t[1..], key, g);
    }
  }

  /** After `t[key] = g`, every other key holds what it held. */
  lemma {:induction false} PutLookupOther(t: ImportTable, key: string, g: Global, other: string)
    requires other != key
    ensures Lookup(Put(t, key, g), other) == Lookup(t, other)
  {
    if t != [] {
      var r := Put(t, key, g);
      if t[0].0 == key {
        assert r[1..] == t[1..];
      } else {
        PutLookupOther(t[1..], key, g, other);
        assert r[1..] == Put(t[1..], key, g);
      }
    }
  }

  // ---------------------------------------------------------------------
  // The resolve filter (plugins.ts:153-158)

  /** The characters the filter escapes: `[-/\\^$*+?.()|[\]{}]`. */
  predicate IsRegexMeta(c: char) {
    c == '-' || c == '/' || c == '\\' || c == '^' || c == '$' || c == '*' || c == '+' || c == '?'
    || c == '.' || c == '(' || c == ')' || c == '|' || c == '[' || c == ']' || c == '{' || c == '}'
  }

  /** `path.replace(/[-/\\^$*+?.()|[\]{}]/g, '\\$&')`: a backslash before
      every metacharacter. */
  function Escape(s: string): (r: string)
    ensures |r| >= |s|
  {
    if s == [] then [] else (if IsRegexMeta(s[0]) then ['\\', s[0]] else [s[0]]) + Escape(s[1..])
  }

  /** The one string a regular-expression body made of plain characters
      and backslash-escaped metacharacters matches; None for a body outside
      that form (a bare metacharacter, a backslash before anything else, a
      trailing backslash), which the model does not interpret. */
  function Unescape(p: string): (r: Option<string>)
    ensures r.Some? ==> |r.value| <= |p|
  {
    if p == [] then Some([])
    else if p[0] == '\\' then
      if |p| >= 2 && IsRegexMeta(p[1]) then
        match Unescape(p[2..])
        case Some(rest) => Some([p[1]] + rest)
        case None => None
      else None
    else if IsRegexMeta(p[0]) then None
    else
      match Unescape(p[1..])
      case Some(rest) => Some([p[0]] + rest)
      case None => None
  }

  /** An escaped key matches exactly the key itself. */
  lemma {:induction false} UnescapeEscape(s: string)
    ensures Unescape(Escape(s)) == Some(s)
  {
    if s != [] {
      UnescapeEscape(s[1..]);
      var head := if IsRegexMeta(s[0]) then ['\\', s[0]] else [s[0]];
      assert Escape(s) == head + Escape(s[1..]);
      if IsRegexMeta(s[0]) {
        assert Escape(s)[2..] == Escape(s[1..]);
      } else {
        assert Escape(s)[1..] == Escape(s[1..]);
      }
      assert s == [s[0]] + s[1..];
    }
  }

  /** `paths`: the table's keys when `extern` is set, none otherwise. */
  function FilterPaths(t: ImportTable, extern: bool): (r: seq<string>)
    ensures |r| == if extern then |t| else 0
  {
    if extern then Keys(t) else []
  }

  /** `` `^${escaped}$` `` for one path. */
  function Anchored(path: string): string {
    "^" + Escape(path) + "$"
  }

  /** The alternatives of the filter: the anchored, escaped paths, or the
      anchored, escaped two-character string `\b` when there are none. */
  function Alternatives(t: ImportTable, extern: bool): (r: seq<string>)
    ensures |r| >= 1
  {
    var paths := FilterPaths(t, extern);
    var all := paths + (if |paths| == 0 then ["\\b"] else []);
    seq(|all|, j requires 0 <= j < |all| => Anchored(all[j]))
  }

  /** An alternative `^body$` matches `path`. */
  predicate AltMatches(alt: string, path: string) {
    |alt| >= 2 && alt[0] == '^' && alt[|alt| - 1] == '$' && Unescape(alt[1..|alt| - 1]) == Some(path)
  }

  /** `filter.test(path)` for filter `new RegExp(alternatives.join('|'))`:
      some alternative matches. */
  predicate FilterMatches(t: ImportTable, extern: bool, path: string) {
    exists j :: 0 <= j < |Alternatives(t, extern)| && AltMatches(Alternatives(t, extern)[j], path)
  }

  /** An anchored alternative matches exactly the path it was built from. */
  lemma AnchoredMatches(p: string, path: string)
    ensures AltMatches(Anchored(p), path) <==> path == p
  {
    var a := Anchored(p);
    assert a[1..|a| - 1] == Escape(p);
    UnescapeEscape(p);
  }

  /** With `extern` set and a non-empty table, the filter matches a path
      exactly when it is a key of the table. */
  lemma FilterMatchesKeys(t: ImportTable, path: string)
    requires |t| > 0
    ensures FilterMatches(t, true, path) <==> path in Keys(t)
  {
    var alts := Alternatives(t, true);
    assert |alts| == |t|;
    if path in Keys(t) {
      var j :| 0 <= j < |t| && Keys(t)[j] == path;
      AnchoredMatches(path, path);
      assert AltMatches(alts[j], path);
    }
    if FilterMatches(t, true, path) {
      var j :| 0 <= j < |alts| && AltMatches(alts[j], path);
      AnchoredMatches(Keys(t)[j], path);
    }
  }

  /** With `extern` unset or an empty table, the filter matches one path
      only: the two-character string `\b`. */
  lemma FilterMatchesNoKeys(t: ImportTable, extern: bool, path: string)
    requires !extern || |t| == 0
    ensures FilterMatches(t, extern, path) <==> path == "\\b"
  {
    var alts := Alternatives(t, extern);
    assert |alts| == 1 && alts[0] == Anchored("\\b");
    AnchoredMatches("\\b", path);
  }

  // ---------------------------------------------------------------------
  // onResolve and onLoad (plugins.ts:185-194)

  datatype Resolved = Resolved(path: string, namespace: string)

  datatype Loaded = Loaded(contents: string, loader: string)

  /** JavaScript's error for `options.import[path].name` on a missing key. */
  const MissingEntry: string := "TypeError: Cannot read properties of undefined (reading 'name')"

  /** `onResolve`: a path with an entry whose name is not empty resolves to
      itself in namespace `global-ns`; an empty name throws
      `Unknown import: <path>`; a path without an entry throws on the
      property access. */
  function OnResolve(t: ImportTable, path: string): (r: Result<Resolved, string>)
    ensures r.Ok? <==> Lookup(t, path).Some? && Lookup(t, path).value.name != ""
    ensures r.Ok? ==> r.value == Resolved(path, "global-ns")
    ensures Lookup(t, path).Some? && Lookup(t, path).value.name == "" ==> r == Err("Unknown import: " + path)
    ensures Lookup(t, path).None? ==> r == Err(MissingEntry)
  {
    match Lookup(t, path)
    case None => Err(MissingEntry)
    case Some(g) => if g.name == "" then Err("Unknown import: " + path) else Ok(Resolved(path, "global-ns"))
  }

  /** `onLoad`: the module is `module.exports = <name>;` with loader `js`. */
  function OnLoad(t: ImportTable, path: string): (r: Result<Loaded, string>)
    ensures r.Ok? <==> path in Keys(t)
    ensures r.Ok? ==> r.value == Loaded("module.exports = " + Lookup(t, path).value.name + ";", "js")
  {
    match Lookup(t, path)
    case None => Err(MissingEntry)
    case Some(g) => Ok(Loaded("module.exports = " + g.name + ";", "js"))
  }

  /** Every path the filter lets through with `extern` set and a non-empty
      table has an entry: it resolves unless its name is empty, and then
      loads as the global of that name. */
  lemma FilteredResolves(t: ImportTable, path: string)
    requires |t| > 0 && FilterMatches(t, true, path)
    ensures Lookup(t, path).Some?
    ensures OnResolve(t, path).Ok? <==> Lookup(t, path).value.name != ""
    ensures OnLoad(t, path) == Ok(Loaded("module.exports = " + Lookup(t, path).value.name + ";", "js"))
  {
    FilterMatchesKeys(t, path);
  }

  // ---------------------------------------------------------------------
  // Insertions of script tags

  /** `'<script src="' + src + '"></script>'` */
  function ScriptTag(src: string): string {
    "<script src=\"" + src + "\"></script>"
  }

  /** The tags import-globals puts before `</head>`: one per value of the
      table, in order. */
  function HeadScripts(t: ImportTable): (r: seq<string>)
    ensures |r| == |t| && forall j :: 0 <= j < |t| ==> r[j] == ScriptTag(t[j].1.src)
  {
    if t == [] then [] else [ScriptTag(t[0].1.src)] + HeadScripts(t[1..])
  }

  /** Before-mode insertions of the values, one after the other, at the
      marker `find`; None when one of them does not return. */
  ghost function InsertAll(text: string, find: string, values: seq<string>): Option<string>
    decreases |values|
  {
    if values == [] then Some(text)
    else if !Terminates(text, find, Before) then None
    else InsertAll(Spliced(text, find, values[0], Before), find, values[1..])
  }

  /** A Before-mode insertion keeps the marker in the text (when the value
      does not hide it, it is the same occurrence, shifted). */
  lemma MarkerSurvives(text: string, find: string, value: string)
    requires IndexOf(text, find) >= 0 && Terminates(text, find, Before)
    ensures IndexOf(Spliced(text, find, value, Before), find) >= 0
  {
    var k := Edge(text, find, Before);
    var ran := WalkRuns(text, k, Before);
    var s := LineStart(text, Before, Landing(text, k, Before));
    var seg := Segment(text, value, Before, ran, s, if ran then IndentRun(text, s) else 0);
    var r := Spliced(text, find, value, Before);
    SplicedShape(text, find, value, Before);
    MarkerInText(text, find);
    OccursAfterPrefix(text[..k] + seg, text[k..], find);
    assert r == (text[..k] + seg) + text[k..];
  }

  /** What starts a suffix occurs in the whole text after the prefix. */
  lemma OccursAfterPrefix(x: string, t: string, find: string)
    requires |find| <= |t| && t[..|find|] == find
    ensures OccursAt(x + t, find, |x|)
  {
    assert (x + t)[|x|..|x| + |find|] == t[..|find|];
  }

  /** Without the marker, no insertion changes the text. */
  lemma {:induction false} InsertAllNoMarker(text: string, find: string, values: seq<string>)
    requires IndexOf(text, find) == -1
    ensures InsertAll(text, find, values) == Some(text)
    decreases |values|
  {
    if values != [] {
      assert Insertion(text, find, values[0], Before, 0) == Some(text);
      InsertAllNoMarker(text, find, values[1..]);
    }
  }

  /** A marker none of whose later characters is a space or a tab, so that
      a copied indentation cannot continue an occurrence of it. */
  predicate IndentClear(find: string) {
    find != [] && ' ' !in find[1..] && '\t' !in find[1..]
  }

  /** A value that cannot continue an occurrence of the marker begun before
      it: it is not empty, and its first character is none of the marker's
      later characters. */
  predicate StartsClear(find: string, v: string) {
    find != [] && v != [] && v[0] !in find[1..]
  }

  /** What the walk needs of the text the next insertion sees: when the
      marker is present, a line break stands above the closest non-blank
      line before its first occurrence. */
  ghost predicate LinedAbove(text: string, find: string) {
    IndexOf(text, find) >= 0 ==> HasLineAbove(text, IndexOf(text, find))
  }

  /** An occurrence that starts before an inserted segment whose first
      character is none of the marker's later characters and that was not
      an occurrence before the insertion is not one after it either. */
  lemma NoOccurrenceAcross(x: string, seg: string, t: string, find: string, j: int)
    requires 0 <= j < |x| && find != [] && seg != [] && seg[0] !in find[1..]
    requires !OccursAt(x + t, find, j)
    ensures !OccursAt(x + seg + t, find, j)
  {
    var r := x + seg + t;
    if j + |find| <= |x| {
      assert r[j..j + |find|] == x[j..j + |find|] == (x + t)[j..j + |find|];
    } else if j + |find| <= |r| {
      var d := |x| - j;
      assert r[j..j + |find|][d] == seg[0];
      assert find[1..][d - 1] == find[d];
    }
  }

  /** When neither the value nor an indentation can continue the marker, a
      Before insertion keeps the text up to the first marker, and the first
      marker of the result does not come earlier. */
  lemma FirstMarkerStays(text: string, find: string, value: string)
    requires IndexOf(text, find) >= 0 && Terminates(text, find, Before)
    requires IndentClear(find) && StartsClear(find, value)
    ensures var i, r := IndexOf(text, find), Spliced(text, find, value, Before);
      i <= |r| && r[..i] == text[..i] && i <= IndexOf(r, find)
  {
    var seg := ClearSegment(text, find, value);
    MarkerSurvives(text, find, value);
    FirstNotEarlier(text, IndexOf(text, find), seg, find);
  }

  /** The segment a Before insertion puts in front of the marker cannot
      continue the marker. */
  lemma ClearSegment(text: string, find: string, value: string) returns (seg: string)
    requires IndexOf(text, find) >= 0 && Terminates(text, find, Before)
    requires IndentClear(find) && StartsClear(find, value)
    ensures var i := IndexOf(text, find);
      0 <= i <= |text| && Spliced(text, find, value, Before) == text[..i] + seg + text[i..]
    ensures seg != [] && seg[0] !in find[1..]
  {
    var i := IndexOf(text, find);
    var ran := WalkRuns(text, i, Before);
    var s := LineStart(text, Before, Landing(text, i, Before));
    var n := if ran then IndentRun(text, s) else 0;
    seg := Segment(text, value, Before, ran, s, n);
    SplicedShape(text, find, value, Before);
    SegmentParts(text, value, Before, ran, s);
    if ran && n > 0 {
      assert seg[0] == text[s] && IsIndentChar(text[s]);
    } else {
      assert seg[0] == value[0];
    }
  }

  /** Inserting such a segment at the first occurrence of the marker moves
      no occurrence in front of it. */
  lemma FirstNotEarlier(text: string, i: int, seg: string, find: string)
    requires IndexOf(text, find) == i && 0 <= i <= |text|
    requires find != [] && seg != [] && seg[0] !in find[1..]
    requires IndexOf(text[..i] + seg + text[i..], find) >= 0
    ensures var r := text[..i] + seg + text[i..];
      i <= |r| && r[..i] == text[..i] && i <= IndexOf(r, find)
  {
    var r := text[..i] + seg + text[i..];
    assert text == text[..i] + text[i..];
    forall j | 0 <= j < i ensures !OccursAt(r, find, j) {
      NoOccurrenceAcross(text[..i], seg, text[i..], find, j);
    }
    assert r[..i] == text[..i];
  }

  /** A line above a position survives when the text up to it does, and it
      is then above every later position too. */
  lemma LineAboveStays(text: string, r: string, i: int, m: int)
    requires 0 <= i <= |text| && i <= |r| && r[..i] == text[..i] && i <= m
    requires HasLineAbove(text, i)
    ensures HasLineAbove(r, m)
  {
    var l, p :| 0 <= l < p < i && p < |text| && text[l] == '\n' && !IsWhitespace(text[p]);
    assert r[l] == r[..i][l] && text[l] == text[..i][l];
    assert r[p] == r[..i][p] && text[p] == text[..i][p];
  }

  /** Every insertion of the fold returns when the first text has a line
      above its first marker, and neither the values nor an indentation
      can continue the marker: each insertion then keeps that line above
      the first marker of the text it leaves. */
  lemma {:induction false} InsertAllReturns(text: string, find: string, values: seq<string>)
    requires IndentClear(find)
    requires forall j :: 0 <= j < |values| ==> StartsClear(find, values[j])
    requires LinedAbove(text, find)
    ensures InsertAll(text, find, values).Some?
    decreases |values|
  {
    if values == [] {
    } else if IndexOf(text, find) < 0 {
      InsertAllNoMarker(text, find, values);
    } else {
      var i := IndexOf(text, find);
      MarkerInText(text, find);
      BeforeHaltsIff(text, i);
      var r := Spliced(text, find, values[0], Before);
      FirstMarkerStays(text, find, values[0]);
      MarkerSurvives(text, find, values[0]);
      LineAboveStays(text, r, i, IndexOf(r, find));
      forall j | 0 <= j < |values[1..]| ensures StartsClear(find, values[1..][j]) {
        assert values[1..][j] == values[j + 1];
      }
      InsertAllReturns(r, find, values[1..]);
    }
  }

  /** A script tag starts with `<`. */
  lemma ScriptTagStart(src: string)
    ensures ScriptTag(src) != [] && ScriptTag(src)[0] == '<'
  {
  }

  /** Script tags cannot continue `</head>` or `</body>`: their `<` is
      only in first place in those markers, which hold no space or tab. */
  lemma TagsClear(find: string, tags: seq<string>)
    requires find == "</head>" || find == "</body>"
    requires forall j :: 0 <= j < |tags| ==> exists src :: tags[j] == ScriptTag(src)
    ensures IndentClear(find)
    ensures forall j :: 0 <= j < |tags| ==> StartsClear(find, tags[j])
  {
    assert find[1..] == "/head>" || find[1..] == "/body>";
    forall j | 0 <= j < |tags| ensures StartsClear(find, tags[j]) {
      var src :| tags[j] == ScriptTag(src);
      ScriptTagStart(src);
    }
  }

  /** The fold of insertions (the inner `forEach` of plugins.ts:173-180 and
      215-223), computed with `stringInsertion`. */
  method InsertEach(content: string, find: string, values: seq<string>) returns (r: string)
    requires InsertAll(content, find, values).Some?
    ensures InsertAll(content, find, values) == Some(r)
  {
    r := content;
    for j := 0 to |values|
      invariant InsertAll(r, find, values[j..]) == InsertAll(content, find, values)
    {
      assert values[j..][0] == values[j] && values[j..][1..] == values[j + 1..];
      var next := StringInsertion(r, find, values[j], Before);
      SplicedIs(r, find, values[j], Before, next);
      r := next;
    }
  }

  // ---------------------------------------------------------------------
  // The artifact list

  predicate IsHtml(f: BuildFile) {
    EndsWith(f.dstPath, ".html")
  }

  predicate IsJs(f: BuildFile) {
    EndsWith(f.dstPath, ".js")
  }

  /** The characters `.` does not match in a regular expression. */
  predicate IsLineTerminator(c: char) {
    c == '\n' || c == '\r' || c == '\U{2028}' || c == '\U{2029}'
  }

  /** The first line terminator at or after `p`, or the end of `s`. */
  function LineEnd(s: string, p: nat): (r: nat)
    requires p <= |s|
    ensures p <= r <= |s|
    ensures forall j :: p <= j < r ==> !IsLineTerminator(s[j])
    ensures r == |s| || IsLineTerminator(s[r])
    decreases |s| - p
  {
    if p == |s| || IsLineTerminator(s[p]) then p else LineEnd(s, p + 1)
  }

  /** The last `/` in `s[p..e]`, or -1. */
  function LastSlash(s: string, p: nat, e: nat): (r: int)
    requires p <= e <= |s|
    ensures r == -1 || (p <= r < e && s[r] == '/')
    ensures forall j :: (if r == -1 then p else r + 1) <= j < e ==> s[j] != '/'
    decreases e
  {
    if e == p then -1 else if s[e - 1] == '/' then e - 1 else LastSlash(s, p, e - 1)
  }

  /** `s.replace(/.*\//, '')` searching from `p`: the first start at which
      `.*\/` matches is the first whose line, from there on, holds a `/`;
      the greedy match runs to the last `/` of that line. */
  function StripDirFrom(s: string, p: nat): string
    requires p <= |s|
    decreases |s| - p
  {
    var q := LastSlash(s, p, LineEnd(s, p));
    if q >= 0 then s[..p] + s[q + 1..]
    else if p < |s| then StripDirFrom(s, p + 1)
    else s
  }

  /** `dstPath.replace(/.*\//, '')`, the `src` of a written script tag. */
  function StripDir(s: string): string {
    StripDirFrom(s, 0)
  }

  /** On a path on one line, `StripDir` keeps what follows the last `/`
      (all of it when there is none): the cut `q` is that `/`, or -1. */
  lemma StripDirCut(s: string) returns (q: int)
    requires forall j :: 0 <= j < |s| ==> !IsLineTerminator(s[j])
    ensures -1 <= q < |s| && StripDir(s) == s[q + 1..]
    ensures q >= 0 ==> s[q] == '/'
    ensures forall j :: q < j < |s| ==> s[j] != '/'
  {
    assert LineEnd(s, 0) == |s|;
    q := StripDirLastSlash(s);
  }

  /** `StripDir` on a text whose first line is all of it. */
  lemma StripDirLastSlash(s: string) returns (q: int)
    requires LineEnd(s, 0) == |s|
    ensures -1 <= q < |s| && StripDir(s) == s[q + 1..]
    ensures q >= 0 ==> s[q] == '/'
    ensures forall j :: q < j < |s| ==> s[j] != '/'
  {
    q := LastSlash(s, 0, |s|);
    if q >= 0 {
      StripDirAtSlash(s, q);
    } else {
      StripDirNoSlash(s);
    }
  }

  lemma StripDirAtSlash(s: string, q: nat)
    requires LineEnd(s, 0) == |s| && q == LastSlash(s, 0, |s|)
    ensures StripDir(s) == s[q + 1..]
  {
    assert s[..0] + s[q + 1..] == s[q + 1..];
  }

  lemma StripDirNoSlash(s: string)
    requires LineEnd(s, 0) == |s| && LastSlash(s, 0, |s|) == -1
    ensures StripDir(s) == s == s[0..]
  {
    if |s| > 0 {
      StripDirNone(s, 1);
    }
    assert s[0..] == s;
  }

  /** Past every `/`, nothing is stripped. */
  lemma {:induction false} StripDirNone(s: string, p: nat)
    requires p <= |s|
    requires forall j :: 0 <= j < |s| ==> s[j] != '/'
    ensures StripDirFrom(s, p) == s
    decreases |s| - p
  {
    var q := LastSlash(s, p, LineEnd(s, p));
    assert q == -1;
    if p < |s| {
      StripDirNone(s, p + 1);
    }
  }

  /** `files.filter(otherFile => otherFile.dstPath.endsWith('.js'))`. */
  function JsFiles(fs: seq<BuildFile>): (r: seq<BuildFile>)
    ensures |r| <= |fs|
    ensures forall f :: f in r <==> f in fs && IsJs(f)
  {
    if fs == [] then []
    else (if IsJs(fs[0]) then [fs[0]] else []) + JsFiles(fs[1..])
  }

  /** The filter keeps the list order: filtering a concatenation is
      concatenating the filtered parts. */
  lemma {:induction false} JsFilesAppend(a: seq<BuildFile>, b: seq<BuildFile>)
    ensures JsFiles(a + b) == JsFiles(a) + JsFiles(b)
    decreases |a|
  {
    if a != [] {
      assert (a + b)[0] == a[0] && (a + b)[1..] == a[1..] + b;
      JsFilesAppend(a[1..], b);
    } else {
      assert a + b == b;
    }
  }

  /** A list without `.js` files filters to nothing. */
  lemma {:induction false} JsFilesNone(fs: seq<BuildFile>)
    requires forall j :: 0 <= j < |fs| ==> !IsJs(fs[j])
    ensures JsFiles(fs) == []
    decreases |fs|
  {
    if fs != [] {
      assert !IsJs(fs[0]);
      JsFilesNone(fs[1..]);
    }
  }

  /** The tags write-files puts before `</body>`: one per file whose
      `dstPath` ends with `.js`, in list order, sourcing the part after the
      last `/`. */
  function BodyScripts(fs: seq<BuildFile>): (r: seq<string>)
    ensures |r| == |JsFiles(fs)|
    ensures forall j :: 0 <= j < |r| ==> r[j] == ScriptTag(StripDir(JsFiles(fs)[j].dstPath))
  {
    if fs == [] then []
    else (if IsJs(fs[0]) then [ScriptTag(StripDir(fs[0].dstPath))] else []) + BodyScripts(fs[1..])
  }

  /** A source map is not counted as a script. */
  lemma MapIsNoScript(path: string)
    requires EndsWith(path, ".map")
    ensures !EndsWith(path, ".js")
  {
    assert path[|path| - 1] == 'p';
  }

  /** Files whose `dstPath` ends with `.map` add no script tags: appended
      sourcemaps leave the tags of a list as they are. */
  lemma {:induction false} MapsAddNoScripts(fs: seq<BuildFile>, maps: seq<BuildFile>)
    requires forall j :: 0 <= j < |maps| ==> EndsWith(maps[j].dstPath, ".map")
    ensures JsFiles(fs + maps) == JsFiles(fs)
    ensures BodyScripts(fs + maps) == BodyScripts(fs)
  {
    forall j | 0 <= j < |maps| ensures !IsJs(maps[j]) {
      MapIsNoScript(maps[j].dstPath);
    }
    JsFilesNone(maps);
    JsFilesAppend(fs, maps);
  }

  /** Two lists of files with the same paths, in the same order. */
  predicate SamePaths(a: seq<BuildFile>, b: seq<BuildFile>) {
    |a| == |b| && forall j :: 0 <= j < |a| ==> a[j].srcPath == b[j].srcPath && a[j].dstPath == b[j].dstPath
  }

  /** The script tags depend on the paths only. */
  lemma {:induction false} BodyScriptsPaths(a: seq<BuildFile>, b: seq<BuildFile>)
    requires SamePaths(a, b)
    ensures BodyScripts(a) == BodyScripts(b)
  {
    if a != [] {
      BodyScriptsPaths(a[1..], b[1..]);
    }
  }

  /** The paths `deleteFile` is called on. */
  function DstPaths(fs: seq<BuildFile>): (r: set<string>)
    ensures forall f :: f in fs ==> f.dstPath in r
    ensures forall p :: p in r ==> exists j :: 0 <= j < |fs| && fs[j].dstPath == p
  {
    set j | 0 <= j < |fs| :: fs[j].dstPath
  }

  /** What `readFile(srcPath) ?? ''` gives. */
  function ReadContent(store: map<string, string>, path: string): string {
    if path in store then store[path] else ""
  }

  /** The store after `writeFile(dstPath, content)` for each file in order. */
  function WriteAll(store: map<string, string>, fs: seq<BuildFile>): map<string, string>
    decreases |fs|
  {
    if fs == [] then store
    else WriteAll(store, fs[..|fs| - 1])[fs[|fs| - 1].dstPath := fs[|fs| - 1].content]
  }

  /** After the writes, a path holds the content of the last file written
      to it. */
  lemma {:induction false} WriteAllLast(store: map<string, string>, fs: seq<BuildFile>, j: nat)
    requires j < |fs|
    requires forall l :: j < l < |fs| ==> fs[l].dstPath != fs[j].dstPath
    ensures fs[j].dstPath in WriteAll(store, fs)
    ensures WriteAll(store, fs)[fs[j].dstPath] == fs[j].content
    decreases |fs|
  {
    if j < |fs| - 1 {
      var init := fs[..|fs| - 1];
      assert init[j] == fs[j];
      forall l | j < l < |init| ensures init[l].dstPath != init[j].dstPath {
        assert init[l] == fs[l];
      }
      WriteAllLast(store, init, j);
    }
  }

  /** A path no file is written to keeps what it held. */
  lemma {:induction false} WriteAllUntouched(store: map<string, string>, fs: seq<BuildFile>, p: string)
    requires forall j :: 0 <= j < |fs| ==> fs[j].dstPath != p
    ensures p in WriteAll(store, fs) <==> p in store
    ensures p in store ==> WriteAll(store, fs)[p] == store[p]
    decreases |fs|
  {
    if fs != [] {
      var init := fs[..|fs| - 1];
      forall j | 0 <= j < |init| ensures init[j].dstPath != p {
        assert init[j] == fs[j];
      }
      WriteAllUntouched(store, init, p);
    }
  }

  /** Writing one more file, the one just put at position `i`. */
  lemma WriteAllStep(store: map<string, string>, fs: seq<BuildFile>, i: nat, g: BuildFile)
    requires i < |fs|
    ensures WriteAll(store, fs[i := g][..i + 1]) == WriteAll(store, fs[..i])[g.dstPath := g.content]
  {
    var h := fs[i := g][..i + 1];
    assert h[..|h| - 1] == fs[..i];
  }

  /** `g` is `f` after the insertions of `scripts` at `find` that an html
      file gets; any other file stays as it is. */
  ghost predicate Injected(f: BuildFile, g: BuildFile, find: string, scripts: seq<string>) {
    && g.srcPath == f.srcPath && g.dstPath == f.dstPath
    && if IsHtml(f) then InsertAll(f.content, find, scripts) == Some(g.content) else g.content == f.content
  }

  /** The insertions into one file (plugins.ts:171-181 and 212-224). */
  method InjectScripts(f: BuildFile, find: string, scripts: seq<string>) returns (g: BuildFile)
    requires IsHtml(f) ==> InsertAll(f.content, find, scripts).Some?
    ensures Injected(f, g, find, scripts)
  {
    g := f;
    if IsHtml(f) {
      var content := InsertEach(f.content, find, scripts);
      g := f.(content := content);
    }
  }

  /** import-globals' insertions return on every html file whose first
      `</head>`, if any, has a line break above its closest non-blank
      line: this meets the requirement of `Build.ImportGlobals`. */
  lemma HeadInsertionsReturn(files: seq<BuildFile>, table: ImportTable)
    requires forall j :: 0 <= j < |files| && IsHtml(files[j]) ==> LinedAbove(files[j].content, "</head>")
    ensures forall j :: 0 <= j < |files| && IsHtml(files[j]) ==>
      InsertAll(files[j].content, "</head>", HeadScripts(table)).Some?
  {
    var tags := HeadScripts(table);
    forall j | 0 <= j < |tags| ensures exists src :: tags[j] == ScriptTag(src) {
      assert tags[j] == ScriptTag(table[j].1.src);
    }
    TagsClear("</head>", tags);
    forall j | 0 <= j < |files| && IsHtml(files[j])
      ensures InsertAll(files[j].content, "</head>", tags).Some?
    {
      InsertAllReturns(files[j].content, "</head>", tags);
    }
  }

  /** write-files' insertions return on every html file whose first
      `</body>`, if any, has a line break above its closest non-blank
      line: this meets the requirement of `Build.WriteFiles`. */
  lemma BodyInsertionsReturn(files: seq<BuildFile>)
    requires forall j :: 0 <= j < |files| && IsHtml(files[j]) ==> LinedAbove(files[j].content, "</body>")
    ensures forall j :: 0 <= j < |files| && IsHtml(files[j]) ==>
      InsertAll(files[j].content, "</body>", BodyScripts(files)).Some?
  {
    var tags := BodyScripts(files);
    forall j | 0 <= j < |tags| ensures exists src :: tags[j] == ScriptTag(src) {
      assert tags[j] == ScriptTag(StripDir(JsFiles(files)[j].dstPath));
    }
    TagsClear("</body>", tags);
    forall j | 0 <= j < |files| && IsHtml(files[j])
      ensures InsertAll(files[j].content, "</body>", tags).Some?
    {
      InsertAllReturns(files[j].content, "</body>", tags);
    }
  }

  /** The build: the shared artifact list and the file store the hooks
      work on. */
  class Build {
    var files: seq<BuildFile>
    var store: map<string, string>

    constructor(files: seq<BuildFile>, store: map<string, string>)
      ensures this.files == files && this.store == store
    {
      this.files := files;
      this.store := store;
    }

    /** delete-files `onStart` (plugins.ts:54-58): every `dstPath` is
        deleted from the store. */
    method DeleteFiles()
      modifies this
      ensures files == old(files)
      ensures store == old(store) - DstPaths(old(files))
    {
      for i := 0 to |files|
        invariant files == old(files)
        invariant store == old(store) - DstPaths(files[..i])
      {
        assert DstPaths(files[..i + 1]) == DstPaths(files[..i]) + {files[i].dstPath} by {
          assert files[..i + 1] == files[..i] + [files[i]];
        }
        store := store - {files[i].dstPath};
      }
      assert files[..|files|] == files;
    }

    /** read-files `onStart` (plugins.ts:73-77): every content is read from
        the store at `srcPath`, or `''` when there is none. */
    method ReadFiles()
      modifies this
      ensures store == old(store)
      ensures SamePaths(files, old(files))
      ensures forall j :: 0 <= j < |files| ==> files[j].content == ReadContent(store, files[j].srcPath)
    {
      for i := 0 to |files|
        invariant store == old(store)
        invariant SamePaths(files, old(files))
        invariant forall j :: 0 <= j < i ==> files[j].content == ReadContent(store, files[j].srcPath)
      {
        files := files[i := files[i].(content := ReadContent(store, files[i].srcPath))];
      }
    }

    /** import-globals `onStart` (plugins.ts:168-183): with `extern` set,
        each html file gets one Before-`</head>` insertion of a script tag
        per value of the table, in table order; nothing else changes. */
    method ImportGlobals(extern: bool, table: ImportTable)
      modifies this
      requires extern ==> forall j :: 0 <= j < |files| && IsHtml(files[j]) ==>
        InsertAll(files[j].content, "</head>", HeadScripts(table)).Some?
      ensures store == old(store)
      ensures |files| == |old(files)|
      ensures !extern ==> files == old(files)
      ensures extern ==> forall j :: 0 <= j < |files| ==>
        Injected(old(files)[j], files[j], "</head>", HeadScripts(table))
    {
      if extern {
        for i := 0 to |files|
          invariant store == old(store)
          invariant |files| == |old(files)|
          invariant forall j :: 0 <= j < i ==> Injected(old(files)[j], files[j], "</head>", HeadScripts(table))
          invariant forall j :: i <= j < |files| ==> files[j] == old(files)[j]
        {
          var g := InjectScripts(files[i], "</head>", HeadScripts(table));
          files := files[i := g];
        }
      }
    }

    /** write-files `onStart` (plugins.ts:209-228): each html file gets one
        Before-`</body>` insertion of a script tag per file whose `dstPath`
        ends with `.js`, in list order; then every file is written to the
        store at its `dstPath`, in list order. */
    method WriteFiles()
      modifies this
      requires forall j :: 0 <= j < |files| && IsHtml(files[j]) ==>
        InsertAll(files[j].content, "</body>", BodyScripts(files)).Some?
      ensures |files| == |old(files)|
      ensures forall j :: 0 <= j < |files| ==>
        Injected(old(files)[j], files[j], "</body>", BodyScripts(old(files)))
      ensures store == WriteAll(old(store), files)
    {
      ghost var scripts := BodyScripts(files);
      for i := 0 to |files|
        invariant |files| == |old(files)|
        invariant forall j :: 0 <= j < i ==> Injected(old(files)[j], files[j], "</body>", scripts)
        invariant forall j :: i <= j < |files| ==> files[j] == old(files)[j]
        invariant store == WriteAll(old(store), files[..i])
      {
        assert SamePaths(files, old(files));
        BodyScriptsPaths(files, old(files));
        var g := InjectScripts(files[i], "</body>", BodyScripts(files));
        WriteAllStep(old(store), files, i, g);
        files := files[i := g];
        store := store[g.dstPath := g.content];
      }
      assert files[..|files|] == files;
    }
  }
}
