/** The indentation-aware text splicer `stringInsertion` (utils.ts): insert a
    value before, over or after the first occurrence of a marker, copying the
    indentation of the nearest non-blank line in the insertion direction.

    The splicer walks over line breaks with a loop that need not terminate
    (in Before mode, when no line break stands before the non-blank line
    above the marker; in After mode, among others, when only blank text
    follows the marker and the search wraps around to position 0). The walk
    is therefore specified with fuel (`Walk`), the method requires that the
    walk stops (`Terminates`), and the exact conditions are lemmas. */
module Utils {
  import opened Js
  import opened Wrappers

  /** `InsertionMode`, with the numeric values the walk adds to its index. */
  datatype InsertionMode = Before | Replace | After {
    function Value(): int {
      match this
      case Before => -1
      case Replace => 0
      case After => 1
    }
  }

  function Min(a: int, b: int): int { if a < b then a else b }

  function Max(a: int, b: int): int { if a < b then b else a }

  /** The insertion point `idx`: the start of the first occurrence of `find`,
      moved to its end in After mode. */
  function Edge(text: string, find: string, mode: InsertionMode): int {
    IndexOf(text, find) + (if mode == After then |find| else 0)
  }

  /** `findIdx('\n', from)`: `indexOf` in After mode, `lastIndexOf` otherwise. */
  function FindBreak(text: string, mode: InsertionMode, from: int): (r: int)
    ensures -1 <= r < |text|
    ensures r >= 0 ==> text[r] == '\n'
  {
    if mode == After then IndexOfChar(text, '\n', from) else LastIndexOfChar(text, '\n', from)
  }

  /** `lb` is what the line-break searches return: -1, or a position
      holding '\n'. */
  predicate IsBreak(text: string, lb: int) {
    -1 <= lb < |text| && (lb >= 0 ==> text[lb] == '\n')
  }

  /** The positions `text.slice(Math.min(lb, k), Math.max(lb, k))` starts
      and ends at: the text between a line break and the insertion point,
      in either order. */
  function SpanLo(text: string, lb: int, k: int): nat {
    SliceBound(|text|, Min(lb, k))
  }

  function SpanHi(text: string, lb: int, k: int): nat {
    SliceBound(|text|, Max(lb, k))
  }

  /** The text between line break `lb` and the insertion point `k` is
      blank. */
  predicate BlankSpan(text: string, lb: int, k: int) {
    BlankRange(text, SpanLo(text, lb, k), SpanHi(text, lb, k))
  }

  /** Where a walk with fuel ends: stopped at a line break, or out of fuel. */
  datatype WalkEnd = Stopped(lb: int) | OutOfFuel

  /** The blank-line walk started at line break `lb`: while the span up to
      the insertion point `k` is blank, move to the next line break in the
      direction of the mode (`findIdx('\n', linebreak + mode)`). The result
      is the line break the walk stops at, or None when `fuel` steps did
      not suffice. */
  function Walk(text: string, k: int, mode: InsertionMode, lb: int, fuel: nat): (r: WalkEnd)
    requires IsBreak(text, lb)
    ensures r.Stopped? ==> IsBreak(text, r.lb)
    decreases fuel
  {
    if !BlankSpan(text, lb, k) then Stopped(lb)
    else if fuel == 0 then OutOfFuel
    else Walk(text, k, mode, FindBreak(text, mode, lb + mode.Value()), fuel - 1)
  }

  /** The walk stops at a line break whose span is not blank. */
  lemma WalkStops(text: string, k: int, mode: InsertionMode, lb: int, fuel: nat)
    requires IsBreak(text, lb) && !BlankSpan(text, lb, k)
    ensures Walk(text, k, mode, lb, fuel) == Stopped(lb)
  {
  }

  /** From a line break whose span is blank, the walk goes on at the next
      line break in the direction of the mode. */
  lemma WalkSteps(text: string, k: int, mode: InsertionMode, lb: int, fuel: nat)
    requires IsBreak(text, lb) && BlankSpan(text, lb, k)
    ensures Walk(text, k, mode, lb, fuel + 1) == Walk(text, k, mode, FindBreak(text, mode, lb + mode.Value()), fuel)
  {
  }

  /** A walk that stops somewhere and stands on a blank span has fuel
      left, and stops at the same place from the next line break. */
  lemma WalkGoesOn(text: string, k: int, mode: InsertionMode, lb: int, fuel: nat, landing: int)
    requires IsBreak(text, lb) && BlankSpan(text, lb, k)
    requires Walk(text, k, mode, lb, fuel) == Stopped(landing)
    ensures fuel > 0
    ensures Walk(text, k, mode, FindBreak(text, mode, lb + mode.Value()), fuel - 1) == Stopped(landing)
  {
  }

  /** Where the walk stops, the span is not blank. */
  lemma {:induction false} WalkLands(text: string, k: int, mode: InsertionMode, lb: int, fuel: nat)
    requires IsBreak(text, lb) && Walk(text, k, mode, lb, fuel).Stopped?
    ensures !BlankSpan(text, Walk(text, k, mode, lb, fuel).lb, k)
    decreases fuel
  {
    if BlankSpan(text, lb, k) {
      WalkLands(text, k, mode, FindBreak(text, mode, lb + mode.Value()), fuel - 1);
    }
  }

  /** The walk stops after finitely many steps when started, as the source
      starts it, at the first line break found from the insertion point. */
  ghost predicate WalkHalts(text: string, k: int, mode: InsertionMode) {
    exists fuel: nat :: Walk(text, k, mode, FindBreak(text, mode, k), fuel).Stopped?
  }

  /** `hasNewLine`: the walk takes at least one step. */
  predicate WalkRuns(text: string, k: int, mode: InsertionMode) {
    BlankSpan(text, FindBreak(text, mode, k), k)
  }

  /** `stringInsertion` returns: the marker is missing, the mode is Replace,
      or the walk stops. */
  ghost predicate Terminates(text: string, find: string, mode: InsertionMode) {
    IndexOf(text, find) == -1 || mode == Replace || WalkHalts(text, Edge(text, find, mode), mode)
  }

  /** The start of the line whose indentation is copied: one past the line
      break the walk stopped at, or, in After mode, one past the line break
      before it. */
  function LineStart(text: string, mode: InsertionMode, landing: int): (r: int)
    requires IsBreak(text, landing)
    ensures 0 <= r <= |text|
    ensures r == 0 || text[r - 1] == '\n'
  {
    (if mode == After then LastIndexOfChar(text, '\n', landing - 1) else landing) + 1
  }

  /** The characters counted as indentation. */
  predicate IsIndentChar(c: char) {
    c == ' ' || c == '\t'
  }

  /** The length of the run of spaces and tabs starting at `j`. */
  function IndentRun(text: string, j: int): nat
    decreases |text| - j
  {
    if 0 <= j < |text| && IsIndentChar(text[j]) then 1 + IndentRun(text, j + 1) else 0
  }

  /** `IndentRun` measures the maximal run of spaces and tabs at `j`. */
  lemma {:induction false} IndentRunMaximal(text: string, j: int)
    requires 0 <= j <= |text|
    ensures j + IndentRun(text, j) <= |text|
    ensures forall t :: j <= t < j + IndentRun(text, j) ==> IsIndentChar(text[t])
    ensures j + IndentRun(text, j) == |text| || !IsIndentChar(text[j + IndentRun(text, j)])
    decreases |text| - j
  {
    if j < |text| && IsIndentChar(text[j]) {
      IndentRunMaximal(text, j + 1);
    }
  }

  /** The segment inserted in Before/After mode: a leading line break (After
      mode, when the walk ran), the indentation copied from line start `s`
      (when the walk ran), the value, and a trailing line break (Before mode,
      when the walk ran). */
  function Segment(text: string, value: string, mode: InsertionMode, ran: bool, s: int, n: int): string {
    (if mode == After && ran then "\n" else "")
    + Slice(text, s, s + n) + value
    + (if mode == Before && ran then "\n" else "")
  }

  /** The returned text (utils.ts:92-96): `text.slice(0, idx)`, the
      inserted segment with an indentation of `n` characters copied from
      `s`, then `text.slice(idx)`. */
  function Assemble(text: string, k: int, value: string, mode: InsertionMode, ran: bool, s: int, n: int): string {
    Slice(text, 0, k) + Segment(text, value, mode, ran, s, n) + Slice(text, k, |text|)
  }

  /** How the pieces of `Assemble` sit in its result: the text up to `k`,
      the inserted segment, then the text from `k` on. */
  lemma AssembleShape(text: string, k: int, value: string, mode: InsertionMode, ran: bool, s: int, n: int)
    requires 0 <= k <= |text|
    ensures var r, seg := Assemble(text, k, value, mode, ran, s, n), Segment(text, value, mode, ran, s, n);
      && r == text[..k] + seg + text[k..]
      && |r| == |text| + |seg| && |seg| >= |value|
      && r[..k] == text[..k]
      && r[|r| - (|text| - k)..] == text[k..]
  {
    var r, seg := Assemble(text, k, value, mode, ran, s, n), Segment(text, value, mode, ran, s, n);
    assert Slice(text, 0, k) == text[..k];
    assert r[..k] == text[..k];
    assert r[k + |seg|..] == text[k..];
  }

  /** The Before/After insertion at `k` once the walk has been given `fuel`
      steps; None when it needs more. */
  function Inserted(text: string, k: int, value: string, mode: InsertionMode, fuel: nat): Option<string> {
    var lb := FindBreak(text, mode, k);
    match Walk(text, k, mode, lb, fuel)
    case OutOfFuel => None
    case Stopped(landing) =>
      var ran := BlankSpan(text, lb, k);
      var s := LineStart(text, mode, landing);
      Some(Assemble(text, k, value, mode, ran, s, if ran then IndentRun(text, s) else 0))
  }

  /** The result of `stringInsertion`, computed with at most `fuel` steps of
      the walk; None when the walk needs more. */
  function Insertion(text: string, find: string, value: string, mode: InsertionMode, fuel: nat): Option<string> {
    var i := IndexOf(text, find);
    if i == -1 then Some(text)
    else if mode == Replace then Some(Slice(text, 0, i) + value + Slice(text, i + |find|, |text|))
    else Inserted(text, Edge(text, find, mode), value, mode, fuel)
  }

  /** The marker, when present, lies inside the text; an empty marker is
      found at 0. */
  lemma MarkerInText(text: string, find: string)
    requires IndexOf(text, find) >= 0
    ensures IndexOf(text, find) + |find| <= |text|
    ensures find == [] ==> IndexOf(text, find) == 0
  {
    if find == [] {
      assert OccursAt(text, find, 0);
    }
  }

  /** More fuel does not change a walk that has stopped. */
  lemma {:induction false} WalkMono(text: string, k: int, mode: InsertionMode, lb: int, f1: nat, f2: nat)
    requires IsBreak(text, lb)
    requires Walk(text, k, mode, lb, f1).Stopped? && f1 <= f2
    ensures Walk(text, k, mode, lb, f2) == Walk(text, k, mode, lb, f1)
    decreases f1
  {
    if BlankSpan(text, lb, k) {
      var next := FindBreak(text, mode, lb + mode.Value());
      WalkGoesOn(text, k, mode, lb, f1, Walk(text, k, mode, lb, f1).lb);
      WalkMono(text, k, mode, next, f1 - 1, f2 - 1);
      WalkSteps(text, k, mode, lb, f2 - 1);
    }
  }

  /** A walk that stops with some fuel stops at the same line break with
      every fuel that suffices. */
  lemma WalkUnique(text: string, k: int, mode: InsertionMode, lb: int, f0: nat)
    requires IsBreak(text, lb) && Walk(text, k, mode, lb, f0).Stopped?
    ensures forall f: nat :: Walk(text, k, mode, lb, f).Stopped? ==> Walk(text, k, mode, lb, f) == Walk(text, k, mode, lb, f0)
  {
    forall f: nat | Walk(text, k, mode, lb, f).Stopped?
      ensures Walk(text, k, mode, lb, f) == Walk(text, k, mode, lb, f0)
    {
      if f <= f0 {
        WalkMono(text, k, mode, lb, f, f0);
      } else {
        WalkMono(text, k, mode, lb, f0, f);
      }
    }
  }

  /** Any two fuels with which the insertion completes give the same text. */
  lemma InsertionFuel(text: string, find: string, value: string, mode: InsertionMode, f1: nat, f2: nat)
    requires Insertion(text, find, value, mode, f1).Some?
    requires Insertion(text, find, value, mode, f2).Some?
    ensures Insertion(text, find, value, mode, f1) == Insertion(text, find, value, mode, f2)
  {
    if IndexOf(text, find) != -1 && mode != Replace {
      var k := Edge(text, find, mode);
      var lb := FindBreak(text, mode, k);
      if f1 <= f2 {
        WalkMono(text, k, mode, lb, f1, f2);
      } else {
        WalkMono(text, k, mode, lb, f2, f1);
      }
    }
  }

  /** Once one fuel suffices, all that suffice agree with it. */
  lemma AllFuels(text: string, find: string, value: string, mode: InsertionMode, f: nat)
    requires Insertion(text, find, value, mode, f).Some?
    ensures forall fuel: nat :: Insertion(text, find, value, mode, fuel).Some? ==>
      Insertion(text, find, value, mode, fuel) == Insertion(text, find, value, mode, f)
  {
    forall fuel: nat | Insertion(text, find, value, mode, fuel).Some?
      ensures Insertion(text, find, value, mode, fuel) == Insertion(text, find, value, mode, f)
    {
      InsertionFuel(text, find, value, mode, f, fuel);
    }
  }

  /** `stringInsertion` returns exactly when some fuel suffices. */
  lemma TerminatesIffFuel(text: string, find: string, value: string, mode: InsertionMode)
    ensures Terminates(text, find, mode) <==> exists fuel: nat :: Insertion(text, find, value, mode, fuel).Some?
  {
    var k := Edge(text, find, mode);
    var lb := FindBreak(text, mode, k);
    if IndexOf(text, find) == -1 || mode == Replace {
      assert Insertion(text, find, value, mode, 0).Some?;
    } else if Terminates(text, find, mode) {
      var fuel: nat :| Walk(text, k, mode, lb, fuel).Stopped?;
      assert Insertion(text, find, value, mode, fuel).Some?;
    } else {
      forall fuel: nat ensures Insertion(text, find, value, mode, fuel).None? {
        assert Walk(text, k, mode, lb, fuel).OutOfFuel?;
      }
    }
  }

  /** The loop condition of the walk,
      `text.slice(Math.min(lb, k), Math.max(lb, k)).trim() === ''`: the span
      between the line break and the insertion point is blank. */
  method EmptyLine(text: string, lb: int, k: int) returns (b: bool)
    ensures b == BlankSpan(text, lb, k)
  {
    SliceBlank(text, Min(lb, k), Max(lb, k));
    TrimEmptyIffBlank(Slice(text, Min(lb, k), Max(lb, k)));
    b := Trim(Slice(text, Min(lb, k), Max(lb, k))) == [];
  }

  /** The loop of the blank-line walk (utils.ts:73-77): from line break
      `lb`, step to the next line break while the span up to `idx` is
      blank. Given that the walk from `lb` stops at `landing`, the loop
      ends there; it reports whether it stepped at all. */
  method StepOverBlank(text: string, idx: int, mode: InsertionMode, lb: int, ghost fuel: nat, ghost landing: int)
    returns (linebreak: int, hasNewLine: bool)
    requires IsBreak(text, lb) && Walk(text, idx, mode, lb, fuel) == Stopped(landing)
    ensures linebreak == landing
    ensures hasNewLine == BlankSpan(text, lb, idx)
  {
    linebreak := lb;
    ghost var f := fuel;
    hasNewLine := false;
    var empty := EmptyLine(text, linebreak, idx);
    ghost var first := empty;
    while empty
      invariant IsBreak(text, linebreak)
      invariant Walk(text, idx, mode, linebreak, f) == Stopped(landing)
      invariant hasNewLine ==> first
      invariant !hasNewLine ==> empty == first
      invariant empty == BlankSpan(text, linebreak, idx)
      decreases f
    {
      WalkGoesOn(text, idx, mode, linebreak, f, landing);
      linebreak := FindBreak(text, mode, linebreak + mode.Value());
      hasNewLine := true;
      f := f - 1;
      empty := EmptyLine(text, linebreak, idx);
    }
    WalkStops(text, idx, mode, linebreak, f);
  }

  /** The blank-line walk of `stringInsertion` (utils.ts:70-77): start at
      the first line break in the direction of the mode and step while the
      span up to `idx` is blank. Returns the line break it stops at and
      whether it stepped at all. */
  method WalkLineBreaks(text: string, idx: int, mode: InsertionMode) returns (linebreak: int, hasNewLine: bool)
    requires WalkHalts(text, idx, mode)
    ensures IsBreak(text, linebreak)
    ensures forall fuel: nat :: Walk(text, idx, mode, FindBreak(text, mode, idx), fuel).Stopped? ==>
      Walk(text, idx, mode, FindBreak(text, mode, idx), fuel) == Stopped(linebreak)
    ensures hasNewLine == WalkRuns(text, idx, mode)
    ensures !BlankSpan(text, linebreak, idx)
  {
    var start := FindBreak(text, mode, idx);
    ghost var fuel: nat :| Walk(text, idx, mode, start, fuel).Stopped?;
    ghost var landing := Walk(text, idx, mode, start, fuel).lb;
    linebreak, hasNewLine := StepOverBlank(text, idx, mode, start, fuel, landing);
    WalkUnique(text, idx, mode, start, fuel);
    WalkLands(text, idx, mode, start, fuel);
  }

  /** The start of the line whose indentation is copied (utils.ts:78-81):
      in After mode back to the line break before the landing, then one
      past it. */
  method StartOfLine(text: string, mode: InsertionMode, landing: int) returns (linebreak: int)
    requires IsBreak(text, landing)
    ensures linebreak == LineStart(text, mode, landing)
  {
    linebreak := landing;
    if mode == After {
      linebreak := LastIndexOfChar(text, '\n', linebreak - 1);
    }
    linebreak := linebreak + 1;
  }

  /** The indentation count of `stringInsertion` (utils.ts:84-89): the
      number of spaces and tabs from `start` on. */
  method IndentWidth(text: string, start: int) returns (indentCount: nat)
    requires 0 <= start <= |text|
    ensures indentCount == IndentRun(text, start)
    ensures start + indentCount <= |text|
    ensures forall t :: start <= t < start + indentCount ==> IsIndentChar(text[t])
    ensures start + indentCount == |text| || !IsIndentChar(text[start + indentCount])
  {
    indentCount := 0;
    while start + indentCount < |text| && IsIndentChar(text[start + indentCount])
      invariant start + indentCount <= |text|
      invariant forall t :: start <= t < start + indentCount ==> IsIndentChar(text[t])
      invariant IndentRun(text, start) == indentCount + IndentRun(text, start + indentCount)
      decreases |text| - (start + indentCount)
    {
      indentCount := indentCount + 1;
    }
  }

  /** Once the walk is known to stop at `landing`, every fuel that suffices
      gives the splice at that landing. */
  lemma InsertedIs(text: string, k: int, value: string, mode: InsertionMode, landing: int, ran: bool, s: int, n: int)
    requires IsBreak(text, landing)
    requires forall fuel: nat :: Walk(text, k, mode, FindBreak(text, mode, k), fuel).Stopped? ==>
      Walk(text, k, mode, FindBreak(text, mode, k), fuel) == Stopped(landing)
    requires ran == WalkRuns(text, k, mode) && s == LineStart(text, mode, landing)
    requires n == if ran then IndentRun(text, s) else 0
    ensures forall fuel: nat :: Inserted(text, k, value, mode, fuel).Some? ==>
      Inserted(text, k, value, mode, fuel) == Some(Assemble(text, k, value, mode, ran, s, n))
  {
  }

  /** The Before/After part of `stringInsertion` (utils.ts:70-96), at the
      insertion point `idx`: walk over blank lines, measure the indentation
      of the line found and splice the segment in. */
  method InsertAt(text: string, idx: int, value: string, mode: InsertionMode) returns (r: string)
    requires mode != Replace && 0 <= idx <= |text|
    requires WalkHalts(text, idx, mode)
    ensures forall fuel: nat :: Inserted(text, idx, value, mode, fuel).Some? ==>
      Inserted(text, idx, value, mode, fuel) == Some(r)
    ensures |r| >= |text| + |value| && r[..idx] == text[..idx] && r[|r| - (|text| - idx)..] == text[idx..]
  {
    var linebreak, hasNewLine := WalkLineBreaks(text, idx, mode);
    ghost var landing := linebreak;
    linebreak := StartOfLine(text, mode, linebreak);
    var indentCount := 0;
    if hasNewLine {
      indentCount := IndentWidth(text, linebreak);
    }
    r := Assemble(text, idx, value, mode, hasNewLine, linebreak, indentCount);
    AssembleShape(text, idx, value, mode, hasNewLine, linebreak, indentCount);
    InsertedIs(text, idx, value, mode, landing, hasNewLine, linebreak, indentCount);
  }

  /** `stringInsertion(text, find, value, mode)` (utils.ts:48-97). */
  method StringInsertion(text: string, find: string, value: string, mode: InsertionMode) returns (r: string)
    requires Terminates(text, find, mode)
    ensures forall fuel: nat :: Insertion(text, find, value, mode, fuel).Some? ==>
      Insertion(text, find, value, mode, fuel) == Some(r)
    ensures IndexOf(text, find) == -1 ==> r == text
    ensures IndexOf(text, find) >= 0 && mode == Replace ==>
      var i := IndexOf(text, find);
      r == text[..i] + value + text[i + |find|..]
    ensures IndexOf(text, find) >= 0 && mode != Replace ==>
      var k := Edge(text, find, mode);
      0 <= k <= |text| && |r| >= |text| + |value| && r[..k] == text[..k] && r[|r| - (|text| - k)..] == text[k..]
  {
    var idx := IndexOf(text, find);
    if idx == -1 {
      r := text;
      return;
    }
    MarkerInText(text, find);
    if mode == Replace {
      r := Slice(text, 0, idx) + value + Slice(text, idx + |find|, |text|);
      assert Slice(text, 0, idx) == text[..idx];
      assert Slice(text, idx + |find|, |text|) == text[idx + |find|..];
      return;
    }
    if mode == After {
      idx := idx + |find|;
    }
    assert idx == Edge(text, find, mode);
    r := InsertAt(text, idx, value, mode);
  }

  /** The text `stringInsertion` returns when it returns. */
  ghost function Spliced(text: string, find: string, value: string, mode: InsertionMode): (r: string)
    requires Terminates(text, find, mode)
    ensures forall fuel: nat :: Insertion(text, find, value, mode, fuel).Some? ==>
      Insertion(text, find, value, mode, fuel) == Some(r)
  {
    TerminatesIffFuel(text, find, value, mode);
    var fuel: nat :| Insertion(text, find, value, mode, fuel).Some?;
    AllFuels(text, find, value, mode, fuel);
    Insertion(text, find, value, mode, fuel).value
  }

  /** A text that every sufficient fuel yields is `Spliced`. */
  lemma SplicedIs(text: string, find: string, value: string, mode: InsertionMode, r: string)
    requires Terminates(text, find, mode)
    requires forall fuel: nat :: Insertion(text, find, value, mode, fuel).Some? ==>
      Insertion(text, find, value, mode, fuel) == Some(r)
    ensures r == Spliced(text, find, value, mode)
  {
    TerminatesIffFuel(text, find, value, mode);
  }

  // ---------------------------------------------------------------------
  // What the walk does

  /** When the first span is not blank the walk does not run, and the value
      goes in at the insertion point unchanged. */
  lemma InlineWhenNoWalk(text: string, k: int, value: string, mode: InsertionMode, fuel: nat)
    requires 0 <= k <= |text| && !WalkRuns(text, k, mode)
    ensures Inserted(text, k, value, mode, fuel) == Some(text[..k] + value + text[k..])
  {
    var lb := FindBreak(text, mode, k);
    var s := LineStart(text, mode, lb);
    assert Slice(text, s, s + 0) == [];
    assert Segment(text, value, mode, false, s, 0) == value;
    AssembleShape(text, k, value, mode, false, s, 0);
  }

  /** After the walk ran, the inserted segment is the value with a line
      break on the side of the mode and, on the other side, exactly the
      indentation of the line starting at `s`: a run of spaces and tabs that
      cannot be extended. */
  lemma SegmentAfterWalk(text: string, value: string, mode: InsertionMode, s: int)
    requires mode != Replace && 0 <= s <= |text|
    ensures var n := IndentRun(text, s);
      var seg := Segment(text, value, mode, true, s, n);
      && s + n <= |text|
      && (forall t :: s <= t < s + n ==> IsIndentChar(text[t]))
      && (s + n == |text| || !IsIndentChar(text[s + n]))
      && (mode == Before ==> seg == text[s..s + n] + value + "\n")
      && (mode == After ==> seg == "\n" + text[s..s + n] + value)
  {
    IndentRunMaximal(text, s);
  }

  /** There is a line break before the marker, and a character that is not
      whitespace between that line break and the marker. */
  ghost predicate HasLineAbove(text: string, i: int) {
    exists l, p :: 0 <= l < p < i && p < |text| && text[l] == '\n' && !IsWhitespace(text[p])
  }

  /** Where the marker can sit: inside the text, and never at its very end
      unless the text is empty (an occurrence of a non-empty marker ends at
      or before the end, an empty marker is found at 0). */
  predicate MarkerPosition(text: string, i: int) {
    0 <= i <= |text| && (i < |text| || |text| == 0)
  }

  /** In Before mode a walk blocked by no line above never stops. In
      particular the walk from -1 looks only at position 0 and sees an empty
      span. */
  lemma {:induction false} BeforeStuck(text: string, i: int, lb: int, fuel: nat)
    requires MarkerPosition(text, i) && !HasLineAbove(text, i)
    requires IsBreak(text, lb) && lb <= i
    ensures Walk(text, i, Before, lb, fuel).OutOfFuel?
    decreases fuel
  {
    if lb >= 0 {
      forall j | lb <= j < i ensures IsWhitespace(text[j]) {
        if j > lb {
          assert !(0 <= lb < j < i && j < |text| && text[lb] == '\n' && !IsWhitespace(text[j]));
        }
      }
    }
    if fuel > 0 {
      BeforeStuck(text, i, FindBreak(text, Before, lb - 1), fuel - 1);
    }
  }

  /** A span holding a character that is not whitespace is not blank. */
  lemma NonBlankAt(text: string, lb: int, i: int, p: int)
    requires 0 <= lb <= p < i <= |text| && !IsWhitespace(text[p])
    ensures !BlankSpan(text, lb, i)
  {
  }

  /** The Before walk stands at line break `lb`, at or after the line break
      `l`, and a character `p` that is not whitespace lies between `l` and
      the marker at `i`. */
  predicate BeforeAbove(text: string, i: int, lb: int, l: int, p: int) {
    MarkerPosition(text, i) && 0 <= l <= lb <= i && l < p < i
    && text[l] == '\n' && text[lb] == '\n' && !IsWhitespace(text[p])
  }

  /** One step of the Before walk from a blank span lands at or after `l`
      again, below `lb`. */
  lemma BeforeStep(text: string, i: int, lb: int, l: int, p: int)
    requires BeforeAbove(text, i, lb, l, p) && BlankSpan(text, lb, i)
    ensures var next := FindBreak(text, Before, lb + Before.Value());
      next < lb && BeforeAbove(text, i, next, l, p)
  {
    if lb <= p {
      NonBlankAt(text, lb, i, p);
    }
    LastIndexOfCharAtLeast(text, '\n', lb - 1, l);
  }

  /** In Before mode the walk stops once it stands at or after a line break
      with a non-whitespace character between it and the marker. */
  lemma {:induction false} BeforeReaches(text: string, i: int, lb: int, l: int, p: int) returns (fuel: nat)
    requires BeforeAbove(text, i, lb, l, p)
    ensures Walk(text, i, Before, lb, fuel).Stopped?
    decreases lb
  {
    if BlankSpan(text, lb, i) {
      BeforeStep(text, i, lb, l, p);
      var f := BeforeReaches(text, i, FindBreak(text, Before, lb + Before.Value()), l, p);
      fuel := f + 1;
    } else {
      fuel := 0;
    }
  }

  /** In Before mode the walk stops exactly when there is a line break
      above the marker with something other than whitespace between it and
      the marker. */
  lemma BeforeHaltsIff(text: string, i: int)
    requires MarkerPosition(text, i)
    ensures WalkHalts(text, i, Before) <==> HasLineAbove(text, i)
  {
    var lb := FindBreak(text, Before, i);
    if HasLineAbove(text, i) {
      var l, p :| 0 <= l < p < i && p < |text| && text[l] == '\n' && !IsWhitespace(text[p]);
      LastIndexOfCharAtLeast(text, '\n', i, l);
      var fuel := BeforeReaches(text, i, lb, l, p);
    } else {
      forall fuel: nat ensures Walk(text, i, Before, lb, fuel).OutOfFuel? {
        BeforeStuck(text, i, lb, fuel);
      }
    }
  }

  /** Every line break after `lb`, up to the marker at `i`, has only
      whitespace between it and the marker. */
  ghost predicate BlankBelowBreaks(text: string, i: int, lb: int) {
    forall m :: lb < m <= i && 0 <= m < |text| && text[m] == '\n' ==> BlankRange(text, m, i)
  }

  /** A Before walk that starts below blank-spanned line breaks and stops,
      stops at a line break holding something other than whitespace before
      the marker, all line breaks above it being blank-spanned. */
  lemma {:induction false} BeforeLandingFrom(text: string, i: int, lb: int, fuel: nat)
    requires MarkerPosition(text, i) && IsBreak(text, lb) && lb <= i
    requires BlankBelowBreaks(text, i, lb)
    requires Walk(text, i, Before, lb, fuel).Stopped?
    ensures var l := Walk(text, i, Before, lb, fuel).lb;
      0 <= l <= i && text[l] == '\n' && !BlankRange(text, l, i) && BlankBelowBreaks(text, i, l)
    decreases fuel
  {
    if BlankSpan(text, lb, i) {
      BeforeLandStep(text, i, lb);
      WalkGoesOn(text, i, Before, lb, fuel, Walk(text, i, Before, lb, fuel).lb);
      BeforeLandingFrom(text, i, FindBreak(text, Before, lb + Before.Value()), fuel - 1);
    } else {
      BeforeLandHere(text, i, lb);
    }
  }

  /** A Before walk stops only at a line break before the marker with
      something other than whitespace in between. */
  lemma BeforeLandHere(text: string, i: int, lb: int)
    requires MarkerPosition(text, i) && IsBreak(text, lb) && lb <= i
    requires !BlankSpan(text, lb, i)
    ensures 0 <= lb && text[lb] == '\n' && !BlankRange(text, lb, i)
  {
  }

  /** From below blank-spanned line breaks, a step of the Before walk over
      a blank span lands below blank-spanned line breaks again. */
  lemma BeforeLandStep(text: string, i: int, lb: int)
    requires MarkerPosition(text, i) && IsBreak(text, lb) && lb <= i
    requires BlankBelowBreaks(text, i, lb) && BlankSpan(text, lb, i)
    ensures var next := FindBreak(text, Before, lb + Before.Value());
      next <= i && BlankBelowBreaks(text, i, next)
  {
    if lb >= 1 {
      LastIndexOfCharLast(text, '\n', lb - 1);
    }
  }

  /** Where the Before walk stops: at the last line break at or before the
      marker that has something other than whitespace between it and the
      marker. */
  lemma BeforeLanding(text: string, i: int, fuel: nat)
    requires MarkerPosition(text, i)
    requires Walk(text, i, Before, FindBreak(text, Before, i), fuel).Stopped?
    ensures var l := Walk(text, i, Before, FindBreak(text, Before, i), fuel).lb;
      && 0 <= l <= i && text[l] == '\n' && !BlankRange(text, l, i)
      && forall m :: l < m <= i && m < |text| && text[m] == '\n' ==> BlankRange(text, m, i)
  {
    LastIndexOfCharLast(text, '\n', i);
    BeforeLandingFrom(text, i, FindBreak(text, Before, i), fuel);
  }

  /** There is a line break after the insertion point `k`, and a character
      other than whitespace between the two. */
  ghost predicate HasLineBelow(text: string, k: int) {
    exists l, p :: 0 <= k <= p < l < |text| && text[l] == '\n' && !IsWhitespace(text[p])
  }

  /** The After walk stands at line break `lb`, at or after the insertion
      point `k` and at or before the line break `l`, and a character `p`
      that is not whitespace lies between `k` and `l`. */
  predicate AfterBelow(text: string, k: int, lb: int, l: int, p: int) {
    0 <= k <= lb <= l && k <= p < l < |text|
    && text[lb] == '\n' && text[l] == '\n' && !IsWhitespace(text[p])
  }

  /** Every line break from `k` up to `lb` has only whitespace between the
      insertion point and itself. */
  ghost predicate BlankAboveBreaks(text: string, k: int, lb: int) {
    forall m :: k <= m < lb && 0 <= m < |text| && text[m] == '\n' ==> BlankRange(text, k, m)
  }

  /** One step of the After walk from a blank span goes to the next line
      break, which is at or before `l`. */
  lemma AfterStep(text: string, k: int, lb: int, l: int, p: int)
    requires AfterBelow(text, k, lb, l, p) && BlankSpan(text, lb, k)
    ensures var next := FindBreak(text, After, lb + After.Value());
      && lb < next && AfterBelow(text, k, next, l, p)
      && forall m :: lb < m < next ==> text[m] != '\n'
  {
    IndexOfCharFirst(text, '\n', lb + 1);
  }

  /** In After mode the walk stops once it stands below a line break with a
      non-whitespace character between the insertion point and it. */
  lemma {:induction false} AfterReaches(text: string, k: int, lb: int, l: int, p: int) returns (fuel: nat)
    requires AfterBelow(text, k, lb, l, p)
    ensures Walk(text, k, After, lb, fuel).Stopped?
    decreases l - lb
  {
    if BlankSpan(text, lb, k) {
      AfterStep(text, k, lb, l, p);
      var f := AfterReaches(text, k, FindBreak(text, After, lb + After.Value()), l, p);
      fuel := f + 1;
    } else {
      fuel := 0;
    }
  }

  /** The After walk started below blank-spanned line breaks stops at the
      first line break with something other than whitespace between the
      insertion point and it. */
  lemma {:induction false} AfterLandingFrom(text: string, k: int, lb: int, l: int, p: int, fuel: nat)
    requires AfterBelow(text, k, lb, l, p) && BlankAboveBreaks(text, k, lb)
    requires Walk(text, k, After, lb, fuel).Stopped?
    ensures var m := Walk(text, k, After, lb, fuel).lb;
      k <= m <= l && text[m] == '\n' && !BlankRange(text, k, m) && BlankAboveBreaks(text, k, m)
    decreases fuel
  {
    var landing := Walk(text, k, After, lb, fuel).lb;
    if BlankSpan(text, lb, k) {
      AfterStep(text, k, lb, l, p);
      AfterLandStep(text, k, lb, l, p);
      WalkGoesOn(text, k, After, lb, fuel, landing);
      AfterLandingFrom(text, k, FindBreak(text, After, lb + After.Value()), l, p, fuel - 1);
    } else {
      AfterLandHere(text, k, lb, l, p);
    }
  }

  /** A step of the After walk over a blank span keeps every line break
      passed blank-spanned. */
  lemma AfterLandStep(text: string, k: int, lb: int, l: int, p: int)
    requires AfterBelow(text, k, lb, l, p) && BlankSpan(text, lb, k) && BlankAboveBreaks(text, k, lb)
    requires var next := FindBreak(text, After, lb + After.Value());
      lb < next && forall m :: lb < m < next ==> text[m] != '\n'
    ensures BlankAboveBreaks(text, k, FindBreak(text, After, lb + After.Value()))
  {
  }

  /** An After walk stops only at a line break with something other than
      whitespace between the insertion point and it. */
  lemma AfterLandHere(text: string, k: int, lb: int, l: int, p: int)
    requires AfterBelow(text, k, lb, l, p) && !BlankSpan(text, lb, k)
    ensures !BlankRange(text, k, lb)
  {
  }

  /** In After mode the walk stops when a line break after the insertion
      point has something other than whitespace before it. (The converse
      fails: the walk may also stop after wrapping around to the start of
      the text.) */
  lemma AfterHalts(text: string, k: int)
    requires 0 <= k <= |text| && HasLineBelow(text, k)
    ensures WalkHalts(text, k, After)
  {
    var l, p :| 0 <= k <= p < l < |text| && text[l] == '\n' && !IsWhitespace(text[p]);
    IndexOfCharFirst(text, '\n', k);
    var fuel := AfterReaches(text, k, FindBreak(text, After, k), l, p);
  }

  /** Where the After walk stops when there is such a line below: at the
      first line break after the insertion point with something other than
      whitespace between the two. */
  lemma AfterLanding(text: string, k: int, fuel: nat)
    requires 0 <= k <= |text| && HasLineBelow(text, k)
    requires Walk(text, k, After, FindBreak(text, After, k), fuel).Stopped?
    ensures var m := Walk(text, k, After, FindBreak(text, After, k), fuel).lb;
      && k <= m < |text| && text[m] == '\n' && !BlankRange(text, k, m)
      && forall j :: k <= j < m && text[j] == '\n' ==> BlankRange(text, k, j)
  {
    var l, p :| 0 <= k <= p < l < |text| && text[l] == '\n' && !IsWhitespace(text[p]);
    IndexOfCharFirst(text, '\n', k);
    AfterLandingFrom(text, k, FindBreak(text, After, k), l, p, fuel);
  }

  /** In After mode on "</head>\n" the walk from the insertion point 7
      finds the line break at 7 (blank span), then none (-1, whose span
      `slice(-1, 7)` is empty), wraps around to 7 again, and so on. */
  lemma {:induction false} AfterHeadCycle(fuel: nat)
    ensures Walk("</head>\n", 7, After, 7, fuel).OutOfFuel?
    ensures Walk("</head>\n", 7, After, -1, fuel).OutOfFuel?
    decreases fuel
  {
    var text := "</head>\n";
    assert BlankSpan(text, 7, 7) && BlankSpan(text, -1, 7);
    assert FindBreak(text, After, 8) == -1;
    assert FindBreak(text, After, 0) == 7;
    if fuel > 0 {
      AfterHeadCycle(fuel - 1);
    }
  }

  /** `stringInsertion("</head>\n", "</head>", value, After)` never returns. */
  lemma AfterHeadDiverges()
    ensures !Terminates("</head>\n", "</head>", After)
  {
    var text, find := "</head>\n", "</head>";
    assert OccursAt(text, find, 0);
    assert Edge(text, find, After) == 7;
    assert FindBreak(text, After, 7) == 7;
    forall fuel: nat ensures Walk(text, 7, After, 7, fuel).OutOfFuel? {
      AfterHeadCycle(fuel);
    }
  }

  /** A marker whose second character is in neither the text before it
      nor its own first place is first found right after that text,
      whatever follows it. */
  lemma FirstAfterPrefix(pre: string, find: string, rest: string)
    requires 2 <= |find| && find[1] !in pre && find[0] != find[1]
    ensures IndexOf(pre + find + rest, find) == |pre|
  {
    var text := pre + find + rest;
    assert text[|pre|..|pre| + |find|] == find;
    assert OccursAt(text, find, |pre|);
    forall j | 0 <= j < |pre| ensures !OccursAt(text, find, j) {
      assert text[j..j + |find|][1] == text[j + 1];
      if j + 1 < |pre| {
        assert text[j + 1] == pre[j + 1];
      } else {
        assert text[j + 1] == find[0];
      }
    }
  }

  /** The text of the Before example below: `</head>` sits at 11. */
  lemma IndentedHeadMarker()
    ensures IndexOf("  <head>\n  </head>", "</head>") == 11
  {
    FirstAfterPrefix("  <head>\n  ", "</head>", "");
    assert "  <head>\n  " + "</head>" + "" == "  <head>\n  </head>";
  }

  /** In the same text, the only line break before position 11 is at 8,
      and only spaces follow it. */
  lemma IndentedHeadNoLineAbove()
    ensures !HasLineAbove("  <head>\n  </head>", 11)
  {
    var text := "  <head>\n  </head>";
    assert LastIndexOfChar(text, '\n', 7) == -1;
    LastIndexOfCharLast(text, '\n', 7);
    assert text[9] == ' ' && text[10] == ' ';
  }

  /** In Before mode, an indented `</head>` whose only line above is
      `  <head>` without a line break before it never returns: the walk
      steps from the line break at 8 to -1 and stays there. */
  lemma BeforeIndentedHeadDiverges()
    ensures !Terminates("  <head>\n  </head>", "</head>", Before)
  {
    IndentedHeadMarker();
    IndentedHeadNoLineAbove();
    BeforeHaltsIff("  <head>\n  </head>", 11);
  }

  /** `lastIndexOf('\n', from)` is `q` when `q` holds the last line break
      up to `from`. */
  lemma LastBreakIs(s: string, from: int, q: int)
    requires 0 <= q <= from < |s| && s[q] == '\n'
    requires forall j :: q < j <= from ==> s[j] != '\n'
    ensures LastIndexOfChar(s, '\n', from) == q
  {
    LastIndexOfCharLast(s, '\n', from);
    LastIndexOfCharAtLeast(s, '\n', from, q);
  }

  /** The html example below: `</head>` sits at 18. */
  lemma HeadLineMarker(t: string)
    requires t == "<html>\n  <head>\n  " + "</head>\n</html>"
    ensures IndexOf(t, "</head>") == 18
  {
    FirstAfterPrefix("<html>\n  <head>\n  ", "</head>", "\n</html>");
    assert t == "<html>\n  <head>\n  " + "</head>" + "\n</html>";
  }

  /** Its first line break before the marker is at 15, followed only by
      spaces. */
  lemma HeadLineFirstBreak(t: string)
    requires t == "<html>\n  <head>\n  " + "</head>\n</html>"
    ensures FindBreak(t, Before, 18) == 15 && BlankSpan(t, 15, 18)
  {
    assert t[15] == '\n' && t[16] == ' ' && t[17] == ' ' && t[18] == '<';
    LastBreakIs(t, 18, 15);
  }

  /** The line break above it is at 6, and `<head>` lies between it and the
      marker. */
  lemma HeadLineSecondBreak(t: string)
    requires t == "<html>\n  <head>\n  " + "</head>\n</html>"
    ensures FindBreak(t, Before, 14) == 6 && !BlankSpan(t, 6, 18)
  {
    assert t[6] == '\n' && t[9] == '<';
    assert forall j :: 6 < j <= 14 ==> t[j] != '\n';
    LastBreakIs(t, 14, 6);
  }

  /** The line after that break is indented by two spaces. */
  lemma HeadLineIndent(t: string)
    requires t == "<html>\n  <head>\n  " + "</head>\n</html>"
    ensures IndentRun(t, 7) == 2
  {
    assert t[7] == ' ' && t[8] == ' ' && t[9] == '<';
    assert IndentRun(t, 9) == 0;
    assert IndentRun(t, 8) == 1;
  }

  /** The walk on the html example steps over the blank span after the
      line break at 15 and stops at the line break at 6. */
  lemma HeadLineWalk(t: string)
    requires t == "<html>\n  <head>\n  " + "</head>\n</html>"
    ensures IndexOf(t, "</head>") == 18
    ensures Walk(t, 18, Before, FindBreak(t, Before, 18), 1) == Stopped(6)
    ensures BlankSpan(t, FindBreak(t, Before, 18), 18)
    ensures IndentRun(t, 7) == 2
  {
    HeadLineMarker(t);
    HeadLineFirstBreak(t);
    HeadLineSecondBreak(t);
    HeadLineIndent(t);
    WalkSteps(t, 18, Before, 15, 0);
    WalkStops(t, 18, Before, 6, 0);
  }

  /** The pieces of the html example's result: the text before the marker,
      the two copied spaces, the value and a line break, then the rest. */
  lemma HeadLineAssemble(t: string)
    requires t == "<html>\n  <head>\n  " + "</head>\n</html>"
    ensures Assemble(t, 18, "<s/>", Before, true, 7, 2)
      == "<html>\n  <head>\n  " + ("  " + "<s/>" + "\n") + "</head>\n</html>"
  {
    var pre, post := "<html>\n  <head>\n  ", "</head>\n</html>";
    assert |pre| == 18;
    assert Slice(t, 0, 18) == pre && Slice(t, 18, |t|) == post && Slice(t, 7, 9) == "  ";
    assert Segment(t, "<s/>", Before, true, 7, 2) == "  " + "<s/>" + "\n";
  }

  /** The expected result of the html example, cut at the insertion point. */
  lemma HeadLineResult()
    ensures "<html>\n  <head>\n    <s/>\n</head>\n</html>"
      == "<html>\n  <head>\n  " + ("  " + "<s/>" + "\n") + "</head>\n</html>"
  {
  }

  /** Before mode copies the indentation of the line above but leaves the
      marker line's own indentation in front of the inserted line: in an
      indented `<head>` block the value gets both, and `</head>` moves to
      the start of its line. */
  lemma BeforeMovesIndent(t: string, r: string)
    requires t == "<html>\n  <head>\n  </head>\n</html>"
    requires r == "<html>\n  <head>\n    <s/>\n</head>\n</html>"
    ensures Insertion(t, "</head>", "<s/>", Before, 1) == Some(r)
  {
    assert t == "<html>\n  <head>\n  " + "</head>\n</html>";
    HeadLineWalk(t);
    assert LineStart(t, Before, 6) == 7;
    assert Edge(t, "</head>", Before) == 18;
    assert Inserted(t, 18, "<s/>", Before, 1) == Some(Assemble(t, 18, "<s/>", Before, true, 7, 2));
    HeadLineAssemble(t);
    HeadLineResult();
    assert Insertion(t, "</head>", "<s/>", Before, 1) == Inserted(t, 18, "<s/>", Before, 1);
  }

  /** The line break a stopping walk from the insertion point ends at. */
  ghost function Landing(text: string, k: int, mode: InsertionMode): (r: int)
    requires WalkHalts(text, k, mode)
    ensures IsBreak(text, r)
    ensures forall fuel: nat :: Walk(text, k, mode, FindBreak(text, mode, k), fuel).Stopped? ==>
      Walk(text, k, mode, FindBreak(text, mode, k), fuel) == Stopped(r)
  {
    var fuel: nat :| Walk(text, k, mode, FindBreak(text, mode, k), fuel).Stopped?;
    WalkUnique(text, k, mode, FindBreak(text, mode, k), fuel);
    Walk(text, k, mode, FindBreak(text, mode, k), fuel).lb
  }

  /** The text a terminating Before/After insertion returns is the splice
      at the landing. */
  lemma SplicedIsAssembled(text: string, find: string, value: string, mode: InsertionMode)
    requires IndexOf(text, find) >= 0 && mode != Replace && Terminates(text, find, mode)
    ensures var k := Edge(text, find, mode);
      var ran := WalkRuns(text, k, mode);
      var s := LineStart(text, mode, Landing(text, k, mode));
      Spliced(text, find, value, mode) == Assemble(text, k, value, mode, ran, s, if ran then IndentRun(text, s) else 0)
  {
    var k := Edge(text, find, mode);
    var fuel: nat :| Walk(text, k, mode, FindBreak(text, mode, k), fuel).Stopped?;
    assert Insertion(text, find, value, mode, fuel).Some?;
  }

  /** The inserted segment with the indentation found at line start `s`
      when the walk ran, and none otherwise: the value alone when the walk
      did not run; else the value with the indentation on one side and a
      line break on the other, the line break after it in Before mode and
      before it in After mode. */
  lemma SegmentParts(text: string, value: string, mode: InsertionMode, ran: bool, s: int)
    requires mode != Replace && 0 <= s <= |text|
    ensures var n := if ran then IndentRun(text, s) else 0;
      var seg := Segment(text, value, mode, ran, s, n);
      && s + n <= |text|
      && |seg| == |value| + n + (if ran then 1 else 0)
      && (!ran ==> seg == value)
      && (ran && mode == Before ==> seg == text[s..s + n] + value + "\n")
      && (ran && mode == After ==> seg == "\n" + text[s..s + n] + value)
      && (forall t :: s <= t < s + n ==> IsIndentChar(text[t]))
      && (ran ==> s + n == |text| || !IsIndentChar(text[s + n]))
  {
    if ran {
      SegmentAfterWalk(text, value, mode, s);
    } else {
      assert Slice(text, s, s + 0) == [];
    }
  }

  /** The result of a Before/After insertion: the text up to the insertion
      point, the inserted segment (see `SegmentParts`) built with the
      indentation of the line the walk landed on, and the text from the
      insertion point on. */
  lemma SplicedShape(text: string, find: string, value: string, mode: InsertionMode)
    requires IndexOf(text, find) >= 0 && mode != Replace && Terminates(text, find, mode)
    ensures var k := Edge(text, find, mode);
      var ran := WalkRuns(text, k, mode);
      var s := LineStart(text, mode, Landing(text, k, mode));
      var seg := Segment(text, value, mode, ran, s, if ran then IndentRun(text, s) else 0);
      var r := Spliced(text, find, value, mode);
      && 0 <= k <= |text|
      && r == text[..k] + seg + text[k..]
      && |r| == |text| + |seg|
  {
    var k := Edge(text, find, mode);
    MarkerInText(text, find);
    SplicedIsAssembled(text, find, value, mode);
    var ran := WalkRuns(text, k, mode);
    var s := LineStart(text, mode, Landing(text, k, mode));
    AssembleShape(text, k, value, mode, ran, s, if ran then IndentRun(text, s) else 0);
  }

  /** In Before mode, when a line break precedes the marker and the text
      between the last one and the marker is not blank, the walk does not
      run and the value goes in right before the marker. */
  lemma BeforeInline(text: string, find: string, value: string)
    requires IndexOf(text, find) >= 0
    requires LastIndexOfChar(text, '\n', IndexOf(text, find)) >= 0
    requires !BlankRange(text, LastIndexOfChar(text, '\n', IndexOf(text, find)), IndexOf(text, find))
    ensures Terminates(text, find, Before)
    ensures var i := IndexOf(text, find); Spliced(text, find, value, Before) == text[..i] + value + text[i..]
  {
    var i := IndexOf(text, find);
    MarkerInText(text, find);
    assert Walk(text, i, Before, FindBreak(text, Before, i), 0).Stopped?;
    InlineWhenNoWalk(text, i, value, Before, 0);
  }
}
