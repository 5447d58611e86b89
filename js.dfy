/** The JavaScript string built-ins the build scripts rely on, with the
    semantics of the ECMAScript specification: `indexOf` and `lastIndexOf`
    return -1 on a miss and clamp their start position, `slice` counts
    negative bounds from the end, `trim` strips WhiteSpace and
    LineTerminator characters, `split`/`join` on a one-character separator,
    and `replace` with a string pattern replaces the first occurrence only. */
module Js {

  /** A character `String.prototype.trim` removes: ECMAScript WhiteSpace
      (tab, vertical tab, form feed, space, no-break space, the other
      characters of the Unicode Zs category, and the byte order mark) and
      LineTerminator (LF, CR, LS, PS). */
  predicate IsWhitespace(c: char) {
    || ('\t' <= c <= '\r')
    || c == ' '
    || c == '\U{00A0}'
    || c == '\U{1680}'
    || ('\U{2000}' <= c <= '\U{200A}')
    || c == '\U{2028}'
    || c == '\U{2029}'
    || c == '\U{202F}'
    || c == '\U{205F}'
    || c == '\U{3000}'
    || c == '\U{FEFF}'
  }

  /** Every character of `s` is whitespace. */
  predicate IsBlank(s: string) {
    forall j :: 0 <= j < |s| ==> IsWhitespace(s[j])
  }

  /** Every character of `s` at a position in `[lo, hi)` is whitespace. */
  predicate BlankRange(s: string, lo: int, hi: int) {
    forall j :: lo <= j < hi && 0 <= j < |s| ==> IsWhitespace(s[j])
  }

  /** Leading whitespace removed. */
  function TrimStart(s: string): string {
    if s != [] && IsWhitespace(s[0]) then TrimStart(s[1..]) else s
  }

  /** Trailing whitespace removed. */
  function TrimEnd(s: string): string {
    if s != [] && IsWhitespace(s[|s| - 1]) then TrimEnd(s[..|s| - 1]) else s
  }

  /** `s.trim()` */
  function Trim(s: string): string {
    TrimEnd(TrimStart(s))
  }

  /** `TrimStart` drops leading whitespace only, and stops at the first
      other character. */
  lemma {:induction false} TrimStartEmptyIffBlank(s: string)
    ensures TrimStart(s) == [] <==> IsBlank(s)
  {
    if s != [] && IsWhitespace(s[0]) {
      TrimStartEmptyIffBlank(s[1..]);
      if IsBlank(s[1..]) {
        forall j | 0 <= j < |s| ensures IsWhitespace(s[j]) {
          if j > 0 { assert s[j] == s[1..][j - 1]; }
        }
      }
    }
  }

  /** `TrimEnd` of a string is empty exactly when the string is blank. */
  lemma {:induction false} TrimEndEmptyIffBlank(s: string)
    ensures TrimEnd(s) == [] <==> IsBlank(s)
  {
    if s != [] && IsWhitespace(s[|s| - 1]) {
      TrimEndEmptyIffBlank(s[..|s| - 1]);
      if IsBlank(s[..|s| - 1]) {
        forall j | 0 <= j < |s| ensures IsWhitespace(s[j]) {
          if j < |s| - 1 { assert s[j] == s[..|s| - 1][j]; }
        }
      }
    }
  }

  /** `TrimStart` of a string that is not blank is not blank either. */
  lemma {:induction false} TrimStartKeepsNonBlank(s: string)
    requires !IsBlank(s)
    ensures !IsBlank(TrimStart(s))
  {
    if s != [] && IsWhitespace(s[0]) {
      var j :| 0 <= j < |s| && !IsWhitespace(s[j]);
      assert s[1..][j - 1] == s[j];
      TrimStartKeepsNonBlank(s[1..]);
    }
  }

  /** `s.trim() === ''` holds exactly when `s` consists of whitespace only. */
  lemma TrimEmptyIffBlank(s: string)
    ensures Trim(s) == [] <==> IsBlank(s)
  {
    TrimStartEmptyIffBlank(s);
    TrimEndEmptyIffBlank(TrimStart(s));
    if !IsBlank(s) {
      TrimStartKeepsNonBlank(s);
    }
  }

  /** The ECMAScript clamping of a start position to `[lo, hi]`. */
  function Clamp(x: int, lo: int, hi: int): int
    requires lo <= hi
  {
    if x < lo then lo else if x > hi then hi else x
  }

  /** `s.indexOf(c, k)` once `k` has been clamped into `[0, |s|]`. */
  function IndexOfCharAt(s: string, c: char, k: nat): (r: int)
    requires k <= |s|
    ensures r == -1 || (k <= r < |s| && s[r] == c)
    decreases |s| - k
  {
    if k == |s| then -1 else if s[k] == c then k else IndexOfCharAt(s, c, k + 1)
  }

  /** `IndexOfCharAt` finds the first `c` from `k` on. */
  lemma {:induction false} IndexOfCharAtFirst(s: string, c: char, k: nat)
    requires k <= |s|
    ensures var r := IndexOfCharAt(s, c, k);
      forall j :: k <= j < (if r == -1 then |s| else r) ==> s[j] != c
    decreases |s| - k
  {
    if k < |s| && s[k] != c {
      IndexOfCharAtFirst(s, c, k + 1);
    }
  }

  /** `s.indexOf(c, from)` for a one-character search string: the first
      position at or after the clamped `from` holding `c`, or -1. */
  function IndexOfChar(s: string, c: char, from: int): (r: int)
    ensures r == -1 || (Clamp(from, 0, |s|) <= r < |s| && s[r] == c)
  {
    IndexOfCharAt(s, c, Clamp(from, 0, |s|))
  }

  /** No `c` lies between the clamped `from` and what `indexOf` returns. */
  lemma IndexOfCharFirst(s: string, c: char, from: int)
    ensures var r := IndexOfChar(s, c, from);
      forall j :: Clamp(from, 0, |s|) <= j < (if r == -1 then |s| else r) ==> s[j] != c
  {
    IndexOfCharAtFirst(s, c, Clamp(from, 0, |s|));
  }

  /** `s.lastIndexOf(c, k)` once `k` has been clamped into `[-1, |s| - 1]`. */
  function LastIndexOfCharAt(s: string, c: char, k: int): (r: int)
    requires -1 <= k < |s|
    ensures -1 <= r <= k
    ensures r == -1 || s[r] == c
    decreases k + 1
  {
    if k < 0 then -1 else if s[k] == c then k else LastIndexOfCharAt(s, c, k - 1)
  }

  /** `LastIndexOfCharAt` finds the last `c` up to `k`. */
  lemma {:induction false} LastIndexOfCharAtLast(s: string, c: char, k: int)
    requires -1 <= k < |s|
    ensures forall j :: LastIndexOfCharAt(s, c, k) < j <= k ==> s[j] != c
    decreases k + 1
  {
    if k >= 0 && s[k] != c {
      LastIndexOfCharAtLast(s, c, k - 1);
    }
  }

  /** The top position `lastIndexOf` looks at: `from` clamped to `[0, |s| - 1]`
      (or -1 on an empty string, where nothing is looked at). */
  function LastTop(s: string, from: int): int {
    if |s| == 0 then -1 else Clamp(from, 0, |s| - 1)
  }

  /** `s.lastIndexOf(c, from)` for a one-character search string: the last
      position at or before the clamped `from` holding `c`, or -1. A negative
      `from` is clamped to 0, so position 0 is still looked at. */
  function LastIndexOfChar(s: string, c: char, from: int): (r: int)
    ensures -1 <= r <= LastTop(s, from)
    ensures r == -1 || s[r] == c
  {
    LastIndexOfCharAt(s, c, LastTop(s, from))
  }

  /** No `c` lies between what `lastIndexOf` returns and the clamped `from`. */
  lemma LastIndexOfCharLast(s: string, c: char, from: int)
    ensures forall j :: LastIndexOfChar(s, c, from) < j <= LastTop(s, from) ==> s[j] != c
  {
    LastIndexOfCharAtLast(s, c, LastTop(s, from));
  }

  /** A `c` at or before the clamped `from` bounds what `lastIndexOf`
      returns from below. */
  lemma LastIndexOfCharAtLeast(s: string, c: char, from: int, j: int)
    requires 0 <= j <= LastTop(s, from) && s[j] == c
    ensures j <= LastIndexOfChar(s, c, from)
  {
    LastIndexOfCharLast(s, c, from);
  }

  /** `sub` occurs in `s` at position `i`. */
  predicate OccursAt(s: string, sub: string, i: int) {
    0 <= i && i + |sub| <= |s| && s[i..i + |sub|] == sub
  }

  /** First occurrence of `sub` at or after `k`. */
  function IndexOfFrom(s: string, sub: string, k: nat): (r: int)
    requires k <= |s| + 1
    ensures r == -1 || (k <= r && OccursAt(s, sub, r))
    ensures forall j :: k <= j && (r == -1 || j < r) ==> !OccursAt(s, sub, j)
    decreases |s| + 1 - k
  {
    if k + |sub| > |s| then -1
    else if s[k..k + |sub|] == sub then k
    else IndexOfFrom(s, sub, k + 1)
  }

  /** `s.indexOf(sub)`: the first position where `sub` occurs, or -1. */
  function IndexOf(s: string, sub: string): (r: int)
    ensures r == -1 || OccursAt(s, sub, r)
    ensures forall j :: 0 <= j && (r == -1 || j < r) ==> !OccursAt(s, sub, j)
  {
    IndexOfFrom(s, sub, 0)
  }

  /** How `slice` turns a bound into a position: negative bounds count from
      the end, every bound is clamped into `[0, len]`. */
  function SliceBound(len: nat, x: int): (r: nat)
    ensures r <= len
    ensures 0 <= x <= len ==> r == x
  {
    if x < 0 then (if len + x < 0 then 0 else len + x) else if x > len then len else x
  }

  /** `s.slice(a, b)` */
  function Slice(s: string, a: int, b: int): (r: string)
    ensures 0 <= a <= b <= |s| ==> r == s[a..b]
    ensures 0 <= b <= a ==> r == []
  {
    if 0 <= a <= b <= |s| then s[a..b]
    else
      var f, t := SliceBound(|s|, a), SliceBound(|s|, b);
      if f < t then s[f..t] else []
  }

  /** `s.slice(a, b)` is blank exactly when the characters between the
      two normalised bounds are. */
  lemma SliceBlank(s: string, a: int, b: int)
    ensures IsBlank(Slice(s, a, b)) <==> BlankRange(s, SliceBound(|s|, a), SliceBound(|s|, b))
  {
    var f, t := SliceBound(|s|, a), SliceBound(|s|, b);
    if f < t {
      var r := Slice(s, a, b);
      assert r == s[f..t];
      if IsBlank(r) {
        forall j | f <= j < t && 0 <= j < |s| ensures IsWhitespace(s[j]) {
          assert s[j] == r[j - f];
        }
      }
    }
  }

  /** `s.endsWith(suffix)` */
  predicate EndsWith(s: string, suffix: string) {
    |suffix| <= |s| && s[|s| - |suffix|..] == suffix
  }

  /** The number of occurrences of `c` in `s`. */
  function Count(s: string, c: char): nat {
    if s == [] then 0 else (if s[0] == c then 1 else 0) + Count(s[1..], c)
  }

  /** `s.split(c)` for a one-character separator: the pieces between the
      separators, always at least one. */
  function Split(s: string, c: char): (r: seq<string>)
    ensures |r| >= 1
    ensures forall k :: 0 <= k < |r| ==> c !in r[k]
    decreases |s|
  {
    var i := IndexOfChar(s, c, 0);
    IndexOfCharFirst(s, c, 0);
    if i == -1 then [s] else [s[..i]] + Split(s[i + 1..], c)
  }

  /** `xs.join(sep)` */
  function Join(xs: seq<string>, sep: string): string {
    if xs == [] then [] else if |xs| == 1 then xs[0] else xs[0] + sep + Join(xs[1..], sep)
  }

  /** `split` has one more piece than the string has separators. */
  lemma {:induction false} SplitLength(s: string, c: char)
    ensures |Split(s, c)| == Count(s, c) + 1
    decreases |s|
  {
    var i := IndexOfChar(s, c, 0);
    IndexOfCharFirst(s, c, 0);
    if i == -1 {
      CountAbsent(s, c);
    } else {
      SplitLength(s[i + 1..], c);
      CountFirst(s, c, i);
    }
  }

  /** Up to and including its first `c`, a string holds one `c`. */
  lemma CountFirst(s: string, c: char, i: int)
    requires 0 <= i < |s| && s[i] == c
    requires forall j :: 0 <= j < i ==> s[j] != c
    ensures Count(s, c) == 1 + Count(s[i + 1..], c)
  {
    CountAbsent(s[..i], c);
    CountAppend(s[..i], s[i..], c);
    assert s == s[..i] + s[i..];
    assert s[i..][1..] == s[i + 1..];
  }

  /** Splitting and joining again with the same separator gives back `s`. */
  lemma {:induction false} JoinSplit(s: string, c: char)
    ensures Join(Split(s, c), [c]) == s
    decreases |s|
  {
    var i := IndexOfChar(s, c, 0);
    if i != -1 {
      JoinSplit(s[i + 1..], c);
      assert s == s[..i] + [c] + s[i + 1..];
    }
  }

  lemma {:induction false} CountAbsent(s: string, c: char)
    requires forall j :: 0 <= j < |s| ==> s[j] != c
    ensures Count(s, c) == 0
  {
    if s != [] {
      CountAbsent(s[1..], c);
    }
  }

  lemma {:induction false} CountAppend(a: string, b: string, c: char)
    ensures Count(a + b, c) == Count(a, c) + Count(b, c)
  {
    if a != [] {
      CountAppend(a[1..], b, c);
      assert (a + b)[0] == a[0];
      assert (a + b)[1..] == a[1..] + b;
    } else {
      assert a + b == b;
    }
  }

  /** `s.replace(pat, rep)` with a string pattern: the first occurrence of
      `pat`, wherever it is, replaced by `rep` (ECMAScript `$` patterns in
      `rep` are not interpreted). An empty `pat` occurs at 0, so `rep` is
      prepended. */
  function ReplaceFirst(s: string, pat: string, rep: string): (r: string)
    ensures IndexOf(s, pat) == -1 ==> r == s
    ensures IndexOf(s, pat) >= 0 ==>
      var i := IndexOf(s, pat);
      r == s[..i] + rep + s[i + |pat|..] && |r| == |s| - |pat| + |rep|
  {
    var i := IndexOf(s, pat);
    if i < 0 then s else s[..i] + rep + s[i + |pat|..]
  }
}
