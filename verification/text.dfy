/** The handful of Python `str` operations the search script relies on:
    `startswith`, `strip()`, `split(sep)`, `sep.join(parts)` and `replace(a, b)`
    for one-character arguments. */
module Text {

  import opened Wrappers

  /** `s.startswith(prefix)`. */
  function StartsWith(s: string, prefix: string): (b: bool)
    ensures b <==> |prefix| <= |s| && forall i :: 0 <= i < |prefix| ==> s[i] == prefix[i]
  {
    |prefix| <= |s| && s[..|prefix|] == prefix
  }

  /** The characters for which Python's `str.isspace()` holds: exactly the
      characters `str.strip()` without arguments removes. */
  predicate IsSpace(c: char) {
    || ('\t' <= c <= '\r')
    || ('\U{1C}' <= c <= '\U{1F}')
    || c == ' '
    || c == '\U{85}'
    || c == '\U{A0}'
    || c == '\U{1680}'
    || ('\U{2000}' <= c <= '\U{200A}')
    || c == '\U{2028}'
    || c == '\U{2029}'
    || c == '\U{202F}'
    || c == '\U{205F}'
    || c == '\U{3000}'
  }

  /** The whole of `s` is whitespace outside the slice `s[a..b]`. */
  predicate SpaceOutside(s: string, a: int, b: int) {
    && 0 <= a <= b <= |s|
    && (forall i :: 0 <= i < a ==> IsSpace(s[i]))
    && (forall i :: b <= i < |s| ==> IsSpace(s[i]))
  }

  /** No whitespace at either end. */
  predicate Trimmed(s: string) {
    s == [] || (!IsSpace(s[0]) && !IsSpace(s[|s| - 1]))
  }

  /** Where `lstrip` cuts: the first index at or after `i` that does not hold
      whitespace, or the end of `s`. */
  function SkipSpace(s: string, i: nat): (j: nat)
    requires i <= |s|
    ensures i <= j <= |s|
    ensures forall k :: i <= k < j ==> IsSpace(s[k])
    ensures j == |s| || !IsSpace(s[j])
    decreases |s| - i
  {
    if i < |s| && IsSpace(s[i]) then SkipSpace(s, i + 1) else i
  }

  /** Where `rstrip` cuts, searching back from `j` no further than `lo`: just
      after the last index below `j` that does not hold whitespace. */
  function BackSpace(s: string, lo: nat, j: nat): (k: nat)
    requires lo <= j <= |s|
    ensures lo <= k <= j
    ensures forall m :: k <= m < j ==> IsSpace(s[m])
    ensures k == lo || !IsSpace(s[k - 1])
    decreases j
  {
    if j > lo && IsSpace(s[j - 1]) then BackSpace(s, lo, j - 1) else j
  }

  /** `s.strip()`: the slice of `s` left once the whitespace at both ends is
      removed. */
  function Strip(s: string): (r: string)
    ensures exists a, b :: SpaceOutside(s, a, b) && r == s[a..b]
    ensures Trimmed(r)
  {
    var a := SkipSpace(s, 0);
    var b := BackSpace(s, a, |s|);
    assert SpaceOutside(s, a, b);
    s[a..b]
  }

  /** Strip removes no more than the surrounding whitespace: any slice with
      only whitespace around it and none at its ends is the stripped string. */
  lemma StripUnique(s: string, a: int, b: int)
    requires SpaceOutside(s, a, b)
    requires Trimmed(s[a..b])
    ensures Strip(s) == s[a..b]
  {
  }

  /** Stripping twice is stripping once. */
  lemma StripIdempotent(s: string)
    ensures Strip(Strip(s)) == Strip(s)
  {
  }

  /** `sep` occurs in `s` starting at index `i`. */
  predicate OccursAt(s: string, sep: string, i: int) {
    0 <= i && i + |sep| <= |s| && s[i..i + |sep|] == sep
  }

  /** The scan `s.split(sep)` makes for the next separator: the first occurrence of `sep` at or after `from`. */
  function FindFrom(s: string, sep: string, from: nat): (r: Option<nat>)
    decreases |s| - from
    ensures r.Some? ==> from <= r.value && OccursAt(s, sep, r.value)
    ensures r.Some? ==> forall i :: from <= i < r.value ==> !OccursAt(s, sep, i)
    ensures r.None? ==> forall i :: from <= i ==> !OccursAt(s, sep, i)
  {
    if from + |sep| > |s| then None
    else if s[from..from + |sep|] == sep then Some(from)
    else FindFrom(s, sep, from + 1)
  }

  /** The scan `s.split(sep)` makes for the next separator, from the start. */
  function Find(s: string, sep: string): Option<nat> {
    FindFrom(s, sep, 0)
  }

  /** `s.split(sep)` for a non-empty separator: the pieces between successive
      non-overlapping occurrences of `sep`, scanning left to right. */
  function Split(s: string, sep: string): (parts: seq<string>)
    requires |sep| > 0
    ensures |parts| >= 1
    ensures Join(parts, sep) == s
    decreases |s|
  {
    match Find(s, sep)
    case None => [s]
    case Some(i) =>
      var rest := Split(s[i + |sep|..], sep);
      JoinStep(s[..i], sep, rest);
      assert s == s[..i] + sep + s[i + |sep|..];
      [s[..i]] + rest
  }

  /** `sep.join(parts)`: the pieces in order with one separator between
      neighbours, so the result starts with the first piece. */
  function Join(parts: seq<string>, sep: string): (r: string)
    ensures |parts| == 0 ==> r == ""
    ensures |parts| >= 1 ==> |parts[0]| <= |r| && r[..|parts[0]|] == parts[0]
  {
    if |parts| == 0 then ""
    else if |parts| == 1 then parts[0]
    else parts[0] + sep + Join(parts[1..], sep)
  }

  /** One step of a split: the piece before the first separator, then the
      split of what follows it. */
  lemma SplitStep(s: string, sep: string, i: nat)
    requires |sep| > 0 && Find(s, sep) == Some(i)
    ensures Split(s, sep) == [s[..i]] + Split(s[i + |sep|..], sep)
  {
  }

  lemma JoinStep(piece: string, sep: string, rest: seq<string>)
    requires |rest| >= 1
    ensures Join([piece] + rest, sep) == piece + sep + Join(rest, sep)
  {
  }

  /** No piece of a split contains the separator. */
  lemma {:induction false} SplitPiecesFree(s: string, sep: string)
    requires |sep| > 0
    ensures forall k, i :: 0 <= k < |Split(s, sep)| ==> !OccursAt(Split(s, sep)[k], sep, i)
    decreases |s|
  {
    var parts := Split(s, sep);
    match Find(s, sep)
    case None =>
    case Some(i) =>
      var rest := s[i + |sep|..];
      SplitPiecesFree(rest, sep);
      forall k, j | 0 <= k < |parts| ensures !OccursAt(parts[k], sep, j) {
        if k == 0 {
          if 0 <= j && j + |sep| <= i {
            assert !OccursAt(s, sep, j);
            assert s[..i][j..j + |sep|] == s[j..j + |sep|];
          }
        } else {
          assert parts[k] == Split(rest, sep)[k - 1];
        }
      }
  }

  /** `s.replace(target, replacement)` for one-character `target` and `replacement`. */
  function ReplaceChar(s: string, target: char, replacement: char): (r: string)
    ensures |r| == |s|
    ensures forall i :: 0 <= i < |s| ==> r[i] == (if s[i] == target then replacement else s[i])
  {
    if |s| == 0 then ""
    else [if s[0] == target then replacement else s[0]] + ReplaceChar(s[1..], target, replacement)
  }

  lemma ReplaceConcat(a: string, b: string, target: char, replacement: char)
    ensures ReplaceChar(a + b, target, replacement)
         == ReplaceChar(a, target, replacement) + ReplaceChar(b, target, replacement)
  {
  }

  /** A one-character separator occurs exactly where that character stands. */
  lemma OccursAtChar(s: string, c: char, i: int)
    requires 0 <= i < |s|
    ensures OccursAt(s, [c], i) <==> s[i] == c
  {
  }

  /** Splitting on a one-character separator and joining with another
      replaces every occurrence of the first character by the second. */
  lemma {:induction false} JoinSplitReplaces(s: string, target: char, replacement: char)
    ensures Join(Split(s, [target]), [replacement]) == ReplaceChar(s, target, replacement)
    decreases |s|
  {
    var sep := [target];
    match Find(s, sep)
    case None =>
      forall i | 0 <= i < |s| ensures s[i] != target {
        OccursAtChar(s, target, i);
      }
    case Some(i) =>
      var rest := s[i + 1..];
      JoinSplitReplaces(rest, target, replacement);
      SplitStep(s, sep, i);
      JoinStep(s[..i], [replacement], Split(rest, sep));
      forall j | 0 <= j < i ensures s[j] != target {
        OccursAtChar(s, target, j);
      }
      assert ReplaceChar(s[..i], target, replacement) == s[..i];
      OccursAtChar(s, target, i);
      assert ReplaceChar([s[i]], target, replacement) == [replacement];
      assert s == s[..i] + [s[i]] + rest;
      ReplaceConcat(s[..i], [s[i]], target, replacement);
      ReplaceConcat(s[..i] + [s[i]], rest, target, replacement);
  }
}
