/** The string built-ins the prefix helpers rely on: `startswith`, substring
    search, Python's `str.split(sep[, maxsplit])`, JavaScript's
    `String.prototype.split(sep)` and `Array.prototype.join(sep)`.

    Both languages split on a non-empty separator the same way: scan left to
    right, cut at the first occurrence, resume right after it. Empty
    separators never occur in the modelled code, so they are excluded.
 */
module Strings {
  import opened Wrappers

  predicate StartsWith(s: string, p: string) {
    |p| <= |s| && s[..|p|] == p
  }

  /** `p` occurs in `s` starting at index `i`. */
  predicate OccursAt(s: string, p: string, i: nat) {
    i + |p| <= |s| && s[i..i + |p|] == p
  }

  /** Python's `p in s`, JavaScript's `s.includes(p)`. */
  predicate Contains(s: string, p: string) {
    exists i: nat | i <= |s| :: OccursAt(s, p, i)
  }

  /** The first occurrence of `p` in `s` at or after `from`. */
  function IndexFrom(s: string, p: string, from: nat): (r: Option<nat>)
    decreases |s| - from
    ensures r.Some? ==> from <= r.value && OccursAt(s, p, r.value)
    ensures r.Some? ==> forall j: nat :: from <= j < r.value ==> !OccursAt(s, p, j)
    ensures r.None? ==> forall j: nat :: from <= j ==> !OccursAt(s, p, j)
  {
    if from + |p| > |s| then None
    else if OccursAt(s, p, from) then Some(from)
    else IndexFrom(s, p, from + 1)
  }

  /** Python's `s.find(p)`, JavaScript's `s.indexOf(p)`, with None for -1. */
  function IndexOf(s: string, p: string): (r: Option<nat>)
    ensures r.Some? ==> OccursAt(s, p, r.value) && forall j: nat :: j < r.value ==> !OccursAt(s, p, j)
    ensures r.None? <==> !Contains(s, p)
  {
    IndexFrom(s, p, 0)
  }

  /** `s.split(sep)` in both Python and JavaScript. */
  function Split(s: string, sep: string): (parts: seq<string>)
    requires |sep| > 0
    ensures |parts| > 0
    decreases |s|
  {
    match IndexOf(s, sep)
    case None => [s]
    case Some(i) => [s[..i]] + Split(s[i + |sep|..], sep)
  }

  /** Python's `s.split(sep, maxsplit=n)`: at most `n` cuts. */
  function SplitMax(s: string, sep: string, maxsplit: nat): (parts: seq<string>)
    requires |sep| > 0
    decreases maxsplit
  {
    if maxsplit == 0 then [s]
    else
      match IndexOf(s, sep)
      case None => [s]
      case Some(i) => [s[..i]] + SplitMax(s[i + |sep|..], sep, maxsplit - 1)
  }

  /** JavaScript's `parts.join(sep)`; the empty array joins to "". */
  function Join(parts: seq<string>, sep: string): string
  {
    if |parts| == 0 then ""
    else if |parts| == 1 then parts[0]
    else parts[0] + sep + Join(parts[1..], sep)
  }

  /** Splitting and joining back with the same separator gives the input:
      no character is lost or invented by a split. */
  lemma {:induction false} JoinSplit(s: string, sep: string)
    requires |sep| > 0
    ensures Join(Split(s, sep), sep) == s
    decreases |s|
  {
    match IndexOf(s, sep)
    case None =>
    case Some(i) =>
      var rest := s[i + |sep|..];
      JoinSplit(rest, sep);
      assert Split(rest, sep) != [];
      assert s == s[..i] + sep + rest;
  }

  /** No piece of a split contains the separator. */
  lemma {:induction false} SplitPiecesFree(s: string, sep: string)
    requires |sep| > 0
    ensures forall k :: 0 <= k < |Split(s, sep)| ==> !Contains(Split(s, sep)[k], sep)
    decreases |s|
  {
    match IndexOf(s, sep)
    case None =>
    case Some(i) =>
      var rest := s[i + |sep|..];
      SplitPiecesFree(rest, sep);
      PrefixBeforeFirstIsFree(s, sep, i);
  }

  /** The text before the first occurrence of `sep` does not contain `sep`. */
  lemma PrefixBeforeFirstIsFree(s: string, sep: string, i: nat)
    requires |sep| > 0 && i <= |s|
    requires forall j: nat :: j < i ==> !OccursAt(s, sep, j)
    ensures !Contains(s[..i], sep)
  {
    forall j: nat | OccursAt(s[..i], sep, j)
      ensures false
    {
      assert s[..i][j..j + |sep|] == s[j..j + |sep|];
      assert OccursAt(s, sep, j);
    }
  }

  /** A split yields a single piece exactly when the separator is absent. */
  lemma SplitSingleIffAbsent(s: string, sep: string)
    requires |sep| > 0
    ensures |Split(s, sep)| == 1 <==> !Contains(s, sep)
  {
    var r := IndexOf(s, sep);
    if r.Some? {
      var rest := Split(s[r.value + |sep|..], sep);
      assert Split(s, sep) == [s[..r.value]] + rest;
    }
  }

  /** A string that starts with `sep` splits into "" followed by the split of
      what comes after it. */
  lemma SplitLeading(rest: string, sep: string)
    requires |sep| > 0
    ensures Split(sep + rest, sep) == [""] + Split(rest, sep)
    ensures SplitMax(sep + rest, sep, 2) == [""] + SplitMax(rest, sep, 1)
  {
    var s := sep + rest;
    assert OccursAt(s, sep, 0);
    assert IndexOf(s, sep) == Some(0);
    assert s[|sep|..] == rest;
  }

  /** A single-character separator is first found right after a prefix that
      does not contain it. */
  lemma SplitAfterFreePrefix(w: string, c: char, rest: string)
    requires !Contains(w, [c])
    ensures Split(w + [c] + rest, [c]) == [w] + Split(rest, [c])
    ensures SplitMax(w + [c] + rest, [c], 1) == [w, rest]
  {
    var s := w + [c] + rest;
    assert OccursAt(s, [c], |w|);
    forall j: nat | j < |w|
      ensures !OccursAt(s, [c], j)
    {
      assert !OccursAt(w, [c], j);
      assert s[j..j + 1] == w[j..j + 1];
    }
    assert IndexOf(s, [c]) == Some(|w|);
    assert s[..|w|] == w;
    assert s[|w| + 1..] == rest;
  }

  /** The last piece of a split is the part of the input after the last cut:
      it is the suffix of the input from some index `k`, it does not contain
      the separator, and when there was a cut the separator ends at `k`. */
  lemma SplitLastPiece(s: string, sep: string) returns (k: nat)
    requires |sep| > 0
    ensures k <= |s| && Last(Split(s, sep)) == s[k..]
    ensures !Contains(s[k..], sep)
    ensures |Split(s, sep)| > 1 ==> |sep| <= k && OccursAt(s, sep, k - |sep|)
  {
    SplitPiecesFree(s, sep);
    k := SplitLastStart(s, sep);
  }

  lemma {:induction false} SplitLastStart(s: string, sep: string) returns (k: nat)
    requires |sep| > 0
    ensures k <= |s| && Last(Split(s, sep)) == s[k..]
    ensures |Split(s, sep)| == 1 ==> k == 0
    ensures |Split(s, sep)| > 1 ==> |sep| <= k && OccursAt(s, sep, k - |sep|)
    decreases |s|
  {
    var r := IndexOf(s, sep);
    if r.None? {
      k := 0;
    } else {
      var i := r.value;
      var rest := s[i + |sep|..];
      var k' := SplitLastStart(rest, sep);
      SplitCut(s, sep, i);
      k := LastPieceStep(s, sep, i, Split(rest, sep), k');
    }
  }

  /** The step of `SplitLastStart`: a cut at `i` in front of pieces whose
      last one starts at `k'` of the rest. */
  lemma LastPieceStep(s: string, sep: string, i: nat, parts: seq<string>, k': nat) returns (k: nat)
    requires OccursAt(s, sep, i) && |parts| > 0
    requires k' <= |s| - i - |sep| && Last(parts) == s[i + |sep|..][k'..]
    requires |parts| == 1 ==> k' == 0
    requires |parts| > 1 ==> |sep| <= k' && OccursAt(s[i + |sep|..], sep, k' - |sep|)
    ensures k <= |s| && Last([s[..i]] + parts) == s[k..]
    ensures |sep| <= k && OccursAt(s, sep, k - |sep|)
  {
    k := i + |sep| + k';
    LastAfter(s[..i], parts);
    SuffixOfSuffix(s, i + |sep|, k');
    if |parts| > 1 {
      OccursInSuffix(s, i + |sep|, sep, k' - |sep|);
    }
  }

  /** A suffix of a suffix. */
  lemma SuffixOfSuffix(s: string, a: nat, b: nat)
    requires a + b <= |s|
    ensures s[a..][b..] == s[a + b..]
  {
  }

  /** One cut of a split. */
  lemma SplitCut(s: string, sep: string, i: nat)
    requires |sep| > 0 && IndexOf(s, sep) == Some(i)
    ensures Split(s, sep) == [s[..i]] + Split(s[i + |sep|..], sep)
  {
  }

  /** The last of a sequence with one more element in front. */
  lemma LastAfter<T>(x: T, p: seq<T>)
    requires |p| > 0
    ensures Last([x] + p) == Last(p)
  {
  }

  /** An occurrence in a suffix is an occurrence in the whole string. */
  lemma OccursInSuffix(s: string, off: nat, p: string, a: nat)
    requires off <= |s| && OccursAt(s[off..], p, a)
    ensures OccursAt(s, p, off + a)
  {
    assert s[off..][a..a + |p|] == s[off + a..off + a + |p|];
  }

  /** A string none of whose characters is `c` does not contain `[c]`. */
  lemma CharFreeNotContained(s: string, c: char)
    requires forall k :: 0 <= k < |s| ==> s[k] != c
    ensures !Contains(s, [c])
  {
    forall j: nat | j <= |s|
      ensures !OccursAt(s, [c], j)
    {
      if j + 1 <= |s| {
        assert s[j..j + 1][0] == s[j];
      }
    }
  }

  /** A separator-free string is its own last piece. */
  lemma SplitFreeIsSingle(s: string, sep: string)
    requires |sep| > 0
    requires !Contains(s, sep)
    ensures Split(s, sep) == [s]
  {
  }
}
