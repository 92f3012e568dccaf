/** The JavaScript string built-ins the movie-link route relies on, with the
    semantics of the ECMAScript language specification: `indexOf` and `lastIndexOf`
    answer -1 when the pattern is absent, `substring` clamps its arguments to the
    string and swaps them when the start lies after the end, and `slice` counts a
    negative start from the end.

    A JavaScript string is a sequence of UTF-16 code units, while a Dafny `char` is a
    Unicode scalar value. Here one `char` is one string position: the two agree on text
    inside the Basic Multilingual Plane, which is all the markers and offsets below
    are written in. */
module JsString {
  import opened Ints

  /** `pat` occurs in `s` starting at position `i`. */
  predicate OccursAt(s: string, pat: string, i: int) {
    0 <= i && i + |pat| <= |s| && s[i..i + |pat|] == pat
  }

  /** `c` occurs at `k` and nowhere after it. */
  predicate IsLastOf(s: string, c: char, k: int) {
    0 <= k < |s| && s[k] == c && c !in s[k + 1..]
  }

  /** First occurrence of `pat` at a position `from` or later, or -1. */
  function IndexOfFrom(s: string, pat: string, from: nat): (r: int)
    ensures r == -1 || (from <= r && OccursAt(s, pat, r))
    ensures forall j :: from <= j && (r == -1 || j < r) ==> !OccursAt(s, pat, j)
    decreases |s| - from
  {
    if from + |pat| > |s| then -1
    else if s[from..from + |pat|] == pat then from
    else IndexOfFrom(s, pat, from + 1)
  }

  /** `s.indexOf(pat)`: the first position where `pat` occurs, or -1 if it never does. */
  function IndexOf(s: string, pat: string): (r: int)
    ensures r == -1 <==> forall j :: !OccursAt(s, pat, j)
    ensures r != -1 ==> OccursAt(s, pat, r) && forall j :: j < r ==> !OccursAt(s, pat, j)
  {
    IndexOfFrom(s, pat, 0)
  }

  /** Last occurrence of `pat` at a position below `below`, or -1. */
  function LastIndexOfBelow(s: string, pat: string, below: nat): (r: int)
    ensures r == -1 || (r < below && OccursAt(s, pat, r))
    ensures forall j :: r < j < below ==> !OccursAt(s, pat, j)
  {
    if below == 0 then -1
    else if OccursAt(s, pat, below - 1) then below - 1
    else LastIndexOfBelow(s, pat, below - 1)
  }

  /** `s.lastIndexOf(pat)`: the last position where `pat` occurs, or -1 if it never does. */
  function LastIndexOf(s: string, pat: string): (r: int)
    ensures r == -1 <==> forall j :: !OccursAt(s, pat, j)
    ensures r != -1 ==> OccursAt(s, pat, r) && forall j :: r < j ==> !OccursAt(s, pat, j)
  {
    LastIndexOfBelow(s, pat, |s| + 1)
  }

  /** `s.includes(pat)`. */
  predicate Includes(s: string, pat: string) {
    IndexOf(s, pat) != -1
  }

  /** A position argument of `substring`, clamped to the string's bounds. */
  function Clamp(i: int, len: nat): (r: nat)
    ensures r <= len
    ensures 0 <= i <= len ==> r == i
  {
    if i < 0 then 0 else if i > len then len else i
  }

  /** `s.substring(start, end)`: both positions are clamped to the string, and the piece
      runs from the smaller to the larger. */
  function Substring(s: string, start: int, end: int): (r: string)
    ensures |r| <= |s|
    ensures var a, b := Clamp(start, |s|), Clamp(end, |s|);
            && (a <= b ==> r == s[a..b])
            && (b < a ==> r == s[b..a])
  {
    var a, b := Clamp(start, |s|), Clamp(end, |s|);
    s[Min(a, b)..Max(a, b)]
  }

  /** `s.substring(start)`: the end defaults to the length of the string. */
  function SubstringFrom(s: string, start: int): (r: string)
    ensures start <= 0 ==> r == s
    ensures 0 <= start <= |s| ==> r == s[start..]
    ensures start >= |s| ==> r == []
  {
    Substring(s, start, |s|)
  }

  /** `s.slice(start)`: a negative start counts back from the end of the string. */
  function Slice(s: string, start: int): (r: string)
    ensures 0 <= start <= |s| ==> r == s[start..]
    ensures start >= |s| ==> r == []
  {
    var from := if start < 0 then Max(|s| + start, 0) else Min(start, |s|);
    s[from..]
  }

  /** On positions inside the string and in order, `substring` is Dafny's slice. */
  lemma SubstringInRange(s: string, start: int, end: int)
    requires 0 <= start <= end <= |s|
    ensures Substring(s, start, end) == s[start..end]
  {
  }

  /** `substring` does not care in which order its two positions are given. */
  lemma SubstringSymmetric(s: string, start: int, end: int)
    ensures Substring(s, start, end) == Substring(s, end, start)
  {
  }

  /** A negative position means the start of the string, and the end may run past the
      string's length. */
  lemma SubstringClampsNegative(s: string, start: int, end: int)
    requires start < 0
    ensures Substring(s, start, end) == Substring(s, 0, end)
    ensures Substring(s, end, start) == s[..Clamp(end, |s|)]
  {
  }

  /** An end past the string means the end of the string. */
  lemma SubstringClampsAbove(s: string, start: int, end: int)
    requires end >= |s|
    ensures Substring(s, start, end) == SubstringFrom(s, start)
  {
  }

  /** A character has at most one last occurrence. */
  lemma LastOfUnique(s: string, c: char, k: int, k': int)
    requires IsLastOf(s, c, k) && IsLastOf(s, c, k')
    ensures k == k'
  {
  }

  /** A one-character pattern occurs exactly where that character is. */
  lemma OccursAtChar(s: string, c: char, j: int)
    ensures OccursAt(s, [c], j) <==> 0 <= j < |s| && s[j] == c
  {
    if 0 <= j < |s| {
      assert s[j..j + 1] == [s[j]];
    }
  }

  /** For a one-character pattern, `indexOf` is -1 exactly when the character is absent,
      and otherwise the position of its first occurrence. */
  lemma IndexOfChar(s: string, c: char)
    ensures IndexOf(s, [c]) == -1 <==> c !in s
    ensures IndexOf(s, [c]) != -1 ==>
              0 <= IndexOf(s, [c]) < |s| && s[IndexOf(s, [c])] == c && c !in s[..IndexOf(s, [c])]
  {
    forall j ensures OccursAt(s, [c], j) <==> 0 <= j < |s| && s[j] == c {
      OccursAtChar(s, c, j);
    }
  }

  /** For a one-character pattern, `lastIndexOf` is -1 exactly when the character is
      absent, and otherwise the position of its last occurrence. */
  lemma LastIndexOfChar(s: string, c: char)
    ensures LastIndexOf(s, [c]) == -1 <==> c !in s
    ensures LastIndexOf(s, [c]) != -1 ==> IsLastOf(s, c, LastIndexOf(s, [c]))
  {
    forall j ensures OccursAt(s, [c], j) <==> 0 <= j < |s| && s[j] == c {
      OccursAtChar(s, c, j);
    }
  }
}
