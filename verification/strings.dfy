/**
 The handful of Python `str` operations the transcriber's text helpers rely on,
 over `string` (a sequence of Unicode scalar values):

 - `pat in s`          is `Contains(s, pat)`
 - `s.find(pat)`       is `IndexOf(s, pat)` (`None` where Python returns -1)
 - `s.split(sep)`      is `Split(s, sep)` for a non-empty separator
 - `s.strip()`         is `Strip(s)`, with Python's notion of whitespace
 */
module Strings {

  datatype Option<T> = None | Some(value: T)

  /** Python's `str.isspace` for a single character: the characters
      `str.strip()` removes when it is called without arguments. */
  predicate IsSpace(c: char) {
    var n := c as int;
    || 0x09 <= n <= 0x0D
    || 0x1C <= n <= 0x20
    || n == 0x85
    || n == 0xA0
    || n == 0x1680
    || 0x2000 <= n <= 0x200A
    || n == 0x2028
    || n == 0x2029
    || n == 0x202F
    || n == 0x205F
    || n == 0x3000
  }

  /** `pat` occurs in `s` starting at position `i`. */
  predicate OccursAt(s: string, pat: string, i: int) {
    0 <= i && i + |pat| <= |s| && s[i..i + |pat|] == pat
  }

  /** Python's `pat in s`. */
  predicate Contains(s: string, pat: string) {
    exists i | 0 <= i <= |s| - |pat| :: OccursAt(s, pat, i)
  }

  /** `i` is the position of the leftmost occurrence of `pat` in `s`. */
  ghost predicate FirstOccurrence(s: string, pat: string, i: int) {
    OccursAt(s, pat, i) && forall j :: 0 <= j < i ==> !OccursAt(s, pat, j)
  }

  /** Leftmost occurrence of `pat` in `s` at or after `from`. */
  function FindFrom(s: string, pat: string, from: nat): (r: Option<nat>)
    requires from <= |s|
    ensures r.Some? ==> from <= r.value && OccursAt(s, pat, r.value)
    ensures r.Some? ==> forall j :: from <= j < r.value ==> !OccursAt(s, pat, j)
    ensures r.None? ==> forall j :: from <= j ==> !OccursAt(s, pat, j)
    decreases |s| - from
  {
    if OccursAt(s, pat, from) then Some(from)
    else if from == |s| then None
    else FindFrom(s, pat, from + 1)
  }

  /** Python's `s.find(pat)`: the leftmost occurrence, or `None` (Python's -1). */
  function IndexOf(s: string, pat: string): (r: Option<nat>)
    ensures r.Some? <==> Contains(s, pat)
    ensures r.Some? ==> FirstOccurrence(s, pat, r.value)
    ensures r.None? ==> forall j :: !OccursAt(s, pat, j)
  {
    FindFrom(s, pat, 0)
  }

  /** The leftmost occurrence is unique, so `IndexOf` finds exactly it. */
  lemma FirstOccurrenceUnique(s: string, pat: string, i: int)
    requires FirstOccurrence(s, pat, i)
    ensures IndexOf(s, pat) == Some(i)
  {
    assert Contains(s, pat);
  }

  /** An occurrence inside a slice is an occurrence in the whole string. */
  lemma OccursInSlice(s: string, pat: string, lo: int, hi: int, j: int)
    requires 0 <= lo <= hi <= |s|
    requires OccursAt(s[lo..hi], pat, j)
    ensures OccursAt(s, pat, lo + j)
  {
    forall k | 0 <= k < |pat|
      ensures s[lo + j..lo + j + |pat|][k] == pat[k]
    {
      assert s[lo..hi][j..j + |pat|][k] == pat[k];
    }
  }

  /** Occurrence is transitive: a piece of a piece of `c` is a piece of `c`. */
  lemma OccursTrans(c: string, b: string, a: string, j: int, i: int)
    requires OccursAt(c, b, j)
    requires OccursAt(b, a, i)
    ensures OccursAt(c, a, j + i)
  {
    assert b == c[j..j + |b|];
    OccursInSlice(c, a, j, j + |b|, i);
  }

  /** A piece of a string that lacks `pat` lacks `pat` too. */
  lemma NotContainsInfix(s: string, t: string, a: int, pat: string)
    requires OccursAt(s, t, a)
    requires !Contains(s, pat)
    ensures !Contains(t, pat)
  {
    if Contains(t, pat) {
      var j :| 0 <= j <= |t| - |pat| && OccursAt(t, pat, j);
      OccursTrans(s, t, pat, a, j);
    }
  }

  /** The text before the leftmost occurrence of `pat` does not contain `pat`. */
  lemma NotContainsBeforeFirst(s: string, pat: string, i: int)
    requires |pat| > 0
    requires FirstOccurrence(s, pat, i)
    ensures !Contains(s[..i], pat)
  {
    if Contains(s[..i], pat) {
      var j :| 0 <= j <= i - |pat| && OccursAt(s[..i], pat, j);
      OccursInSlice(s, pat, 0, i, j);
    }
  }

  /** Inverse of `Split`: the parts glued back together with `sep`. */
  function Join(parts: seq<string>, sep: string): string
  {
    if |parts| == 0 then ""
    else if |parts| == 1 then parts[0]
    else parts[0] + sep + Join(parts[1..], sep)
  }

  /** Python's `s.split(sep)` for a non-empty separator: the maximal pieces
      between the non-overlapping occurrences of `sep`, found left to right. */
  function Split(s: string, sep: string): (parts: seq<string>)
    requires |sep| > 0
    ensures |parts| >= 1
    ensures Join(parts, sep) == s
    ensures forall k :: 0 <= k < |parts| ==> !Contains(parts[k], sep)
    ensures |parts| == 1 <==> !Contains(s, sep)
    ensures FirstOccurrence(s, sep, |parts[0]|) || (parts[0] == s && !Contains(s, sep))
    ensures parts[0] == s[..|parts[0]|]
    decreases |s|
  {
    match IndexOf(s, sep)
    case None => [s]
    case Some(i) =>
      var rest := Split(s[i + |sep|..], sep);
      SplitStep(s, sep, i, rest);
      [s[..i]] + rest
  }

  /** The piece before the first separator, put in front of the pieces of
      the text after it, splits the whole text. */
  lemma SplitStep(s: string, sep: string, i: int, rest: seq<string>)
    requires |sep| > 0
    requires FirstOccurrence(s, sep, i)
    requires |rest| >= 1 && Join(rest, sep) == s[i + |sep|..]
    requires forall k :: 0 <= k < |rest| ==> !Contains(rest[k], sep)
    ensures Join([s[..i]] + rest, sep) == s
    ensures forall k :: 0 <= k < |rest| + 1 ==> !Contains(([s[..i]] + rest)[k], sep)
  {
    SplitStepJoin(s, sep, i, rest);
    SplitStepParts(s, sep, i, rest);
  }

  lemma SplitStepJoin(s: string, sep: string, i: int, rest: seq<string>)
    requires OccursAt(s, sep, i)
    requires |rest| >= 1 && Join(rest, sep) == s[i + |sep|..]
    ensures Join([s[..i]] + rest, sep) == s
  {
    assert ([s[..i]] + rest)[1..] == rest;
    assert s == s[..i] + sep + s[i + |sep|..];
  }

  lemma SplitStepParts(s: string, sep: string, i: int, rest: seq<string>)
    requires |sep| > 0
    requires FirstOccurrence(s, sep, i)
    requires forall k :: 0 <= k < |rest| ==> !Contains(rest[k], sep)
    ensures forall k :: 0 <= k < |rest| + 1 ==> !Contains(([s[..i]] + rest)[k], sep)
  {
    NotContainsBeforeFirst(s, sep, i);
    var parts := [s[..i]] + rest;
    forall k | 0 <= k < |parts|
      ensures !Contains(parts[k], sep)
    {
      if k > 0 {
        assert parts[k] == rest[k - 1];
      }
    }
  }

  /** Joining splits off the last part from the others. */
  lemma {:induction false} JoinLast(parts: seq<string>, sep: string)
    requires |parts| >= 2
    ensures Join(parts, sep) == Join(parts[..|parts| - 1], sep) + sep + parts[|parts| - 1]
    decreases |parts|
  {
    if |parts| == 2 {
      assert parts[..1] == [parts[0]];
    } else {
      var n := |parts|;
      JoinLast(parts[1..], sep);
      assert parts[1..][..n - 2] == parts[..n - 1][1..];
      assert parts[1..][n - 2] == parts[n - 1];
    }
  }

  /** The text `Join` puts before the part that follows `parts`. */
  function JoinLead(parts: seq<string>, sep: string): string {
    if |parts| == 0 then "" else Join(parts, sep) + sep
  }

  /** The last two parts of a join, with what comes before them. */
  lemma JoinLastTwo(parts: seq<string>, sep: string)
    requires |parts| >= 2
    ensures var n := |parts|;
            Join(parts, sep) == JoinLead(parts[..n - 2], sep) + parts[n - 2] + sep + parts[n - 1]
  {
    var n := |parts|;
    JoinLast(parts, sep);
    var front := parts[..n - 1];
    if n > 2 {
      JoinLast(front, sep);
      assert front[..n - 2] == parts[..n - 2];
    } else {
      assert Join(front, sep) == parts[0];
    }
  }

  /** How many whitespace characters `s` starts with. */
  function LeadingSpace(s: string): (n: nat)
    ensures n <= |s|
    ensures forall k :: 0 <= k < n ==> IsSpace(s[k])
    ensures n == |s| || !IsSpace(s[n])
    decreases |s|
  {
    if |s| > 0 && IsSpace(s[0]) then 1 + LeadingSpace(s[1..]) else 0
  }

  /** Where the whitespace that `s` ends with begins. */
  function TrailingStart(s: string): (n: nat)
    ensures n <= |s|
    ensures forall k :: n <= k < |s| ==> IsSpace(s[k])
    ensures n == 0 || !IsSpace(s[n - 1])
    decreases |s|
  {
    if |s| > 0 && IsSpace(s[|s| - 1]) then TrailingStart(s[..|s| - 1]) else |s|
  }

  /** Python's `s.strip()`: the piece of `s` left once the whitespace at
      both ends is gone. */
  function Strip(s: string): (r: string)
    ensures OccursAt(s, r, LeadingSpace(s))
    ensures forall k :: 0 <= k < LeadingSpace(s) ==> IsSpace(s[k])
    ensures forall k :: LeadingSpace(s) + |r| <= k < |s| ==> IsSpace(s[k])
    ensures r == [] || (!IsSpace(r[0]) && !IsSpace(r[|r| - 1]))
  {
    var a := LeadingSpace(s);
    var t := s[a..];
    var r := t[..TrailingStart(t)];
    StripPlacement(s, a, t, r);
    r
  }

  lemma StripPlacement(s: string, a: nat, t: string, r: string)
    requires a == LeadingSpace(s) && t == s[a..] && r == t[..TrailingStart(t)]
    ensures OccursAt(s, r, a)
    ensures forall k :: a + |r| <= k < |s| ==> IsSpace(s[k])
    ensures r == [] || (!IsSpace(r[0]) && !IsSpace(r[|r| - 1]))
  {
    StripInside(s, a, t, TrailingStart(t));
    StripTail(s, a, t, TrailingStart(t));
    StripEdges(s, a, t, r);
  }

  lemma StripInside(s: string, a: nat, t: string, b: nat)
    requires a <= |s| && t == s[a..] && b <= |t|
    ensures OccursAt(s, t[..b], a)
  {
    assert s[a..a + b] == t[..b];
  }

  lemma StripTail(s: string, a: nat, t: string, b: nat)
    requires a <= |s| && t == s[a..] && b <= |t|
    requires forall k :: b <= k < |t| ==> IsSpace(t[k])
    ensures forall k :: a + b <= k < |s| ==> IsSpace(s[k])
  {
    forall k | a + b <= k < |s|
      ensures IsSpace(s[k])
    {
      assert s[k] == t[k - a];
    }
  }

  lemma StripEdges(s: string, a: nat, t: string, r: string)
    requires a == LeadingSpace(s) && t == s[a..] && r == t[..TrailingStart(t)]
    ensures r == [] || (!IsSpace(r[0]) && !IsSpace(r[|r| - 1]))
  {
    if r != [] {
      assert r[0] == t[0] == s[a];
      assert r[|r| - 1] == t[|r| - 1];
    }
  }

  /** A string without whitespace at its ends is left as it is. */
  lemma StripKeepsTrimmed(s: string)
    requires s == [] || (!IsSpace(s[0]) && !IsSpace(s[|s| - 1]))
    ensures Strip(s) == s
  {
    assert LeadingSpace(s) == 0;
    assert s[0..] == s;
  }

  /** A pattern whose first character never appears does not occur. */
  lemma NotContainsFirstChar(s: string, pat: string)
    requires |pat| > 0
    requires pat[0] !in s
    ensures !Contains(s, pat)
  {
    forall j | 0 <= j <= |s| - |pat|
      ensures !OccursAt(s, pat, j)
    {
      assert s[j] != pat[0];
    }
  }

  /** Stripping a second time changes nothing. */
  lemma StripIdempotent(s: string)
    ensures Strip(Strip(s)) == Strip(s)
  {
    StripKeepsTrimmed(Strip(s));
  }
}
