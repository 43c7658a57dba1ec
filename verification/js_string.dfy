/** The two JavaScript string operations the secret scrubbing relies on:
    `String.prototype.indexOf` and `String.prototype.replace` called with a
    string (not a regular expression) as the pattern, which replaces the
    FIRST occurrence only. The replacement is taken literally: the `$`
    patterns `replace` would interpret do not occur in the model's only
    replacement text, `***`. */
module JsString {
  import opened Wrappers

  /** `pattern` occurs in `s` starting at index `i`. */
  predicate OccursAt(s: string, pattern: string, i: int)
  {
    0 <= i && i + |pattern| <= |s| && s[i..i + |pattern|] == pattern
  }

  /** `i` is the leftmost occurrence of `pattern` in `s`. */
  predicate FirstOccurrence(s: string, pattern: string, i: int)
  {
    OccursAt(s, pattern, i) && forall j :: 0 <= j < i ==> !OccursAt(s, pattern, j)
  }

  /** `s.indexOf(pattern, from)`, with `None` for JavaScript's -1. */
  function IndexOfFrom(s: string, pattern: string, from: nat): (r: Option<nat>)
    ensures r.Some? ==> from <= r.value && OccursAt(s, pattern, r.value)
    ensures r.Some? ==> forall j :: from <= j < r.value ==> !OccursAt(s, pattern, j)
    ensures r.None? ==> forall j :: from <= j ==> !OccursAt(s, pattern, j)
    decreases |s| - from
  {
    if |s| < from + |pattern| then None
    else if s[from..from + |pattern|] == pattern then Some(from)
    else IndexOfFrom(s, pattern, from + 1)
  }

  function IndexOf(s: string, pattern: string): (r: Option<nat>)
    ensures r.Some? ==> FirstOccurrence(s, pattern, r.value)
    ensures r.None? <==> forall j :: !OccursAt(s, pattern, j)
  {
    IndexOfFrom(s, pattern, 0)
  }

  /** `s.replace(pattern, replacement)` for a string pattern. */
  function ReplaceFirst(s: string, pattern: string, replacement: string): (r: string)
    ensures (forall j :: !OccursAt(s, pattern, j)) ==> r == s
    ensures forall i :: FirstOccurrence(s, pattern, i) ==>
      r == s[..i] + replacement + s[i + |pattern|..]
  {
    match IndexOf(s, pattern)
    case None => s
    case Some(i) => s[..i] + replacement + s[i + |pattern|..]
  }

  /** An occurrence of `pattern` that lies after the first one, without
      overlapping it, is still present after the replacement, shifted by the
      difference in length. */
  lemma ReplaceFirstKeepsLaterOccurrence(s: string, pattern: string, replacement: string, i: int, j: int)
    requires FirstOccurrence(s, pattern, i) && OccursAt(s, pattern, j) && i + |pattern| <= j
    ensures OccursAt(ReplaceFirst(s, pattern, replacement), pattern, j - |pattern| + |replacement|)
  {
    assert ReplaceFirst(s, pattern, replacement) == s[..i] + replacement + s[i + |pattern|..];
    WindowKept(s, pattern, replacement, i, j);
  }

  lemma WindowKept(s: string, pattern: string, replacement: string, i: int, j: int)
    requires OccursAt(s, pattern, i) && OccursAt(s, pattern, j) && i + |pattern| <= j
    ensures OccursAt(s[..i] + replacement + s[i + |pattern|..], pattern, j - |pattern| + |replacement|)
  {
    var n, w := |pattern|, |replacement|;
    var after := s[i + n..];
    SpliceAfter(s[..i], replacement, after, j - n + w, n);
    assert after[j - i - n..j - i] == s[j..j + n];
  }

  /** When `pattern` occurs exactly once, is not empty, and shares no
      character with a non-empty replacement, the replacement removes every
      trace of it: no occurrence is left and none is created at the seams. */
  lemma ReplaceFirstRemovesSoleOccurrence(s: string, pattern: string, replacement: string, i: int)
    requires OccursAt(s, pattern, i) && forall j :: OccursAt(s, pattern, j) ==> j == i
    requires |pattern| > 0 && |replacement| > 0
    requires forall m :: 0 <= m < |replacement| ==> replacement[m] !in pattern
    ensures forall k :: !OccursAt(ReplaceFirst(s, pattern, replacement), pattern, k)
  {
    forall k
      ensures !OccursAt(ReplaceFirst(s, pattern, replacement), pattern, k)
    {
      NoOccurrenceAt(s, pattern, replacement, i, k);
    }
  }

  lemma NoOccurrenceAt(s: string, pattern: string, replacement: string, i: int, k: int)
    requires OccursAt(s, pattern, i) && forall j :: OccursAt(s, pattern, j) ==> j == i
    requires |pattern| > 0 && |replacement| > 0
    requires forall m :: 0 <= m < |replacement| ==> replacement[m] !in pattern
    ensures !OccursAt(ReplaceFirst(s, pattern, replacement), pattern, k)
  {
    var r := ReplaceFirst(s, pattern, replacement);
    var n, w := |pattern|, |replacement|;
    assert FirstOccurrence(s, pattern, i);
    assert r == s[..i] + replacement + s[i + n..];
    if OccursAt(r, pattern, k) {
      if k + n <= i {
        WindowBefore(s, pattern, replacement, i, k);
      } else if i + w <= k {
        WindowAfter(s, pattern, replacement, i, k);
      } else {
        WindowAcross(s, pattern, replacement, i, k);
      }
    }
  }

  lemma WindowBefore(s: string, pattern: string, replacement: string, i: int, k: int)
    requires OccursAt(s, pattern, i) && 0 <= k && k + |pattern| <= i
    ensures OccursAt(s[..i] + replacement + s[i + |pattern|..], pattern, k) ==> OccursAt(s, pattern, k)
  {
    SpliceBefore(s[..i], replacement, s[i + |pattern|..], k, |pattern|);
    assert s[..i][k..k + |pattern|] == s[k..k + |pattern|];
  }

  lemma WindowAfter(s: string, pattern: string, replacement: string, i: int, k: int)
    requires OccursAt(s, pattern, i) && i + |replacement| <= k
    ensures OccursAt(s[..i] + replacement + s[i + |pattern|..], pattern, k)
      ==> OccursAt(s, pattern, k - |replacement| + |pattern|)
  {
    var n, w := |pattern|, |replacement|;
    var after := s[i + n..];
    if k + n <= i + w + |after| {
      SpliceAfter(s[..i], replacement, after, k, n);
      var k' := k - w + n;
      assert after[k - i - w..k - i - w + n] == s[k'..k' + n];
    }
  }

  lemma WindowAcross(s: string, pattern: string, replacement: string, i: int, k: int)
    requires OccursAt(s, pattern, i) && |pattern| > 0 && |replacement| > 0
    requires 0 <= k < i + |replacement| && i < k + |pattern|
    requires forall m :: 0 <= m < |replacement| ==> replacement[m] !in pattern
    ensures !OccursAt(s[..i] + replacement + s[i + |pattern|..], pattern, k)
  {
    var r := s[..i] + replacement + s[i + |pattern|..];
    if k + |pattern| <= |r| {
      var m := if k < i then i else k;
      SpliceMiddle(s[..i], replacement, s[i + |pattern|..], m - i);
      assert r[k..k + |pattern|][m - k] == replacement[m - i];
      assert r[k..k + |pattern|][m - k] !in pattern;
    }
  }

  lemma SpliceBefore(before: string, middle: string, after: string, k: int, n: int)
    requires 0 <= k && 0 <= n && k + n <= |before|
    ensures (before + middle + after)[k..k + n] == before[k..k + n]
  {
  }

  lemma SpliceAfter(before: string, middle: string, after: string, k: int, n: int)
    requires |before| + |middle| <= k && 0 <= n && k + n <= |before| + |middle| + |after|
    ensures (before + middle + after)[k..k + n] == after[k - |before| - |middle|..k - |before| - |middle| + n]
  {
  }

  lemma SpliceMiddle(before: string, middle: string, after: string, m: int)
    requires 0 <= m < |middle|
    ensures (before + middle + after)[|before| + m] == middle[m]
  {
  }
}
