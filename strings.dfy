/** The two string operations of Foundation the app relies on: token replacement and trimming. */
module Strings {

  /** `pat` occurs in `s` at position `i`. */
  predicate OccursAt(s: string, pat: string, i: nat) {
    i + |pat| <= |s| && s[i..i + |pat|] == pat
  }

  /**
   * `replacingOccurrences(of: pat, with: rep)`: every occurrence of `pat`, scanned from the
   * left and not overlapping, is replaced by `rep`.
   */
  function ReplaceAll(s: string, pat: string, rep: string): string
    requires pat != []
    decreases |s|
  {
    if |s| < |pat| then s
    else if s[..|pat|] == pat then rep + ReplaceAll(s[|pat|..], pat, rep)
    else [s[0]] + ReplaceAll(s[1..], pat, rep)
  }

  /** Occurrences that do not start in the first `n + 1` positions do not start in the first `n` after dropping one character. */
  lemma NoOccurrenceAfterFirst(s: string, pat: string, n: nat)
    requires n < |s|
    requires forall i :: 0 <= i <= n ==> !OccursAt(s, pat, i)
    ensures forall i :: 0 <= i < n ==> !OccursAt(s[1..], pat, i)
  {
    forall i | 0 <= i < n
      ensures !OccursAt(s[1..], pat, i)
    {
      assert !OccursAt(s, pat, i + 1);
      if i + |pat| <= |s[1..]| {
        assert s[1..][i..i + |pat|] == s[i + 1..i + 1 + |pat|];
      }
    }
  }

  /** A string without the pattern is left as it is. */
  lemma {:induction false} ReplaceAbsent(s: string, pat: string, rep: string)
    requires pat != []
    requires forall i :: 0 <= i < |s| ==> !OccursAt(s, pat, i)
    ensures ReplaceAll(s, pat, rep) == s
    decreases |s|
  {
    if |pat| <= |s| {
      assert !OccursAt(s, pat, 0);
      NoOccurrenceAfterFirst(s, pat, |s| - 1);
      ReplaceAbsent(s[1..], pat, rep);
    }
  }

  /** Where the pattern does not start, one character is copied and the scan moves on. */
  lemma ReplaceCopiesOne(s: string, pat: string, rep: string)
    requires pat != [] && s != [] && !OccursAt(s, pat, 0)
    ensures ReplaceAll(s, pat, rep) == [s[0]] + ReplaceAll(s[1..], pat, rep)
  {
  }

  /** An occurrence at the start is replaced and the scan goes on after it. */
  lemma ReplaceAtStart(pat: string, b: string, rep: string)
    requires pat != []
    ensures ReplaceAll(pat + b, pat, rep) == rep + ReplaceAll(b, pat, rep)
  {
    assert (pat + b)[..|pat|] == pat && (pat + b)[|pat|..] == b;
  }

  /** Text before the first occurrence is kept, the occurrence replaced, and the scan goes on after it. */
  lemma {:induction false} ReplaceFirst(a: string, pat: string, b: string, rep: string)
    requires pat != []
    requires forall i :: 0 <= i < |a| ==> !OccursAt(a + pat + b, pat, i)
    ensures ReplaceAll(a + pat + b, pat, rep) == a + rep + ReplaceAll(b, pat, rep)
    decreases |a|
  {
    var s := a + pat + b;
    if a == [] {
      assert s == pat + b;
      ReplaceAtStart(pat, b, rep);
    } else {
      var t := a[1..];
      assert !OccursAt(s, pat, 0);
      ReplaceCopiesOne(s, pat, rep);
      assert s[1..] == t + pat + b;
      NoOccurrenceAfterFirst(s, pat, |a| - 1);
      ReplaceFirst(t, pat, b, rep);
      assert ReplaceAll(s, pat, rep) == [a[0]] + (t + rep + ReplaceAll(b, pat, rep));
      assert [a[0]] + t == a;
    }
  }

  /** Text in which no occurrence starts is copied, and the scan goes on after it. */
  lemma {:induction false} ReplaceSkip(a: string, b: string, pat: string, rep: string)
    requires pat != []
    requires forall i :: 0 <= i < |a| ==> !OccursAt(a + b, pat, i)
    ensures ReplaceAll(a + b, pat, rep) == a + ReplaceAll(b, pat, rep)
    decreases |a|
  {
    var s := a + b;
    if a == [] {
      assert s == b;
    } else {
      var t := a[1..];
      assert !OccursAt(s, pat, 0);
      ReplaceCopiesOne(s, pat, rep);
      assert s[1..] == t + b;
      NoOccurrenceAfterFirst(s, pat, |a| - 1);
      ReplaceSkip(t, b, pat, rep);
      assert ReplaceAll(s, pat, rep) == [a[0]] + (t + ReplaceAll(b, pat, rep));
      assert [a[0]] + t == a;
    }
  }

  /** `trimmingCharacters(in:)` for one character, at the front. */
  function TrimStart(s: string, c: char): (r: string)
    ensures |r| <= |s| && r == s[|s| - |r|..]
    ensures forall i :: 0 <= i < |s| - |r| ==> s[i] == c
    ensures r == [] || r[0] != c
    decreases |s|
  {
    if s != [] && s[0] == c then TrimStart(s[1..], c) else s
  }

  /** `trimmingCharacters(in:)` for one character, at the back. */
  function TrimEnd(s: string, c: char): (r: string)
    ensures |r| <= |s| && r == s[..|r|]
    ensures forall i :: |r| <= i < |s| ==> s[i] == c
    ensures r == [] || r[|r| - 1] != c
    decreases |s|
  {
    if s != [] && s[|s| - 1] == c then TrimEnd(s[..|s| - 1], c) else s
  }

  /**
   * `trimmingCharacters(in: [c])`: `c` stripped from both ends. The result is a contiguous
   * part of `s`, everything cut away is `c`, and it neither starts nor ends with `c`.
   */
  function Trim(s: string, c: char): (r: string)
    ensures var k := |s| - |TrimStart(s, c)|;
      k + |r| <= |s| && s[k..k + |r|] == r &&
      (forall j :: 0 <= j < k ==> s[j] == c) && (forall j :: k + |r| <= j < |s| ==> s[j] == c)
    ensures r == [] || (r[0] != c && r[|r| - 1] != c)
  {
    var front := TrimStart(s, c);
    var r := TrimEnd(front, c);
    var i := |s| - |front|;
    assert s[i..i + |r|] == r;
    r
  }
}
