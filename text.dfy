/** The few Python `str` and `os.path` operations the preparation script
    relies on, over `string` (`seq<char>`), with Python's semantics:
    `startswith`, the `in` test for substrings, slicing that clamps to the
    string's length, `str.replace` (every non-overlapping occurrence, scanned
    left to right) and `os.path.join` for two components. */
module PyText {

  function Min(a: int, b: int): int { if a <= b then a else b }

  /** `s.startswith(p)` */
  predicate StartsWith(s: string, p: string) {
    |p| <= |s| && s[..|p|] == p
  }

  /** `s` starts with `p` exactly when it is at least as long as `p` and
      agrees with it character by character. */
  lemma StartsWithPointwise(s: string, p: string)
    ensures StartsWith(s, p) <==> |p| <= |s| && forall k :: 0 <= k < |p| ==> s[k] == p[k]
  {
    if |p| <= |s| && forall k :: 0 <= k < |p| ==> s[k] == p[k] {
      assert s[..|p|] == p;
    }
  }

  /** `pat` occurs in `s` starting at index `i`. */
  predicate OccursAt(s: string, pat: string, i: int) {
    0 <= i && i + |pat| <= |s| && s[i..i + |pat|] == pat
  }

  /** `pat in s`, as the left-to-right search computes it: true exactly when
      `pat` occurs at some position of `s`. */
  function Contains(s: string, pat: string): (b: bool)
    ensures b <==> exists i :: OccursAt(s, pat, i)
    decreases |s|
  {
    if |s| < |pat| then false
    else if StartsWith(s, pat) then
      assert OccursAt(s, pat, 0);
      true
    else
      ContainsStep(s, pat);
      Contains(s[1..], pat)
  }

  /** Searching on from the second character misses only position 0. */
  lemma ContainsStep(s: string, pat: string)
    requires |s| > 0 && !OccursAt(s, pat, 0)
    ensures (exists i :: OccursAt(s, pat, i)) <==> exists i :: OccursAt(s[1..], pat, i)
  {
    if i :| OccursAt(s, pat, i) {
      OccursAtSuffix(s, pat, 1, i - 1);
      assert OccursAt(s[1..], pat, i - 1);
    }
    if i :| OccursAt(s[1..], pat, i) {
      OccursAtSuffix(s, pat, 1, i);
      assert OccursAt(s, pat, i + 1);
    }
  }

  /** `s[lo:hi]` for non-negative bounds: both bounds are clamped to `|s|`,
      and a slice whose start is not below its end is empty. */
  function Slice(s: string, lo: nat, hi: nat): (r: string)
    ensures |r| == if hi <= lo || |s| <= lo then 0 else Min(hi, |s|) - lo
    ensures forall k :: 0 <= k < |r| ==> r[k] == s[lo + k]
  {
    if |s| <= lo || hi <= lo then [] else s[lo..Min(hi, |s|)]
  }

  /** `s.replace(pat, rep)`: the scan looks for `pat` at the current position;
      on a match it emits `rep` and resumes just past the match, otherwise it
      emits one character and moves on by one. */
  function Replace(s: string, pat: string, rep: string): string
    requires pat != []
    decreases |s|
  {
    if |s| < |pat| then s
    else if s[..|pat|] == pat then rep + Replace(s[|pat|..], pat, rep)
    else [s[0]] + Replace(s[1..], pat, rep)
  }

  /** A replacement as long as the pattern keeps the length of the text. */
  lemma {:induction false} ReplaceLength(s: string, pat: string, rep: string)
    requires pat != []
    ensures |pat| == |rep| ==> |Replace(s, pat, rep)| == |s|
    decreases |s|
  {
    if |s| >= |pat| {
      if s[..|pat|] == pat {
        ReplaceLength(s[|pat|..], pat, rep);
      } else {
        ReplaceLength(s[1..], pat, rep);
      }
    }
  }

  /** A match at the front of the text: the scan emits `rep` and resumes
      right after the match. */
  lemma ReplaceMatchStep(pat: string, v: string, rep: string)
    requires pat != []
    ensures Replace(pat + v, pat, rep) == rep + Replace(v, pat, rep)
  {
    assert (pat + v)[..|pat|] == pat;
    assert (pat + v)[|pat|..] == v;
  }

  /** No match at the front of the text: the scan emits the first character
      and moves on by one. */
  lemma ReplaceSkipStep(s: string, pat: string, rep: string)
    requires pat != [] && |pat| <= |s| && s[..|pat|] != pat
    ensures Replace(s, pat, rep) == [s[0]] + Replace(s[1..], pat, rep)
  {
  }

  /** `os.path.join(a, b)`: an absolute `b` replaces `a`; otherwise a
      separator is inserted unless `a` is empty or already ends in one. */
  function Join(a: string, b: string): string {
    if StartsWith(b, "/") then b
    else if a == [] || a[|a| - 1] == '/' then a + b
    else a + "/" + b
  }

  /** What `os.path.join(a, b)` returns: an absolute `b` as it is;
      otherwise `a` followed by `b`, with exactly one separator between
      them when `a` is not empty. */
  lemma JoinShape(a: string, b: string)
    ensures StartsWith(b, "/") ==> Join(a, b) == b
    ensures !StartsWith(b, "/") ==>
      && StartsWith(Join(a, b), a)
      && |Join(a, b)| - |a| - |b| in {0, 1}
      && Join(a, b)[|Join(a, b)| - |b|..] == b
      && (a != [] ==> Join(a, b)[|Join(a, b)| - |b| - 1] == '/')
      && (a != [] && a[|a| - 1] == '/' ==> |Join(a, b)| == |a| + |b|)
  {
    if !StartsWith(b, "/") {
      var p := Join(a, b);
      assert p[..|a|] == a;
      assert p[|p| - |b|..] == b;
    }
  }

  /** Joining onto the same directory tells relative names apart. */
  lemma JoinInjective(a: string, b1: string, b2: string)
    requires '/' !in b1 && '/' !in b2
    requires Join(a, b1) == Join(a, b2)
    ensures b1 == b2
  {
    assert !StartsWith(b1, "/") by { if |b1| > 0 { assert b1[0] != '/'; } }
    assert !StartsWith(b2, "/") by { if |b2| > 0 { assert b2[0] != '/'; } }
    var dir := if a == [] || a[|a| - 1] == '/' then a else a + "/";
    assert Join(a, b1) == dir + b1 && Join(a, b2) == dir + b2;
    assert b1 == (dir + b1)[|dir|..];
    assert b2 == (dir + b2)[|dir|..];
  }

  /** An occurrence in a suffix is an occurrence in the whole string, shifted. */
  lemma OccursAtSuffix(s: string, pat: string, d: nat, i: int)
    requires d <= |s|
    ensures OccursAt(s[d..], pat, i) <==> (0 <= i && OccursAt(s, pat, i + d))
  {
    if 0 <= i && i + |pat| <= |s| - d {
      assert s[d..][i..i + |pat|] == s[i + d..i + d + |pat|];
    }
  }

  /** A stretch of positions free of `pat` stays free in a suffix, shifted. */
  lemma NoOccurrenceInSuffix(s: string, pat: string, d: nat, lo: int, hi: int)
    requires d <= |s|
    requires forall i :: lo < i < hi ==> !OccursAt(s, pat, i)
    ensures forall i :: lo - d < i < hi - d ==> !OccursAt(s[d..], pat, i)
  {
    forall i | lo - d < i < hi - d
      ensures !OccursAt(s[d..], pat, i)
    {
      OccursAtSuffix(s, pat, d, i);
    }
  }

  /** An occurrence inside a slice is an occurrence in the whole string. */
  lemma OccursInSlice(s: string, lo: nat, hi: nat, pat: string, i: int)
    requires pat != []
    requires OccursAt(Slice(s, lo, hi), pat, i)
    ensures OccursAt(s, pat, lo + i)
  {
    var w := Slice(s, lo, hi);
    assert lo + |w| <= |s| by { assert Min(hi, |s|) <= |s|; }
    assert s[lo + i..lo + i + |pat|] == w[i..i + |pat|];
  }

  /** Among the occurrences at or before `j` there is a leftmost one. */
  lemma {:induction false} LeftmostOccurrence(s: string, pat: string, j: int) returns (m: int)
    requires OccursAt(s, pat, j)
    ensures 0 <= m <= j && OccursAt(s, pat, m)
    ensures forall i :: 0 <= i < m ==> !OccursAt(s, pat, i)
    decreases j
  {
    if i :| 0 <= i < j && OccursAt(s, pat, i) {
      m := LeftmostOccurrence(s, pat, i);
    } else {
      m := j;
    }
  }

  /** Text without any occurrence of the pattern is returned unchanged. */
  lemma {:induction false} ReplaceWithoutOccurrence(s: string, pat: string, rep: string)
    requires pat != []
    requires !Contains(s, pat)
    ensures Replace(s, pat, rep) == s
    decreases |s|
  {
    if |pat| <= |s| {
      assert !OccursAt(s, pat, 0);
      forall i | 0 <= i <= |s| - 1 - |pat|
        ensures !OccursAt(s[1..], pat, i)
      {
        OccursAtSuffix(s, pat, 1, i);
      }
      ReplaceWithoutOccurrence(s[1..], pat, rep);
      ReplaceSkipStep(s, pat, rep);
      assert s == [s[0]] + s[1..];
    }
  }

  /** The scan keeps everything before the leftmost occurrence, puts `rep`
      in place of that occurrence and resumes right after it. Together with
      ReplaceWithoutOccurrence this pins `str.replace` down completely. */
  lemma {:induction false} ReplaceAtLeftmost(u: string, pat: string, v: string, rep: string)
    requires pat != []
    requires forall i :: 0 <= i < |u| ==> !OccursAt(u + pat + v, pat, i)
    ensures Replace(u + pat + v, pat, rep) == u + rep + Replace(v, pat, rep)
    decreases |u|
  {
    var s := u + pat + v;
    if u == [] {
      assert s == pat + v;
      ReplaceMatchStep(pat, v, rep);
    } else {
      assert s[..|pat|] != pat by { assert !OccursAt(s, pat, 0); }
      ReplaceSkipStep(s, pat, rep);
      assert s[1..] == u[1..] + pat + v;
      assert forall i :: 0 <= i < |u| - 1 ==> !OccursAt(u[1..] + pat + v, pat, i) by {
        NoOccurrenceInSuffix(s, pat, 1, -1, |u|);
      }
      ReplaceAtLeftmost(u[1..], pat, v, rep);
      assert u == [u[0]] + u[1..];
    }
  }

  /** A character that lies inside no occurrence of `pat` keeps its value. */
  lemma {:induction false} ReplaceKeepsUncovered(s: string, pat: string, rep: string, k: int)
    requires pat != [] && |pat| == |rep|
    requires 0 <= k < |s|
    requires forall j :: k - |pat| < j <= k ==> !OccursAt(s, pat, j)
    ensures |Replace(s, pat, rep)| == |s|
    ensures Replace(s, pat, rep)[k] == s[k]
    decreases |s|
  {
    ReplaceLength(s, pat, rep);
    if |s| < |pat| {
    } else if s[..|pat|] == pat {
      var d := |pat|;
      assert OccursAt(s, pat, 0);
      assert s == pat + s[d..];
      ReplaceMatchStep(pat, s[d..], rep);
      NoOccurrenceInSuffix(s, pat, d, k - d, k + 1);
      ReplaceKeepsUncovered(s[d..], pat, rep, k - d);
    } else {
      ReplaceSkipStep(s, pat, rep);
      if k != 0 {
        NoOccurrenceInSuffix(s, pat, 1, k - |pat|, k + 1);
        ReplaceKeepsUncovered(s[1..], pat, rep, k - 1);
      }
    }
  }

  /** After a match at the front, a window of the rest of the output is a
      window of the whole output, shifted by the replacement's length. */
  lemma ReplaceWindowAfterMatch(pat: string, v: string, rep: string, j: int)
    requires pat != [] && |pat| == |rep| && 0 <= j && j + |pat| <= |v|
    requires |Replace(v, pat, rep)| == |v|
    requires Replace(v, pat, rep)[j..j + |pat|] == rep
    ensures |Replace(pat + v, pat, rep)| == |pat + v|
    ensures Replace(pat + v, pat, rep)[|pat| + j..|pat| + j + |pat|] == rep
  {
    ReplaceMatchStep(pat, v, rep);
    WindowOfConcat(rep, Replace(v, pat, rep), |pat| + j, |pat|);
  }

  /** After a skipped character, a window of the rest of the output is a
      window of the whole output, shifted by one. */
  lemma ReplaceWindowAfterSkip(s: string, pat: string, rep: string, j: int)
    requires pat != [] && |pat| == |rep| && 0 < j && j + |pat| <= |s|
    requires s[..|pat|] != pat
    requires |Replace(s[1..], pat, rep)| == |s| - 1
    requires Replace(s[1..], pat, rep)[j - 1..j - 1 + |pat|] == rep
    ensures |Replace(s, pat, rep)| == |s|
    ensures Replace(s, pat, rep)[j..j + |pat|] == rep
  {
    ReplaceSkipStep(s, pat, rep);
    WindowOfConcat([s[0]], Replace(s[1..], pat, rep), j, |pat|);
  }

  /** A window that lies past the first part of a concatenation is a window
      of the second part. */
  lemma WindowOfConcat(a: string, t: string, j: int, d: nat)
    requires |a| <= j && j + d <= |a| + |t|
    ensures (a + t)[j..j + d] == t[j - |a|..j - |a| + d]
  {
  }

  /** An isolated occurrence after a match at the front stays isolated in
      the rest of the text. */
  lemma IsolatedAfterMatch(s: string, pat: string, j: int)
    requires pat != [] && |pat| <= |s| && s[..|pat|] == pat && 0 < j
    requires OccursAt(s, pat, j) && forall i :: j - |pat| < i < j ==> !OccursAt(s, pat, i)
    ensures |pat| <= j && s == pat + s[|pat|..]
    ensures OccursAt(s[|pat|..], pat, j - |pat|)
    ensures forall i :: j - |pat| - |pat| < i < j - |pat| ==> !OccursAt(s[|pat|..], pat, i)
  {
    assert OccursAt(s, pat, 0);
    OccursAtSuffix(s, pat, |pat|, j - |pat|);
    NoOccurrenceInSuffix(s, pat, |pat|, j - |pat|, j);
  }

  /** An isolated occurrence after a skipped character stays isolated in
      the rest of the text. */
  lemma IsolatedAfterSkip(s: string, pat: string, j: int)
    requires pat != [] && |pat| <= |s| && s[..|pat|] != pat
    requires OccursAt(s, pat, j) && forall i :: j - |pat| < i < j ==> !OccursAt(s, pat, i)
    ensures 0 < j && OccursAt(s[1..], pat, j - 1)
    ensures forall i :: j - 1 - |pat| < i < j - 1 ==> !OccursAt(s[1..], pat, i)
  {
    assert !OccursAt(s, pat, 0);
    OccursAtSuffix(s, pat, 1, j - 1);
    NoOccurrenceInSuffix(s, pat, 1, j - |pat|, j);
  }

  /** An occurrence that no earlier occurrence overlaps is replaced by `rep`,
      wherever in the text it lies. */
  lemma {:induction false} ReplaceIsolatedOccurrence(s: string, pat: string, rep: string, j: int)
    requires pat != [] && |pat| == |rep|
    requires OccursAt(s, pat, j)
    requires forall i :: j - |pat| < i < j ==> !OccursAt(s, pat, i)
    ensures |Replace(s, pat, rep)| == |s|
    ensures Replace(s, pat, rep)[j..j + |pat|] == rep
    decreases |s|, 1
  {
    var d := |pat|;
    if j == 0 {
      assert s == pat + s[d..];
      ReplaceMatchStep(pat, s[d..], rep);
      ReplaceLength(s, pat, rep);
    } else if s[..d] == pat {
      IsolatedBehindMatch(s, pat, rep, j);
    } else {
      IsolatedBehindSkip(s, pat, rep, j);
    }
  }

  /** The case of ReplaceIsolatedOccurrence where the scan first replaces a
      match at the front. */
  lemma {:induction false} IsolatedBehindMatch(s: string, pat: string, rep: string, j: int)
    requires pat != [] && |pat| == |rep| && 0 < j && |pat| <= |s| && s[..|pat|] == pat
    requires OccursAt(s, pat, j)
    requires forall i :: j - |pat| < i < j ==> !OccursAt(s, pat, i)
    ensures |Replace(s, pat, rep)| == |s|
    ensures Replace(s, pat, rep)[j..j + |pat|] == rep
    decreases |s|, 0
  {
    IsolatedAfterMatch(s, pat, j);
    var t, k := s[|pat|..], j - |pat|;
    ReplaceIsolatedOccurrence(t, pat, rep, k);
    ReplaceWindowAfterMatch(pat, t, rep, k);
    assert pat + t == s;
  }

  /** The case of ReplaceIsolatedOccurrence where the scan first emits one
      character unchanged. */
  lemma {:induction false} IsolatedBehindSkip(s: string, pat: string, rep: string, j: int)
    requires pat != [] && |pat| == |rep| && |pat| <= |s| && s[..|pat|] != pat
    requires OccursAt(s, pat, j)
    requires forall i :: j - |pat| < i < j ==> !OccursAt(s, pat, i)
    ensures |Replace(s, pat, rep)| == |s|
    ensures Replace(s, pat, rep)[j..j + |pat|] == rep
    decreases |s|, 0
  {
    IsolatedAfterSkip(s, pat, j);
    ReplaceIsolatedOccurrence(s[1..], pat, rep, j - 1);
    ReplaceWindowAfterSkip(s, pat, rep, j);
  }
}
