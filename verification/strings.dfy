/**
  Text primitives the URL rewrite relies on: substring containment, suffix
  tests, and the left-to-right, non-overlapping "replace every occurrence"
  that Python's `str.replace` performs, with what that scan guarantees when
  the pattern cannot overlap itself or its replacement.
 */
module Strings {

  /** `pat` occurs in `s` starting at index `i`. */
  predicate OccursAt(s: string, pat: string, i: int)
  {
    0 <= i && i + |pat| <= |s| && s[i..i + |pat|] == pat
  }

  /** The `pat in s` test. */
  predicate Contains(s: string, pat: string)
  {
    exists i | 0 <= i <= |s| - |pat| :: OccursAt(s, pat, i)
  }

  /** The `s.endswith(suffix)` test. */
  predicate EndsWith(s: string, suffix: string)
  {
    |suffix| <= |s| && s[|s| - |suffix|..] == suffix
  }

  /**
    Replaces every occurrence of `pat` in `s` by `rep`, scanning from the
    left and resuming after each replaced occurrence, so occurrences never
    overlap. The pattern is never empty where the model uses it.
   */
  function ReplaceAll(s: string, pat: string, rep: string): (r: string)
    requires |pat| > 0
    ensures |rep| == |pat| ==> |r| == |s|
    decreases |s|
  {
    if |s| < |pat| then
      s
    else if s[..|pat|] == pat then
      rep + ReplaceAll(s[|pat|..], pat, rep)
    else
      [s[0]] + ReplaceAll(s[1..], pat, rep)
  }

  /** A text without the pattern comes out of the scan unchanged. */
  lemma {:induction false} ReplaceAllWithoutOccurrence(s: string, pat: string, rep: string)
    requires |pat| > 0
    requires !Contains(s, pat)
    ensures ReplaceAll(s, pat, rep) == s
    decreases |s|
  {
    if |s| >= |pat| {
      assert !OccursAt(s, pat, 0);
      ContainsOfTail(s, pat);
      ReplaceAllWithoutOccurrence(s[1..], pat, rep);
    }
  }

  /** An occurrence in the tail of `s` is an occurrence in `s`. */
  lemma ContainsOfTail(s: string, pat: string)
    requires |s| > 0
    ensures Contains(s[1..], pat) ==> Contains(s, pat)
  {
    if Contains(s[1..], pat) {
      var i :| 0 <= i <= |s[1..]| - |pat| && OccursAt(s[1..], pat, i);
      assert s[1..][i..i + |pat|] == s[i + 1..i + 1 + |pat|];
      assert OccursAt(s, pat, i + 1);
    }
  }

  /** One step of the scan, for a text starting with the pattern. */
  lemma ReplaceAllAtMatch(s: string, pat: string, rep: string)
    requires |pat| > 0 && |s| >= |pat| && s[..|pat|] == pat
    ensures ReplaceAll(s, pat, rep) == rep + ReplaceAll(s[|pat|..], pat, rep)
  {
  }

  /** One step of the scan, for a text not starting with the pattern. */
  lemma ReplaceAllPastMismatch(s: string, pat: string, rep: string)
    requires |pat| > 0 && |s| >= |pat| && s[..|pat|] != pat
    ensures ReplaceAll(s, pat, rep) == [s[0]] + ReplaceAll(s[1..], pat, rep)
  {
  }

  /**
    `a` and `b` have one length, and the tail of `a` from `m` on is not the
    start of `b`: a copy of `b` placed `m` characters after a copy of `a`
    disagrees with it somewhere.
   */
  predicate ClearAt(a: string, b: string, m: int)
  {
    0 <= m <= |a| && |a| == |b| && a[m..] != b[..|b| - m]
  }

  /** No proper tail of `pat` is also a start of it. */
  ghost predicate NoBorder(pat: string)
  {
    forall m | 1 <= m < |pat| :: ClearAt(pat, pat, m)
  }

  /**
    `rep` has the length of `pat`, differs from it, and cannot overlap an
    occurrence of `pat` from either side.
   */
  ghost predicate Unoverlappable(pat: string, rep: string)
  {
    && |pat| > 0
    && |rep| == |pat|
    && rep != pat
    && (forall m | 1 <= m < |pat| :: ClearAt(rep, pat, m) && ClearAt(pat, rep, m))
  }

  /** Two occurrences of a border-free pattern less than its length apart coincide. */
  lemma OccurrencesDoNotOverlap(s: string, pat: string, i: int, k: int)
    requires NoBorder(pat)
    requires OccursAt(s, pat, i) && OccursAt(s, pat, k)
    requires i <= k < i + |pat|
    ensures k == i
  {
    var m := k - i;
    var n := |pat|;
    assert m > 0 ==> ClearAt(pat, pat, m);
    assert s[k..i + n] == s[i..i + n][m..];
    assert s[k..i + n] == s[k..k + n][..n - m];
  }

  /**
    With a same-length replacement, a character of the result differs from
    the input only inside some occurrence of the pattern in the input.
   */
  lemma {:induction false} ReplaceAllChangesOnlyOccurrences(s: string, pat: string, rep: string, i: int)
    requires |pat| > 0 && |rep| == |pat|
    requires 0 <= i < |s|
    ensures |ReplaceAll(s, pat, rep)| == |s|
    ensures ReplaceAll(s, pat, rep)[i] != s[i] ==>
              exists k :: k <= i < k + |pat| && OccursAt(s, pat, k)
    decreases |s|
  {
    var n := |pat|;
    if |s| >= n {
      if s[..n] == pat {
        if i < n {
          assert OccursAt(s, pat, 0);
        } else {
          ReplaceAllChangesOnlyOccurrences(s[n..], pat, rep, i - n);
          ReplaceAllAtMatch(s, pat, rep);
          ChangedPastPrefix(s, pat, rep, ReplaceAll(s[n..], pat, rep), i);
        }
      } else if i > 0 {
        ReplaceAllChangesOnlyOccurrences(s[1..], pat, rep, i - 1);
        ReplaceAllPastMismatch(s, pat, rep);
        ChangedPastPrefix(s, pat, [s[0]], ReplaceAll(s[1..], pat, rep), i);
      }
    }
  }

  /**
    The step of `ReplaceAllChangesOnlyOccurrences`: when the result is
    `pre + rt` with `rt` the result for `s[|pre|..]`, a change at `i` past
    `pre` lies inside an occurrence in `s` if the matching change in `rt`
    lies inside one in `s[|pre|..]`.
   */
  lemma ChangedPastPrefix(s: string, pat: string, pre: string, rt: string, i: int)
    requires |pre| <= i < |s|
    requires |rt| == |s| - |pre|
    requires var t := s[|pre|..];
             rt[i - |pre|] != t[i - |pre|] ==>
               exists k :: k <= i - |pre| < k + |pat| && OccursAt(t, pat, k)
    ensures (pre + rt)[i] != s[i] ==>
              exists k :: k <= i < k + |pat| && OccursAt(s, pat, k)
  {
    var d := |pre|;
    var t := s[d..];
    assert (pre + rt)[i] == rt[i - d] && s[i] == t[i - d];
    if rt[i - d] != t[i - d] {
      var k :| k <= i - d < k + |pat| && OccursAt(t, pat, k);
      OccursInTail(s, pat, d, k);
    }
  }

  /** An occurrence in `s[d..]` is an occurrence in `s`, `d` places later, and back. */
  lemma OccursInTail(s: string, pat: string, d: int, k: int)
    requires 0 <= d <= |s| && 0 <= k
    ensures OccursAt(s[d..], pat, k) <==> OccursAt(s, pat, k + d)
  {
    if k + |pat| <= |s| - d {
      assert s[d..][k..k + |pat|] == s[k + d..k + d + |pat|];
    }
  }

  /** The slice of `pre + t` that lies wholly inside `t`. */
  lemma SliceInSuffix(pre: string, t: string, j: int, len: int)
    requires 0 <= j && 0 <= len && j + len <= |t|
    ensures (pre + t)[|pre| + j..|pre| + j + len] == t[j..j + len]
  {
  }

  /**
    When the pattern cannot overlap itself, the scan replaces every
    occurrence of it, wherever it starts.
   */
  lemma {:induction false} EveryOccurrenceReplaced(s: string, pat: string, rep: string, k: int)
    requires |pat| > 0 && |rep| == |pat| && NoBorder(pat)
    requires OccursAt(s, pat, k)
    ensures |ReplaceAll(s, pat, rep)| == |s|
    ensures ReplaceAll(s, pat, rep)[k..k + |pat|] == rep
    decreases |s|, 1
  {
    if s[..|pat|] == pat {
      ReplacedAfterMatch(s, pat, rep, k);
    } else {
      ReplacedAfterMismatch(s, pat, rep, k);
    }
  }

  /** `EveryOccurrenceReplaced` for a text that starts with the pattern. */
  lemma {:induction false} ReplacedAfterMatch(s: string, pat: string, rep: string, k: int)
    requires |pat| > 0 && |rep| == |pat| && NoBorder(pat)
    requires OccursAt(s, pat, k) && s[..|pat|] == pat
    ensures ReplaceAll(s, pat, rep)[k..k + |pat|] == rep
    decreases |s|, 0
  {
    var n := |pat|;
    var rt := ReplaceAll(s[n..], pat, rep);
    ReplaceAllAtMatch(s, pat, rep);
    if k < n {
      assert OccursAt(s, pat, 0);
      OccurrencesDoNotOverlap(s, pat, 0, k);
      SliceInSuffix([], rep + rt, 0, n);
    } else {
      OccursInTail(s, pat, n, k - n);
      EveryOccurrenceReplaced(s[n..], pat, rep, k - n);
      SliceInSuffix(rep, rt, k - n, n);
    }
  }

  /** `EveryOccurrenceReplaced` for a text that does not start with the pattern. */
  lemma {:induction false} ReplacedAfterMismatch(s: string, pat: string, rep: string, k: int)
    requires |pat| > 0 && |rep| == |pat| && NoBorder(pat)
    requires OccursAt(s, pat, k) && s[..|pat|] != pat
    ensures ReplaceAll(s, pat, rep)[k..k + |pat|] == rep
    decreases |s|, 0
  {
    var rt := ReplaceAll(s[1..], pat, rep);
    ReplaceAllPastMismatch(s, pat, rep);
    assert k != 0;
    OccursInTail(s, pat, 1, k - 1);
    EveryOccurrenceReplaced(s[1..], pat, rep, k - 1);
    SliceInSuffix([s[0]], rt, k - 1, |pat|);
  }

  /**
    If the rewritten text starts with the proper tail `pat[k..]`, then so did
    the text before rewriting: the replacement never supplies a piece of the
    pattern.
   */
  lemma {:induction false} TailStartReflected(v: string, pat: string, rep: string, k: int)
    requires Unoverlappable(pat, rep)
    requires 1 <= k < |pat|
    requires |v| >= |pat| - k
    requires ReplaceAll(v, pat, rep)[..|pat| - k] == pat[k..]
    ensures v[..|pat| - k] == pat[k..]
    decreases |v|
  {
    var n := |pat|;
    var r := ReplaceAll(v, pat, rep);
    if |v| >= n {
      var start, repStart := r[..n - k], rep[..n - k];
      assert ClearAt(pat, rep, k);
      assert repStart != pat[k..];
      var rest := ReplaceAll(v[n..], pat, rep);
      assert v[..n] == pat ==> r == rep + rest;
      assert v[..n] == pat ==> start == repStart;
      ReplaceAllPastMismatch(v, pat, rep);
      var tail := v[1..];
      var rt := ReplaceAll(tail, pat, rep);
      assert r == [v[0]] + rt;
      if k < n - 1 {
        assert rt[..n - 1 - k] == r[1..n - k];
        TailStartReflected(tail, pat, rep, k + 1);
        assert v[..n - k] == [v[0]] + tail[..n - 1 - k];
      }
    }
  }

  /** After the scan, a pattern that its replacement cannot overlap is gone. */
  lemma {:induction false} NoOccurrenceAfterReplace(s: string, pat: string, rep: string)
    requires Unoverlappable(pat, rep)
    ensures !Contains(ReplaceAll(s, pat, rep), pat)
    decreases |s|
  {
    var n := |pat|;
    if |s| >= n {
      if s[..n] == pat {
        NoOccurrenceAfterReplace(s[n..], pat, rep);
        CleanAfterMatch(s, pat, rep);
      } else {
        NoOccurrenceAfterReplace(s[1..], pat, rep);
        CleanAfterMismatch(s, pat, rep);
      }
    }
  }

  /**
    For a text starting with the pattern: if the rewritten rest holds no
    occurrence, neither does the whole rewritten text.
   */
  lemma CleanAfterMatch(s: string, pat: string, rep: string)
    requires Unoverlappable(pat, rep)
    requires |s| >= |pat| && s[..|pat|] == pat
    requires !Contains(ReplaceAll(s[|pat|..], pat, rep), pat)
    ensures !Contains(ReplaceAll(s, pat, rep), pat)
  {
    var n := |pat|;
    var r := ReplaceAll(s, pat, rep);
    var rt := ReplaceAll(s[n..], pat, rep);
    ReplaceAllAtMatch(s, pat, rep);
    assert r[..n] == rep;
    NotInSuffix(rep, rt, pat);
    forall i | 0 <= i < n
      ensures !OccursAt(r, pat, i)
    {
      NotAcrossReplacement(r, pat, rep, i);
    }
  }

  /** Occurrences that start past `pre` in `pre + t` are occurrences in `t`. */
  lemma NotInSuffix(pre: string, t: string, pat: string)
    requires !Contains(t, pat)
    ensures forall i | |pre| <= i :: !OccursAt(pre + t, pat, i)
  {
    var u := pre + t;
    forall i | |pre| <= i
      ensures !OccursAt(u, pat, i)
    {
      if i + |pat| <= |u| {
        assert u[i..i + |pat|] == t[i - |pre|..i - |pre| + |pat|];
        assert !OccursAt(t, pat, i - |pre|);
      }
    }
  }

  /** An occurrence cannot start inside a replacement at the front of the text. */
  lemma NotAcrossReplacement(r: string, pat: string, rep: string, i: int)
    requires Unoverlappable(pat, rep)
    requires |r| >= |pat| && r[..|pat|] == rep
    requires 0 <= i < |pat|
    ensures !OccursAt(r, pat, i)
  {
    var n := |pat|;
    if i > 0 && i + n <= |r| {
      assert r[i..n] == rep[i..];
      assert ClearAt(rep, pat, i);
      assert r[i..i + n][..n - i] == r[i..n];
    }
  }

  /**
    For a text not starting with the pattern: if the rewritten rest holds no
    occurrence, neither does the whole rewritten text.
   */
  lemma CleanAfterMismatch(s: string, pat: string, rep: string)
    requires Unoverlappable(pat, rep)
    requires |s| >= |pat| && s[..|pat|] != pat
    requires !Contains(ReplaceAll(s[1..], pat, rep), pat)
    ensures !Contains(ReplaceAll(s, pat, rep), pat)
  {
    var n := |pat|;
    var r := ReplaceAll(s, pat, rep);
    var tail := s[1..];
    var rt := ReplaceAll(tail, pat, rep);
    ReplaceAllPastMismatch(s, pat, rep);
    forall i | 0 <= i <= |r| - n
      ensures !OccursAt(r, pat, i)
    {
      if i > 0 {
        NotInSuffix([s[0]], rt, pat);
      } else if r[..n] == pat {
        assert r[..n] == [s[0]] + rt[..n - 1];
        if n > 1 {
          assert rt[..n - 1] == pat[1..];
          TailStartReflected(tail, pat, rep, 1);
        }
      }
    }
  }

  /**
    Appending text that does not hold the pattern's last character cannot
    complete an occurrence of the pattern.
   */
  lemma NoOccurrenceAfterAppend(t: string, pat: string, suffix: string)
    requires |pat| > 0
    requires !Contains(t, pat)
    requires pat[|pat| - 1] !in suffix
    ensures !Contains(t + suffix, pat)
  {
    var n := |pat|;
    var u := t + suffix;
    forall i | 0 <= i <= |u| - n
      ensures !OccursAt(u, pat, i)
    {
      if i + n <= |t| {
        assert u[i..i + n] == t[i..i + n];
        assert !OccursAt(t, pat, i);
      } else {
        assert u[i + n - 1] == suffix[i + n - 1 - |t|];
        assert u[i..i + n][n - 1] == u[i + n - 1];
      }
    }
  }
}
