/** The Python string operations the translator relies on: `pat in s` and
    `s.replace(pat, rep)`, both scanning left to right. `Count` is a helper
    that states how much a replacement changes the length. */
module Strings {

  /** `pat` occurs in `s` starting at index `i`. */
  ghost predicate OccursAt(s: string, pat: string, i: int) {
    0 <= i && i + |pat| <= |s| && s[i..i + |pat|] == pat
  }

  /** Python's `pat in s`, as a left-to-right scan. */
  predicate Contains(s: string, pat: string)
    decreases |s|
  {
    |pat| <= |s| && (s[..|pat|] == pat || Contains(s[1..], pat))
  }

  /** The scan agrees with the positional definition of an occurrence. */
  lemma {:induction false} ContainsIff(s: string, pat: string)
    ensures Contains(s, pat) <==> exists i :: OccursAt(s, pat, i)
    decreases |s|
  {
    if Contains(s, pat) {
      if s[..|pat|] == pat {
        assert OccursAt(s, pat, 0);
      } else {
        ContainsIff(s[1..], pat);
        var j :| OccursAt(s[1..], pat, j);
        assert s[1..][j..j + |pat|] == s[j + 1..j + 1 + |pat|];
        assert OccursAt(s, pat, j + 1);
      }
    }
    if exists i :: OccursAt(s, pat, i) {
      var i :| OccursAt(s, pat, i);
      if i > 0 {
        assert s[1..][i - 1..i - 1 + |pat|] == s[i..i + |pat|];
        assert OccursAt(s[1..], pat, i - 1);
        ContainsIff(s[1..], pat);
      } else {
        assert s[..|pat|] == s[0..|pat|];
      }
    }
  }

  /** Python's `s.count(pat)`: the number of non-overlapping occurrences
      found by a left-to-right scan. */
  function Count(s: string, pat: string): (n: nat)
    requires |pat| > 0
    ensures n == 0 <==> !Contains(s, pat)
    decreases |s|
  {
    if |s| < |pat| then 0
    else if s[..|pat|] == pat then 1 + Count(s[|pat|..], pat)
    else Count(s[1..], pat)
  }

  /** Python's `s.replace(pat, rep)`: every non-overlapping occurrence of
      `pat`, found left to right, is replaced by `rep`; scanning resumes
      after the replaced occurrence, so the replacement is never rescanned. */
  function ReplaceAll(s: string, pat: string, rep: string): (r: string)
    requires |pat| > 0
    ensures !Contains(s, pat) ==> r == s
    decreases |s|
  {
    if |s| < |pat| then s
    else if s[..|pat|] == pat then rep + ReplaceAll(s[|pat|..], pat, rep)
    else [s[0]] + ReplaceAll(s[1..], pat, rep)
  }

  /** Each replaced occurrence changes the length by `|rep| - |pat|`. */
  lemma {:induction false} ReplaceAllLength(s: string, pat: string, rep: string)
    requires |pat| > 0
    ensures |ReplaceAll(s, pat, rep)| == |s| + Count(s, pat) * (|rep| - |pat|)
    decreases |s|
  {
    if |s| < |pat| {
    } else if s[..|pat|] == pat {
      var rest := s[|pat|..];
      ReplaceAllLength(rest, pat, rep);
      var c := Count(rest, pat);
      var d := |rep| - |pat|;
      assert ReplaceAll(s, pat, rep) == rep + ReplaceAll(rest, pat, rep);
      assert Count(s, pat) == c + 1;
      assert |rest| == |s| - |pat|;
      MulSucc(c, d);
    } else {
      ReplaceAllLength(s[1..], pat, rep);
      assert ReplaceAll(s, pat, rep) == [s[0]] + ReplaceAll(s[1..], pat, rep);
      assert Count(s, pat) == Count(s[1..], pat);
    }
  }

  /** A replacement leaves the string as it was exactly when there is
      nothing to replace or the replacement equals the pattern. */
  lemma {:induction false} ReplaceAllUnchanged(s: string, pat: string, rep: string)
    requires |pat| > 0
    ensures ReplaceAll(s, pat, rep) == s <==> !Contains(s, pat) || pat == rep
    decreases |s|
  {
    if |s| < |pat| {
    } else if s[..|pat|] == pat {
      ReplaceAllUnchanged(s[|pat|..], pat, rep);
      if pat == rep {
        assert s == pat + s[|pat|..];
      } else if |rep| == |pat| {
        assert ReplaceAll(s, pat, rep)[..|pat|] == rep;
      } else {
        ReplaceAllLength(s, pat, rep);
        var c := Count(s, pat);
        var d := |rep| - |pat|;
        assert c > 0 && d != 0;
        NonZeroProduct(c, d);
      }
    } else {
      ReplaceAllUnchanged(s[1..], pat, rep);
      assert s == [s[0]] + s[1..];
      assert ReplaceAll(s, pat, rep)[1..] == ReplaceAll(s[1..], pat, rep);
    }
  }

  lemma MulSucc(c: int, d: int)
    ensures (c + 1) * d == c * d + d
  {
  }

  lemma NonZeroProduct(c: int, d: int)
    requires c != 0 && d != 0
    ensures c * d != 0
  {
  }

  /** A prefix in which no occurrence of `pat` starts is copied through as is. */
  lemma {:induction false} ReplaceAllSkip(p: string, q: string, pat: string, rep: string)
    requires |pat| > 0
    requires forall i :: 0 <= i < |p| ==> !OccursAt(p + q, pat, i)
    ensures ReplaceAll(p + q, pat, rep) == p + ReplaceAll(q, pat, rep)
    decreases |p|
  {
    if |p| > 0 {
      var s := p + q;
      assert !OccursAt(s, pat, 0);
      assert s[1..] == p[1..] + q;
      forall i | 0 <= i < |p[1..]|
        ensures !OccursAt(p[1..] + q, pat, i)
      {
        assert !OccursAt(s, pat, i + 1);
        if i + |pat| <= |s[1..]| {
          assert s[1..][i..i + |pat|] == s[i + 1..i + 1 + |pat|];
        }
      }
      ReplaceAllSkip(p[1..], q, pat, rep);
      if |s| >= |pat| {
        assert s[..|pat|] == s[0..|pat|];
        assert s[..|pat|] != pat;
        assert s[0] == p[0] && p == [p[0]] + p[1..];
        assert ReplaceAll(s, pat, rep) == [s[0]] + ReplaceAll(s[1..], pat, rep);
        assert p + ReplaceAll(q, pat, rep) == [s[0]] + (p[1..] + ReplaceAll(q, pat, rep));
        assert ReplaceAll(s, pat, rep) == p + ReplaceAll(q, pat, rep);
      } else {
        assert ReplaceAll(q, pat, rep) == q;
        assert ReplaceAll(s, pat, rep) == s;
      }
    } else {
      assert p + q == q;
      assert p + ReplaceAll(q, pat, rep) == ReplaceAll(q, pat, rep);
    }
  }

  /** The leftmost occurrence of `pat` is the first one replaced: when no
      occurrence ends before it, everything in front of it is kept, and the
      scan resumes right after it. */
  lemma ReplaceAllLeftmost(p: string, q: string, pat: string, rep: string)
    requires |pat| > 0
    requires !Contains(p + pat[..|pat| - 1], pat)
    ensures ReplaceAll(p + pat + q, pat, rep) == p + rep + ReplaceAll(q, pat, rep)
  {
    var s := p + pat + q;
    var head := p + pat[..|pat| - 1];
    ContainsIff(head, pat);
    forall i | 0 <= i < |p|
      ensures !OccursAt(s, pat, i)
    {
      assert !OccursAt(head, pat, i);
    }
    assert s == p + (pat + q);
    ReplaceAllSkip(p, pat + q, pat, rep);
    assert (pat + q)[..|pat|] == pat;
    assert (pat + q)[|pat|..] == q;
  }

  /** An occurrence at a known position is found by the scan. */
  lemma ContainsAt(s: string, pat: string, i: int)
    requires OccursAt(s, pat, i)
    ensures Contains(s, pat)
  {
    ContainsIff(s, pat);
  }

  /** Replacing `pat` by a fresh one-character marker and the marker back by
      `pat` restores the original string. */
  lemma {:induction false} ReplaceAllRestore(s: string, pat: string, marker: char)
    requires |pat| > 0
    requires marker !in s && marker !in pat
    ensures ReplaceAll(ReplaceAll(s, pat, [marker]), [marker], pat) == s
    decreases |s|
  {
    var r := ReplaceAll(s, pat, [marker]);
    if |s| < |pat| {
      NoMarker(s, marker);
    } else if s[..|pat|] == pat {
      var rest := s[|pat|..];
      ReplaceAllRestore(rest, pat, marker);
      assert r == [marker] + ReplaceAll(rest, pat, [marker]);
      assert r[..1] == [marker];
      assert r[1..] == ReplaceAll(rest, pat, [marker]);
      assert s == pat + rest;
    } else {
      ReplaceAllRestore(s[1..], pat, marker);
      assert r == [s[0]] + ReplaceAll(s[1..], pat, [marker]);
      assert r[..1] != [marker];
      assert r[1..] == ReplaceAll(s[1..], pat, [marker]);
      assert s == [s[0]] + s[1..];
    }
  }

  /** A string without the marker character does not contain it. */
  lemma {:induction false} NoMarker(s: string, marker: char)
    requires marker !in s
    ensures !Contains(s, [marker])
    decreases |s|
  {
    if |s| >= 1 {
      assert s[..1] != [marker] by { assert s[..1][0] == s[0]; }
      NoMarker(s[1..], marker);
    }
  }

  /** A pattern with a character that `s` lacks does not occur in `s`. */
  lemma MissingChar(s: string, pat: string, c: char)
    requires c in pat && c !in s
    ensures !Contains(s, pat)
  {
  }

  /** A pattern with two adjacent characters that are never adjacent in `s`
      does not occur in `s`. */
  lemma MissingPair(s: string, pat: string, k: nat)
    requires k + 1 < |pat|
    requires forall i | 0 <= i < |s| - 1 :: s[i] != pat[k] || s[i + 1] != pat[k + 1]
    ensures !Contains(s, pat)
  {
    ContainsIff(s, pat);
    forall i | 0 <= i && i + |pat| <= |s|
      ensures !OccursAt(s, pat, i)
    {
      assert s[i..i + |pat|][k] == s[i + k];
      assert s[i..i + |pat|][k + 1] == s[i + k + 1];
    }
  }

  /** A prefix that lacks the first character of `pat` is copied through. */
  lemma ReplaceAllFreshPrefix(p: string, q: string, pat: string, rep: string)
    requires |pat| > 0 && pat[0] !in p
    ensures ReplaceAll(p + q, pat, rep) == p + ReplaceAll(q, pat, rep)
  {
    forall i | 0 <= i < |p|
      ensures !OccursAt(p + q, pat, i)
    {
      assert (p + q)[i] == p[i];
      if i + |pat| <= |p + q| {
        assert (p + q)[i..i + |pat|][0] == p[i];
      }
    }
    ReplaceAllSkip(p, q, pat, rep);
  }

  /** An occurrence at the very start is replaced, and the scan resumes after it. */
  lemma ReplaceAllHead(pat: string, q: string, rep: string)
    requires |pat| > 0
    ensures ReplaceAll(pat + q, pat, rep) == rep + ReplaceAll(q, pat, rep)
  {
  }
}
