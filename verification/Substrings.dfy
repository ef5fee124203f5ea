/** Substring search as the Go `strings` package does it. */
module Substrings {

  predicate StartsWith(s: string, pat: string) {
    pat <= s
  }

  /** strings.Contains. */
  predicate Contains(s: string, pat: string) {
    StartsWith(s, pat) || (s != "" && Contains(s[1..], pat))
  }

  /** strings.SplitN(s, pat, 2)[0]: the text before the first occurrence, all of it if there is none. */
  function Before(s: string, pat: string): (t: string)
    ensures |t| <= |s|
    ensures Contains(s, pat) ==> |t| + |pat| <= |s|
  {
    if StartsWith(s, pat) || s == "" then "" else [s[0]] + Before(s[1..], pat)
  }

  ghost predicate OccursAt(s: string, pat: string, k: nat) {
    k <= |s| && StartsWith(s[k..], pat)
  }

  lemma {:induction false} ContainsMeaning(s: string, pat: string)
    ensures Contains(s, pat) <==> exists k :: OccursAt(s, pat, k)
  {
    assert s[0..] == s;
    if s != "" {
      ContainsMeaning(s[1..], pat);
      assert forall k: nat | k < |s| :: s[1..][k..] == s[k + 1..];
      if StartsWith(s, pat) {
        assert OccursAt(s, pat, 0);
      } else if Contains(s[1..], pat) {
        var k: nat :| OccursAt(s[1..], pat, k);
        assert OccursAt(s, pat, k + 1);
      } else if k: nat :| OccursAt(s, pat, k) {
        assert OccursAt(s[1..], pat, k - 1);
      }
    } else if StartsWith(s, pat) {
      assert OccursAt(s, pat, 0);
    }
  }

  /** An occurrence that ends before position `at`. */
  ghost predicate OccursBefore(s: string, pat: string, at: nat) {
    exists k: nat :: k + |pat| <= at && OccursAt(s, pat, k)
  }

  lemma OccursInPrefix(s: string, pat: string, at: nat, k: nat)
    requires at <= |s|
    ensures OccursAt(s[..at], pat, k) <==> k + |pat| <= at && OccursAt(s, pat, k)
  {
    if k <= at {
      var x, y := s[..at][k..], s[k..];
      assert x == y[..at - k];
      if k + |pat| <= at {
        assert x[..|pat|] == y[..|pat|];
      }
    }
  }

  lemma ContainedInPrefix(s: string, pat: string, at: nat)
    requires at <= |s|
    ensures Contains(s[..at], pat) <==> OccursBefore(s, pat, at)
  {
    ContainsMeaning(s[..at], pat);
    forall k: nat
      ensures OccursAt(s[..at], pat, k) <==> k + |pat| <= at && OccursAt(s, pat, k)
    {
      OccursInPrefix(s, pat, at, k);
    }
  }

  /** The text before the first occurrence, by the position of that occurrence. */
  lemma {:induction false} BeforeFirst(s: string, pat: string, at: nat)
    requires OccursAt(s, pat, at) && forall k | 0 <= k < at :: !OccursAt(s, pat, k)
    ensures Contains(s, pat) && Before(s, pat) == s[..at]
  {
    assert s[0..] == s;
    if at > 0 {
      assert !OccursAt(s, pat, 0);
      forall k | 0 <= k < at - 1
        ensures !OccursAt(s[1..], pat, k)
      {
        assert s[1..][k..] == s[k + 1..];
        assert !OccursAt(s, pat, k + 1);
      }
      assert s[1..][at - 1..] == s[at..];
      BeforeFirst(s[1..], pat, at - 1);
      assert s[..at] == [s[0]] + s[1..][..at - 1];
    }
  }

  lemma {:induction false} ContainedFits(s: string, pat: string)
    requires Contains(s, pat)
    ensures |pat| <= |s|
  {
    if !StartsWith(s, pat) {
      ContainedFits(s[1..], pat);
    }
  }

  lemma StartIsLocal(s: string, t: string, pat: string)
    requires |pat| <= |s|
    ensures StartsWith(s + t, pat) <==> StartsWith(s, pat)
  {
    assert (s + t)[..|pat|] == s[..|pat|];
  }

  /** The text before the first occurrence does not depend on what comes after that occurrence. */
  lemma {:induction false} BeforeExtends(s: string, t: string, pat: string)
    requires Contains(s, pat)
    ensures Contains(s + t, pat) && Before(s + t, pat) == Before(s, pat)
  {
    ContainedFits(s, pat);
    StartIsLocal(s, t, pat);
    if !StartsWith(s, pat) {
      assert (s + t)[1..] == s[1..] + t;
      BeforeExtends(s[1..], t, pat);
    }
  }

  /** A pattern whose first character does not recur in it begins nowhere inside `x` when it first starts with `y`. */
  lemma {:induction false} BeforeBoundary(x: string, y: string, pat: string)
    requires pat != "" && forall k | 0 < k < |pat| :: pat[k] != pat[0]
    requires !Contains(x, pat) && StartsWith(y, pat)
    ensures Before(x + y, pat) == x
  {
    if x == "" {
      assert x + y == y;
    } else {
      assert (x + y)[1..] == x[1..] + y;
      BeforeBoundary(x[1..], y, pat);
      assert !StartsWith(x + y, pat) by {
        if |pat| <= |x| {
          StartIsLocal(x, y, pat);
        } else {
          assert (x + y)[|x|] == y[0] == pat[0];
          assert pat[|x|] != pat[0];
        }
      }
    }
  }

  lemma {:induction false} NotContained(s: string, pat: string)
    requires pat != "" && pat[0] !in s
    ensures !Contains(s, pat)
  {
    if s != "" {
      assert s[0] in s;
      NotContained(s[1..], pat);
    }
  }

  lemma {:induction false} BoundaryIsContained(x: string, y: string, pat: string)
    requires StartsWith(y, pat)
    ensures Contains(x + y, pat)
  {
    if x == "" {
      assert x + y == y;
    } else {
      assert (x + y)[1..] == x[1..] + y;
      BoundaryIsContained(x[1..], y, pat);
    }
  }
}
