/** Subsequences: a recursive test and its meaning as a strictly increasing choice of positions. */
module Subsequences {

  predicate Subsequence<T(==)>(c: seq<T>, a: seq<T>) {
    if c == [] then true
    else if a == [] then false
    else (c[0] == a[0] && Subsequence(c[1..], a[1..])) || Subsequence(c, a[1..])
  }

  /** `at` picks strictly increasing positions of `a` that spell `c`. */
  ghost predicate Spells<T>(at: seq<nat>, c: seq<T>, a: seq<T>) {
    && |at| == |c|
    && (forall k | 0 <= k < |at| :: at[k] < |a| && a[at[k]] == c[k])
    && (forall k, l | 0 <= k < l < |at| :: at[k] < at[l])
  }

  /** The positions one further on. */
  function Later(at: seq<nat>): seq<nat> {
    seq(|at|, k requires 0 <= k < |at| => at[k] + 1)
  }

  lemma SpellsLater<T>(at: seq<nat>, c: seq<T>, a: seq<T>)
    requires a != [] && Spells(at, c, a[1..])
    ensures Spells(Later(at), c, a) && Spells([0] + Later(at), [a[0]] + c, a)
  {
  }

  lemma {:induction false} SubsequenceSpelled<T>(c: seq<T>, a: seq<T>) returns (at: seq<nat>)
    requires Subsequence(c, a)
    ensures Spells(at, c, a)
  {
    if c == [] {
      at := [];
    } else if c[0] == a[0] && Subsequence(c[1..], a[1..]) {
      var rest := SubsequenceSpelled(c[1..], a[1..]);
      at := [0] + Later(rest);
      SpellsLater(rest, c[1..], a);
      assert c == [a[0]] + c[1..];
    } else {
      var rest := SubsequenceSpelled(c, a[1..]);
      at := Later(rest);
      SpellsLater(rest, c, a);
    }
  }

  lemma {:induction false} SpelledSubsequence<T>(at: seq<nat>, c: seq<T>, a: seq<T>)
    requires Spells(at, c, a)
    ensures Subsequence(c, a)
    decreases |a|
  {
    if c != [] {
      if at[0] == 0 {
        var rest := seq(|c| - 1, k requires 0 <= k < |c| - 1 => (at[k + 1] - 1) as nat);
        SpelledSubsequence(rest, c[1..], a[1..]);
      } else {
        var rest := seq(|c|, k requires 0 <= k < |c| => (at[k] - 1) as nat);
        SpelledSubsequence(rest, c, a[1..]);
      }
    }
  }

  ghost predicate SpelledIn<T>(c: seq<T>, a: seq<T>) {
    exists at: seq<nat> :: Spells(at, c, a)
  }

  /** The recursive test decides exactly whether some increasing choice of positions spells `c`. */
  lemma SubsequenceMeaning<T>(c: seq<T>, a: seq<T>)
    ensures Subsequence(c, a) <==> SpelledIn(c, a)
  {
    if Subsequence(c, a) {
      var at := SubsequenceSpelled(c, a);
    }
    if at: seq<nat> :| Spells(at, c, a) {
      SpelledSubsequence(at, c, a);
    }
  }

  lemma {:induction false} DropFirst<T>(c: seq<T>, a: seq<T>)
    requires c != [] && Subsequence(c, a)
    ensures a != [] && Subsequence(c[1..], a[1..])
  {
    if !(c[0] == a[0] && Subsequence(c[1..], a[1..])) {
      DropFirst(c, a[1..]);
      if |c| > 1 {
        assert Subsequence(c[1..], a[1..][1..]);
      }
    }
  }

  lemma {:induction false} Extend<T>(c: seq<T>, x: T, a: seq<T>)
    requires Subsequence(c, a)
    ensures Subsequence(c, [x] + a) && Subsequence([x] + c, [x] + a)
  {
    assert ([x] + a)[1..] == a;
    assert ([x] + c)[1..] == c;
  }
}
