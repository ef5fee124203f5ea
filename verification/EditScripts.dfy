/** Longest common subsequences and insert/delete scripts over any kind of line. */
module EditScripts {
  import opened Subsequences

  /** The recurrence that the bottom-up table fills. */
  function LcsLen<T(==)>(a: seq<T>, b: seq<T>): nat
    decreases |a| + |b|
  {
    if a == [] || b == [] then 0
    else if a[0] == b[0] then LcsLen(a[1..], b[1..]) + 1
    else if LcsLen(a[1..], b) >= LcsLen(a, b[1..]) then LcsLen(a[1..], b)
    else LcsLen(a, b[1..])
  }

  ghost predicate Common<T>(c: seq<T>, a: seq<T>, b: seq<T>) {
    Subsequence(c, a) && Subsequence(c, b)
  }

  datatype Edit<T> = Keep(line: T) | Remove(line: T) | Add(line: T)

  /** The lines of the old text that a script mentions: those kept and those removed. */
  function OldOf<T>(script: seq<Edit<T>>): seq<T> {
    if script == [] then []
    else if script[0].Add? then OldOf(script[1..])
    else [script[0].line] + OldOf(script[1..])
  }

  /** The lines of the new text that a script mentions: those kept and those added. */
  function NewOf<T>(script: seq<Edit<T>>): seq<T> {
    if script == [] then []
    else if script[0].Remove? then NewOf(script[1..])
    else [script[0].line] + NewOf(script[1..])
  }

  function Added<T>(script: seq<Edit<T>>): nat {
    if script == [] then 0 else (if script[0].Add? then 1 else 0) + Added(script[1..])
  }

  function Removed<T>(script: seq<Edit<T>>): nat {
    if script == [] then 0 else (if script[0].Remove? then 1 else 0) + Removed(script[1..])
  }

  ghost function KeptOf<T>(script: seq<Edit<T>>): seq<T> {
    if script == [] then []
    else if script[0].Keep? then [script[0].line] + KeptOf(script[1..])
    else KeptOf(script[1..])
  }

  ghost predicate Rewrites<T>(script: seq<Edit<T>>, a: seq<T>, b: seq<T>) {
    OldOf(script) == a && NewOf(script) == b
  }

  /** The greedy walk over the table: keep equal heads, otherwise prefer removal on ties. */
  function Walk<T(==)>(a: seq<T>, b: seq<T>): seq<Edit<T>>
    decreases |a| + |b|
  {
    if a == [] && b == [] then []
    else if b == [] then [Remove(a[0])] + Walk(a[1..], b)
    else if a == [] then [Add(b[0])] + Walk(a, b[1..])
    else if a[0] == b[0] then [Keep(a[0])] + Walk(a[1..], b[1..])
    else if LcsLen(a[1..], b) >= LcsLen(a, b[1..]) then [Remove(a[0])] + Walk(a[1..], b)
    else [Add(b[0])] + Walk(a, b[1..])
  }

  // ---- the table entry is the true maximum ----

  lemma {:induction false} LcsUpperBound<T>(c: seq<T>, a: seq<T>, b: seq<T>)
    requires Common(c, a, b)
    ensures |c| <= LcsLen(a, b)
    decreases |a| + |b|
  {
    if c != [] {
      if a[0] == b[0] {
        DropFirst(c, a);
        DropFirst(c, b);
        LcsUpperBound(c[1..], a[1..], b[1..]);
      } else if c[0] != a[0] {
        LcsUpperBound(c, a[1..], b);
      } else {
        LcsUpperBound(c, a, b[1..]);
      }
    }
  }

  lemma {:induction false} LcsAttained<T>(a: seq<T>, b: seq<T>) returns (c: seq<T>)
    ensures Common(c, a, b) && |c| == LcsLen(a, b)
    decreases |a| + |b|
  {
    if a == [] || b == [] {
      c := [];
    } else if a[0] == b[0] {
      var rest := LcsAttained(a[1..], b[1..]);
      c := [a[0]] + rest;
      assert c[1..] == rest;
    } else if LcsLen(a[1..], b) >= LcsLen(a, b[1..]) {
      c := LcsAttained(a[1..], b);
    } else {
      c := LcsAttained(a, b[1..]);
    }
  }

  /** The recurrence computes the length of a longest common subsequence, and nothing shorter or longer. */
  lemma LcsIsMaximum<T>(a: seq<T>, b: seq<T>)
    ensures exists c: seq<T> :: Common(c, a, b) && |c| == LcsLen(a, b)
    ensures forall c: seq<T> :: Common(c, a, b) ==> |c| <= LcsLen(a, b)
  {
    var c := LcsAttained(a, b);
    forall d: seq<T> | Common(d, a, b)
      ensures |d| <= LcsLen(a, b)
    {
      LcsUpperBound(d, a, b);
    }
  }

  lemma LcsSymmetric<T>(a: seq<T>, b: seq<T>)
    ensures LcsLen(a, b) == LcsLen(b, a)
  {
    var c := LcsAttained(a, b);
    LcsUpperBound(c, b, a);
    var d := LcsAttained(b, a);
    LcsUpperBound(d, a, b);
  }

  // ---- scripts ----

  lemma {:induction false} KeptIsCommon<T>(script: seq<Edit<T>>)
    ensures Common(KeptOf(script), OldOf(script), NewOf(script))
    ensures |OldOf(script)| == |KeptOf(script)| + Removed(script)
    ensures |NewOf(script)| == |KeptOf(script)| + Added(script)
  {
    if script != [] {
      var rest := script[1..];
      KeptIsCommon(rest);
      if script[0].Keep? {
        Extend(KeptOf(rest), script[0].line, OldOf(rest));
        Extend(KeptOf(rest), script[0].line, NewOf(rest));
      } else if script[0].Remove? {
        Extend(KeptOf(rest), script[0].line, OldOf(rest));
      } else {
        Extend(KeptOf(rest), script[0].line, NewOf(rest));
      }
    }
  }

  lemma {:induction false} WalkRewrites<T>(a: seq<T>, b: seq<T>)
    ensures Rewrites(Walk(a, b), a, b)
    ensures |KeptOf(Walk(a, b))| == LcsLen(a, b)
    decreases |a| + |b|
  {
    if a == [] && b == [] {
    } else if b == [] {
      WalkRewrites(a[1..], b);
    } else if a == [] {
      WalkRewrites(a, b[1..]);
    } else if a[0] == b[0] {
      WalkRewrites(a[1..], b[1..]);
    } else if LcsLen(a[1..], b) >= LcsLen(a, b[1..]) {
      WalkRewrites(a[1..], b);
    } else {
      WalkRewrites(a, b[1..]);
    }
  }

  /**
   * The walk turns `a` into `b`, drops and adds exactly what a longest common subsequence leaves over,
   * and no script between the same texts has fewer removals or fewer additions.
   */
  lemma {:induction false} WalkIsMinimal<T>(a: seq<T>, b: seq<T>)
    ensures Rewrites(Walk(a, b), a, b)
    ensures Added(Walk(a, b)) == |b| - LcsLen(a, b)
    ensures Removed(Walk(a, b)) == |a| - LcsLen(a, b)
    ensures forall script | Rewrites(script, a, b) ::
              Added(Walk(a, b)) <= Added(script) && Removed(Walk(a, b)) <= Removed(script)
  {
    WalkRewrites(a, b);
    KeptIsCommon(Walk(a, b));
    forall script | Rewrites(script, a, b)
      ensures Added(Walk(a, b)) <= Added(script) && Removed(Walk(a, b)) <= Removed(script)
    {
      KeptIsCommon(script);
      LcsUpperBound(KeptOf(script), a, b);
    }
  }

  // ---- which minimal script it is ----

  function Cost<T>(script: seq<Edit<T>>): nat {
    Added(script) + Removed(script)
  }

  ghost predicate Minimal<T(!new)>(script: seq<Edit<T>>, a: seq<T>, b: seq<T>) {
    Rewrites(script, a, b) && forall other | Rewrites(other, a, b) :: Cost(script) <= Cost(other)
  }

  /** Keeping comes before removing, and removing before adding. */
  function Rank<T>(e: Edit<T>): nat {
    if e.Keep? then 0 else if e.Remove? then 1 else 2
  }

  /** The same script, or one whose edit comes earlier where they first differ. */
  ghost predicate NotLater<T>(s: seq<Edit<T>>, t: seq<Edit<T>>) {
    s == t || exists p: nat :: EarlierAt(s, t, p)
  }

  ghost predicate EarlierAt<T>(s: seq<Edit<T>>, t: seq<Edit<T>>, p: nat) {
    p < |s| && p < |t| && s[..p] == t[..p] && Rank(s[p]) < Rank(t[p])
  }

  /** As few changes as the longest common subsequence allows. */
  ghost predicate Optimal<T>(script: seq<Edit<T>>, a: seq<T>, b: seq<T>) {
    Rewrites(script, a, b) && Cost(script) == |a| + |b| - 2 * LcsLen(a, b)
  }

  lemma CostBound<T>(script: seq<Edit<T>>, a: seq<T>, b: seq<T>)
    requires Rewrites(script, a, b)
    ensures Cost(script) >= |a| + |b| - 2 * LcsLen(a, b)
  {
    KeptIsCommon(script);
    LcsUpperBound(KeptOf(script), a, b);
  }

  lemma NotLaterAhead<T>(e: Edit<T>, s: seq<Edit<T>>, t: seq<Edit<T>>)
    requires NotLater(s, t)
    ensures NotLater([e] + s, [e] + t)
  {
    if p: nat :| EarlierAt(s, t, p) {
      assert ([e] + s)[..p + 1] == [e] + s[..p] && ([e] + t)[..p + 1] == [e] + t[..p];
      assert EarlierAt([e] + s, [e] + t, p + 1);
    }
  }

  /** The texts that the rest of a script rewrites, after its first edit. */
  lemma RestRewrites<T>(script: seq<Edit<T>>, a: seq<T>, b: seq<T>)
    requires script != [] && Rewrites(script, a, b)
    ensures
      match script[0]
      case Keep(line) => a != [] && b != [] && a[0] == line == b[0] && Rewrites(script[1..], a[1..], b[1..])
      case Remove(line) => a != [] && a[0] == line && Rewrites(script[1..], a[1..], b)
      case Add(line) => b != [] && b[0] == line && Rewrites(script[1..], a, b[1..])
  {
  }

  lemma {:induction false} WalkIsFirstOptimal<T>(script: seq<Edit<T>>, a: seq<T>, b: seq<T>)
    requires Optimal(script, a, b)
    ensures NotLater(Walk(a, b), script)
    decreases |script|
  {
    if script != [] {
      var walk, rest := Walk(a, b), script[1..];
      RestRewrites(script, a, b);
      WalkRewrites(a, b);
      assert walk != [];
      RestRewrites(walk, a, b);
      match script[0] {
        case Keep(_) =>
          WalkIsFirstOptimal(rest, a[1..], b[1..]);
        case Remove(_) =>
          CostBound(rest, a[1..], b);
          if walk[0].Remove? {
            WalkIsFirstOptimal(rest, a[1..], b);
          }
        case Add(_) =>
          CostBound(rest, a, b[1..]);
          if walk[0].Add? {
            WalkIsFirstOptimal(rest, a, b[1..]);
          }
      }
      assert script == [script[0]] + rest && walk == [walk[0]] + walk[1..];
      if walk[0] == script[0] {
        NotLaterAhead(walk[0], walk[1..], rest);
      } else {
        assert EarlierAt(walk, script, 0);
      }
    }
  }

  /**
   * Among all minimal scripts between two texts the walk is the one that keeps as early as it can and otherwise removes
   * as early as it can: no other has an earlier kind of edit where they first differ.
   */
  lemma {:induction false} WalkIsFirst<T(!new)>(script: seq<Edit<T>>, a: seq<T>, b: seq<T>)
    requires Minimal(script, a, b)
    ensures Minimal(Walk(a, b), a, b) && NotLater(Walk(a, b), script)
  {
    WalkIsMinimal(a, b);
    CostBound(script, a, b);
    WalkIsFirstOptimal(script, a, b);
  }

  lemma WalkSwapsCounts<T>(a: seq<T>, b: seq<T>)
    ensures Added(Walk(a, b)) == Removed(Walk(b, a))
    ensures Removed(Walk(a, b)) == Added(Walk(b, a))
  {
    WalkIsMinimal(a, b);
    WalkIsMinimal(b, a);
    LcsSymmetric(a, b);
  }

  lemma {:induction false} NoChangesMeansEqual<T>(script: seq<Edit<T>>)
    requires Added(script) == 0 && Removed(script) == 0
    ensures OldOf(script) == NewOf(script)
  {
    if script != [] {
      NoChangesMeansEqual(script[1..]);
    }
  }

  lemma {:induction false} WalkSame<T>(a: seq<T>)
    ensures Added(Walk(a, a)) == 0 && Removed(Walk(a, a)) == 0
  {
    if a != [] {
      WalkSame(a[1..]);
    }
  }
}
