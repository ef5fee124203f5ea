/** The configuration differ: ignore rules, the LCS table, the greedy walk and the printed script. */
module Diff {
  import opened Text
  import opened EditScripts
  import opened Subsequences

  /** A rule drops the lines its pattern matches, for artifacts with the given prefix ("" matches all). */
  datatype IgnoreRule = IgnoreRule(artifactPrefix: string, matches: string -> bool)

  datatype DiffResult = DiffResult(unified: string, addedLines: nat, removedLines: nat, identical: bool)

  // ---- filtering ----

  predicate RuleDrops(rule: IgnoreRule, artifact: string, line: string) {
    (rule.artifactPrefix == "" || rule.artifactPrefix <= artifact) && rule.matches(line)
  }

  predicate Ignored(rules: seq<IgnoreRule>, artifact: string, line: string) {
    exists k | 0 <= k < |rules| :: RuleDrops(rules[k], artifact, line)
  }

  function Surviving(rules: seq<IgnoreRule>, artifact: string, lines: seq<string>): (kept: seq<string>)
    ensures NewlineFree(lines) ==> NewlineFree(kept)
  {
    if lines == [] then []
    else if Ignored(rules, artifact, lines[0]) then Surviving(rules, artifact, lines[1..])
    else [lines[0]] + Surviving(rules, artifact, lines[1..])
  }

  /** The text that is compared. Without rules it is the input itself, not its re-terminated lines. */
  function Filtered(rules: seq<IgnoreRule>, artifact: string, text: string): string {
    if |rules| == 0 then text else Terminated(Surviving(rules, artifact, SplitLines(text)))
  }

  lemma TerminatedStep(out: string, line: string, rest: seq<string>)
    ensures out + Terminated([line] + rest) == (out + line + "\n") + Terminated(rest)
  {
    assert ([line] + rest)[1..] == rest;
    assert out + (line + "\n" + Terminated(rest)) == (out + line + "\n") + Terminated(rest);
  }

  /** Whether some rule drops the line, tried one after the other. */
  method Drops(rules: seq<IgnoreRule>, artifact: string, line: string) returns (drop: bool)
    ensures drop == Ignored(rules, artifact, line)
  {
    drop := false;
    for r := 0 to |rules|
      invariant forall q | 0 <= q < r :: !RuleDrops(rules[q], artifact, line)
    {
      if rules[r].artifactPrefix != "" && !(rules[r].artifactPrefix <= artifact) {
        continue;
      }
      if rules[r].matches(line) {
        assert RuleDrops(rules[r], artifact, line);
        return true;
      }
    }
  }

  /** Some rule for this artifact matches the line. */
  ghost predicate Hit(rules: seq<IgnoreRule>, artifact: string, line: string) {
    exists k | 0 <= k < |rules| ::
      (rules[k].artifactPrefix == "" || rules[k].artifactPrefix <= artifact) && rules[k].matches(line)
  }

  /** `at` are the positions of the lines that no rule for this artifact matches, and `kept` those lines, in order. */
  ghost predicate KeepsUnhit(rules: seq<IgnoreRule>, artifact: string, lines: seq<string>,
                             kept: seq<string>, at: seq<nat>) {
    Spells(at, kept, lines) && forall p: nat | p < |lines| :: p in at <==> !Hit(rules, artifact, lines[p])
  }

  /** Without rules the text itself; with rules the terminated lines that no rule for this artifact matches. */
  ghost predicate IsFiltered(rules: seq<IgnoreRule>, artifact: string, text: string, out: string) {
    if |rules| == 0 then out == text
    else
      exists kept: seq<string>, at: seq<nat> ::
        KeepsUnhit(rules, artifact, SplitLines(text), kept, at) && out == Terminated(kept)
  }

  lemma {:induction false} SurvivorsAreUnhit(rules: seq<IgnoreRule>, artifact: string, lines: seq<string>)
    returns (at: seq<nat>)
    ensures KeepsUnhit(rules, artifact, lines, Surviving(rules, artifact, lines), at)
  {
    if lines == [] {
      at := [];
    } else {
      var rest := SurvivorsAreUnhit(rules, artifact, lines[1..]);
      var tail := Surviving(rules, artifact, lines[1..]);
      SpellsLater(rest, tail, lines);
      at := if Ignored(rules, artifact, lines[0]) then Later(rest) else [0] + Later(rest);
      IgnoredIfHit(rules, artifact, lines[0]);
      PositionsShift(rest, at);
      forall p: nat | p < |lines|
        ensures p in at <==> !Hit(rules, artifact, lines[p])
      {
        assert p > 0 ==> lines[p] == lines[1..][p - 1];
      }
    }
  }

  lemma IgnoredIfHit(rules: seq<IgnoreRule>, artifact: string, line: string)
    ensures Ignored(rules, artifact, line) <==> Hit(rules, artifact, line)
  {
    assert forall k | 0 <= k < |rules| :: RuleDrops(rules[k], artifact, line) <==>
      (rules[k].artifactPrefix == "" || rules[k].artifactPrefix <= artifact) && rules[k].matches(line);
  }

  /** Positions in the tail, one further on, with or without position 0. */
  lemma PositionsShift(rest: seq<nat>, at: seq<nat>)
    requires at == Later(rest) || at == [0] + Later(rest)
    ensures 0 in at <==> at == [0] + Later(rest)
    ensures forall p: nat | p > 0 :: p in at <==> p - 1 in rest
  {
    var later := Later(rest);
    assert |at| == |later| || |at| == |later| + 1;
    forall p: nat | p > 0
      ensures p in at <==> p - 1 in rest
    {
      if p - 1 in rest {
        var k :| 0 <= k < |rest| && rest[k] == p - 1;
        assert later[k] == p && at[|at| - |later| + k] == p;
      }
      if p in at {
        var k :| 0 <= k < |at| && at[k] == p;
        assert later[k - (|at| - |later|)] == p;
      }
    }
  }

  lemma FilteredMeaning(rules: seq<IgnoreRule>, artifact: string, text: string)
    ensures IsFiltered(rules, artifact, text, Filtered(rules, artifact, text))
  {
    if |rules| > 0 {
      var at := SurvivorsAreUnhit(rules, artifact, SplitLines(text));
    }
  }

  method Filter(rules: seq<IgnoreRule>, artifact: string, text: string) returns (out: string)
    ensures IsFiltered(rules, artifact, text, out)
    ensures out == Filtered(rules, artifact, text)
  {
    FilteredMeaning(rules, artifact, text);
    if |rules| == 0 {
      return text;
    }
    out := "";
    var lines := SplitLines(text);
    for k := 0 to |lines|
      invariant out + Terminated(Surviving(rules, artifact, lines[k..])) == Filtered(rules, artifact, text)
    {
      var drop := Drops(rules, artifact, lines[k]);
      assert lines[k..][1..] == lines[k + 1..];
      if !drop {
        TerminatedStep(out, lines[k], Surviving(rules, artifact, lines[k + 1..]));
        out := out + lines[k] + "\n";
      }
    }
    assert lines[|lines|..] == [];
  }

  // ---- printing ----

  function Tagged(e: Edit<string>): string {
    match e
    case Keep(line) => "  " + line
    case Remove(line) => "- " + line
    case Add(line) => "+ " + line
  }

  function Print(script: seq<Edit<string>>): string {
    if script == [] then "" else Tagged(script[0]) + "\n" + Print(script[1..])
  }

  /** What the new text and the old text of a comparison are, line by line. */
  function ComparedLines(text: string): (lines: seq<string>)
    ensures |lines| >= 1 && NewlineFree(lines)
  {
    SplitLines(TrimRightNewlines(text))
  }

  function UnifiedSpec(a: string, b: string): DiffResult {
    var script := Walk(ComparedLines(a), ComparedLines(b));
    DiffResult(Print(script), Added(script), Removed(script), false)
  }

  function DiffSpec(rules: seq<IgnoreRule>, artifact: string, oldText: string, newText: string): DiffResult {
    var o := Filtered(rules, artifact, oldText);
    var n := Filtered(rules, artifact, newText);
    if o == n then DiffResult("", 0, 0, true) else UnifiedSpec(o, n)
  }

  // ---- the table, the walk and the whole operation ----

  /** Entry (i, j) is the LCS length of the suffixes from i and j. */
  ghost predicate IsTable(a: seq<string>, b: seq<string>, lcs: array2<nat>)
    reads lcs
  {
    && lcs.Length0 == |a| + 1 && lcs.Length1 == |b| + 1
    && forall i, j | 0 <= i <= |a| && 0 <= j <= |b| :: lcs[i, j] == LcsLen(a[i..], b[j..])
  }

  lemma LcsStep(a: seq<string>, b: seq<string>, i: nat, j: nat)
    requires i < |a| && j < |b|
    ensures
      var below, right := LcsLen(a[i + 1..], b[j..]), LcsLen(a[i..], b[j + 1..]);
      LcsLen(a[i..], b[j..]) ==
        if a[i] == b[j] then LcsLen(a[i + 1..], b[j + 1..]) + 1 else if below >= right then below else right
  {
    assert a[i..][1..] == a[i + 1..] && b[j..][1..] == b[j + 1..];
  }

  /** The entries a row must hold, and the rows below it hold, given by `entry`. */
  ghost predicate RowsHold(lcs: array2<nat>, entry: (int, int) -> int, from: nat)
    reads lcs
  {
    forall p, q | from <= p < lcs.Length0 && 0 <= q < lcs.Length1 :: lcs[p, q] == entry(p, q)
  }

  /** How an entry follows from its neighbours below, to the right and across. */
  ghost predicate Follows(a: seq<string>, b: seq<string>, entry: (int, int) -> int, i: nat, j: nat)
    requires i < |a| && j < |b|
  {
    entry(i, j) ==
      if a[i] == b[j] then entry(i + 1, j + 1) + 1
      else if entry(i + 1, j) >= entry(i, j + 1) then entry(i + 1, j)
      else entry(i, j + 1)
  }

  ghost function Entries(a: seq<string>, b: seq<string>): (int, int) -> int {
    (p: int, q: int) => if 0 <= p <= |a| && 0 <= q <= |b| then LcsLen(a[p..], b[q..]) else 0
  }

  lemma EntriesFollow(a: seq<string>, b: seq<string>)
    ensures forall i, j | 0 <= i < |a| && 0 <= j < |b| :: Follows(a, b, Entries(a, b), i, j)
    ensures forall i | 0 <= i <= |a| :: Entries(a, b)(i, |b|) == 0
    ensures forall j | 0 <= j <= |b| :: Entries(a, b)(|a|, j) == 0
  {
    forall i, j | 0 <= i < |a| && 0 <= j < |b|
      ensures Follows(a, b, Entries(a, b), i, j)
    {
      LcsStep(a, b, i, j);
    }
  }

  /** Fills the table from the bottom right corner. */
  method FillTable(a: seq<string>, b: seq<string>) returns (lcs: array2<nat>)
    ensures fresh(lcs) && IsTable(a, b, lcs)
  {
    var m, n := |a|, |b|;
    ghost var entry := Entries(a, b);
    EntriesFollow(a, b);
    lcs := new nat[m + 1, n + 1]((_, _) => 0);
    for i := m downto 0
      invariant RowsHold(lcs, entry, i)
      invariant forall p | 0 <= p <= m :: lcs[p, n] == 0
    {
      FillRow(a, b, lcs, i, entry);
    }
  }

  /** The inner loop: row `i` from the row below it. */
  method FillRow(a: seq<string>, b: seq<string>, lcs: array2<nat>, i: nat, ghost entry: (int, int) -> int)
    requires lcs.Length0 == |a| + 1 && lcs.Length1 == |b| + 1 && i < |a|
    requires RowsHold(lcs, entry, i + 1)
    requires forall p | 0 <= p <= |a| :: lcs[p, |b|] == 0
    requires entry(i, |b|) == 0 && forall j | 0 <= j < |b| :: Follows(a, b, entry, i, j)
    modifies lcs
    ensures RowsHold(lcs, entry, i)
    ensures forall p | 0 <= p <= |a| :: lcs[p, |b|] == 0
  {
    for j := |b| downto 0
      invariant RowsHold(lcs, entry, i + 1)
      invariant forall q | j <= q <= |b| :: lcs[i, q] == entry(i, q)
      invariant forall p | 0 <= p <= |a| :: lcs[p, |b|] == 0
    {
      assert Follows(a, b, entry, i, j);
      if a[i] == b[j] {
        lcs[i, j] := lcs[i + 1, j + 1] + 1;
      } else if lcs[i + 1, j] >= lcs[i, j + 1] {
        lcs[i, j] := lcs[i + 1, j];
      } else {
        lcs[i, j] := lcs[i, j + 1];
      }
    }
  }

  /** What has been printed and counted, followed by the rest of the script, is the whole script. */
  ghost predicate Progress(script: seq<Edit<string>>, todo: seq<Edit<string>>, out: string, added: nat, removed: nat) {
    && out + Print(todo) == Print(script)
    && added + Added(todo) == Added(script)
    && removed + Removed(todo) == Removed(script)
  }

  /** The three writes that print one edit. */
  function WriteLine(out: string, tag: string, line: string): string {
    out + tag + line + "\n"
  }

  lemma PrintStep(out: string, tag: string, e: Edit<string>, todo: seq<Edit<string>>)
    requires Tagged(e) == tag + e.line
    ensures WriteLine(out, tag, e.line) + Print(todo) == out + Print([e] + todo)
  {
    assert ([e] + todo)[1..] == todo;
    assert Print([e] + todo) == tag + e.line + "\n" + Print(todo);
    Regroup(out, tag, e.line, "\n", Print(todo));
  }

  lemma Regroup(out: string, tag: string, line: string, end: string, rest: string)
    ensures out + tag + line + end + rest == out + (tag + line + end + rest)
  {
  }

  /** Writing the next edit and counting it is progress. */
  lemma EmitProgress(script: seq<Edit<string>>, todo: seq<Edit<string>>, out: string, added: nat, removed: nat,
                     tag: string, e: Edit<string>)
    requires Progress(script, [e] + todo, out, added, removed)
    requires Tagged(e) == tag + e.line
    ensures Progress(script, todo, WriteLine(out, tag, e.line),
                     if e.Add? then added + 1 else added, if e.Remove? then removed + 1 else removed)
  {
    PrintStep(out, tag, e, todo);
    assert ([e] + todo)[1..] == todo;
  }

  /** The loop's state: `out` and the counts account for the walk up to positions `i` and `j`. */
  ghost predicate At(a: seq<string>, b: seq<string>, i: nat, j: nat, out: string, added: nat, removed: nat)
    requires i <= |a| && j <= |b|
  {
    Progress(Walk(a, b), Walk(a[i..], b[j..]), out, added, removed)
  }

  lemma KeepStep(a: seq<string>, b: seq<string>, i: nat, j: nat, out: string, added: nat, removed: nat)
    requires i < |a| && j < |b| && At(a, b, i, j, out, added, removed)
    requires a[i] == b[j]
    ensures At(a, b, i + 1, j + 1, WriteLine(out, "  ", a[i]), added, removed)
  {
    assert a[i..][1..] == a[i + 1..] && b[j..][1..] == b[j + 1..];
    EmitProgress(Walk(a, b), Walk(a[i + 1..], b[j + 1..]), out, added, removed, "  ", Keep(a[i]));
  }

  lemma RemoveStep(a: seq<string>, b: seq<string>, i: nat, j: nat, out: string, added: nat, removed: nat)
    requires i < |a| && j <= |b| && At(a, b, i, j, out, added, removed)
    requires j < |b| ==> a[i] != b[j] && LcsLen(a[i + 1..], b[j..]) >= LcsLen(a[i..], b[j + 1..])
    ensures At(a, b, i + 1, j, WriteLine(out, "- ", a[i]), added, removed + 1)
  {
    assert a[i..][1..] == a[i + 1..] && (j < |b| ==> b[j..][1..] == b[j + 1..]);
    EmitProgress(Walk(a, b), Walk(a[i + 1..], b[j..]), out, added, removed, "- ", Remove(a[i]));
  }

  lemma AddStep(a: seq<string>, b: seq<string>, i: nat, j: nat, out: string, added: nat, removed: nat)
    requires i <= |a| && j < |b| && At(a, b, i, j, out, added, removed)
    requires i < |a| ==> a[i] != b[j] && LcsLen(a[i + 1..], b[j..]) < LcsLen(a[i..], b[j + 1..])
    ensures At(a, b, i, j + 1, WriteLine(out, "+ ", b[j]), added + 1, removed)
  {
    assert b[j..][1..] == b[j + 1..] && (i < |a| ==> a[i..][1..] == a[i + 1..]);
    EmitProgress(Walk(a, b), Walk(a[i..], b[j + 1..]), out, added, removed, "+ ", Add(b[j]));
  }

  method Unified(a: string, b: string) returns (r: DiffResult)
    ensures r == UnifiedSpec(a, b)
  {
    var aLines := SplitLines(TrimRightNewlines(a));
    var bLines := SplitLines(TrimRightNewlines(b));
    var m, n := |aLines|, |bLines|;
    var lcs := FillTable(aLines, bLines);
    var out, added, removed := WalkTable(aLines, bLines, lcs);
    assert aLines[m..] == [] && bLines[n..] == [];
    r := DiffResult(out, added, removed, false);
  }

  lemma TableDecides(a: seq<string>, b: seq<string>, lcs: array2<nat>, i: nat, j: nat)
    requires IsTable(a, b, lcs) && i < |a| && j < |b|
    ensures lcs[i + 1, j] >= lcs[i, j + 1] <==> LcsLen(a[i + 1..], b[j..]) >= LcsLen(a[i..], b[j + 1..])
  {
  }

  method WalkTable(a: seq<string>, b: seq<string>, lcs: array2<nat>) returns (out: string, added: nat, removed: nat)
    requires IsTable(a, b, lcs)
    ensures At(a, b, |a|, |b|, out, added, removed)
  {
    var i, j := 0, 0;
    out, added, removed := "", 0, 0;
    assert a[0..] == a && b[0..] == b;
    while i < |a| && j < |b|
      invariant i <= |a| && j <= |b|
      invariant At(a, b, i, j, out, added, removed)
    {
      var dropOld := lcs[i + 1, j] >= lcs[i, j + 1];
      TableDecides(a, b, lcs, i, j);
      if a[i] == b[j] {
        KeepStep(a, b, i, j, out, added, removed);
        out, i, j := WriteLine(out, "  ", a[i]), i + 1, j + 1;
      } else if dropOld {
        RemoveStep(a, b, i, j, out, added, removed);
        out, removed, i := WriteLine(out, "- ", a[i]), removed + 1, i + 1;
      } else {
        AddStep(a, b, i, j, out, added, removed);
        out, added, j := WriteLine(out, "+ ", b[j]), added + 1, j + 1;
      }
    }
    if i < |a| {
      out, removed := RemoveRest(a, b, i, out, added, removed);
    } else {
      out, added := AddRest(a, b, j, out, added, removed);
    }
  }

  /** Nothing is left of the new text: the rest of the old is removed. */
  method RemoveRest(a: seq<string>, b: seq<string>, i0: nat, out0: string, added: nat, removed0: nat)
    returns (out: string, removed: nat)
    requires i0 <= |a| && At(a, b, i0, |b|, out0, added, removed0)
    ensures At(a, b, |a|, |b|, out, added, removed)
  {
    out, removed := out0, removed0;
    for i := i0 to |a|
      invariant At(a, b, i, |b|, out, added, removed)
    {
      RemoveStep(a, b, i, |b|, out, added, removed);
      out, removed := WriteLine(out, "- ", a[i]), removed + 1;
    }
  }

  /** Nothing is left of the old text: the rest of the new is added. */
  method AddRest(a: seq<string>, b: seq<string>, j0: nat, out0: string, added0: nat, removed: nat)
    returns (out: string, added: nat)
    requires j0 <= |b| && At(a, b, |a|, j0, out0, added0, removed)
    ensures At(a, b, |a|, |b|, out, added, removed)
  {
    out, added := out0, added0;
    for j := j0 to |b|
      invariant At(a, b, |a|, j, out, added, removed)
    {
      AddStep(a, b, |a|, j, out, added, removed);
      out, added := WriteLine(out, "+ ", b[j]), added + 1;
    }
  }

  method Diff(rules: seq<IgnoreRule>, artifact: string, oldText: string, newText: string) returns (r: DiffResult)
    ensures exists o, n ::
              && IsFiltered(rules, artifact, oldText, o) && IsFiltered(rules, artifact, newText, n)
              && (r.identical <==> o == n)
              && (o != n ==> r == UnifiedSpec(o, n))
    ensures r == DiffSpec(rules, artifact, oldText, newText)
  {
    var o := Filter(rules, artifact, oldText);
    var n := Filter(rules, artifact, newText);
    if o == n {
      return DiffResult("", 0, 0, true);
    }
    r := Unified(o, n);
  }

  // ---- reading the printed script back ----

  datatype Reading = Readable(script: seq<Edit<string>>) | Unreadable

  /** One printed line, read by its first two characters. */
  function ReadLine(line: string): Reading {
    if |line| < 2 then Unreadable
    else if line[..2] == "  " then Readable([Keep(line[2..])])
    else if line[..2] == "- " then Readable([Remove(line[2..])])
    else if line[..2] == "+ " then Readable([Add(line[2..])])
    else Unreadable
  }

  function ReadLines(lines: seq<string>): Reading {
    if lines == [] then Readable([])
    else
      match (ReadLine(lines[0]), ReadLines(lines[1..]))
      case (Readable(head), Readable(tail)) => Readable(head + tail)
      case _ => Unreadable
  }

  /** Reads printed diff text: every line is newline-terminated, so what follows the last newline is empty. */
  function ReadBack(text: string): Reading {
    var lines := SplitLines(text);
    if lines[|lines| - 1] != "" then Unreadable else ReadLines(lines[..|lines| - 1])
  }

  ghost predicate LinesNewlineFree(script: seq<Edit<string>>) {
    forall k | 0 <= k < |script| :: '\n' !in script[k].line
  }

  function PrintedLines(script: seq<Edit<string>>): seq<string> {
    if script == [] then [] else [Tagged(script[0])] + PrintedLines(script[1..])
  }

  lemma {:induction false} PrintIsTerminated(script: seq<Edit<string>>)
    requires LinesNewlineFree(script)
    ensures Print(script) == Terminated(PrintedLines(script))
    ensures NewlineFree(PrintedLines(script))
    ensures ReadLines(PrintedLines(script)) == Readable(script)
  {
    if script != [] {
      PrintIsTerminated(script[1..]);
      var lines := PrintedLines(script);
      assert lines[1..] == PrintedLines(script[1..]);
      assert Tagged(script[0])[2..] == script[0].line;
      assert script == [script[0]] + script[1..];
    }
  }

  /** Printing loses nothing: the tags and line breaks determine the script. */
  lemma {:induction false} PrintReadsBack(script: seq<Edit<string>>)
    requires LinesNewlineFree(script)
    ensures ReadBack(Print(script)) == Readable(script)
  {
    PrintIsTerminated(script);
    var lines := PrintedLines(script);
    SplitTerminated(lines);
    assert (lines + [""])[..|lines|] == lines;
  }

  lemma {:induction false} MentionedLinesNewlineFree(script: seq<Edit<string>>)
    requires NewlineFree(OldOf(script)) && NewlineFree(NewOf(script))
    ensures LinesNewlineFree(script)
  {
    if script != [] {
      var old', new' := OldOf(script[1..]), NewOf(script[1..]);
      assert script[0].Add? || OldOf(script) == [script[0].line] + old';
      assert script[0].Remove? || NewOf(script) == [script[0].line] + new';
      assert forall k | 0 <= k < |old'| :: old'[k] == OldOf(script)[|OldOf(script)| - |old'| + k];
      assert forall k | 0 <= k < |new'| :: new'[k] == NewOf(script)[|NewOf(script)| - |new'| + k];
      assert script[0].Add? ==> NewOf(script)[0] == script[0].line;
      assert !script[0].Add? ==> OldOf(script)[0] == script[0].line;
      MentionedLinesNewlineFree(script[1..]);
    }
  }

  // ---- main results ----

  /**
   * The printed text of a non-identical result, read line by line by its tags, spells the trimmed old lines
   * (kept and removed) and the trimmed new lines (kept and added), and the reported counts are the tag counts.
   */
  lemma {:induction false} PrintedDiffReplays(rules: seq<IgnoreRule>, artifact: string,
                                              oldText: string, newText: string)
    ensures
      var r := DiffSpec(rules, artifact, oldText, newText);
      !r.identical ==>
        && ReadBack(r.unified).Readable?
        && var script := ReadBack(r.unified).script;
        && OldOf(script) == ComparedLines(Filtered(rules, artifact, oldText))
        && NewOf(script) == ComparedLines(Filtered(rules, artifact, newText))
        && Added(script) == r.addedLines
        && Removed(script) == r.removedLines
  {
    var a := ComparedLines(Filtered(rules, artifact, oldText));
    var b := ComparedLines(Filtered(rules, artifact, newText));
    WalkRewrites(a, b);
    MentionedLinesNewlineFree(Walk(a, b));
    PrintReadsBack(Walk(a, b));
  }

  /** No insert/delete script between the compared texts changes fewer lines than the differ reports. */
  lemma DiffIsMinimal(rules: seq<IgnoreRule>, artifact: string, oldText: string, newText: string,
                      script: seq<Edit<string>>)
    requires Rewrites(script, ComparedLines(Filtered(rules, artifact, oldText)),
                      ComparedLines(Filtered(rules, artifact, newText)))
    ensures
      var r := DiffSpec(rules, artifact, oldText, newText);
      r.addedLines <= Added(script) && r.removedLines <= Removed(script)
  {
    WalkIsMinimal(ComparedLines(Filtered(rules, artifact, oldText)),
                  ComparedLines(Filtered(rules, artifact, newText)));
  }

  /** Swapping the two versions swaps the counts and keeps the verdict. */
  lemma DiffSwap(rules: seq<IgnoreRule>, artifact: string, oldText: string, newText: string)
    ensures
      var r, s := DiffSpec(rules, artifact, oldText, newText), DiffSpec(rules, artifact, newText, oldText);
      r.addedLines == s.removedLines && r.removedLines == s.addedLines && r.identical == s.identical
  {
    WalkSwapsCounts(ComparedLines(Filtered(rules, artifact, oldText)),
                    ComparedLines(Filtered(rules, artifact, newText)));
  }

  /** Both counts are zero exactly when the filtered texts agree up to trailing newlines. */
  lemma ZeroCountsIff(rules: seq<IgnoreRule>, artifact: string, oldText: string, newText: string)
    ensures
      var r := DiffSpec(rules, artifact, oldText, newText);
      (r.addedLines == 0 && r.removedLines == 0) <==>
      TrimRightNewlines(Filtered(rules, artifact, oldText)) == TrimRightNewlines(Filtered(rules, artifact, newText))
  {
    var o, n := Filtered(rules, artifact, oldText), Filtered(rules, artifact, newText);
    var a, b := ComparedLines(o), ComparedLines(n);
    WalkRewrites(a, b);
    if Added(Walk(a, b)) == 0 && Removed(Walk(a, b)) == 0 {
      NoChangesMeansEqual(Walk(a, b));
      SplitInjective(TrimRightNewlines(o), TrimRightNewlines(n));
    }
    if a == b {
      WalkSame(a);
    }
  }

  /** Texts that differ in a trailing newline only are not identical, and yet nothing is added or removed. */
  lemma NotIdenticalWithoutChanges(artifact: string)
    ensures
      var r := DiffSpec([], artifact, "a\n", "a");
      !r.identical && r.addedLines == 0 && r.removedLines == 0
  {
    ZeroCountsIff([], artifact, "a\n", "a");
    assert "a\n"[..1] == "a" == TrimRightNewlines("a");
  }

  /** With rules in force, two texts filter alike exactly when their surviving lines are the same list. */
  lemma FilteredIff(rules: seq<IgnoreRule>, artifact: string, s: string, t: string)
    requires |rules| > 0
    ensures Filtered(rules, artifact, s) == Filtered(rules, artifact, t) <==>
            Surviving(rules, artifact, SplitLines(s)) == Surviving(rules, artifact, SplitLines(t))
  {
    if Filtered(rules, artifact, s) == Filtered(rules, artifact, t) {
      TerminatedInjective(Surviving(rules, artifact, SplitLines(s)), Surviving(rules, artifact, SplitLines(t)));
    }
  }

  lemma {:induction false} SurvivingAppend(rules: seq<IgnoreRule>, artifact: string, x: seq<string>, y: seq<string>)
    ensures Surviving(rules, artifact, x + y) == Surviving(rules, artifact, x) + Surviving(rules, artifact, y)
  {
    if x == [] {
      assert x + y == y;
    } else {
      assert (x + y)[1..] == x[1..] + y;
      SurvivingAppend(rules, artifact, x[1..], y);
    }
  }

  lemma {:induction false} AllIgnoredVanish(rules: seq<IgnoreRule>, artifact: string, lines: seq<string>)
    requires forall k | 0 <= k < |lines| :: Ignored(rules, artifact, lines[k])
    ensures Surviving(rules, artifact, lines) == []
  {
    if lines != [] {
      AllIgnoredVanish(rules, artifact, lines[1..]);
    }
  }

  lemma {:induction false} NoRulesKeepAll(rules: seq<IgnoreRule>, artifact: string, lines: seq<string>)
    requires |rules| == 0
    ensures Surviving(rules, artifact, lines) == lines
  {
    if lines != [] {
      NoRulesKeepAll(rules, artifact, lines[1..]);
    }
  }

  /** `longer` is `shorter` with a block of whole ignored lines inserted between two of its lines, or at an end. */
  ghost predicate InsertsIgnored(rules: seq<IgnoreRule>, artifact: string, shorter: string, longer: string) {
    exists before: seq<string>, noise: seq<string>, after: seq<string> ::
      && SplitLines(shorter) == before + after
      && SplitLines(longer) == before + noise + after
      && forall k | 0 <= k < |noise| :: Ignored(rules, artifact, noise[k])
  }

  lemma IgnoredLinesVanish(rules: seq<IgnoreRule>, artifact: string, shorter: string, longer: string)
    requires InsertsIgnored(rules, artifact, shorter, longer)
    ensures Filtered(rules, artifact, shorter) == Filtered(rules, artifact, longer)
  {
    var before: seq<string>, noise: seq<string>, after: seq<string> :|
      && SplitLines(shorter) == before + after
      && SplitLines(longer) == before + noise + after
      && forall k | 0 <= k < |noise| :: Ignored(rules, artifact, noise[k]);
    AllIgnoredVanish(rules, artifact, noise);
    SurvivingAppend(rules, artifact, before, after);
    SurvivingAppend(rules, artifact, before + noise, after);
    SurvivingAppend(rules, artifact, before, noise);
    assert Surviving(rules, artifact, before + noise) == Surviving(rules, artifact, before);
    if |rules| == 0 {
      NoRulesKeepAll(rules, artifact, before + after);
      NoRulesKeepAll(rules, artifact, before + noise + after);
      SplitInjective(shorter, longer);
    }
  }

  /** Inserting or removing whole ignored lines anywhere, in either version, changes nothing in the result. */
  lemma {:induction false} IgnoredLinesNeverMatter(rules: seq<IgnoreRule>, artifact: string,
                                                   oldText: string, oldText': string, newText: string, newText': string)
    requires oldText == oldText' || InsertsIgnored(rules, artifact, oldText, oldText')
             || InsertsIgnored(rules, artifact, oldText', oldText)
    requires newText == newText' || InsertsIgnored(rules, artifact, newText, newText')
             || InsertsIgnored(rules, artifact, newText', newText)
    ensures DiffSpec(rules, artifact, oldText, newText) == DiffSpec(rules, artifact, oldText', newText')
  {
    if InsertsIgnored(rules, artifact, oldText, oldText') {
      IgnoredLinesVanish(rules, artifact, oldText, oldText');
    } else if InsertsIgnored(rules, artifact, oldText', oldText) {
      IgnoredLinesVanish(rules, artifact, oldText', oldText);
    }
    if InsertsIgnored(rules, artifact, newText, newText') {
      IgnoredLinesVanish(rules, artifact, newText, newText');
    } else if InsertsIgnored(rules, artifact, newText', newText) {
      IgnoredLinesVanish(rules, artifact, newText', newText);
    }
  }
}
