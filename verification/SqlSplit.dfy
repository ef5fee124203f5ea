/** Splitting a migration script into statements at its top-level semicolons. */
module SqlSplit {
  import opened Text

  datatype Mode = InCode | Quoted | Comment

  /** How the next position is read, from this one's mode and character and whether a dash follows. */
  function NextMode(mode: Mode, c: char, dashFollows: bool): Mode {
    match mode
    case Comment => if c == '\n' then InCode else Comment
    case Quoted => if c == '\'' then InCode else Quoted
    case InCode => if c == '-' && dashFollows then Comment else if c == '\'' then Quoted else InCode
  }

  predicate DashAt(s: string, k: nat) {
    k < |s| && s[k] == '-'
  }

  /** How position `k` is read: inside code, a string literal or a line comment. A doubled quote closes and reopens. */
  function ModeAt(s: string, k: nat): Mode
    requires k <= |s|
  {
    if k == 0 then InCode else NextMode(ModeAt(s, k - 1), s[k - 1], DashAt(s, k))
  }

  /** A semicolon outside literals and comments. */
  predicate IsBreak(s: string, k: nat)
    requires k < |s|
  {
    s[k] == ';' && ModeAt(s, k) == InCode
  }

  /** Where the statement that position `k` belongs to begins. */
  function StartBefore(s: string, k: nat): (start: nat)
    requires k <= |s|
    ensures start <= k
  {
    if k == 0 then 0 else if IsBreak(s, k - 1) then k else StartBefore(s, k - 1)
  }

  /** The statements ended by a break before position `k`. */
  function PiecesBefore(s: string, k: nat): seq<string>
    requires k <= |s|
  {
    if k == 0 then []
    else if IsBreak(s, k - 1) then PiecesBefore(s, k - 1) + [s[StartBefore(s, k - 1)..k - 1]]
    else PiecesBefore(s, k - 1)
  }

  /** What follows the last break. */
  function TailOf(s: string): string {
    s[StartBefore(s, |s|)..]
  }

  function Statements(s: string): seq<string> {
    PiecesBefore(s, |s|) + if Blank(TailOf(s)) then [] else [TailOf(s)]
  }

  /** One character further: a break ends a piece, anything else joins the current one. */
  lemma Advance(s: string, k: nat)
    requires k < |s|
    ensures ModeAt(s, k + 1) == NextMode(ModeAt(s, k), s[k], DashAt(s, k + 1))
    ensures !IsBreak(s, k) ==>
              && s[StartBefore(s, k + 1)..k + 1] == s[StartBefore(s, k)..k] + [s[k]]
              && PiecesBefore(s, k + 1) == PiecesBefore(s, k)
    ensures IsBreak(s, k) ==>
              && s[StartBefore(s, k + 1)..k + 1] == ""
              && PiecesBefore(s, k + 1) == PiecesBefore(s, k) + [s[StartBefore(s, k)..k]]
  {
  }

  method SplitStatements(script: string) returns (out: seq<string>)
    ensures out == Statements(script)
  {
    out := [];
    var buf, inString, inLine, i := "", false, false, 0;
    while i < |script|
      invariant 0 <= i <= |script|
      invariant !(inLine && inString)
      invariant ModeAt(script, i) == if inLine then Comment else if inString then Quoted else InCode
      invariant buf == script[StartBefore(script, i)..i]
      invariant out == PiecesBefore(script, i)
    {
      var c := script[i];
      Advance(script, i);
      i := i + 1;
      if inLine {
        if c == '\n' {
          inLine := false;
        }
        buf := buf + [c];
        continue;
      }
      if inString {
        if c == '\'' {
          if i < |script| && script[i] == '\'' {
            Advance(script, i);
            buf := buf + [c];
            buf := buf + [script[i]];
            i := i + 1;
            continue;
          }
          inString := false;
        }
        buf := buf + [c];
        continue;
      }
      if c == '-' && i < |script| && script[i] == '-' {
        inLine := true;
        buf := buf + [c];
        continue;
      }
      if c == '\'' {
        inString := true;
        buf := buf + [c];
        continue;
      }
      if c == ';' {
        out := out + [buf];
        buf := "";
        continue;
      }
      buf := buf + [c];
    }
    assert buf == TailOf(script);
    if !Blank(buf) {
      out := out + [buf];
    } else {
      assert out + [] == out;
    }
  }

  // ---- exactly the top-level semicolons ----

  /** `cuts` lists every break before position `k`, in order. */
  ghost predicate ListsBreaks(s: string, k: nat, cuts: seq<nat>)
    requires k <= |s|
  {
    && (forall i | 0 <= i < |cuts| :: cuts[i] < k && IsBreak(s, cuts[i]))
    && (forall i, j | 0 <= i < j < |cuts| :: cuts[i] < cuts[j])
    && (forall p | 0 <= p < k && IsBreak(s, p) :: p in cuts)
  }

  function CutStart(cuts: seq<nat>, i: nat): nat
    requires i <= |cuts|
  {
    if i == 0 then 0 else cuts[i - 1] + 1
  }

  /** The breaks before position `k`, in order. */
  function BreaksBefore(s: string, k: nat): seq<nat>
    requires k <= |s|
  {
    if k == 0 then [] else BreaksBefore(s, k - 1) + if IsBreak(s, k - 1) then [k - 1] else []
  }

  lemma {:induction false} BreaksAreListed(s: string, k: nat)
    requires k <= |s|
    ensures ListsBreaks(s, k, BreaksBefore(s, k))
  {
    if k > 0 {
      BreaksAreListed(s, k - 1);
      var before, cuts := BreaksBefore(s, k - 1), BreaksBefore(s, k);
      forall p | 0 <= p < k && IsBreak(s, p)
        ensures p in cuts
      {
        if p == k - 1 {
          assert cuts[|before|] == p;
        } else {
          assert p in before;
        }
      }
    }
  }

  /** `piece` is the text between cut i - 1, or the beginning, and cut i. */
  ghost predicate LiesBetween(s: string, cuts: seq<nat>, i: nat, piece: string)
    requires i < |cuts|
  {
    CutStart(cuts, i) <= cuts[i] <= |s| && piece == s[CutStart(cuts, i)..cuts[i]]
  }

  lemma {:induction false} PiecesLieBetweenBreaks(s: string, k: nat)
    requires k <= |s|
    ensures
      var cuts := BreaksBefore(s, k);
      && |cuts| == |PiecesBefore(s, k)|
      && StartBefore(s, k) == CutStart(cuts, |cuts|)
      && forall i | 0 <= i < |cuts| :: LiesBetween(s, cuts, i, PiecesBefore(s, k)[i])
  {
    if k > 0 {
      PiecesLieBetweenBreaks(s, k - 1);
      var before, cuts := BreaksBefore(s, k - 1), BreaksBefore(s, k);
      forall i | 0 <= i < |cuts|
        ensures LiesBetween(s, cuts, i, PiecesBefore(s, k)[i])
      {
        assert CutStart(cuts, i) == CutStart(before, i);
        assert i < |before| ==> LiesBetween(s, before, i, PiecesBefore(s, k - 1)[i]);
      }
    }
  }

  /**
   * The script is broken at exactly its semicolons outside comments and literals: piece i is the text between two
   * neighbouring ones, and the text after the last is a further piece unless it is blank.
   */
  lemma SplitsAtTopLevelSemicolons(s: string) returns (cuts: seq<nat>)
    ensures ListsBreaks(s, |s|, cuts)
    ensures |Statements(s)| == |cuts| + if Blank(s[CutStart(cuts, |cuts|)..]) then 0 else 1
    ensures forall i | 0 <= i < |cuts| :: LiesBetween(s, cuts, i, Statements(s)[i])
    ensures !Blank(s[CutStart(cuts, |cuts|)..]) ==> Statements(s)[|cuts|] == s[CutStart(cuts, |cuts|)..]
  {
    cuts := BreaksBefore(s, |s|);
    BreaksAreListed(s, |s|);
    PiecesLieBetweenBreaks(s, |s|);
  }

  // ---- nothing is lost ----

  function Rejoined(pieces: seq<string>): string {
    if pieces == [] then "" else Rejoined(pieces[..|pieces| - 1]) + pieces[|pieces| - 1] + ";"
  }

  lemma RejoinedOneMore(before: seq<string>, piece: string)
    ensures Rejoined(before + [piece]) == Rejoined(before) + piece + ";"
  {
    assert (before + [piece])[..|before|] == before;
  }

  lemma {:induction false} PiecesRejoin(s: string, k: nat)
    requires k <= |s|
    ensures Rejoined(PiecesBefore(s, k)) + s[StartBefore(s, k)..k] == s[..k]
  {
    if k > 0 {
      PiecesRejoin(s, k - 1);
      var before, start := PiecesBefore(s, k - 1), StartBefore(s, k - 1);
      assert s[..k] == s[..k - 1] + [s[k - 1]];
      if IsBreak(s, k - 1) {
        var piece := s[start..k - 1];
        RejoinedOneMore(before, piece);
      } else {
        assert s[start..k] == s[start..k - 1] + [s[k - 1]];
        assert Rejoined(before) + s[start..k] == Rejoined(before) + s[start..k - 1] + [s[k - 1]];
      }
    }
  }

  /**
   * Following every piece by a semicolon, and the blank tail that was dropped, gives back the script; if the tail was
   * not blank it is the last piece and has no semicolon.
   */
  lemma StatementsRejoin(s: string)
    ensures Blank(TailOf(s)) ==> Rejoined(Statements(s)) + TailOf(s) == s
    ensures !Blank(TailOf(s)) ==>
              var n := |Statements(s)| - 1;
              Rejoined(Statements(s)[..n]) + Statements(s)[n] == s
  {
    PiecesRejoin(s, |s|);
    assert s[..|s|] == s;
    assert (PiecesBefore(s, |s|) + [TailOf(s)])[..|PiecesBefore(s, |s|)|] == PiecesBefore(s, |s|);
    assert PiecesBefore(s, |s|) + [] == PiecesBefore(s, |s|);
  }

  // ---- what the modes mean ----

  function Escaped(text: string): string {
    if text == "" then ""
    else (if text[0] == '\'' then "''" else [text[0]]) + Escaped(text[1..])
  }

  lemma {:induction false} EscapedStaysQuoted(before: string, text: string, after: string)
    requires ModeAt(before + Escaped(text) + after, |before|) == Quoted
    ensures
      var s := before + Escaped(text) + after;
      && ModeAt(s, |before| + |Escaped(text)|) == Quoted
      && forall k | |before| <= k < |before| + |Escaped(text)| :: !IsBreak(s, k)
    decreases |text|
  {
    if text != "" {
      var s := before + Escaped(text) + after;
      var head := if text[0] == '\'' then "''" else [text[0]];
      var before' := before + head;
      assert s == before' + Escaped(text[1..]) + after;
      assert s[|before|] == head[0];
      assert text[0] == '\'' ==> s[|before| + 1] == '\'' && ModeAt(s, |before| + 1) == InCode;
      assert ModeAt(s, |before'|) == Quoted;
      EscapedStaysQuoted(before', text[1..], after);
    }
  }

  /** A string literal met in code never breaks the script, whatever text it quotes, and code resumes behind it. */
  lemma LiteralsNeverBreak(before: string, text: string, after: string)
    requires ModeAt(before + ("'" + Escaped(text) + "'") + after, |before|) == InCode
    ensures
      var s, literal := before + ("'" + Escaped(text) + "'") + after, "'" + Escaped(text) + "'";
      && ModeAt(s, |before| + |literal|) == InCode
      && forall k | |before| <= k < |before| + |literal| :: !IsBreak(s, k)
  {
    var s := before + ("'" + Escaped(text) + "'") + after;
    var before', after' := before + "'", "'" + after;
    assert s == before' + Escaped(text) + after';
    assert s[|before|] == '\'' && ModeAt(s, |before'|) == Quoted;
    EscapedStaysQuoted(before', text, after');
    assert s[|before'| + |Escaped(text)|] == '\'';
  }

  lemma {:induction false} CommentRunsOn(s: string, from: nat, upto: nat)
    requires from <= upto <= |s| && ModeAt(s, from) == Comment
    requires forall k | from <= k < upto :: s[k] != '\n'
    ensures forall k | from <= k <= upto :: ModeAt(s, k) == Comment
    decreases upto
  {
    if from < upto {
      CommentRunsOn(s, from, upto - 1);
    }
  }

  /** A line comment met in code never breaks the script, and code resumes after its newline. */
  lemma CommentsNeverBreak(before: string, text: string, after: string)
    requires '\n' !in text
    requires ModeAt(before + ("--" + text + "\n") + after, |before|) == InCode
    ensures
      var s, comment := before + ("--" + text + "\n") + after, "--" + text + "\n";
      && ModeAt(s, |before| + |comment|) == InCode
      && forall k | |before| <= k < |before| + |comment| :: !IsBreak(s, k)
  {
    var s, comment := before + ("--" + text + "\n") + after, "--" + text + "\n";
    assert forall k | 0 <= k < |comment| :: s[|before| + k] == comment[k];
    assert s[|before| + 0] == '-' && s[|before| + 1] == '-';
    var end := |before| + 2 + |text|;
    assert s[|before| + (2 + |text|)] == '\n';
    forall k | |before| + 1 <= k < end
      ensures s[k] != '\n'
    {
      assert s[|before| + (k - |before|)] == comment[k - |before|];
    }
    CommentRunsOn(s, |before| + 1, end);
  }

  // ---- the script as code, literals and comments ----

  datatype Token = Code(c: char) | Literal(text: string) | LineComment(text: string)

  function Spell(t: Token): string {
    match t
    case Code(c) => [c]
    case Literal(text) => "'" + Escaped(text) + "'"
    case LineComment(text) => "--" + text + "\n"
  }

  function SpellAll(tokens: seq<Token>): string {
    if tokens == [] then "" else Spell(tokens[0]) + SpellAll(tokens[1..])
  }

  /** A literal or comment that the end of the script cuts off, or nothing. */
  datatype Tail = Nothing | OpenLiteral(text: string) | OpenComment(text: string)

  function SpellTail(tail: Tail): string {
    match tail
    case Nothing => ""
    case OpenLiteral(text) => "'" + Escaped(text)
    case OpenComment(text) => "--" + text
  }

  /** A character of code is no quote and does not begin a comment with what follows it. */
  ghost predicate TokenFits(t: Token, after: string) {
    match t
    case Code(c) => c != '\'' && !(c == '-' && DashAt(after, 0))
    case Literal(_) => true
    case LineComment(text) => '\n' !in text
  }

  ghost predicate TailFits(tail: Tail) {
    tail.OpenComment? ==> '\n' !in tail.text
  }

  ghost predicate Reads(tokens: seq<Token>, tail: Tail) {
    if tokens == [] then TailFits(tail)
    else TokenFits(tokens[0], SpellAll(tokens[1..]) + SpellTail(tail)) && Reads(tokens[1..], tail)
  }

  /** Where the code semicolons of tokens that begin at position `at` stand. */
  function CodeSemicolons(tokens: seq<Token>, at: nat): seq<nat>
    decreases |tokens|
  {
    if tokens == [] then []
    else TokenBreak(tokens[0], at) + CodeSemicolons(tokens[1..], at + |Spell(tokens[0])|)
  }

  lemma {:induction false} NoBreaksAdded(s: string, from: nat, upto: nat)
    requires from <= upto <= |s| && forall k | from <= k < upto :: !IsBreak(s, k)
    ensures BreaksBefore(s, upto) == BreaksBefore(s, from)
    decreases upto
  {
    if from < upto {
      NoBreaksAdded(s, from, upto - 1);
    }
  }

  lemma CodeBreaks(s: string, at: nat, c: char, after: string)
    requires at < |s| && s == s[..at] + [c] + after && ModeAt(s, at) == InCode
    requires c != '\'' && !(c == '-' && DashAt(after, 0))
    ensures ModeAt(s, at + 1) == InCode
    ensures BreaksBefore(s, at + 1) == BreaksBefore(s, at) + if c == ';' then [at] else []
  {
    assert s[at] == c && (at + 1 < |s| ==> s[at + 1] == after[0]);
  }

  lemma LiteralBreaks(s: string, at: nat, next: nat, text: string, after: string)
    requires at <= next <= |s| && s == s[..at] + ("'" + Escaped(text) + "'") + after
    requires next == at + |"'" + Escaped(text) + "'"| && ModeAt(s, at) == InCode
    ensures ModeAt(s, next) == InCode && BreaksBefore(s, next) == BreaksBefore(s, at)
  {
    LiteralsNeverBreak(s[..at], text, after);
    NoBreaksAdded(s, at, next);
  }

  lemma CommentBreaks(s: string, at: nat, next: nat, text: string, after: string)
    requires at <= next <= |s| && s == s[..at] + ("--" + text + "\n") + after
    requires next == at + |"--" + text + "\n"| && ModeAt(s, at) == InCode && '\n' !in text
    ensures ModeAt(s, next) == InCode && BreaksBefore(s, next) == BreaksBefore(s, at)
  {
    CommentsNeverBreak(s[..at], text, after);
    NoBreaksAdded(s, at, next);
  }

  /** A code semicolon at position `at` is a break. */
  function TokenBreak(t: Token, at: nat): seq<nat> {
    if t == Code(';') then [at] else []
  }

  /** After a token met in code, code goes on, and only a code semicolon was a break. */
  lemma TokenStep(s: string, at: nat, next: nat, t: Token, after: string)
    requires at <= |s| && ModeAt(s, at) == InCode && TokenFits(t, after) && s[at..] == Spell(t) + after
    requires next == at + |Spell(t)|
    ensures next <= |s| && s[next..] == after && ModeAt(s, next) == InCode
    ensures BreaksBefore(s, next) == BreaksBefore(s, at) + TokenBreak(t, at)
  {
    assert s == s[..at] + s[at..];
    assert s == s[..at] + Spell(t) + after;
    assert BreaksBefore(s, at) + [] == BreaksBefore(s, at);
    match t {
      case Code(c) => CodeBreaks(s, at, c, after);
      case Literal(text) => LiteralBreaks(s, at, next, text, after);
      case LineComment(text) => CommentBreaks(s, at, next, text, after);
    }
  }

  lemma OpenLiteralNeverBreaks(before: string, text: string)
    requires ModeAt(before + ("'" + Escaped(text)), |before|) == InCode
    ensures
      var s := before + ("'" + Escaped(text));
      BreaksBefore(s, |s|) == BreaksBefore(s, |before|)
  {
    var s, before' := before + ("'" + Escaped(text)), before + "'";
    assert s == before' + Escaped(text) + "" && s[|before|] == '\'';
    EscapedStaysQuoted(before', text, "");
    assert !IsBreak(s, |before|);
    NoBreaksAdded(s, |before|, |s|);
  }

  lemma OpenCommentNeverBreaks(before: string, text: string)
    requires '\n' !in text && ModeAt(before + ("--" + text), |before|) == InCode
    ensures
      var s := before + ("--" + text);
      BreaksBefore(s, |s|) == BreaksBefore(s, |before|)
  {
    var s := before + ("--" + text);
    assert s[|before|] == '-' && s[|before| + 1] == '-';
    assert forall k | |before| + 2 <= k < |s| :: s[k] == text[k - |before| - 2];
    CommentRunsOn(s, |before| + 1, |s|);
    NoBreaksAdded(s, |before|, |s|);
  }

  lemma TailNeverBreaks(before: string, tail: Tail)
    requires TailFits(tail) && ModeAt(before + SpellTail(tail), |before|) == InCode
    ensures
      var s := before + SpellTail(tail);
      BreaksBefore(s, |s|) == BreaksBefore(s, |before|)
  {
    match tail {
      case Nothing =>
      case OpenLiteral(text) => OpenLiteralNeverBreaks(before, text);
      case OpenComment(text) => OpenCommentNeverBreaks(before, text);
    }
  }

  lemma TailStep(s: string, at: nat, tail: Tail)
    requires at <= |s| && ModeAt(s, at) == InCode && TailFits(tail) && s[at..] == SpellTail(tail)
    ensures BreaksBefore(s, |s|) == BreaksBefore(s, at)
  {
    assert s == s[..at] + s[at..];
    TailNeverBreaks(s[..at], tail);
  }

  lemma Joined(x: seq<nat>, y: seq<nat>, z: seq<nat>)
    ensures x + y + z == x + (y + z)
  {
  }

  /** Tokens and their tail from position `at` to the end of the script. */
  ghost predicate ReadFrom(s: string, at: nat, tokens: seq<Token>, tail: Tail) {
    at <= |s| && ModeAt(s, at) == InCode && Reads(tokens, tail) && s[at..] == SpellAll(tokens) + SpellTail(tail)
  }

  lemma FirstTokenSpelled(tokens: seq<Token>, tail: Tail)
    requires tokens != []
    ensures SpellAll(tokens) + SpellTail(tail) == Spell(tokens[0]) + (SpellAll(tokens[1..]) + SpellTail(tail))
  {
  }

  lemma FirstTokenStep(s: string, at: nat, next: nat, tokens: seq<Token>, tail: Tail)
    requires ReadFrom(s, at, tokens, tail) && tokens != [] && next == at + |Spell(tokens[0])|
    ensures ReadFrom(s, next, tokens[1..], tail)
    ensures BreaksBefore(s, next) == BreaksBefore(s, at) + TokenBreak(tokens[0], at)
  {
    var after := SpellAll(tokens[1..]) + SpellTail(tail);
    FirstTokenSpelled(tokens, tail);
    TokenStep(s, at, next, tokens[0], after);
  }

  /** Tokens that begin in code at position `at` and run to the end. */
  lemma {:induction false} TokensBreak(s: string, at: nat, tokens: seq<Token>, tail: Tail)
    requires ReadFrom(s, at, tokens, tail)
    ensures BreaksBefore(s, |s|) == BreaksBefore(s, at) + CodeSemicolons(tokens, at)
    decreases |tokens|
  {
    if tokens == [] {
      assert s[at..] == SpellTail(tail);
      TailStep(s, at, tail);
      assert BreaksBefore(s, at) + [] == BreaksBefore(s, at);
    } else {
      var next := at + |Spell(tokens[0])|;
      FirstTokenStep(s, at, next, tokens, tail);
      TokensBreak(s, next, tokens[1..], tail);
      Joined(BreaksBefore(s, at), TokenBreak(tokens[0], at), CodeSemicolons(tokens[1..], next));
    }
  }

  /** The text of a literal from behind its opening quote: up to its closing quote, or to the end. */
  lemma {:induction false} ReadLiteral(s: string) returns (text: string, closed: bool, rest: string)
    ensures s == Escaped(text) + (if closed then "'" + rest else "")
    ensures closed ==> |rest| < |s|
    decreases |s|
  {
    if s == "" {
      text, closed, rest := "", false, "";
    } else if s[0] != '\'' {
      text, closed, rest := ReadLiteral(s[1..]);
      text := [s[0]] + text;
      assert text[1..] == text[1..] && s == [s[0]] + s[1..];
    } else if |s| > 1 && s[1] == '\'' {
      text, closed, rest := ReadLiteral(s[2..]);
      text := "'" + text;
      assert s == "''" + s[2..];
    } else {
      text, closed, rest := "", true, s[1..];
    }
  }

  lemma {:induction false} ReadComment(s: string) returns (text: string, closed: bool, rest: string)
    ensures '\n' !in text && s == text + (if closed then "\n" + rest else "")
    ensures closed ==> |rest| < |s|
    decreases |s|
  {
    if s == "" {
      text, closed, rest := "", false, "";
    } else if s[0] == '\n' {
      text, closed, rest := "", true, s[1..];
    } else {
      text, closed, rest := ReadComment(s[1..]);
      text := [s[0]] + text;
      assert s == [s[0]] + s[1..];
    }
  }

  lemma ReadOne(s: string) returns (found: bool, t: Token, rest: string, tail: Tail)
    requires s != ""
    ensures found ==> s == Spell(t) + rest && |rest| < |s| && TokenFits(t, rest)
    ensures !found ==> s == SpellTail(tail) && TailFits(tail)
  {
    found, t, rest, tail := true, Code(s[0]), s[1..], Nothing;
    if s[0] == '\'' {
      var text, closed, more := ReadLiteral(s[1..]);
      found, t, rest, tail := closed, Literal(text), more, OpenLiteral(text);
      assert s == "'" + s[1..];
    } else if s[0] == '-' && DashAt(s, 1) {
      var text, closed, more := ReadComment(s[2..]);
      found, t, rest, tail := closed, LineComment(text), more, OpenComment(text);
      assert s == "--" + s[2..];
    }
  }

  lemma TokenAhead(t: Token, more: seq<Token>, tail: Tail, rest: string)
    requires Reads(more, tail) && rest == SpellAll(more) + SpellTail(tail) && TokenFits(t, rest)
    ensures Reads([t] + more, tail) && SpellAll([t] + more) + SpellTail(tail) == Spell(t) + rest
  {
    assert ([t] + more)[1..] == more;
  }

  lemma {:induction false} Tokenize(s: string) returns (tokens: seq<Token>, tail: Tail)
    ensures Reads(tokens, tail) && s == SpellAll(tokens) + SpellTail(tail)
    decreases |s|
  {
    tokens, tail := [], Nothing;
    if s != "" {
      var found, t, rest, cut := ReadOne(s);
      if found {
        var more;
        more, tail := Tokenize(rest);
        tokens := [t] + more;
        TokenAhead(t, more, tail, rest);
      } else {
        tail := cut;
      }
    }
  }

  /** However a script is read as code, literals and comments, it is broken at exactly the semicolons of its code. */
  lemma {:induction false} BreaksAreCodeSemicolons(tokens: seq<Token>, tail: Tail)
    requires Reads(tokens, tail)
    ensures
      var s := SpellAll(tokens) + SpellTail(tail);
      ListsBreaks(s, |s|, CodeSemicolons(tokens, 0))
  {
    var s := SpellAll(tokens) + SpellTail(tail);
    assert s[0..] == s;
    TokensBreak(s, 0, tokens, tail);
    BreaksAreListed(s, |s|);
    assert BreaksBefore(s, |s|) == CodeSemicolons(tokens, 0);
  }

  /**
   * Every script is characters of code, complete literals and complete comments, with at most one literal or comment
   * that its end cuts off; and its statements are the text between the semicolons of its code, the text after the last
   * being one unless it is blank.
   */
  lemma {:induction false} ScriptIsTokens(s: string) returns (tokens: seq<Token>, tail: Tail)
    ensures Reads(tokens, tail) && s == SpellAll(tokens) + SpellTail(tail)
    ensures
      var cuts := CodeSemicolons(tokens, 0);
      && ListsBreaks(s, |s|, cuts)
      && CutStart(cuts, |cuts|) <= |s|
      && |Statements(s)| == |cuts| + (if Blank(s[CutStart(cuts, |cuts|)..]) then 0 else 1)
      && (forall i | 0 <= i < |cuts| :: LiesBetween(s, cuts, i, Statements(s)[i]))
      && (!Blank(s[CutStart(cuts, |cuts|)..]) ==> Statements(s)[|cuts|] == s[CutStart(cuts, |cuts|)..])
  {
    tokens, tail := Tokenize(s);
    assert s[0..] == s;
    TokensBreak(s, 0, tokens, tail);
    assert BreaksBefore(s, |s|) == CodeSemicolons(tokens, 0);
    BreaksAreListed(s, |s|);
    PiecesLieBetweenBreaks(s, |s|);
  }

  // ---- every piece is one statement ----

  /** From a break on, the rest is read as if the script began there. */
  lemma {:induction false} ModeRestarts(s: string, start: nat, stop: nat, k: nat)
    requires start <= stop <= |s| && k <= stop - start
    requires ModeAt(s, start) == InCode
    requires stop == |s| || s[stop] == ';'
    ensures ModeAt(s[start..stop], k) == ModeAt(s, start + k)
  {
    if k > 0 {
      ModeRestarts(s, start, stop, k - 1);
      assert s[start..stop][k - 1] == s[start + k - 1];
      assert k < stop - start ==> s[start..stop][k] == s[start + k];
    }
  }

  lemma {:induction false} NoBreaksNoPieces(s: string, k: nat)
    requires k <= |s| && forall p | 0 <= p < k :: !IsBreak(s, p)
    ensures PiecesBefore(s, k) == [] && StartBefore(s, k) == 0
  {
    if k > 0 {
      NoBreaksNoPieces(s, k - 1);
    }
  }

  lemma {:induction false} NoBreakSinceStart(s: string, k: nat)
    requires k <= |s|
    ensures ModeAt(s, StartBefore(s, k)) == InCode
    ensures forall p | StartBefore(s, k) <= p < k :: !IsBreak(s, p)
  {
    if k > 0 {
      NoBreakSinceStart(s, k - 1);
    }
  }

  lemma StretchIsUnbroken(s: string, start: nat, k: nat, p: nat)
    requires k == |s| || (k < |s| && IsBreak(s, k))
    requires start == StartBefore(s, k) && start + p < k
    ensures !IsBreak(s[start..k], p)
  {
    NoBreakSinceStart(s, k);
    ModeRestarts(s, start, k, p);
    assert !IsBreak(s, start + p);
  }

  lemma StretchIsOneStatement(s: string, k: nat)
    requires k == |s| || (k < |s| && IsBreak(s, k))
    ensures var piece := s[StartBefore(s, k)..k]; Statements(piece) == if Blank(piece) then [] else [piece]
  {
    var piece := s[StartBefore(s, k)..k];
    forall p | 0 <= p < |piece|
      ensures !IsBreak(piece, p)
    {
      StretchIsUnbroken(s, StartBefore(s, k), k, p);
    }
    UnbrokenIsOneStatement(piece);
  }

  lemma UnbrokenIsOneStatement(piece: string)
    requires forall p | 0 <= p < |piece| :: !IsBreak(piece, p)
    ensures Statements(piece) == if Blank(piece) then [] else [piece]
  {
    NoBreaksNoPieces(piece, |piece|);
    assert TailOf(piece) == piece;
  }

  lemma {:induction false} PiecesAreStatements(s: string, k: nat, i: nat)
    requires k <= |s| && i < |PiecesBefore(s, k)|
    ensures var piece := PiecesBefore(s, k)[i]; Statements(piece) == if Blank(piece) then [] else [piece]
  {
    if IsBreak(s, k - 1) && i == |PiecesBefore(s, k)| - 1 {
      StretchIsOneStatement(s, k - 1);
    } else {
      PiecesAreStatements(s, k - 1, i);
    }
  }

  /** Splitting a piece again finds that piece and nothing else: what is executed is one statement at a time. */
  lemma PiecesDoNotSplit(s: string, i: nat)
    requires i < |Statements(s)|
    ensures var piece := Statements(s)[i]; Statements(piece) == if Blank(piece) then [] else [piece]
  {
    var pieces := PiecesBefore(s, |s|);
    if i < |pieces| {
      assert Statements(s)[i] == pieces[i];
      PiecesAreStatements(s, |s|, i);
    } else {
      assert Statements(s)[i] == TailOf(s) == s[StartBefore(s, |s|)..|s|];
      StretchIsOneStatement(s, |s|);
    }
  }
}
