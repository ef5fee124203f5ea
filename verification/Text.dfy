/** Line splitting and trimming, as the Go `strings` calls used by the differ and the rule evaluator behave. */
module Text {

  /** strings.Split(s, "\n"): always at least one piece, and no piece holds a newline. */
  function SplitLines(s: string): (lines: seq<string>)
    ensures |lines| >= 1
    ensures forall k | 0 <= k < |lines| :: '\n' !in lines[k]
  {
    if s == "" then [""]
    else
      var rest := SplitLines(s[1..]);
      if s[0] == '\n' then [""] + rest
      else [[s[0]] + rest[0]] + rest[1..]
  }

  /** strings.Join(lines, "\n"). */
  function JoinLines(lines: seq<string>): string
    requires |lines| >= 1
  {
    if |lines| == 1 then lines[0] else lines[0] + "\n" + JoinLines(lines[1..])
  }

  /** Every line followed by a newline, as a builder loop writes them. */
  function Terminated(lines: seq<string>): string {
    if lines == [] then "" else lines[0] + "\n" + Terminated(lines[1..])
  }

  /** strings.TrimRight(s, "\n"). */
  function TrimRightNewlines(s: string): (t: string)
    ensures t <= s
    ensures t == "" || t[|t| - 1] != '\n'
    ensures forall k | |t| <= k < |s| :: s[k] == '\n'
  {
    if s != "" && s[|s| - 1] == '\n' then TrimRightNewlines(s[..|s| - 1]) else s
  }

  /** unicode.IsSpace. */
  predicate IsSpace(c: char) {
    || '\t' <= c <= '\r' || c == ' ' || c == '\U{0085}' || c == '\U{00A0}' || c == '\U{1680}'
    || '\U{2000}' <= c <= '\U{200A}' || c == '\U{2028}' || c == '\U{2029}' || c == '\U{202F}' || c == '\U{205F}'
    || c == '\U{3000}'
  }

  /** strings.TrimSpace. */
  function TrimSpace(s: string): string {
    if s != "" && IsSpace(s[0]) then TrimSpace(s[1..])
    else if s != "" && IsSpace(s[|s| - 1]) then TrimSpace(s[..|s| - 1])
    else s
  }

  /** strings.TrimSpace(s) == "". */
  predicate Blank(s: string) {
    forall k | 0 <= k < |s| :: IsSpace(s[k])
  }

  /** The white space of Unicode, one by one. */
  const SPACES: set<int> := {
    0x9, 0xA, 0xB, 0xC, 0xD, 0x20, 0x85, 0xA0, 0x1680, 0x2000, 0x2001, 0x2002, 0x2003, 0x2004, 0x2005, 0x2006, 0x2007,
    0x2008, 0x2009, 0x200A, 0x2028, 0x2029, 0x202F, 0x205F, 0x3000}

  lemma SpacesAreListed(c: char)
    ensures IsSpace(c) <==> c as int in SPACES
  {
  }

  /** Newlines, blanks and tabs are blank, and a text with a letter, digit or punctuation of ASCII is not. */
  lemma BlankAscii(s: string)
    requires forall k | 0 <= k < |s| :: 0x20 <= s[k] as int < 0x7F || s[k] == '\n' || s[k] == '\r' || s[k] == '\t'
    ensures Blank(s) <==> forall k | 0 <= k < |s| :: s[k] in {' ', '\n', '\r', '\t'}
  {
  }

  lemma PutBack(s: string, front: string, t: string, back: string)
    requires s != ""
    ensures s[1..] == front + t + back ==> s == [s[0]] + front + t + back
    ensures s[..|s| - 1] == front + t + back ==> s == front + t + (back + [s[|s| - 1]])
  {
    assert s == [s[0]] + s[1..] == s[..|s| - 1] + [s[|s| - 1]];
  }

  /** Trimming takes white space off both ends, all of it and nothing else. */
  lemma {:induction false} TrimSpaceMeaning(s: string) returns (front: string, back: string)
    ensures s == front + TrimSpace(s) + back && Blank(front) && Blank(back)
    ensures var t := TrimSpace(s); t != "" ==> !IsSpace(t[0]) && !IsSpace(t[|t| - 1])
  {
    if s != "" && IsSpace(s[0]) {
      front, back := TrimSpaceMeaning(s[1..]);
      PutBack(s, front, TrimSpace(s[1..]), back);
      front := [s[0]] + front;
    } else if s != "" && IsSpace(s[|s| - 1]) {
      front, back := TrimSpaceMeaning(s[..|s| - 1]);
      PutBack(s, front, TrimSpace(s[..|s| - 1]), back);
      back := back + [s[|s| - 1]];
    } else {
      front, back := "", "";
    }
  }

  lemma {:induction false} TrimmedBlank(s: string)
    ensures TrimSpace(s) == "" <==> Blank(s)
  {
    if s != "" && IsSpace(s[0]) {
      TrimmedBlank(s[1..]);
      assert Blank(s[1..]) ==> forall k | 0 < k < |s| :: s[k] == s[1..][k - 1];
      assert Blank(s) ==> forall k | 0 <= k < |s| - 1 :: s[1..][k] == s[k + 1];
    } else if s != "" && IsSpace(s[|s| - 1]) {
      TrimmedBlank(s[..|s| - 1]);
      assert s[..|s| - 1][0] == s[0];
    }
  }

  ghost predicate NewlineFree(lines: seq<string>) {
    forall k | 0 <= k < |lines| :: '\n' !in lines[k]
  }

  lemma {:induction false} JoinSplit(s: string)
    ensures JoinLines(SplitLines(s)) == s
  {
    if s != "" {
      JoinSplit(s[1..]);
      var rest := SplitLines(s[1..]);
      if s[0] == '\n' {
        assert ([""] + rest)[1..] == rest;
      } else {
        var lines := [[s[0]] + rest[0]] + rest[1..];
        assert lines[1..] == rest[1..];
        assert JoinLines(lines) == [s[0]] + JoinLines(rest);
      }
    }
  }

  /** Splitting text that begins with a newline-free line and a newline gives that line first. */
  lemma {:induction false} SplitLeadingLine(line: string, rest: string)
    requires '\n' !in line
    ensures SplitLines(line + "\n" + rest) == [line] + SplitLines(rest)
  {
    var s := line + "\n" + rest;
    if line == "" {
      assert s[1..] == rest;
    } else {
      assert line[0] in line && [line[0]] + line[1..] == line;
      assert s[1..] == line[1..] + "\n" + rest;
      SplitLeadingLine(line[1..], rest);
    }
  }

  lemma {:induction false} SplitSingleLine(line: string)
    requires '\n' !in line
    ensures SplitLines(line) == [line]
  {
    if line != "" {
      assert line[0] in line && [line[0]] + line[1..] == line;
      SplitSingleLine(line[1..]);
    }
  }

  lemma {:induction false} SplitTerminated(lines: seq<string>)
    requires NewlineFree(lines)
    ensures SplitLines(Terminated(lines)) == lines + [""]
  {
    if lines != [] {
      SplitTerminated(lines[1..]);
      SplitLeadingLine(lines[0], Terminated(lines[1..]));
    }
  }

  lemma SplitInjective(s: string, t: string)
    requires SplitLines(s) == SplitLines(t)
    ensures s == t
  {
    JoinSplit(s);
    JoinSplit(t);
  }

  lemma TerminatedInjective(x: seq<string>, y: seq<string>)
    requires NewlineFree(x) && NewlineFree(y)
    requires Terminated(x) == Terminated(y)
    ensures x == y
  {
    SplitTerminated(x);
    SplitTerminated(y);
    assert x == (x + [""])[..|x|] && y == (y + [""])[..|y|];
  }

  lemma {:induction false} TerminatedAppend(x: seq<string>, y: seq<string>)
    ensures Terminated(x + y) == Terminated(x) + Terminated(y)
  {
    if x == [] {
      assert x + y == y;
    } else {
      assert (x + y)[1..] == x[1..] + y;
      TerminatedAppend(x[1..], y);
    }
  }
}
