/** NETCONF end-of-message framing: reading a reply in chunks, and writing an edit whose only marker is its last. */
module NetconfFraming {
  import opened Substrings
  import opened Text
  import opened Wrappers

  /** The end-of-message sequence of section 4.3 of RFC 6242. */
  const MARKER := "]]>]]>"

  // ---- reading ----

  datatype Trouble = NoTrouble | EndOfStream | ReadError

  /** What one wait yields: bytes from the stream, possibly with an error, or the timer or a cancellation. */
  datatype Wait = Arrived(data: string, trouble: Trouble) | Interrupted

  datatype Fault = Timeout | ReadFailed | ClosedEarly

  /** The reply reader: stops at the first chunk that completes a marker, or at the end of the stream. */
  function ReplyFrom(buf: string, waits: seq<Wait>): Result<string, Fault>
    decreases |waits|
  {
    if waits == [] || waits[0].Interrupted? then Failure(Timeout)
    else
      var buf' := buf + waits[0].data;
      if waits[0].data != "" && Contains(buf', MARKER) then Success(buf')
      else
        match waits[0].trouble
        case NoTrouble => ReplyFrom(buf', waits[1..])
        case EndOfStream => Success(buf')
        case ReadError => Failure(ReadFailed)
  }

  method ReadRPCReply(waits: seq<Wait>) returns (r: Result<string, Fault>)
    ensures r == ReplyFrom("", waits)
  {
    var buf := "";
    assert waits[0..] == waits;
    for k := 0 to |waits|
      invariant ReplyFrom(buf, waits[k..]) == ReplyFrom("", waits)
    {
      assert waits[k..][1..] == waits[k + 1..];
      var w := waits[k];
      if w.Interrupted? {
        return Failure(Timeout);
      }
      if |w.data| > 0 {
        buf := buf + w.data;
        if Contains(buf, MARKER) {
          return Success(buf);
        }
      } else {
        assert buf + w.data == buf;
      }
      if w.trouble != NoTrouble {
        if w.trouble == EndOfStream {
          return Success(buf);
        }
        return Failure(ReadFailed);
      }
    }
    r := Failure(Timeout);
  }

  /** The greeting reader: succeeds once a marker has arrived, and fails if the stream ends before. */
  function GreetingFrom(buf: string, waits: seq<Wait>): Result<(), Fault>
    decreases |waits|
  {
    if waits == [] || waits[0].Interrupted? then Failure(Timeout)
    else
      var buf' := buf + waits[0].data;
      if waits[0].data != "" && Contains(buf', MARKER) then Success(())
      else
        match waits[0].trouble
        case NoTrouble => GreetingFrom(buf', waits[1..])
        case EndOfStream => Failure(ClosedEarly)
        case ReadError => Failure(ReadFailed)
  }

  method ReadUntilDelimiter(waits: seq<Wait>) returns (r: Result<(), Fault>)
    ensures r == GreetingFrom("", waits)
  {
    var buf := "";
    assert waits[0..] == waits;
    for k := 0 to |waits|
      invariant GreetingFrom(buf, waits[k..]) == GreetingFrom("", waits)
    {
      assert waits[k..][1..] == waits[k + 1..];
      var w := waits[k];
      if w.Interrupted? {
        return Failure(Timeout);
      }
      if |w.data| > 0 {
        buf := buf + w.data;
        if Contains(buf, MARKER) {
          return Success(());
        }
      } else {
        assert buf + w.data == buf;
      }
      if w.trouble != NoTrouble {
        return Failure(if w.trouble == EndOfStream then ClosedEarly else ReadFailed);
      }
    }
    r := Failure(Timeout);
  }

  /** Everything the stream delivers, however it is cut into chunks. */
  function StreamOf(waits: seq<Wait>): string {
    if waits == [] then ""
    else (if waits[0].Arrived? then waits[0].data else "") + StreamOf(waits[1..])
  }

  /** Nothing went wrong in the first `n` waits. */
  ghost predicate Calm(waits: seq<Wait>, n: nat)
    requires n <= |waits|
  {
    forall k | 0 <= k < n :: waits[k].Arrived? && waits[k].trouble == NoTrouble
  }

  /**
   * The n-th wait completes a marker: nothing went wrong before it, and the text is without a marker before it and has
   * one with it. It may itself come with the end of the stream or an error.
   */
  ghost predicate Completes(buf: string, waits: seq<Wait>, n: nat) {
    && n < |waits| && waits[n].Arrived?
    && Calm(waits, n)
    && !Contains(buf + StreamOf(waits[..n]), MARKER)
    && Contains(buf + StreamOf(waits[..n + 1]), MARKER)
  }

  ghost predicate SomeCompletes(buf: string, waits: seq<Wait>) {
    exists n: nat :: Completes(buf, waits, n)
  }

  lemma StreamStep(buf: string, waits: seq<Wait>, n: nat)
    requires 0 < n <= |waits| && waits[0].Arrived?
    ensures buf + StreamOf(waits[..n]) == buf + waits[0].data + StreamOf(waits[1..][..n - 1])
  {
    assert waits[..n][1..] == waits[1..][..n - 1];
  }

  /** Whether a wait completes a marker is seen from the buffer after the first wait. */
  lemma CompletesLater(buf: string, waits: seq<Wait>, n: nat)
    requires waits != [] && waits[0].Arrived? && waits[0].trouble == NoTrouble && n < |waits| - 1
    requires !Contains(buf, MARKER)
    ensures Completes(buf, waits, n + 1) <==> Completes(buf + waits[0].data, waits[1..], n)
  {
    StreamStep(buf, waits, n + 1);
    StreamStep(buf, waits, n + 2);
    CalmLater(waits, n + 1);
  }

  lemma CalmLater(waits: seq<Wait>, n: nat)
    requires 0 < n <= |waits|
    ensures Calm(waits, n) <==>
            waits[0].Arrived? && waits[0].trouble == NoTrouble && Calm(waits[1..], n - 1)
  {
    assert forall k | 0 <= k < |waits| - 1 :: waits[1..][k] == waits[k + 1];
    assert forall k | 0 < k < |waits| :: waits[k] == waits[1..][k - 1];
  }

  lemma CompletesNow(buf: string, waits: seq<Wait>)
    requires waits != [] && waits[0].Arrived? && !Contains(buf, MARKER)
    ensures Completes(buf, waits, 0) <==> Contains(buf + waits[0].data, MARKER)
  {
    StreamStep(buf, waits, 1);
    assert buf + StreamOf(waits[..0]) == buf && waits[1..][..0] == [];
    assert buf + waits[0].data + StreamOf([]) == buf + waits[0].data;
  }

  lemma SomeCompletesStep(buf: string, waits: seq<Wait>)
    requires waits != [] && waits[0].Arrived? && !Contains(buf, MARKER)
    ensures
      var buf' := buf + waits[0].data;
      SomeCompletes(buf, waits) <==>
        Contains(buf', MARKER) || (waits[0].trouble == NoTrouble && SomeCompletes(buf', waits[1..]))
  {
    var buf' := buf + waits[0].data;
    CompletesNow(buf, waits);
    if Contains(buf', MARKER) {
    } else if waits[0].trouble == NoTrouble {
      if n: nat :| Completes(buf, waits, n) {
        CompletesLater(buf, waits, n - 1);
      }
      if n: nat :| Completes(buf', waits[1..], n) {
        CompletesLater(buf, waits, n);
      }
    }
  }

  predicate BringsMarker(r: Result<string, Fault>) {
    r.Success? && Contains(r.value, MARKER)
  }

  /**
   * Both readers: a reply with a marker is returned, and the greeting is taken for complete, exactly if some wait
   * completes a marker before anything goes wrong. What comes with that wait or after it does not matter.
   */
  lemma {:induction false} ReplyArrives(buf: string, waits: seq<Wait>)
    requires !Contains(buf, MARKER)
    ensures BringsMarker(ReplyFrom(buf, waits)) <==> SomeCompletes(buf, waits)
    ensures GreetingFrom(buf, waits) == Success(()) <==> SomeCompletes(buf, waits)
    decreases |waits|
  {
    if waits != [] && waits[0].Arrived? {
      var buf' := buf + waits[0].data;
      SomeCompletesStep(buf, waits);
      assert waits[0].data == "" ==> buf' == buf;
      if !Contains(buf', MARKER) {
        ReplyArrives(buf', waits[1..]);
      }
    }
  }

  /** Nothing has happened in the first `n` waits: text has arrived, without a marker so far. */
  ghost predicate Quiet(buf: string, waits: seq<Wait>, n: nat) {
    && n <= |waits|
    && Calm(waits, n)
    && !Contains(buf + StreamOf(waits[..n]), "]]>]]>")
  }

  /** The n-th wait is the first that ends the reading, or there are no more. */
  ghost predicate Ends(buf: string, waits: seq<Wait>, n: nat)
    requires n <= |waits|
  {
    || n == |waits| || waits[n].Interrupted? || waits[n].trouble != NoTrouble
    || Contains(buf + StreamOf(waits[..n + 1]), "]]>]]>")
  }

  lemma QuietLater(buf: string, waits: seq<Wait>, n: nat)
    requires Quiet(buf, waits, n) && Ends(buf, waits, n) && n > 0
    ensures
      var buf' := buf + waits[0].data;
      && Quiet(buf', waits[1..], n - 1) && Ends(buf', waits[1..], n - 1) && !Contains(buf', MARKER)
      && (n < |waits| ==> buf + StreamOf(waits[..n + 1]) == buf' + StreamOf(waits[1..][..n]))
  {
    var buf' := buf + waits[0].data;
    StreamStep(buf, waits, n);
    CalmLater(waits, n);
    if n < |waits| {
      StreamStep(buf, waits, n + 1);
    }
    if Contains(buf', MARKER) {
      BeforeExtends(buf', StreamOf(waits[1..][..n - 1]), MARKER);
    }
  }

  /** The first wait that ends the reading decides how both readers end. */
  lemma {:induction false} FirstEventDecides(buf: string, waits: seq<Wait>, n: nat)
    requires Quiet(buf, waits, n) && Ends(buf, waits, n)
    ensures n == |waits| || waits[n].Interrupted? ==>
              ReplyFrom(buf, waits) == Failure(Timeout) && GreetingFrom(buf, waits) == Failure(Timeout)
    ensures n < |waits| && waits[n].Arrived? ==>
              var all, trouble := buf + StreamOf(waits[..n + 1]), waits[n].trouble;
              var marked := Contains(all, "]]>]]>");
              && ReplyFrom(buf, waits) ==
                 (if marked || trouble == EndOfStream then Success(all) else Failure(ReadFailed))
              && GreetingFrom(buf, waits) ==
                 (if marked then Success(()) else if trouble == EndOfStream then Failure(ClosedEarly)
                  else Failure(ReadFailed))
    decreases n
  {
    if n > 0 {
      QuietLater(buf, waits, n);
      FirstEventDecides(buf + waits[0].data, waits[1..], n - 1);
    } else if waits != [] && waits[0].Arrived? {
      StreamStep(buf, waits, 1);
      var buf' := buf + waits[0].data;
      assert buf + StreamOf(waits[..0]) == buf && buf' + StreamOf(waits[1..][..0]) == buf';
      assert waits[0].data == "" ==> buf' == buf;
    }
  }

  /** A returned reply that holds a marker holds the stream's text up to the first marker, whatever the chunks were. */
  lemma {:induction false} ReplyIsStreamPrefix(buf: string, waits: seq<Wait>)
    ensures
      var r := ReplyFrom(buf, waits);
      r.Success? ==>
        && r.value <= buf + StreamOf(waits)
        && (Contains(r.value, MARKER) ==>
              && Contains(buf + StreamOf(waits), MARKER)
              && Before(r.value, MARKER) == Before(buf + StreamOf(waits), MARKER))
    decreases |waits|
  {
    if waits != [] && waits[0].Arrived? {
      var buf', rest := buf + waits[0].data, StreamOf(waits[1..]);
      assert buf + StreamOf(waits) == buf' + rest;
      ReplyIsStreamPrefix(buf', waits[1..]);
      if Contains(buf', MARKER) {
        BeforeExtends(buf', rest, MARKER);
      }
    }
  }

  /** The greeting is taken for complete only if the stream brought a marker. */
  lemma {:induction false} GreetingNeedsMarker(buf: string, waits: seq<Wait>)
    requires GreetingFrom(buf, waits).Success?
    ensures Contains(buf + StreamOf(waits), MARKER)
    decreases |waits|
  {
    var buf', rest := buf + waits[0].data, StreamOf(waits[1..]);
    assert buf + StreamOf(waits) == buf' + rest;
    if Contains(buf', MARKER) {
      BeforeExtends(buf', rest, MARKER);
    } else {
      GreetingNeedsMarker(buf', waits[1..]);
    }
  }

  // ---- judging an edit's reply ----

  datatype Verdict = Ok | RpcError | MissingOk

  function JudgeReply(reply: string): Verdict {
    var body := Before(reply, MARKER);
    if Contains(body, "<rpc-error") then RpcError
    else if Contains(body, "<ok/>") || Contains(body, "<ok />") then Ok
    else MissingOk
  }

  /**
   * For every way of cutting a stream into chunks of which one completes a marker before anything goes wrong: the
   * reply's text before its first marker is the stream's, so the verdict on an edit depends on the stream alone.
   */
  lemma ChunkingIsIrrelevant(waits: seq<Wait>, stream: string)
    requires StreamOf(waits) == stream && SomeCompletes("", waits)
    ensures ReplyFrom("", waits).Success?
    ensures Before(ReplyFrom("", waits).value, MARKER) == Before(stream, MARKER)
    ensures JudgeReply(ReplyFrom("", waits).value) == JudgeReply(stream)
  {
    assert "" + StreamOf(waits) == stream;
    ReplyArrives("", waits);
    ReplyIsStreamPrefix("", waits);
  }

  /**
   * The verdict by positions in the stream, of which the first marker begins at `at`, for every chunking that completes
   * a marker: an error if an error element begins before the marker, otherwise a success if an ok element does.
   */
  lemma VerdictByPositions(waits: seq<Wait>, stream: string, at: nat)
    requires StreamOf(waits) == stream && SomeCompletes("", waits)
    requires OccursAt(stream, "]]>]]>", at) && forall k | 0 <= k < at :: !OccursAt(stream, "]]>]]>", k)
    ensures ReplyFrom("", waits).Success?
    ensures
      var verdict := JudgeReply(ReplyFrom("", waits).value);
      var failed := OccursBefore(stream, "<rpc-error", at);
      var done := OccursBefore(stream, "<ok/>", at) || OccursBefore(stream, "<ok />", at);
      && (verdict == RpcError <==> failed)
      && (verdict == Ok <==> !failed && done)
      && (verdict == MissingOk <==> !failed && !done)
  {
    ChunkingIsIrrelevant(waits, stream);
    BeforeFirst(stream, MARKER, at);
    ContainedInPrefix(stream, "<rpc-error", at);
    ContainedInPrefix(stream, "<ok/>", at);
    ContainedInPrefix(stream, "<ok />", at);
  }

  // ---- writing an edit ----

  function DigitChar(d: nat): char
    requires d < 10
  {
    "0123456789"[d]
  }

  /** %d of a message number. */
  function Decimal(n: nat): string {
    if n < 10 then [DigitChar(n)] else Decimal(n / 10) + [DigitChar(n % 10)]
  }

  function Lower(c: char): char {
    if 'A' <= c <= 'Z' then c + 32 as char
    else if c == '\U{0130}' then 'i'
    else if c == '\U{212A}' then 'k'
    else c
  }

  /** strings.ToLower as far as it can produce an ASCII letter. */
  function ToLower(s: string): (t: string)
    ensures |t| == |s|
  {
    seq(|s|, k requires 0 <= k < |s| => Lower(s[k]))
  }

  /** validateNetconfEditPayload. */
  predicate Acceptable(payload: string) {
    && !Contains(payload, MARKER)
    && !Contains(ToLower(payload), CONFIG_CLOSE)
    && !Contains(ToLower(payload), "<rpc")
    && !Contains(ToLower(payload), "</rpc>")
  }

  predicate KnownDatastore(ds: string) {
    ds == "running" || ds == "candidate" || ds == "startup"
  }

  const EDIT := "edit-config:"

  datatype EditError = Malformed | UnknownDatastore | BadBase64 | ForbiddenPayload

  datatype Edit = Edit(datastore: string, payload: string)

  /** The command's datastore and decoded payload; `decode` is the base64 decoder, absent on bad input. */
  function ParseEdit(cmd: string, decode: string -> Option<string>): Result<Edit, EditError> {
    var trimmed := TrimSpace(cmd);
    ParseOperands(if StartsWith(trimmed, EDIT) then trimmed[|EDIT|..] else trimmed, decode)
  }

  function ParseOperands(rest: string, decode: string -> Option<string>): Result<Edit, EditError> {
    if !Contains(rest, ":") then Failure(Malformed)
    else
      var head := Before(rest, ":");
      var ds := TrimSpace(head);
      if !KnownDatastore(ds) then Failure(UnknownDatastore)
      else
        match decode(rest[|head| + 1..])
        case None => Failure(BadBase64)
        case Some(payload) => if Acceptable(payload) then Success(Edit(ds, payload)) else Failure(ForbiddenPayload)
  }

  const XML_DECLARATION := "<?xml version=\"1.0\" encoding=\"UTF-8\"?>\n"
  const RPC_OPEN := "<rpc message-id=\""
  const XMLNS := "\" xmlns=\"urn:ietf:params:xml"
  const BASE := ":ns:netconf:base:1.0\">\n"
  const RPC_NAMESPACE := XMLNS + BASE
  const EDIT_OPEN := "  <edit-config>\n    <target><"
  const CONFIG_OPEN := "/></target>\n    <config>"

  function EditHead(msgId: nat, ds: string): string {
    XML_DECLARATION + RPC_OPEN + Decimal(msgId) + RPC_NAMESPACE + EDIT_OPEN + ds + CONFIG_OPEN
  }

  const CONFIG_CLOSE := "</config>"
  const EDIT_TAIL := CONFIG_CLOSE + "\n  </edit-config>\n</rpc>\n"

  function BuildEditConfig(msgId: nat, ds: string, payload: string): string {
    EditHead(msgId, ds) + payload + EDIT_TAIL + MARKER
  }

  lemma {:induction false} DecimalHasNoBracket(n: nat)
    ensures ']' !in Decimal(n)
  {
    if n >= 10 {
      DecimalHasNoBracket(n / 10);
    }
  }

  lemma HeadHasNoBracket(msgId: nat, ds: string)
    requires KnownDatastore(ds)
    ensures ']' !in EditHead(msgId, ds)
  {
    LiteralsHaveNoBracket();
    DecimalHasNoBracket(msgId);
    JoinHasNoBracket(XML_DECLARATION, RPC_OPEN);
    JoinHasNoBracket(XML_DECLARATION + RPC_OPEN, Decimal(msgId));
    var front := XML_DECLARATION + RPC_OPEN + Decimal(msgId);
    JoinHasNoBracket(front, RPC_NAMESPACE);
    JoinHasNoBracket(front + RPC_NAMESPACE, EDIT_OPEN);
    JoinHasNoBracket(front + RPC_NAMESPACE + EDIT_OPEN, ds);
    JoinHasNoBracket(front + RPC_NAMESPACE + EDIT_OPEN + ds, CONFIG_OPEN);
  }

  lemma JoinHasNoBracket(x: string, y: string)
    requires ']' !in x && ']' !in y
    ensures ']' !in x + y
  {
  }

  lemma LiteralsHaveNoBracket()
    ensures ']' !in XML_DECLARATION && ']' !in RPC_OPEN && ']' !in RPC_NAMESPACE && ']' !in EDIT_OPEN
    ensures ']' !in CONFIG_OPEN && ']' !in EDIT_TAIL
  {
    NamespaceHasNoBracket();
    JoinHasNoBracket(XMLNS, BASE);
    assert ']' !in XML_DECLARATION;
    JoinHasNoBracket(CONFIG_CLOSE, "\n  </edit-config>\n</rpc>\n");
  }

  lemma NamespaceHasNoBracket()
    ensures ']' !in XMLNS && ']' !in BASE
  {
  }

  /** A marker in head + payload + tail + MARKER lies in the payload or is the last; head and tail hold no bracket. */
  lemma MarkersInFrame(head: string, payload: string, tail: string, k: nat)
    requires ']' !in head && ']' !in tail && tail != "" && tail[0] != '>'
    requires OccursAt(head + payload + tail + MARKER, MARKER, k)
    ensures k == |head| + |payload| + |tail| || (|head| <= k && OccursAt(payload, MARKER, k - |head|))
  {
    var msg := head + payload + tail + MARKER;
    var at := |head| + |payload|;
    assert forall j | 0 <= j < 6 :: msg[k..][j] == MARKER[j];
    assert forall j | k <= j < k + 6 :: msg[j] == msg[k..][j - k];
    assert msg[k] == ']' && forall j | k <= j < k + 6 :: msg[j] == ']' || msg[j] == '>';
    assert forall j | 0 <= j < |head| :: msg[j] == head[j];
    assert forall j | at <= j < at + |tail| :: msg[j] == tail[j - at];
    assert msg[at] != ']' && msg[at] != '>';
    if |head| <= k < at {
      assert k + 6 <= at;
      assert payload[k - |head|..][..6] == msg[k..][..6];
    }
  }

  lemma FrameMarkers(head: string, payload: string, tail: string)
    requires ']' !in head && ']' !in tail && tail != "" && tail[0] != '>'
    ensures
      var msg := head + payload + tail + MARKER;
      && OccursAt(msg, MARKER, |msg| - 6)
      && (!Contains(payload, MARKER) <==> forall k :: OccursAt(msg, MARKER, k) ==> k == |msg| - 6)
  {
    var msg := head + payload + tail + MARKER;
    ContainsMeaning(payload, MARKER);
    assert msg[|msg| - 6..] == MARKER;
    if Contains(payload, MARKER) {
      var k: nat :| OccursAt(payload, MARKER, k);
      assert msg[|head| + k..][..6] == payload[k..][..6];
      assert OccursAt(msg, MARKER, |head| + k);
    } else {
      forall k: nat | OccursAt(msg, MARKER, k)
        ensures k == |msg| - 6
      {
        MarkersInFrame(head, payload, tail, k);
      }
    }
  }

  /**
   * The frame built around a payload holds a marker nowhere but at its end exactly if the payload holds none, and so
   * for every payload the validator accepts.
   */
  lemma OnlyMarkerIsLast(msgId: nat, ds: string, payload: string)
    requires KnownDatastore(ds)
    ensures
      var msg := BuildEditConfig(msgId, ds, payload);
      && OccursAt(msg, MARKER, |msg| - 6)
      && (!Contains(payload, MARKER) <==> forall k :: OccursAt(msg, MARKER, k) ==> k == |msg| - 6)
  {
    HeadHasNoBracket(msgId, ds);
    LiteralsHaveNoBracket();
    FrameMarkers(EditHead(msgId, ds), payload, EDIT_TAIL);
  }

  lemma {:induction false} LowerKeepsContained(s: string, pat: string)
    requires Contains(s, pat) && ToLower(pat) == pat
    ensures Contains(ToLower(s), pat)
  {
    if StartsWith(s, pat) {
      assert ToLower(s)[..|pat|] == ToLower(pat);
    } else {
      LowerKeepsContained(s[1..], pat);
      assert ToLower(s)[1..] == ToLower(s[1..]);
    }
  }

  /** What follows the opening config tag in a frame. */
  function AfterConfigOpen(payload: string): string {
    payload + EDIT_TAIL + MARKER
  }

  lemma ClosingTagFacts()
    ensures ToLower(CONFIG_CLOSE) == CONFIG_CLOSE && StartsWith(EDIT_TAIL, CONFIG_CLOSE)
    ensures forall k | 0 < k < |CONFIG_CLOSE| :: CONFIG_CLOSE[k] != CONFIG_CLOSE[0]
  {
  }

  lemma PayloadEndsAtTag(payload: string, tail: string, marker: string, tag: string)
    requires tag != "" && forall k | 0 < k < |tag| :: tag[k] != tag[0]
    requires StartsWith(tail, tag) && ToLower(tag) == tag && !Contains(ToLower(payload), tag)
    ensures Before(payload + tail + marker, tag) == payload
  {
    assert !Contains(payload, tag) by {
      if Contains(payload, tag) {
        LowerKeepsContained(payload, tag);
      }
    }
    StartIsLocal(tail, marker, tag);
    BeforeBoundary(payload, tail + marker, tag);
    assert payload + tail + marker == payload + (tail + marker);
  }

  lemma Regroup(a: string, b: string, c: string, d: string)
    ensures a + b + c + d == a + (b + c + d)
  {
  }

  /**
   * For an accepted payload the frame is the fixed head, then text whose first literal closing config tag comes
   * directly after the payload, and the frame ends at its only marker.
   */
  lemma AcceptedPayloadArrives(msgId: nat, ds: string, payload: string)
    requires KnownDatastore(ds) && Acceptable(payload)
    ensures
      var msg := BuildEditConfig(msgId, ds, payload);
      && msg == EditHead(msgId, ds) + AfterConfigOpen(payload)
      && Before(AfterConfigOpen(payload), CONFIG_CLOSE) == payload
      && forall k :: OccursAt(msg, MARKER, k) ==> k == |msg| - 6
  {
    OnlyMarkerIsLast(msgId, ds, payload);
    ClosingTagFacts();
    PayloadEndsAtTag(payload, EDIT_TAIL, MARKER, CONFIG_CLOSE);
    Regroup(EditHead(msgId, ds), payload, EDIT_TAIL, MARKER);
  }

  const BLANK_CLOSE := "</config >"

  lemma BlankCloseFacts()
    ensures ToLower(BLANK_CLOSE) == BLANK_CLOSE && ']' !in BLANK_CLOSE && '<' !in BLANK_CLOSE[1..]
    ensures BLANK_CLOSE != "" && !StartsWith(BLANK_CLOSE, CONFIG_CLOSE)
    ensures !StartsWith(BLANK_CLOSE, "<rpc") && !StartsWith(BLANK_CLOSE, "</rpc>")
  {
    assert BLANK_CLOSE[8] != CONFIG_CLOSE[8] && BLANK_CLOSE[1] != "<rpc"[1] && BLANK_CLOSE[2] != "</rpc>"[2];
  }

  /** A closing tag with a blank before its bracket is not looked for, so a payload that holds one is accepted. */
  lemma BlankInTagIsAccepted()
    ensures Acceptable(BLANK_CLOSE)
  {
    BlankCloseFacts();
    AcceptedByFront(BLANK_CLOSE);
  }

  lemma AcceptedByFront(s: string)
    requires ToLower(s) == s && ']' !in s && s != "" && '<' !in s[1..]
    requires !StartsWith(s, CONFIG_CLOSE) && !StartsWith(s, "<rpc") && !StartsWith(s, "</rpc>")
    ensures Acceptable(s)
  {
    NotContained(s, MARKER);
    OnlyAtFront(s, CONFIG_CLOSE);
    OnlyAtFront(s, "<rpc");
    OnlyAtFront(s, "</rpc>");
  }

  /** In a text whose only opening bracket comes first a tag is contained only at the front. */
  lemma OnlyAtFront(s: string, tag: string)
    requires s != "" && '<' !in s[1..] && tag != "" && tag[0] == '<'
    ensures Contains(s, tag) <==> StartsWith(s, tag)
  {
    NotContained(s[1..], tag);
  }

  /** Whatever a command parses to can be framed: its datastore is known and its payload ends at the tag. */
  lemma ParsedEditIsFramed(cmd: string, decode: string -> Option<string>, msgId: nat)
    requires ParseEdit(cmd, decode).Success?
    ensures
      var edit := ParseEdit(cmd, decode).value;
      && (edit.datastore == "running" || edit.datastore == "candidate" || edit.datastore == "startup")
      && Before(AfterConfigOpen(edit.payload), "</config>") == edit.payload
      && forall k :: OccursAt(BuildEditConfig(msgId, edit.datastore, edit.payload), MARKER, k) ==>
                       k == |BuildEditConfig(msgId, edit.datastore, edit.payload)| - 6
  {
    var edit := ParseEdit(cmd, decode).value;
    AcceptedPayloadArrives(msgId, edit.datastore, edit.payload);
  }

  /**
   * A command in the documented form, for whatever stands before its second colon: a datastore other than the three is
   * refused, and otherwise the command names exactly it and its decoded payload, or fails as the payload does.
   */
  lemma WellFormedCommandParses(ds: string, encoded: string, decode: string -> Option<string>)
    requires ':' !in ds
    requires encoded != "" ==> !IsSpace(encoded[|encoded| - 1])
    ensures ParseEdit("edit-config:" + ds + ":" + encoded, decode) == Operands(TrimSpace(ds), encoded, decode)
  {
    var tail := ":" + encoded;
    assert EDIT + ds + ":" + encoded == EDIT + (ds + tail);
    CommandIsTrimmed(EDIT, ds + tail);
    OperandsParse(ds, encoded, decode);
  }

  /** What a command with these operands gives. */
  ghost function Operands(ds: string, encoded: string, decode: string -> Option<string>): Result<Edit, EditError> {
    if ds != "running" && ds != "candidate" && ds != "startup" then Failure(UnknownDatastore)
    else
      match decode(encoded)
      case None => Failure(BadBase64)
      case Some(payload) => if Acceptable(payload) then Success(Edit(ds, payload)) else Failure(ForbiddenPayload)
  }

  lemma CommandIsTrimmed(keyword: string, rest: string)
    requires keyword != "" && !IsSpace(keyword[0])
    requires rest != "" && !IsSpace(rest[|rest| - 1])
    ensures TrimSpace(keyword + rest) == keyword + rest
    ensures StartsWith(keyword + rest, keyword) && (keyword + rest)[|keyword|..] == rest
  {
  }

  lemma OperandsParse(head: string, encoded: string, decode: string -> Option<string>)
    requires ':' !in head
    ensures ParseOperands(head + (":" + encoded), decode) == Operands(TrimSpace(head), encoded, decode)
  {
    SplitAtColon(head, encoded);
  }

  lemma SplitAtColon(head: string, encoded: string)
    requires ':' !in head
    ensures
      var rest := head + (":" + encoded);
      Contains(rest, ":") && Before(rest, ":") == head && rest[|head| + 1..] == encoded
  {
    NotContained(head, ":");
    BeforeBoundary(head, ":" + encoded, ":");
    BoundaryIsContained(head, ":" + encoded, ":");
  }

  /** Without a colon after the keyword a command is malformed. */
  lemma CommandNeedsColon(rest: string, decode: string -> Option<string>)
    requires ':' !in rest && rest != "" && !IsSpace(rest[|rest| - 1])
    ensures ParseEdit("edit-config:" + rest, decode) == Failure(Malformed)
  {
    CommandIsTrimmed(EDIT, rest);
    NotContained(rest, ":");
  }

  // ---- what the validator refuses, by positions ----

  /** A character that lower-casing makes the lower-case character `d`. */
  predicate SameLetter(c: char, d: char) {
    c == d || ('A' <= c <= 'Z' && c as int + 32 == d as int) || (c == '\U{0130}' && d == 'i')
    || (c == '\U{212A}' && d == 'k')
  }

  ghost predicate OccursInAnyCase(s: string, tag: string, k: nat) {
    k + |tag| <= |s| && forall i | 0 <= i < |tag| :: SameLetter(s[k + i], tag[i])
  }

  predicate IsLower(s: string) {
    forall i | 0 <= i < |s| :: !('A' <= s[i] <= 'Z') && s[i] != '\U{0130}' && s[i] != '\U{212A}'
  }

  lemma ContainedInAnyCase(s: string, tag: string)
    requires IsLower(tag)
    ensures Contains(ToLower(s), tag) <==> exists k: nat :: OccursInAnyCase(s, tag, k)
  {
    ContainsMeaning(ToLower(s), tag);
    forall k: nat
      ensures OccursAt(ToLower(s), tag, k) <==> OccursInAnyCase(s, tag, k)
    {
      LowerOccurs(s, tag, k);
    }
  }

  lemma LowerOccurs(s: string, tag: string, k: nat)
    requires IsLower(tag)
    ensures OccursAt(ToLower(s), tag, k) <==> OccursInAnyCase(s, tag, k)
  {
    if k + |tag| <= |s| {
      var t := ToLower(s)[k..];
      assert forall i | 0 <= i < |tag| :: t[i] == Lower(s[k + i]);
      assert OccursInAnyCase(s, tag, k) ==> t[..|tag|] == tag;
      assert StartsWith(t, tag) ==> forall i | 0 <= i < |tag| :: t[i] == tag[i];
    }
  }

  /** A payload is accepted exactly if no marker occurs in it, and none of the three tags in any mixture of cases. */
  lemma AcceptedByPositions(payload: string)
    ensures Acceptable(payload) <==>
            && (forall k: nat :: !OccursAt(payload, "]]>]]>", k))
            && (forall k: nat :: !OccursInAnyCase(payload, "</config>", k))
            && (forall k: nat :: !OccursInAnyCase(payload, "<rpc", k))
            && (forall k: nat :: !OccursInAnyCase(payload, "</rpc>", k))
  {
    ContainsMeaning(payload, MARKER);
    ContainedInAnyCase(payload, "</config>");
    ContainedInAnyCase(payload, "<rpc");
    ContainedInAnyCase(payload, "</rpc>");
  }

  // ---- what the frame says ----

  /** The number that decimal digits stand for. */
  function ValueOf(s: string): int {
    if s == "" then 0 else ValueOf(s[..|s| - 1]) * 10 + (s[|s| - 1] as int - '0' as int)
  }

  lemma {:induction false} DecimalReads(n: nat)
    ensures Decimal(n) != "" && ValueOf(Decimal(n)) == n
    ensures forall k | 0 <= k < |Decimal(n)| :: '0' <= Decimal(n)[k] <= '9'
    ensures |Decimal(n)| > 1 ==> Decimal(n)[0] != '0'
  {
    DigitReads(n % 10);
    if n >= 10 {
      DecimalReads(n / 10);
      var d := Decimal(n);
      assert d[..|d| - 1] == Decimal(n / 10);
      if n / 10 < 10 {
        DigitReads(n / 10);
      }
    }
  }

  lemma DigitReads(d: nat)
    requires d < 10
    ensures DigitChar(d) as int - '0' as int == d && '0' <= DigitChar(d) <= '9'
    ensures ValueOf([DigitChar(d)]) == d
  {
    assert [DigitChar(d)][..0] == "";
  }

  lemma OccursInside(x: string, y: string, z: string)
    ensures OccursAt(x + y + z, y, |x|)
  {
    assert (x + y + z)[|x|..] == y + z;
  }

  /** The frame, part by part. */
  lemma FrameText(msgId: nat, ds: string, payload: string)
    ensures BuildEditConfig(msgId, ds, payload) ==
            "<?xml version=\"1.0\" encoding=\"UTF-8\"?>\n"
            + "<rpc message-id=\"" + Decimal(msgId)
            + ("\" xmlns=\"urn:ietf:params:xml" + ":ns:netconf:base:1.0\">\n")
            + "  <edit-config>\n    <target><" + ds + "/></target>\n    <config>" + payload
            + ("</config>" + "\n  </edit-config>\n</rpc>\n") + "]]>]]>"
  {
  }

  /** The frame carries the message number, the datastore as the target and the payload as the configuration. */
  lemma FrameSays(msgId: nat, ds: string, payload: string)
    ensures
      var msg := BuildEditConfig(msgId, ds, payload);
      && (exists k: nat :: OccursAt(msg, "<rpc message-id=\"" + Decimal(msgId) + "\"", k))
      && (exists k: nat :: OccursAt(msg, "<target><" + ds + "/></target>", k))
      && (exists k: nat :: OccursAt(msg, "<config>" + payload + "</config>", k))
  {
    SplitLiterals();
    FrameSaysId(msgId, ds, payload);
    FrameSaysTarget(msgId, ds, payload);
    FrameSaysConfig(msgId, ds, payload);
  }

  const EDIT_INDENT := "  <edit-config>\n    "
  const CONFIG_INDENT := "\n    "

  lemma SplitLiterals()
    ensures EDIT_OPEN == EDIT_INDENT + "<target><"
    ensures CONFIG_OPEN == "/></target>" + CONFIG_INDENT + "<config>"
    ensures XMLNS == "\"" + XMLNS[1..] && RPC_OPEN == "<rpc message-id=\""
  {
  }

  lemma FrameSaysId(msgId: nat, ds: string, payload: string)
    requires XMLNS == "\"" + XMLNS[1..] && RPC_OPEN == "<rpc message-id=\""
    ensures exists k: nat ::
              OccursAt(BuildEditConfig(msgId, ds, payload), "<rpc message-id=\"" + Decimal(msgId) + "\"", k)
  {
    var y := RPC_OPEN + Decimal(msgId) + "\"";
    var z := XMLNS[1..] + BASE + EDIT_OPEN + ds + CONFIG_OPEN + payload + EDIT_TAIL + MARKER;
    IdParts(XML_DECLARATION, RPC_OPEN, Decimal(msgId), "\"", XMLNS[1..], BASE, EDIT_OPEN, ds, CONFIG_OPEN, payload,
            EDIT_TAIL, MARKER);
    assert BuildEditConfig(msgId, ds, payload) == XML_DECLARATION + y + z;
    OccursInside(XML_DECLARATION, y, z);
  }

  lemma IdParts(a: string, b: string, c: string, q: string, d: string, e: string, f: string, g: string, h: string,
                i: string, j: string, k: string)
    ensures a + b + c + ((q + d) + e) + f + g + h + i + j + k ==
            a + (b + c + q) + (d + e + f + g + h + i + j + k)
  {
  }

  lemma FrameSaysTarget(msgId: nat, ds: string, payload: string)
    requires EDIT_OPEN == EDIT_INDENT + "<target><" && CONFIG_OPEN == "/></target>" + CONFIG_INDENT + "<config>"
    ensures exists k: nat :: OccursAt(BuildEditConfig(msgId, ds, payload), "<target><" + ds + "/></target>", k)
  {
    var front := XML_DECLARATION + RPC_OPEN + Decimal(msgId) + RPC_NAMESPACE;
    var y := "<target><" + ds + "/></target>";
    TargetParts(front, EDIT_INDENT, "<target><", ds, "/></target>", CONFIG_INDENT, "<config>", payload, EDIT_TAIL,
                MARKER);
    var rest := CONFIG_INDENT + "<config>" + payload + EDIT_TAIL + MARKER;
    assert BuildEditConfig(msgId, ds, payload) == front + EDIT_INDENT + y + rest;
    OccursInside(front + EDIT_INDENT, y, rest);
  }

  lemma TargetParts(front: string, a: string, b: string, c: string, d: string, e: string, f: string, g: string,
                    h: string, i: string)
    ensures front + (a + b) + c + (d + e + f) + g + h + i == front + a + (b + c + d) + (e + f + g + h + i)
  {
  }

  lemma FrameSaysConfig(msgId: nat, ds: string, payload: string)
    requires CONFIG_OPEN == "/></target>" + CONFIG_INDENT + "<config>"
    ensures exists k: nat :: OccursAt(BuildEditConfig(msgId, ds, payload), "<config>" + payload + "</config>", k)
  {
    var front := XML_DECLARATION + RPC_OPEN + Decimal(msgId) + RPC_NAMESPACE + EDIT_OPEN + ds;
    var y, last := "<config>" + payload + CONFIG_CLOSE, "\n  </edit-config>\n</rpc>\n";
    ConfigParts(front, "/></target>" + CONFIG_INDENT, "<config>", payload, CONFIG_CLOSE, last, MARKER);
    assert BuildEditConfig(msgId, ds, payload) == front + ("/></target>" + CONFIG_INDENT) + y + (last + MARKER);
    OccursInside(front + ("/></target>" + CONFIG_INDENT), y, last + MARKER);
  }

  lemma ConfigParts(front: string, a: string, b: string, c: string, d: string, e: string, f: string)
    ensures front + (a + b) + c + (d + e) + f == front + a + (b + c + d) + (e + f)
  {
  }
}
