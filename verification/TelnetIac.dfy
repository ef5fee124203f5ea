/** Telnet command stripping and option refusal. */
module TelnetIac {
  import opened Bytes

  const IAC: Byte := 255
  const DONT: Byte := 254
  const DO: Byte := 253
  const WONT: Byte := 252
  const WILL: Byte := 251
  const SB: Byte := 250
  const SE: Byte := 240

  /** What one pass over a block of bytes yields: the text, and the bytes written back to the peer. */
  datatype Stripped = Stripped(text: ByteSeq, replies: ByteSeq)

  class TelnetSession {
    /** Everything written to the connection. */
    var written: ByteSeq

    constructor ()
      ensures written == []
    {
      written := [];
    }

    method StripIAC(data: ByteSeq) returns (out: ByteSeq)
      modifies this
      ensures out == Strip(data).text
      ensures written == old(written) + Strip(data).replies
    {
      out := [];
      ghost var sent: ByteSeq := [];
      var i := 0;
      assert data[0..] == data;
      while i < |data|
        invariant 0 <= i <= |data|
        invariant After(out, sent, Strip(data[i..])) == Strip(data)
        invariant written == old(written) + sent
      {
        StripFrom(data, i, out, sent);
        var b := data[i];
        if b != IAC {
          out := out + [b];
          i := i + 1;
          continue;
        }
        if i + 1 >= |data| {
          i := i + 1;
          continue;
        }
        var cmd := data[i + 1];
        if cmd == WILL {
          if i + 2 < |data| {
            written, sent := written + [IAC, DONT, data[i + 2]], sent + [IAC, DONT, data[i + 2]];
            i := i + 3;
          } else {
            i := i + 2;
          }
        } else if cmd == DO {
          if i + 2 < |data| {
            written, sent := written + [IAC, WONT, data[i + 2]], sent + [IAC, WONT, data[i + 2]];
            i := i + 3;
          } else {
            i := i + 2;
          }
        } else if cmd == WONT || cmd == DONT {
          if i + 2 < |data| {
            i := i + 3;
          } else {
            i := i + 2;
          }
        } else if cmd == SB {
          i := SkipSubnegotiation(data, i + 2);
        } else if cmd == IAC {
          out := out + [255];
          i := i + 2;
        } else {
          i := i + 2;
        }
      }
      assert data[i..] == [];
    }

    /** The inner loop: just past the first IAC SE pair, or the end. */
    method SkipSubnegotiation(data: ByteSeq, start: nat) returns (i: nat)
      requires start <= |data|
      ensures start <= i <= |data|
      ensures data[i..] == AfterSubnegotiation(data[start..])
    {
      i := start;
      while i < |data|
        invariant start <= i <= |data|
        invariant AfterSubnegotiation(data[i..]) == AfterSubnegotiation(data[start..])
      {
        assert data[i..][1..] == data[i + 1..];
        if data[i] == IAC && i + 1 < |data| && data[i + 1] == SE {
          assert data[i..][2..] == data[i + 2..];
          i := i + 2;
          return;
        }
        i := i + 1;
      }
      assert data[i..] == [];
    }
  }

  predicate EndsSubnegotiation(data: ByteSeq) {
    |data| >= 2 && data[0] == IAC && data[1] == SE
  }

  /** What follows the first IAC SE pair, nothing if there is none. */
  function AfterSubnegotiation(data: ByteSeq): (rest: ByteSeq)
    ensures |rest| <= |data|
  {
    if data == [] then []
    else if EndsSubnegotiation(data) then data[2..]
    else AfterSubnegotiation(data[1..])
  }

  function Strip(data: ByteSeq): Stripped
    decreases |data|
  {
    if data == [] then Stripped([], [])
    else if data[0] != IAC then
      var s := Strip(data[1..]);
      s.(text := [data[0]] + s.text)
    else if |data| == 1 then Stripped([], [])
    else if data[1] == IAC then
      var s := Strip(data[2..]);
      s.(text := [IAC] + s.text)
    else if data[1] == SB then Strip(AfterSubnegotiation(data[2..]))
    else if data[1] == WILL || data[1] == DO || data[1] == WONT || data[1] == DONT then
      if |data| == 2 then Stripped([], [])
      else
        var s := Strip(data[3..]);
        s.(replies := Refusal(data[1], data[2]) + s.replies)
    else Strip(data[2..])
  }

  /** Text and replies already there, ahead of what the rest yields. */
  function After(text: ByteSeq, replies: ByteSeq, s: Stripped): Stripped {
    Stripped(text + s.text, replies + s.replies)
  }

  lemma AfterAfter(text: ByteSeq, replies: ByteSeq, more: ByteSeq, moreReplies: ByteSeq, s: Stripped)
    ensures After(text, replies, After(more, moreReplies, s)) == After(text + more, replies + moreReplies, s)
  {
  }

  /** What is to be done at position `i`, by the byte there and the command after it. */
  lemma StripFrom(data: ByteSeq, i: nat, out: ByteSeq, sent: ByteSeq)
    requires i < |data|
    ensures
      var now := After(out, sent, Strip(data[i..]));
      && (data[i] != IAC ==> now == After(out + [data[i]], sent, Strip(data[i + 1..])))
      && (data[i] == IAC && i + 1 == |data| ==> now == After(out, sent, Strip(data[i + 1..])))
      && (data[i] == IAC && i + 1 < |data| ==> now == CommandAt(data, i, out, sent))
  {
    var rest := data[i..];
    assert forall k | i <= k <= |data| :: rest[k - i..] == data[k..];
    AfterAfter(out, sent, [data[i]], [], Strip(data[i + 1..]));
    assert sent + [] == sent && out + [] == out;
    if data[i] == IAC && i + 1 < |data| {
      var cmd := data[i + 1];
      if cmd == IAC {
        AfterAfter(out, sent, [255], [], Strip(data[i + 2..]));
      } else if i + 2 < |data| {
        AfterAfter(out, sent, [], Refusal(cmd, data[i + 2]), Strip(data[i + 3..]));
      }
    }
  }

  /** The case of a command at position `i`. */
  function CommandAt(data: ByteSeq, i: nat, out: ByteSeq, sent: ByteSeq): Stripped
    requires i + 1 < |data|
  {
    var cmd := data[i + 1];
    if cmd == SB then After(out, sent, Strip(AfterSubnegotiation(data[i + 2..])))
    else if cmd == IAC then After(out + [255], sent, Strip(data[i + 2..]))
    else if cmd == WILL || cmd == DO || cmd == WONT || cmd == DONT then
      if i + 2 < |data| then After(out, sent + Refusal(cmd, data[i + 2]), Strip(data[i + 3..]))
      else After(out, sent, Strip(data[i + 2..]))
    else After(out, sent, Strip(data[i + 2..]))
  }

  /** The answer to an offer or request; acknowledgements get none. */
  function Refusal(cmd: Byte, option: Byte): ByteSeq {
    if cmd == WILL then [IAC, DONT, option]
    else if cmd == DO then [IAC, WONT, option]
    else []
  }

  // ---- items of section "TELNET COMMAND STRUCTURE" of RFC 854 ----

  datatype Item =
    | Data(b: Byte)
    | EscapedIac
    | Negotiation(cmd: Byte, option: Byte)
    | Subnegotiation(body: ByteSeq)
    | Command(c: Byte)

  const NEGOTIATIONS: set<Byte> := {WILL, DO, WONT, DONT}

  /** An IAC SE pair somewhere. */
  predicate HasEndPair(body: ByteSeq) {
    body != [] && (EndsSubnegotiation(body) || HasEndPair(body[1..]))
  }

  ghost predicate Complete(item: Item) {
    match item
    case Data(b) => b != IAC
    case EscapedIac => true
    case Negotiation(cmd, _) => cmd in NEGOTIATIONS
    case Subnegotiation(body) => !HasEndPair(body)
    case Command(c) => c !in NEGOTIATIONS && c != IAC && c != SB
  }

  lemma {:induction false} EndPairMeaning(body: ByteSeq)
    ensures HasEndPair(body) <==> exists k :: PairAt(body, k)
  {
    if body != [] {
      EndPairMeaning(body[1..]);
      if EndsSubnegotiation(body) {
        assert PairAt(body, 0);
      } else if HasEndPair(body[1..]) {
        var k :| PairAt(body[1..], k);
        assert PairAt(body, k + 1);
      } else if k :| PairAt(body, k) {
        assert PairAt(body[1..], k - 1);
      }
    }
  }

  ghost predicate PairAt(body: ByteSeq, k: int) {
    0 <= k < |body| - 1 && body[k] == 255 && body[k + 1] == 240
  }

  /** Items in numbers: their bytes, which of them are complete, and what is answered: 251 by 254 and 253 by 252. */
  lemma ItemsInNumbers(item: Item)
    ensures Encode(item) ==
            match item
            case Data(b) => [b]
            case EscapedIac => [255, 255]
            case Negotiation(cmd, option) => [255, cmd, option]
            case Subnegotiation(body) => [255, 250] + body + [255, 240]
            case Command(c) => [255, c]
    ensures Complete(item) <==>
            match item
            case Data(b) => b != 255
            case EscapedIac => true
            case Negotiation(cmd, _) => 251 <= cmd <= 254
            case Subnegotiation(body) => forall k :: !PairAt(body, k)
            case Command(c) => c < 250
    ensures ItemText(item) ==
            match item
            case Data(b) => [b]
            case EscapedIac => [255]
            case _ => []
    ensures ItemRefusal(item) ==
            match item
            case Negotiation(cmd, option) =>
              if cmd == 251 then [255, 254, option] else if cmd == 253 then [255, 252, option] else []
            case _ => []
  {
    if item.Subnegotiation? {
      EndPairMeaning(item.body);
    }
  }

  ghost predicate AllComplete(items: seq<Item>) {
    forall k | 0 <= k < |items| :: Complete(items[k])
  }

  function Encode(item: Item): ByteSeq {
    match item
    case Data(b) => [b]
    case EscapedIac => [IAC, IAC]
    case Negotiation(cmd, option) => [IAC, cmd, option]
    case Subnegotiation(body) => [IAC, SB] + body + [IAC, SE]
    case Command(c) => [IAC, c]
  }

  function EncodeAll(items: seq<Item>): ByteSeq {
    if items == [] then [] else Encode(items[0]) + EncodeAll(items[1..])
  }

  function ItemText(item: Item): ByteSeq {
    match item
    case Data(b) => [b]
    case EscapedIac => [IAC]
    case _ => []
  }

  function ItemRefusal(item: Item): ByteSeq {
    match item
    case Negotiation(cmd, option) => Refusal(cmd, option)
    case _ => []
  }

  /** The data bytes the items stand for. */
  function TextOf(items: seq<Item>): ByteSeq {
    if items == [] then [] else ItemText(items[0]) + TextOf(items[1..])
  }

  /** One DONT for each WILL and one WONT for each DO, in order. */
  function RefusalsOf(items: seq<Item>): ByteSeq {
    if items == [] then [] else ItemRefusal(items[0]) + RefusalsOf(items[1..])
  }

  /** An item cut off by the end of the block. */
  ghost predicate Truncated(tail: ByteSeq) {
    || tail == []
    || tail == [IAC]
    || (|tail| == 2 && tail[0] == IAC && tail[1] in NEGOTIATIONS)
    || (|tail| >= 2 && tail[0] == IAC && tail[1] == SB && !HasEndPair(tail[2..]))
  }

  lemma {:induction false} SkipsBody(body: ByteSeq, rest: ByteSeq)
    requires !HasEndPair(body)
    ensures AfterSubnegotiation(body + [IAC, SE] + rest) == rest
  {
    var data := body + [IAC, SE] + rest;
    if body == [] {
      assert data[2..] == rest;
    } else {
      assert data[1..] == body[1..] + [IAC, SE] + rest;
      assert !EndsSubnegotiation(data) by {
        assert |body| > 1 ==> data[1] == body[1];
        assert |body| == 1 ==> data[1] == IAC;
      }
      SkipsBody(body[1..], rest);
    }
  }

  lemma SubnegotiationStrips(body: ByteSeq, rest: ByteSeq)
    requires !HasEndPair(body)
    ensures Strip(Encode(Subnegotiation(body)) + rest) == Strip(rest)
  {
    var data := Encode(Subnegotiation(body)) + rest;
    assert data[2..] == body + [IAC, SE] + rest;
    SkipsBody(body, rest);
  }

  /** An item's contribution ahead of what the rest yields. */
  function Ahead(item: Item, s: Stripped): Stripped {
    After(ItemText(item), ItemRefusal(item), s)
  }

  function AllAhead(items: seq<Item>, s: Stripped): Stripped {
    if items == [] then s else Ahead(items[0], AllAhead(items[1..], s))
  }

  lemma {:induction false} AllAheadCollects(items: seq<Item>, s: Stripped)
    ensures AllAhead(items, s) == Stripped(TextOf(items) + s.text, RefusalsOf(items) + s.replies)
  {
    if items == [] {
      assert [] + s.text == s.text && [] + s.replies == s.replies;
    } else {
      AllAheadCollects(items[1..], s);
      Regroup(ItemText(items[0]), TextOf(items[1..]), s.text);
      Regroup(ItemRefusal(items[0]), RefusalsOf(items[1..]), s.replies);
    }
  }

  lemma Regroup(x: ByteSeq, y: ByteSeq, z: ByteSeq)
    ensures x + (y + z) == x + y + z
  {
  }

  lemma ItemStrips(item: Item, rest: ByteSeq)
    requires Complete(item)
    ensures Strip(Encode(item) + rest) == Ahead(item, Strip(rest))
  {
    var data := Encode(item) + rest;
    assert [] + Strip(rest).text == Strip(rest).text && [] + Strip(rest).replies == Strip(rest).replies;
    match item {
      case Data(_) => assert data[1..] == rest;
      case EscapedIac => assert data[2..] == rest;
      case Negotiation(_, _) => assert data[3..] == rest;
      case Subnegotiation(body) => SubnegotiationStrips(body, rest);
      case Command(_) => assert data[2..] == rest;
    }
  }

  lemma {:induction false} ItemsGoAhead(items: seq<Item>, rest: ByteSeq)
    requires AllComplete(items)
    ensures Strip(EncodeAll(items) + rest) == AllAhead(items, Strip(rest))
  {
    if items == [] {
      assert EncodeAll(items) + rest == rest;
    } else {
      var more := EncodeAll(items[1..]) + rest;
      assert EncodeAll(items) + rest == Encode(items[0]) + more;
      ItemStrips(items[0], more);
      ItemsGoAhead(items[1..], rest);
    }
  }

  /**
   * On complete items stripping yields exactly their data bytes, refuses exactly the offers and requests among them,
   * and goes on with what follows as if it came alone.
   */
  lemma {:induction false} ItemsStrip(items: seq<Item>, rest: ByteSeq)
    requires AllComplete(items)
    ensures Strip(EncodeAll(items) + rest) ==
            Stripped(TextOf(items) + Strip(rest).text, RefusalsOf(items) + Strip(rest).replies)
  {
    ItemsGoAhead(items, rest);
    AllAheadCollects(items, Strip(rest));
  }

  lemma {:induction false} NoPairNoRest(body: ByteSeq)
    requires !HasEndPair(body)
    ensures AfterSubnegotiation(body) == []
  {
    if body != [] {
      NoPairNoRest(body[1..]);
    }
  }

  lemma TruncatedStripsToNothing(tail: ByteSeq)
    requires Truncated(tail)
    ensures Strip(tail) == Stripped([], [])
  {
    if |tail| >= 2 && tail[1] == SB {
      NoPairNoRest(tail[2..]);
    }
  }

  /** The first end pair, if any, splits a subnegotiation from the rest. */
  lemma {:induction false} FindEndPair(data: ByteSeq) returns (body: ByteSeq)
    requires HasEndPair(data)
    ensures !HasEndPair(body) && data == body + [IAC, SE] + AfterSubnegotiation(data)
  {
    if EndsSubnegotiation(data) {
      body := [];
    } else {
      var inner := FindEndPair(data[1..]);
      body := [data[0]] + inner;
      assert data == [data[0]] + data[1..];
      assert body[1..] == inner;
    }
  }

  lemma FirstItem(data: ByteSeq) returns (first: Item, rest: ByteSeq)
    requires !Truncated(data)
    ensures Complete(first) && data == Encode(first) + rest && |rest| < |data|
  {
    if data[0] != IAC {
      first, rest := Data(data[0]), data[1..];
    } else if data[1] == IAC {
      first, rest := EscapedIac, data[2..];
    } else if data[1] == SB {
      var body := FindEndPair(data[2..]);
      first, rest := Subnegotiation(body), AfterSubnegotiation(data[2..]);
      assert data == [IAC, SB] + data[2..];
    } else if data[1] in NEGOTIATIONS {
      first, rest := Negotiation(data[1], data[2]), data[3..];
    } else {
      first, rest := Command(data[1]), data[2..];
    }
  }

  lemma ItemAhead(first: Item, more: seq<Item>, tail: ByteSeq)
    requires Complete(first) && AllComplete(more)
    ensures AllComplete([first] + more)
    ensures EncodeAll([first] + more) + tail == Encode(first) + (EncodeAll(more) + tail)
  {
    assert ([first] + more)[1..] == more;
    Regroup(Encode(first), EncodeAll(more), tail);
  }

  /** Every block is a sequence of complete items, possibly followed by one that its end cuts off. */
  lemma {:induction false} Itemize(data: ByteSeq) returns (items: seq<Item>, tail: ByteSeq)
    ensures AllComplete(items) && Truncated(tail)
    ensures data == EncodeAll(items) + tail
    decreases |data|
  {
    if Truncated(data) {
      items, tail := [], data;
    } else {
      var first, rest := FirstItem(data);
      var more;
      more, tail := Itemize(rest);
      items := [first] + more;
      ItemAhead(first, more, tail);
    }
  }

  /**
   * For every block whatsoever: it is a sequence of complete items with at most one cut off at the end, the text is
   * the items' data, the replies are their refusals, and the cut-off item contributes nothing.
   */
  lemma StripIsItemMeaning(data: ByteSeq) returns (items: seq<Item>, tail: ByteSeq)
    ensures AllComplete(items) && Truncated(tail) && data == EncodeAll(items) + tail
    ensures Strip(data) == Stripped(TextOf(items), RefusalsOf(items))
  {
    items, tail := Itemize(data);
    ItemsStrip(items, tail);
    TruncatedStripsToNothing(tail);
  }

  /** Doubling every 255, as a sender of binary text must. */
  function Doubled(text: ByteSeq): ByteSeq {
    if text == [] then []
    else (if text[0] == IAC then [IAC, IAC] else [text[0]]) + Doubled(text[1..])
  }

  /** Stripping undoes doubling and writes nothing. */
  lemma {:induction false} StripUndoesDoubling(text: ByteSeq)
    ensures Strip(Doubled(text)) == Stripped(text, [])
  {
    if text != [] {
      StripUndoesDoubling(text[1..]);
      var item := if text[0] == IAC then EscapedIac else Data(text[0]);
      assert Doubled(text) == Encode(item) + Doubled(text[1..]);
      ItemStrips(item, Doubled(text[1..]));
      assert text == [text[0]] + text[1..];
    }
  }
}
