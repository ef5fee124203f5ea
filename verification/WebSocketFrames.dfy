/** WebSocket frames: the reader for masked client frames, the writer for server frames, and the wire layout. */
module WebSocketFrames {
  import opened Bytes
  import opened Wrappers

  type Mask = m: ByteSeq | |m| == 4 witness [0, 0, 0, 0]

  // ---- the layout of section 5.2 of RFC 6455 ----

  datatype LengthForm = Short | Medium | Long

  /** The longest payloads the three forms can announce; the 64-bit form leaves its top bit clear. */
  predicate Fits(form: LengthForm, n: nat) {
    match form
    case Short => n < 126
    case Medium => n <= 0xffff
    case Long => n < 0x8000_0000_0000_0000
  }

  function Shortest(n: nat): (form: LengthForm)
    ensures n < 0x8000_0000_0000_0000 ==> Fits(form, n)
  {
    if n < 126 then Short else if n <= 0xffff then Medium else Long
  }

  /** Section 5.3: payload byte i is combined with mask byte i modulo 4. */
  function Masked(payload: ByteSeq, mask: Mask): (m: ByteSeq)
    ensures |m| == |payload|
  {
    seq(|payload|, i requires 0 <= i < |payload| => Xor(payload[i], mask[i % 4]))
  }

  /** A frame as a peer may send it: any first byte, any length form that fits, any mask. */
  datatype Frame = Frame(first: Byte, form: LengthForm, mask: Mask, payload: ByteSeq)

  /** The second byte: the mask bit and seven length bits. */
  function LengthByte(masked: bool, code: nat): Byte
    requires code < 128
  {
    code + if masked then 128 else 0
  }

  function LengthBytes(masked: bool, form: LengthForm, n: nat): ByteSeq
    requires Fits(form, n)
  {
    match form
    case Short => [LengthByte(masked, n)]
    case Medium => [LengthByte(masked, 126)] + PutBigEndian(n, 2)
    case Long => [LengthByte(masked, 127)] + PutBigEndian(n, 8)
  }

  function ClientLayout(f: Frame): ByteSeq
    requires Fits(f.form, |f.payload|)
  {
    [f.first] + LengthBytes(true, f.form, |f.payload|) + f.mask + Masked(f.payload, f.mask)
  }

  function ServerLayout(first: Byte, form: LengthForm, payload: ByteSeq): ByteSeq
    requires Fits(form, |payload|)
  {
    [first] + LengthBytes(false, form, |payload|) + payload
  }

  const MAX_PAYLOAD := 0x100_0000

  ghost predicate Sendable(f: Frame) {
    Fits(f.form, |f.payload|) && |f.payload| <= MAX_PAYLOAD
  }

  // ---- the reader ----

  datatype ReadError = ShortRead | UnmaskedFrame | TooLarge

  datatype ReadResult = Got(op: Byte, payload: ByteSeq, rest: ByteSeq) | Bad(error: ReadError)

  predicate HasMask(b: Byte) {
    b >= 128
  }

  /** The seven length bits. */
  function LengthCode(b: Byte): nat {
    b % 128
  }

  /** The opcode: the low four bits of the first byte. */
  function Opcode(b: Byte): Byte {
    b % 16
  }

  /** The final-fragment bit set on top of an opcode. */
  function FirstByte(op: Byte): Byte {
    if op < 128 then op + 128 else op
  }

  /** The next `n` bytes and what follows them. */
  function Take(s: ByteSeq, n: nat): Option<(ByteSeq, ByteSeq)> {
    if n <= |s| then Some((s[..n], s[n..])) else None
  }

  /** The payload length announced by the code and the bytes after it, and what follows. */
  function TakeLength(code: nat, limit: nat, s: ByteSeq): Result<(nat, ByteSeq), ReadError> {
    if code == 126 then
      match Take(s, 2)
      case None => Failure(ShortRead)
      case Some((ext, rest)) => Success((BigEndian(ext), rest))
    else if code == 127 then
      match Take(s, 8)
      case None => Failure(ShortRead)
      case Some((ext, rest)) =>
        if BigEndian(ext) > limit then Failure(TooLarge) else Success((BigEndian(ext), rest))
    else Success((code, s))
  }

  function TakeBody(op: Byte, n: nat, s: ByteSeq): ReadResult {
    match Take(s, 4)
    case None => Bad(ShortRead)
    case Some((mask, rest)) =>
      match Take(rest, n)
      case None => Bad(ShortRead)
      case Some((body, left)) => Got(op, Masked(body, mask), left)
  }

  /** What reading one frame from the bytes still to come gives. */
  function Decode(s: ByteSeq): ReadResult {
    if |s| < 2 then Bad(ShortRead)
    else if !HasMask(s[1]) then Bad(UnmaskedFrame)
    else
      match TakeLength(LengthCode(s[1]), MAX_PAYLOAD, s[2..])
      case Failure(e) => Bad(e)
      case Success((n, rest)) => TakeBody(Opcode(s[0]), n, rest)
  }

  /** Every payload bit is the exclusive or of the bit on the wire and that of the mask, which begins at `at`. */
  ghost predicate IsUnmasked(s: ByteSeq, at: nat, payload: ByteSeq)
    requires at + 4 + |payload| <= |s|
  {
    forall i, n | 0 <= i < |payload| && 0 <= n < 8 ::
      Bit(payload[i], n) == if Bit(s[at + 4 + i], n) == Bit(s[at + i % 4], n) then 0 else 1
  }

  /** What has been read is on the wire as section 5.2 lays it out, byte by byte, with each payload bit unmasked. */
  ghost predicate OnTheWire(s: ByteSeq, op: Byte, payload: ByteSeq, rest: ByteSeq) {
    && |s| >= 2 && s[1] >= 128 && op == s[0] % 16
    && var code := s[1] - 128;
    && var at := if code == 126 then 4 else if code == 127 then 10 else 2;
    && |s| >= at + 4 + |payload|
    && (code < 126 ==> |payload| == code)
    && (code == 126 ==> |payload| == (s[2] as int) * 256 + s[3])
    && (code == 127 ==> |payload| == BigEndian(s[2..10]) && |payload| <= 0x100_0000)
    && rest == s[at + 4 + |payload|..]
    && IsUnmasked(s, at, payload)
  }

  lemma MaskedByBit(payload: ByteSeq, mask: Mask)
    ensures forall i, n | 0 <= i < |payload| && 0 <= n < 8 ::
              Bit(Masked(payload, mask)[i], n) == if Bit(payload[i], n) == Bit(mask[i % 4], n) then 0 else 1
  {
    forall i, n | 0 <= i < |payload| && 0 <= n < 8
      ensures Bit(Masked(payload, mask)[i], n) == if Bit(payload[i], n) == Bit(mask[i % 4], n) then 0 else 1
    {
      XorByBit(payload[i], mask[i % 4], n);
    }
  }

  /** Where the mask begins, after the length bytes. */
  function MaskAt(code: nat): nat {
    if code == 126 then 4 else if code == 127 then 10 else 2
  }

  lemma LengthIsOnTheWire(s: ByteSeq, limit: nat)
    requires |s| >= 2 && TakeLength(LengthCode(s[1]), limit, s[2..]).Success?
    ensures
      var code := LengthCode(s[1]);
      var (n, rest) := TakeLength(code, limit, s[2..]).value;
      && MaskAt(code) <= |s| && rest == s[MaskAt(code)..]
      && (code < 126 ==> n == code)
      && (code == 126 ==> n == (s[2] as int) * 256 + s[3])
      && (code == 127 ==> n == BigEndian(s[2..10]) && n <= limit)
  {
    var code := LengthCode(s[1]);
    if code == 126 {
      TwoBytes(s[2..][..2]);
    } else if code == 127 {
      assert s[2..][..8] == s[2..10];
    }
  }

  lemma BodyIsOnTheWire(s: ByteSeq, at: nat, op: Byte, n: nat)
    requires at <= |s| && TakeBody(op, n, s[at..]).Got?
    ensures
      var r := TakeBody(op, n, s[at..]);
      && |s| >= at + 4 + n && r.op == op && |r.payload| == n && r.rest == s[at + 4 + n..]
      && IsUnmasked(s, at, r.payload)
  {
    var mask, body := s[at..][..4], s[at..][4..][..n];
    assert mask == s[at..at + 4] && body == s[at + 4..at + 4 + n];
    assert s[at..][4..][n..] == s[at + 4 + n..];
    MaskedByBit(body, mask);
    forall i, k | 0 <= i < n && 0 <= k < 8
      ensures Bit(Masked(body, mask)[i], k) == if Bit(s[at + 4 + i], k) == Bit(s[at + i % 4], k) then 0 else 1
    {
      assert body[i] == s[at + 4 + i] && mask[i % 4] == s[at + i % 4];
    }
  }

  lemma GotIsOnTheWire(s: ByteSeq)
    requires Decode(s).Got?
    ensures OnTheWire(s, Decode(s).op, Decode(s).payload, Decode(s).rest)
  {
    var code := LengthCode(s[1]);
    var (n, rest) := TakeLength(code, MAX_PAYLOAD, s[2..]).value;
    LengthIsOnTheWire(s, MAX_PAYLOAD);
    BodyIsOnTheWire(s, MaskAt(code), Opcode(s[0]), n);
  }

  /** The refusals of whole headers, by their bytes. */
  lemma RefusedHeaders(s: ByteSeq)
    ensures Decode(s) == Bad(UnmaskedFrame) <==> |s| >= 2 && s[1] < 128
    ensures Decode(s) == Bad(TooLarge) <==> |s| >= 10 && s[1] == 255 && BigEndian(s[2..10]) > 0x100_0000
  {
    if |s| >= 10 {
      assert s[2..][..8] == s[2..10];
    }
  }

  /** The opcode and the length code by their bits. */
  lemma HeaderBits(b: Byte, n: nat)
    requires n < 8
    ensures Bit(Opcode(b), n) == if n < 4 then Bit(b, n) else 0
    ensures Bit(LengthCode(b), n) == if n < 7 then Bit(b, n) else 0
  {
    SmallPowers();
    LowBits(b, 4, n);
    LowBits(b, 7, n);
  }

  /** The mask bit, and the first byte that the writer makes: the opcode with the top bit set. */
  lemma TopBits(b: Byte, n: nat)
    requires n < 8
    ensures HasMask(b) <==> Bit(b, 7) == 1
    ensures Bit(FirstByte(b), n) == if n < 7 then Bit(b, n) else 1
  {
    SmallPowers();
    LowBits(b, 7, n);
    LowBits(FirstByte(b), 7, n);
    assert FirstByte(b) % 128 == b % 128;
  }

  lemma SmallPowers()
    ensures Pow2(0) == 1 && Pow2(1) == 2 && Pow2(2) == 4 && Pow2(3) == 8
    ensures Pow2(4) == 16 && Pow2(5) == 32 && Pow2(6) == 64 && Pow2(7) == 128
  {
  }

  function Drop(s: ByteSeq, n: nat): ByteSeq {
    if n <= |s| then s[n..] else []
  }

  /** What is left to read after a failure: a short stream is used up, a refused frame up to where it was refused. */
  function LeftAfter(e: ReadError, s: ByteSeq): ByteSeq {
    match e
    case ShortRead => []
    case UnmaskedFrame => Drop(s, 2)
    case TooLarge => Drop(s, 10)
  }

  /** The connection: bytes still to be read, and bytes written. */
  class Connection {
    var input: ByteSeq
    var output: ByteSeq

    constructor (input: ByteSeq)
      ensures this.input == input && output == []
    {
      this.input, output := input, [];
    }

    /** io.ReadFull: a short stream is used up. */
    method ReadFull(n: nat) returns (got: Option<ByteSeq>)
      modifies this`input
      ensures
        match Take(old(input), n)
        case None => got == None && input == []
        case Some((b, rest)) => got == Some(b) && input == rest
    {
      if n <= |input| {
        got, input := Some(input[..n]), input[n..];
      } else {
        got, input := None, [];
      }
    }

    method ReadLength(code: nat) returns (r: Result<nat, ReadError>)
      modifies this`input
      ensures
        match TakeLength(code, MAX_PAYLOAD, old(input))
        case Failure(e) =>
          && r == Failure(e) && e != UnmaskedFrame
          && input == if e == TooLarge then Drop(old(input), 8) else []
        case Success((n, rest)) => r == Success(n) && input == rest
    {
      if code == 126 {
        var ext := ReadFull(2);
        return if ext.None? then Failure(ShortRead) else Success(BigEndian(ext.value));
      }
      if code == 127 {
        var ext := ReadFull(8);
        if ext.None? {
          return Failure(ShortRead);
        }
        return if BigEndian(ext.value) > MAX_PAYLOAD then Failure(TooLarge) else Success(BigEndian(ext.value));
      }
      r := Success(code);
    }

    method ReadFrame() returns (r: ReadResult)
      modifies this`input
      ensures r.Got? ==> OnTheWire(old(input), r.op, r.payload, r.rest)
      ensures r == Decode(old(input))
      ensures input == if r.Got? then r.rest else LeftAfter(r.error, old(input))
    {
      var hdr := ReadFull(2);
      if hdr.None? {
        return Bad(ShortRead);
      }
      var op := Opcode(hdr.value[0]);
      if !HasMask(hdr.value[1]) {
        return Bad(UnmaskedFrame);
      }
      var length := ReadLength(LengthCode(hdr.value[1]));
      if length.Failure? {
        return Bad(length.error);
      }
      var mask := ReadFull(4);
      if mask.None? {
        return Bad(ShortRead);
      }
      var body := ReadFull(length.value);
      if body.None? {
        return Bad(ShortRead);
      }
      var payload := Unmask(body.value, mask.value);
      r := Got(op, payload, input);
      GotIsOnTheWire(old(input));
    }

    /** The in-place loop over the payload buffer. */
    method Unmask(body: ByteSeq, mask: Mask) returns (payload: ByteSeq)
      ensures |payload| == |body|
      ensures forall i, n | 0 <= i < |body| && 0 <= n < 8 ::
                Bit(payload[i], n) == if Bit(body[i], n) == Bit(mask[i % 4], n) then 0 else 1
      ensures payload == Masked(body, mask)
    {
      var buf := new Byte[|body|](i requires 0 <= i < |body| => body[i]);
      for i := 0 to buf.Length
        invariant forall k | 0 <= k < i :: buf[k] == Xor(body[k], mask[k % 4])
        invariant forall k | i <= k < buf.Length :: buf[k] == body[k]
      {
        buf[i] := Xor(buf[i], mask[i % 4]);
      }
      payload := buf[..];
      MaskedByBit(body, mask);
    }

    method WriteFrame(op: Byte, payload: ByteSeq)
      requires |payload| < 0x8000_0000_0000_0000
      modifies this`output
      ensures
        var first, n := if op < 128 then op + 128 else op, |payload|;
        var length :=
          if n < 126 then [n] else if n <= 65535 then [126, n / 256, n % 256] else [127] + PutBigEndian(n, 8);
        output == old(output) + ([first] + length + payload)
      ensures output == old(output) + ServerLayout(FirstByte(op), Shortest(|payload|), payload)
    {
      var hdr := [FirstByte(op)];
      if |payload| < 126 {
        hdr := hdr + [|payload|];
      } else if |payload| <= 0xffff {
        hdr := hdr + [126] + PutBigEndian(|payload|, 2);
      } else {
        hdr := hdr + [127] + PutBigEndian(|payload|, 8);
      }
      assert |payload| <= 0xffff ==> PutBigEndian(|payload|, 2) == [|payload| / 256, |payload| % 256];
      assert hdr == [FirstByte(op)] + LengthBytes(false, Shortest(|payload|), |payload|);
      output := output + hdr;
      if |payload| > 0 {
        output := output + payload;
      }
    }
  }

  // ---- a client's view of what the writer sends ----

  /** Reads one unmasked frame by the layout alone: its first byte, its payload and what follows. */
  function DecodeServer(s: ByteSeq): Option<(Byte, ByteSeq, ByteSeq)> {
    if |s| < 2 || HasMask(s[1]) then None
    else
      match TakeLength(LengthCode(s[1]), 0x7fff_ffff_ffff_ffff, s[2..])
      case Failure(_) => None
      case Success((n, rest)) =>
        match Take(rest, n)
        case None => None
        case Some((payload, left)) => Some((s[0], payload, left))
  }

  // ---- arithmetic of the length forms ----

  lemma Widths()
    ensures Pow256(2) == 0x1_0000 && Pow256(8) == 0x1_0000_0000_0000_0000
  {
    assert Pow256(4) == 0x1_0000_0000;
  }

  lemma TakeFront(x: ByteSeq, y: ByteSeq)
    ensures Take(x + y, |x|) == Some((x, y))
  {
    assert (x + y)[..|x|] == x && (x + y)[|x|..] == y;
  }

  lemma MediumReads(first: Byte, n: nat, limit: nat, tail: ByteSeq)
    requires n <= 0xffff
    ensures TakeLength(126, limit, ([first] + PutBigEndian(n, 2))[1..] + tail) == Success((n, tail))
  {
    var ext := PutBigEndian(n, 2);
    Widths();
    PutThenRead(n, 2);
    assert ([first] + ext)[1..] == ext;
    TakeFront(ext, tail);
  }

  lemma LongReads(first: Byte, n: nat, limit: nat, tail: ByteSeq)
    requires n < 0x8000_0000_0000_0000 && n <= limit
    ensures TakeLength(127, limit, ([first] + PutBigEndian(n, 8))[1..] + tail) == Success((n, tail))
  {
    var ext := PutBigEndian(n, 8);
    Widths();
    PutThenRead(n, 8);
    assert ([first] + ext)[1..] == ext;
    TakeFront(ext, tail);
  }

  /** The length is found again whatever follows it. */
  lemma LengthReads(masked: bool, form: LengthForm, n: nat, limit: nat, tail: ByteSeq)
    requires Fits(form, n) && n <= limit
    ensures
      var bytes := LengthBytes(masked, form, n);
      && bytes != [] && (HasMask(bytes[0]) <==> masked)
      && TakeLength(LengthCode(bytes[0]), limit, bytes[1..] + tail) == Success((n, tail))
  {
    match form {
      case Short =>
        assert LengthBytes(masked, form, n)[1..] + tail == tail;
      case Medium =>
        MediumReads(LengthByte(masked, 126), n, limit, tail);
      case Long =>
        LongReads(LengthByte(masked, 127), n, limit, tail);
    }
  }

  lemma MaskTwice(payload: ByteSeq, mask: Mask)
    ensures Masked(Masked(payload, mask), mask) == payload
  {
    forall i | 0 <= i < |payload|
      ensures Xor(Xor(payload[i], mask[i % 4]), mask[i % 4]) == payload[i]
    {
      XorTwice(payload[i], mask[i % 4]);
    }
  }

  // ---- main results ----

  lemma BodyReads(op: Byte, mask: Mask, body: ByteSeq, rest: ByteSeq)
    ensures TakeBody(op, |body|, mask + (body + rest)) == Got(op, Masked(body, mask), rest)
  {
    TakeFront(mask, body + rest);
    TakeFront(body, rest);
  }

  /** A masked frame, in any form that fits, is read back as its opcode and payload, and exactly its bytes are used. */
  lemma ClientFrameReads(f: Frame, rest: ByteSeq)
    requires Sendable(f)
    ensures Decode(ClientLayout(f) + rest) == Got(Opcode(f.first), f.payload, rest)
  {
    var bytes, body := LengthBytes(true, f.form, |f.payload|), Masked(f.payload, f.mask);
    var tail := f.mask + (body + rest);
    LengthReads(true, f.form, |f.payload|, MAX_PAYLOAD, tail);
    LayoutParts(f.first, bytes, f.mask, body, rest);
    BodyReads(Opcode(f.first), f.mask, body, rest);
    MaskTwice(f.payload, f.mask);
  }

  lemma LayoutParts(first: Byte, bytes: ByteSeq, mask: ByteSeq, body: ByteSeq, rest: ByteSeq)
    requires bytes != []
    ensures
      var s := [first] + bytes + mask + body + rest;
      |s| >= 2 && s[0] == first && s[1] == bytes[0] && s[2..] == bytes[1..] + (mask + (body + rest))
  {
    var s := [first] + bytes + mask + body + rest;
    assert s == [first] + (bytes + (mask + (body + rest)));
  }

  /** The form in which an accepted length was announced, and the bytes it took. */
  lemma LengthWasLaidOut(b: Byte, s: ByteSeq) returns (form: LengthForm)
    requires HasMask(b) && TakeLength(LengthCode(b), MAX_PAYLOAD, s).Success?
    ensures
      var (n, rest) := TakeLength(LengthCode(b), MAX_PAYLOAD, s).value;
      Fits(form, n) && n <= MAX_PAYLOAD && [b] + s == LengthBytes(true, form, n) + rest
  {
    assert b == LengthByte(true, LengthCode(b));
    Widths();
    if LengthCode(b) == 126 {
      form := Medium;
      ReadThenPut(s[..2]);
      assert [b] + s == [b] + s[..2] + s[2..];
    } else if LengthCode(b) == 127 {
      form := Long;
      ReadThenPut(s[..8]);
      assert [b] + s == [b] + s[..8] + s[8..];
    } else {
      form := Short;
    }
  }

  /** Conversely, whatever the reader accepts is the layout of a masked frame followed by what it leaves unread. */
  lemma AcceptedIsClientFrame(s: ByteSeq) returns (f: Frame)
    requires Decode(s).Got?
    ensures Sendable(f) && s == ClientLayout(f) + Decode(s).rest
    ensures Opcode(f.first) == Decode(s).op && f.payload == Decode(s).payload
  {
    var form := LengthWasLaidOut(s[1], s[2..]);
    var (n, rest) := TakeLength(LengthCode(s[1]), MAX_PAYLOAD, s[2..]).value;
    var mask, body := rest[..4], rest[4..][..n];
    f := Frame(s[0], form, mask, Masked(body, mask));
    MaskTwice(body, mask);
    BodyParts(rest, n);
    assert s == [s[0]] + ([s[1]] + s[2..]);
    LayoutRegroups(s[0], LengthBytes(true, form, n), mask, body, rest[4..][n..]);
  }

  lemma BodyParts(rest: ByteSeq, n: nat)
    requires 4 + n <= |rest|
    ensures rest == rest[..4] + rest[4..][..n] + rest[4..][n..]
  {
  }

  lemma LayoutRegroups(first: Byte, bytes: ByteSeq, mask: ByteSeq, body: ByteSeq, rest: ByteSeq)
    ensures [first] + (bytes + (mask + body + rest)) == [first] + bytes + mask + body + rest
  {
  }

  function ClientStream(frames: seq<Frame>): ByteSeq
    requires forall k | 0 <= k < |frames| :: Fits(frames[k].form, |frames[k].payload|)
  {
    if frames == [] then [] else ClientLayout(frames[0]) + ClientStream(frames[1..])
  }

  /** Reading `count` frames one after the other: the opcodes and payloads, and what is left. */
  function DecodeMany(s: ByteSeq, count: nat): Option<(seq<(Byte, ByteSeq)>, ByteSeq)> {
    if count == 0 then Some(([], s))
    else
      match Decode(s)
      case Bad(_) => None
      case Got(op, payload, rest) =>
        match DecodeMany(rest, count - 1)
        case None => None
        case Some((more, left)) => Some(([(op, payload)] + more, left))
  }

  function Contents(frames: seq<Frame>): seq<(Byte, ByteSeq)> {
    if frames == [] then [] else [(Opcode(frames[0].first), frames[0].payload)] + Contents(frames[1..])
  }

  lemma DecodeManyStep(s: ByteSeq, op: Byte, payload: ByteSeq, left: ByteSeq,
                       more: seq<(Byte, ByteSeq)>, rest: ByteSeq, count: nat)
    requires Decode(s) == Got(op, payload, left) && DecodeMany(left, count) == Some((more, rest))
    ensures DecodeMany(s, count + 1) == Some(([(op, payload)] + more, rest))
  {
  }

  lemma Associates(x: ByteSeq, y: ByteSeq, z: ByteSeq)
    ensures x + y + z == x + (y + z)
  {
  }

  /** Any sequence of masked frames is read as the same opcodes and payloads in order, using exactly its bytes. */
  lemma {:induction false} ClientStreamReads(frames: seq<Frame>, rest: ByteSeq)
    requires forall k | 0 <= k < |frames| :: Fits(frames[k].form, |frames[k].payload|) && Sendable(frames[k])
    ensures DecodeMany(ClientStream(frames) + rest, |frames|) == Some((Contents(frames), rest))
  {
    if frames == [] {
      assert ClientStream(frames) + rest == rest;
    } else {
      var f, more := frames[0], ClientStream(frames[1..]) + rest;
      Associates(ClientLayout(f), ClientStream(frames[1..]), rest);
      ClientFrameReads(f, more);
      ClientStreamReads(frames[1..], rest);
      DecodeManyStep(ClientLayout(f) + more, Opcode(f.first), f.payload, more, Contents(frames[1..]), rest,
                     |frames| - 1);
    }
  }

  /** What the writer sends is read back under the unmasked layout, and exactly its bytes are used. */
  lemma {:induction false} ServerFrameReads(op: Byte, payload: ByteSeq, rest: ByteSeq)
    requires |payload| < 0x8000_0000_0000_0000
    ensures DecodeServer(ServerLayout(FirstByte(op), Shortest(|payload|), payload) + rest)
            == Some((FirstByte(op), payload, rest))
  {
    var bytes := LengthBytes(false, Shortest(|payload|), |payload|);
    var s := ServerLayout(FirstByte(op), Shortest(|payload|), payload) + rest;
    LengthReads(false, Shortest(|payload|), |payload|, 0x7fff_ffff_ffff_ffff, payload + rest);
    assert s[0] == FirstByte(op) && s[1] == bytes[0];
    assert s[2..] == bytes[1..] + (payload + rest);
    TakeFront(payload, rest);
  }

  /** No form that fits makes a shorter frame than the writer's, and the reader refuses its frames as unmasked. */
  lemma {:induction false} WriterIsShortest(op: Byte, payload: ByteSeq, form: LengthForm)
    requires |payload| < 0x8000_0000_0000_0000 && Fits(form, |payload|)
    ensures Fits(Shortest(|payload|), |payload|)
    ensures |ServerLayout(FirstByte(op), Shortest(|payload|), payload)| <= |ServerLayout(FirstByte(op), form, payload)|
    ensures Decode(ServerLayout(FirstByte(op), Shortest(|payload|), payload)) == Bad(UnmaskedFrame)
  {
    LengthReads(false, Shortest(|payload|), |payload|, |payload|, payload);
    var s := ServerLayout(FirstByte(op), Shortest(|payload|), payload);
    assert s[1] == LengthBytes(false, Shortest(|payload|), |payload|)[0];
  }
}
