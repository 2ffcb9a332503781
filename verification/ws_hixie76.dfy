/** The Hixie-76 framing of src/websockets-hixie76.cpp. A text frame is 0x00, the UTF-8 text,
    then 0xFF; a binary frame is a type byte with the high bit set, a base-128 length whose
    bytes carry the high bit while more follow, then that many bytes; 0xFF 0x00 closes. The
    parser is a byte-driven state machine whose callbacks are returned as events. */
module WebSocketHixie76 {
  import opened Ascii
  import opened Constants
  import opened WebSocketFrame

  /** `Hixie76State`. */
  datatype State = Start | InText | BinaryOrClose | BinaryLength | InBinary

  /** The state and the `size_t` count of binary bytes, being read or still due. */
  datatype Parser = Parser(state: State, bytesLeft: nat)

  /** A binary payload is only ever entered with bytes to come. */
  predicate Valid(p: Parser) {
    p.state == InBinary ==> p.bytesLeft > 0
  }

  /** The parser before any byte. */
  const Initial: Parser := Parser(Start, 0)

  /** `size_t` arithmetic wraps modulo 2^64. */
  const SizeLimit: nat := 0x1_0000_0000_0000_0000

  // ---------------------------------------------------------------------------
  // frame header and footer
  // ---------------------------------------------------------------------------

  /** `createFrameHeaderFooter`: whatever the opcode, masking or size, the header is the single
      byte 0x00 and the footer the single byte 0xFF. */
  function FrameHeaderFooter(op: Opcode, mask: bool, payloadSize: nat): (r: (seq<Octet>, seq<Octet>))
    ensures r.0 == [0x00] && r.1 == [0xFF]
  {
    ([0x00], [0xFF])
  }

  // ---------------------------------------------------------------------------
  // the parser
  // ---------------------------------------------------------------------------

  /** The header a text frame announces: final, no length. */
  const TextInfo: Info := Info(true, Text, false, [], false, 0)

  /** The header 0xFF 0x00 announces. */
  const CloseInfo: Info := Info(true, Close, false, [], true, 0)

  function BinaryInfo(length: nat): Info {
    Info(true, Binary, false, [], true, length)
  }

  /** The index of the first 0xFF in `data`, or its length. */
  function EndMarker(data: seq<Octet>): (i: nat)
    ensures i <= |data|
    ensures forall k | 0 <= k < i :: data[k] != 0xFF
    ensures i < |data| ==> data[i] == 0xFF
  {
    if |data| == 0 || data[0] == 0xFF then 0 else 1 + EndMarker(data[1..])
  }

  /** `read(data, len)`, one byte (or one run of text or binary payload) at a time. */
  function Read(p: Parser, data: seq<Octet>): (r: (Parser, seq<Event>))
    requires Valid(p)
    ensures Valid(r.0)
    decreases |data|, if p.state == BinaryOrClose then 1 else 0
  {
    if |data| == 0 then (p, [])
    else
      var b := data[0];
      match p.state
      case Start =>
        if b == 0xFF then Read(Parser(BinaryOrClose, 0), data[1..])
        else if b < 0x80 then
          var next := Read(Parser(InText, 0), data[1..]);
          (next.0, [HeaderComplete(TextInfo)] + next.1)
        else Read(Parser(BinaryLength, 0), data[1..])
      case InText =>
        var end := EndMarker(data);
        var text := if end > 0 then [Payload(data[..end])] else [];
        if end < |data| then
          var next := Read(Parser(Start, p.bytesLeft), data[end + 1..]);
          (next.0, text + [FrameComplete] + next.1)
        else (p, text)
      case BinaryOrClose =>
        if b == 0 then
          var next := Read(p, data[1..]);
          (next.0, [HeaderComplete(CloseInfo), FrameComplete] + next.1)
        else Read(Parser(BinaryLength, p.bytesLeft), data)
      case BinaryLength =>
        var left := (p.bytesLeft * 128 + b % 128) % SizeLimit;
        if b >= 0x80 then Read(Parser(BinaryLength, left), data[1..])
        else if left == 0 then
          var next := Read(Parser(Start, 0), data[1..]);
          (next.0, [HeaderComplete(BinaryInfo(0)), FrameComplete] + next.1)
        else
          var next := Read(Parser(InBinary, left), data[1..]);
          (next.0, [HeaderComplete(BinaryInfo(left))] + next.1)
      case InBinary =>
        var n := Min(|data|, p.bytesLeft);
        var left := p.bytesLeft - n;
        if left == 0 then
          var next := Read(Parser(Start, 0), data[n..]);
          (next.0, [Payload(data[..n]), FrameComplete] + next.1)
        else (Parser(InBinary, left), [Payload(data)])
  }

  /** No header the parser announces is masked: Hixie-76 frames carry no key. */
  lemma {:induction false} ReadUnmasked(p: Parser, data: seq<Octet>)
    requires Valid(p)
    ensures forall e | e in Read(p, data).1 :: e.HeaderComplete? ==> !e.info.masked
    decreases |data|, if p.state == BinaryOrClose then 1 else 0
  {
    if |data| > 0 {
      var b := data[0];
      match p.state
      case Start =>
        if b == 0xFF {
          ReadUnmasked(Parser(BinaryOrClose, 0), data[1..]);
        } else if b < 0x80 {
          ReadUnmasked(Parser(InText, 0), data[1..]);
        } else {
          ReadUnmasked(Parser(BinaryLength, 0), data[1..]);
        }
      case InText =>
        var end := EndMarker(data);
        if end < |data| {
          ReadUnmasked(Parser(Start, p.bytesLeft), data[end + 1..]);
        }
      case BinaryOrClose =>
        if b == 0 {
          ReadUnmasked(p, data[1..]);
        } else {
          ReadUnmasked(Parser(BinaryLength, p.bytesLeft), data);
        }
      case BinaryLength =>
        var left := (p.bytesLeft * 128 + b % 128) % SizeLimit;
        if b >= 0x80 {
          ReadUnmasked(Parser(BinaryLength, left), data[1..]);
        } else if left == 0 {
          ReadUnmasked(Parser(Start, 0), data[1..]);
        } else {
          ReadUnmasked(Parser(InBinary, left), data[1..]);
        }
      case InBinary =>
        var n := Min(|data|, p.bytesLeft);
        if p.bytesLeft - n == 0 {
          ReadUnmasked(Parser(Start, 0), data[n..]);
        }
    }
  }

  // ---------------------------------------------------------------------------
  // text frames
  // ---------------------------------------------------------------------------

  predicate NoMarker(text: seq<Octet>) {
    forall k | 0 <= k < |text| :: text[k] != 0xFF
  }

  /** Text up to the next 0xFF is payload, the marker completes the frame, and the parser
      starts afresh after it. */
  lemma {:induction false} TextRun(bytesLeft: nat, text: seq<Octet>, rest: seq<Octet>)
    requires NoMarker(text)
    ensures var next := Read(Parser(Start, bytesLeft), rest);
      Read(Parser(InText, bytesLeft), text + [0xFF] + rest)
      == (next.0, (if |text| > 0 then [Payload(text)] else []) + [FrameComplete] + next.1)
  {
    var data := text + [0xFF] + rest;
    var end := EndMarker(data);
    assert data[|text|] == 0xFF;
    assert end == |text|;
    assert data[..end] == text;
    assert data[end + 1..] == rest;
  }

  /** Text that has not reached its marker yet is passed on whole, and the frame stays open. */
  lemma {:induction false} TextWithoutMarker(bytesLeft: nat, text: seq<Octet>)
    requires NoMarker(text) && |text| > 0
    ensures Read(Parser(InText, bytesLeft), text) == (Parser(InText, bytesLeft), [Payload(text)])
  {
    assert text[..|text|] == text;
  }

  /** A frame made with `createFrameHeaderFooter` around text without 0xFF reads back as a text
      header, the text, and the end of the frame. */
  lemma {:induction false} TextFrameReadsBack(text: seq<Octet>, rest: seq<Octet>)
    requires NoMarker(text)
    ensures var hf := FrameHeaderFooter(Text, false, |text|);
      var next := Read(Initial, rest);
      Read(Initial, hf.0 + text + hf.1 + rest)
      == (next.0, [HeaderComplete(TextInfo)] + (if |text| > 0 then [Payload(text)] else [])
                  + [FrameComplete] + next.1)
  {
    var data := [0x00] + text + [0xFF] + rest;
    assert data[1..] == text + [0xFF] + rest;
    TextRun(0, text, rest);
    var t: seq<Event> := if |text| > 0 then [Payload(text)] else [];
    var next := Read(Initial, rest);
    assert [HeaderComplete(TextInfo)] + (t + [FrameComplete] + next.1)
           == [HeaderComplete(TextInfo)] + t + [FrameComplete] + next.1;
  }

  // ---------------------------------------------------------------------------
  // close
  // ---------------------------------------------------------------------------

  /** 0xFF 0x00 announces and completes a Close frame, and the parser does not go back to the
      start: it still takes the next byte as the one after 0xFF. */
  lemma {:induction false} CloseFrame(rest: seq<Octet>)
    ensures var next := Read(Parser(BinaryOrClose, 0), rest);
      Read(Initial, [0xFF, 0x00] + rest)
      == (next.0, [HeaderComplete(CloseInfo), FrameComplete] + next.1)
  {
    var data := [0xFF, 0x00] + rest;
    assert data[1..] == [0x00] + rest;
    assert data[1..][1..] == rest;
  }

  /** After 0xFF, a byte other than 0x00 is looked at again as a length byte. */
  lemma {:induction false} NonzeroAfterMarkerIsLength(bytesLeft: nat, data: seq<Octet>)
    requires |data| > 0 && data[0] != 0
    ensures Read(Parser(BinaryOrClose, bytesLeft), data) == Read(Parser(BinaryLength, bytesLeft), data)
  {
  }

  // ---------------------------------------------------------------------------
  // binary frames
  // ---------------------------------------------------------------------------

  /** The number length bytes carry, folded from the front as `read` does it. */
  function Accumulate(acc: nat, digits: seq<Octet>): nat
    decreases |digits|
  {
    if |digits| == 0 then acc else Accumulate((acc * 128 + digits[0] % 128) % SizeLimit, digits[1..])
  }

  lemma {:induction false} AccumulateLast(acc: nat, digits: seq<Octet>, d: Octet)
    ensures Accumulate(acc, digits + [d]) == (Accumulate(acc, digits) * 128 + d % 128) % SizeLimit
    decreases |digits|
  {
    if |digits| == 0 {
      assert (digits + [d])[1..] == [];
    } else {
      assert (digits + [d])[1..] == digits[1..] + [d];
      AccumulateLast((acc * 128 + digits[0] % 128) % SizeLimit, digits[1..], d);
    }
  }

  /** Length bytes that announce more to come leave the parser reading the length. */
  lemma {:induction false} LengthBytesAccumulate(acc: nat, digits: seq<Octet>, rest: seq<Octet>)
    requires forall k | 0 <= k < |digits| :: digits[k] >= 0x80
    ensures Read(Parser(BinaryLength, acc), digits + rest)
            == Read(Parser(BinaryLength, Accumulate(acc, digits)), rest)
    decreases |digits|
  {
    if |digits| > 0 {
      var data := digits + rest;
      assert data[0] == digits[0];
      assert data[1..] == digits[1..] + rest;
      LengthBytesAccumulate((acc * 128 + digits[0] % 128) % SizeLimit, digits[1..], rest);
    } else {
      assert digits + rest == rest;
    }
  }

  /** Reference encoding of a length: base 128, most significant digit first, every digit but
      the last with its high bit set. */
  function LeadingDigits(m: nat): (ds: seq<Octet>)
    ensures forall k | 0 <= k < |ds| :: ds[k] >= 0x80
  {
    if m == 0 then [] else LeadingDigits(m / 128) + [0x80 + m % 128]
  }

  function LengthBytes(n: nat): seq<Octet> {
    LeadingDigits(n / 128) + [n % 128]
  }

  lemma {:induction false} LeadingDigitsValue(m: nat)
    requires m < SizeLimit
    ensures Accumulate(0, LeadingDigits(m)) == m
    decreases m
  {
    if m > 0 {
      var q, d := m / 128, 0x80 + m % 128;
      assert LeadingDigits(m) == LeadingDigits(q) + [d];
      LeadingDigitsValue(q);
      AccumulateLast(0, LeadingDigits(q), d);
      DigitValue(m);
    }
  }

  lemma {:induction false} DigitValue(m: nat)
    requires m < SizeLimit
    ensures (m / 128 * 128 + (0x80 + m % 128) % 128) % SizeLimit == m
  {
    assert (0x80 + m % 128) % 128 == m % 128;
    SplitDigit(m);
  }

  /** The last length byte, high bit clear, ends the length: `left` is the length it
      completes. */
  lemma {:induction false} FinalLengthByte(acc: nat, d: Octet, body: seq<Octet>, left: nat)
    requires d < 0x80 && left == (acc * 128 + d % 128) % SizeLimit
    ensures var next := Read(Parser(if left == 0 then Start else InBinary, left), body);
      Read(Parser(BinaryLength, acc), [d] + body)
      == (next.0, (if left == 0 then [HeaderComplete(BinaryInfo(0)), FrameComplete]
                   else [HeaderComplete(BinaryInfo(left))]) + next.1)
  {
    assert ([d] + body)[1..] == body;
  }

  /** The whole announced payload arriving at once is passed on and completes the frame. */
  lemma {:induction false} BinaryPayloadWhole(payload: seq<Octet>, rest: seq<Octet>)
    requires |payload| > 0
    ensures var next := Read(Initial, rest);
      Read(Parser(InBinary, |payload|), payload + rest)
      == (next.0, [Payload(payload), FrameComplete] + next.1)
  {
    var body := payload + rest;
    assert body[..|payload|] == payload && body[|payload|..] == rest;
  }

  lemma {:induction false} SplitDigit(n: nat)
    requires n < SizeLimit
    ensures (n / 128 * 128 + n % 128 % 128) % SizeLimit == n
  {
  }

  /** A binary frame: a type byte with the high bit set (other than 0xFF), the length in base
      128, then exactly that many bytes. The header carries the length; a zero length completes
      at once, otherwise the bytes arrive in one piece and then the frame completes. */
  lemma {:induction false} BinaryFrameReadsBack(kind: Octet, payload: seq<Octet>, rest: seq<Octet>)
    requires 0x80 <= kind < 0xFF && |payload| < SizeLimit
    ensures var next := Read(Initial, rest);
      Read(Initial, [kind] + LengthBytes(|payload|) + payload + rest)
      == (next.0, if |payload| > 0
                  then [HeaderComplete(BinaryInfo(|payload|)), Payload(payload), FrameComplete] + next.1
                  else [HeaderComplete(BinaryInfo(0)), FrameComplete] + next.1)
  {
    var n := |payload|;
    var lead := LeadingDigits(n / 128);
    var tail := [n % 128] + (payload + rest);
    assert [kind] + LengthBytes(n) + payload + rest == [kind] + (lead + tail);
    BinaryKind(kind, lead + tail);
    LengthBytesAccumulate(0, lead, tail);
    LeadingDigitsValue(n / 128);
    AfterLength(payload, rest);
  }

  /** A type byte with the high bit set, other than 0xFF, starts reading a length. */
  lemma {:induction false} BinaryKind(kind: Octet, data: seq<Octet>)
    requires 0x80 <= kind < 0xFF
    ensures Read(Initial, [kind] + data) == Read(Parser(BinaryLength, 0), data)
  {
    assert ([kind] + data)[1..] == data;
  }

  /** The last length byte announces the whole length, and the payload follows. */
  lemma {:induction false} AfterLength(payload: seq<Octet>, rest: seq<Octet>)
    requires |payload| < SizeLimit
    ensures var n := |payload|;
      var next := Read(Initial, rest);
      Read(Parser(BinaryLength, n / 128), [n % 128] + (payload + rest))
      == (next.0, if n > 0
                  then [HeaderComplete(BinaryInfo(n)), Payload(payload), FrameComplete] + next.1
                  else [HeaderComplete(BinaryInfo(0)), FrameComplete] + next.1)
  {
    var n := |payload|;
    SplitDigit(n);
    FinalLengthByte(n / 128, n % 128, payload + rest, n);
    if n > 0 {
      BinaryPayloadWhole(payload, rest);
      ConsPair(HeaderComplete(BinaryInfo(n)), Payload(payload), FrameComplete, Read(Initial, rest).1);
    } else {
      assert payload + rest == rest;
    }
  }

  lemma {:induction false} ConsPair<T>(a: T, b: T, c: T, t: seq<T>)
    ensures [a] + ([b, c] + t) == [a, b, c] + t
  {
  }

  /** Binary bytes short of the announced length are all passed on and counted off. */
  lemma {:induction false} BinaryCountedOff(left: nat, data: seq<Octet>)
    requires 0 < |data| < left
    ensures Read(Parser(InBinary, left), data) == (Parser(InBinary, left - |data|), [Payload(data)])
  {
  }

  /** A read of no bytes changes nothing. */
  lemma {:induction false} EmptyReadChangesNothing(p: Parser)
    requires Valid(p)
    ensures Read(p, []) == (p, [])
  {
  }
}
