/** `WSHyBiParser::read` of src/websockets.cpp: header bytes accumulate, up to fourteen at a
    time, until the header is complete; then exactly the announced number of payload bytes is
    handed on, and the frame is completed when that count reaches zero. The callbacks the
    parser calls are returned as a list of events, in the order of the calls. */
module WebSocketParser {
  import opened Ascii
  import opened Constants
  import opened WebSocketFrame

  /** The parser's state, the header bytes held so far, and the payload bytes still due. */
  datatype Parser = Parser(state: WSParseState, header: seq<Octet>, bytesLeft: nat)

  /** A new parser waits for a header. */
  const Initial: Parser := Parser(InHeader, [], 0)

  /** Between reads, a held header is never complete and payload is never mixed with header
      bytes. */
  predicate Valid(p: Parser) {
    && (p.state == InHeader ==> !IsHeaderComplete(p.header))
    && (p.state == InPayload ==> p.header == [])
  }

  /** Once the header is complete, it ends after the bytes held before this read. */
  lemma {:induction false} HeaderEndsAfterHeld(held: seq<Octet>, hdr: seq<Octet>)
    requires !IsHeaderComplete(held) && IsHeaderComplete(hdr)
    requires |held| <= |hdr| && hdr[..|held|] == held
    ensures |held| < HeaderLength(hdr) <= |hdr|
  {
    if |held| >= 2 {
      assert held[1] == hdr[1];
      HeaderLengthOfSecondByte(held, hdr);
    }
  }

  /** The held header bytes followed by as many new bytes as fit in `MAX_HEADER_BYTES`. */
  function Gathered(held: seq<Octet>, data: seq<Octet>): (hdr: seq<Octet>)
    requires |held| <= MaxHeaderBytes
    ensures |hdr| == |held| + Min(|data|, MaxHeaderBytes - |held|)
    ensures hdr[..|held|] == held
  {
    held + data[..Min(|data|, MaxHeaderBytes - |held|)]
  }

  /** `read(data, len)`. In the header state the bytes that fit are appended to the held
      header; once it is complete, the header event fires and the bytes after the header are
      payload. In the payload state as many bytes as are due are passed on; when none remain
      the frame is complete. The loop stops when the data runs out, so a frame with an empty
      payload that ends the data is completed only by the next read that brings data. */
  function Read(proto: Protocol, p: Parser, data: seq<Octet>): (r: (Parser, seq<Event>))
    requires Valid(p)
    ensures Valid(r.0)
    decreases |data|, if p.state == InPayload then 3 else 1
  {
    if |data| == 0 then (p, [])
    else match p.state
      case InHeader => ReadHeader(proto, p.header, p.bytesLeft, data)
      case InPayload => ReadPayload(proto, p.bytesLeft, data)
  }

  /** One pass of the loop in the header state. */
  function ReadHeader(proto: Protocol, held: seq<Octet>, bytesLeft: nat, data: seq<Octet>)
    : (r: (Parser, seq<Event>))
    requires !IsHeaderComplete(held) && |data| > 0
    ensures Valid(r.0)
    decreases |data|, 0
  {
    IncompleteIsShort(held);
    var hdr := Gathered(held, data);
    if IsHeaderComplete(hdr) then
      HeaderEndsAfterHeld(held, hdr);
      var offset := HeaderLength(hdr) - |held|;
      var next := Read(proto, Parser(InPayload, [], PayloadLength(hdr)), data[offset..]);
      (next.0, [HeaderComplete(HeaderInfo(proto, hdr))] + next.1)
    else
      (Parser(InHeader, hdr, bytesLeft), [])
  }

  /** One pass of the loop in the payload state. */
  function ReadPayload(proto: Protocol, bytesLeft: nat, data: seq<Octet>): (r: (Parser, seq<Event>))
    requires |data| > 0
    ensures Valid(r.0)
    decreases |data|, 2
  {
    var n := Min(|data|, bytesLeft);
    var left := bytesLeft - n;
    var next := Read(proto, Parser(if left == 0 then InHeader else InPayload, [], left), data[n..]);
    (next.0, [Payload(data[..n])] + (if left == 0 then [FrameComplete] else []) + next.1)
  }

  /** Every header the parser announces carries a four-byte key when it is masked. */
  lemma {:induction false} ReadWellFormed(proto: Protocol, p: Parser, data: seq<Octet>)
    requires Valid(p)
    ensures forall e | e in Read(proto, p, data).1 :: e.HeaderComplete? ==> WellFormed(e.info)
    decreases |data|, if p.state == InPayload then 3 else 1
  {
    if |data| > 0 {
      match p.state
      case InHeader => ReadHeaderWellFormed(proto, p.header, p.bytesLeft, data);
      case InPayload => ReadPayloadWellFormed(proto, p.bytesLeft, data);
    }
  }

  lemma {:induction false} ReadHeaderWellFormed(proto: Protocol, held: seq<Octet>, bytesLeft: nat,
                                                data: seq<Octet>)
    requires !IsHeaderComplete(held) && |data| > 0
    ensures forall e | e in ReadHeader(proto, held, bytesLeft, data).1 ::
              e.HeaderComplete? ==> WellFormed(e.info)
    decreases |data|, 0
  {
    IncompleteIsShort(held);
    var hdr := Gathered(held, data);
    if IsHeaderComplete(hdr) {
      var len, info := PayloadLength(hdr), HeaderInfo(proto, hdr);
      HeaderStep(proto, held, bytesLeft, data, len, HeaderLength(hdr) - |held|, info);
      var rest := data[HeaderLength(hdr) - |held|..];
      ReadWellFormed(proto, Parser(InPayload, [], len), rest);
      AppendWellFormed([HeaderComplete(info)], Read(proto, Parser(InPayload, [], len), rest).1);
    }
  }

  lemma {:induction false} ReadPayloadWellFormed(proto: Protocol, bytesLeft: nat, data: seq<Octet>)
    requires |data| > 0
    ensures forall e | e in ReadPayload(proto, bytesLeft, data).1 ::
              e.HeaderComplete? ==> WellFormed(e.info)
    decreases |data|, 2
  {
    var n := Min(|data|, bytesLeft);
    var left := bytesLeft - n;
    var next := Read(proto, Parser(if left == 0 then InHeader else InPayload, [], left), data[n..]);
    ReadWellFormed(proto, Parser(if left == 0 then InHeader else InPayload, [], left), data[n..]);
    AppendWellFormed([Payload(data[..n])] + (if left == 0 then [FrameComplete] else []), next.1);
  }

  lemma {:induction false} AppendWellFormed(a: seq<Event>, b: seq<Event>)
    requires forall e | e in a :: e.HeaderComplete? ==> WellFormed(e.info)
    requires forall e | e in b :: e.HeaderComplete? ==> WellFormed(e.info)
    ensures forall e | e in a + b :: e.HeaderComplete? ==> WellFormed(e.info)
  {
  }

  /** A header exactly as long as it says it is. */
  predicate ExactHeader(header: seq<Octet>) {
    IsHeaderComplete(header) && HeaderLength(header) == |header|
  }

  /** Any proper prefix of a header is incomplete. */
  lemma {:induction false} PrefixOfHeaderIncomplete(header: seq<Octet>, k: nat)
    requires ExactHeader(header) && k < |header|
    ensures !IsHeaderComplete(header[..k])
  {
    if k >= 2 {
      HeaderLengthOfSecondByte(header, header[..k]);
    }
  }

  /** Bytes that leave the header incomplete are all held, and nothing fires. */
  lemma {:induction false} HeaderBytesHeld(proto: Protocol, held: seq<Octet>, bytesLeft: nat, data: seq<Octet>)
    requires !IsHeaderComplete(held) && |data| > 0
    requires !IsHeaderComplete(held + data)
    ensures Read(proto, Parser(InHeader, held, bytesLeft), data)
            == (Parser(InHeader, held + data, bytesLeft), [])
  {
    IncompleteIsShort(held + data);
    assert data[..Min(|data|, MaxHeaderBytes - |held|)] == data;
  }

  /** One step of `read` in the header state, once the header is complete: `len`, `offset`
      and `info` are the payload length, where the payload starts, and what the header says. */
  lemma {:induction false} HeaderStep(proto: Protocol, held: seq<Octet>, bytesLeft: nat, data: seq<Octet>,
                   len: nat, offset: nat, info: Info)
    requires !IsHeaderComplete(held) && |data| > 0
    requires |held| <= MaxHeaderBytes && IsHeaderComplete(Gathered(held, data))
    requires len == PayloadLength(Gathered(held, data)) && info == HeaderInfo(proto, Gathered(held, data))
    requires offset == HeaderLength(Gathered(held, data)) - |held|
    ensures offset <= |data|
    ensures Read(proto, Parser(InHeader, held, bytesLeft), data)
            == (Read(proto, Parser(InPayload, [], len), data[offset..]).0,
                [HeaderComplete(info)] + Read(proto, Parser(InPayload, [], len), data[offset..]).1)
  {
    HeaderEndsAfterHeld(held, Gathered(held, data));
  }

  /** The read that completes a header: the header event fires and the bytes after the
      header go to the payload state, however many of the header's bytes were held before. */
  lemma {:induction false} HeaderCompletes(proto: Protocol, held: seq<Octet>, bytesLeft: nat, data: seq<Octet>,
                        header: seq<Octet>)
    requires ExactHeader(header) && |held| < |header| <= |held| + |data|
    requires (held + data)[..|header|] == header
    ensures !IsHeaderComplete(held)
    ensures var next := Read(proto, Parser(InPayload, [], PayloadLength(header)),
                             data[|header| - |held|..]);
      Read(proto, Parser(InHeader, held, bytesLeft), data)
      == (next.0, [HeaderComplete(HeaderInfo(proto, header))] + next.1)
  {
    GatheredHeader(proto, held, data, header);
    HeaderEndsAfterHeld(held, Gathered(held, data));
  }

  /** What the held bytes and the new ones gather into says what `header` says. */
  lemma {:induction false} GatheredHeader(proto: Protocol, held: seq<Octet>, data: seq<Octet>, header: seq<Octet>)
    requires ExactHeader(header) && |held| < |header| <= |held| + |data|
    requires (held + data)[..|header|] == header
    ensures !IsHeaderComplete(held) && |data| > 0 && |held| <= MaxHeaderBytes
    ensures IsHeaderComplete(Gathered(held, data))
    ensures PayloadLength(Gathered(held, data)) == PayloadLength(header)
    ensures HeaderInfo(proto, Gathered(held, data)) == HeaderInfo(proto, header)
    ensures HeaderLength(Gathered(held, data)) == |header|
  {
    assert held == header[..|held|] by {
      assert (held + data)[..|held|] == held;
    }
    PrefixOfHeaderIncomplete(header, |held|);
    IncompleteIsShort(held);
    var hdr := Gathered(held, data);
    var more := hdr[|header|..];
    assert hdr == header + more by {
      assert hdr[..|header|] == (held + data)[..|header|];
    }
    HeaderInfoOfPrefix(proto, header, more);
  }

  /** The read that finishes a frame's payload: the bytes still due are passed on, the frame
      completes, and the parser starts afresh on what follows. */
  lemma {:induction false} PayloadCompletes(proto: Protocol, left: nat, data: seq<Octet>)
    requires 0 < |data| && left <= |data|
    ensures var next := Read(proto, Initial, data[left..]);
      Read(proto, Parser(InPayload, [], left), data)
      == (next.0, [Payload(data[..left]), FrameComplete] + next.1)
  {
    assert Min(|data|, left) == left;
    var next := Read(proto, Initial, data[left..]);
    assert Read(proto, Parser(InPayload, [], left), data)
           == (next.0, [Payload(data[..left])] + [FrameComplete] + next.1);
    ConsTwo(Payload(data[..left]), FrameComplete, next.1);
  }

  lemma {:induction false} ConsTwo<T>(a: T, b: T, s: seq<T>)
    ensures [a] + [b] + s == [a, b] + s
  {
  }

  /** Where the parts of a frame lie in the data of the read that completes it. */
  lemma {:induction false} FrameParts(held: seq<Octet>, data: seq<Octet>, header: seq<Octet>, payload: seq<Octet>,
                   rest: seq<Octet>)
    requires |held| < |header| && held + data == header + payload + rest
    ensures |header| <= |held| + |data| && (held + data)[..|header|] == header
    ensures data[|header| - |held|..] == payload + rest
    ensures (payload + rest)[..|payload|] == payload && (payload + rest)[|payload|..] == rest
  {
    assert (header + payload + rest)[..|header|] == header;
    assert (header + payload + rest)[|header|..] == payload + rest;
    assert data == (held + data)[|held|..];
  }

  lemma {:induction false} ConsThree<T>(a: T, b: T, c: T, s: seq<T>)
    ensures [a] + ([b, c] + s) == [a, b, c] + s
  {
  }

  /** One whole frame: a header (possibly begun by an earlier read), then exactly the payload it
      announces, then more data. The header event carries what the header says, the payload
      arrives in one piece, the frame completes, and the parser starts afresh on the rest. */
  lemma {:induction false} OneFrame(proto: Protocol, held: seq<Octet>, data: seq<Octet>, header: seq<Octet>,
                 payload: seq<Octet>, rest: seq<Octet>)
    requires ExactHeader(header) && |payload| == PayloadLength(header)
    requires |held| < |header| && held + data == header + payload + rest
    requires |payload| + |rest| > 0
    ensures !IsHeaderComplete(held)
    ensures var after := Read(proto, Initial, rest);
      Read(proto, Parser(InHeader, held, 0), data)
      == (after.0, [HeaderComplete(HeaderInfo(proto, header)), Payload(payload), FrameComplete] + after.1)
  {
    FrameParts(held, data, header, payload, rest);
    var tail := payload + rest;
    HeaderCompletes(proto, held, 0, data, header);
    PayloadCompletes(proto, |payload|, tail);
    var after := Read(proto, Initial, rest);
    ConsThree(HeaderComplete(HeaderInfo(proto, header)), Payload(payload), FrameComplete, after.1);
  }

  /** A frame header that ends the data with an empty payload: the header event fires, but the
      frame stays open until the next read that brings at least one byte. */
  lemma {:induction false} ZeroLengthFrameWaits(proto: Protocol, header: seq<Octet>, more: seq<Octet>)
    requires ExactHeader(header) && PayloadLength(header) == 0
    ensures Read(proto, Initial, header)
            == (Parser(InPayload, [], 0), [HeaderComplete(HeaderInfo(proto, header))])
    ensures |more| > 0 ==>
      Read(proto, Parser(InPayload, [], 0), more)
      == (Read(proto, Initial, more).0, [Payload([]), FrameComplete] + Read(proto, Initial, more).1)
  {
    assert [] + header == header;
    HeaderCompletes(proto, [], 0, header, header);
    assert header[|header|..] == [];
    var hc := HeaderComplete(HeaderInfo(proto, header));
    assert Read(proto, Parser(InPayload, [], 0), []) == (Parser(InPayload, [], 0), []);
    assert [hc] + [] == [hc];
    if |more| > 0 {
      PayloadCompletes(proto, 0, more);
      assert more[..0] == [] && more[0..] == more;
    }
  }

  /** Payload that does not finish the frame is all passed on and counted off. */
  lemma {:induction false} PayloadCountedOff(proto: Protocol, left: nat, data: seq<Octet>)
    requires 0 < |data| < left
    ensures Read(proto, Parser(InPayload, [], left), data)
            == (Parser(InPayload, [], left - |data|), [Payload(data)])
  {
    assert data[..|data|] == data;
    assert data[|data|..] == [];
    var p' := Parser(InPayload, [], left - |data|);
    assert Read(proto, p', []) == (p', []);
    assert [Payload(data)] + [] + [] == [Payload(data)];
  }

  /** Splitting a frame's header across two reads changes nothing the callbacks see. */
  lemma {:induction false} SplitHeader(proto: Protocol, header: seq<Octet>, payload: seq<Octet>, rest: seq<Octet>,
                    k: nat)
    requires ExactHeader(header) && |payload| == PayloadLength(header)
    requires 0 < k < |header| && |payload| + |rest| > 0
    ensures var frame := header + payload + rest;
      var first := Read(proto, Initial, frame[..k]);
      && first.1 == []
      && Read(proto, first.0, frame[k..]) == Read(proto, Initial, frame)
  {
    var frame := header + payload + rest;
    HeaderPrefixHeld(proto, header, frame, k);
    assert header[..k] + frame[k..] == header + payload + rest;
    OneFrame(proto, header[..k], frame[k..], header, payload, rest);
    assert [] + frame == header + payload + rest;
    OneFrame(proto, [], frame, header, payload, rest);
  }

  /** The first `k` bytes of a header are held, and nothing fires. */
  lemma {:induction false} HeaderPrefixHeld(proto: Protocol, header: seq<Octet>, frame: seq<Octet>,
                                            k: nat)
    requires ExactHeader(header) && 0 < k < |header| <= |frame| && frame[..|header|] == header
    ensures Read(proto, Initial, frame[..k]) == (Parser(InHeader, header[..k], 0), [])
  {
    assert frame[..k] == header[..k];
    PrefixOfHeaderIncomplete(header, k);
    assert [] + header[..k] == header[..k];
    HeaderBytesHeld(proto, [], 0, header[..k]);
  }

  /** A frame laid out as section 5.2 of RFC 6455 describes reads back as the header event with
      every field the layout was given, the payload, and the frame's completion. */
  lemma {:induction false} LaidOutFrameReadsBack(proto: Protocol, fin: bool, op: Opcode, masked: bool,
                              key: seq<Octet>, payload: seq<Octet>, rest: seq<Octet>)
    requires |key| == 4 && |payload| < Uint64 / 2 && |payload| + |rest| > 0
    ensures var frame := LayoutHeader(proto, fin, op, masked, key, |payload|) + payload + rest;
      var after := Read(proto, Initial, rest);
      var info := Info(fin, op, masked, if masked then key else [], true, |payload|);
      Read(proto, Initial, frame)
      == (after.0, [HeaderComplete(info), Payload(payload), FrameComplete] + after.1)
  {
    var h := LayoutHeader(proto, fin, op, masked, key, |payload|);
    LayoutReadsBack(proto, fin, op, masked, key, |payload|);
    assert [] + (h + payload + rest) == h + payload + rest;
    OneFrame(proto, [], h + payload + rest, h, payload, rest);
  }
}
