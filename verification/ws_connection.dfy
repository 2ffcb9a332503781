/** `WebSocketConnection` of src/websockets.cpp: the closing handshake of section 5.5.1 of
    RFC 6455, unmasking (section 5.3) and the reassembly of fragmented messages (section 5.4).
    The connection's handlers take the parser's events one at a time; what they ask of the
    outside world (a frame to send, a message to deliver, the socket to close, the close
    callback) is returned as a list of effects. */
module WebSocketConnection {
  import opened Ascii
  import opened Constants
  import opened WebSocketFrame
  import WebSocketParser
  import WebSocketHixie76
  import WebSocketBase

  /** `WSConnState`. */
  datatype ConnState = Open | CloseReceived | CloseSent | Closed

  /** Calls into `WebSocketConnectionCallbacks`. */
  datatype Effect =
    | SendFrame(opcode: Opcode, data: seq<Octet>)  // sendWSFrame, around the protocol's header and footer
    | Message(binary: bool, data: seq<Octet>)      // onWSMessage
    | CloseSocket                                  // closeWSSocket
    | OnClose(code: nat)                           // onWSClose

  /** The connection's state, the current frame's header, the header that opened the message
      being reassembled, the fragments gathered so far, and the current frame's payload. */
  datatype Connection = Connection(state: ConnState, header: Info, incompleteHeader: Info,
                                   incompletePayload: seq<Octet>, payload: seq<Octet>)

  /** Headers handed on by the parsers are well formed, so a masked one has its four-byte key. */
  predicate Valid(c: Connection) {
    WellFormed(c.header) && WellFormed(c.incompleteHeader)
  }

  /** The headers a new connection holds before its first frame. */
  const NoHeader: Info := Info(false, Continuation, false, [], false, 0)

  const Fresh: Connection := Connection(Open, NoHeader, NoHeader, [], [])

  datatype Outcome = Outcome(conn: Connection, effects: seq<Effect>)

  /** Open, then one close frame sent or received, then both. */
  function Rank(s: ConnState): nat {
    match s
    case Open => 0
    case CloseReceived => 1
    case CloseSent => 1
    case Closed => 2
  }

  // ---------------------------------------------------------------------------
  // sending and closing
  // ---------------------------------------------------------------------------

  /** `sendWSMessage`: a frame of the given opcode, unless the connection is closed. */
  function SendWSMessage(c: Connection, op: Opcode, data: seq<Octet>): (r: seq<Effect>)
    ensures c.state == Closed <==> r == []
    ensures r != [] ==> r == [SendFrame(op, data)]
  {
    if c.state == Closed then [] else [SendFrame(op, data)]
  }

  /** The two bytes of a status code as they lie in memory on a host of either byte order. */
  function NativeBytes(code: nat, bigEndianHost: bool): seq<Octet>
    requires code < 0x1_0000
  {
    if bigEndianHost then [code / 256, code % 256] else [code % 256, code / 256]
  }

  /** The payload of a close frame: the code's bytes, swapped on a little-endian host, then the
      reason. */
  function CloseMessage(code: nat, reason: seq<Octet>, bigEndianHost: bool): (m: seq<Octet>)
    requires code < 0x1_0000
    ensures |m| == 2 + |reason| && m[2..] == reason
  {
    var native := NativeBytes(code, bigEndianHost);
    (if bigEndianHost then native else WebSocketBase.Swapped(native, 0, 2)) + reason
  }

  /** Whatever the host's byte order, the code goes out in network byte order. */
  lemma {:induction false} CloseCodeIsBigEndian(code: nat, reason: seq<Octet>, bigEndianHost: bool)
    requires code < 0x1_0000
    ensures CloseMessage(code, reason, bigEndianHost)[..2] == [code / 256, code % 256]
    ensures (CloseMessage(code, reason, bigEndianHost)[0] as int) * 256 + CloseMessage(code, reason, bigEndianHost)[1] == code
  {
    var native := NativeBytes(code, bigEndianHost);
    if !bigEndianHost {
      var swapped := WebSocketBase.Swapped(native, 0, 2);
      assert native[0..2] == native;
      assert WebSocketBase.Reverse(native) == [native[1], native[0]];
      assert swapped == [] + [native[1], native[0]] + [];
    }
  }

  /** `closeWS`: a second close request does nothing; otherwise the state advances from Open to
      CloseSent or from CloseReceived to Closed, a close frame is sent if the new state allows
      it, and the socket is closed once both close frames have gone. */
  function CloseWS(c: Connection, code: nat, reason: seq<Octet>, bigEndianHost: bool): (r: Outcome)
    requires code < 0x1_0000
    ensures c.state in {CloseSent, Closed} ==> r == Outcome(c, [])
    ensures c.state == Open ==>
      r == Outcome(c.(state := CloseSent), [SendFrame(Close, CloseMessage(code, reason, bigEndianHost))])
    ensures c.state == CloseReceived ==> r == Outcome(c.(state := Closed), [CloseSocket])
    ensures CloseSocket in r.effects <==> r.conn.state == Closed && c.state != Closed
  {
    if c.state == CloseSent || c.state == Closed then Outcome(c, [])
    else
      var next := c.(state := if c.state == Open then CloseSent else Closed);
      var sent := SendWSMessage(next, Close, CloseMessage(code, reason, bigEndianHost));
      Outcome(next, sent + (if next.state == Closed then [CloseSocket] else []))
  }

  // ---------------------------------------------------------------------------
  // incoming frames
  // ---------------------------------------------------------------------------

  /** `onHeaderComplete`: the header becomes current, and a non-final frame that is not a
      continuation opens a fragmented message. */
  function OnHeaderComplete(c: Connection, info: Info): (r: Connection)
    requires Valid(c) && WellFormed(info)
    ensures Valid(r) && r.state == c.state && r.payload == c.payload
    ensures r.incompletePayload == c.incompletePayload
    ensures c.state == Closed ==> r == c
    ensures c.state != Closed ==> r.header == info
    ensures c.state != Closed && !info.fin && info.opcode != Continuation ==> r.incompleteHeader == info
    ensures info.fin || info.opcode == Continuation ==> r.incompleteHeader == c.incompleteHeader
  {
    if c.state == Closed then c
    else if !info.fin && info.opcode != Continuation then c.(header := info, incompleteHeader := info)
    else c.(header := info)
  }

  /** Exclusive or of the low `width` bits of two numbers, bit by bit from the lowest. */
  function XorBits(a: nat, b: nat, width: nat): (x: nat)
    ensures x < Pow2(width)
  {
    if width == 0 then 0 else (a % 2 + b % 2) % 2 + 2 * XorBits(a / 2, b / 2, width - 1)
  }

  /** Exclusive or of two bytes. */
  function Xor(a: Octet, b: Octet): Octet {
    XorBits(a, b, 8)
  }

  lemma {:induction false} HalveTwice(low: nat, high: nat)
    requires low < 2
    ensures (low + 2 * high) % 2 == low && (low + 2 * high) / 2 == high
  {
  }

  lemma {:induction false} ParityCancels(a: nat, b: nat)
    ensures ((a % 2 + b % 2) % 2 + b % 2) % 2 == a % 2
  {
  }

  lemma {:induction false} XorBitsTwice(a: nat, b: nat, width: nat)
    requires a < Pow2(width)
    ensures XorBits(XorBits(a, b, width), b, width) == a
  {
    if width > 0 {
      var low := (a % 2 + b % 2) % 2;
      var high := XorBits(a / 2, b / 2, width - 1);
      HalveTwice(low, high);
      assert a / 2 < Pow2(width - 1);
      XorBitsTwice(a / 2, b / 2, width - 1);
      ParityCancels(a, b);
    }
  }

  lemma {:induction false} XorTwice(a: Octet, b: Octet)
    ensures Xor(Xor(a, b), b) == a
  {
    XorBitsTwice(a, b, 8);
  }

  /** Section 5.3 of RFC 6455: the byte at position `offset + i` of a frame's payload is xored
      with byte `(offset + i) % 4` of the key. */
  function Mask(data: seq<Octet>, key: seq<Octet>, offset: nat): (r: seq<Octet>)
    requires |key| == 4
    ensures |r| == |data|
    ensures forall i | 0 <= i < |data| :: r[i] == Xor(data[i], key[(offset + i) % 4])
  {
    seq(|data|, i requires 0 <= i < |data| => Xor(data[i], key[(offset + i) % 4]))
  }

  /** Masking is its own inverse: the server's unmasking undoes the client's masking. */
  lemma {:induction false} MaskTwice(data: seq<Octet>, key: seq<Octet>, offset: nat)
    requires |key| == 4
    ensures Mask(Mask(data, key, offset), key, offset) == data
  {
    var twice := Mask(Mask(data, key, offset), key, offset);
    forall i | 0 <= i < |data|
      ensures twice[i] == data[i]
    {
      XorTwice(data[i], key[(offset + i) % 4]);
    }
  }

  /** Masking a payload in pieces, each piece at its own offset, masks the whole. */
  lemma {:induction false} MaskPieces(a: seq<Octet>, b: seq<Octet>, key: seq<Octet>, offset: nat)
    requires |key| == 4
    ensures Mask(a, key, offset) + Mask(b, key, offset + |a|) == Mask(a + b, key, offset)
  {
    var whole := Mask(a + b, key, offset);
    var pieces := Mask(a, key, offset) + Mask(b, key, offset + |a|);
    forall i | 0 <= i < |a + b|
      ensures pieces[i] == whole[i]
    {
      if i >= |a| {
        assert (a + b)[i] == b[i - |a|];
        assert offset + |a| + (i - |a|) == offset + i;
      }
    }
  }

  /** `onPayload`: the bytes are appended to the frame's payload and, in a masked frame,
      unmasked by their position within the frame. */
  function OnPayload(c: Connection, data: seq<Octet>): (r: Connection)
    requires Valid(c)
    ensures Valid(r) && r.state == c.state && r.header == c.header
    ensures r.incompleteHeader == c.incompleteHeader && r.incompletePayload == c.incompletePayload
    ensures c.state == Closed ==> r == c
    ensures c.state != Closed && !c.header.masked ==> r.payload == c.payload + data
    ensures c.state != Closed && c.header.masked ==>
      r.payload == c.payload + Mask(data, c.header.maskingKey, |c.payload|)
  {
    if c.state == Closed then c
    else if c.header.masked then c.(payload := c.payload + Mask(data, c.header.maskingKey, |c.payload|))
    else c.(payload := c.payload + data)
  }

  /** However the parser splits a frame's payload between reads, the unmasked payload is the
      same. */
  lemma {:induction false} OnPayloadPieces(c: Connection, a: seq<Octet>, b: seq<Octet>)
    requires Valid(c)
    ensures OnPayload(OnPayload(c, a), b) == OnPayload(c, a + b)
  {
    if c.state != Closed && c.header.masked {
      MaskPieces(a, b, c.header.maskingKey, |c.payload|);
    }
  }

  /** The Close case of `onFrameComplete` as written: the state is set to Closed before the
      echo is handed to `sendWSMessage`, which then sends nothing. */
  function ReceiveCloseAsWritten(c: Connection): (r: Outcome)
    requires c.state != Closed
    ensures r.conn == c.(state := Closed)
    ensures r.effects == [CloseSocket, OnClose(0)]
  {
    var received := if c.state == Open then CloseReceived else if c.state == CloseSent then Closed else c.state;
    var next := c.(state := if received != CloseSent && received != Closed then Closed else received);
    var echo := if received != CloseSent && received != Closed then SendWSMessage(next, Close, c.payload) else [];
    Outcome(next, echo + [CloseSocket, OnClose(0)])
  }

  /** The echo a peer's close frame calls for is never sent. */
  lemma {:induction false} EchoIsLost(c: Connection)
    requires c.state == Open
    ensures ReceiveCloseAsWritten(c) == Outcome(c.(state := Closed), [CloseSocket, OnClose(0)])
    ensures forall e | e in ReceiveCloseAsWritten(c).effects :: !e.SendFrame?
  {
  }

  /** The Close case of `onFrameComplete` with the echo sent while the connection is still
      open: if no close frame has been sent, the peer's one is echoed with its payload; either
      way the connection ends Closed, the socket is closed and the close callback fires. */
  function ReceiveClose(c: Connection): (r: Outcome)
    requires c.state != Closed
    ensures r.conn == c.(state := Closed)
    ensures c.state == CloseSent ==> r.effects == [CloseSocket, OnClose(0)]
    ensures c.state != CloseSent ==> r.effects == [SendFrame(Close, c.payload), CloseSocket, OnClose(0)]
  {
    var echo := if c.state != CloseSent then SendWSMessage(c, Close, c.payload) else [];
    Outcome(c.(state := Closed), echo + [CloseSocket, OnClose(0)])
  }

  /** `onFrameComplete` as written. A non-final frame's payload joins the
      fragments; a final continuation delivers the fragments with it, binary exactly when the
      message began as Binary; Text and Binary frames are delivered whole; a ping is answered
      with a pong carrying its payload; a final close frame closes the connection without an
      echo. The frame's payload is then cleared. */
  function OnFrameComplete(c: Connection): (r: Outcome)
    requires Valid(c)
    ensures Valid(r.conn) && r.conn.header == c.header && r.conn.incompleteHeader == c.incompleteHeader
    ensures c.state == Closed ==> r == Outcome(c, [])
    ensures c.state != Closed ==> r.conn.payload == []
    ensures c.state != Closed && !c.header.fin ==>
      r.conn.incompletePayload == c.incompletePayload + c.payload && r.effects == []
    ensures c.state != Closed && c.header.fin && c.header.opcode == Continuation ==>
      r.conn.incompletePayload == []
      && r.effects == [Message(c.incompleteHeader.opcode == Binary, c.incompletePayload + c.payload)]
    ensures c.state != Closed && c.header.fin && c.header.opcode in {Text, Binary} ==>
      r.effects == [Message(c.header.opcode == Binary, c.payload)]
    ensures c.state != Closed && c.header.fin && c.header.opcode == Ping ==>
      r.effects == [SendFrame(Pong, c.payload)]
    ensures c.state != Closed && c.header.fin && c.header.opcode == Close ==>
      r.conn.state == Closed && r.effects == [CloseSocket, OnClose(0)]
    ensures c.header.opcode != Close || !c.header.fin ==> r.conn.state == c.state
  {
    if c.state == Closed then Outcome(c, [])
    else if !c.header.fin then
      Outcome(c.(incompletePayload := c.incompletePayload + c.payload, payload := []), [])
    else
      match c.header.opcode
      case Continuation =>
        Outcome(c.(incompletePayload := [], payload := []),
                [Message(c.incompleteHeader.opcode == Binary, c.incompletePayload + c.payload)])
      case Text => Outcome(c.(payload := []), [Message(false, c.payload)])
      case Binary => Outcome(c.(payload := []), [Message(true, c.payload)])
      case Close =>
        var r := ReceiveCloseAsWritten(c);
        Outcome(r.conn.(payload := []), r.effects)
      case Ping => Outcome(c.(payload := []), SendWSMessage(c, Pong, c.payload))
      case Pong => Outcome(c.(payload := []), [])
      case Reserved => Outcome(c.(payload := []), [])
  }

  /** A peer's final close frame always ends the connection, and as written no close frame
      goes back, even from Open. */
  lemma {:induction false} CloseFrameCloses(c: Connection)
    requires Valid(c) && c.state != Closed && c.header.fin && c.header.opcode == Close
    ensures OnFrameComplete(c).conn.state == Closed
    ensures OnFrameComplete(c).effects == [CloseSocket, OnClose(0)]
    ensures forall e | e in OnFrameComplete(c).effects :: !e.SendFrame?
  {
  }

  /** `onFrameComplete` with the Close case corrected to echo the peer's close frame; every
      other frame is handled as written. */
  function OnFrameCompleteIntended(c: Connection): (r: Outcome)
    requires Valid(c)
    ensures c.state != Closed && c.header.fin && c.header.opcode == Close ==>
      r.conn == c.(state := Closed, payload := [])
    ensures !(c.state != Closed && c.header.fin && c.header.opcode == Close) ==> r == OnFrameComplete(c)
  {
    if c.state != Closed && c.header.fin && c.header.opcode == Close then
      var r := ReceiveClose(c);
      Outcome(r.conn.(payload := []), r.effects)
    else OnFrameComplete(c)
  }

  /** With the correction a peer's final close frame is echoed with its payload from Open and
      not once a close frame of ours has gone; either way the connection ends Closed. */
  lemma {:induction false} CloseFrameClosesIntended(c: Connection)
    requires Valid(c) && c.state != Closed && c.header.fin && c.header.opcode == Close
    ensures OnFrameCompleteIntended(c).conn.state == Closed
    ensures c.state == Open ==>
      OnFrameCompleteIntended(c).effects == [SendFrame(Close, c.payload), CloseSocket, OnClose(0)]
    ensures c.state == CloseSent ==> OnFrameCompleteIntended(c).effects == [CloseSocket, OnClose(0)]
  {
  }

  // ---------------------------------------------------------------------------
  // events and reads
  // ---------------------------------------------------------------------------

  predicate EventWellFormed(e: Event) {
    e.HeaderComplete? ==> WellFormed(e.info)
  }

  /** One parser callback. */
  function Handle(c: Connection, e: Event): (r: Outcome)
    requires Valid(c) && EventWellFormed(e)
    ensures Valid(r.conn) && Rank(r.conn.state) >= Rank(c.state)
    ensures c.state == Closed ==> r == Outcome(c, [])
    ensures r.conn.state == CloseReceived ==> c.state == CloseReceived
  {
    match e
    case HeaderComplete(info) => Outcome(OnHeaderComplete(c, info), [])
    case Payload(data) => Outcome(OnPayload(c, data), [])
    case FrameComplete => OnFrameComplete(c)
  }

  /** The callbacks of one read, in order, each seeing the connection the previous one left. */
  function Deliver(c: Connection, events: seq<Event>): (r: Outcome)
    requires Valid(c) && forall e | e in events :: EventWellFormed(e)
    ensures Valid(r.conn) && Rank(r.conn.state) >= Rank(c.state)
    ensures c.state == Closed ==> r == Outcome(c, [])
    ensures r.conn.state == CloseReceived ==> c.state == CloseReceived
    ensures CloseSocket in r.effects ==> r.conn.state == Closed
    decreases |events|
  {
    if |events| == 0 then Outcome(c, [])
    else
      var first := Handle(c, events[0]);
      var rest := Deliver(first.conn, events[1..]);
      assert CloseSocket in first.effects ==> first.conn.state == Closed;
      Outcome(rest.conn, first.effects + rest.effects)
  }

  lemma {:induction false} DeliverAppend(c: Connection, a: seq<Event>, b: seq<Event>)
    requires Valid(c) && forall e | e in a + b :: EventWellFormed(e)
    ensures forall e | e in a :: EventWellFormed(e)
    ensures forall e | e in b :: EventWellFormed(e)
    ensures var first := Deliver(c, a);
      var second := Deliver(first.conn, b);
      Deliver(c, a + b) == Outcome(second.conn, first.effects + second.effects)
  {
    var first := Deliver(c, a);
    DeliverIsRun(c, a + b);
    DeliverIsRun(c, a);
    DeliverIsRun(first.conn, b);
    RunAppend(HandleAny, c, a, b);
  }

  /** `Handle` where it is defined, and nothing elsewhere: the step `Deliver` folds over. */
  function HandleAny(c: Connection, e: Event): Outcome {
    if Valid(c) && EventWellFormed(e) then Handle(c, e) else Outcome(c, [])
  }

  /** Any step folded over a list of events, the effects joined in order. */
  function Run(step: (Connection, Event) -> Outcome, c: Connection, events: seq<Event>): Outcome
    decreases |events|
  {
    if |events| == 0 then Outcome(c, [])
    else
      var first := step(c, events[0]);
      var rest := Run(step, first.conn, events[1..]);
      Outcome(rest.conn, first.effects + rest.effects)
  }

  /** Folding over two lists in turn is folding over the two joined. */
  lemma {:induction false} RunAppend(step: (Connection, Event) -> Outcome, c: Connection,
                                     a: seq<Event>, b: seq<Event>)
    ensures var first := Run(step, c, a);
      var second := Run(step, first.conn, b);
      Run(step, c, a + b) == Outcome(second.conn, first.effects + second.effects)
    decreases |a|
  {
    if |a| == 0 {
      assert a + b == b;
    } else {
      assert (a + b)[0] == a[0] && (a + b)[1..] == a[1..] + b;
      var h := step(c, a[0]);
      RunAppend(step, h.conn, a[1..], b);
      var first := Run(step, h.conn, a[1..]);
      var second := Run(step, first.conn, b);
      assert h.effects + (first.effects + second.effects) == (h.effects + first.effects) + second.effects;
    }
  }

  /** `Deliver` is the fold of `HandleAny`. */
  lemma {:induction false} DeliverIsRun(c: Connection, events: seq<Event>)
    requires Valid(c) && forall e | e in events :: EventWellFormed(e)
    ensures Deliver(c, events) == Run(HandleAny, c, events)
    decreases |events|
  {
    if |events| > 0 {
      DeliverIsRun(Handle(c, events[0]).conn, events[1..]);
    }
  }

  /** The parser feeding a connection: RFC 6455 or HyBi-03 framing, or Hixie-76. */
  datatype Framing =
    | HyBi(proto: Protocol, hybi: WebSocketParser.Parser)
    | Hixie76(hixie: WebSocketHixie76.Parser)

  predicate FramingValid(f: Framing) {
    match f
    case HyBi(_, p) => WebSocketParser.Valid(p)
    case Hixie76(p) => WebSocketHixie76.Valid(p)
  }

  datatype ReadResult = ReadResult(conn: Connection, framing: Framing, effects: seq<Effect>)

  /** `read`: a closed connection ignores the bytes; otherwise they go to the parser, whose
      callbacks are delivered in order. */
  function Read(c: Connection, f: Framing, data: seq<Octet>): (r: ReadResult)
    requires Valid(c) && FramingValid(f)
    ensures Valid(r.conn) && FramingValid(r.framing) && Rank(r.conn.state) >= Rank(c.state)
    ensures c.state == Closed ==> r == ReadResult(c, f, [])
    ensures r.conn.state == CloseReceived ==> c.state == CloseReceived
  {
    if c.state == Closed then ReadResult(c, f, [])
    else
      match f
      case HyBi(proto, p) =>
        var parsed := WebSocketParser.Read(proto, p, data);
        WebSocketParser.ReadWellFormed(proto, p, data);
        var out := Deliver(c, parsed.1);
        ReadResult(out.conn, HyBi(proto, parsed.0), out.effects)
      case Hixie76(p) =>
        var parsed := WebSocketHixie76.Read(p, data);
        WebSocketHixie76.ReadUnmasked(p, data);
        var out := Deliver(c, parsed.1);
        ReadResult(out.conn, Hixie76(parsed.0), out.effects)
  }

  // ---------------------------------------------------------------------------
  // whole messages
  // ---------------------------------------------------------------------------

  /** A frame as a client would send it, arriving in one read: the connection delivers the
      message the client masked, whatever key it chose. */
  lemma {:induction false} MaskedFrameDelivered(c: Connection, proto: Protocol, op: Opcode, key: seq<Octet>,
                             message: seq<Octet>)
    requires Valid(c) && c.state != Closed && c.payload == []
    requires op in {Text, Binary} && |key| == 4 && 0 < |message| < Uint64 / 2
    ensures var frame := LayoutHeader(proto, true, op, true, key, |message|) + Mask(message, key, 0);
      var r := Read(c, HyBi(proto, WebSocketParser.Initial), frame);
      r.effects == [Message(op == Binary, message)] && r.conn.state == c.state && r.conn.payload == []
  {
    var masked := Mask(message, key, 0);
    var frame := LayoutHeader(proto, true, op, true, key, |message|) + masked;
    WebSocketParser.LaidOutFrameReadsBack(proto, true, op, true, key, masked, []);
    assert frame + [] == frame;
    var info := Info(true, op, true, key, true, |message|);
    var events := [HeaderComplete(info), Payload(masked), FrameComplete];
    var parsed := WebSocketParser.Read(proto, WebSocketParser.Initial, frame);
    var after := WebSocketParser.Read(proto, WebSocketParser.Initial, []);
    assert events + after.1 == events;
    assert parsed.1 == events;
    var out := Deliver(c, events);
    assert Read(c, HyBi(proto, WebSocketParser.Initial), frame) == ReadResult(out.conn, HyBi(proto, parsed.0), out.effects);
    FrameStep(c, info, masked);
    var c1 := OnHeaderComplete(c, info);
    var c2 := OnPayload(c1, masked);
    assert c2.payload == Mask(masked, key, 0);
    MaskTwice(message, key, 0);
    assert out == OnFrameComplete(c2);
  }

  /** The events of a fragmented message: the opening frame, the middle continuations, and the
      final continuation, each unmasked. */
  function Fragments(op: Opcode, first: seq<Octet>, middle: seq<seq<Octet>>, last: seq<Octet>): seq<Event> {
    FrameEvents(false, op, first) + MiddleEvents(middle) + FrameEvents(true, Continuation, last)
  }

  function FrameEvents(fin: bool, op: Opcode, data: seq<Octet>): seq<Event> {
    [HeaderComplete(Info(fin, op, false, [], true, |data|)), Payload(data), FrameComplete]
  }

  function MiddleEvents(middle: seq<seq<Octet>>): seq<Event>
    decreases |middle|
  {
    if |middle| == 0 then [] else FrameEvents(false, Continuation, middle[0]) + MiddleEvents(middle[1..])
  }

  function Concat(parts: seq<seq<Octet>>): seq<Octet>
    decreases |parts|
  {
    if |parts| == 0 then [] else parts[0] + Concat(parts[1..])
  }

  lemma {:induction false} AllWellFormed(op: Opcode, first: seq<Octet>, middle: seq<seq<Octet>>, last: seq<Octet>)
    ensures forall e | e in Fragments(op, first, middle, last) :: EventWellFormed(e)
    ensures forall e | e in MiddleEvents(middle) :: EventWellFormed(e)
    decreases |middle|
  {
    if |middle| > 0 {
      AllWellFormed(op, first, middle[1..], last);
    }
  }

  /** One frame's three events, delivered to a connection. */
  lemma {:induction false} FrameStep(c: Connection, info: Info, data: seq<Octet>)
    requires Valid(c) && WellFormed(info)
    ensures Deliver(c, [HeaderComplete(info), Payload(data), FrameComplete])
            == OnFrameComplete(OnPayload(OnHeaderComplete(c, info), data))
  {
    var events := [HeaderComplete(info), Payload(data), FrameComplete];
    var c1 := OnHeaderComplete(c, info);
    var c2 := OnPayload(c1, data);
    var done := OnFrameComplete(c2);
    assert Deliver(done.conn, []) == Outcome(done.conn, []);
    assert done.effects + [] == done.effects;
    assert Deliver(c2, [FrameComplete]) == done;
    assert events[1..] == [Payload(data), FrameComplete];
    assert events[1..][1..] == [FrameComplete];
    assert Deliver(c1, events[1..]) == Outcome(done.conn, [] + done.effects);
    assert Deliver(c, events) == Outcome(done.conn, [] + ([] + done.effects));
  }

  /** Middle continuations only gather their bytes. */
  lemma {:induction false} MiddleGathers(c: Connection, middle: seq<seq<Octet>>)
    requires Valid(c) && c.state != Closed && c.payload == []
    ensures AllMiddleWellFormed(middle)
    ensures var r := Deliver(c, MiddleEvents(middle));
      r.effects == [] && r.conn.state == c.state && r.conn.payload == []
      && r.conn.incompleteHeader == c.incompleteHeader
      && r.conn.incompletePayload == c.incompletePayload + Concat(middle)
    decreases |middle|
  {
    AllWellFormed(Continuation, [], middle, []);
    if |middle| == 0 {
      assert c.incompletePayload + [] == c.incompletePayload;
    } else {
      MiddleStep(c, middle[0]);
      var c1 := Deliver(c, FrameEvents(false, Continuation, middle[0])).conn;
      MiddleGathers(c1, middle[1..]);
      AllWellFormed(Continuation, [], middle[1..], []);
      DeliverAppend(c, FrameEvents(false, Continuation, middle[0]), MiddleEvents(middle[1..]));
      assert c.incompletePayload + middle[0] + Concat(middle[1..]) == c.incompletePayload + Concat(middle);
    }
  }

  /** One middle continuation: its bytes are gathered and nothing is delivered. */
  lemma {:induction false} MiddleStep(c: Connection, m: seq<Octet>)
    requires Valid(c) && c.state != Closed && c.payload == []
    ensures forall e | e in FrameEvents(false, Continuation, m) :: EventWellFormed(e)
    ensures var r := Deliver(c, FrameEvents(false, Continuation, m));
      r.effects == [] && r.conn.state == c.state && r.conn.payload == []
      && r.conn.incompleteHeader == c.incompleteHeader
      && r.conn.incompletePayload == c.incompletePayload + m
  {
    AllWellFormed(Continuation, [], [], m);
    FrameStep(c, Info(false, Continuation, false, [], true, |m|), m);
  }

  predicate AllMiddleWellFormed(middle: seq<seq<Octet>>) {
    forall e | e in MiddleEvents(middle) :: EventWellFormed(e)
  }

  /** Section 5.4 of RFC 6455: a message sent as an opening frame, any number of continuations
      and a final continuation is delivered once, as the fragments joined in order, and binary
      exactly when the opening frame was. */
  lemma {:induction false} FragmentsReassembled(c: Connection, op: Opcode, first: seq<Octet>, middle: seq<seq<Octet>>,
                             last: seq<Octet>)
    requires Valid(c) && c.state != Closed && c.payload == [] && c.incompletePayload == []
    requires op in {Text, Binary}
    ensures forall e | e in Fragments(op, first, middle, last) :: EventWellFormed(e)
    ensures var r := Deliver(c, Fragments(op, first, middle, last));
      r.effects == [Message(op == Binary, first + Concat(middle) + last)]
      && r.conn.state == c.state && r.conn.incompletePayload == [] && r.conn.payload == []
  {
    AllWellFormed(op, first, middle, last);
    var opening := FrameEvents(false, op, first);
    var middles := MiddleEvents(middle);
    var closing := FrameEvents(true, Continuation, last);
    assert Fragments(op, first, middle, last) == opening + middles + closing;
    FrameStep(c, Info(false, op, false, [], true, |first|), first);
    var d1 := Deliver(c, opening);
    var c1 := d1.conn;
    assert d1.effects == [];
    assert c1.incompletePayload == first && c1.incompleteHeader.opcode == op && c1.payload == [];
    MiddleGathers(c1, middle);
    var d2 := Deliver(c1, middles);
    var c2 := d2.conn;
    FrameStep(c2, Info(true, Continuation, false, [], true, |last|), last);
    var d3 := Deliver(c2, closing);
    var h := OnHeaderComplete(c2, Info(true, Continuation, false, [], true, |last|));
    assert h.incompleteHeader.opcode == op && h.incompletePayload == first + Concat(middle);
    var pl := OnPayload(h, last);
    assert pl.payload == last && pl.header.fin && pl.header.opcode == Continuation;
    assert d3.effects == [Message(op == Binary, first + Concat(middle) + last)];
    AllWellFormed(op, first, [], last);
    DeliverAppend(c, opening, middles);
    assert Deliver(c, opening + middles) == Outcome(c2, [] + []);
    DeliverAppend(c, opening + middles, closing);
    assert [] + [] + d3.effects == d3.effects;
  }
}
