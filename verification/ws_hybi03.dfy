/** The draft-ietf-hybi-thewebsocketprotocol-03 (Hixie-76 handshake) protocol object of
    src/websockets-hybi03.cpp: the key arithmetic of `calculateKeyValue`, `canHandle`, the
    16-byte MD5 challenge and response headers of `handshake`, and its FIN and opcode codecs.
    MD5 is a parameter: its code is not part of this model. */
module WebSocketHyBi03 {
  import opened Wrappers
  import opened Ascii
  import opened Constants
  import Utils
  import WebSocketBase

  /** `uint32_t` arithmetic wraps modulo 2^32. */
  const Uint32: nat := 0x1_0000_0000

  // ---------------------------------------------------------------------------
  // calculateKeyValue
  // ---------------------------------------------------------------------------

  /** The number of spaces in `s`. */
  function SpaceCount(s: string): (n: nat)
    ensures n <= |s|
    ensures n == 0 <==> ' ' !in s
  {
    if |s| == 0 then 0
    else SpaceCount(s[..|s| - 1]) + (if s[|s| - 1] == ' ' then 1 else 0)
  }

  /** The decimal digits of `s`, in order. */
  function KeyDigits(s: string): (d: string)
    ensures AllDigits(d) && |d| <= |s|
  {
    if |s| == 0 then ""
    else KeyDigits(s[..|s| - 1]) + (if IsDigit(s[|s| - 1]) then [s[|s| - 1]] else "")
  }

  /** Reference definition of the key value: the number the digits spell, truncated to 32 bits,
      divided by the space count (itself a 32-bit counter); none when that count is zero. */
  function TrimmedKeyValue(t: string): (r: Option<nat>)
    ensures r.Some? ==> r.value < Uint32
  {
    var spaces := SpaceCount(t) % Uint32;
    if spaces == 0 then None else Some(Quotient(DecimalValue(KeyDigits(t)) % Uint32, spaces))
  }

  function Quotient(a: nat, b: nat): nat
    requires b > 0
  {
    a / b
  }

  function KeyValue(key: string): Option<nat> {
    TrimmedKeyValue(Trim(key))
  }

  /** Multiplying by ten and adding a digit commutes with truncation to 32 bits. */
  lemma {:induction false} WrapStep(x: nat, d: nat)
    ensures ((x % Uint32) * 10 + d) % Uint32 == (x * 10 + d) % Uint32
  {
    var q := x / Uint32;
    assert x == q * Uint32 + x % Uint32;
    assert x * 10 + d == (q * 10) * Uint32 + ((x % Uint32) * 10 + d);
  }

  lemma {:induction false} ModIncrement(x: nat)
    ensures (x % Uint32 + 1) % Uint32 == (x + 1) % Uint32
  {
  }

  /** One more character extends the counts by that character alone. */
  lemma {:induction false} PrefixStep(t: string, i: nat)
    requires i < |t|
    ensures SpaceCount(t[..i + 1]) == SpaceCount(t[..i]) + (if t[i] == ' ' then 1 else 0)
    ensures IsDigit(t[i]) ==> DecimalValue(KeyDigits(t[..i + 1]))
                              == DecimalValue(KeyDigits(t[..i])) * 10 + (t[i] as int - '0' as int)
    ensures !IsDigit(t[i]) ==> KeyDigits(t[..i + 1]) == KeyDigits(t[..i])
  {
    var p := t[..i + 1];
    assert p[..i] == t[..i];
    if IsDigit(t[i]) {
      var d := KeyDigits(t[..i]) + [t[i]];
      assert KeyDigits(p) == d;
      assert d[..|d| - 1] == KeyDigits(t[..i]);
    }
  }

  /** The loop of `calculateKeyValue`: count spaces and accumulate digits, both in `uint32_t`. */
  method Accumulate(t: string) returns (value: nat, spaces: nat)
    ensures value == DecimalValue(KeyDigits(t)) % Uint32
    ensures spaces == SpaceCount(t) % Uint32
  {
    value, spaces := 0, 0;
    var i := 0;
    assert t[..0] == "";
    while i < |t|
      invariant 0 <= i <= |t|
      invariant value == DecimalValue(KeyDigits(t[..i])) % Uint32
      invariant spaces == SpaceCount(t[..i]) % Uint32
    {
      ghost var x, n := DecimalValue(KeyDigits(t[..i])), SpaceCount(t[..i]);
      PrefixStep(t, i);
      var c := t[i];
      if c == ' ' {
        ModIncrement(n);
        spaces := (spaces + 1) % Uint32;
      } else if '0' <= c <= '9' {
        var d := c as int - '0' as int;
        WrapStep(x, d);
        value := (value * 10 + d) % Uint32;
      }
      i := i + 1;
    }
    assert t[..i] == t;
  }

  /** `calculateKeyValue`: one pass over the trimmed key; false (none) when no space was
      counted, otherwise the digits' value divided by the number of spaces. */
  method CalculateKeyValue(key: string) returns (r: Option<nat>)
    ensures r == KeyValue(key)
    ensures r.None? <==> SpaceCount(Trim(key)) % Uint32 == 0
  {
    var t := Trim(key);
    var value, spaces := Accumulate(t);
    if spaces == 0 {
      return None;
    }
    r := Some(Quotient(value, spaces));
  }

  /** For any key shorter than 2^32 characters the space counter cannot wrap: the key is
      rejected exactly when its trimmed form has no space. */
  lemma {:induction false} RejectedIffNoSpace(key: string)
    requires |key| < Uint32
    ensures KeyValue(key).None? <==> ' ' !in Trim(key)
  {
    var t := Trim(key);
    var n := SpaceCount(t);
    assert n <= |t| <= |key|;
    assert n % Uint32 == n;
  }

  /** Counting and digit collection distribute over concatenation. */
  lemma {:induction false} CountsOfConcat(a: string, b: string)
    ensures SpaceCount(a + b) == SpaceCount(a) + SpaceCount(b)
    ensures KeyDigits(a + b) == KeyDigits(a) + KeyDigits(b)
    decreases |b|
  {
    if |b| == 0 {
      assert a + b == a;
    } else {
      var b' := b[..|b| - 1];
      assert (a + b)[..|a + b| - 1] == a + b';
      CountsOfConcat(a, b');
    }
  }

  /** Characters other than spaces and digits are ignored. */
  lemma {:induction false} OtherCharactersIgnored(a: string, c: char, b: string)
    requires c != ' ' && !IsDigit(c)
    ensures TrimmedKeyValue(a + [c] + b) == TrimmedKeyValue(a + b)
  {
    CountsOfConcat(a, [c]);
    CountsOfConcat(a + [c], b);
    CountsOfConcat(a, b);
    assert [c][..0] == "";
    assert KeyDigits([c]) == "";
    assert SpaceCount([c]) == 0;
    assert KeyDigits(a + [c]) == KeyDigits(a);
    assert KeyDigits(a + [c] + b) == KeyDigits(a + b);
    assert SpaceCount(a + [c] + b) == SpaceCount(a + b);
  }

  // ---------------------------------------------------------------------------
  // canHandle
  // ---------------------------------------------------------------------------

  /** `canHandle`: exactly eight bytes of body, both key headers present with a valid key value,
      and an `upgrade` header equal to "websocket" up to ASCII case. */
  function CanHandle(h: RequestHeaders, data: seq<Octet>): (b: bool)
    ensures b ==> |data| == 8
    ensures b ==> Lookup(h, "sec-websocket-key1").Some? && ' ' in Trim(Lookup(h, "sec-websocket-key1").value)
    ensures b ==> Lookup(h, "sec-websocket-key2").Some? && ' ' in Trim(Lookup(h, "sec-websocket-key2").value)
    ensures b ==> Lookup(h, "upgrade").Some? && Utils.EqualsIgnoreCase(Lookup(h, "upgrade").value, "websocket")
  {
    Utils.ToLowerKeepsLower("websocket");
    KeyValueNeedsSpace(h, "sec-websocket-key1");
    KeyValueNeedsSpace(h, "sec-websocket-key2");
    && |data| == 8
    && Lookup(h, "sec-websocket-key1").Some?
    && Lookup(h, "sec-websocket-key2").Some?
    && KeyValue(Lookup(h, "sec-websocket-key1").value).Some?
    && KeyValue(Lookup(h, "sec-websocket-key2").value).Some?
    && Lookup(h, "upgrade").Some?
    && Utils.ToLower(Lookup(h, "upgrade").value) == "websocket"
  }

  /** A key header with a value has a space in its trimmed form. */
  lemma {:induction false} KeyValueNeedsSpace(h: RequestHeaders, name: string)
    ensures Lookup(h, name).Some? && KeyValue(Lookup(h, name).value).Some? ==> ' ' in Trim(Lookup(h, name).value)
  {
  }

  /** A key header without a space rules the request out. */
  lemma {:induction false} KeyWithoutSpaceIsRejected(h: RequestHeaders, data: seq<Octet>)
    requires Lookup(h, "sec-websocket-key1").Some?
    requires |Lookup(h, "sec-websocket-key1").value| < Uint32
    requires ' ' !in Trim(Lookup(h, "sec-websocket-key1").value)
    ensures !CanHandle(h, data)
  {
    RejectedIffNoSpace(Lookup(h, "sec-websocket-key1").value);
  }

  // ---------------------------------------------------------------------------
  // handshake
  // ---------------------------------------------------------------------------

  /** An MD5 digest. */
  type Digest = s: seq<Octet> | |s| == 16 witness [0, 0, 0, 0, 0, 0, 0, 0, 0, 0, 0, 0, 0, 0, 0, 0]

  /** The four bytes of a `uint32_t`, most significant first. */
  function BigEndian(k: nat): (r: seq<Octet>)
    requires k < Uint32
    ensures |r| == 4
  {
    [k / 0x100_0000 % 256, k / 0x1_0000 % 256, k / 0x100 % 256, k % 256]
  }

  /** The four bytes read back as a big-endian number give the value. */
  lemma {:induction false} BigEndianReadsBack(k: nat)
    requires k < Uint32
    ensures var b := BigEndian(k); ((b[0] as int * 256 + b[1]) * 256 + b[2]) * 256 + b[3] == k
  {
    assert k / 0x100_0000 % 256 == k / 0x100_0000;
    assert k / 0x1_0000 == (k / 0x100_0000) * 256 + k / 0x1_0000 % 256;
    assert k / 0x100 == (k / 0x1_0000) * 256 + k / 0x100 % 256;
    assert k == (k / 0x100) * 256 + k % 256;
  }

  /** The bytes of a `uint32_t` as they lie in memory on a host of the given byte order. */
  function NativeBytes(k: nat, bigEndianHost: bool): (r: seq<Octet>)
    requires k < Uint32
    ensures |r| == 4
  {
    if bigEndianHost then BigEndian(k) else WebSocketBase.Reverse(BigEndian(k))
  }

  /** The 16-byte challenge: both key values stored natively, each swapped on a little-endian
      host, then the eight bytes of body. */
  function Challenge(key1: nat, key2: nat, data: seq<Octet>, bigEndianHost: bool): (c: seq<Octet>)
    requires key1 < Uint32 && key2 < Uint32 && |data| == 8
    ensures |c| == 16
  {
    var native := NativeBytes(key1, bigEndianHost) + NativeBytes(key2, bigEndianHost) + data;
    if bigEndianHost then native
    else WebSocketBase.Swapped(WebSocketBase.Swapped(native, 0, 4), 4, 8)
  }

  /** On either kind of host the challenge is key1 big-endian, key2 big-endian, then the body. */
  lemma {:induction false} ChallengeIsBigEndian(key1: nat, key2: nat, data: seq<Octet>, bigEndianHost: bool)
    requires key1 < Uint32 && key2 < Uint32 && |data| == 8
    ensures Challenge(key1, key2, data, bigEndianHost) == BigEndian(key1) + BigEndian(key2) + data
  {
    if !bigEndianHost {
      var b1, b2 := BigEndian(key1), BigEndian(key2);
      var native := WebSocketBase.Reverse(b1) + WebSocketBase.Reverse(b2) + data;
      WebSocketBase.ReverseReverse(b1);
      WebSocketBase.ReverseReverse(b2);
      var once := WebSocketBase.Swapped(native, 0, 4);
      assert native[0..4] == WebSocketBase.Reverse(b1);
      assert once == b1 + WebSocketBase.Reverse(b2) + data by {
        assert native[..0] == [];
        assert native[4..] == WebSocketBase.Reverse(b2) + data;
      }
      assert once[4..8] == WebSocketBase.Reverse(b2);
      assert once[..4] == b1;
      assert once[8..] == data;
    }
  }

  datatype HandshakeResult = HandshakeResult(headers: ResponseHeaders, response: Digest)

  /** The origin echoed back: `sec-websocket-origin`, else `origin`, else "". */
  function Origin(h: RequestHeaders): (o: string)
    ensures Lookup(h, "sec-websocket-origin").Some? ==> o == Lookup(h, "sec-websocket-origin").value
    ensures Lookup(h, "sec-websocket-origin").None? && Lookup(h, "origin").Some? ==> o == Lookup(h, "origin").value
    ensures Lookup(h, "sec-websocket-origin").None? && Lookup(h, "origin").None? ==> o == ""
  {
    match Lookup(h, "sec-websocket-origin")
    case Some(o) => o
    case None => Lookup(h, "origin").GetOr("")
  }

  /** `handshake`, which runs only after `canHandle` accepted the request: the response body is
      the MD5 digest of the challenge, and the headers are Connection, Upgrade, the origin and an
      empty location, in that order. */
  function Handshake(h: RequestHeaders, data: seq<Octet>, md5: seq<Octet> -> Digest,
                     bigEndianHost: bool): (r: HandshakeResult)
    requires CanHandle(h, data)
    ensures r.response == md5(BigEndian(KeyValue(Lookup(h, "sec-websocket-key1").value).value)
                              + BigEndian(KeyValue(Lookup(h, "sec-websocket-key2").value).value)
                              + data)
    ensures |r.headers| == 4 && r.headers[2] == ("Sec-WebSocket-Origin", Origin(h))
  {
    var key1 := KeyValue(Lookup(h, "sec-websocket-key1").value).value;
    var key2 := KeyValue(Lookup(h, "sec-websocket-key2").value).value;
    ChallengeIsBigEndian(key1, key2, data, bigEndianHost);
    HandshakeResult(
      [("Connection", "Upgrade"), ("Upgrade", "WebSocket"),
       ("Sec-WebSocket-Origin", Origin(h)), ("Sec-WebSocket-Location", "")],
      md5(Challenge(key1, key2, data, bigEndianHost)))
  }

  /** The host's byte order does not show in the handshake. */
  lemma {:induction false} HandshakeIgnoresHostOrder(h: RequestHeaders, data: seq<Octet>, md5: seq<Octet> -> Digest)
    requires CanHandle(h, data)
    ensures Handshake(h, data, md5, true) == Handshake(h, data, md5, false)
  {
  }

  // ---------------------------------------------------------------------------
  // FIN bit and opcodes
  // ---------------------------------------------------------------------------

  /** `isFin`: in this draft the bit means "more fragments follow", so 0 is final. */
  function IsFin(firstBit: Octet): bool {
    firstBit == 0
  }

  function ToFin(isFin: bool): (bit: Octet)
    ensures bit <= 1
  {
    if isFin then 0 else 1
  }

  lemma {:induction false} FinRoundTrip(fin: bool)
    ensures IsFin(ToFin(fin)) == fin
    ensures ToFin(fin) == 0 <==> fin
  {
  }

  /** `decodeOpcode`: the draft's numbering, 0 to 5; anything else is Reserved. */
  function DecodeOpcode(raw: Octet): Opcode {
    if raw == 0 then Continuation
    else if raw == 1 then Close
    else if raw == 2 then Ping
    else if raw == 3 then Pong
    else if raw == 4 then Text
    else if raw == 5 then Binary
    else Reserved
  }

  /** `encodeOpcode`: Reserved, which is not expected, becomes 6. */
  function EncodeOpcode(op: Opcode): (raw: Octet)
    ensures raw <= 6
  {
    match op
    case Continuation => 0
    case Close => 1
    case Ping => 2
    case Pong => 3
    case Text => 4
    case Binary => 5
    case Reserved => 6
  }

  /** Every opcode survives encoding and decoding, Reserved by way of 6; codes 0 to 5 survive
      decoding and encoding. */
  lemma {:induction false} OpcodeRoundTrip(op: Opcode, raw: Octet)
    ensures DecodeOpcode(EncodeOpcode(op)) == op
    ensures raw <= 5 ==> EncodeOpcode(DecodeOpcode(raw)) == raw
    ensures raw > 5 ==> DecodeOpcode(raw) == Reserved
  {
  }
}
