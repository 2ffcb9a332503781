/** The RFC 6455 protocol object of src/websockets-ietf.cpp: the extension-offer parser, the
    `canHandle` test, the opening-handshake response of section 4.2.2 of RFC 6455, and the FIN
    and opcode codecs of section 5.2. SHA-1 is a parameter: its code is not part of this model. */
module WebSocketIetf {
  import opened Wrappers
  import opened Ascii
  import opened Constants
  import Utils
  import Base64
  import opened WebSocketContext

  // ---------------------------------------------------------------------------
  // extension offers
  // ---------------------------------------------------------------------------

  /** `ExtensionInfo`: the extension name and its parameters. */
  datatype ExtensionInfo = ExtensionInfo(extension: string, params: map<string, string>)

  /** The name of a parameter `k=v` or `k`: the text before the first '=', trimmed when the
      caller trims. */
  function ParamKey(part: string, trimmed: bool): string {
    var kv := Split(part, '=');
    if trimmed then Trim(kv[0]) else kv[0]
  }

  /** The value of a parameter: the text between the first and the second '=' (anything after a
      second '=' is dropped), or "" for a bare name. */
  function ParamValue(part: string, trimmed: bool): string {
    var kv := Split(part, '=');
    if |kv| > 1 then (if trimmed then Trim(kv[1]) else kv[1]) else ""
  }

  /** `params[key] = value` for each part in turn. */
  function Params(parts: seq<string>, trimmed: bool): (m: map<string, string>)
    decreases |parts|
  {
    if |parts| == 0 then map[]
    else
      var last := parts[|parts| - 1];
      Params(parts[..|parts| - 1], trimmed)[ParamKey(last, trimmed) := ParamValue(last, trimmed)]
  }

  /** The keys of the parameter map are exactly the keys the parts name. */
  lemma {:induction false} ParamsKeys(parts: seq<string>, trimmed: bool, k: string)
    ensures k in Params(parts, trimmed) <==> exists i | 0 <= i < |parts| :: ParamKey(parts[i], trimmed) == k
    decreases |parts|
  {
    if |parts| > 0 {
      var init := parts[..|parts| - 1];
      ParamsKeys(init, trimmed, k);
      if k in Params(init, trimmed) {
        var i :| 0 <= i < |init| && ParamKey(init[i], trimmed) == k;
        assert parts[i] == init[i];
      }
      if exists i | 0 <= i < |parts| :: ParamKey(parts[i], trimmed) == k {
        var i :| 0 <= i < |parts| && ParamKey(parts[i], trimmed) == k;
        if i < |init| {
          assert init[i] == parts[i];
        }
      }
    }
  }

  /** A key that appears more than once keeps the value of its last occurrence. */
  lemma {:induction false} ParamsLastWins(parts: seq<string>, trimmed: bool, i: nat)
    requires i < |parts|
    requires forall j | i < j < |parts| :: ParamKey(parts[j], trimmed) != ParamKey(parts[i], trimmed)
    ensures ParamKey(parts[i], trimmed) in Params(parts, trimmed)
    ensures Params(parts, trimmed)[ParamKey(parts[i], trimmed)] == ParamValue(parts[i], trimmed)
    decreases |parts|
  {
    if i < |parts| - 1 {
      var init := parts[..|parts| - 1];
      assert init[i] == parts[i];
      ParamsLastWins(init, trimmed, i);
    }
  }

  /** `parseExtensionInfo` of this file: split on ';', the first part names the extension, and
      nothing is trimmed. */
  function ParseExtensionInfo(str: string): (r: ExtensionInfo)
    ensures r.extension == Split(str, ';')[0]
    ensures r.params == Params(Split(str, ';')[1..], false)
  {
    var parts := Split(str, ';');
    ExtensionInfo(parts[0], Params(parts[1..], false))
  }

  /** A value containing a second '=' keeps only the text up to it: whatever follows the second
      '=' of `k=v=w` is lost, and the key is `k`. */
  lemma {:induction false} SecondEqualsTruncates(k: string, v: string, w: string)
    requires forall i | 0 <= i < |k| :: k[i] != '='
    requires forall i | 0 <= i < |v| :: v[i] != '='
    ensures ParamKey(k + "=" + v + "=" + w, false) == k
    ensures ParamValue(k + "=" + v + "=" + w, false) == v
  {
    var tail := v + "=" + w;
    assert k + "=" + v + "=" + w == k + ['='] + tail;
    assert tail == v + ['='] + w;
    SplitAfter(k, tail, '=');
    SplitAfter(v, w, '=');
  }

  // ---------------------------------------------------------------------------
  // canHandle
  // ---------------------------------------------------------------------------

  /** `canHandle`: an `upgrade` header equal to "websocket" up to ASCII case, and a
      `sec-websocket-key` header. */
  function CanHandle(h: RequestHeaders): (b: bool)
    ensures b <==> Lookup(h, "upgrade").Some?
                   && Utils.EqualsIgnoreCase(Lookup(h, "upgrade").value, "websocket")
                   && Lookup(h, "sec-websocket-key").Some?
  {
    Utils.ToLowerKeepsLower("websocket");
    match Lookup(h, "upgrade")
    case None => false
    case Some(u) => Utils.ToLower(u) == "websocket" && Lookup(h, "sec-websocket-key").Some?
  }

  /** Whatever case the client spells the two headers in, storing them makes the request
      acceptable; without a key it never is. */
  lemma {:induction false} CanHandleIgnoresSpelling(h: RequestHeaders, upgradeName: string, upgrade: string,
                                 keyName: string, key: string)
    requires Utils.ToLower(upgradeName) == "upgrade"
    requires Utils.ToLower(keyName) == "sec-websocket-key"
    requires Utils.ToLower(upgrade) == "websocket"
    ensures CanHandle(PutHeader(PutHeader(h, upgradeName, upgrade), keyName, key))
    ensures Lookup(h, "sec-websocket-key").None? ==> !CanHandle(h)
  {
    assert |"upgrade"| != |"sec-websocket-key"|;
    var h2 := PutHeader(PutHeader(h, upgradeName, upgrade), keyName, key);
    PutTwo(h, upgradeName, upgrade, keyName, key, "upgrade", "sec-websocket-key");
    Accepted(h2, upgrade);
  }

  /** The two headers `canHandle` asks for, stored under their lower-case names, are enough. */
  lemma {:induction false} Accepted(h: RequestHeaders, upgrade: string)
    requires Lookup(h, "upgrade") == Some(upgrade) && Utils.ToLower(upgrade) == "websocket"
    requires Lookup(h, "sec-websocket-key").Some?
    ensures CanHandle(h)
  {
  }

  /** Storing two headers under different names makes both found by their lower-cased names. */
  lemma {:induction false} PutTwo(h: RequestHeaders, n1: string, v1: string, n2: string, v2: string,
                                  k1: string, k2: string)
    requires Utils.ToLower(n1) == k1 && Utils.ToLower(n2) == k2 && k1 != k2
    ensures Lookup(PutHeader(PutHeader(h, n1, v1), n2, v2), k1) == Some(v1)
    ensures Lookup(PutHeader(PutHeader(h, n1, v1), n2, v2), k2) == Some(v2)
  {
    assert PutHeader(PutHeader(h, n1, v1), n2, v2) == h[k1 := v1][k2 := v2];
  }

  // ---------------------------------------------------------------------------
  // handshake
  // ---------------------------------------------------------------------------

  /** The GUID of section 1.3 of RFC 6455. */
  const Guid: string := "258EAFA5-E914-47DA-95CA-C5AB0DC85B11"

  const DeflateName: string := "permessage-deflate"

  const ExtensionHeader: (string, string) := ("Sec-WebSocket-Extensions", DeflateName)

  datatype HandshakeResult = HandshakeResult(headers: ResponseHeaders, context: Context)

  /** An offer of permessage-deflate: its name, trimmed, is "permessage-deflate". */
  predicate IsDeflateOffer(info: ExtensionInfo) {
    Trim(info.extension) == DeflateName
  }

  /** The number of true entries. */
  function CountTrue(flags: seq<bool>): (n: nat)
    ensures n <= |flags|
    ensures n == 0 <==> forall i | 0 <= i < |flags| :: !flags[i]
  {
    if |flags| == 0 then 0
    else
      var rest := CountTrue(flags[1..]);
      assert forall i | 1 <= i < |flags| :: flags[i] == flags[1..][i - 1];
      (if flags[0] then 1 else 0) + rest
  }

  /** The number of offers whose trimmed name is "permessage-deflate". */
  function DeflateOffers(offers: seq<ExtensionInfo>): (n: nat)
    ensures n <= |offers|
    ensures n == 0 <==> forall i | 0 <= i < |offers| :: !IsDeflateOffer(offers[i])
  {
    var flags := seq(|offers|, i requires 0 <= i < |offers| => IsDeflateOffer(offers[i]));
    forall i | 0 <= i < |offers|
      ensures flags[i] == IsDeflateOffer(offers[i])
    {
    }
    CountTrue(flags)
  }

  /** Every comma-separated offer of the `sec-websocket-extensions` header, parsed. */
  function Offers(h: RequestHeaders): seq<ExtensionInfo> {
    match Lookup(h, "sec-websocket-extensions")
    case None => []
    case Some(v) => seq(|Split(v, ',')|, i requires 0 <= i < |Split(v, ',')| => ParseExtensionInfo(Split(v, ',')[i]))
  }

  /** The `Sec-WebSocket-Accept` value: base64 of the SHA-1 digest of the trimmed key followed by
      the GUID. */
  function AcceptValue(key: string, sha1: string -> seq<Octet>): string {
    Base64.Encode(sha1(Trim(key) + Guid))
  }

  /** `handshake`: Connection, Upgrade and Sec-WebSocket-Accept in that order, then one extension
      header per permessage-deflate offer, each of which also switches the context's
      `permessageDeflate` on. The key header must be present, which `canHandle` checked. */
  function Handshake(h: RequestHeaders, ctx: Context, sha1: string -> seq<Octet>): (r: HandshakeResult)
    requires Lookup(h, "sec-websocket-key").Some?
    ensures r.context.permessageDeflate <==> ctx.permessageDeflate || DeflateOffers(Offers(h)) > 0
    ensures r.context == ctx.(permessageDeflate := r.context.permessageDeflate)
  {
    var key := Lookup(h, "sec-websocket-key").value;
    var base := [("Connection", "Upgrade"), ("Upgrade", "websocket"),
                 ("Sec-WebSocket-Accept", AcceptValue(key, sha1))];
    var offers := Offers(h);
    HandshakeResult(base + seq(DeflateOffers(offers), _ => ExtensionHeader),
                    ctx.(permessageDeflate := ctx.permessageDeflate || DeflateOffers(offers) > 0))
  }

  /** The response headers of the handshake, in order. */
  lemma {:induction false} HandshakeHeaders(h: RequestHeaders, ctx: Context, sha1: string -> seq<Octet>)
    requires Lookup(h, "sec-websocket-key").Some?
    ensures var r := Handshake(h, ctx, sha1).headers;
      && |r| == 3 + DeflateOffers(Offers(h))
      && r[..3] == [("Connection", "Upgrade"), ("Upgrade", "websocket"),
                    ("Sec-WebSocket-Accept", AcceptValue(Lookup(h, "sec-websocket-key").value, sha1))]
      && forall i | 3 <= i < |r| :: r[i] == ExtensionHeader
  {
  }

  /** The accept value carries the whole digest: base64-decoding it gives back SHA-1's output. */
  lemma {:induction false} AcceptCarriesDigest(key: string, sha1: string -> seq<Octet>)
    ensures Base64.Decode(AcceptValue(key, sha1)) == sha1(Trim(key) + Guid)
  {
    Base64.DecodeEncode(sha1(Trim(key) + Guid));
  }

  // ---------------------------------------------------------------------------
  // FIN bit and opcodes
  // ---------------------------------------------------------------------------

  /** `isFin`: a set bit means the final fragment. */
  function IsFin(firstBit: Octet): bool {
    firstBit != 0
  }

  function ToFin(isFin: bool): (bit: Octet)
    ensures bit <= 1
  {
    if isFin then 1 else 0
  }

  lemma {:induction false} FinRoundTrip(fin: bool)
    ensures IsFin(ToFin(fin)) == fin
    ensures ToFin(fin) == 1 <==> fin
  {
  }

  /** `decodeOpcode`: the seven values of section 5.2 of RFC 6455; any other code is Reserved. */
  function DecodeOpcode(raw: Octet): Opcode {
    if raw == 0 then Continuation
    else if raw == 1 then Text
    else if raw == 2 then Binary
    else if raw == 8 then Close
    else if raw == 9 then Ping
    else if raw == 0xA then Pong
    else Reserved
  }

  function EncodeOpcode(op: Opcode): (raw: Octet)
    ensures raw < 16
  {
    match op
    case Continuation => 0
    case Text => 1
    case Binary => 2
    case Close => 8
    case Ping => 9
    case Pong => 0xA
    case Reserved => 0xF
  }

  /** Encoding gives the enum's own value, and decoding undoes it. */
  lemma {:induction false} OpcodeRoundTrip(op: Opcode)
    ensures DecodeOpcode(EncodeOpcode(op)) == op
    ensures EncodeOpcode(op) == OpcodeValue(op)
  {
  }

  /** Codes outside the table decode to Reserved; codes inside it encode back to themselves. */
  lemma {:induction false} UnknownCodesAreReserved(raw: Octet)
    ensures raw !in {0, 1, 2, 8, 9, 0xA, 0xF} ==> DecodeOpcode(raw) == Reserved
    ensures raw in {0, 1, 2, 8, 9, 0xA, 0xF} ==> EncodeOpcode(DecodeOpcode(raw)) == raw
  {
  }
}
