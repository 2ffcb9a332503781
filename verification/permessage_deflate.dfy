/** The permessage-deflate negotiation of src/wse-permessage-deflate.cpp (section 7.1 of
    RFC 7692): the client's offers are parsed, each permessage-deflate offer is checked and folded
    into the connection's context, and the accepted parameters are written back in one
    `Sec-WebSocket-Extensions` response header. */
module PermessageDeflate {
  import opened Wrappers
  import opened Ascii
  import opened Constants
  import opened WebSocketContext
  import WebSocketIetf

  type ExtensionInfo = WebSocketIetf.ExtensionInfo

  const DeflateName: string := "permessage-deflate"
  const ServerNoContextTakeover: string := "server_no_context_takeover"
  const ClientNoContextTakeover: string := "client_no_context_takeover"
  const ServerMaxWindowBits: string := "server_max_window_bits"
  const ClientMaxWindowBits: string := "client_max_window_bits"

  // ---------------------------------------------------------------------------
  // parsing an offer
  // ---------------------------------------------------------------------------

  function TrimAll(parts: seq<string>): (r: seq<string>)
    ensures |r| == |parts| && forall i | 0 <= i < |parts| :: r[i] == Trim(parts[i])
  {
    seq(|parts|, i requires 0 <= i < |parts| => Trim(parts[i]))
  }

  /** `parseExtensionInfo` of this file: unlike the RFC 6455 protocol object's, it trims every
      ';'-separated part, and each parameter's name and value. */
  function ParseExtensionInfo(str: string): (r: ExtensionInfo)
    ensures r.extension == Trim(Split(str, ';')[0])
    ensures r.params == WebSocketIetf.Params(TrimAll(Split(str, ';'))[1..], true)
  {
    var parts := TrimAll(Split(str, ';'));
    WebSocketIetf.ExtensionInfo(parts[0], WebSocketIetf.Params(parts[1..], true))
  }

  /** Parameter names come out trimmed: none starts or ends with white space. */
  lemma {:induction false} ParamNamesTrimmed(str: string, k: string)
    requires k in ParseExtensionInfo(str).params
    ensures |k| > 0 ==> !IsSpace(k[0]) && !IsSpace(k[|k| - 1])
  {
    var parts := TrimAll(Split(str, ';'))[1..];
    WebSocketIetf.ParamsKeys(parts, true, k);
    var j :| 0 <= j < |parts| && WebSocketIetf.ParamKey(parts[j], true) == k;
    assert k == Trim(Split(parts[j], '=')[0]);
  }

  // ---------------------------------------------------------------------------
  // atoi
  // ---------------------------------------------------------------------------

  /** The longest run of decimal digits at the start of `s`. */
  function DigitPrefix(s: string): (r: string)
    ensures |r| <= |s| && r == s[..|r|] && AllDigits(r)
    ensures |r| < |s| ==> !IsDigit(s[|r|])
  {
    if |s| > 0 && IsDigit(s[0]) then [s[0]] + DigitPrefix(s[1..]) else ""
  }

  /** `atoi`: leading white space, an optional sign, then as many digits as follow; 0 when there
      are none. */
  function Atoi(s: string): int {
    var t := TrimLeft(s);
    if |t| > 0 && t[0] == '-' then 0 - DecimalValue(DigitPrefix(t[1..]))
    else if |t| > 0 && t[0] == '+' then DecimalValue(DigitPrefix(t[1..]))
    else DecimalValue(DigitPrefix(t))
  }

  /** The digit run ends where the digits do. */
  lemma {:induction false} DigitPrefixStops(d: string, rest: string)
    requires AllDigits(d) && (|rest| > 0 ==> !IsDigit(rest[0]))
    ensures DigitPrefix(d + rest) == d
    decreases |d|
  {
    if |d| == 0 {
      assert d + rest == rest;
    } else {
      assert (d + rest)[1..] == d[1..] + rest;
      DigitPrefixStops(d[1..], rest);
    }
  }

  /** `atoi` reads a number's decimal rendering back and stops at the first character that is
      not a digit, so "9x" reads as 9. */
  lemma {:induction false} AtoiStopsAtNonDigit(n: nat, rest: string)
    requires |rest| > 0 ==> !IsDigit(rest[0])
    ensures Atoi(NatToDecimal(n) + rest) == n
  {
    var d := NatToDecimal(n);
    var s := d + rest;
    assert s[0] == d[0];
    AtoiOfDigits(s);
    DigitPrefixStops(d, rest);
    DecimalRoundTrip(n);
  }

  /** A string that starts with a digit is read as its digit run. */
  lemma {:induction false} AtoiOfDigits(s: string)
    requires |s| > 0 && IsDigit(s[0])
    ensures Atoi(s) == DecimalValue(DigitPrefix(s))
  {
    assert TrimLeft(s) == s;
  }

  /** The decimal rendering of a number reads back through `atoi`. */
  lemma {:induction false} AtoiOfDecimal(n: nat)
    ensures Atoi(NatToDecimal(n)) == n
  {
    AtoiStopsAtNonDigit(n, "");
    assert NatToDecimal(n) + "" == NatToDecimal(n);
  }

  // ---------------------------------------------------------------------------
  // window bits
  // ---------------------------------------------------------------------------

  /** The three results of `parseWindowBits`: whether the offer is acceptable, whether the
      parameter is there, and the value written to the context. */
  datatype WindowBits = WindowBits(ok: bool, present: bool, value: int)

  /** `parseWindowBits`: an absent parameter, or one without a value, is acceptable with value
      0; a value of more than two characters is refused with value 0; otherwise the value is
      `atoi`'s, acceptable within 8..15. */
  function ParseWindowBits(params: map<string, string>, param: string): (r: WindowBits)
    ensures r.present <==> param in params
    ensures !r.present || params[param] == "" ==> r == WindowBits(true, r.present, 0)
    ensures r.present && |params[param]| > 2 ==> r == WindowBits(false, true, 0)
    ensures r.present && 0 < |params[param]| <= 2 ==>
      r.value == Atoi(params[param]) && (r.ok <==> 8 <= r.value <= 15)
    ensures r.ok ==> r.value == 0 || 8 <= r.value <= 15
  {
    if param !in params then WindowBits(true, false, 0)
    else
      var v := params[param];
      if |v| == 0 then WindowBits(true, true, 0)
      else if |v| > 2 then WindowBits(false, true, 0)
      else
        var n := Atoi(v);
        WindowBits(8 <= n <= 15, true, n)
  }

  /** The window bits the response announces are accepted, with the same value, when offered. */
  lemma {:induction false} WindowBitsReadBack(param: string, n: nat)
    requires 8 <= n <= 15
    ensures ParseWindowBits(map[param := NatToDecimal(n)], param) == WindowBits(true, true, n)
  {
    AtoiOfDecimal(n);
    assert NatToDecimal(n) == NatToDecimal(n / 10) + [DigitChar(n % 10)] || NatToDecimal(n) == [DigitChar(n)];
  }

  /** A one-digit size followed by junk ("9x") passes for the digit; a two-digit size above
      15 ("16") is refused. */
  lemma {:induction false} WindowBitsExamples(param: string, n: nat, c: char)
    ensures 8 <= n <= 9 && !IsDigit(c) ==>
      ParseWindowBits(map[param := NatToDecimal(n) + [c]], param) == WindowBits(true, true, n)
    ensures 16 <= n <= 99 ==> !ParseWindowBits(map[param := NatToDecimal(n)], param).ok
  {
    if 8 <= n <= 9 && !IsDigit(c) {
      AtoiStopsAtNonDigit(n, [c]);
    }
    if 16 <= n <= 99 {
      AtoiOfDecimal(n);
      assert NatToDecimal(n) == NatToDecimal(n / 10) + [DigitChar(n % 10)];
    }
  }

  // ---------------------------------------------------------------------------
  // one offer
  // ---------------------------------------------------------------------------

  /** Reference condition, from sections 7.1.2.1 and 7.1.2.2 of RFC 7692 as the source applies
      them: `server_max_window_bits` needs a value of at most two characters reading as 8..15;
      `client_max_window_bits` may also come without a value. */
  predicate ServerBitsOk(params: map<string, string>) {
    ServerMaxWindowBits in params ==>
      var v := params[ServerMaxWindowBits];
      0 < |v| <= 2 && 8 <= Atoi(v) <= 15
  }

  predicate ClientBitsOk(params: map<string, string>) {
    ClientMaxWindowBits in params ==>
      var v := params[ClientMaxWindowBits];
      |v| <= 2 && (|v| == 0 || 8 <= Atoi(v) <= 15)
  }

  predicate OfferOk(info: ExtensionInfo) {
    info.extension == DeflateName && ServerBitsOk(info.params) && ClientBitsOk(info.params)
  }

  /** `parsePermessageDeflate`: for the right extension name the context is switched to
      permessage-deflate and the no-context-takeover flags are raised for the parameters named;
      each window-bits value is written to the context as it is parsed, and on success a
      missing one defaults to 15. A refused offer leaves what was written so far. */
  function ParsePermessageDeflate(info: ExtensionInfo, ctx: Context): (r: (bool, Context))
    ensures r.0 <==> OfferOk(info)
    ensures info.extension != DeflateName ==> r == (false, ctx)
    ensures info.extension == DeflateName ==>
      && r.1.permessageDeflate
      && (r.1.serverNoContextTakeover <==> ctx.serverNoContextTakeover || ServerNoContextTakeover in info.params)
      && (r.1.clientNoContextTakeover <==> ctx.clientNoContextTakeover || ClientNoContextTakeover in info.params)
    ensures r.0 ==> 8 <= r.1.serverMaxWindowBits <= 15 && 8 <= r.1.clientMaxWindowBits <= 15
  {
    if info.extension != DeflateName then (false, ctx)
    else
      var flags := ctx.(
        permessageDeflate := true,
        serverNoContextTakeover := ctx.serverNoContextTakeover || ServerNoContextTakeover in info.params,
        clientNoContextTakeover := ctx.clientNoContextTakeover || ClientNoContextTakeover in info.params);
      var server := ParseWindowBits(info.params, ServerMaxWindowBits);
      var afterServer := flags.(serverMaxWindowBits := server.value);
      if !server.ok then (false, afterServer)
      else if server.present && server.value == 0 then (false, afterServer)
      else
        var client := ParseWindowBits(info.params, ClientMaxWindowBits);
        var afterClient := afterServer.(clientMaxWindowBits := client.value);
        if !client.ok then (false, afterClient)
        else
          (true, afterClient.(
            serverMaxWindowBits := if afterClient.serverMaxWindowBits <= 0 then 15 else afterClient.serverMaxWindowBits,
            clientMaxWindowBits := if afterClient.clientMaxWindowBits <= 0 then 15 else afterClient.clientMaxWindowBits))
  }

  /** The window bits an accepted offer asks for, 15 when it names none. */
  function BitsOrDefault(params: map<string, string>, param: string): int {
    if param in params && params[param] != "" then Atoi(params[param]) else 15
  }

  /** An accepted offer's window bits are the ones it names, or 15. */
  lemma {:induction false} AcceptedWindowBits(info: ExtensionInfo, ctx: Context)
    requires ParsePermessageDeflate(info, ctx).0
    ensures ParsePermessageDeflate(info, ctx).1.serverMaxWindowBits == BitsOrDefault(info.params, ServerMaxWindowBits)
    ensures ParsePermessageDeflate(info, ctx).1.clientMaxWindowBits == BitsOrDefault(info.params, ClientMaxWindowBits)
  {
  }

  /** `server_max_window_bits` without a value is refused, `client_max_window_bits` without a
      value is accepted and means 15. */
  lemma {:induction false} BareWindowBits(ctx: Context)
    ensures !ParsePermessageDeflate(WebSocketIetf.ExtensionInfo(DeflateName, map[ServerMaxWindowBits := ""]), ctx).0
    ensures ParsePermessageDeflate(WebSocketIetf.ExtensionInfo(DeflateName, map[ClientMaxWindowBits := ""]), ctx).0
    ensures ParsePermessageDeflate(WebSocketIetf.ExtensionInfo(DeflateName, map[ClientMaxWindowBits := ""]), ctx).1.clientMaxWindowBits == 15
  {
    assert ServerMaxWindowBits != ClientMaxWindowBits;
  }

  // ---------------------------------------------------------------------------
  // handle
  // ---------------------------------------------------------------------------

  /** Every comma-separated offer of the `sec-websocket-extensions` header, parsed. */
  function Offers(h: RequestHeaders): seq<ExtensionInfo> {
    match Lookup(h, "sec-websocket-extensions")
    case None => []
    case Some(v) => seq(|Split(v, ',')|, i requires 0 <= i < |Split(v, ',')| => ParseExtensionInfo(Split(v, ',')[i]))
  }

  /** A permessage-deflate offer must be acceptable; other offers are passed over. */
  predicate Acceptable(info: ExtensionInfo) {
    WebSocketIetf.IsDeflateOffer(info) ==> OfferOk(info)
  }

  predicate All<T>(xs: seq<T>, p: T -> bool) {
    forall i | 0 <= i < |xs| :: p(xs[i])
  }

  predicate Any<T>(xs: seq<T>, p: T -> bool) {
    exists i | 0 <= i < |xs| :: p(xs[i])
  }

  lemma {:induction false} Cons<T>(xs: seq<T>, p: T -> bool)
    requires |xs| > 0
    ensures All(xs, p) <==> p(xs[0]) && All(xs[1..], p)
    ensures Any(xs, p) <==> p(xs[0]) || Any(xs[1..], p)
  {
    assert forall i | 1 <= i < |xs| :: xs[i] == xs[1..][i - 1];
    if Any(xs[1..], p) {
      var i :| 0 <= i < |xs[1..]| && p(xs[1..][i]);
      assert p(xs[i + 1]);
    }
  }

  /** Every permessage-deflate offer among `offers` is acceptable. */
  predicate AllOffersOk(offers: seq<ExtensionInfo>) {
    All(offers, Acceptable)
  }

  predicate SomeDeflateOffer(offers: seq<ExtensionInfo>) {
    Any(offers, WebSocketIetf.IsDeflateOffer)
  }

  /** The offers in turn: each permessage-deflate one is folded into the context, and the first
      refused one ends the walk. */
  function Negotiate(offers: seq<ExtensionInfo>, ctx: Context): (r: (bool, Context))
    ensures r.0 <==> AllOffersOk(offers)
    ensures !SomeDeflateOffer(offers) ==> r == (true, ctx)
    decreases |offers|
  {
    if |offers| == 0 then (true, ctx)
    else
      Cons(offers, Acceptable);
      Cons(offers, WebSocketIetf.IsDeflateOffer);
      if WebSocketIetf.IsDeflateOffer(offers[0]) then
        var first := ParsePermessageDeflate(offers[0], ctx);
        if !first.0 then first else Negotiate(offers[1..], first.1)
      else Negotiate(offers[1..], ctx)
  }

  /** Negotiation never switches permessage-deflate off, and a successful one over at least one
      permessage-deflate offer leaves it on with both window bits within 8..15. */
  lemma {:induction false} NegotiatedBits(offers: seq<ExtensionInfo>, ctx: Context)
    ensures ctx.permessageDeflate ==> Negotiate(offers, ctx).1.permessageDeflate
    ensures var r := Negotiate(offers, ctx);
      r.0 && SomeDeflateOffer(offers) ==>
        r.1.permessageDeflate && 8 <= r.1.serverMaxWindowBits <= 15 && 8 <= r.1.clientMaxWindowBits <= 15
    decreases |offers|
  {
    if |offers| > 0 {
      Cons(offers, WebSocketIetf.IsDeflateOffer);
      if WebSocketIetf.IsDeflateOffer(offers[0]) {
        var first := ParsePermessageDeflate(offers[0], ctx);
        if first.0 {
          NegotiatedBits(offers[1..], first.1);
        }
      } else {
        NegotiatedBits(offers[1..], ctx);
      }
    }
  }

  /** The parameters the response announces, in the source's order: the two flags the context
      holds, then each window size that is not 0. */
  function ResponseParams(ctx: Context): seq<string> {
    Optional(ctx.clientNoContextTakeover, ClientNoContextTakeover)
    + Optional(ctx.serverNoContextTakeover, ServerNoContextTakeover)
    + Optional(ctx.serverMaxWindowBits != 0, SizeParam(ServerMaxWindowBits, ctx.serverMaxWindowBits))
    + Optional(ctx.clientMaxWindowBits != 0, SizeParam(ClientMaxWindowBits, ctx.clientMaxWindowBits))
  }

  /** One parameter when `present`, none otherwise. */
  function Optional(present: bool, param: string): seq<string> {
    if present then [param] else []
  }

  /** A window-size parameter, `name=bits`. */
  function SizeParam(name: string, bits: int): string {
    name + "=" + IntToDecimal(bits)
  }

  /** Each parameter after "; ". */
  function Announce(params: seq<string>): (s: string)
    decreases |params|
  {
    if |params| == 0 then "" else "; " + params[0] + Announce(params[1..])
  }

  /** The response value: the extension name, then the parameters. */
  function ResponseValue(ctx: Context): (s: string)
    ensures |s| >= |DeflateName| && s[..|DeflateName|] == DeflateName
  {
    DeflateName + Announce(ResponseParams(ctx))
  }

  datatype HandleResult = HandleResult(ok: bool, context: Context, headers: ResponseHeaders)

  /** `handle`: negotiate; a refusal returns at once, with no header. Otherwise, when there are
      response headers to write to and permessage-deflate is on, one extension header is
      added. */
  function Handle(h: RequestHeaders, respond: bool, ctx: Context): (r: HandleResult)
    ensures r.ok <==> AllOffersOk(Offers(h))
    ensures r.context == Negotiate(Offers(h), ctx).1
    ensures |r.headers| <= 1
    ensures r.headers != [] <==> r.ok && respond && r.context.permessageDeflate
    ensures r.headers != [] ==> r.headers[0] == ("Sec-WebSocket-Extensions", ResponseValue(r.context))
  {
    var negotiated := Negotiate(Offers(h), ctx);
    if !negotiated.0 then HandleResult(false, negotiated.1, [])
    else if respond && negotiated.1.permessageDeflate then
      HandleResult(true, negotiated.1, [("Sec-WebSocket-Extensions", ResponseValue(negotiated.1))])
    else HandleResult(true, negotiated.1, [])
  }

  /** `isValid`: `handle` on a fresh context with nowhere to write, so nothing is ever
      written; the headers are valid exactly when every permessage-deflate offer is. */
  function IsValid(h: RequestHeaders): (ok: bool)
    ensures ok <==> AllOffersOk(Offers(h))
  {
    var r := Handle(h, false, Initial);
    assert r.headers == [];
    r.ok
  }

  /** `handshake`: `handle` with somewhere to write; its verdict is not looked at. */
  function Handshake(h: RequestHeaders, ctx: Context): (r: (Context, ResponseHeaders))
    ensures r.0 == Negotiate(Offers(h), ctx).1
    ensures |r.1| <= 1
  {
    var out := Handle(h, true, ctx);
    (out.context, out.headers)
  }

  /** Headers without `sec-websocket-extensions` are valid, and a handshake for them adds a
      header only if the context already had permessage-deflate on. */
  lemma {:induction false} NoOffersNoChange(h: RequestHeaders, ctx: Context)
    requires Lookup(h, "sec-websocket-extensions").None?
    ensures IsValid(h)
    ensures Handshake(h, ctx).0 == ctx
    ensures Handshake(h, ctx).1 != [] <==> ctx.permessageDeflate
  {
  }

  // ---------------------------------------------------------------------------
  // the response value read back as an offer
  // ---------------------------------------------------------------------------

  /** Each parameter with the space "; " leaves after the ';'. */
  function Spaced(params: seq<string>): (r: seq<string>)
    ensures |r| == |params| && forall i | 0 <= i < |params| :: r[i] == " " + params[i]
  {
    seq(|params|, i requires 0 <= i < |params| => " " + params[i])
  }

  predicate NoChar(s: string, c: char) {
    forall i | 0 <= i < |s| :: s[i] != c
  }

  /** A parameter as the response writes it: not empty, without ';', and without white space at
      either end. */
  predicate PlainParam(p: string) {
    |p| > 0 && NoChar(p, ';') && !IsSpace(p[0]) && !IsSpace(p[|p| - 1])
  }

  predicate AllPlain(params: seq<string>) {
    forall i | 0 <= i < |params| :: PlainParam(params[i])
  }

  /** A name, which also has no '='. */
  predicate PlainName(name: string) {
    PlainParam(name) && NoChar(name, '=')
  }

  lemma {:induction false} NamesArePlain()
    ensures PlainName(DeflateName) && PlainName(ClientNoContextTakeover) && PlainName(ServerNoContextTakeover)
    ensures PlainName(ServerMaxWindowBits) && PlainName(ClientMaxWindowBits)
  {
    DeflateNamePlain();
    ClientFlagPlain();
    ServerFlagPlain();
    ServerSizePlain();
    ClientSizePlain();
  }

  lemma {:induction false} DeflateNamePlain() ensures PlainName(DeflateName) {}
  lemma {:induction false} ClientFlagPlain() ensures PlainName(ClientNoContextTakeover) {}
  lemma {:induction false} ServerFlagPlain() ensures PlainName(ServerNoContextTakeover) {}
  lemma {:induction false} ServerSizePlain() ensures PlainName(ServerMaxWindowBits) {}
  lemma {:induction false} ClientSizePlain() ensures PlainName(ClientMaxWindowBits) {}

  /** The four parameter names are distinct. */
  lemma {:induction false} NamesDistinct()
    ensures ClientNoContextTakeover != ServerNoContextTakeover
    ensures ServerMaxWindowBits != ClientNoContextTakeover && ServerMaxWindowBits != ServerNoContextTakeover
    ensures ClientMaxWindowBits != ClientNoContextTakeover && ClientMaxWindowBits != ServerNoContextTakeover
    ensures ClientMaxWindowBits != ServerMaxWindowBits
  {
    assert ClientNoContextTakeover[0] != ServerNoContextTakeover[0];
    assert ServerMaxWindowBits[7] != ServerNoContextTakeover[7];
    assert ClientMaxWindowBits[7] != ClientNoContextTakeover[7];
    assert ClientMaxWindowBits[0] != ServerMaxWindowBits[0];
  }

  /** Split on ';', a name followed by announced parameters gives back the name and each
      parameter with its leading space. */
  lemma {:induction false} SplitAnnounced(name: string, params: seq<string>)
    requires NoChar(name, ';') && AllPlain(params)
    ensures Split(name + Announce(params), ';') == [name] + Spaced(params)
    decreases |params|
  {
    if |params| == 0 {
      assert name + "" == name;
      SplitWithoutDelimiter(name, ';');
    } else {
      var next := " " + params[0];
      assert PlainParam(params[0]);
      assert name + Announce(params) == name + [';'] + (next + Announce(params[1..]));
      SplitAfter(name, next + Announce(params[1..]), ';');
      assert AllPlain(params[1..]) by {
        forall i | 0 <= i < |params[1..]| ensures PlainParam(params[1..][i]) {
          assert params[1..][i] == params[i + 1];
        }
      }
      SplitAnnounced(next, params[1..]);
      assert Spaced(params) == [next] + Spaced(params[1..]);
    }
  }

  /** Trimming takes the spaces off again. */
  lemma {:induction false} TrimSpaced(params: seq<string>)
    requires AllPlain(params)
    ensures TrimAll(Spaced(params)) == params
  {
    forall i | 0 <= i < |params|
      ensures TrimAll(Spaced(params))[i] == params[i]
    {
      assert PlainParam(params[i]);
      TrimLeadingSpace(params[i]);
    }
  }

  /** A window size of 8 to 15 is written as one or two digits that read back as it. */
  lemma {:induction false} SizeDigits(n: int)
    requires 8 <= n <= 15
    ensures IntToDecimal(n) == NatToDecimal(n) && 0 < |NatToDecimal(n)| <= 2
    ensures NoChar(NatToDecimal(n), ';') && NoChar(NatToDecimal(n), '=') && Atoi(NatToDecimal(n)) == n
    ensures !IsSpace(NatToDecimal(n)[0]) && !IsSpace(NatToDecimal(n)[|NatToDecimal(n)| - 1])
  {
    DecimalLength(n, 2);
    AtoiOfDecimal(n);
  }

  /** A flag parameter: its own name, with the empty value. */
  lemma {:induction false} FlagParamReads(name: string)
    requires PlainName(name)
    ensures WebSocketIetf.ParamKey(name, true) == name && WebSocketIetf.ParamValue(name, true) == ""
  {
    SplitWithoutDelimiter(name, '=');
    TrimKeeps(name);
  }

  /** A window-size parameter: plain, named by its name, with the digits as its value. */
  lemma {:induction false} SizeParamReads(name: string, n: int)
    requires PlainName(name) && 8 <= n <= 15
    ensures PlainParam(SizeParam(name, n))
    ensures WebSocketIetf.ParamKey(SizeParam(name, n), true) == name
    ensures WebSocketIetf.ParamValue(SizeParam(name, n), true) == NatToDecimal(n)
  {
    var digits := NatToDecimal(n);
    SizeDigits(n);
    var p := SizeParam(name, n);
    assert p == name + ['='] + digits;
    assert NoChar(p, ';') by {
      forall i | 0 <= i < |p| ensures p[i] != ';' {
        if i < |name| { assert p[i] == name[i]; }
        else if i > |name| { assert p[i] == digits[i - |name| - 1]; }
      }
    }
    assert p[|p| - 1] == digits[|digits| - 1];
    SplitAfter(name, digits, '=');
    SplitWithoutDelimiter(digits, '=');
    TrimKeeps(name);
    TrimKeeps(digits);
  }

  lemma {:induction false} ParamsSnoc(parts: seq<string>, last: string)
    ensures WebSocketIetf.Params(parts + [last], true)
            == WebSocketIetf.Params(parts, true)[WebSocketIetf.ParamKey(last, true) := WebSocketIetf.ParamValue(last, true)]
  {
    assert (parts + [last])[..|parts|] == parts;
  }

  lemma {:induction false} AllPlainAppend(a: seq<string>, b: seq<string>)
    requires AllPlain(a) && AllPlain(b)
    ensures AllPlain(a + b)
  {
    forall i | 0 <= i < |a + b| ensures PlainParam((a + b)[i]) {
      if i < |a| { assert (a + b)[i] == a[i]; } else { assert (a + b)[i] == b[i - |a|]; }
    }
  }

  /** A parameter that is present sets its key; an absent one leaves the map alone. */
  lemma {:induction false} ParamsOptional(parts: seq<string>, present: bool, param: string, key: string, value: string)
    requires WebSocketIetf.ParamKey(param, true) == key && WebSocketIetf.ParamValue(param, true) == value
    ensures WebSocketIetf.Params(parts + Optional(present, param), true)
            == if present then WebSocketIetf.Params(parts, true)[key := value] else WebSocketIetf.Params(parts, true)
  {
    if present {
      ParamsSnoc(parts, param);
    } else {
      assert parts + [] == parts;
    }
  }

  lemma {:induction false} AllPlainOptional(parts: seq<string>, present: bool, param: string)
    requires AllPlain(parts) && PlainParam(param)
    ensures AllPlain(parts + Optional(present, param))
  {
    AllPlainAppend(parts, Optional(present, param));
  }

  /** The two flags' part of the map: each key is there exactly when its flag was announced. */
  lemma {:induction false} FlagsMap(c: bool, s: bool, cf: string, sf: string)
    requires PlainName(cf) && PlainName(sf) && cf != sf
    ensures var p := Optional(c, cf) + Optional(s, sf);
            var m := WebSocketIetf.Params(p, true);
            AllPlain(p) && (cf in m <==> c) && (sf in m <==> s)
  {
    FlagParamReads(cf);
    FlagParamReads(sf);
    var p0 := [] + Optional(c, cf);
    assert p0 == Optional(c, cf);
    ParamsOptional([], c, cf, cf, "");
    AllPlainOptional([], c, cf);
    ParamsOptional(p0, s, sf, sf, "");
    AllPlainOptional(p0, s, sf);
    FlagKeys(WebSocketIetf.Params([], true), WebSocketIetf.Params(p0, true),
             WebSocketIetf.Params(p0 + Optional(s, sf), true), c, s, cf, sf);
  }

  lemma {:induction false} FlagKeys(m0: map<string, string>, m1: map<string, string>, m2: map<string, string>,
                                    c: bool, s: bool, cf: string, sf: string)
    requires m0 == map[] && cf != sf
    requires m1 == (if c then m0[cf := ""] else m0) && m2 == (if s then m1[sf := ""] else m1)
    ensures (cf in m2 <==> c) && (sf in m2 <==> s)
  {
  }

  /** The two window sizes' part: each is an update of the map built so far. */
  lemma {:induction false} SizesMap(p1: seq<string>, ss: string, cs: string, serverBits: int, clientBits: int)
    requires AllPlain(p1) && PlainName(ss) && PlainName(cs)
    requires 8 <= serverBits <= 15 && 8 <= clientBits <= 15
    ensures var p := p1 + Optional(serverBits != 0, SizeParam(ss, serverBits))
                     + Optional(clientBits != 0, SizeParam(cs, clientBits));
            AllPlain(p)
            && WebSocketIetf.Params(p, true)
               == WebSocketIetf.Params(p1, true)[ss := NatToDecimal(serverBits)][cs := NatToDecimal(clientBits)]
  {
    SizeParamReads(ss, serverBits);
    SizeParamReads(cs, clientBits);
    var p2 := p1 + Optional(serverBits != 0, SizeParam(ss, serverBits));
    ParamsOptional(p1, serverBits != 0, SizeParam(ss, serverBits), ss, NatToDecimal(serverBits));
    AllPlainOptional(p1, serverBits != 0, SizeParam(ss, serverBits));
    ParamsOptional(p2, clientBits != 0, SizeParam(cs, clientBits), cs, NatToDecimal(clientBits));
    AllPlainOptional(p2, clientBits != 0, SizeParam(cs, clientBits));
  }

  /** Two optional flags, then two window sizes, under distinct names given as parameters: all
      plain, and the map they make holds a flag exactly when it was given, and each size's
      digits. */
  lemma {:induction false} ParamsMapOf(c: bool, s: bool, cf: string, sf: string, ss: string, cs: string,
                                       serverBits: int, clientBits: int)
    requires PlainName(cf) && PlainName(sf) && PlainName(ss) && PlainName(cs)
    requires cf != sf && ss != cf && ss != sf && cs != cf && cs != sf && cs != ss
    requires 8 <= serverBits <= 15 && 8 <= clientBits <= 15
    ensures var params := Optional(c, cf) + Optional(s, sf)
                          + Optional(serverBits != 0, SizeParam(ss, serverBits))
                          + Optional(clientBits != 0, SizeParam(cs, clientBits));
            var m := WebSocketIetf.Params(params, true);
            && AllPlain(params)
            && (cf in m <==> c) && (sf in m <==> s)
            && ss in m && m[ss] == NatToDecimal(serverBits)
            && cs in m && m[cs] == NatToDecimal(clientBits)
  {
    FlagsMap(c, s, cf, sf);
    var p1 := Optional(c, cf) + Optional(s, sf);
    SizesMap(p1, ss, cs, serverBits, clientBits);
    var params := p1 + Optional(serverBits != 0, SizeParam(ss, serverBits))
                  + Optional(clientBits != 0, SizeParam(cs, clientBits));
    SizeKeys(WebSocketIetf.Params(p1, true), WebSocketIetf.Params(params, true), c, s, cf, sf, ss, cs,
             NatToDecimal(serverBits), NatToDecimal(clientBits));
  }

  lemma {:induction false} SizeKeys(m1: map<string, string>, m: map<string, string>, c: bool, s: bool,
                                    cf: string, sf: string, ss: string, cs: string, sv: string, cv: string)
    requires (cf in m1 <==> c) && (sf in m1 <==> s)
    requires ss != cf && ss != sf && cs != cf && cs != sf && cs != ss
    requires m == m1[ss := sv][cs := cv]
    ensures (cf in m <==> c) && (sf in m <==> s)
    ensures ss in m && m[ss] == sv && cs in m && m[cs] == cv
  {
  }

  /** The parameter map of the response's parameters. */
  lemma {:induction false} ResponseParamsMap(ctx: Context)
    requires 8 <= ctx.serverMaxWindowBits <= 15 && 8 <= ctx.clientMaxWindowBits <= 15
    ensures AllPlain(ResponseParams(ctx))
    ensures var m := WebSocketIetf.Params(ResponseParams(ctx), true);
            && (ClientNoContextTakeover in m <==> ctx.clientNoContextTakeover)
            && (ServerNoContextTakeover in m <==> ctx.serverNoContextTakeover)
            && ServerMaxWindowBits in m && m[ServerMaxWindowBits] == NatToDecimal(ctx.serverMaxWindowBits)
            && ClientMaxWindowBits in m && m[ClientMaxWindowBits] == NatToDecimal(ctx.clientMaxWindowBits)
  {
    NamesArePlain();
    NamesDistinct();
    ParamsMapOf(ctx.clientNoContextTakeover, ctx.serverNoContextTakeover,
                ClientNoContextTakeover, ServerNoContextTakeover, ServerMaxWindowBits, ClientMaxWindowBits,
                ctx.serverMaxWindowBits, ctx.clientMaxWindowBits);
  }

  /** The response value, read by the same offer parser, names permessage-deflate and is
      accepted with exactly the flags and window sizes the context holds: the client is told
      what was agreed. Every context a successful negotiation produces qualifies (see
      `NegotiatedBits`). */
  lemma {:induction false} ResponseReadsBack(ctx: Context)
    requires ctx.permessageDeflate
    requires 8 <= ctx.serverMaxWindowBits <= 15 && 8 <= ctx.clientMaxWindowBits <= 15
    ensures ParseExtensionInfo(ResponseValue(ctx)).extension == DeflateName
    ensures ParsePermessageDeflate(ParseExtensionInfo(ResponseValue(ctx)), Initial) == (true, ctx)
  {
    var params := ResponseParams(ctx);
    ResponseParamsMap(ctx);
    DeflateNamePlain();
    ReadBackInfo(DeflateName, params, ResponseValue(ctx));
    OfferOfMap(WebSocketIetf.Params(params, true), ctx);
  }

  /** An offer whose map holds the context's flags and its window sizes in decimal is read as
      that context. */
  lemma {:induction false} OfferOfMap(m: map<string, string>, ctx: Context)
    requires ctx.permessageDeflate
    requires 8 <= ctx.serverMaxWindowBits <= 15 && 8 <= ctx.clientMaxWindowBits <= 15
    requires (ClientNoContextTakeover in m <==> ctx.clientNoContextTakeover)
             && (ServerNoContextTakeover in m <==> ctx.serverNoContextTakeover)
    requires ServerMaxWindowBits in m && m[ServerMaxWindowBits] == NatToDecimal(ctx.serverMaxWindowBits)
    requires ClientMaxWindowBits in m && m[ClientMaxWindowBits] == NatToDecimal(ctx.clientMaxWindowBits)
    ensures ParsePermessageDeflate(WebSocketIetf.ExtensionInfo(DeflateName, m), Initial) == (true, ctx)
  {
    WindowBitsOf(m, ServerMaxWindowBits, ctx.serverMaxWindowBits);
    WindowBitsOf(m, ClientMaxWindowBits, ctx.clientMaxWindowBits);
  }

  lemma {:induction false} WindowBitsOf(m: map<string, string>, name: string, n: int)
    requires 8 <= n <= 15 && name in m && m[name] == NatToDecimal(n)
    ensures ParseWindowBits(m, name) == WindowBits(true, true, n)
  {
    SizeDigits(n);
  }

  /** The offer parser reads the name and the parameters of an announced value. */
  lemma {:induction false} ReadBackInfo(name: string, params: seq<string>, value: string)
    requires PlainName(name) && AllPlain(params) && value == name + Announce(params)
    ensures ParseExtensionInfo(value) == WebSocketIetf.ExtensionInfo(name, WebSocketIetf.Params(params, true))
  {
    TrimmedParts(name, params, value);
    PartsRead(value, [name] + params);
  }

  lemma {:induction false} TrimmedParts(name: string, params: seq<string>, value: string)
    requires PlainName(name) && AllPlain(params) && value == name + Announce(params)
    ensures TrimAll(Split(value, ';')) == [name] + params
  {
    SplitAnnounced(name, params);
    TrimAllCons(name, Spaced(params));
    TrimSpaced(params);
    TrimKeeps(name);
  }

  lemma {:induction false} TrimAllCons(first: string, rest: seq<string>)
    ensures TrimAll([first] + rest) == [Trim(first)] + TrimAll(rest)
  {
    var whole := TrimAll([first] + rest);
    var pieces := [Trim(first)] + TrimAll(rest);
    forall i | 0 <= i < |whole|
      ensures whole[i] == pieces[i]
    {
      if i > 0 {
        assert ([first] + rest)[i] == rest[i - 1];
      }
    }
  }

  lemma {:induction false} PartsRead(value: string, parts: seq<string>)
    requires TrimAll(Split(value, ';')) == parts
    ensures ParseExtensionInfo(value) == WebSocketIetf.ExtensionInfo(parts[0], WebSocketIetf.Params(parts[1..], true))
  {
  }
}
