/** `HttpRequest` of src/httprequest.cpp: the header callbacks that `http_parser` drives, the
    header queries, and the decision taken once the application has seen the headers. The
    parser itself and `http_should_keep_alive` are not part of this model; the latter is a
    parameter. */
module HttpRequest {
  import opened Wrappers
  import opened Ascii
  import opened Constants
  import Utils
  import HttpResponse

  datatype Request = Request(url: string, headers: RequestHeaders, lastHeaderField: string,
                             ignoreNewData: bool)

  // ---------------------------------------------------------------------------
  // http_parser callbacks
  // ---------------------------------------------------------------------------

  /** `_on_message_begin`: every header of an earlier message is forgotten. */
  function OnMessageBegin(r: Request): (s: Request)
    ensures forall name :: FindHeader(s.headers, name).None?
    ensures s.(headers := r.headers) == r
  {
    r.(headers := map[])
  }

  /** `_on_url`. */
  function OnUrl(r: Request, at: string): (s: Request)
    ensures s.url == at && s.(url := r.url) == r
  {
    r.(url := at)
  }

  /** `_on_header_field`: the parser may deliver a name in pieces; they are appended to the
      pending name. */
  function OnHeaderField(r: Request, piece: string): (s: Request)
    ensures r.lastHeaderField <= s.lastHeaderField && |s.lastHeaderField| == |r.lastHeaderField| + |piece|
    ensures s.lastHeaderField[|r.lastHeaderField|..] == piece
    ensures s.(lastHeaderField := r.lastHeaderField) == r
  {
    r.(lastHeaderField := r.lastHeaderField + piece)
  }

  function Concat(pieces: seq<string>): string {
    if |pieces| == 0 then "" else pieces[0] + Concat(pieces[1..])
  }

  /** The name pieces of several `_on_header_field` calls. */
  function OnHeaderFields(r: Request, pieces: seq<string>): Request
    decreases |pieces|
  {
    if |pieces| == 0 then r else OnHeaderFields(OnHeaderField(r, pieces[0]), pieces[1..])
  }

  /** However the name is cut into pieces, the pending name grows by the whole of it. */
  lemma {:induction false} FieldPiecesAccumulate(r: Request, pieces: seq<string>)
    ensures OnHeaderFields(r, pieces).lastHeaderField == r.lastHeaderField + Concat(pieces)
    ensures OnHeaderFields(r, pieces).(lastHeaderField := r.lastHeaderField) == r
    decreases |pieces|
  {
    if |pieces| > 0 {
      FieldPiecesAccumulate(OnHeaderField(r, pieces[0]), pieces[1..]);
      assert r.lastHeaderField + pieces[0] + Concat(pieces[1..]) == r.lastHeaderField + Concat(pieces);
    }
  }

  /** The value `_on_header_value` stores: a repeat of a header with a non-empty value joins the
      two with a comma, an empty repeat keeps the earlier value, and a repeat of an empty value
      takes the new one. */
  function MergedValue(previous: Option<string>, value: string): (v: string)
    ensures previous.None? ==> v == value
    ensures previous.Some? && |previous.value| > 0 && |value| > 0 ==> v == previous.value + "," + value
    ensures previous.Some? && |previous.value| > 0 && |value| == 0 ==> v == previous.value
    ensures previous.Some? && |previous.value| == 0 ==> v == value
  {
    match previous
    case None => value
    case Some(earlier) =>
      if |earlier| > 0 then (if |value| > 0 then earlier + "," + value else earlier) else value
  }

  /** `_on_header_value`: the pending name gets the merged value, and is then cleared. */
  function OnHeaderValue(r: Request, value: string): (s: Request)
    ensures s.lastHeaderField == ""
    ensures FindHeader(s.headers, r.lastHeaderField)
            == Some(MergedValue(FindHeader(r.headers, r.lastHeaderField), value))
    ensures forall n :: !Utils.EqualsIgnoreCase(n, r.lastHeaderField) ==>
              FindHeader(s.headers, n) == FindHeader(r.headers, n)
    ensures s.url == r.url && s.ignoreNewData == r.ignoreNewData
  {
    var merged := MergedValue(FindHeader(r.headers, r.lastHeaderField), value);
    r.(headers := PutHeader(r.headers, r.lastHeaderField, merged), lastHeaderField := "")
  }

  // ---------------------------------------------------------------------------
  // a header sent several times
  // ---------------------------------------------------------------------------

  /** The same header name followed by each value in turn. */
  function Repeated(r: Request, name: string, values: seq<string>): Request
    decreases |values|
  {
    if |values| == 0 then r
    else OnHeaderValue(OnHeaderField(Repeated(r, name, values[..|values| - 1]), name),
                       values[|values| - 1])
  }

  function NonEmpty(values: seq<string>): (r: seq<string>)
    ensures forall i | 0 <= i < |r| :: |r[i]| > 0
  {
    if |values| == 0 then []
    else (if |values[0]| > 0 then [values[0]] else []) + NonEmpty(values[1..])
  }

  lemma {:induction false} NonEmptySnoc(values: seq<string>, v: string)
    ensures NonEmpty(values + [v]) == NonEmpty(values) + (if |v| > 0 then [v] else [])
  {
    if |values| == 0 {
      assert values + [v] == [v];
    } else {
      assert (values + [v])[1..] == values[1..] + [v];
      NonEmptySnoc(values[1..], v);
    }
  }

  lemma {:induction false} JoinSnoc(parts: seq<string>, v: string, d: char)
    requires |parts| >= 1
    ensures Join(parts + [v], d) == Join(parts, d) + [d] + v
    ensures |Join(parts, d)| >= |parts[0]|
  {
    if |parts| > 1 {
      assert (parts + [v])[1..] == parts[1..] + [v];
      JoinSnoc(parts[1..], v, d);
    }
  }

  /** The comma-joined non-empty values: how a header sent several times reads. */
  function Combined(values: seq<string>): string {
    var kept := NonEmpty(values);
    if |kept| == 0 then "" else Join(kept, ',')
  }

  /** A header first seen here and then repeated with the given values reads as the
      comma-joined list of its non-empty values, whatever the order of empty and non-empty
      values. */
  lemma {:induction false} RepeatedHeaderJoins(r: Request, name: string, values: seq<string>)
    requires r.lastHeaderField == "" && FindHeader(r.headers, name).None?
    ensures Repeated(r, name, values).lastHeaderField == ""
    ensures FindHeader(Repeated(r, name, values).headers, name)
            == if |values| == 0 then None else Some(Combined(values))
    decreases |values|
  {
    if |values| > 0 {
      var n := |values| - 1;
      var earlier := values[..n];
      var v := values[n];
      assert earlier + [v] == values;
      RepeatedHeaderJoins(r, name, earlier);
      var prev := Repeated(r, name, earlier);
      var before := OnHeaderField(prev, name);
      assert before.lastHeaderField == name && before.headers == prev.headers;
      var after := OnHeaderValue(before, v);
      assert Repeated(r, name, values) == after;
      assert FindHeader(after.headers, name) == Some(MergedValue(FindHeader(prev.headers, name), v));
      CombinedSnoc(earlier, v);
    }
  }

  /** One more value merges into the earlier ones as `_on_header_value` merges it. */
  lemma {:induction false} CombinedSnoc(earlier: seq<string>, v: string)
    ensures Combined(earlier + [v])
            == MergedValue(if |earlier| == 0 then None else Some(Combined(earlier)), v)
  {
    NonEmptySnoc(earlier, v);
    var kept := NonEmpty(earlier);
    if |kept| > 0 {
      assert |earlier| > 0;
      JoinSnoc(kept, v, ',');
      assert |kept[0]| > 0;
      var c := Join(kept, ',');
      assert Combined(earlier) == c && |c| > 0;
      if |v| > 0 {
        assert NonEmpty(earlier + [v]) == kept + [v];
        assert Combined(earlier + [v]) == c + "," + v;
      } else {
        assert NonEmpty(earlier + [v]) == kept;
      }
    } else if |v| > 0 {
      assert NonEmpty(earlier + [v]) == [v];
    }
  }

  // ---------------------------------------------------------------------------
  // header queries
  // ---------------------------------------------------------------------------

  /** `_hasHeader(name)`: the lookup ignores the case of the name. */
  function HasHeader(r: Request, name: string): (b: bool)
    ensures b <==> HeaderKey(name) in r.headers
  {
    FindHeader(r.headers, name).Some?
  }

  /** `_hasHeader(name, value, ci)`: the value compares exactly, or up to case when `ci`. */
  function HasHeaderValue(r: Request, name: string, value: string, ci: bool): (b: bool)
    ensures b <==> HeaderKey(name) in r.headers
                   && (if ci then Utils.EqualsIgnoreCase(r.headers[HeaderKey(name)], value)
                       else r.headers[HeaderKey(name)] == value)
    ensures HasHeader(r, name) && FindHeader(r.headers, name).value == value ==> b
  {
    match FindHeader(r.headers, name)
    case None => false
    case Some(stored) => if ci then Utils.EqualsIgnoreCase(stored, value) else stored == value
  }

  // ---------------------------------------------------------------------------
  // _on_headers_complete_complete
  // ---------------------------------------------------------------------------

  /** The request afterwards, the response written (if any) and the code handed back to the
      parser: 3 stops it after an early response. */
  datatype HeadersDone = HeadersDone(request: Request, written: Option<HttpResponse.Response>,
                                     parserResult: int)

  /** The names `_on_headers_complete_complete` asks for, spelled as the map stores them. */
  const ContentLengthKey: string := "content-length"
  const TransferEncodingKey: string := "transfer-encoding"
  const ExpectKey: string := "expect"

  /** `_hasHeader("Content-Length") || _hasHeader("Transfer-Encoding")`. */
  predicate BodyExpected(r: Request) {
    ContentLengthKey in r.headers || TransferEncodingKey in r.headers
  }

  /** `_hasHeader("Expect", "100-continue")`: the value compared case-sensitively. */
  predicate ExpectsContinue(r: Request) {
    ExpectKey in r.headers && r.headers[ExpectKey] == "100-continue"
  }

  /** Every spelling of the names, among them the source's "Content-Length",
      "Transfer-Encoding" and "Expect", finds the same entries as the stored keys. */
  lemma {:induction false} QueriesIgnoreCase(r: Request, contentLength: string, transferEncoding: string, expectName: string)
    requires HeaderKey(contentLength) == ContentLengthKey
    requires HeaderKey(transferEncoding) == TransferEncodingKey
    requires HeaderKey(expectName) == ExpectKey
    ensures BodyExpected(r) <==> HasHeader(r, contentLength) || HasHeader(r, transferEncoding)
    ensures ExpectsContinue(r) <==> HasHeaderValue(r, expectName, "100-continue", false)
  {
    HasHeaderByKey(r, contentLength, ContentLengthKey);
    HasHeaderByKey(r, transferEncoding, TransferEncodingKey);
    HasValueByKey(r, expectName, ExpectKey, "100-continue");
  }

  lemma {:induction false} HasHeaderByKey(r: Request, name: string, key: string)
    requires HeaderKey(name) == key
    ensures HasHeader(r, name) <==> key in r.headers
  {
  }

  lemma {:induction false} HasValueByKey(r: Request, name: string, key: string, value: string)
    requires HeaderKey(name) == key
    ensures HasHeaderValue(r, name, value, false) <==> key in r.headers && r.headers[key] == value
  {
  }

  /** `_on_headers_complete_complete`, with `http_should_keep_alive` as `keepAlive`. An early
      response is written and closes the connection when a body is still to come or the
      connection is not kept alive; otherwise `Expect: 100-continue` gets a 100 Continue. */
  function OnHeadersCompleteComplete(r: Request, response: Option<HttpResponse.Response>,
                                     keepAlive: bool): (d: HeadersDone)
    ensures d.request.url == r.url && d.request.headers == r.headers
    ensures d.request.lastHeaderField == r.lastHeaderField
    ensures d.parserResult == if response.Some? then 3 else 0
  {
    match response
    case Some(resp) =>
      if BodyExpected(r) || !keepAlive then
        HeadersDone(r.(ignoreNewData := true), Some(HttpResponse.CloseAfterWritten(resp)), 3)
      else
        HeadersDone(r, Some(resp), 3)
    case None =>
      if ExpectsContinue(r) then
        HeadersDone(r, Some(HttpResponse.NewResponse(100, "Continue", None)), 0)
      else
        HeadersDone(r, None, 0)
  }

  /** With an early response: it is written, and it is marked to close the connection, with
      further input ignored, exactly when a body is still to come or keep-alive is off. */
  lemma {:induction false} EarlyResponse(r: Request, response: HttpResponse.Response, keepAlive: bool)
    ensures var d := OnHeadersCompleteComplete(r, Some(response), keepAlive);
            var closing := BodyExpected(r) || !keepAlive;
            d.written.Some?
            && (d.request.ignoreNewData <==> r.ignoreNewData || closing)
            && (d.written.value.closeAfterWritten <==> response.closeAfterWritten || closing)
            && (!closing ==> d.written == Some(response))
  {
  }

  /** Without one: nothing changes, and a 100 Continue is written exactly when the request
      says `Expect: 100-continue`, the value compared case-sensitively. */
  lemma {:induction false} NoEarlyResponse(r: Request, keepAlive: bool)
    ensures var d := OnHeadersCompleteComplete(r, None, keepAlive);
            d.request == r
            && (d.written.Some? <==> ExpectsContinue(r))
            && (d.written.Some? ==> d.written.value == HttpResponse.NewResponse(100, "Continue", None))
  {
  }

  /** An early response to a request whose body has not been read says "Connection: close",
      and once written its `destroy` closes the connection. */
  lemma {:induction false} EarlyResponseCloses(r: Request, response: HttpResponse.Response, keepAlive: bool)
    requires BodyExpected(r)
    ensures var d := OnHeadersCompleteComplete(r, Some(response), keepAlive);
            d.request.ignoreNewData && HttpResponse.ClosesConnection(d.written.value, false)
            && HttpResponse.CountNamed(d.written.value.headers, "Connection") == 1
  {
  }
}
