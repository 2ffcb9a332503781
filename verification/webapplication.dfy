/** The request and response glue of src/webapplication.cpp: the CGI-style name of a request
    header, the status-line text, the Rook environment built from a request, the body source
    over an R raw vector, and the conversion of the application's response list into an
    `HttpResponse`. R values are modelled by the plain data they carry. */
module WebApplication {
  import opened Wrappers
  import opened Ascii
  import Utils
  import UvUtil
  import HttpResponse

  // ---------------------------------------------------------------------------
  // normalizeHeaderName
  // ---------------------------------------------------------------------------

  /** One character of `normalizeHeaderName`: '-' becomes '_', a lower-case letter its
      upper-case form. */
  function NormalizeChar(c: char): (r: char)
    ensures c == '-' ==> r == '_'
    ensures IsLower(c) ==> IsUpper(r) && r as int == c as int - 32
    ensures c != '-' && !IsLower(c) ==> r == c
  {
    if c == '-' then '_' else if IsLower(c) then (c as int - 32) as char else c
  }

  function NormalizeHeaderName(name: string): (r: string)
    ensures |r| == |name|
    ensures forall i | 0 <= i < |name| :: r[i] == NormalizeChar(name[i])
  {
    seq(|name|, i requires 0 <= i < |name| => NormalizeChar(name[i]))
  }

  /** What comes out has no '-' and no lower-case letter left, and every other character is
      the one that went in. */
  lemma {:induction false} NormalizedForm(name: string)
    ensures forall i | 0 <= i < |name| :: NormalizeHeaderName(name)[i] != '-'
    ensures forall i | 0 <= i < |name| :: !IsLower(NormalizeHeaderName(name)[i])
    ensures forall i | 0 <= i < |name| :: name[i] != '-' && !IsLower(name[i])
                                          ==> NormalizeHeaderName(name)[i] == name[i]
  {
  }

  lemma {:induction false} NormalizeIdempotent(name: string)
    ensures NormalizeHeaderName(NormalizeHeaderName(name)) == NormalizeHeaderName(name)
  {
    var n := NormalizeHeaderName(name);
    assert forall i | 0 <= i < |n| :: NormalizeChar(n[i]) == n[i];
  }

  /** Names equal up to ASCII case normalise alike, so the lower-cased keys under which the
      request headers are kept give the same environment names as the spelling received. */
  lemma {:induction false} NormalizeIgnoresCase(a: string, b: string)
    requires Utils.EqualsIgnoreCase(a, b)
    ensures NormalizeHeaderName(a) == NormalizeHeaderName(b)
  {
    assert |a| == |Utils.ToLower(a)| == |Utils.ToLower(b)| == |b|;
    forall i | 0 <= i < |a|
      ensures NormalizeChar(a[i]) == NormalizeChar(b[i])
    {
      assert LowerChar(a[i]) == Utils.ToLower(a)[i] == Utils.ToLower(b)[i] == LowerChar(b[i]);
    }
  }

  // ---------------------------------------------------------------------------
  // getStatusDescription
  // ---------------------------------------------------------------------------

  /** The reason phrases the table knows, spelled as the source spells them. */
  const StatusDescriptions: map<int, string> := map[
    100 := "Continue", 101 := "Switching Protocols",
    200 := "OK", 201 := "Created", 202 := "Accepted", 203 := "Non-Authoritative Information",
    204 := "No Content", 205 := "Reset Content", 206 := "Partial Content",
    300 := "Multiple Choices", 301 := "Moved Permanently", 302 := "Found", 303 := "See Other",
    304 := "Not Modified", 305 := "Use Proxy", 307 := "Temporary Redirect",
    400 := "Bad Request", 401 := "Unauthorized", 402 := "Payment Required",
    403 := "Forbidden", 404 := "Not Found", 405 := "Method Not Allowed",
    406 := "Not Acceptable", 407 := "Proxy Authentication Required",
    408 := "Request Timeout", 409 := "Conflict", 410 := "Gone", 411 := "Length Required",
    412 := "Precondition Failed", 413 := "Request Entity Too Large",
    414 := "Request-URI Too Long", 415 := "Unsupported Media Type",
    416 := "Requested Range Not Satisifable", 417 := "Expectation Failed",
    500 := "Internal Server Error", 501 := "Not Implemented", 502 := "Bad Gateway",
    503 := "Service Unavailable", 504 := "Gateway Timeout",
    505 := "HTTP Version Not Supported"]

  const Unknown: string := "Dunno"

  function GetStatusDescription(code: int): (r: string)
    ensures code in StatusDescriptions ==> r == StatusDescriptions[code]
    ensures code !in StatusDescriptions ==> r == Unknown
  {
    if code in StatusDescriptions then StatusDescriptions[code] else Unknown
  }

  /** "Dunno" is what an unlisted code gets and nothing else: no listed phrase is "Dunno". */
  lemma {:induction false} UnknownOnlyForUnlisted(code: int)
    ensures GetStatusDescription(code) == Unknown <==> code !in StatusDescriptions
  {
    if code in StatusDescriptions {
      assert StatusDescriptions[code][0] != 'D' || StatusDescriptions[code] != Unknown;
    }
  }

  // ---------------------------------------------------------------------------
  // requestToEnv
  // ---------------------------------------------------------------------------

  /** The URL split at its first '?': PATH_INFO before it, QUERY_STRING from it on. */
  function SplitUrl(url: string): (r: (string, string))
    ensures r.0 + r.1 == url
    ensures '?' !in r.0
    ensures r.1 == "" || r.1[0] == '?'
  {
    match FirstIndexOf(url, '?')
    case None => (url, "")
    case Some(i) =>
      assert url[..i] + url[i..] == url;
      (url[..i], url[i..])
  }

  /** Searching past a prefix that lacks the character. */
  lemma {:induction false} FirstIndexAfter(a: string, b: string, c: char)
    requires c !in a
    ensures FirstIndexOf(a + b, c) == if FirstIndexOf(b, c).Some?
                                      then Some(|a| + FirstIndexOf(b, c).value) else None
    decreases |a|
  {
    if |a| == 0 {
      assert a + b == b;
    } else {
      assert (a + b)[1..] == a[1..] + b;
      FirstIndexAfter(a[1..], b, c);
    }
  }

  /** Those three properties pin the split down: no other pair has them. */
  lemma {:induction false} SplitUrlUnique(url: string, path: string, query: string)
    requires path + query == url && '?' !in path && (query == "" || query[0] == '?')
    ensures SplitUrl(url) == (path, query)
  {
    FirstIndexAfter(path, query, '?');
    assert path == url[..|path|] && query == url[|path|..];
  }

  /** An `Address`: the host and the `unsigned short` port. */
  datatype Address = Address(host: string, port: nat)

  predicate ValidAddress(a: Address) {
    a.port < 0x1_0000
  }

  /** What `requestToEnv` reads from the request. The headers are given in the order the
      header map iterates over them. */
  datatype EnvRequest = EnvRequest(verb: string, url: string, server: Address,
                                   client: Address, headers: seq<(string, string)>)

  type Env = map<string, string>

  /** The environment name of a request header. */
  function EnvKey(name: string): (k: string)
    ensures |k| == |name| + 5 && k[..5] == "HTTP_"
  {
    "HTTP_" + NormalizeHeaderName(name)
  }

  /** The header loop: each header in turn is assigned under its environment name, so when two
      names normalise alike the later one wins. */
  function HeaderEnv(env: Env, hs: seq<(string, string)>): (r: Env)
    decreases |hs|
  {
    if |hs| == 0 then env
    else HeaderEnv(env, hs[..|hs| - 1])[EnvKey(hs[|hs| - 1].0) := hs[|hs| - 1].1]
  }

  /** A header no later header shadows lands in the environment with its own value. */
  lemma {:induction false} HeaderEnvLastWins(env: Env, hs: seq<(string, string)>, i: nat)
    requires i < |hs|
    requires forall j | i < j < |hs| :: EnvKey(hs[j].0) != EnvKey(hs[i].0)
    ensures EnvKey(hs[i].0) in HeaderEnv(env, hs)
    ensures HeaderEnv(env, hs)[EnvKey(hs[i].0)] == hs[i].1
    decreases |hs|
  {
    if i < |hs| - 1 {
      HeaderEnvLastWins(env, hs[..|hs| - 1], i);
    }
  }

  /** A name no header maps to keeps whatever it had; in particular no header adds a name that
      does not start with "HTTP_". */
  lemma {:induction false} HeaderEnvKeeps(env: Env, hs: seq<(string, string)>, k: string)
    requires forall j | 0 <= j < |hs| :: EnvKey(hs[j].0) != k
    ensures k in HeaderEnv(env, hs) <==> k in env
    ensures k in env ==> HeaderEnv(env, hs)[k] == env[k]
    decreases |hs|
  {
    if |hs| > 0 {
      HeaderEnvKeeps(env, hs[..|hs| - 1], k);
    }
  }

  /** Every name the loop adds is the environment name of some header. */
  lemma {:induction false} HeaderEnvAdds(env: Env, hs: seq<(string, string)>, k: string)
    requires k in HeaderEnv(env, hs) && k !in env
    ensures exists j | 0 <= j < |hs| :: EnvKey(hs[j].0) == k
    decreases |hs|
  {
    if |hs| > 0 && k != EnvKey(hs[|hs| - 1].0) {
      HeaderEnvAdds(env, hs[..|hs| - 1], k);
      var j :| 0 <= j < |hs| - 1 && EnvKey(hs[..|hs| - 1][j].0) == k;
      assert EnvKey(hs[j].0) == k;
    }
  }

  /** The fixed part of the environment. */
  function BaseEnv(req: EnvRequest): Env
    requires ValidAddress(req.server) && ValidAddress(req.client)
  {
    var (path, query) := SplitUrl(req.url);
    map[
      "REQUEST_METHOD" := req.verb,
      "SCRIPT_NAME" := "",
      "PATH_INFO" := path,
      "QUERY_STRING" := query,
      "rook.version" := "1.1-0",
      "rook.url_scheme" := "http",
      "SERVER_NAME" := req.server.host,
      "SERVER_PORT" := NatToDecimal(req.server.port),
      "REMOTE_ADDR" := req.client.host,
      "REMOTE_PORT" := NatToDecimal(req.client.port)]
  }

  /** `requestToEnv`: the path and the query string put the URL back together, and the
      request method is the verb, whatever the headers are. */
  function RequestToEnv(req: EnvRequest): (env: Env)
    requires ValidAddress(req.server) && ValidAddress(req.client)
    ensures "PATH_INFO" in env && "QUERY_STRING" in env
    ensures env["PATH_INFO"] + env["QUERY_STRING"] == req.url
    ensures "REQUEST_METHOD" in env && env["REQUEST_METHOD"] == req.verb
  {
    var base := BaseEnv(req);
    HeaderEnvSpares(base, req.headers, "PATH_INFO");
    HeaderEnvSpares(base, req.headers, "QUERY_STRING");
    HeaderEnvSpares(base, req.headers, "REQUEST_METHOD");
    HeaderEnv(base, req.headers)
  }

  /** Every header's name starts with "HTTP_", so the header loop leaves alone a name that
      does not start with 'H'. */
  lemma {:induction false} HeaderEnvSpares(env: Env, hs: seq<(string, string)>, k: string)
    requires |k| > 0 && k[0] != 'H'
    ensures k in HeaderEnv(env, hs) <==> k in env
    ensures k in env ==> HeaderEnv(env, hs)[k] == env[k]
  {
    forall j | 0 <= j < |hs|
      ensures EnvKey(hs[j].0) != k
    {
      assert EnvKey(hs[j].0)[0] == 'H';
    }
    HeaderEnvKeeps(env, hs, k);
  }

  /** The environment `requestToEnv` builds: the path and the query string put the URL back
      together, the fixed entries hold what the request says, and every header that no later
      header shadows is found under "HTTP_" and its normalised name. */
  lemma {:induction false} RequestToEnvHolds(req: EnvRequest)
    requires ValidAddress(req.server) && ValidAddress(req.client)
    ensures "PATH_INFO" in RequestToEnv(req) && "QUERY_STRING" in RequestToEnv(req)
    ensures RequestToEnv(req)["PATH_INFO"] + RequestToEnv(req)["QUERY_STRING"] == req.url
    ensures '?' !in RequestToEnv(req)["PATH_INFO"]
    ensures "REQUEST_METHOD" in RequestToEnv(req)
            && RequestToEnv(req)["REQUEST_METHOD"] == req.verb
    ensures "SERVER_PORT" in RequestToEnv(req)
            && RequestToEnv(req)["SERVER_PORT"] == NatToDecimal(req.server.port)
    ensures forall i | 0 <= i < |req.headers| ::
              (forall j | i < j < |req.headers| :: EnvKey(req.headers[j].0) != EnvKey(req.headers[i].0))
              ==> EnvKey(req.headers[i].0) in RequestToEnv(req)
                  && RequestToEnv(req)[EnvKey(req.headers[i].0)] == req.headers[i].1
  {
    var base := BaseEnv(req);
    var hs := req.headers;
    HeaderEnvSpares(base, hs, "PATH_INFO");
    HeaderEnvSpares(base, hs, "SERVER_PORT");
    forall i | 0 <= i < |hs| && (forall j | i < j < |hs| :: EnvKey(hs[j].0) != EnvKey(hs[i].0))
      ensures EnvKey(hs[i].0) in RequestToEnv(req) && RequestToEnv(req)[EnvKey(hs[i].0)] == hs[i].1
    {
      HeaderEnvLastWins(base, hs, i);
    }
  }

  // ---------------------------------------------------------------------------
  // RawVectorDataSource
  // ---------------------------------------------------------------------------

  /** A body held in an R raw vector, and how much of it has been handed out. */
  datatype RawVectorSource = RawVectorSource(vector: seq<Octet>, pos: nat)

  predicate ValidSource(s: RawVectorSource) {
    s.pos <= |s.vector|
  }

  /** `getData`: nothing at the end; otherwise the next `min(desired, remaining)` bytes, and
      the position moves past them. */
  function GetData(s: RawVectorSource, desired: nat): (out: (seq<Octet>, RawVectorSource))
    requires ValidSource(s)
    ensures ValidSource(out.1) && out.1.vector == s.vector
    ensures s.pos == |s.vector| ==> out.0 == [] && out.1 == s
  {
    var remaining := |s.vector| - s.pos;
    if remaining == 0 then ([], s)
    else
      var n := if desired < remaining then desired else remaining;
      (s.vector[s.pos..s.pos + n], s.(pos := s.pos + n))
  }

  /** It hands out exactly what the in-memory source of src/uvutil.cpp would, so reading it
      until it comes back empty yields the whole vector (`UvUtil.Drain`). */
  lemma {:induction false} GetDataAsInMemory(s: RawVectorSource, desired: nat)
    requires ValidSource(s)
    ensures var mem := UvUtil.GetData(UvUtil.InMemorySource(s.vector, s.pos), desired);
            GetData(s, desired).0 == mem.0 && GetData(s, desired).1.pos == mem.1.pos
  {
  }

  /** Read the vector through to the end, whatever size is asked for each time. */
  method DrainVector(s: RawVectorSource, desired: nat) returns (data: seq<Octet>)
    requires ValidSource(s) && desired > 0
    ensures data == s.vector[s.pos..]
  {
    data := [];
    var t := s;
    var piece: seq<Octet> := [0];
    while |piece| > 0
      invariant ValidSource(t) && t.vector == s.vector && s.pos <= t.pos
      invariant data == s.vector[s.pos..t.pos]
      invariant |piece| == 0 ==> t.pos == |s.vector|
      decreases |s.vector| - t.pos, |piece|
    {
      var out := GetData(t, desired);
      piece := out.0;
      assert s.vector[s.pos..out.1.pos] == s.vector[s.pos..t.pos] + piece;
      data := data + piece;
      t := out.1;
    }
  }

  // ---------------------------------------------------------------------------
  // listToResponse
  // ---------------------------------------------------------------------------

  /** The body of a response list: a character vector (whose bytes `charToRaw` gives) or a raw
      vector. */
  datatype BodyValue = Chars(text: ByteString) | Raw(bytes: seq<Octet>)

  /** A `bodyFile` entry. The file is streamed by a `FileDataSource`, which is not part of this
      model; `contents` stands for what it would read. */
  datatype BodyFile = BodyFile(path: string, owned: bool, contents: seq<Octet>)

  /** The R list the application returns: its length, and the entries the conversion reads. */
  datatype ResponseList = ResponseList(size: nat, status: int, headers: seq<(string, string)>,
                                       bodyFile: Option<BodyFile>, body: BodyValue)

  /** The bytes of the body: a `bodyFile` entry takes precedence over `body`. */
  function BodyBytes(list: ResponseList): (b: seq<Octet>)
    ensures list.bodyFile.Some? ==> b == list.bodyFile.value.contents
    ensures list.bodyFile.None? && list.body.Raw? ==> b == list.body.bytes
    ensures list.bodyFile.None? && list.body.Chars? ==> CharsOf(b) == list.body.text
  {
    if list.bodyFile.Some? then list.bodyFile.value.contents
    else match list.body
      case Chars(text) => CharsOfBytesOf(text); BytesOf(text)
      case Raw(bytes) => bytes
  }

  /** The header loop: `addHeader` for each entry in order. */
  method AddHeaders(r: HttpResponse.Response, hs: seq<(string, string)>)
    returns (s: HttpResponse.Response)
    ensures s.headers == r.headers + hs
    ensures s.(headers := r.headers) == r
  {
    s := r;
    var i := 0;
    while i < |hs|
      invariant i <= |hs|
      invariant s.headers == r.headers + hs[..i]
      invariant s.(headers := r.headers) == r
    {
      s := HttpResponse.AddHeader(s, hs[i].0, hs[i].1);
      assert hs[..i + 1] == hs[..i] + [hs[i]];
      i := i + 1;
    }
  }

  /** `listToResponse`: no response for a NULL or empty list; otherwise the status with its
      reason phrase, the headers in the list's order, and the body, not closing. */
  method ListToResponse(list: Option<ResponseList>) returns (r: Option<HttpResponse.Response>)
    ensures r.None? <==> list.None? || list.value.size == 0
    ensures r.Some? ==> r.value.statusCode == list.value.status
                        && r.value.status == GetStatusDescription(list.value.status)
                        && r.value.headers == list.value.headers
                        && r.value.body == Some(BodyBytes(list.value))
                        && !r.value.closeAfterWritten
  {
    if list.None? || list.value.size == 0 {
      return None;
    }
    var l := list.value;
    var response := HttpResponse.NewResponse(l.status, GetStatusDescription(l.status),
                                             Some(BodyBytes(l)));
    response := AddHeaders(response, l.headers);
    return Some(response);
  }
}
