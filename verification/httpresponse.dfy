/** `HttpResponse` of src/httpresponse.cpp: the response header list, the head that
    `writeResponse` serialises, and the close decision of `destroy`. The body `DataSource` is
    modelled by the bytes it holds. */
module HttpResponse {
  import opened Wrappers
  import opened Ascii
  import opened Constants
  import Utils

  datatype Response = Response(statusCode: int, status: string, headers: ResponseHeaders,
                               body: Option<seq<Octet>>, closeAfterWritten: bool)

  /** `new HttpResponse(request, statusCode, status, body)`: no headers, not closing. */
  function NewResponse(statusCode: int, status: string, body: Option<seq<Octet>>): (r: Response)
    ensures r.headers == [] && !r.closeAfterWritten
    ensures r.statusCode == statusCode && r.status == status && r.body == body
  {
    Response(statusCode, status, [], body, false)
  }

  // ---------------------------------------------------------------------------
  // addHeader / setHeader
  // ---------------------------------------------------------------------------

  /** A header whose name is `name` up to ASCII case (`strcasecmp(...) == 0`). */
  predicate Named(h: (string, string), name: string) {
    Utils.EqualsIgnoreCase(h.0, name)
  }

  /** How many headers carry `name`, up to case. */
  function CountNamed(hs: ResponseHeaders, name: string): (n: nat)
    ensures n <= |hs|
    ensures n == 0 <==> forall i | 0 <= i < |hs| :: !Named(hs[i], name)
  {
    if |hs| == 0 then 0
    else (if Named(hs[0], name) then 1 else 0) + CountNamed(hs[1..], name)
  }

  /** `addHeader`: the new pair goes last and every existing pair stays where it was. */
  function AddHeader(r: Response, name: string, value: string): (s: Response)
    ensures |s.headers| == |r.headers| + 1
    ensures s.headers[..|r.headers|] == r.headers && s.headers[|r.headers|] == (name, value)
    ensures s.(headers := r.headers) == r
  {
    r.(headers := r.headers + [(name, value)])
  }

  /** The headers left after the erase loop of `setHeader`: those not named `name`, in order. */
  function Without(hs: ResponseHeaders, name: string): (r: ResponseHeaders)
    ensures |r| == |hs| - CountNamed(hs, name)
  {
    if |hs| == 0 then []
    else if Named(hs[0], name) then Without(hs[1..], name)
    else [hs[0]] + Without(hs[1..], name)
  }

  /** The erase loop is a filter: it distributes over concatenation, so the kept headers keep
      their relative order. */
  lemma {:induction false} WithoutAppend(a: ResponseHeaders, b: ResponseHeaders, name: string)
    ensures Without(a + b, name) == Without(a, name) + Without(b, name)
  {
    if |a| > 0 {
      assert (a + b)[0] == a[0] && (a + b)[1..] == a[1..] + b;
      WithoutAppend(a[1..], b, name);
      if Named(a[0], name) {
        assert Without(a + b, name) == Without(a[1..] + b, name);
      } else {
        assert Without(a + b, name) == [a[0]] + Without(a[1..] + b, name);
      }
    } else {
      assert a + b == b;
    }
  }

  /** What the erase loop keeps: exactly the headers not named `name`. */
  lemma {:induction false} WithoutKeeps(hs: ResponseHeaders, name: string)
    ensures forall e | e in Without(hs, name) :: !Named(e, name) && e in hs
    ensures forall e | e in hs && !Named(e, name) :: e in Without(hs, name)
  {
    if |hs| > 0 {
      WithoutKeeps(hs[1..], name);
      assert forall e | e in hs :: e == hs[0] || e in hs[1..];
    }
  }

  lemma {:induction false} WithoutLeavesNone(hs: ResponseHeaders, name: string)
    ensures CountNamed(Without(hs, name), name) == 0
  {
    if |hs| > 0 {
      WithoutLeavesNone(hs[1..], name);
      if !Named(hs[0], name) {
        assert Without(hs, name)[1..] == Without(hs[1..], name);
      }
    }
  }

  /** A list with no header of that name is left as it is. */
  lemma {:induction false} WithoutNoMatch(hs: ResponseHeaders, name: string)
    requires CountNamed(hs, name) == 0
    ensures Without(hs, name) == hs
  {
    if |hs| > 0 {
      assert !Named(hs[0], name);
      WithoutNoMatch(hs[1..], name);
    }
  }

  /** `setHeader`: every header named `name` (up to case) is erased and the new pair appended,
      so exactly one header then carries the name, last, and the others keep their order. */
  function SetHeader(r: Response, name: string, value: string): (s: Response)
    ensures |s.headers| >= 1 && s.headers[|s.headers| - 1] == (name, value)
    ensures CountNamed(s.headers, name) == 1
    ensures forall i | 0 <= i < |s.headers| - 1 :: !Named(s.headers[i], name) && s.headers[i] in r.headers
    ensures forall e | e in r.headers && !Named(e, name) :: e in s.headers
    ensures s.(headers := r.headers) == r
  {
    ReplacedHeaders(r.headers, name, value);
    r.(headers := Without(r.headers, name) + [(name, value)])
  }

  lemma {:induction false} ReplacedHeaders(hs: ResponseHeaders, name: string, value: string)
    ensures var out := Without(hs, name) + [(name, value)];
      && out[|out| - 1] == (name, value)
      && CountNamed(out, name) == 1
      && (forall i | 0 <= i < |out| - 1 :: !Named(out[i], name) && out[i] in hs)
      && (forall e | e in hs && !Named(e, name) :: e in out)
  {
    var kept := Without(hs, name);
    var out := kept + [(name, value)];
    WithoutKeeps(hs, name);
    CountAppend(kept, [(name, value)], name);
    WithoutLeavesNone(hs, name);
    forall i | 0 <= i < |out| - 1
      ensures !Named(out[i], name) && out[i] in hs
    {
      assert out[i] == kept[i] && kept[i] in kept;
    }
  }

  lemma {:induction false} CountAppend(a: ResponseHeaders, b: ResponseHeaders, name: string)
    ensures CountNamed(a + b, name) == CountNamed(a, name) + CountNamed(b, name)
  {
    if |a| > 0 {
      assert (a + b)[1..] == a[1..] + b;
      CountAppend(a[1..], b, name);
    } else {
      assert a + b == b;
    }
  }

  /** Setting the same header twice is the same as setting it once. */
  lemma {:induction false} SetHeaderIdempotent(r: Response, name: string, value: string)
    ensures SetHeader(SetHeader(r, name, value), name, value) == SetHeader(r, name, value)
  {
    var kept := Without(r.headers, name);
    var s1 := SetHeader(r, name, value);
    assert s1.headers == kept + [(name, value)];
    WithoutLeavesNone(r.headers, name);
    WithoutAppend(kept, [(name, value)], name);
    WithoutNoMatch(kept, name);
    assert Without([(name, value)], name) == [];
    assert Without(s1.headers, name) == kept;
  }

  /** `closeAfterWritten`: "Connection: close" and the flag. */
  function CloseAfterWritten(r: Response): (s: Response)
    ensures s.closeAfterWritten
    ensures CountNamed(s.headers, "Connection") == 1
    ensures s.headers[|s.headers| - 1] == ("Connection", "close")
  {
    SetHeader(r, "Connection", "close").(closeAfterWritten := true)
  }

  lemma {:induction false} CloseAfterWrittenIdempotent(r: Response)
    ensures CloseAfterWritten(CloseAfterWritten(r)) == CloseAfterWritten(r)
  {
    SetHeaderIdempotent(r, "Connection", "close");
  }

  /** `destroy(forceClose)`: whether the request's connection is closed. */
  function ClosesConnection(r: Response, forceClose: bool): (closes: bool)
    ensures closes <==> forceClose || r.closeAfterWritten
  {
    forceClose || r.closeAfterWritten
  }

  /** A response marked by `closeAfterWritten` closes its connection whether or not the close
      is forced. */
  lemma {:induction false} MarkedResponseCloses(r: Response, forceClose: bool)
    ensures ClosesConnection(CloseAfterWritten(r), forceClose)
  {
  }

  // ---------------------------------------------------------------------------
  // writeResponse: the head
  // ---------------------------------------------------------------------------

  const Crlf: string := "\r\n"

  /** Lines each followed by CR LF. */
  function Terminated(lines: seq<string>): string {
    if |lines| == 0 then "" else lines[0] + Crlf + Terminated(lines[1..])
  }

  predicate NoCr(s: string) {
    forall i | 0 <= i < |s| :: s[i] != '\r'
  }

  /** The index of the first CR, or the length when there is none. */
  function LineEnd(s: string): (i: nat)
    ensures i <= |s| && NoCr(s[..i])
    ensures i < |s| ==> s[i] == '\r'
  {
    if |s| == 0 || s[0] == '\r' then 0 else 1 + LineEnd(s[1..])
  }

  /** A reader of CR LF terminated lines: the inverse of `Terminated` for lines without CR. */
  function ReadLines(s: string): seq<string>
    decreases |s|
  {
    if |s| == 0 then []
    else
      var i := LineEnd(s);
      if i + 1 < |s| && s[i + 1] == '\n' then [s[..i]] + ReadLines(s[i + 2..]) else [s]
  }

  lemma {:induction false} ReadTerminated(lines: seq<string>)
    requires forall k | 0 <= k < |lines| :: NoCr(lines[k])
    ensures ReadLines(Terminated(lines)) == lines
  {
    if |lines| > 0 {
      ReadLine(lines[0], Terminated(lines[1..]));
      ReadTerminated(lines[1..]);
      assert lines == [lines[0]] + lines[1..];
    }
  }

  /** A line without CR followed by CR LF is read as that line. */
  lemma {:induction false} ReadLine(l: string, t: string)
    requires NoCr(l)
    ensures ReadLines(l + Crlf + t) == [l] + ReadLines(t)
  {
    var s := l + Crlf + t;
    assert s == l + (Crlf + t);
    LineEndAfter(l, Crlf + t);
    assert s[|l| + 1] == '\n';
    assert s[..|l|] == l;
    assert s[|l| + 2..] == t;
  }

  /** The first CR after a CR-free prefix is the one that ends it. */
  lemma {:induction false} LineEndAfter(l: string, t: string)
    requires NoCr(l) && |t| > 0 && t[0] == '\r'
    ensures LineEnd(l + t) == |l|
    decreases |l|
  {
    if |l| == 0 {
      assert l + t == t;
    } else {
      assert (l + t)[1..] == l[1..] + t;
      LineEndAfter(l[1..], t);
    }
  }

  function StatusLine(r: Response): string {
    "HTTP/1.1 " + IntToDecimal(r.statusCode) + " " + r.status
  }

  function HeaderLine(h: (string, string)): string {
    h.0 + ": " + h.1
  }

  function HeaderLines(hs: ResponseHeaders): (ls: seq<string>)
    ensures |ls| == |hs| && forall i | 0 <= i < |hs| :: ls[i] == HeaderLine(hs[i])
  {
    if |hs| == 0 then [] else [HeaderLine(hs[0])] + HeaderLines(hs[1..])
  }

  /** Whether `writeResponse` adds its own Content-Length line: only for a response with a body
      and no header named Content-Length in any case. */
  predicate AddsContentLength(r: Response) {
    r.body.Some? && CountNamed(r.headers, "Content-Length") == 0
  }

  /** The lines of the head: the status line, one line per header in order, the added
      Content-Length line, and the empty line that ends the head. */
  function HeadLines(r: Response): (ls: seq<string>)
    ensures |ls| == |r.headers| + (if AddsContentLength(r) then 3 else 2)
  {
    [StatusLine(r)] + HeaderLines(r.headers) + ContentLengthLines(r) + [""]
  }

  function ContentLengthLines(r: Response): (ls: seq<string>)
    ensures |ls| == if AddsContentLength(r) then 1 else 0
  {
    if AddsContentLength(r) then ["Content-Length: " + NatToDecimal(|r.body.value|)] else []
  }

  /** The lines of the head in order: the status line, one line per header in order, the
      added Content-Length line, and the empty line that ends the head. */
  lemma {:induction false} HeadLinesLayout(r: Response)
    ensures HeadLines(r)[0] == StatusLine(r) && HeadLines(r)[|HeadLines(r)| - 1] == ""
    ensures forall i | 0 <= i < |r.headers| :: HeadLines(r)[i + 1] == HeaderLine(r.headers[i])
    ensures AddsContentLength(r) ==>
              HeadLines(r)[|r.headers| + 1] == "Content-Length: " + NatToDecimal(|r.body.value|)
  {
    LinesLayout(StatusLine(r), HeaderLines(r.headers), ContentLengthLines(r), HeadLines(r));
    if AddsContentLength(r) {
      assert HeadLines(r)[|r.headers| + 1 + 0] == ContentLengthLines(r)[0];
    }
  }

  lemma {:induction false} LinesLayout(status: string, hl: seq<string>, cl: seq<string>, ls: seq<string>)
    requires ls == [status] + hl + cl + [""]
    ensures |ls| == |hl| + |cl| + 2 && ls[0] == status && ls[|ls| - 1] == ""
    ensures forall i | 0 <= i < |hl| :: ls[i + 1] == hl[i]
    ensures forall j | 0 <= j < |cl| :: ls[|hl| + 1 + j] == cl[j]
  {
    var a := [status] + hl;
    var b := a + cl;
    assert ls == b + [""];
    forall i | 0 <= i < |hl|
      ensures ls[i + 1] == hl[i]
    {
      assert ls[i + 1] == b[i + 1] == a[i + 1];
    }
    forall j | 0 <= j < |cl|
      ensures ls[|hl| + 1 + j] == cl[j]
    {
      assert ls[|hl| + 1 + j] == b[|a| + j];
    }
  }

  function Head(r: Response): string {
    Terminated(HeadLines(r))
  }

  /** When no status text, header name or value holds a CR, reading the head back line by line
      yields the status line, the header lines in order, the Content-Length line exactly when
      one was added, and the blank line. */
  lemma {:induction false} HeadReadsBack(r: Response)
    requires NoCr(r.status) && forall i | 0 <= i < |r.headers| :: NoCr(r.headers[i].0) && NoCr(r.headers[i].1)
    ensures ReadLines(Head(r)) == HeadLines(r)
  {
    var hl, cl, ls := HeaderLines(r.headers), ContentLengthLines(r), HeadLines(r);
    StatusLineHasNoCr(r);
    HeaderLinesHaveNoCr(r.headers);
    if AddsContentLength(r) {
      ContentLengthLineHasNoCr(|r.body.value|);
    }
    LinesLayout(StatusLine(r), hl, cl, ls);
    LinesHaveNoCr(StatusLine(r), hl, cl, ls);
    ReadTerminated(ls);
  }

  lemma {:induction false} HeaderLinesHaveNoCr(hs: ResponseHeaders)
    requires forall i | 0 <= i < |hs| :: NoCr(hs[i].0) && NoCr(hs[i].1)
    ensures forall i | 0 <= i < |hs| :: NoCr(HeaderLines(hs)[i])
  {
    forall i | 0 <= i < |hs|
      ensures NoCr(HeaderLines(hs)[i])
    {
      HeaderLineHasNoCr(hs[i]);
    }
  }

  /** Lines laid out as the status line, header lines, extra lines and a blank line, none of
      them with a CR, leave the whole sequence free of CR. */
  lemma {:induction false} LinesHaveNoCr(status: string, hl: seq<string>, cl: seq<string>, ls: seq<string>)
    requires |ls| == |hl| + |cl| + 2 && ls[0] == status && ls[|ls| - 1] == ""
    requires forall i | 0 <= i < |hl| :: ls[i + 1] == hl[i]
    requires forall j | 0 <= j < |cl| :: ls[|hl| + 1 + j] == cl[j]
    requires NoCr(status)
    requires forall i | 0 <= i < |hl| :: NoCr(hl[i])
    requires forall j | 0 <= j < |cl| :: NoCr(cl[j])
    ensures forall k | 0 <= k < |ls| :: NoCr(ls[k])
  {
    forall k | 0 <= k < |ls|
      ensures NoCr(ls[k])
    {
      if k == 0 {
      } else if k <= |hl| {
        assert ls[(k - 1) + 1] == hl[k - 1];
      } else if k < |ls| - 1 {
        assert ls[|hl| + 1 + (k - |hl| - 1)] == cl[k - |hl| - 1];
      }
    }
  }

  lemma {:induction false} StatusLineHasNoCr(r: Response)
    requires NoCr(r.status)
    ensures NoCr(StatusLine(r))
  {
    DecimalHasNoCr(r.statusCode);
  }

  lemma {:induction false} HeaderLineHasNoCr(h: (string, string))
    requires NoCr(h.0) && NoCr(h.1)
    ensures NoCr(HeaderLine(h))
  {
  }

  lemma {:induction false} ContentLengthLineHasNoCr(n: nat)
    ensures NoCr("Content-Length: " + NatToDecimal(n))
  {
    assert AllDigits(NatToDecimal(n));
  }

  lemma {:induction false} DecimalHasNoCr(i: int)
    ensures NoCr(IntToDecimal(i))
  {
    var d := NatToDecimal(if i < 0 then -i else i);
    assert AllDigits(d);
  }

  /** What `writeResponse` hands to the socket first, and the body still to be streamed after
      it. A 101 response with a body of 1 to 255 bytes has the body appended to the head. */
  function WriteResponse(r: Response): (out: (string, Option<seq<Octet>>))
    ensures Head(r) <= out.0
    ensures out.1.None? ==> out.0 == Head(r) + CharsOf(r.body.GetOr([]))
    ensures out.1.Some? ==> out.0 == Head(r) && out.1 == r.body
    ensures out.1 != r.body <==> r.statusCode == 101 && r.body.Some? && 0 < |r.body.value| < 256
  {
    if r.statusCode == 101 && r.body.Some? && 0 < |r.body.value| < 256 then
      (Head(r) + CharsOf(r.body.value), None)
    else
      (Head(r), r.body)
  }
}
