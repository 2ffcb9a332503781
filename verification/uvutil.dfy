/** The streaming helpers of src/uvutil.cpp: the in-memory `DataSource`, the buffers of one
    `WriteOp`, and the `ExtendedWrite::next` step that frames each piece of body for the
    socket, with the chunked transfer coding of section 4.1 of RFC 7230 when asked for. The
    socket write itself is not part of this model: each step reports the buffers it would
    hand to `uv_write`. */
module UvUtil {
  import opened Wrappers
  import opened Ascii

  function Min(a: nat, b: nat): nat {
    if a < b then a else b
  }

  // ---------------------------------------------------------------------------
  // InMemoryDataSource
  // ---------------------------------------------------------------------------

  /** The buffer and the read position. */
  datatype InMemorySource = InMemorySource(buffer: seq<Octet>, pos: nat)

  predicate Valid(s: InMemorySource) {
    s.pos <= |s.buffer|
  }

  function NewSource(buffer: seq<Octet>): (s: InMemorySource)
    ensures Valid(s) && s.buffer == buffer
  {
    InMemorySource(buffer, 0)
  }

  /** `getData`: the next `min(desired, size - pos)` bytes, and the position moves past them.
      With the position past the end, `size - pos` would wrap around as a `size_t`. */
  function GetData(s: InMemorySource, desired: nat): (out: (seq<Octet>, InMemorySource))
    requires Valid(s)
    ensures |out.0| == Min(desired, |s.buffer| - s.pos)
    ensures out.0 == s.buffer[s.pos..s.pos + |out.0|]
    ensures out.1 == s.(pos := s.pos + |out.0|) && Valid(out.1)
  {
    var n := Min(desired, |s.buffer| - s.pos);
    (s.buffer[s.pos..s.pos + n], s.(pos := s.pos + n))
  }

  /** `add`: more bytes at the end; what was there, and the position, stay. */
  function Add(s: InMemorySource, more: seq<Octet>): (t: InMemorySource)
    ensures |t.buffer| == |s.buffer| + |more|
    ensures t.buffer[..|s.buffer|] == s.buffer && t.buffer[|s.buffer|..] == more
    ensures t.pos == s.pos && (Valid(s) ==> Valid(t))
  {
    s.(buffer := s.buffer + more)
  }

  /** `close`: the buffer is emptied but the position is not reset. */
  function Close(s: InMemorySource): (t: InMemorySource)
    ensures t.buffer == [] && t.pos == s.pos
  {
    s.(buffer := [])
  }

  /** After `close`, `getData` is safe only if nothing had been read. */
  lemma {:induction false} ReadAfterClose(s: InMemorySource)
    ensures Valid(Close(s)) <==> s.pos == 0
  {
  }

  /** Calling `getData` until it returns nothing yields exactly the unread bytes, in order,
      whatever the size asked for each time. */
  method Drain(s: InMemorySource, desired: nat) returns (data: seq<Octet>, t: InMemorySource)
    requires Valid(s) && desired > 0
    ensures data == s.buffer[s.pos..]
    ensures t == s.(pos := |s.buffer|)
  {
    data := [];
    t := s;
    var piece: seq<Octet> := [0];
    while |piece| > 0
      invariant Valid(t) && t.buffer == s.buffer && s.pos <= t.pos
      invariant data == s.buffer[s.pos..t.pos]
      invariant |piece| == 0 ==> t.pos == |s.buffer|
      decreases |s.buffer| - t.pos, |piece|
    {
      var out := GetData(t, desired);
      piece := out.0;
      assert s.buffer[s.pos..out.1.pos] == s.buffer[s.pos..t.pos] + piece;
      data := data + piece;
      t := out.1;
    }
  }

  // ---------------------------------------------------------------------------
  // WriteOp
  // ---------------------------------------------------------------------------

  datatype WriteOp = WriteOp(prefix: seq<Octet>, buffer: seq<Octet>, suffix: seq<Octet>)

  function Flatten(bufs: seq<seq<Octet>>): seq<Octet> {
    if |bufs| == 0 then [] else bufs[0] + Flatten(bufs[1..])
  }

  /** `bufs`: an empty prefix or suffix is left out, the data buffer never is; written one
      after the other the buffers give prefix, data and suffix. */
  function Bufs(op: WriteOp): (bufs: seq<seq<Octet>>)
    ensures |bufs| == 1 + (if |op.prefix| > 0 then 1 else 0) + (if |op.suffix| > 0 then 1 else 0)
    ensures op.buffer in bufs
    ensures forall i | 0 <= i < |bufs| :: bufs[i] == op.buffer || |bufs[i]| > 0
    ensures Flatten(bufs) == op.prefix + op.buffer + op.suffix
  {
    var pre := if |op.prefix| > 0 then [op.prefix] else [];
    var post := if |op.suffix| > 0 then [op.suffix] else [];
    var bufs := pre + [op.buffer] + post;
    assert Flatten(post) == op.suffix by {
      if |op.suffix| > 0 {
        assert Flatten(post) == op.suffix + Flatten([]);
      }
    }
    assert Flatten([op.buffer] + post) == op.buffer + Flatten(post) by {
      assert ([op.buffer] + post)[1..] == post;
    }
    assert Flatten(bufs) == op.prefix + op.buffer + op.suffix by {
      if |op.prefix| > 0 {
        assert bufs[1..] == [op.buffer] + post;
      } else {
        assert bufs == [op.buffer] + post;
      }
    }
    bufs
  }

  // ---------------------------------------------------------------------------
  // ExtendedWrite::next
  // ---------------------------------------------------------------------------

  /** How much `next` asks of the data source at a time. */
  const ReadSize: nat := 65536

  const Crlf: seq<Octet> := [13, 10]

  /** "0\r\n\r\n": the last chunk and the empty trailer section. */
  const LastChunk: seq<Octet> := [48, 13, 10, 13, 10]

  lemma {:induction false} HexIsByteString(s: string)
    requires AllHexDigits(s)
    ensures IsByteString(s)
  {
    forall i | 0 <= i < |s|
      ensures s[i] as int < 256
    {
      assert HexDigitValue(s[i]).Some?;
    }
  }

  /** The bytes of `NatToHex(n)`: `%lX`. */
  function HexBytes(n: nat): (b: seq<Octet>)
    ensures |b| >= 1
  {
    var s := NatToHex(n);
    HexIsByteString(s);
    BytesOf(s)
  }

  /** One chunk: its size in hexadecimal, CR LF, the data, CR LF. The size line reads back as
      the length of the data, which follows it and is itself followed by CR LF. */
  function ChunkFrame(data: seq<Octet>): (r: seq<Octet>)
    ensures |r| >= |data| + 4
    ensures ChunkHeader(r) == Some((|data|, |r| - |data| - 2))
    ensures r[|r| - |data| - 2..|r| - 2] == data && CrlfAt(r, |r| - 2)
  {
    var h := HexBytes(|data|);
    var r := h + Crlf + data + Crlf;
    HexBytesRun(|data|, Crlf + data + Crlf);
    assert r == h + (Crlf + data + Crlf);
    assert r[|h|] == 13 && r[|h| + 1] == 10;
    assert r[|r| - |data| - 2..|r| - 2] == data;
    r
  }

  datatype Writer = Writer(activeWrites: int, errored: bool, completed: bool, chunked: bool)

  /** What one call of `next` does: close the source and report `onWriteComplete(status)`,
      wait for outstanding writes, or issue one more write. */
  datatype Step = Finish(status: int) | Wait | Issue(op: WriteOp)

  function Initial(chunked: bool): Writer {
    Writer(0, false, false, chunked)
  }

  /** Once errored or completed, `next` only winds up: when no write is outstanding it
      closes the source and reports 1 or 0. */
  function WindUp(w: Writer, status: int): (r: (Writer, Step))
    ensures r.0 == w
    ensures r.1 == if w.activeWrites == 0 then Finish(status) else Wait
  {
    (w, if w.activeWrites == 0 then Finish(status) else Wait)
  }

  /** `next`, with the outcome of `getData(65536)` as `data` (`Err` for an exception); the
      data is consulted only when the writer still reads from its source. */
  function Next(w: Writer, data: Result<seq<Octet>>): (r: (Writer, Step))
    ensures w.errored ==> r == WindUp(w, 1)
    ensures !w.errored && w.completed ==> r == WindUp(w, 0)
    ensures !w.errored && !w.completed && data.Err? ==> r == WindUp(w.(errored := true), 1)
    ensures r.1.Finish? ==> r.0.activeWrites == 0 && (r.1.status == 0 <==> !r.0.errored)
    ensures r.1.Issue? ==> r.0.activeWrites == w.activeWrites + 1
    ensures r.1.Issue? ==> data.Ok? && r.1.op.buffer == data.value
                           && (r.0.completed <==> |data.value| == 0)
    ensures r.1.Issue? && !w.chunked ==> r.1.op.prefix == [] && r.1.op.suffix == []
    ensures r.1.Issue? && w.chunked ==>
              Flatten(Bufs(r.1.op)) == if |data.value| == 0 then LastChunk else ChunkFrame(data.value)
  {
    if w.errored then WindUp(w, 1)
    else if w.completed then WindUp(w, 0)
    else
      match data
      case Err(_) => WindUp(w.(errored := true), 1)
      case Ok(buf) =>
        var op :=
          if !w.chunked then WriteOp([], buf, [])
          else if |buf| == 0 then WriteOp([], buf, LastChunk)
          else WriteOp(HexBytes(|buf|) + Crlf, buf, Crlf);
        (w.(activeWrites := w.activeWrites + 1, completed := |buf| == 0), Issue(op))
  }

  /** `WriteOp::end`: one write fewer outstanding. */
  function WriteEnded(w: Writer): (v: Writer)
    ensures v.activeWrites == w.activeWrites - 1
    ensures v.(activeWrites := w.activeWrites) == w
  {
    w.(activeWrites := w.activeWrites - 1)
  }

  /** A whole transfer in which each write finishes before the next `next`: the bytes sent and
      the status reported, given what successive `getData` calls return. */
  function Run(w: Writer, pieces: seq<seq<Octet>>): (r: (seq<Octet>, Option<int>))
    ensures w.errored || w.completed ==> r.0 == []
    ensures r.1.Some? ==> r.1.value == 0 || r.1.value == 1
    ensures !w.errored ==> r.1 != Some(1)
    decreases |pieces|, if w.errored || w.completed then 0 else 1
  {
    if w.errored || w.completed then
      match Next(w, Ok([])).1
      case Finish(status) => ([], Some(status))
      case _ => ([], None)
    else if |pieces| == 0 then ([], None)
    else
      var (w1, step) := Next(w, Ok(pieces[0]));
      match step
      case Issue(op) =>
        var (rest, status) := Run(WriteEnded(w1), pieces[1..]);
        (Flatten(Bufs(op)) + rest, status)
      case _ => ([], None)
  }

  /** The chunked coding of a body given as non-empty pieces. */
  function Chunked(chunks: seq<seq<Octet>>): seq<Octet> {
    if |chunks| == 0 then LastChunk else ChunkFrame(chunks[0]) + Chunked(chunks[1..])
  }

  /** A chunked transfer of non-empty pieces followed by the empty read sends every read as
      one chunk, then the last chunk, and reports success. */
  lemma {:induction false} ChunkedTransfer(chunks: seq<seq<Octet>>, active: int)
    requires forall i | 0 <= i < |chunks| :: |chunks[i]| > 0
    requires active == 0
    ensures Run(Writer(active, false, false, true), chunks + [[]]) == (Chunked(chunks), Some(0))
    decreases |chunks|
  {
    var w := Writer(active, false, false, true);
    if |chunks| == 0 {
      assert chunks + [[]] == [[]];
      var (w1, step) := Next(w, Ok([]));
      assert step == Issue(WriteOp([], [], LastChunk));
      assert Flatten(Bufs(WriteOp([], [], LastChunk))) == LastChunk;
      assert w1 == Writer(1, false, true, true);
      assert Run(WriteEnded(w1), []) == ([], Some(0));
      assert Run(w, [[]]) == (LastChunk + [], Some(0));
      assert LastChunk + [] == LastChunk == Chunked(chunks);
    } else {
      var all := chunks + [[]];
      assert all[0] == chunks[0] && all[1..] == chunks[1..] + [[]];
      var (w1, step) := Next(w, Ok(chunks[0]));
      assert step.Issue? && Flatten(Bufs(step.op)) == ChunkFrame(chunks[0]);
      assert WriteEnded(w1) == w;
      ChunkedTransfer(chunks[1..], active);
      assert Run(w, all) == (ChunkFrame(chunks[0]) + Chunked(chunks[1..]), Some(0));
    }
  }

  /** Without the chunked coding the pieces go out back to back. */
  lemma {:induction false} PlainTransfer(pieces: seq<seq<Octet>>, active: int)
    requires forall i | 0 <= i < |pieces| :: |pieces[i]| > 0
    requires active == 0
    ensures Run(Writer(active, false, false, false), pieces + [[]]) == (Flatten(pieces), Some(0))
    decreases |pieces|
  {
    var w := Writer(active, false, false, false);
    if |pieces| == 0 {
      assert pieces + [[]] == [[]];
      var (w1, step) := Next(w, Ok([]));
      assert step == Issue(WriteOp([], [], []));
      assert Flatten(Bufs(WriteOp([], [], []))) == [];
      assert w1 == Writer(1, false, true, false);
      assert Run(WriteEnded(w1), []) == ([], Some(0));
    } else {
      var all := pieces + [[]];
      assert all[0] == pieces[0] && all[1..] == pieces[1..] + [[]];
      var (w1, step) := Next(w, Ok(pieces[0]));
      assert step == Issue(WriteOp([], pieces[0], []));
      assert Flatten(Bufs(step.op)) == pieces[0];
      assert WriteEnded(w1) == w;
      PlainTransfer(pieces[1..], active);
      assert Run(w, all) == (pieces[0] + Flatten(pieces[1..]), Some(0));
    }
  }

  // ---------------------------------------------------------------------------
  // reading the chunked coding back
  // ---------------------------------------------------------------------------

  predicate IsHexOctet(b: Octet) {
    HexDigitValue(b as char).Some?
  }

  /** How many hexadecimal digits the bytes start with. */
  function HexRun(s: seq<Octet>): (n: nat)
    ensures n <= |s|
  {
    if |s| == 0 || !IsHexOctet(s[0]) then 0 else 1 + HexRun(s[1..])
  }

  /** The number hexadecimal digit bytes spell (a non-digit counts as 0). */
  function HexNumber(s: seq<Octet>): nat {
    if |s| == 0 then 0 else HexNumber(s[..|s| - 1]) * 16 + HexDigitValue(s[|s| - 1] as char).GetOr(0)
  }

  /** CR LF at position `k`. */
  predicate CrlfAt(s: seq<Octet>, k: nat) {
    k + 2 <= |s| && s[k] == 13 && s[k + 1] == 10
  }

  /** A chunk-size line: the size it gives and where the chunk data starts. */
  function ChunkHeader(s: seq<Octet>): (r: Option<(nat, nat)>)
    ensures r.Some? ==> r.value.1 <= |s|
  {
    var i := HexRun(s);
    if i == 0 || !CrlfAt(s, i) then None else Some((HexNumber(s[..i]), i + 2))
  }

  /** A decoder for the chunked coding: chunk-size digits, CR LF, that many bytes, CR LF,
      repeated until a chunk of size 0, which must be followed by CR LF and nothing else. */
  function Dechunk(s: seq<Octet>): Option<seq<Octet>>
    decreases |s|
  {
    var header := ChunkHeader(s);
    if header.None? then None
    else
      var n := header.value.0;
      var start := header.value.1;
      if n == 0 then
        if |s| == start + 2 && CrlfAt(s, start) then Some([]) else None
      else if !CrlfAt(s, start + n) then None
      else
        var rest := Dechunk(s[start + n + 2..]);
        if rest.None? then None else Some(s[start..start + n] + rest.value)
  }

  lemma {:induction false} HexRunStops(h: seq<Octet>, t: seq<Octet>)
    requires forall i | 0 <= i < |h| :: IsHexOctet(h[i])
    requires |t| > 0 && !IsHexOctet(t[0])
    ensures HexRun(h + t) == |h|
  {
    if |h| > 0 {
      assert (h + t)[1..] == h[1..] + t;
      HexRunStops(h[1..], t);
    } else {
      assert h + t == t;
    }
  }

  lemma {:induction false} HexNumberOfDigits(s: string)
    requires AllHexDigits(s)
    ensures IsByteString(s) && HexNumber(BytesOf(s)) == HexValue(s)
  {
    HexIsByteString(s);
    if |s| > 0 {
      HexNumberOfDigits(s[..|s| - 1]);
      assert BytesOf(s)[..|s| - 1] == BytesOf(s[..|s| - 1]);
    }
  }

  lemma {:induction false} HexBytesRun(n: nat, t: seq<Octet>)
    requires |t| > 0 && t[0] == 13
    ensures HexRun(HexBytes(n) + t) == |HexBytes(n)|
    ensures HexNumber((HexBytes(n) + t)[..|HexBytes(n)|]) == n
  {
    var h := HexBytes(n);
    forall i | 0 <= i < |h|
      ensures IsHexOctet(h[i])
    {
      assert HexDigitValue(NatToHex(n)[i]).Some?;
    }
    HexRunStops(h, t);
    assert (h + t)[..|h|] == h;
    HexNumberOfDigits(NatToHex(n));
    HexRoundTrip(n);
  }

  /** The size line of a frame reads back as the size of its data. */
  lemma {:induction false} FrameHeader(c: seq<Octet>, rest: seq<Octet>)
    ensures ChunkHeader(ChunkFrame(c) + rest) == Some((|c|, |HexBytes(|c|)| + 2))
  {
    var s := ChunkFrame(c) + rest;
    var h := HexBytes(|c|);
    assert s == h + (Crlf + c + Crlf + rest);
    HexBytesRun(|c|, Crlf + c + Crlf + rest);
    assert s[|h|] == 13 && s[|h| + 1] == 10;
  }

  /** The last chunk decodes to nothing. */
  lemma {:induction false} DechunkLast()
    ensures Dechunk(LastChunk) == Some([])
  {
    assert NatToHex(0) == "0";
    assert LastChunk == ChunkFrame([]) + [];
    FrameHeader([], []);
  }

  /** One step of the decoder over a well-framed chunk of non-zero size. */
  lemma {:induction false} DechunkStep(s: seq<Octet>, c: seq<Octet>, rest: seq<Octet>, start: nat)
    requires ChunkHeader(s) == Some((|c|, start)) && |c| > 0
    requires start + |c| + 2 <= |s| && s[start..start + |c|] == c
    requires CrlfAt(s, start + |c|) && s[start + |c| + 2..] == rest
    ensures Dechunk(s) == if Dechunk(rest).Some? then Some(c + Dechunk(rest).value) else None
  {
    DechunkUnfold(s, |c|, start);
  }

  lemma {:induction false} DechunkUnfold(s: seq<Octet>, n: nat, start: nat)
    requires ChunkHeader(s) == Some((n, start)) && n > 0 && CrlfAt(s, start + n)
    ensures Dechunk(s) == if Dechunk(s[start + n + 2..]).Some?
                          then Some(s[start..start + n] + Dechunk(s[start + n + 2..]).value)
                          else None
  {
  }

  /** A chunk decodes to its data, followed by whatever the rest decodes to. */
  lemma {:induction false} DechunkFrame(c: seq<Octet>, rest: seq<Octet>)
    requires |c| > 0
    ensures Dechunk(ChunkFrame(c) + rest)
            == if Dechunk(rest).Some? then Some(c + Dechunk(rest).value) else None
  {
    var s := ChunkFrame(c) + rest;
    FrameHeader(c, rest);
    var h := HexBytes(|c|);
    FrameSlices(h, c, rest, s, |h| + 2);
    DechunkStep(s, c, rest, |h| + 2);
  }

  lemma {:induction false} FrameSlices(h: seq<Octet>, c: seq<Octet>, rest: seq<Octet>, s: seq<Octet>, start: nat)
    requires s == h + Crlf + c + Crlf + rest && start == |h| + 2
    ensures start + |c| + 2 <= |s| && s[start..start + |c|] == c
    ensures CrlfAt(s, start + |c|) && s[start + |c| + 2..] == rest
  {
    assert s[start..start + |c|] == c;
    assert s[start + |c|] == 13 && s[start + |c| + 1] == 10;
    assert s[start + |c| + 2..] == rest;
  }

  /** The decoder undoes the coding: the body comes back whole. */
  lemma {:induction false} DechunkChunked(chunks: seq<seq<Octet>>)
    requires forall i | 0 <= i < |chunks| :: |chunks[i]| > 0
    ensures Dechunk(Chunked(chunks)) == Some(Flatten(chunks))
    decreases |chunks|
  {
    if |chunks| == 0 {
      DechunkLast();
    } else {
      DechunkChunked(chunks[1..]);
      DechunkFrame(chunks[0], Chunked(chunks[1..]));
    }
  }

  /** End to end: what a chunked transfer sends decodes to the concatenated pieces. */
  lemma {:induction false} ChunkedTransferDecodes(chunks: seq<seq<Octet>>)
    requires forall i | 0 <= i < |chunks| :: |chunks[i]| > 0
    ensures var (sent, status) := Run(Initial(true), chunks + [[]]);
            status == Some(0) && Dechunk(sent) == Some(Flatten(chunks))
  {
    ChunkedTransfer(chunks, 0);
    DechunkChunked(chunks);
  }
}
