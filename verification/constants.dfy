/** The shared definitions of src/constants.h: WebSocket opcodes, the largest frame header, the
    parser states, and the case-insensitive ordering that keys request headers. */
module Constants {
  import opened Wrappers
  import opened Ascii
  import Utils

  /** `Opcode`, with the numeric values section 5.2 of RFC 6455 assigns. */
  datatype Opcode = Continuation | Text | Binary | Close | Ping | Pong | Reserved

  function OpcodeValue(op: Opcode): (v: nat)
    ensures v < 16
  {
    match op
    case Continuation => 0x0
    case Text => 0x1
    case Binary => 0x2
    case Close => 0x8
    case Ping => 0x9
    case Pong => 0xA
    case Reserved => 0xF
  }

  /** Distinct opcodes have distinct values, and control frames are exactly those with the high
      bit of the opcode set. */
  lemma {:induction false} OpcodeValuesDistinct(a: Opcode, b: Opcode)
    ensures OpcodeValue(a) == OpcodeValue(b) ==> a == b
    ensures OpcodeValue(a) >= 8 <==> a in {Close, Ping, Pong, Reserved}
  {
  }

  /** Two bytes of fixed header, at most eight of extended length, four of masking key. */
  const MaxHeaderBytes: nat := 14

  datatype WSParseState = InHeader | InPayload

  // ---------------------------------------------------------------------------
  // compare_ci and RequestHeaders
  // ---------------------------------------------------------------------------

  /** Lexicographic order on character codes, a proper prefix first. */
  predicate LexLess(a: string, b: string) {
    if |a| == 0 then |b| > 0
    else if |b| == 0 then false
    else if a[0] != b[0] then a[0] < b[0]
    else LexLess(a[1..], b[1..])
  }

  lemma {:induction false} LexIrreflexive(a: string)
    ensures !LexLess(a, a)
  {
    if |a| > 0 {
      LexIrreflexive(a[1..]);
    }
  }

  lemma {:induction false} LexTransitive(a: string, b: string, c: string)
    requires LexLess(a, b) && LexLess(b, c)
    ensures LexLess(a, c)
  {
    if |a| > 0 && |b| > 0 && |c| > 0 && a[0] == b[0] && b[0] == c[0] {
      LexTransitive(a[1..], b[1..], c[1..]);
    }
  }

  lemma {:induction false} LexTotal(a: string, b: string)
    ensures LexLess(a, b) || LexLess(b, a) || a == b
  {
    if |a| > 0 && |b| > 0 && a[0] == b[0] {
      LexTotal(a[1..], b[1..]);
      if a[1..] == b[1..] {
        assert a == [a[0]] + a[1..] && b == [b[0]] + b[1..];
      }
    }
  }

  /** `compare_ci`: `strcasecmp(a, b) < 0`, i.e. the order of the lower-cased strings. */
  predicate CompareCi(a: string, b: string) {
    LexLess(Utils.ToLower(a), Utils.ToLower(b))
  }

  /** `compare_ci` is a strict weak ordering whose incomparable pairs are exactly the names equal
      up to ASCII case, so `std::map` treats such names as one key. */
  lemma {:induction false} CompareCiIsStrictWeakOrder(a: string, b: string, c: string)
    ensures !CompareCi(a, a)
    ensures CompareCi(a, b) && CompareCi(b, c) ==> CompareCi(a, c)
    ensures !CompareCi(a, b) && !CompareCi(b, a) <==> Utils.EqualsIgnoreCase(a, b)
  {
    LexIrreflexive(Utils.ToLower(a));
    if CompareCi(a, b) && CompareCi(b, c) {
      LexTransitive(Utils.ToLower(a), Utils.ToLower(b), Utils.ToLower(c));
    }
    LexTotal(Utils.ToLower(a), Utils.ToLower(b));
    LexIrreflexive(Utils.ToLower(b));
    if Utils.EqualsIgnoreCase(a, b) {
    }
  }

  /** `RequestHeaders`: a map whose keys are compared with `compare_ci`. It is modelled by
      keying on the lower-cased name; the spelling a name was first stored with is not kept. */
  type RequestHeaders = map<string, string>

  function HeaderKey(name: string): (k: string)
    ensures |k| == |name| && Utils.EqualsIgnoreCase(k, name)
  {
    Utils.ToLower(name)
  }

  /** `headers.find(name)`. */
  function FindHeader(h: RequestHeaders, name: string): (r: Option<string>)
    ensures r.Some? <==> HeaderKey(name) in h
  {
    if HeaderKey(name) in h then Some(h[HeaderKey(name)]) else None
  }

  /** `headers[name] = value`. */
  function PutHeader(h: RequestHeaders, name: string, value: string): (r: RequestHeaders)
    ensures FindHeader(r, name) == Some(value)
    ensures forall n :: !Utils.EqualsIgnoreCase(n, name) ==> FindHeader(r, n) == FindHeader(h, n)
  {
    h[HeaderKey(name) := value]
  }

  /** A header name with no upper-case letter, as every name the core looks up is written. */
  predicate IsLowerName(name: string) {
    forall i | 0 <= i < |name| :: !IsUpper(name[i])
  }

  /** `headers.find(name)` for such a name: the stored key is the name itself. */
  function Lookup(h: RequestHeaders, name: string): (r: Option<string>)
    ensures r.Some? <==> name in h
    ensures r.Some? ==> r.value == h[name]
  {
    if name in h then Some(h[name]) else None
  }

  lemma {:induction false} LookupIsFind(h: RequestHeaders, name: string)
    requires IsLowerName(name)
    ensures Lookup(h, name) == FindHeader(h, name)
  {
    assert HeaderKey(name) == name;
  }

  /** `ResponseHeaders`: name/value pairs in the order they were pushed. */
  type ResponseHeaders = seq<(string, string)>

  /** Names that differ only in ASCII case find the same entry. */
  lemma {:induction false} FindHeaderIgnoresCase(h: RequestHeaders, a: string, b: string)
    requires Utils.EqualsIgnoreCase(a, b)
    ensures FindHeader(h, a) == FindHeader(h, b)
  {
  }
}
