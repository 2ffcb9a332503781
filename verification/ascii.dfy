/** Character-level helpers in the C locale, plus the two string helpers the core calls but whose
    definitions are not part of this model: `split` on a one-character delimiter and `trim` of
    ASCII white space. Also decimal and hexadecimal rendering of integers, which the source gets
    from `std::to_string`, `ostream <<` and `snprintf`. */
module Ascii {
  import opened Wrappers

  /** A C++ `std::string`: every character is one byte. */
  predicate IsByteString(s: string) {
    forall i | 0 <= i < |s| :: s[i] as int < 256
  }

  type ByteString = s: string | IsByteString(s)

  /** An `unsigned char` / `uint8_t`. Bit operations on it are written as division and remainder
      by powers of two. */
  type Octet = x: int | 0 <= x < 256

  /** The bytes of a `std::string`. */
  function BytesOf(s: ByteString): (r: seq<Octet>)
    ensures |r| == |s| && forall i | 0 <= i < |s| :: r[i] == s[i] as int
  {
    seq(|s|, i requires 0 <= i < |s| => s[i] as int)
  }

  /** The characters of raw bytes. */
  function CharsOf(b: seq<Octet>): (s: ByteString)
    ensures |s| == |b| && forall i | 0 <= i < |b| :: s[i] as int == b[i]
  {
    seq(|b|, i requires 0 <= i < |b| => b[i] as char)
  }

  lemma {:induction false} CharsOfBytesOf(s: ByteString)
    ensures CharsOf(BytesOf(s)) == s
  {
  }

  predicate IsDigit(c: char) {
    '0' <= c <= '9'
  }

  predicate IsUpper(c: char) {
    'A' <= c <= 'Z'
  }

  predicate IsLower(c: char) {
    'a' <= c <= 'z'
  }

  /** `isspace` in the C locale: space, \t, \n, \v, \f, \r. */
  predicate IsSpace(c: char) {
    c == ' ' || ('\t' <= c <= '\r')
  }

  /** `tolower` in the C locale. */
  function LowerChar(c: char): (r: char)
    ensures IsUpper(c) ==> r as int == c as int + 32
    ensures !IsUpper(c) ==> r == c
    ensures !IsUpper(r)
  {
    if IsUpper(c) then (c as int + 32) as char else c
  }

  // ---------------------------------------------------------------------------
  // trim: strip leading and trailing ASCII white space
  // ---------------------------------------------------------------------------

  function TrimLeft(s: string): (r: string)
    ensures |r| <= |s| && r == s[|s| - |r|..]
    ensures |r| > 0 ==> !IsSpace(r[0])
    ensures forall i | 0 <= i < |s| - |r| :: IsSpace(s[i])
  {
    if |s| > 0 && IsSpace(s[0]) then
      var r := TrimLeft(s[1..]);
      assert forall i | 1 <= i < |s| :: s[i] == s[1..][i - 1];
      r
    else s
  }

  function TrimRight(s: string): (r: string)
    ensures |r| <= |s| && r == s[..|r|]
    ensures |r| > 0 ==> !IsSpace(r[|r| - 1])
    ensures forall i | |r| <= i < |s| :: IsSpace(s[i])
  {
    if |s| > 0 && IsSpace(s[|s| - 1]) then TrimRight(s[..|s| - 1]) else s
  }

  /** `r` is the slice of `s` starting at `i`, with nothing but white space before and after. */
  predicate SliceBetweenSpaces(s: string, r: string, i: nat) {
    i + |r| <= |s| && r == s[i..i + |r|]
    && (forall k | 0 <= k < i :: IsSpace(s[k]))
    && (forall k | i + |r| <= k < |s| :: IsSpace(s[k]))
  }

  /** The `trim` helper of the source: ASCII white space is removed at both ends, and only
      there: the result is the slice of the input between a white-space prefix and a
      white-space suffix. */
  function Trim(s: string): (r: string)
    ensures |r| > 0 ==> !IsSpace(r[0]) && !IsSpace(r[|r| - 1])
    ensures |r| <= |s|
    ensures exists i: nat :: SliceBetweenSpaces(s, r, i)
    ensures forall c | c in r :: c in s
  {
    var r := TrimRight(TrimLeft(s));
    TrimBothEnds(s);
    r
  }

  /** Trimming from the left and then from the right leaves a slice between white space. */
  lemma {:induction false} TrimBothEnds(s: string)
    ensures SliceBetweenSpaces(s, TrimRight(TrimLeft(s)), |s| - |TrimLeft(s)|)
  {
    var t := TrimLeft(s);
    var r := TrimRight(t);
    var i := |s| - |t|;
    assert r == s[i..i + |r|];
    forall k | i + |r| <= k < |s|
      ensures IsSpace(s[k])
    {
      assert s[k] == t[k - i];
    }
  }

  /** Text with no white space at either end is its own trim. */
  lemma {:induction false} TrimKeeps(s: string)
    requires |s| > 0 ==> !IsSpace(s[0]) && !IsSpace(s[|s| - 1])
    ensures Trim(s) == s
  {
  }

  /** A leading space is trimmed away. */
  lemma {:induction false} TrimLeadingSpace(s: string)
    requires |s| > 0 ==> !IsSpace(s[0]) && !IsSpace(s[|s| - 1])
    ensures Trim(" " + s) == s
  {
    assert (" " + s)[1..] == s;
    assert TrimLeft(" " + s) == TrimLeft(s);
  }

  // ---------------------------------------------------------------------------
  // find / find_last_of for one character
  // ---------------------------------------------------------------------------

  /** `find(c)`: the first position of `c`, if any. */
  function FirstIndexOf(s: string, c: char): (r: Option<nat>)
    ensures r.Some? ==> r.value < |s| && s[r.value] == c
    ensures r.Some? ==> forall j | 0 <= j < r.value :: s[j] != c
    ensures r.None? <==> c !in s
  {
    if |s| == 0 then None
    else if s[0] == c then Some(0)
    else match FirstIndexOf(s[1..], c)
      case Some(i) => Some(i + 1)
      case None => None
  }

  /** `find_last_of(c)`: the last position of `c`, if any. */
  function LastIndexOf(s: string, c: char): (r: Option<nat>)
    ensures r.Some? ==> r.value < |s| && s[r.value] == c
    ensures r.Some? ==> forall j | r.value < j < |s| :: s[j] != c
    ensures r.None? <==> c !in s
  {
    if |s| == 0 then None
    else if s[|s| - 1] == c then Some(|s| - 1)
    else LastIndexOf(s[..|s| - 1], c)
  }

  // ---------------------------------------------------------------------------
  // split on a one-character delimiter
  // ---------------------------------------------------------------------------

  /** The `split` helper of the source: the maximal pieces between delimiters, so there is
      always at least one piece and `n` delimiters give `n + 1` pieces. */
  function Split(s: string, d: char): (parts: seq<string>)
    ensures |parts| >= 1
  {
    if |s| == 0 then [""]
    else
      var rest := Split(s[1..], d);
      if s[0] == d then [""] + rest
      else [[s[0]] + rest[0]] + rest[1..]
  }

  /** No piece contains the delimiter. */
  lemma {:induction false} SplitPiecesLackDelimiter(s: string, d: char)
    ensures forall i, j | 0 <= i < |Split(s, d)| && 0 <= j < |Split(s, d)[i]| :: Split(s, d)[i][j] != d
  {
    if |s| > 0 {
      SplitPiecesLackDelimiter(s[1..], d);
      var rest := Split(s[1..], d);
      if s[0] != d {
        assert forall j | 1 <= j < |[s[0]] + rest[0]| :: ([s[0]] + rest[0])[j] == rest[0][j - 1];
      }
    }
  }

  /** Puts the pieces back together with the delimiter between them. */
  function Join(parts: seq<string>, d: char): string
    requires |parts| >= 1
  {
    if |parts| == 1 then parts[0] else parts[0] + [d] + Join(parts[1..], d)
  }

  lemma {:induction false} SplitJoin(s: string, d: char)
    ensures Join(Split(s, d), d) == s
  {
    if |s| > 0 {
      var rest := Split(s[1..], d);
      SplitJoin(s[1..], d);
      if s[0] != d {
        if |rest| == 1 {
        } else {
          assert Join(rest, d) == rest[0] + [d] + Join(rest[1..], d);
          assert Join(Split(s, d), d) == [s[0]] + rest[0] + [d] + Join(rest[1..], d);
        }
      }
    }
  }

  /** A string without the delimiter is its own single piece. */
  lemma {:induction false} SplitWithoutDelimiter(s: string, d: char)
    requires forall i | 0 <= i < |s| :: s[i] != d
    ensures Split(s, d) == [s]
  {
    if |s| > 0 {
      SplitWithoutDelimiter(s[1..], d);
      assert [s[0]] + s[1..] == s;
    }
  }

  /** A piece without the delimiter, then the delimiter: that piece comes first, then the
      pieces of the rest. */
  lemma {:induction false} SplitAfter(a: string, b: string, d: char)
    requires forall i | 0 <= i < |a| :: a[i] != d
    ensures Split(a + [d] + b, d) == [a] + Split(b, d)
    decreases |a|
  {
    if |a| == 0 {
      assert [d] + b == ([] + [d]) + b;
      assert ([d] + b)[1..] == b;
    } else {
      SplitAfter(a[1..], b, d);
      assert (a + [d] + b)[1..] == a[1..] + [d] + b;
      assert [a[0]] + a[1..] == a;
    }
  }

  // ---------------------------------------------------------------------------
  // decimal rendering and its inverse
  // ---------------------------------------------------------------------------

  function DigitChar(v: nat): (c: char)
    requires v < 10
    ensures IsDigit(c) && c as int - '0' as int == v
  {
    ('0' as int + v) as char
  }

  predicate AllDigits(s: string) {
    forall i | 0 <= i < |s| :: IsDigit(s[i])
  }

  /** The value of a string of decimal digits, most significant first. */
  function DecimalValue(s: string): nat
    requires AllDigits(s)
  {
    if |s| == 0 then 0
    else DecimalValue(s[..|s| - 1]) * 10 + (s[|s| - 1] as int - '0' as int)
  }

  /** The decimal digits of `n` with no leading zero ("0" for zero). */
  function NatToDecimal(n: nat): (s: string)
    ensures |s| >= 1 && AllDigits(s)
    ensures |s| > 1 ==> s[0] != '0'
  {
    if n < 10 then [DigitChar(n)] else NatToDecimal(n / 10) + [DigitChar(n % 10)]
  }

  lemma {:induction false} DecimalRoundTrip(n: nat)
    ensures DecimalValue(NatToDecimal(n)) == n
  {
    if n >= 10 {
      var s := NatToDecimal(n);
      assert s[..|s| - 1] == NatToDecimal(n / 10);
      DecimalRoundTrip(n / 10);
    }
  }

  /** `std::to_string(int)` and `ostream << int`: a minus sign for negative values. */
  function IntToDecimal(i: int): string {
    if i < 0 then "-" + NatToDecimal(-i) else NatToDecimal(i)
  }

  /** `%0Nd`: zero-padded to at least `width` characters, the sign counting as one. */
  function ZeroPadded(i: int, width: nat): (s: string)
    ensures i >= 0 ==> |s| == if |NatToDecimal(i)| >= width then |NatToDecimal(i)| else width
  {
    var digits := NatToDecimal(if i < 0 then -i else i);
    var sign := if i < 0 then "-" else "";
    var pad := if |sign| + |digits| >= width then 0 else width - |sign| - |digits|;
    sign + Zeros(pad) + digits
  }

  function Zeros(n: nat): (s: string)
    ensures |s| == n && forall i | 0 <= i < n :: s[i] == '0'
  {
    if n == 0 then "" else "0" + Zeros(n - 1)
  }

  function Pow10(k: nat): (p: nat)
    ensures p >= 1
  {
    if k == 0 then 1 else 10 * Pow10(k - 1)
  }

  /** A number below 10^k has at most k digits. */
  lemma {:induction false} DecimalLength(n: nat, k: nat)
    requires k >= 1 && n < Pow10(k)
    ensures |NatToDecimal(n)| <= k
  {
    if n >= 10 {
      DecimalLength(n / 10, k - 1);
    }
  }

  /** Leading zeros do not change a decimal value. */
  lemma {:induction false} LeadingZeros(k: nat, s: string)
    requires AllDigits(s)
    ensures AllDigits(Zeros(k) + s)
    ensures DecimalValue(Zeros(k) + s) == DecimalValue(s)
  {
    var z := Zeros(k) + s;
    if |s| == 0 {
      assert z == Zeros(k);
      ZerosValue(k);
    } else {
      assert z[..|z| - 1] == Zeros(k) + s[..|s| - 1];
      LeadingZeros(k, s[..|s| - 1]);
    }
  }

  lemma {:induction false} ZerosValue(k: nat)
    ensures AllDigits(Zeros(k)) && DecimalValue(Zeros(k)) == 0
  {
    if k > 0 {
      assert Zeros(k)[..k - 1] == Zeros(k - 1);
      ZerosValue(k - 1);
    }
  }

  /** `%0Nd` of a number with at most N digits is exactly N digits that read back as the number. */
  lemma {:induction false} ZeroPaddedReadsBack(n: nat, width: nat)
    requires width >= 1 && n < Pow10(width)
    ensures |ZeroPadded(n, width)| == width
    ensures AllDigits(ZeroPadded(n, width))
    ensures DecimalValue(ZeroPadded(n, width)) == n
  {
    DecimalLength(n, width);
    var digits := NatToDecimal(n);
    assert ZeroPadded(n, width) == Zeros(width - |digits|) + digits;
    LeadingZeros(width - |digits|, digits);
    DecimalRoundTrip(n);
  }

  // ---------------------------------------------------------------------------
  // upper-case hexadecimal rendering (`std::hex << std::uppercase`, `%lX`)
  // ---------------------------------------------------------------------------

  const HexDigits: string := "0123456789ABCDEF"

  /** Digit `v` of `HexDigits`, computed from its position. */
  function HexDigitUpper(v: nat): (c: char)
    requires v < 16
    ensures (c == '0') == (v == 0)
  {
    if v < 10 then ('0' as int + v) as char else ('A' as int + v - 10) as char
  }

  lemma {:induction false} HexDigitsTable(v: nat)
    requires v < 16
    ensures HexDigits[v] == HexDigitUpper(v)
  {
  }

  /** The value of one hexadecimal digit, either case. */
  function HexDigitValue(c: char): Option<nat> {
    if '0' <= c <= '9' then Some(c as int - '0' as int)
    else if 'A' <= c <= 'F' then Some(c as int - 'A' as int + 10)
    else if 'a' <= c <= 'f' then Some(c as int - 'a' as int + 10)
    else None
  }

  lemma {:induction false} HexDigitRoundTrip(v: nat)
    requires v < 16
    ensures HexDigitValue(HexDigitUpper(v)) == Some(v)
  {
  }

  predicate AllHexDigits(s: string) {
    forall i | 0 <= i < |s| :: HexDigitValue(s[i]).Some?
  }

  function HexValue(s: string): nat
    requires AllHexDigits(s)
  {
    if |s| == 0 then 0 else HexValue(s[..|s| - 1]) * 16 + HexDigitValue(s[|s| - 1]).value
  }

  /** The upper-case hexadecimal digits of `n` with no leading zero ("0" for zero). */
  function NatToHex(n: nat): (s: string)
    ensures |s| >= 1 && AllHexDigits(s)
    ensures |s| > 1 ==> s[0] != '0'
  {
    if n < 16 then [HexDigitUpper(n)] else NatToHex(n / 16) + [HexDigitUpper(n % 16)]
  }

  lemma {:induction false} HexRoundTrip(n: nat)
    ensures HexValue(NatToHex(n)) == n
  {
    if n >= 16 {
      var s := NatToHex(n);
      assert s[..|s| - 1] == NatToHex(n / 16);
      HexRoundTrip(n / 16);
    }
  }
}
