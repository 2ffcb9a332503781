/** The URI codec of src/httpuv.cpp: `encodeURI`, `encodeURIComponent`, `decodeURI` and
    `decodeURIComponent`, which follow the ECMAScript URI handling functions (section 19.2.6 of
    ECMA-262) but work byte by byte on `std::string`. */
module UriCodec {
  import opened Wrappers
  import opened Ascii

  /** The characters `isReservedUrlChar` accepts. */
  const Reserved: string := ";,/?:@&=+$"


  predicate IsReservedUrlChar(c: char) {
    c == ';' || c == ',' || c == '/' || c == '?' || c == ':' || c == '@' || c == '&' || c == '='
    || c == '+' || c == '$'
  }

  predicate IsUnreservedMark(c: char) {
    c == '-' || c == '_' || c == '.' || c == '!' || c == '~' || c == '*' || c == '\'' || c == '('
    || c == ')'
  }

  /** `needsEscape`: letters and digits never, reserved characters when asked to, the marks
      `- _ . ! ~ * ' ( )` never, everything else always. */
  predicate NeedsEscape(c: char, encodeReserved: bool) {
    if IsLower(c) || IsUpper(c) || IsDigit(c) then false
    else if IsReservedUrlChar(c) then encodeReserved
    else !IsUnreservedMark(c)
  }

  lemma {:induction false} ReservedIsTheReservedString(c: char)
    ensures IsReservedUrlChar(c) <==> c in Reserved
  {
  }

  const LowerLetters: string := "abcdefghijklmnopqrstuvwxyz"
  const UpperLetters: string := "ABCDEFGHIJKLMNOPQRSTUVWXYZ"
  const DigitChars: string := "1234567890"
  const Marks: string := "-_.!~*'()"

  /** The `allowed` string of the source, spelled piece by piece in its order: the reserved
      characters, the letters, the digits (1 to 9, then 0) and the marks. The code never reads
      it; here it is the reference `needsEscape` is checked against. */
  const Allowed: string := Reserved + LowerLetters + UpperLetters + DigitChars + Marks

  lemma {:induction false} LowerLettersAreLower(c: char)
    ensures c in LowerLetters <==> IsLower(c)
  {
    if IsLower(c) {
      assert c == LowerLetters[c as int - 'a' as int];
    }
  }

  lemma {:induction false} UpperLettersAreUpper(c: char)
    ensures c in UpperLetters <==> IsUpper(c)
  {
    if IsUpper(c) {
      assert c == UpperLetters[c as int - 'A' as int];
    }
  }

  lemma {:induction false} DigitCharsAreDigits(c: char)
    ensures c in DigitChars <==> IsDigit(c)
  {
    if IsDigit(c) {
      assert c == "0123456789"[c as int - '0' as int];
    }
  }

  /** `needsEscape` agrees with the source's `allowed` string: `encodeURI` keeps exactly the
      characters of `allowed`, `encodeURIComponent` exactly those after its ten reserved ones. */
  lemma {:induction false} NeedsEscapeMatchesAllowed(c: char)
    ensures !NeedsEscape(c, false) <==> c in Allowed
    ensures !NeedsEscape(c, true) <==> c in Allowed[|Reserved|..]
  {
    var unreserved := LowerLetters + UpperLetters + DigitChars + Marks;
    assert Allowed == Reserved + unreserved;
    assert |Reserved| == 10;
    assert Allowed[|Reserved|..] == unreserved;
    LowerLettersAreLower(c);
    UpperLettersAreUpper(c);
    DigitCharsAreDigits(c);
    assert IsUnreservedMark(c) <==> c in Marks;
    assert IsReservedUrlChar(c) <==> c in Reserved;
  }

  // ---------------------------------------------------------------------------
  // encoding
  // ---------------------------------------------------------------------------

  /** `std::setw(2)` with the stream's default fill, a space, on the left. */
  function SetW2(text: string): (r: string)
    ensures |r| == if |text| < 2 then 2 else |text|
  {
    if |text| == 0 then "  " else if |text| == 1 then [' '] + text else text
  }

  /** `'%' << std::setw(2) << hex << uppercase << (unsigned) byte`, as written. */
  function EscapeAsWritten(b: nat): (r: string)
    requires b < 256
    ensures |r| == 3 && r[0] == '%'
    ensures b < 16 ==> r[1] == ' ' && r[2] == HexDigitUpper(b)
    ensures b >= 16 ==> r[1] == HexDigitUpper(b / 16) && r[2] == HexDigitUpper(b % 16)
  {
    assert b >= 16 ==> NatToHex(b) == [HexDigitUpper(b / 16), HexDigitUpper(b % 16)];
    "%" + SetW2(NatToHex(b))
  }

  /** `doEncodeURI` as written: each byte is copied or replaced by its escape. */
  function EncodeAsWritten(s: ByteString, encodeReserved: bool): (r: string)
    ensures |r| >= |s|
    ensures (forall i | 0 <= i < |s| :: !NeedsEscape(s[i], encodeReserved)) ==> r == s
  {
    if |s| == 0 then ""
    else
      (if NeedsEscape(s[0], encodeReserved) then EscapeAsWritten(s[0] as int) else [s[0]])
      + EncodeAsWritten(s[1..], encodeReserved)
  }

  // ---------------------------------------------------------------------------
  // decoding
  // ---------------------------------------------------------------------------

  /** `hexToInt`: 0 to 15 for a hexadecimal digit of either case, -1 for anything else. */
  function HexToInt(c: char): (v: int)
    ensures -1 <= v < 16
    ensures v >= 0 <==> HexDigitValue(c).Some?
    ensures v >= 0 ==> v == HexDigitValue(c).value
  {
    match HexDigitValue(c)
    case Some(d) => d
    case None => -1
  }

  /** `doDecodeURI`: a character with fewer than two characters after it is copied; a '%' and
      two hexadecimal digits become the byte they spell, unless decoding for `decodeURI` and the
      byte is reserved, or the digits are not hexadecimal, in which case all three characters
      are copied. */
  function Decode(s: string, component: bool): (r: string)
    ensures |r| <= |s|
    ensures IsByteString(s) ==> IsByteString(r)
  {
    if |s| == 0 then ""
    else if |s| < 3 || s[0] != '%' then [s[0]] + Decode(s[1..], component)
    else
      var hi := HexToInt(s[1]);
      var lo := HexToInt(s[2]);
      if hi < 0 || lo < 0 then s[..3] + Decode(s[3..], component)
      else
        var c := (hi * 16 + lo) as char;
        if !component && IsReservedUrlChar(c) then s[..3] + Decode(s[3..], component)
        else [c] + Decode(s[3..], component)
  }

  /** The last two characters are never decoded. */
  lemma {:induction false} DecodeShortTail(s: string, component: bool)
    requires |s| < 3
    ensures Decode(s, component) == s
  {
    if |s| > 0 {
      DecodeShortTail(s[1..], component);
      assert [s[0]] + s[1..] == s;
    }
  }

  /** A string without '%' decodes to itself. */
  lemma {:induction false} DecodeWithoutPercent(s: string, component: bool)
    requires '%' !in s
    ensures Decode(s, component) == s
  {
    if |s| > 0 {
      DecodeWithoutPercent(s[1..], component);
      assert [s[0]] + s[1..] == s;
    }
  }

  /** A '%' followed by a pair that is not hexadecimal is kept as three characters. */
  lemma {:induction false} InvalidEscapeIsKept(x: char, y: char, rest: string, component: bool)
    requires HexToInt(x) < 0 || HexToInt(y) < 0
    ensures Decode(['%', x, y] + rest, component) == ['%', x, y] + Decode(rest, component)
  {
    var s := ['%', x, y] + rest;
    assert s[..3] == ['%', x, y] && s[3..] == rest;
  }

  /** `decodeURI` leaves an escape of a reserved character encoded; `decodeURIComponent`
      decodes it. */
  lemma {:induction false} ReservedEscapeHandling(x: char, y: char, rest: string)
    requires HexToInt(x) >= 0 && HexToInt(y) >= 0
    requires IsReservedUrlChar((HexToInt(x) * 16 + HexToInt(y)) as char)
    ensures Decode(['%', x, y] + rest, false) == ['%', x, y] + Decode(rest, false)
    ensures Decode(['%', x, y] + rest, true)
            == [(HexToInt(x) * 16 + HexToInt(y)) as char] + Decode(rest, true)
  {
    var s := ['%', x, y] + rest;
    assert s[..3] == ['%', x, y] && s[3..] == rest;
  }

  // ---------------------------------------------------------------------------
  // the round trip, as written and corrected
  // ---------------------------------------------------------------------------

  /** A byte that is copied by the encoder is copied back by the decoder. */
  lemma {:induction false} DecodeCopied(c: char, rest: string, component: bool)
    requires c != '%'
    ensures Decode([c] + rest, component) == [c] + Decode(rest, component)
  {
    assert ([c] + rest)[1..] == rest;
  }

  /** An escape with two hexadecimal digits decodes to the byte it spells. */
  lemma {:induction false} DecodeEscape(b: nat, hi: char, lo: char, rest: string, component: bool)
    requires b < 256 && HexDigitValue(hi) == Some(b / 16) && HexDigitValue(lo) == Some(b % 16)
    requires component || !IsReservedUrlChar(b as char)
    ensures Decode(['%', hi, lo] + rest, component) == [b as char] + Decode(rest, component)
  {
    var s := ['%', hi, lo] + rest;
    assert s[..3] == ['%', hi, lo] && s[3..] == rest;
    assert HexToInt(hi) * 16 + HexToInt(lo) == b;
  }

  predicate NoByteBelow16(s: string) {
    forall i | 0 <= i < |s| :: s[i] as int >= 16
  }

  /** Decoding undoes encoding, with the same flag, for every string whose bytes are all at
      least 0x10: `decodeURI(encodeURI(s)) == s` and likewise for the component pair. */
  lemma {:induction false} RoundTripAsWritten(s: ByteString, flag: bool)
    requires NoByteBelow16(s)
    ensures Decode(EncodeAsWritten(s, flag), flag) == s
  {
    if |s| > 0 {
      var c := s[0];
      var rest := EncodeAsWritten(s[1..], flag);
      RoundTripAsWritten(s[1..], flag);
      if NeedsEscape(c, flag) {
        EscapeAsWrittenReadsBack(c, rest, flag);
      } else {
        PercentIsEscaped(flag);
        DecodeCopied(c, rest, flag);
      }
      assert [c] + s[1..] == s;
    }
  }

  lemma {:induction false} PercentIsEscaped(flag: bool)
    ensures NeedsEscape('%', flag)
  {
  }

  /** The escape of a byte of at least 0x10 decodes back to it. */
  lemma {:induction false} EscapeAsWrittenReadsBack(c: char, rest: string, flag: bool)
    requires 16 <= c as int < 256 && NeedsEscape(c, flag)
    ensures Decode(EscapeAsWritten(c as int) + rest, flag) == [c] + Decode(rest, flag)
  {
    var e := EscapeAsWritten(c as int);
    HexDigitRoundTrip(c as int / 16);
    HexDigitRoundTrip(c as int % 16);
    assert e == ['%', e[1], e[2]];
    DecodeEscape(c as int, e[1], e[2], rest, flag);
  }

  /** A byte below 0x10 is escaped as '%', a space and one digit, which the decoder does not
      recognise: a line feed comes back as "% A". */
  lemma {:induction false} LineFeedDoesNotRoundTrip(flag: bool)
    ensures EncodeAsWritten("\n", flag) == "% A"
    ensures Decode(EncodeAsWritten("\n", flag), flag) == "% A"
  {
    assert NeedsEscape('\n', flag);
    assert EscapeAsWritten(10) == "% A";
    InvalidEscapeIsKept(' ', 'A', "", flag);
  }

  /** The escape as evidently intended: two upper-case hexadecimal digits, zero-filled. */
  function Escape(b: nat): (r: string)
    requires b < 256
    ensures |r| == 3 && r[0] == '%'
    ensures HexDigitValue(r[1]) == Some(b / 16) && HexDigitValue(r[2]) == Some(b % 16)
  {
    HexDigitRoundTrip(b / 16);
    HexDigitRoundTrip(b % 16);
    ['%', HexDigitUpper(b / 16), HexDigitUpper(b % 16)]
  }

  /** `doEncodeURI` with the escape zero-filled. */
  function Encode(s: ByteString, encodeReserved: bool): (r: string)
    ensures |r| >= |s|
    ensures (forall i | 0 <= i < |s| :: !NeedsEscape(s[i], encodeReserved)) ==> r == s
  {
    if |s| == 0 then ""
    else
      (if NeedsEscape(s[0], encodeReserved) then Escape(s[0] as int) else [s[0]])
      + Encode(s[1..], encodeReserved)
  }

  /** With the zero-filled escape the round trip holds for every byte string. */
  lemma {:induction false} RoundTrip(s: ByteString, flag: bool)
    ensures Decode(Encode(s, flag), flag) == s
  {
    if |s| > 0 {
      var c := s[0];
      var rest := Encode(s[1..], flag);
      RoundTrip(s[1..], flag);
      if NeedsEscape(c, flag) {
        var e := Escape(c as int);
        assert e == ['%', e[1], e[2]];
        DecodeEscape(c as int, e[1], e[2], rest, flag);
      } else {
        PercentIsEscaped(flag);
        DecodeCopied(c, rest, flag);
      }
      assert [c] + s[1..] == s;
    }
  }

  /** The two encoders agree on every byte of 0x10 or more. */
  lemma {:induction false} EncodersAgreeFrom16(s: ByteString, flag: bool)
    requires NoByteBelow16(s)
    ensures EncodeAsWritten(s, flag) == Encode(s, flag)
  {
    if |s| > 0 {
      EncodersAgreeFrom16(s[1..], flag);
      if NeedsEscape(s[0], flag) {
        HexDigitRoundTrip(s[0] as int / 16);
        HexDigitRoundTrip(s[0] as int % 16);
        assert EscapeAsWritten(s[0] as int) == Escape(s[0] as int);
      }
    }
  }

  // ---------------------------------------------------------------------------
  // the exported vector functions
  // ---------------------------------------------------------------------------

  /** `encodeURI` (reserved characters kept) and `encodeURIComponent` (escaped), element-wise,
    * with the space-filled escape the source writes. */
  function EncodeAll(values: seq<ByteString>, component: bool): (r: seq<string>)
    ensures |r| == |values|
    ensures forall i | 0 <= i < |values| :: r[i] == EncodeAsWritten(values[i], component)
  {
    seq(|values|, i requires 0 <= i < |values| => EncodeAsWritten(values[i], component))
  }

  /** `decodeURI` and `decodeURIComponent`, element-wise. */
  function DecodeAll(values: seq<string>, component: bool): (r: seq<string>)
    ensures |r| == |values|
    ensures forall i | 0 <= i < |values| :: r[i] == Decode(values[i], component)
  {
    seq(|values|, i requires 0 <= i < |values| => Decode(values[i], component))
  }

  /** The exported pair round-trips every vector none of whose elements holds a byte below 0x10. */
  lemma {:induction false} VectorRoundTrip(values: seq<ByteString>, component: bool)
    requires forall i | 0 <= i < |values| :: NoByteBelow16(values[i])
    ensures DecodeAll(EncodeAll(values, component), component) == values
  {
    forall i | 0 <= i < |values|
      ensures Decode(EncodeAsWritten(values[i], component), component) == values[i]
    {
      RoundTripAsWritten(values[i], component);
    }
  }

  /** The vector encoder with the zero-filled escape. */
  function EncodeAllIntended(values: seq<ByteString>, component: bool): (r: seq<string>)
    ensures |r| == |values|
    ensures forall i | 0 <= i < |values| :: r[i] == Encode(values[i], component)
  {
    seq(|values|, i requires 0 <= i < |values| => Encode(values[i], component))
  }

  /** With the zero-filled escape every vector round-trips. */
  lemma {:induction false} VectorRoundTripIntended(values: seq<ByteString>, component: bool)
    ensures DecodeAll(EncodeAllIntended(values, component), component) == values
  {
    forall i | 0 <= i < |values|
      ensures Decode(Encode(values[i], component), component) == values[i]
    {
      RoundTrip(values[i], component);
    }
  }
}
