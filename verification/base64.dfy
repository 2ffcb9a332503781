/** Base64 encoding (section 4 of RFC 4648) as src/base64/base64.cpp and base64.hpp do it:
    `encodeblock` turns up to three bytes into four characters, `b64encode` walks the input in
    groups of three and zero-fills the last group. Shifts and masks on a byte are written as
    division and remainder by powers of two. */
module Base64 {
  import opened Ascii

  const UpperLetters: string := "ABCDEFGHIJKLMNOPQRSTUVWXYZ"
  const LowerLetters: string := "abcdefghijklmnopqrstuvwxyz"
  const Digits: string := "0123456789"

  /** The `cb64` translation table, "ABC...XYZabc...xyz0123456789+/". */
  const Alphabet: string := UpperLetters + LowerLetters + Digits + "+/"

  /** The position of a character in the table, or -1. */
  function SextetOf(c: char): (v: int)
    ensures -1 <= v < 64
  {
    if 'A' <= c <= 'Z' then c as int - 'A' as int
    else if 'a' <= c <= 'z' then c as int - 'a' as int + 26
    else if '0' <= c <= '9' then c as int - '0' as int + 52
    else if c == '+' then 62
    else if c == '/' then 63
    else -1
  }


  lemma {:induction false} UpperAt(i: nat)
    requires i < 26
    ensures UpperLetters[i] as int == 'A' as int + i
  {
  }

  lemma {:induction false} LowerAt(i: nat)
    requires i < 26
    ensures LowerLetters[i] as int == 'a' as int + i
  {
  }

  lemma {:induction false} DigitAt(i: nat)
    requires i < 10
    ensures Digits[i] as int == '0' as int + i
  {
  }

  /** Entry `i` of the table, computed from its position. */
  function Symbol(i: int): (c: char)
    requires 0 <= i < 64
    ensures c != '='
    ensures SextetOf(c) == i
  {
    if i < 26 then (65 + i) as char
    else if i < 52 then (97 + i - 26) as char
    else if i < 62 then (48 + i - 52) as char
    else if i == 62 then '+'
    else '/'
  }

  /** `Symbol` reads the `cb64` table. */
  lemma {:induction false} AlphabetAt(i: nat)
    requires i < 64
    ensures Alphabet[i] == Symbol(i)
  {
    if i < 26 {
      UpperAt(i);
    } else if i < 52 {
      LowerAt(i - 26);
    } else if i < 62 {
      DigitAt(i - 52);
    }
  }

  /** A character of the table, or the padding character. */
  predicate IsBase64Char(c: char) {
    SextetOf(c) >= 0 || c == '='
  }

  /** `encodeblock(in, out, len)`: the first two characters always come from the table; the
      third is '=' unless `len > 1` and the fourth is '=' unless `len > 2`. */
  function EncodeBlock(in0: Octet, in1: Octet, in2: Octet, len: int): (out: string)
    ensures |out| == 4
    ensures forall i | 0 <= i < 4 :: IsBase64Char(out[i])
    ensures out[0] != '=' && out[1] != '='
    ensures out[2] == '=' <==> len <= 1
    ensures out[3] == '=' <==> len <= 2
  {
    var s0, s1, s2, s3 := in0 / 4, (in0 % 4) * 16 + in1 / 16, (in1 % 16) * 4 + in2 / 64, in2 % 64;
    [Symbol(s0), Symbol(s1),
     if len > 1 then Symbol(s2) else '=',
     if len > 2 then Symbol(s3) else '=']
  }

  /** The four characters are `cb64` entries indexed by the top six bits of `in[0]`, the low
      two of `in[0]` with the top four of `in[1]`, the low four of `in[1]` with the top two of
      `in[2]`, and the low six of `in[2]`. */
  lemma {:induction false} EncodeBlockReadsTable(in0: Octet, in1: Octet, in2: Octet, len: int)
    ensures EncodeBlock(in0, in1, in2, len)[0] == Alphabet[in0 / 4]
    ensures EncodeBlock(in0, in1, in2, len)[1] == Alphabet[(in0 % 4) * 16 + in1 / 16]
    ensures len > 1 ==> EncodeBlock(in0, in1, in2, len)[2] == Alphabet[(in1 % 16) * 4 + in2 / 64]
    ensures len > 2 ==> EncodeBlock(in0, in1, in2, len)[3] == Alphabet[in2 % 64]
  {
    AlphabetAt(in0 / 4);
    AlphabetAt((in0 % 4) * 16 + in1 / 16);
    AlphabetAt((in1 % 16) * 4 + in2 / 64);
    AlphabetAt(in2 % 64);
  }

  /** `b64encode`: full groups of three, then a zero-filled final group of one or two bytes
      encoded with that length, so the padding tells how many bytes the last group held: none
      for a whole number of groups, "==" after one byte and a single '=' after two. */
  function Encode(data: seq<Octet>): (r: string)
    ensures |data| > 0 <==> |r| >= 4
    ensures |data| % 3 == 0 ==> forall i | 0 <= i < |r| :: r[i] != '='
    ensures |data| % 3 == 1 ==> r[|r| - 2] == '=' && r[|r| - 1] == '='
    ensures |data| % 3 == 2 ==> r[|r| - 2] != '=' && r[|r| - 1] == '='
    decreases |data|
  {
    if |data| == 0 then ""
    else if |data| == 1 then EncodeBlock(data[0], 0, 0, 1)
    else if |data| == 2 then EncodeBlock(data[0], data[1], 0, 2)
    else
      var head := EncodeBlock(data[0], data[1], data[2], 3);
      var rest := Encode(data[3..]);
      var r := head + rest;
      assert |data[3..]| % 3 == |data| % 3;
      assert |data| % 3 != 0 ==> |rest| >= 4 && r[|r| - 1] == rest[|rest| - 1] && r[|r| - 2] == rest[|rest| - 2];
      r
  }

  /** Four characters for every started group of three bytes. */
  lemma {:induction false} EncodeLength(data: seq<Octet>)
    ensures |Encode(data)| == 4 * ((|data| + 2) / 3)
    decreases |data|
  {
    var n := |data|;
    if n == 0 {
      assert (n + 2) / 3 == 0;
    } else if n < 3 {
      assert (n + 2) / 3 == 1;
      assert |Encode(data)| == 4;
    } else {
      EncodeLength(data[3..]);
      assert |Encode(data)| == 4 + |Encode(data[3..])|;
      assert (n + 2) / 3 == (n - 1) / 3 + 1;
    }
  }

  /** Every output character is in the table or is '='; '=' appears only in the last group. */
  lemma {:induction false} EncodeAlphabet(data: seq<Octet>)
    ensures forall i | 0 <= i < |Encode(data)| :: IsBase64Char(Encode(data)[i])
    ensures forall i | 0 <= i < |Encode(data)| - 4 :: Encode(data)[i] != '='
    decreases |data|
  {
    if |data| >= 3 {
      EncodeAlphabet(data[3..]);
      var head := EncodeBlock(data[0], data[1], data[2], 3);
      var tail := Encode(data[3..]);
      assert Encode(data) == head + tail;
      assert forall i | 4 <= i < 4 + |tail| :: (head + tail)[i] == tail[i - 4];
    }
  }

  /** Encoding distributes over a split after a whole number of groups. */
  lemma {:induction false} EncodeConcat(p: seq<Octet>, q: seq<Octet>)
    requires |p| % 3 == 0
    ensures Encode(p + q) == Encode(p) + Encode(q)
    decreases |p|
  {
    if |p| == 0 {
      assert p + q == q;
    } else {
      assert (p + q)[3..] == p[3..] + q;
      EncodeConcat(p[3..], q);
    }
  }

  // ---------------------------------------------------------------------------
  // reference decoder
  // ---------------------------------------------------------------------------

  function Sextet(c: char): nat {
    var v := SextetOf(c);
    if v < 0 then 0 else v
  }

  /** Four characters back to one, two or three byte values, by the padding they carry. */
  function DecodeBlock(q: string): (r: seq<int>)
    requires |q| == 4
    ensures 1 <= |r| <= 3
  {
    var b0 := Sextet(q[0]) * 4 + Sextet(q[1]) / 16;
    var b1 := (Sextet(q[1]) % 16) * 16 + Sextet(q[2]) / 4;
    var b2 := (Sextet(q[2]) % 4) * 64 + Sextet(q[3]);
    if q[2] == '=' then [b0] else if q[3] == '=' then [b0, b1] else [b0, b1, b2]
  }

  /** Group by group; a trailing fragment shorter than a group decodes to nothing. */
  function Decode(s: string): seq<int>
    decreases |s|
  {
    if |s| < 4 then [] else DecodeBlock(s[..4]) + Decode(s[4..])
  }

  /** The bits of three bytes survive the regrouping into four sextets and back. */
  lemma {:induction false} FirstByteBack(a: Octet, b: Octet)
    ensures (a / 4) * 4 + ((a % 4) * 16 + b / 16) / 16 == a
  {
  }

  lemma {:induction false} SecondByteBack(a: Octet, b: Octet, c: Octet)
    ensures (((a % 4) * 16 + b / 16) % 16) * 16 + ((b % 16) * 4 + c / 64) / 4 == b
  {
    assert ((a % 4) * 16 + b / 16) % 16 == b / 16;
    assert ((b % 16) * 4 + c / 64) / 4 == b % 16;
  }

  lemma {:induction false} ThirdByteBack(b: Octet, c: Octet)
    ensures (((b % 16) * 4 + c / 64) % 4) * 64 + c % 64 == c
  {
    assert ((b % 16) * 4 + c / 64) % 4 == c / 64;
  }

  lemma {:induction false} DecodeEncodeBlock(a: Octet, b: Octet, c: Octet, len: int)
    requires 1 <= len <= 3
    ensures DecodeBlock(EncodeBlock(a, b, c, len))
            == (if len == 1 then [a] else if len == 2 then [a, b] else [a, b, c])
  {
    var out := EncodeBlock(a, b, c, len);
    var s0, s1, s2, s3 := a / 4, (a % 4) * 16 + b / 16, (b % 16) * 4 + c / 64, c % 64;
    assert Sextet(out[0]) == s0;
    assert Sextet(out[1]) == s1;
    assert len > 1 ==> Sextet(out[2]) == s2;
    assert len > 2 ==> Sextet(out[3]) == s3;
    FirstByteBack(a, b);
    SecondByteBack(a, b, c);
    ThirdByteBack(b, c);
    var b0 := s0 * 4 + s1 / 16;
    var b1 := (s1 % 16) * 16 + s2 / 4;
    var b2 := (s2 % 4) * 64 + s3;
    assert b0 == a && b1 == b && b2 == c;
  }

  /** Decoding a group followed by more text decodes the group, then the rest. */
  lemma {:induction false} DecodeAppend(head: string, tail: string)
    requires |head| == 4
    ensures Decode(head + tail) == DecodeBlock(head) + Decode(tail)
  {
    var s := head + tail;
    assert s[..4] == head;
    assert s[4..] == tail;
  }

  /** A final group of one or two bytes decodes back to them. */
  lemma {:induction false} DecodeEncodeShort(data: seq<Octet>)
    requires 1 <= |data| <= 2
    ensures Decode(Encode(data)) == data
  {
    var e := if |data| == 1 then EncodeBlock(data[0], 0, 0, 1)
             else EncodeBlock(data[0], data[1], 0, 2);
    assert Encode(data) == e;
    if |data| == 1 {
      DecodeEncodeBlock(data[0], 0, 0, 1);
    } else {
      DecodeEncodeBlock(data[0], data[1], 0, 2);
    }
    DecodeAppend(e, "");
    assert e + "" == e;
  }

  /** Decoding recovers every byte: `b64encode` loses nothing. */
  lemma {:induction false} DecodeEncode(data: seq<Octet>)
    ensures Decode(Encode(data)) == data
    decreases |data|
  {
    if 1 <= |data| <= 2 {
      DecodeEncodeShort(data);
    } else if |data| >= 3 {
      var head := EncodeBlock(data[0], data[1], data[2], 3);
      var tail := Encode(data[3..]);
      assert Encode(data) == head + tail;
      DecodeEncodeBlock(data[0], data[1], data[2], 3);
      DecodeEncode(data[3..]);
      DecodeAppend(head, tail);
      assert data == [data[0], data[1], data[2]] + data[3..];
    }
  }
}
