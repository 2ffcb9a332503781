/** The frame-header reader of src/websockets.cpp (`WSHyBiFrameHeader`): bit fields of the first
    two bytes, the 16- or 64-bit extended payload length, the masking key, and the header length
    they add up to, all as laid out in section 5.2 of RFC 6455. The FIN bit and the opcode are
    decoded by the protocol object the header was made with (RFC 6455 or HyBi-03). The
    parser's callback events live here too, since every parser produces them. */
module WebSocketFrame {
  import opened Ascii
  import opened Constants
  import WebSocketIetf
  import WebSocketHyBi03

  // ---------------------------------------------------------------------------
  // protocol objects
  // ---------------------------------------------------------------------------

  /** The `WebSocketProto` a header consults. */
  datatype Protocol = Ietf | HyBi03

  function IsFin(proto: Protocol, bit: Octet): bool {
    match proto
    case Ietf => WebSocketIetf.IsFin(bit)
    case HyBi03 => WebSocketHyBi03.IsFin(bit)
  }

  function ToFin(proto: Protocol, fin: bool): (bit: Octet)
    ensures bit <= 1
    ensures IsFin(proto, bit) == fin
  {
    match proto
    case Ietf => WebSocketIetf.FinRoundTrip(fin); WebSocketIetf.ToFin(fin)
    case HyBi03 => WebSocketHyBi03.FinRoundTrip(fin); WebSocketHyBi03.ToFin(fin)
  }

  function DecodeOpcode(proto: Protocol, raw: Octet): Opcode {
    match proto
    case Ietf => WebSocketIetf.DecodeOpcode(raw)
    case HyBi03 => WebSocketHyBi03.DecodeOpcode(raw)
  }

  function EncodeOpcode(proto: Protocol, op: Opcode): (raw: Octet)
    ensures raw < 16
    ensures DecodeOpcode(proto, raw) == op
  {
    match proto
    case Ietf => WebSocketIetf.OpcodeRoundTrip(op); WebSocketIetf.EncodeOpcode(op)
    case HyBi03 => WebSocketHyBi03.OpcodeRoundTrip(op, 0); WebSocketHyBi03.EncodeOpcode(op)
  }

  // ---------------------------------------------------------------------------
  // header info and parser events
  // ---------------------------------------------------------------------------

  /** `WSFrameHeaderInfo`. The masking key is empty unless the frame is masked. */
  datatype Info = Info(fin: bool, opcode: Opcode, masked: bool, maskingKey: seq<Octet>,
                       hasLength: bool, payloadLength: nat)

  /** What every header hands on: a masked frame carries a four-byte key. */
  predicate WellFormed(info: Info) {
    info.masked ==> |info.maskingKey| == 4
  }

  /** The calls a parser makes on its `WSParserCallbacks`, in order. */
  datatype Event = HeaderComplete(info: Info) | Payload(data: seq<Octet>) | FrameComplete

  // ---------------------------------------------------------------------------
  // bits and big-endian numbers
  // ---------------------------------------------------------------------------

  function Pow2(n: nat): (p: nat)
    ensures p >= 1
  {
    if n == 0 then 1 else 2 * Pow2(n - 1)
  }

  function Pow256(n: nat): (p: nat)
    ensures p >= 1
  {
    if n == 0 then 1 else 256 * Pow256(n - 1)
  }

  /** `min` of src/websockets.cpp, which the parsers use to clamp a count to what is there. */
  function Min(a: nat, b: nat): (m: nat)
    ensures m <= a && m <= b && (m == a || m == b)
  {
    if a < b then a else b
  }

  /** `uint64_t` arithmetic wraps modulo 2^64. */
  const Uint64: nat := 0x1_0000_0000_0000_0000

  /** 2 to the power `k`, for the shifts within one byte. */
  function BitWeight(k: nat): (p: nat)
    requires k <= 8
    ensures p >= 1
  {
    match k
    case 0 => 1 case 1 => 2 case 2 => 4 case 3 => 8 case 4 => 16
    case 5 => 32 case 6 => 64 case 7 => 128 case _ => 256
  }

  /** `read(bitOffset, bitWidth)`: `bitWidth` bits of one byte, counted from its most
      significant bit, shifted down. The field must not cross a byte boundary and the byte
      must be there. */
  function ReadBits(data: seq<Octet>, bitOffset: nat, bitWidth: nat): (v: nat)
    requires bitOffset % 8 + bitWidth <= 8
    requires bitOffset / 8 < |data|
    ensures v < BitWeight(bitWidth)
  {
    (data[bitOffset / 8] / BitWeight(8 - bitWidth - bitOffset % 8)) % BitWeight(bitWidth)
  }

  /** Reference definition: the bytes as one number, most significant first. */
  function BigEndianValue(b: seq<Octet>): (v: nat)
    ensures v < Pow256(|b|)
  {
    if |b| == 0 then 0 else BigEndianValue(b[..|b| - 1]) * 256 + b[|b| - 1]
  }

  /** Reference definition: `n` in `width` bytes, most significant first. */
  function BigEndianBytes(n: nat, width: nat): (b: seq<Octet>)
    requires n < Pow256(width)
    ensures |b| == width
  {
    if width == 0 then [] else BigEndianBytes(n / 256, width - 1) + [n % 256]
  }

  lemma {:induction false} BigEndianRoundTrip(n: nat, width: nat)
    requires n < Pow256(width)
    ensures BigEndianValue(BigEndianBytes(n, width)) == n
    decreases width
  {
    if width > 0 {
      var b := BigEndianBytes(n, width);
      BigEndianRoundTrip(n / 256, width - 1);
      assert b[..|b| - 1] == BigEndianBytes(n / 256, width - 1);
    }
  }

  /** `read64(bitOffset, bitWidth)`: whole bytes shifted into a `uint64_t`. */
  function Read64(data: seq<Octet>, bitOffset: nat, bitWidth: nat): (v: nat)
    requires bitOffset % 8 == 0 && bitWidth % 8 == 0
    requires bitOffset / 8 + bitWidth / 8 <= |data|
    ensures v < Uint64
  {
    BigEndianValue(data[bitOffset / 8..bitOffset / 8 + bitWidth / 8]) % Uint64
  }

  /** Eight bytes or fewer never wrap the accumulator. */
  lemma {:induction false} Read64NoWrap(data: seq<Octet>, bitOffset: nat, bitWidth: nat)
    requires bitOffset % 8 == 0 && bitWidth % 8 == 0 && bitWidth <= 64
    requires bitOffset / 8 + bitWidth / 8 <= |data|
    ensures Read64(data, bitOffset, bitWidth)
            == BigEndianValue(data[bitOffset / 8..bitOffset / 8 + bitWidth / 8])
  {
    var w := bitWidth / 8;
    Pow256Monotone(w, 8);
    assert Pow256(8) == Uint64;
  }

  lemma {:induction false} Pow256Monotone(a: nat, b: nat)
    requires a <= b
    ensures Pow256(a) <= Pow256(b)
    decreases b
  {
    if a < b {
      Pow256Monotone(a, b - 1);
    }
  }

  // ---------------------------------------------------------------------------
  // the header fields
  // ---------------------------------------------------------------------------

  /** The fields of the first two bytes, as `read` extracts them. */
  lemma {:induction false} FirstBytes(data: seq<Octet>)
    requires |data| >= 2
    ensures ReadBits(data, 0, 1) == data[0] / 128
    ensures ReadBits(data, 4, 4) == data[0] % 16
    ensures ReadBits(data, 8, 1) == data[1] / 128
    ensures ReadBits(data, 9, 7) == data[1] % 128
  {
  }

  /** A whole byte read through `read`. */
  lemma {:induction false} ReadByte(data: seq<Octet>, at: nat, i: nat)
    requires i < |data| && at == 8 * i
    ensures ReadBits(data, at, 8) == data[i]
  {
    assert at % 8 == 0 && at / 8 == i;
  }

  /** The fields of the first two bytes, each what `read` extracts (see `FieldsAsRead`). */
  function Fin(proto: Protocol, data: seq<Octet>): bool
    requires |data| >= 1
  {
    IsFin(proto, data[0] / 128)
  }

  function FrameOpcode(proto: Protocol, data: seq<Octet>): Opcode
    requires |data| >= 1
  {
    DecodeOpcode(proto, data[0] % 16)
  }

  predicate Masked(data: seq<Octet>)
    requires |data| >= 2
  {
    data[1] >= 128
  }

  /** `payloadLengthLength`, in bits: 7, or 7 + 16 after the marker 126, or 7 + 64 after 127. */
  function PayloadLengthLength(data: seq<Octet>): (bits: nat)
    requires |data| >= 2
    ensures bits in {7, 23, 71}
  {
    var pll := data[1] % 128;
    if pll == 126 then 7 + 16 else if pll == 127 then 7 + 64 else 7
  }

  /** The header fields are the bit fields `read` extracts at the offsets the source uses:
      FIN at bit 0, the opcode at bits 4 to 7, the mask bit at bit 8, the length at bits 9 to 15,
      and the key as four whole bytes after the length fields. */
  lemma {:induction false} FieldsAsRead(proto: Protocol, data: seq<Octet>)
    requires |data| >= 2
    ensures Fin(proto, data) == IsFin(proto, ReadBits(data, 0, 1))
    ensures FrameOpcode(proto, data) == DecodeOpcode(proto, ReadBits(data, 4, 4))
    ensures Masked(data) == (ReadBits(data, 8, 1) != 0)
    ensures PayloadLengthLength(data) == (if ReadBits(data, 9, 7) == 126 then 7 + 16
                                          else if ReadBits(data, 9, 7) == 127 then 7 + 64 else 7)
  {
    FirstBytes(data);
  }

  /** The key is four whole bytes read after the length fields. */
  lemma {:induction false} KeyAsRead(data: seq<Octet>)
    requires |data| >= 2 && Masked(data) && |data| >= HeaderLength(data)
    ensures var at := 9 + PayloadLengthLength(data);
      MaskingKey(data) == [ReadBits(data, at, 8), ReadBits(data, at + 8, 8),
                           ReadBits(data, at + 16, 8), ReadBits(data, at + 24, 8)]
  {
    var at := 9 + PayloadLengthLength(data);
    var k := HeaderLength(data) - 4;
    assert at == 8 * k;
    ReadByte(data, at, k);
    ReadByte(data, at + 8, k + 1);
    ReadByte(data, at + 16, k + 2);
    ReadByte(data, at + 24, k + 3);
    assert data[k..k + 4] == [data[k], data[k + 1], data[k + 2], data[k + 3]];
  }

  /** The bytes of extended payload length after the first two. */
  function ExtendedLengthBytes(data: seq<Octet>): (n: nat)
    requires |data| >= 2
    ensures n in {0, 2, 8}
  {
    (PayloadLengthLength(data) - 7) / 8
  }

  function MaskingKeyLength(data: seq<Octet>): (bits: nat)
    requires |data| >= 2
    ensures bits == 0 || bits == 32
  {
    if Masked(data) then 32 else 0
  }

  /** `headerLength`: the bits of the fixed fields, the length fields and the key, in bytes.
      It is 2, 4 or 10 bytes, four more when the frame is masked, and so never more than
      `MAX_HEADER_BYTES`. */
  function HeaderLength(data: seq<Octet>): (n: nat)
    requires |data| >= 2
    ensures n == 2 + ExtendedLengthBytes(data) + (if Masked(data) then 4 else 0)
    ensures 2 <= n <= MaxHeaderBytes
  {
    (9 + PayloadLengthLength(data) + MaskingKeyLength(data)) / 8
  }

  /** `isHeaderComplete`: at least two bytes, and at least as many as the header needs. A
      complete header holds its extended length and its masking key; fourteen bytes always
      hold a header. */
  function IsHeaderComplete(data: seq<Octet>): (b: bool)
    ensures b ==> |data| >= 2 && |data| >= 2 + ExtendedLengthBytes(data) + (if Masked(data) then 4 else 0)
    ensures |data| >= MaxHeaderBytes ==> b
  {
    |data| >= 2 && |data| >= HeaderLength(data)
  }

  /** The header length is decided by the second byte alone. */
  lemma {:induction false} HeaderLengthOfSecondByte(a: seq<Octet>, b: seq<Octet>)
    requires |a| >= 2 && |b| >= 2 && a[1] == b[1]
    ensures HeaderLength(a) == HeaderLength(b)
    ensures Masked(a) == Masked(b)
  {
  }

  /** Fourteen bytes always hold a header, so an incomplete one is shorter. */
  lemma {:induction false} IncompleteIsShort(data: seq<Octet>)
    requires !IsHeaderComplete(data)
    ensures |data| < MaxHeaderBytes
  {
  }

  /** `payloadLength`: the seven-bit field, or the 16-bit or 64-bit big-endian number after it.
      The extended bytes must be there. */
  function PayloadLength(data: seq<Octet>): (n: nat)
    requires |data| >= 2 && |data| >= 2 + ExtendedLengthBytes(data)
    ensures n < Uint64
  {
    var pl := data[1] % 128;
    if pl == 126 then Read64(data, 16, 16)
    else if pl == 127 then Read64(data, 16, 64)
    else pl
  }

  /** The length is the seven-bit field below 126, or the big-endian number in the two or
      eight bytes after it, which never wraps. */
  lemma {:induction false} PayloadLengthValue(data: seq<Octet>)
    requires |data| >= 2 && |data| >= 2 + ExtendedLengthBytes(data)
    ensures ExtendedLengthBytes(data) == 0 ==> PayloadLength(data) == data[1] % 128 < 126
    ensures ExtendedLengthBytes(data) == 2 ==> PayloadLength(data) == BigEndianValue(data[2..4])
    ensures ExtendedLengthBytes(data) == 8 ==> PayloadLength(data) == BigEndianValue(data[2..10])
  {
    var pl := data[1] % 128;
    if pl == 126 {
      Read64NoWrap(data, 16, 16);
    } else if pl == 127 {
      Read64NoWrap(data, 16, 64);
    }
  }

  /** `maskingKey`: the four bytes after the length fields, or four zeros when unmasked. */
  function MaskingKey(data: seq<Octet>): (key: seq<Octet>)
    requires |data| >= 2
    requires Masked(data) ==> |data| >= HeaderLength(data)
    ensures |key| == 4
  {
    if !Masked(data) then [0, 0, 0, 0]
    else data[HeaderLength(data) - 4..HeaderLength(data)]
  }

  /** `info`: everything the header says, with a length always present. */
  function HeaderInfo(proto: Protocol, data: seq<Octet>): (info: Info)
    requires IsHeaderComplete(data)
    ensures WellFormed(info)
    ensures info.hasLength && info.masked == Masked(data)
  {
    var masked := Masked(data);
    Info(Fin(proto, data), FrameOpcode(proto, data), masked,
         if masked then MaskingKey(data) else [], true, PayloadLength(data))
  }

  /** Bytes after the header change nothing it says. */
  lemma {:induction false} HeaderInfoOfPrefix(proto: Protocol, header: seq<Octet>, more: seq<Octet>)
    requires IsHeaderComplete(header)
    ensures IsHeaderComplete(header + more)
    ensures HeaderLength(header + more) == HeaderLength(header)
    ensures PayloadLength(header + more) == PayloadLength(header)
    ensures HeaderInfo(proto, header + more) == HeaderInfo(proto, header)
  {
    var d := header + more;
    assert d[0] == header[0] && d[1] == header[1];
    HeaderLengthOfSecondByte(header, d);
    PayloadLengthOfPrefix(header, more);
    if Masked(header) {
      var n := HeaderLength(header);
      assert d[n - 4..n] == header[n - 4..n];
    }
  }

  lemma {:induction false} PayloadLengthOfPrefix(header: seq<Octet>, more: seq<Octet>)
    requires IsHeaderComplete(header)
    ensures IsHeaderComplete(header + more)
    ensures PayloadLength(header + more) == PayloadLength(header)
  {
    var d := header + more;
    assert d[1] == header[1];
    HeaderLengthOfSecondByte(header, d);
    PayloadLengthValue(header);
    PayloadLengthValue(d);
    if ExtendedLengthBytes(header) == 2 {
      assert d[2..4] == header[2..4];
    } else if ExtendedLengthBytes(header) == 8 {
      assert d[2..10] == header[2..10];
    }
  }

  // ---------------------------------------------------------------------------
  // reference header layout
  // ---------------------------------------------------------------------------

  /** The header of section 5.2 of RFC 6455 in its shortest form: FIN and opcode, the mask bit
      and the seven-bit length, the 16- or 64-bit extended length, then the key when masked. The
      repository's own header writer is not part of this model; this is the layout the reader
      above is meant to accept. */
  function LayoutHeader(proto: Protocol, fin: bool, op: Opcode, masked: bool, key: seq<Octet>,
                        len: nat): (h: seq<Octet>)
    requires |key| == 4 && len < Uint64 / 2
  {
    var m := if masked then 128 else 0;
    var lenBytes :=
      if len < 126 then [m + len]
      else if len < 0x1_0000 then [m + 126] + BigEndianBytes(len, 2)
      else [m + 127] + BigEndianBytes(len, 8);
    [ToFin(proto, fin) * 128 + EncodeOpcode(proto, op)] + lenBytes + (if masked then key else [])
  }

  /** The mask bit and the length fields of a laid-out header read back. */
  lemma {:induction false} LayoutLength(proto: Protocol, fin: bool, op: Opcode, masked: bool, key: seq<Octet>,
                     len: nat)
    requires |key| == 4 && len < Uint64 / 2
    ensures var h := LayoutHeader(proto, fin, op, masked, key, len);
      && |h| >= 2 && Masked(h) == masked && HeaderLength(h) == |h| && PayloadLength(h) == len
  {
    var h := LayoutHeader(proto, fin, op, masked, key, len);
    if len < 126 {
      LayoutLengthShort(proto, fin, op, masked, key, len, h);
    } else if len < 0x1_0000 {
      LayoutLength16(proto, fin, op, masked, key, len, h);
    } else {
      LayoutLength64(proto, fin, op, masked, key, len, h);
    }
  }

  lemma {:induction false} LayoutLengthShort(proto: Protocol, fin: bool, op: Opcode, masked: bool,
                                             key: seq<Octet>, len: nat, h: seq<Octet>)
    requires |key| == 4 && len < 126 && h == LayoutHeader(proto, fin, op, masked, key, len)
    ensures |h| >= 2 && Masked(h) == masked && HeaderLength(h) == |h| && PayloadLength(h) == len
  {
    PayloadLengthValue(h);
    assert h[1] % 128 == len;
  }

  lemma {:induction false} LayoutLength16(proto: Protocol, fin: bool, op: Opcode, masked: bool,
                                          key: seq<Octet>, len: nat, h: seq<Octet>)
    requires |key| == 4 && 126 <= len < 0x1_0000 && h == LayoutHeader(proto, fin, op, masked, key, len)
    ensures |h| >= 2 && Masked(h) == masked && HeaderLength(h) == |h| && PayloadLength(h) == len
  {
    assert Pow256(2) == 0x1_0000;
    var bs := BigEndianBytes(len, 2);
    LayoutParts(h[0], (if masked then 128 else 0) + 126, bs, if masked then key else [], h);
    PayloadLengthValue(h);
    BigEndianRoundTrip(len, 2);
  }

  lemma {:induction false} LayoutLength64(proto: Protocol, fin: bool, op: Opcode, masked: bool,
                                          key: seq<Octet>, len: nat, h: seq<Octet>)
    requires |key| == 4 && 0x1_0000 <= len < Uint64 / 2
    requires h == LayoutHeader(proto, fin, op, masked, key, len)
    ensures |h| >= 2 && Masked(h) == masked && HeaderLength(h) == |h| && PayloadLength(h) == len
  {
    Pow256Eight();
    var bs := BigEndianBytes(len, 8);
    LayoutParts(h[0], (if masked then 128 else 0) + 127, bs, if masked then key else [], h);
    PayloadLengthValue(h);
    BigEndianRoundTrip(len, 8);
  }

  lemma {:induction false} Pow256Eight()
    ensures Pow256(8) == Uint64
  {
    assert Pow256(4) == 0x1_0000_0000;
  }

  /** Where the pieces of a header put together from its bytes lie. */
  lemma {:induction false} LayoutParts(first: Octet, second: Octet, bs: seq<Octet>, key: seq<Octet>,
                                       h: seq<Octet>)
    requires h == [first] + [second] + bs + key
    ensures |h| == 2 + |bs| + |key| && h[1] == second && h[2..2 + |bs|] == bs
  {
  }

  /** Reading a laid-out header gives back every field, and it is complete exactly at its own
      length. */
  lemma {:induction false} LayoutReadsBack(proto: Protocol, fin: bool, op: Opcode, masked: bool, key: seq<Octet>,
                        len: nat)
    requires |key| == 4 && len < Uint64 / 2
    ensures var h := LayoutHeader(proto, fin, op, masked, key, len);
      && IsHeaderComplete(h)
      && HeaderLength(h) == |h|
      && HeaderInfo(proto, h) == Info(fin, op, masked, if masked then key else [], true, len)
  {
    var h := LayoutHeader(proto, fin, op, masked, key, len);
    LayoutLength(proto, fin, op, masked, key, len);
    var f, o := ToFin(proto, fin), EncodeOpcode(proto, op);
    assert h[0] == f * 128 + o;
    assert h[0] / 128 == f && h[0] % 16 == o;
    if masked {
      var n := HeaderLength(h);
      assert h[n - 4..n] == key;
    }
  }

  /** A header cut short anywhere is not complete. */
  lemma {:induction false} LayoutPrefixIncomplete(proto: Protocol, fin: bool, op: Opcode, masked: bool,
                               key: seq<Octet>, len: nat, k: nat)
    requires |key| == 4 && len < Uint64 / 2
    requires k < |LayoutHeader(proto, fin, op, masked, key, len)|
    ensures !IsHeaderComplete(LayoutHeader(proto, fin, op, masked, key, len)[..k])
  {
    var h := LayoutHeader(proto, fin, op, masked, key, len);
    LayoutReadsBack(proto, fin, op, masked, key, len);
    if k >= 2 {
      HeaderLengthOfSecondByte(h, h[..k]);
    }
  }
}
