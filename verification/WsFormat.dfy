/** WebSocket frames: what section 5.2 of RFC 6455 says is on the wire, and what WebsocketCodec::decode
    makes of it. A plain `char` is signed. */
module WsFormat {
  import opened Common
  import opened Endian
  import opened Masking

  const TEXT: byte := 1

  // Section 5.2 of RFC 6455.

  function OrByte(a: byte, b: byte): byte { a | b }

  /** FIN and the opcode; the mask bit with a 7-bit length, or with 126 or 127 and an extended length in
      network byte order. */
  function FrameHeader(opcode: byte, masked: bool, n: nat): seq<byte> {
    var bit: byte := if masked then 0x80 else 0;
    [OrByte(0x80, opcode)] +
    if n < 126 then [OrByte(bit, ByteOf(n))]
    else if n < U16 then [OrByte(bit, 126)] + BigEndian(n, 2)
    else [OrByte(bit, 127)] + BigEndian(n, 8)
  }

  function Body(masked: bool, key: seq<byte>, payload: seq<byte>): seq<byte>
    requires |key| == 4
  {
    if masked then key + Masked(payload, key) else payload
  }

  /** A single-frame message. */
  function WsFrame(opcode: byte, masked: bool, key: seq<byte>, payload: seq<byte>): seq<byte>
    requires |key| == 4
  {
    FrameHeader(opcode, masked, |payload|) + Body(masked, key, payload)
  }

  /** The first byte has FIN set and carries the opcode; the second one has its high bit set exactly for a masked
      frame, and the length, 126 or 127 below it. */
  lemma HeaderBits(opcode: byte, masked: bool, n: nat)
    requires n < U64
    ensures var h := FrameHeader(opcode, masked, n);
      && h[0] & 0x80 != 0
      && (opcode < 16 ==> h[0] & 0x0F == opcode && h[0] & 0x70 == 0)
      && (h[1] & 0x80 != 0 <==> masked)
      && (h[1] & 0x7F) as int == (if n < 126 then n else if n < U16 then 126 else 127)
      && |h| == (if n < 126 then 2 else if n < U16 then 4 else 10)
  {
    hide BigEndian, ByteOf;
    var low: byte := if n < 126 then ByteOf(n) else if n < U16 then 126 else 127;
    OpcodeBits(opcode);
    Below128(low);
    MaskBits(low);
  }

  lemma OpcodeBits(opcode: byte)
    ensures OrByte(0x80, opcode) & 0x80 != 0
    ensures opcode < 16 ==> OrByte(0x80, opcode) & 0x0F == opcode && OrByte(0x80, opcode) & 0x70 == 0
  {
  }

  lemma Below128(low: byte)
    requires low as int < 128
    ensures low & 0x80 == 0
  {
  }

  lemma MaskBits(low: byte)
    requires low & 0x80 == 0
    ensures OrByte(0x80, low) & 0x80 != 0 && OrByte(0x80, low) & 0x7F == low
    ensures OrByte(0, low) == low && low & 0x7F == low
  {
  }

  /** Behind the two bytes, the length of a longer frame is there in network byte order. */
  lemma HeaderLengthField(opcode: byte, masked: bool, n: nat)
    requires 126 <= n < U64
    ensures NatOf(Reverse(FrameHeader(opcode, masked, n)[2..])) == n
  {
    hide BytesOf, NatOf, Pow256, Reverse;
    Powers();
    if n < U16 {
      BigEndianValue(n, 2);
      assert FrameHeader(opcode, masked, n)[2..] == BigEndian(n, 2);
    } else {
      BigEndianValue(n, 8);
      assert FrameHeader(opcode, masked, n)[2..] == BigEndian(n, 8);
    }
  }

  // What the decoder reads.

  /** A signed char, promoted to int. */
  function Promote(b: byte): bv32 {
    if b & 0x80 != 0 then 0xFFFFFF00 | (b as bv32) else b as bv32
  }

  /** `buf[0] & 0b100000000`: nine bits, the top one only ever set by sign extension. */
  predicate Fin(b: byte) {
    Promote(b) & 0x100 != 0
  }

  predicate IsText(b: byte) {
    Promote(b) & 0x0F == TEXT as bv32
  }

  function Length7(b: byte): byte {
    b & 0x7F
  }

  /** `buf[1] << 8 | buf[0]` in int, cut down to 16 bits by ntoh16. */
  function Length16Word(b0: byte, b1: byte): bv16 {
    Ntoh16((((Promote(b1) << 8) | Promote(b0)) & 0xFFFF) as bv16)
  }

  function Length16(b0: byte, b1: byte): nat {
    Value16(Length16Word(b0, b1))
  }

  function Length64(bs: seq<byte>): nat
    requires |bs| == 8
  {
    Value64(Ntoh64(Join64(bs)))
  }

  /** What the decoder looks at in the first two bytes, and what it does not: the three reserved bits and the mask
      bit. Although the mask for FIN has nine bits, it finds FIN, by sign extension. */
  lemma DecoderBits(b: byte)
    ensures Fin(b) <==> b & 0x80 != 0
    ensures IsText(b) <==> b & 0x0F == TEXT
    ensures Length7(b) as int < 128 && Length7(b) & 0x80 == 0 && (b & 0x80 == 0 ==> Length7(b) == b)
  {
    SevenBits(b);
  }

  lemma SevenBits(b: byte)
    ensures (b & 0x7F) as int < 128
  {
  }

  /** The payload length, and what follows the length field. */
  function ParseLength(s: seq<byte>): Parsed<nat> {
    if |s| < 2 then Truncated
    else if !Fin(s[0]) || !IsText(s[0]) then Malformed
    else if Length7(s[1]) == 126 then
      if |s| < 4 then Truncated else Done(Length16(s[2], s[3]), s[4..])
    else if Length7(s[1]) == 127 then
      if |s| < 10 then Truncated else Done(Length64(s[2..10]), s[10..])
    else Done(Length7(s[1]) as int, s[2..])
  }

  function ParseBody(masked: bool, n: nat, s: seq<byte>): Parsed<seq<byte>> {
    if masked then
      if |s| < 4 + n then Truncated else Done(Masked(s[4..4 + n], s[..4]), s[4 + n..])
    else
      if |s| < n then Truncated else Done(s[..n], s[n..])
  }

  /** A decoder that expects masked frames (a server's) or unmasked ones (a client's); the mask bit of the
      frame is not looked at. */
  function WsParse(masked: bool, s: seq<byte>): Parsed<seq<byte>> {
    match ParseLength(s)
    case Done(n, rest) => ParseBody(masked, n, rest)
    case Truncated => Truncated
    case Malformed => Malformed
  }

  // What the decoder makes of any stream at all. It does not look at the results of its reads.

  /** What a read_exact into `span` leaves there and in the stream, with a buffer of `size` bytes: a request that
      is larger takes what there is, one that could be buffered takes all or nothing. */
  function Taken(s: seq<byte>, span: seq<byte>, size: nat): (r: (seq<byte>, seq<byte>))
    ensures |r.0| == |span| && |r.1| <= |s|
    ensures |span| <= |s| ==> r.0 + r.1 == s
  {
    if |span| <= |s| then (s[..|span|], s[|span|..])
    else if |span| <= size then (span, s)
    else (s + span[|s|..], [])
  }

  lemma TakenIs(got: seq<byte>, rest: seq<byte>, span: seq<byte>, size: nat)
    requires |got| <= |span|
    requires |got| == |span| || (if |span| <= size then got == [] else rest == [])
    requires |got| < |span| ==> |got + rest| < |span|
    ensures (got + span[|got|..], rest) == Taken(got + rest, span, size)
  {
    assert got == [] ==> got + span[|got|..] == span && got + rest == rest;
    assert rest == [] ==> got + rest == got;
    assert |got| == |span| ==> got + span[|got|..] == got;
  }

  function LooseLength(s: seq<byte>, size: nat): Parsed<nat> {
    var (first, s1) := Taken(s, [0, 0], size);
    if !Fin(first[0]) || !IsText(first[0]) then Malformed
    else if Length7(first[1]) == 126 then
      var (length, s2) := Taken(s1, first, size);
      Done(Length16(length[0], length[1]), s2)
    else if Length7(first[1]) == 127 then
      var (length, s2) := Taken(s1, Zeros(8), size);
      Done(Length64(length), s2)
    else Done(Length7(first[1]) as int, s1)
  }

  function Zeros(n: nat): (z: seq<byte>)
    ensures |z| == n && forall i :: 0 <= i < n ==> z[i] == 0
  {
    seq(n, _ => 0)
  }

  function LooseBody(masked: bool, n: nat, s: seq<byte>, size: nat): Parsed<seq<byte>> {
    if masked then
      var (key, s1) := Taken(s, Zeros(4), size);
      var (payload, s2) := Taken(s1, Zeros(n), size);
      Done(Masked(payload, key), s2)
    else
      var (payload, s1) := Taken(s, Zeros(n), size);
      Done(payload, s1)
  }

  /** On whole frames that is what the format says. */
  lemma LooseIsStrict(masked: bool, s: seq<byte>, size: nat)
    requires ParseLength(s).Done?
    ensures LooseLength(s, size) == ParseLength(s)
    ensures var (n, rest) := (ParseLength(s).value, ParseLength(s).rest);
      ParseBody(masked, n, rest).Done? ==> LooseBody(masked, n, rest, size) == ParseBody(masked, n, rest)
  {
    hide Fin, IsText, Length7, Length16, Length64, Masked;
    var t := s[2..];
    assert |t| >= 2 ==> t[..2] == s[2..4] && t[2..] == s[4..];
    assert |t| >= 8 ==> t[..8] == s[2..10] && t[8..] == s[10..];
    var n, rest := ParseLength(s).value, ParseLength(s).rest;
    if masked && |rest| >= 4 + n {
      assert rest[4..][..n] == rest[4..4 + n] && rest[4..][n..] == rest[4 + n..];
    }
  }

  /** A stream that ends too early is an error for the format but never for the decoder, unless nothing of the
      first two bytes reached it. */
  lemma TruncationUnnoticed(s: seq<byte>, size: nat)
    requires ParseLength(s).Truncated? || ParseLength(s).Done?
    ensures LooseLength(s, size).Done? <==> |s| >= 2 || (|s| == 1 && size < 2 && Fin(s[0]) && IsText(s[0]))
  {
    hide IsText, Length7, Length16, Length64;
    NoFin();
  }

  /** Cut within its length field, a frame is taken to be as long as its own first two bytes say, or 0. */
  lemma CutLength(s: seq<byte>, size: nat)
    requires ParseLength(s).Truncated? && |s| >= 2 && size >= 8
    ensures LooseLength(s, size) == Done(if Length7(s[1]) == 126 then 256 * s[0] as int + 255 else 0, s[2..])
  {
    hide Fin, IsText, Length7, Length16Word, Split16, Join64, Hton64, Split64;
    DecoderBits(s[0]);
    LengthBits(s[0], s[1]);
    NatOfTwo(0xFF, s[0]);
    ZeroLength();
    assert s[..2] == [s[0], s[1]];
  }

  lemma ZeroLength()
    ensures Length64(Zeros(8)) == 0
  {
    hide Value64, Ntoh64, Join64, BytesOf, NatOf, Pow256;
    Length64OfBigEndian(0);
    ZeroBytes();
  }

  lemma ZeroBytes()
    ensures BigEndian(0, 8) == Zeros(8)
  {
    hide ByteOf;
    assert ByteOf(0) == 0;
    assert BytesOf(0, 4) == [0, 0, 0, 0];
    assert BytesOf(0, 8) == [0, 0, 0, 0] + BytesOf(0, 4);
  }

  lemma NoFin()
    ensures !Fin(0)
  {
  }

  /** Only FIN with TEXT is accepted, whatever the reserved bits are. */
  lemma AcceptedIff(s: seq<byte>, size: nat)
    requires |s| >= 2
    ensures ParseLength(s).Malformed? <==> s[0] & 0x8F != 0x81
    ensures LooseLength(s, size).Malformed? <==> s[0] & 0x8F != 0x81
  {
    hide Fin, IsText, Length7, Length16, Length64;
    DecoderBits(s[0]);
    FinAndText(s[0]);
  }

  lemma FinAndText(b: byte)
    ensures b & 0x80 != 0 && b & 0x0F == TEXT <==> b & 0x8F == 0x81
  {
  }

  /** A frame cut within its masking key is decoded as if it had no mask, the bytes of the key that came being the
      beginning of what follows. */
  lemma CutKey(n: nat, s: seq<byte>, size: nat)
    requires |s| < 4 <= size
    ensures LooseBody(true, n, s, size) == LooseBody(false, n, s, size)
  {
    hide Xor;
    var payload := Taken(s, Zeros(n), size).0;
    forall i | 0 <= i < n
      ensures Masked(payload, Zeros(4))[i] == payload[i]
    {
      ZeroXor(payload[i]);
    }
    assert Masked(payload, Zeros(4)) == payload;
  }

  lemma ZeroXor(b: byte)
    ensures Xor(b, 0) == b
  {
  }

  /** A frame cut short within its body decodes without an error. If the buffer could hold the body, the bytes
      that did come stay in the stream; if not, they are the beginning of the payload. The other bytes of the
      payload are the masking key over and over, or zeros when there is no mask. */
  lemma CutBody(masked: bool, n: nat, s: seq<byte>, size: nat)
    requires (if masked then 4 else 0) <= |s| < n + (if masked then 4 else 0)
    ensures LooseBody(masked, n, s, size).Done?
    ensures
      var (payload, rest) := (LooseBody(masked, n, s, size).value, LooseBody(masked, n, s, size).rest);
      var body := if masked then s[4..] else s;
      && |payload| == n && rest == (if n <= size then body else [])
      && forall i :: 0 <= i < n ==>
           payload[i] ==
             if n > size && i < |body| then (if masked then Xor(body[i], s[i % 4]) else body[i])
             else (if masked then s[i % 4] else 0)
  {
    hide Xor;
    if masked {
      forall i | 0 <= i < n
        ensures Xor(0, s[i % 4]) == s[i % 4]
      {
        XorZero(s[i % 4]);
      }
    }
  }

  lemma XorZero(k: byte)
    ensures Xor(0, k) == k
  {
  }

  // The sign of a char in the 16-bit length.

  lemma LengthBits(h: byte, l: byte)
    ensures Split16(Length16Word(h, l)) == if h & 0x80 == 0 then [l, h] else [0xFF, h]
  {
    hide Length16Word, Split16, Join2;
    var low := if h & 0x80 == 0 then l else 0xFF;
    LengthWordBits(h, l);
    SplitJoin16([low, h]);
  }

  lemma LengthWordBits(h: byte, l: byte)
    ensures h & 0x80 == 0 ==> Length16Word(h, l) == Join2(l, h)
    ensures h & 0x80 != 0 ==> Length16Word(h, l) == Join2(0xFF, h)
  {
  }

  lemma HighHalf(h: byte)
    ensures h & 0x80 == 0 <==> h as int < 128
  {
  }

  lemma NatOfTwo(a: byte, b: byte)
    ensures NatOf([a, b]) == a as int + 256 * b as int
  {
    assert [a, b][1..] == [b] && [b][1..] == [];
    assert NatOf([b]) == b as int;
  }

  /** The length a decoder reads back when 126 <= n < 65536 was sent: from 32768 on, its low byte is lost. */
  function Decoded16(n: nat): nat {
    if n < 32768 then n else n / 256 * 256 + 255
  }

  lemma Length16OfBigEndian(n: nat)
    requires n < U16
    ensures Length16(BigEndian(n, 2)[0], BigEndian(n, 2)[1]) == Decoded16(n)
  {
    hide Length16Word;
    var h, l := ByteOf(n / 256), ByteOf(n % 256);
    BigEndian16Bytes(n);
    LengthBits(h, l);
    HighHalf(h);
    NatOfTwo(l, h);
    NatOfTwo(0xFF, h);
  }

  lemma BigEndian16Bytes(n: nat)
    requires n < U16
    ensures BigEndian(n, 2) == [ByteOf(n / 256), ByteOf(n % 256)]
  {
    hide BytesOf, ByteOf;
    OneDigit(n / 256);
    TwoDigits(n);
    assert BytesOf(n, 2)[0] == ByteOf(n % 256) && BytesOf(n, 2)[1] == ByteOf(n / 256);
  }

  lemma TwoDigits(n: nat)
    ensures BytesOf(n, 2) == [ByteOf(n % 256)] + BytesOf(n / 256, 1)
  {
    hide ByteOf;
  }

  lemma OneDigit(n: nat)
    requires n < 256
    ensures BytesOf(n, 1) == [ByteOf(n)]
  {
    hide ByteOf;
    assert n % 256 == n;
  }

  lemma Length64OfBigEndian(n: nat)
    requires n < U64
    ensures Length64(BigEndian(n, 8)) == n
  {
    hide Value64, Ntoh64, Join64, BytesOf, NatOf, Pow256;
    Powers();
    BigEndian64Read(BigEndian(n, 8));
    BigEndianValue(n, 8);
  }

  lemma FirstByteBits(opcode: byte)
    ensures Fin(OrByte(0x80, opcode))
    ensures opcode < 16 ==> (IsText(OrByte(0x80, opcode)) <==> opcode == TEXT)
  {
  }

  lemma SecondByteBits(bit: byte, low: byte)
    requires bit == 0 || bit == 0x80
    requires low & 0x80 == 0
    ensures Length7(OrByte(bit, low)) == low
  {
  }

  /** The length that a decoder takes a text frame of n bytes to have. */
  function DecodedLength(n: nat): nat {
    if 126 <= n < U16 then Decoded16(n) else n
  }

  lemma HeaderSlices(a: byte, b: byte, field: seq<byte>, rest: seq<byte>)
    ensures var s := [a] + ([b] + field) + rest;
      && |s| == 2 + |field| + |rest| && s[0] == a && s[1] == b
      && (forall k :: 0 <= k < |field| ==> s[2 + k] == field[k])
      && s[2..2 + |field|] == field && s[2 + |field|..] == rest
  {
  }

  lemma ParseLengthOfHeader(masked: bool, n: nat, rest: seq<byte>)
    requires n < U64
    ensures ParseLength(FrameHeader(TEXT, masked, n) + rest) == Done(DecodedLength(n), rest)
  {
    hide OrByte, Fin, IsText, Length7, Length16, Length64, BytesOf, Reverse;
    var bit: byte := if masked then 0x80 else 0;
    var s := FrameHeader(TEXT, masked, n) + rest;
    FirstByteBits(TEXT);
    var first := OrByte(0x80, TEXT);
    if n < 126 {
      HighHalf(ByteOf(n));
      SecondByteBits(bit, ByteOf(n));
      HeaderSlices(first, OrByte(bit, ByteOf(n)), [], rest);
      assert [OrByte(bit, ByteOf(n))] + [] == [OrByte(bit, ByteOf(n))];
    } else if n < U16 {
      SecondByteBits(bit, 126);
      Length16OfBigEndian(n);
      HeaderSlices(first, OrByte(bit, 126), BigEndian(n, 2), rest);
      assert s[2 + 1] == BigEndian(n, 2)[1];
    } else {
      SecondByteBits(bit, 127);
      Length64OfBigEndian(n);
      HeaderSlices(first, OrByte(bit, 127), BigEndian(n, 8), rest);
    }
  }

  lemma ParseBodyOfBody(masked: bool, key: seq<byte>, payload: seq<byte>, rest: seq<byte>)
    requires |key| == 4
    ensures ParseBody(masked, |payload|, Body(masked, key, payload) + rest) == Done(payload, rest)
  {
    var s := Body(masked, key, payload) + rest;
    if masked {
      assert s[..4] == key && s[4..4 + |payload|] == Masked(payload, key) && s[4 + |payload|..] == rest;
      MaskedTwice(payload, key);
    } else {
      assert s[..|payload|] == payload && s[|payload|..] == rest;
    }
  }

  predicate LengthSurvives(n: nat) {
    n < 32768 || n >= U16 || n % 256 == 255
  }

  lemma SurvivesIff(n: nat)
    ensures DecodedLength(n) == n <==> LengthSurvives(n)
    ensures DecodedLength(n) >= n
  {
  }

  /** Decoding a text frame, masked with any key or not, gives its payload back and leaves what follows it,
      exactly when the length survives the decoder. */
  lemma WsRoundTrip(masked: bool, key: seq<byte>, payload: seq<byte>, rest: seq<byte>)
    requires |key| == 4 && |payload| < U64
    ensures WsParse(masked, WsFrame(TEXT, masked, key, payload) + rest) == Done(payload, rest)
      <==> LengthSurvives(|payload|)
  {
    hide FrameHeader, ParseLength, Body, ParseBody, DecodedLength;
    var body := Body(masked, key, payload) + rest;
    assert WsFrame(TEXT, masked, key, payload) + rest == FrameHeader(TEXT, masked, |payload|) + body;
    ParseLengthOfHeader(masked, |payload|, body);
    ParseBodyOfBody(masked, key, payload, rest);
    SurvivesIff(|payload|);
    ParseBodyLength(masked, DecodedLength(|payload|), body);
  }

  lemma ParseBodyLength(masked: bool, n: nat, s: seq<byte>)
    ensures ParseBody(masked, n, s).Done? ==> |ParseBody(masked, n, s).value| == n
  {
  }

  /** A payload of 32768 bytes is the shortest that comes back longer than it was sent. */
  lemma FirstLostLength()
    ensures DecodedLength(32768) == 33023 && forall n :: 0 <= n < 32768 ==> LengthSurvives(n)
  {
  }
}
