/** Known values of the formats, against the standards and the code. */
module Examples {
  import opened Common
  import opened Endian
  import opened Masking
  import opened Framing
  import WsFormat
  import Varint
  import Base64
  import Http
  import Timestamp

  /** Section 10 of RFC 4648: "f", "fo", "foo". */
  lemma Base64Vectors()
    ensures Base64.Encoded([102]) == "Zg=="
    ensures Base64.Encoded([102, 111]) == "Zm8="
    ensures Base64.Encoded([102, 111, 111]) == "Zm9v"
  {
  }

  /** Section 5.7 of RFC 6455: an unmasked and a masked "Hello". */
  lemma WebSocketVectors()
    ensures WsFormat.WsFrame(1, false, [0, 0, 0, 0], [0x48, 0x65, 0x6c, 0x6c, 0x6f])
      == [0x81, 0x05] + [0x48, 0x65, 0x6c, 0x6c, 0x6f]
    ensures WsFormat.WsFrame(1, true, [0x37, 0xfa, 0x21, 0x3d], [0x48, 0x65, 0x6c, 0x6c, 0x6f])
      == [0x81, 0x85] + ([0x37, 0xfa, 0x21, 0x3d] + [0x7f, 0x9f, 0x4d, 0x51, 0x58])
  {
    hide WsFormat.FrameHeader, Masked;
    FiveByteHeaders();
    MaskedHello();
  }

  lemma FiveByteHeaders()
    ensures WsFormat.FrameHeader(1, false, 5) == [0x81, 0x05]
    ensures WsFormat.FrameHeader(1, true, 5) == [0x81, 0x85]
  {
  }

  lemma MaskedHello()
    ensures Masked([0x48, 0x65, 0x6c, 0x6c, 0x6f], [0x37, 0xfa, 0x21, 0x3d]) == [0x7f, 0x9f, 0x4d, 0x51, 0x58]
  {
    hide Xor;
    Xors();
  }

  lemma Xors()
    ensures Xor(0x48, 0x37) == 0x7f && Xor(0x65, 0xfa) == 0x9f && Xor(0x6c, 0x21) == 0x4d
    ensures Xor(0x6c, 0x3d) == 0x51 && Xor(0x6f, 0x37) == 0x58
  {
  }

  /** A frame header for 256 and for 65536 bytes, as in the same section. */
  lemma LongHeaders()
    ensures WsFormat.FrameHeader(2, false, 256) == [0x82, 0x7E, 0x01, 0x00]
    ensures WsFormat.FrameHeader(2, false, 65536) == [0x82, 0x7F, 0, 0, 0, 0, 0, 1, 0, 0]
  {
  }

  /** The two length fields for a message of five bytes. */
  lemma LengthFields()
    ensures Header(Fixed32, 5) == [0, 0, 0, 5]
    ensures Header(LengthDelimited, 5) == [0x80, 0x80, 0x80, 0x80, 0x80, 0x80, 0x80, 0x80, 5]
  {
    hide Varint.Encode, Word64, BytesOf, Hton64;
    FiveBytes();
    FiveWord();
    FiveVarint();
  }

  lemma FiveBytes()
    ensures BytesOf(5, 4) == [5, 0, 0, 0] && BytesOf(5, 8) == [5, 0, 0, 0, 0, 0, 0, 0]
  {
    hide ByteOf;
    FiveByte();
    assert BytesOf(0, 4) == [0, 0, 0, 0];
    assert BytesOf(0, 7) == [0, 0, 0] + BytesOf(0, 4);
  }

  lemma FiveByte()
    ensures ByteOf(5) == 5 && ByteOf(0) == 0
  {
  }

  lemma FiveWord()
    ensures Word64(5) == 5
  {
    hide BytesOf, Join8;
    FiveBytes();
    FiveJoined();
  }

  lemma FiveJoined()
    ensures Join8(5, 0, 0, 0, 0, 0, 0, 0) == 5
  {
  }

  lemma FiveVarint()
    ensures Varint.Encode(Hton64(5)) == [0x80, 0x80, 0x80, 0x80, 0x80, 0x80, 0x80, 0x80, 5]
  {
  }

  /** The varint of 300 is 0xAC 0x02. */
  lemma VarintVector()
    ensures Varint.Encode(300) == [0xAC, 0x02]
  {
  }

  /** A little-endian host. */
  lemma HostOrder()
    ensures Split32(0x01020304) == [4, 3, 2, 1] && Hton32(0x01020304) == 0x04030201
  {
  }

  lemma StampVector()
    ensures Timestamp.Stamp(Timestamp.Tm(5, 4, 3, 2, 0, 124), 7) == "2024-01-02 03:04:05.007"
  {
    hide Timestamp.Digits;
    SomeDigits();
    assert "2024-01-02 03:04:05.007"
      == "2024" + "-" + "01" + "-" + "02" + " " + "03" + ":" + "04" + ":" + "05" + "." + "007";
  }

  lemma SomeDigits()
    ensures Timestamp.Digits(2024, 4) == "2024" && Timestamp.Digits(7, 3) == "007"
    ensures Timestamp.Digits(1, 2) == "01" && Timestamp.Digits(2, 2) == "02" && Timestamp.Digits(3, 2) == "03"
    ensures Timestamp.Digits(4, 2) == "04" && Timestamp.Digits(5, 2) == "05"
  {
  }

  /** No space is needed behind the colon. */
  lemma HeaderVector()
    ensures Http.FirstHeader("A" + ":" + "b" + "\n") == [("A", "b")]
  {
    hide Http.FirstHeader, Http.Trimmed, Http.LineEnd;
    Http.LineMeaning("A", "b", "\n");
    Http.TrimmedIsTrimmed("A");
    Http.TrimmedIsTrimmed("b");
  }
}
