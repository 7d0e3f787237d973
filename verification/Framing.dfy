/** The wire formats of LengthDelimitedCodec and FixedLength32Codec: a length, then that many bytes. */
module Framing {
  import opened Common
  import opened Endian
  import Varint

  datatype Format = LengthDelimited | Fixed32

  /** The longest length the length field can carry. */
  function Range(f: Format): nat {
    if f.Fixed32? then U32 else U64
  }

  /** Network byte order in both formats: a varint of the swapped 64-bit length, or four plain bytes. */
  function Header(f: Format, n: nat): seq<byte> {
    match f
    case LengthDelimited => Varint.Encode(Hton64(Word64(n)))
    case Fixed32 => Reverse(BytesOf(n % U32, 4))
  }

  function ParseHeader(f: Format, s: seq<byte>): Parsed<nat> {
    match f
    case LengthDelimited => (
      match Varint.Decode(s)
      case Done(v, rest) => Done(Value64(Ntoh64(v)), rest)
      case Truncated => Truncated
      case Malformed => Malformed
    )
    case Fixed32 => if |s| < 4 then Truncated else Done(NatOf(Reverse(s[..4])), s[4..])
  }

  function Frame(f: Format, message: seq<byte>): seq<byte> {
    Header(f, |message|) + message
  }

  function Parse(f: Format, s: seq<byte>): Parsed<seq<byte>> {
    match ParseHeader(f, s)
    case Done(n, rest) => if |rest| < n then Truncated else Done(rest[..n], rest[n..])
    case Truncated => Truncated
    case Malformed => Malformed
  }

  function Frames(f: Format, messages: seq<seq<byte>>): seq<byte> {
    if messages == [] then [] else Frame(f, messages[0]) + Frames(f, messages[1..])
  }

  lemma ReverseTwice(bs: seq<byte>)
    ensures Reverse(Reverse(bs)) == bs
  {
  }

  lemma ParseHeaderOfHeader(f: Format, n: nat, rest: seq<byte>)
    requires n < Range(f)
    ensures ParseHeader(f, Header(f, n) + rest) == Done(n, rest)
  {
    hide Word64, Value64, Bswap64, Varint.Decode, Varint.Encode, BytesOf, NatOf, Pow256;
    match f
    case LengthDelimited =>
      SwapsCancel(0, 0, Word64(n));
      WordValue64(n);
      Varint.DecodeEncode(Hton64(Word64(n)), rest);
    case Fixed32 =>
      var bytes := BytesOf(n, 4);
      assert (Reverse(bytes) + rest)[..4] == Reverse(bytes);
      assert (Reverse(bytes) + rest)[4..] == rest;
      ReverseTwice(bytes);
      Powers();
      NatOfBytesOf(n, 4);
  }

  /** Decoding a frame gives its message back and leaves exactly what follows the frame. */
  lemma ParseOfFrame(f: Format, message: seq<byte>, rest: seq<byte>)
    requires |message| < Range(f)
    ensures Parse(f, Frame(f, message) + rest) == Done(message, rest)
  {
    hide ParseHeader, Header;
    ParseHeaderOfHeader(f, |message|, message + rest);
    assert Frame(f, message) + rest == Header(f, |message|) + (message + rest);
  }

  /** What was parsed from a stream does not depend on how the stream goes on. */
  lemma ParseExtends(f: Format, s: seq<byte>, more: seq<byte>)
    requires Parse(f, s).Done?
    ensures Parse(f, s + more) == Done(Parse(f, s).value, Parse(f, s).rest + more)
  {
    hide Value64, Bswap64, Varint.DecodeFrom, NatOf;
    ParseHeaderExtends(f, s, more);
    var n, rest := ParseHeader(f, s).value, ParseHeader(f, s).rest;
    assert (rest + more)[..n] == rest[..n] && (rest + more)[n..] == rest[n..] + more;
  }

  lemma ParseHeaderExtends(f: Format, s: seq<byte>, more: seq<byte>)
    requires ParseHeader(f, s).Done?
    ensures ParseHeader(f, s + more) == Done(ParseHeader(f, s).value, ParseHeader(f, s).rest + more)
  {
    hide Value64, Bswap64, Varint.DecodeFrom, NatOf;
    match f
    case LengthDelimited =>
      Varint.DecodeExtends(s, more, 0, 0);
    case Fixed32 =>
      assert (s + more)[..4] == s[..4];
      assert (s + more)[4..] == s[4..] + more;
  }

  /** Two lists of messages with the same bytes on the wire are the same list. */
  lemma {:induction false} FramesInjective(f: Format, a: seq<seq<byte>>, b: seq<seq<byte>>)
    requires forall m :: m in a + b ==> |m| < Range(f)
    requires Frames(f, a) == Frames(f, b)
    ensures a == b
    decreases |a|
  {
    hide Header, Parse;
    if a == [] || b == [] {
      HeaderNotEmpty(f, if a == [] then b else a);
    } else {
      assert a[0] in a + b && b[0] in a + b;
      ParseOfFrame(f, a[0], Frames(f, a[1..]));
      ParseOfFrame(f, b[0], Frames(f, b[1..]));
      forall m | m in a[1..] + b[1..]
        ensures |m| < Range(f)
      {
        assert m in a + b;
      }
      FramesInjective(f, a[1..], b[1..]);
      assert a == [a[0]] + a[1..] && b == [b[0]] + b[1..];
    }
  }

  lemma HeaderNotEmpty(f: Format, messages: seq<seq<byte>>)
    ensures messages != [] ==> Frames(f, messages) != []
  {
    if messages != [] {
      assert Header(f, |messages[0]|) != [];
    }
  }

  /** Whatever is decoded from the beginning of a wire that carries `messages` is the first of them. */
  lemma FirstMessage(f: Format, s: seq<byte>, more: seq<byte>, messages: seq<seq<byte>>)
    requires forall m :: m in messages ==> |m| < Range(f)
    requires s + more == Frames(f, messages) && Parse(f, s).Done?
    ensures messages != [] && Parse(f, s).value == messages[0]
    ensures Parse(f, s).rest + more == Frames(f, messages[1..])
  {
    NothingToParse(f);
    assert |s + more| > 0;
    ParseExtends(f, s, more);
    ParseOfFrame(f, messages[0], Frames(f, messages[1..]));
  }

  lemma NothingToParse(f: Format)
    ensures Parse(f, []) == Truncated
  {
  }
}
