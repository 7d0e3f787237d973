/** uvio/codec/length_delimited.hpp and uvio/codec/fixed_length.hpp over a buffered reader and writer.
    Both codecs are stateless; the CRTP base of uvio/codec/base.hpp is the match on the format. */
module Codecs {
  import opened Common
  import opened Endian
  import opened Framing
  import opened BufReader
  import opened BufWriter
  import Varint

  /** writer.write(data), as one step of sending `data + rest`, after which `goal` will have been written. */
  method WriteToward(data: seq<byte>, w: BufWriter, ghost rest: seq<byte>, ghost goal: seq<byte>)
    returns (r: Result<nat>)
    requires w.Valid() && |data| <= INT_MAX
    requires w.Written() + (data + rest) == goal
    modifies w.stream, w.io
    ensures w.Valid()
    ensures old(w.io.sent) <= w.io.sent <= goal
    ensures r.Ok? ==> w.Written() + rest == goal
    ensures !w.io.faulty ==> r.Ok?
    ensures w.io.emptyWrites == old(w.io.emptyWrites)
  {
    hide BufWriter.Written, BufWriter.Valid, Kept, Buffers;
    assert goal == (w.Written() + data) + rest;
    r := w.Write(data);
  }

  /** What rounds of encode_length still have to write. */
  ghost function Left(more: bool, value: bv64): seq<byte> {
    if more then Varint.Encode(value) else []
  }

  /** One round of encode_length. */
  method EncodeRound(value: bv64, w: BufWriter, ghost rest: seq<byte>, ghost goal: seq<byte>) returns (r: Result<nat>)
    requires w.Valid() && w.Written() + (Left(true, value) + rest) == goal
    modifies w.stream, w.io
    ensures w.Valid()
    ensures old(w.io.sent) <= w.io.sent <= goal
    ensures r.Ok? ==> w.Written() + (Left(Varint.Shr7(value) != 0, Varint.Shr7(value)) + rest) == goal
    ensures !w.io.faulty ==> r.Ok?
    ensures w.io.emptyWrites == old(w.io.emptyWrites)
  {
    hide BufWriter.Written, BufWriter.Valid, Varint.Shr7, Varint.Encode, Varint.NextByte;
    ghost var next := Left(Varint.Shr7(value) != 0, Varint.Shr7(value));
    Varint.EncodeStep(value);
    var b := Varint.NextByte(value);
    assert Left(true, value) + rest == [b] + (next + rest);
    r := WriteToward([b], w, next + rest, goal);
  }

  method EncodeVarint(length: bv64, w: BufWriter, ghost rest: seq<byte>, ghost goal: seq<byte>) returns (r: Result<()>)
    requires w.Valid()
    requires w.Written() + (Varint.Encode(Hton64(length)) + rest) == goal
    modifies w.stream, w.io
    ensures w.Valid()
    ensures old(w.io.sent) <= w.io.sent <= goal
    ensures r.Ok? ==> w.Written() + rest == goal
    ensures !w.io.faulty ==> r.Ok?
    ensures w.io.emptyWrites == old(w.io.emptyWrites)
  {
    hide BufWriter.Written, BufWriter.Valid, Hton64, Varint.Shr7, Varint.Encode;
    var value, more := Hton64(length), true;
    while more
      invariant w.Valid() && old(w.io.sent) <= w.io.sent <= goal
      invariant w.Written() + (Left(more, value) + rest) == goal
      invariant w.io.emptyWrites == old(w.io.emptyWrites)
      decreases |Left(more, value)|
    {
      Varint.EncodeStep(value);
      var ret := EncodeRound(value, w, rest, goal);
      if ret.Err? {
        return Err(ret.error);
      }
      value := Varint.Shr7(value);
      more := value != 0;
    }
    assert Left(false, value) + rest == rest;
    return Ok(());
  }

  /** reader.read_exact into a fresh array of n bytes. */
  method Obtain(reader: BufReader, n: nat) returns (r: Result<seq<byte>>, ghost got: seq<byte>)
    requires reader.Valid()
    modifies reader.stream, reader.io
    ensures reader.Valid() && reader.io.idle <= old(reader.io.idle)
    ensures old(reader.Pending()) == got + reader.Pending()
    ensures if r.Ok? then r.value == got && |got| == n else n <= reader.stream.Capacity() ==> got == []
    ensures old(reader.Serves(n)) ==> if n <= |old(reader.Pending())| then r.Ok? else r == Err(UnexpectedEOF)
  {
    hide BufReader.Pending, BufReader.Valid, Splice;
    var bytes := new byte[n];
    ghost var before := bytes[..];
    var ret;
    ret, got := reader.ReadExact(bytes, 0, n);
    if ret.Err? {
      return Err(ret.error), got;
    }
    SpliceWhole(before, got);
    return Ok(bytes[..]), got;
  }

  /** reader.read_exact into a one-byte array. */
  method ReadByte(reader: BufReader) returns (r: Result<byte>)
    requires reader.Valid()
    modifies reader.stream, reader.io
    ensures reader.Valid()
    ensures r.Ok? ==> old(reader.Pending()) == [r.value] + reader.Pending()
    ensures Leaves(old(reader.Pending()), reader.Pending())
    ensures reader.io.idle <= old(reader.io.idle)
    ensures old(reader.Serves(1)) ==>
      if old(reader.Pending()) == [] then r == Err(UnexpectedEOF) && reader.Pending() == [] else r.Ok?
  {
    hide BufReader.Pending, BufReader.Valid, Leaves;
    var bytes, got := Obtain(reader, 1);
    TakenLeaves(got, reader.Pending());
    if bytes.Err? {
      return Err(bytes.error);
    }
    assert got == [bytes.value[0]];
    return Ok(bytes.value[0]);
  }

  method DecodeVarint(reader: BufReader) returns (r: Result<bv64>)
    requires reader.Valid()
    modifies reader.stream, reader.io
    ensures reader.Valid()
    ensures r.Ok? ==>
      exists v :: Varint.Decode(old(reader.Pending())) == Done(v, reader.Pending()) && r.value == Ntoh64(v)
    ensures Leaves(old(reader.Pending()), reader.Pending())
    ensures reader.io.idle <= old(reader.io.idle)
    ensures old(reader.Serves(1)) ==>
      match Varint.Decode(old(reader.Pending()))
      case Done(_, _) => r.Ok?
      case Truncated => r == Err(UnexpectedEOF) && reader.Pending() == []
      case Malformed => r == Err(Unclassified) && |reader.Pending()| == |old(reader.Pending())| - 10
  {
    hide BufReader.Valid, BufReader.Pending, Bswap64, Varint.Up, Varint.Or, Varint.Payload, Varint.Stops, Leaves;
    TakenLeaves([], reader.Pending());
    assert [] + reader.Pending() == reader.Pending();
    var value: bv64 := 0;
    var i := 0;
    while i < 10
      invariant 0 <= i <= 10 && reader.Valid()
      invariant Varint.DecodeFrom(reader.Pending(), i, value) == Varint.Decode(old(reader.Pending()))
      invariant Leaves(old(reader.Pending()), reader.Pending())
      invariant |reader.Pending()| == |old(reader.Pending())| - i
      invariant reader.io.idle <= old(reader.io.idle)
    {
      ghost var before := reader.Pending();
      var b := ReadByte(reader);
      LeavesOn(old(reader.Pending()), before, reader.Pending());
      if b.Err? {
        return Err(b.error);
      }
      assert before[1..] == reader.Pending();
      value := Varint.Or(value, Varint.Up(Varint.Payload(b.value), i));
      if Varint.Stops(b.value) {
        return Ok(Ntoh64(value));
      }
      i := i + 1;
    }
    return Err(Unclassified);
  }

  method EncodeFixed32(length: bv32, w: BufWriter, ghost rest: seq<byte>, ghost goal: seq<byte>) returns (r: Result<()>)
    requires w.Valid()
    requires w.Written() + (Split32(Hton32(length)) + rest) == goal
    modifies w.stream, w.io
    ensures w.Valid()
    ensures old(w.io.sent) <= w.io.sent <= goal
    ensures r.Ok? ==> w.Written() + rest == goal
    ensures !w.io.faulty ==> r.Ok?
    ensures w.io.emptyWrites == old(w.io.emptyWrites)
  {
    hide BufWriter.Written, BufWriter.Valid, Hton32, LowByte, Shr8, Split32;
    var value := Hton32(length);
    LowBytesAreSplit(value);
    for i := 0 to 4
      invariant w.Valid() && old(w.io.sent) <= w.io.sent <= goal
      invariant w.Written() + (LowBytes(value, 4 - i) + rest) == goal
      invariant w.io.emptyWrites == old(w.io.emptyWrites)
    {
      var b := LowByte(value);
      value := Shr8(value);
      ghost var left := LowBytes(value, 3 - i) + rest;
      assert goal == w.Written() + ([b] + left);
      var ret := WriteToward([b], w, left, goal);
      if ret.Err? {
        return Err(ret.error);
      }
    }
    assert LowBytes(value, 0) + rest == rest;
    return Ok(());
  }

  method DecodeFixed32(reader: BufReader) returns (r: Result<bv32>)
    requires reader.Valid()
    modifies reader.stream, reader.io
    ensures reader.Valid()
    ensures r.Ok? ==>
      && |old(reader.Pending())| >= 4
      && reader.Pending() == old(reader.Pending())[4..]
      && r.value == Ntoh32(Join32(old(reader.Pending())[..4]))
    ensures Leaves(old(reader.Pending()), reader.Pending())
    ensures reader.io.idle <= old(reader.io.idle)
    ensures old(reader.Serves(1)) ==>
      if |old(reader.Pending())| < 4 then r == Err(UnexpectedEOF) && reader.Pending() == [] else r.Ok?
  {
    hide BufReader.Valid, BufReader.Pending, Hton32, Ntoh32, Gather, Gathered, Join32, Leaves;
    ghost var whole, taken: seq<byte> := reader.Pending(), [];
    TakenLeaves([], whole);
    assert [] + whole == whole;
    var value: bv32 := 0;
    ZeroWord();
    for i := 0 to 4
      invariant reader.Valid() && |taken| == i
      invariant whole == taken + reader.Pending() && value == Gathered(taken)
      invariant Leaves(whole, reader.Pending())
      invariant reader.io.idle <= old(reader.io.idle)
    {
      ghost var before := reader.Pending();
      var b := ReadByte(reader);
      LeavesOn(whole, before, reader.Pending());
      if b.Err? {
        return Err(b.error);
      }
      GatherNext(taken, b.value);
      value := Gather(value, b.value, i);
      taken := taken + [b.value];
    }
    GatheredAll(taken);
    assert taken == whole[..4] && reader.Pending() == whole[4..];
    return Ok(Ntoh32(value));
  }

  /** decode_length of either codec, its result as the size `message.resize` gets. */
  method DecodeLength(f: Format, reader: BufReader) returns (r: Result<nat>)
    requires reader.Valid()
    modifies reader.stream, reader.io
    ensures reader.Valid()
    ensures r.Ok? ==> ParseHeader(f, old(reader.Pending())) == Done(r.value, reader.Pending())
    ensures Leaves(old(reader.Pending()), reader.Pending())
    ensures reader.io.idle <= old(reader.io.idle)
    ensures old(reader.Serves(1)) ==>
      match ParseHeader(f, old(reader.Pending()))
      case Done(_, _) => r.Ok?
      case Truncated => r == Err(UnexpectedEOF) && reader.Pending() == []
      case Malformed => r == Err(Unclassified) && |reader.Pending()| == |old(reader.Pending())| - 10
  {
    hide BufReader.Valid, BufReader.Pending, Bswap32, Bswap64, Value32, Value64, Join4, NatOf, Varint.DecodeFrom;
    match f {
      case LengthDelimited =>
        var v := DecodeVarint(reader);
        if v.Err? {
          return Err(v.error);
        }
        return Ok(Value64(v.value));
      case Fixed32 =>
        ghost var whole := reader.Pending();
        var v := DecodeFixed32(reader);
        if v.Err? {
          return Err(v.error);
        }
        BigEndian32(0, whole[..4]);
        return Ok(Value32(v.value));
    }
  }

  method EncodeLength(f: Format, n: nat, w: BufWriter, ghost rest: seq<byte>, ghost goal: seq<byte>)
    returns (r: Result<()>)
    requires w.Valid()
    requires w.Written() + (Header(f, n) + rest) == goal
    modifies w.stream, w.io
    ensures w.Valid()
    ensures old(w.io.sent) <= w.io.sent <= goal
    ensures r.Ok? ==> w.Written() + rest == goal
    ensures !w.io.faulty ==> r.Ok?
    ensures w.io.emptyWrites == old(w.io.emptyWrites)
  {
    hide BufWriter.Written, BufWriter.Valid, Word32, Word64, Bswap32, Bswap64, Split32, Varint.Encode, BytesOf;
    match f {
      case LengthDelimited =>
        r := EncodeVarint(Word64(n), w, rest, goal);
      case Fixed32 =>
        BigEndian32(n, [0, 0, 0, 0]);
        r := EncodeFixed32(Word32(n), w, rest, goal);
    }
  }

  /** encode: length, message, flush. Afterwards the frame has been sent whole, behind everything written
      before it, exactly when the message is no longer than an `int` can count. */
  method Encode(f: Format, message: seq<byte>, w: BufWriter) returns (r: Result<()>)
    requires w.Valid()
    modifies w.stream, w.io
    ensures w.Valid()
    ensures old(w.io.sent) <= w.io.sent <= old(w.Written()) + Frame(f, message)
    ensures r.Ok? ==> w.Buffered() == [] && w.io.sent == w.Written()
    ensures r.Ok? ==> (w.io.sent == old(w.Written()) + Frame(f, message) <==> |message| <= INT_MAX)
    ensures !w.io.faulty ==> r.Ok?
    ensures w.io.emptyWrites == old(w.io.emptyWrites)
  {
    hide Header;
    ghost var goal := w.Written() + Frame(f, message);
    var ret := EncodeLength(f, |message|, w, message, goal);
    if ret.Err? {
      return ret;
    }
    ghost var room, before := w.stream.WRemaining(), w.Written();
    KeptAllIff(|message|, room);
    var n := w.Write(message);
    if n.Err? {
      return Err(n.error);
    }
    assert |w.Written()| == |goal| <==> |message| <= INT_MAX;
    r := w.Flush();
  }

  /** message.resize(n) and read_exact into it. */
  method ReadMessage(reader: BufReader, n: nat) returns (r: Result<seq<byte>>)
    requires reader.Valid()
    modifies reader.stream, reader.io
    ensures reader.Valid()
    ensures r.Ok? ==> |r.value| == n && old(reader.Pending()) == r.value + reader.Pending()
    ensures r.Err? && n <= reader.stream.Capacity() ==> reader.Pending() == old(reader.Pending())
    ensures Leaves(old(reader.Pending()), reader.Pending())
    ensures reader.io.idle <= old(reader.io.idle)
    ensures old(reader.Serves(n)) ==> if n <= |old(reader.Pending())| then r.Ok? else r.Err?
  {
    hide BufReader.Valid, BufReader.Pending, Leaves;
    ghost var got;
    r, got := Obtain(reader, n);
    TakenLeaves(got, reader.Pending());
    assert got == [] ==> got + reader.Pending() == reader.Pending();
  }

  /** decode: what it returns is what the wire format says, whatever the chunking, and it takes no byte more.
      A failure has taken a first part of the stream: only the header if the message could have been buffered. */
  method Decode(f: Format, reader: BufReader) returns (r: Result<seq<byte>>)
    requires reader.Valid()
    modifies reader.stream, reader.io
    ensures reader.Valid()
    ensures r.Ok? ==> Parse(f, old(reader.Pending())) == Done(r.value, reader.Pending())
    ensures Leaves(old(reader.Pending()), reader.Pending())
    ensures reader.io.idle <= old(reader.io.idle)
    ensures old(reader.Serves(1)) && r.Err? ==>
      match ParseHeader(f, old(reader.Pending()))
      case Done(n, rest) => n <= reader.stream.Capacity() ==> reader.Pending() == rest
      case Truncated => reader.Pending() == []
      case Malformed => |reader.Pending()| == |old(reader.Pending())| - 10
    ensures old(reader.Serves(1)) ==>
      match Parse(f, old(reader.Pending()))
      case Done(m, _) => old(reader.Serves(|m|)) ==> r.Ok?
      case Truncated => r.Err?
      case Malformed => r == Err(Unclassified)
  {
    hide ParseHeader, BufReader.Valid, BufReader.Pending, Leaves;
    var n := DecodeLength(f, reader);
    if n.Err? {
      return Err(n.error);
    }
    ghost var rest := reader.Pending();
    r := ReadMessage(reader, n.value);
    LeavesOn(old(reader.Pending()), rest, reader.Pending());
    assert r.Ok? ==> rest[..n.value] == r.value && rest[n.value..] == reader.Pending();
  }
}
