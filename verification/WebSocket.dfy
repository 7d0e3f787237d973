/** uvio/codec/websocket.hpp over a buffered reader and writer. */
module WebSocket {
  import opened Common
  import opened Endian
  import opened Masking
  import opened Tcp
  import opened WsFormat
  import opened BufReader
  import opened BufWriter

  class WebsocketCodec {
    var clientSide: bool

    constructor ()
      ensures !clientSide
    {
      clientSide := false;
    }

    method ClientSide()
      modifies this
      ensures clientSide
    {
      clientSide := true;
    }

    /** The frame header, built slot by slot in a ten-byte array. */
    method BuildHeader(opcode: byte, n: nat) returns (header: seq<byte>)
      requires n < U64
      ensures header == FrameHeader(opcode, clientSide, n)
    {
      hide OrByte, Split16, Split64, Hton16, Hton64, Word16, Word64, BigEndian, ByteOf;
      var buf := new byte[10](_ => 0);
      buf[0] := OrByte(0x80, opcode);
      buf[1] := if clientSide then 0x80 else 0;
      if n < 126 {
        buf[1] := OrByte(buf[1], ByteOf(n));
        return buf[..2];
      }
      if n < U16 {
        BigEndianWord16(n);
        var length := Split16(Hton16(Word16(n)));
        buf[1] := OrByte(buf[1], 126);
        Fill(buf, 2, length);
        return buf[..4];
      }
      BigEndianWord64(n);
      var length := Split64(Hton64(Word64(n)));
      buf[1] := OrByte(buf[1], 127);
      Fill(buf, 2, length);
      return buf[..10];
    }

    /** The payload and the flush. */
    method SendPayload(payload: seq<byte>, w: BufWriter)
      requires w.Valid()
      modifies w.stream, w.io
      ensures w.Valid() && old(w.io.sent) <= w.io.sent
      ensures !w.io.faulty ==>
        var all := old(w.Written()) + payload;
        w.Buffered() == [] && w.io.sent <= all && (w.io.sent == all <==> |payload| <= INT_MAX)
    {
      hide Buffers;
      ghost var all := w.Written() + payload;
      KeptAllIff(|payload|, w.stream.WRemaining());
      var _ := w.Write(payload);
      assert !w.io.faulty ==> w.Written() <= all && (|w.Written()| == |all| <==> |payload| <= INT_MAX);
      var _ := w.Flush();
    }

    /** A client's masking key, and the payload masked with it in place. */
    method SendKey(message: array<byte>, w: BufWriter)
      requires w.Valid() && (clientSide ==> message.Length < UINT_RANGE)
      modifies w.stream, w.io, message
      ensures w.Valid() && old(w.io.sent) <= w.io.sent
      ensures message[..] == if clientSide then Masked(old(message[..]), [1, 1, 1, 1]) else old(message[..])
      ensures !w.io.faulty ==> w.Written() == old(w.Written()) + if clientSide then [1, 1, 1, 1] else []
    {
      hide Masked, Kept, Buffers;
      if clientSide {
        var mask := [1, 1, 1, 1];
        var _ := w.Write(mask);
        ApplyMask(message, mask);
      } else {
        assert w.Written() == w.Written() + [];
      }
    }

    /** encode. The results of the writes are ignored. A client masks the caller's own bytes. */
    method Encode(opcode: byte, message: array<byte>, w: BufWriter)
      requires w.Valid() && message.Length < U64
      requires clientSide ==> message.Length < UINT_RANGE
      modifies w.stream, w.io, message
      ensures w.Valid()
      ensures message[..] == if clientSide then Masked(old(message[..]), [1, 1, 1, 1]) else old(message[..])
      ensures old(w.io.sent) <= w.io.sent
      ensures !w.io.faulty ==>
        var all := old(w.Written()) + WsFrame(opcode, clientSide, [1, 1, 1, 1], old(message[..]));
        w.Buffered() == [] && w.io.sent <= all && (w.io.sent == all <==> message.Length <= INT_MAX)
    {
      hide WsFrame, FrameHeader, Masked, BufWriter.Written, BufWriter.Buffered, BufWriter.Valid, Kept, Buffers;
      ghost var written, payload := w.Written(), message[..];
      var header := BuildHeader(opcode, message.Length);
      HeaderLength(opcode, clientSide, message.Length);
      var _ := w.Write(header);
      SendKey(message, w);
      FrameParts(opcode, clientSide, payload, written);
      SendPayload(message[..], w);
    }

    /** `co_await reader.read_exact(span)` with its result dropped: a failure is not noticed by the code,
        which goes on with whatever the span then holds. `clean` says there was none. */
    method Fetch(reader: BufReader, span: seq<byte>) returns (bytes: seq<byte>, ghost clean: bool)
      requires reader.Valid()
      modifies reader.stream, reader.io
      ensures reader.Valid() && reader.io.idle <= old(reader.io.idle) && |bytes| == |span|
      ensures clean ==>
        && |span| <= |old(reader.Pending())|
        && bytes == old(reader.Pending())[..|span|]
        && reader.Pending() == old(reader.Pending())[|span|..]
      ensures old(reader.Serves(|span|)) && |span| <= |old(reader.Pending())| ==> clean
      ensures Leaves(old(reader.Pending()), reader.Pending())
      ensures old(reader.Serves(|span|)) ==>
        (bytes, reader.Pending()) == Taken(old(reader.Pending()), span, reader.stream.Capacity())
    {
      hide BufReader.Pending, BufReader.Valid, Taken, Leaves;
      ghost var whole, served := reader.Pending(), reader.Serves(|span|);
      var dst := new byte[|span|](i requires 0 <= i < |span| => span[i]);
      var ret, got := reader.ReadExact(dst, 0, |span|);
      clean := ret.Ok?;
      bytes := dst[..];
      TakenLeaves(got, reader.Pending());
      assert whole == got + reader.Pending();
      assert bytes == got + span[|got|..];
      assert clean ==> bytes == got;
      if served {
        TakenIs(got, reader.Pending(), span, reader.stream.Capacity());
      }
    }

    method ReadLength(reader: BufReader) returns (r: Result<nat>, ghost clean: bool)
      requires reader.Valid()
      modifies reader.stream, reader.io
      ensures reader.Valid() && reader.io.idle <= old(reader.io.idle)
      ensures clean && r.Ok? ==> ParseLength(old(reader.Pending())) == Done(r.value, reader.Pending())
      ensures clean && r.Err? ==> r == Err(Aborted) && ParseLength(old(reader.Pending())).Malformed?
      ensures old(reader.Serves(8)) && ParseLength(old(reader.Pending())).Done? ==> clean
      ensures Leaves(old(reader.Pending()), reader.Pending())
      ensures r.Err? ==> r == Err(Aborted)
      ensures old(reader.Serves(8)) ==>
        match LooseLength(old(reader.Pending()), reader.stream.Capacity())
        case Done(n, rest) => r == Ok(n) && reader.Pending() == rest
        case _ => r == Err(Aborted)
    {
      hide BufReader.Pending, BufReader.Valid, Fin, IsText, Length7, Length16, Length64, Leaves;
      ghost var s := reader.Pending();
      var buf;
      buf, clean := Fetch(reader, [0, 0]);
      ghost var s1 := reader.Pending();
      if !Fin(buf[0]) || !IsText(buf[0]) {
        return Err(Aborted), clean;
      }
      var low := Length7(buf[1]);
      if low == 126 {
        ghost var again;
        buf, again := Fetch(reader, buf);
        LeavesOn(s, s1, reader.Pending());
        assert clean && again ==> buf == s[2..4];
        return Ok(Length16(buf[0], buf[1])), clean && again;
      } else if low == 127 {
        var buf8;
        ghost var again;
        buf8, again := Fetch(reader, Zeros(8));
        LeavesOn(s, s1, reader.Pending());
        assert clean && again ==> buf8 == s[2..10];
        return Ok(Length64(buf8)), clean && again;
      } else {
        return Ok(low as int), clean;
      }
    }

    method ReadBody(reader: BufReader, n: nat) returns (r: Result<seq<byte>>, ghost clean: bool)
      requires reader.Valid()
      modifies reader.stream, reader.io
      ensures reader.Valid() && reader.io.idle <= old(reader.io.idle)
      ensures clean && r.Ok? ==> ParseBody(!clientSide, n, old(reader.Pending())) == Done(r.value, reader.Pending())
      ensures if r.Ok? then |r.value| == n else n >= UINT_RANGE && r == Err(Overrun)
      ensures n < UINT_RANGE ==> r.Ok?
      ensures old(reader.Serves(4) && reader.Serves(n)) && ParseBody(!clientSide, n, old(reader.Pending())).Done? ==>
        clean
      ensures Leaves(old(reader.Pending()), reader.Pending())
      ensures old(reader.Serves(4) && reader.Serves(n)) && n < UINT_RANGE ==>
        LooseBody(!clientSide, n, old(reader.Pending()), reader.stream.Capacity()) == Done(r.value, reader.Pending())
    {
      hide BufReader.Pending, BufReader.Valid, Leaves, Taken, Masked;
      ghost var s := reader.Pending();
      TakenLeaves([], s);
      assert [] + s == s;
      var mask := Zeros(4);
      clean := true;
      if !clientSide {
        mask, clean := Fetch(reader, mask);
      }
      ghost var s1 := reader.Pending();
      var bytes;
      ghost var again;
      bytes, again := Fetch(reader, Zeros(n));
      LeavesOn(s, s1, reader.Pending());
      clean := clean && again;
      if clientSide {
        return Ok(bytes), clean;
      }
      if n >= UINT_RANGE {
        // The 32-bit counter of apply_mask wraps around and never reaches the end.
        return Err(Overrun), clean;
      }
      if clean {
        KeyAndBody(s, n);
      }
      var payload := Unmask(bytes, mask);
      return Ok(payload), clean;
    }

    /** apply_mask on a vector that was just read. */
    method Unmask(bytes: seq<byte>, mask: seq<byte>) returns (payload: seq<byte>)
      requires |mask| == 4 && |bytes| < UINT_RANGE
      ensures payload == Masked(bytes, mask)
    {
      var data := new byte[|bytes|](i requires 0 <= i < |bytes| => bytes[i]);
      assert data[..] == bytes;
      ApplyMask(data, mask);
      return data[..];
    }

    /** decode. A failed read is never reported; as long as the source neither fails nor, where that matters,
        comes back empty, the payload is exactly what LooseBody says, wherever the stream ends. */
    method Decode(reader: BufReader) returns (r: Result<seq<byte>>, ghost clean: bool)
      requires reader.Valid()
      modifies reader.stream, reader.io
      ensures reader.Valid() && reader.io.idle <= old(reader.io.idle)
      ensures clean && r.Ok? ==> WsParse(!clientSide, old(reader.Pending())) == Done(r.value, reader.Pending())
      ensures old(reader.Serves(8)) ==>
        match WsParse(!clientSide, old(reader.Pending()))
        case Done(m, _) => |m| < UINT_RANGE && old(reader.Serves(|m|)) ==> clean && r.Ok?
        case _ => true
      ensures Leaves(old(reader.Pending()), reader.Pending())
      ensures r.Err? ==> r.error in {Aborted, Overrun}
      ensures old(reader.Serves(8)) ==>
        match LooseLength(old(reader.Pending()), reader.stream.Capacity())
        case Done(n, rest) => n < UINT_RANGE && old(reader.Serves(n)) ==>
          r.Ok? && LooseBody(!clientSide, n, rest, reader.stream.Capacity()) == Done(r.value, reader.Pending())
        case _ => r == Err(Aborted)
    {
      hide BufReader.Pending, BufReader.Valid, ParseLength, ParseBody, LooseLength, LooseBody, Leaves;
      ghost var s := reader.Pending();
      var n;
      n, clean := ReadLength(reader);
      if n.Err? {
        return Err(n.error), clean;
      }
      if clean {
        ParseBodyLength(!clientSide, n.value, reader.Pending());
      }
      ghost var again;
      ghost var s1 := reader.Pending();
      r, again := ReadBody(reader, n.value);
      LeavesOn(s, s1, reader.Pending());
      clean := clean && again;
    }
  }

  /** Header, key and payload, written one after the other, are the frame. */
  lemma FrameParts(opcode: byte, masked: bool, payload: seq<byte>, written: seq<byte>)
    ensures var key: seq<byte> := if masked then [1, 1, 1, 1] else [];
      var body := if masked then Masked(payload, [1, 1, 1, 1]) else payload;
      written + FrameHeader(opcode, masked, |payload|) + key + body
        == written + WsFrame(opcode, masked, [1, 1, 1, 1], payload)
  {
    hide FrameHeader, Masked;
  }

  lemma KeyAndBody(s: seq<byte>, n: nat)
    requires |s| >= 4 && |s[4..]| >= n
    ensures s[4..][..n] == s[4..4 + n] && s[4..][n..] == s[4 + n..]
  {
  }

  lemma HeaderLength(opcode: byte, masked: bool, n: nat)
    ensures |FrameHeader(opcode, masked, n)| <= 10
  {
  }

  ghost predicate AllSurvive(messages: seq<seq<byte>>) {
    forall m :: m in messages ==> |m| <= INT_MAX && LengthSurvives(|m|)
  }

  function WsFrames(masked: bool, messages: seq<seq<byte>>): seq<byte> {
    if messages == [] then [] else WsFrame(TEXT, masked, [1, 1, 1, 1], messages[0]) + WsFrames(masked, messages[1..])
  }

  method SendFrame(codec: WebsocketCodec, w: BufWriter, payload: seq<byte>)
    requires w.Valid() && !w.io.faulty && w.Buffered() == [] && |payload| <= INT_MAX
    modifies w.stream, w.io
    ensures w.Valid() && w.Buffered() == []
    ensures w.io.sent == old(w.io.sent) + WsFrame(TEXT, codec.clientSide, [1, 1, 1, 1], payload)
  {
    hide WsFrame, Masked;
    var message := new byte[|payload|](k requires 0 <= k < |payload| => payload[k]);
    assert message[..] == payload;
    codec.Encode(TEXT, message, w);
  }

  lemma FramesOfFirst(masked: bool, messages: seq<seq<byte>>, i: nat)
    requires i < |messages|
    ensures WsFrames(masked, messages[i..])
      == WsFrame(TEXT, masked, [1, 1, 1, 1], messages[i]) + WsFrames(masked, messages[i + 1..])
  {
    hide WsFrame;
    assert messages[i..][1..] == messages[i + 1..];
  }

  method SendFrames(codec: WebsocketCodec, w: BufWriter, messages: seq<seq<byte>>)
    requires w.Valid() && !w.io.faulty && w.Buffered() == []
    requires forall m :: m in messages ==> |m| <= INT_MAX
    modifies w.stream, w.io
    ensures w.Valid() && w.Buffered() == []
    ensures w.io.sent == old(w.io.sent) + WsFrames(codec.clientSide, messages)
  {
    hide WsFrame, WsFrames, BufWriter.Valid, BufWriter.Buffered;
    var i := 0;
    ghost var goal := w.io.sent + WsFrames(codec.clientSide, messages);
    assert messages[0..] == messages;
    while i < |messages|
      invariant 0 <= i <= |messages| && w.Valid() && w.Buffered() == []
      invariant w.io.sent + WsFrames(codec.clientSide, messages[i..]) == goal
    {
      FramesOfFirst(codec.clientSide, messages, i);
      SendFrame(codec, w, messages[i]);
      i := i + 1;
    }
    NoFrames(codec.clientSide, messages[i..]);
  }

  /** One frame at the beginning of what is pending. */
  method RecvFrame(codec: WebsocketCodec, reader: BufReader, ghost first: seq<byte>, ghost rest: seq<byte>)
    returns (payload: seq<byte>)
    requires reader.Valid() && |first| <= INT_MAX && LengthSurvives(|first|)
    requires reader.Serves(8) && reader.Serves(|first|)
    requires reader.Pending() == WsFrame(TEXT, !codec.clientSide, [1, 1, 1, 1], first) + rest
    modifies reader.stream, reader.io
    ensures reader.Valid() && reader.io.idle <= old(reader.io.idle)
    ensures payload == first && reader.Pending() == rest
  {
    hide WsFrame, WsParse, LengthSurvives, BufReader.Pending, BufReader.Valid, LooseLength, LooseBody, Leaves;
    WsRoundTrip(!codec.clientSide, [1, 1, 1, 1], first, rest);
    var r, clean := codec.Decode(reader);
    return r.value;
  }

  lemma NoFrames(masked: bool, messages: seq<seq<byte>>)
    requires messages == []
    ensures WsFrames(masked, messages) == []
  {
  }

  ghost predicate ServesAll(reader: BufReader, messages: seq<seq<byte>>)
    reads reader.io
  {
    reader.Serves(8) && forall m :: m in messages ==> reader.Serves(|m|)
  }

  method RecvFrames(codec: WebsocketCodec, reader: BufReader, ghost messages: seq<seq<byte>>, count: nat)
    returns (got: seq<seq<byte>>)
    requires reader.Valid() && count == |messages| && AllSurvive(messages)
    requires ServesAll(reader, messages)
    requires reader.Pending() == WsFrames(!codec.clientSide, messages)
    modifies reader.stream, reader.io
    ensures got == messages && reader.Valid() && reader.Pending() == []
  {
    hide WsFrame, WsFrames, LengthSurvives, BufReader.Pending, BufReader.Valid;
    got := [];
    ghost var left := messages;
    for i := 0 to count
      invariant reader.Valid() && ServesAll(reader, left)
      invariant got + left == messages && |left| == count - i && AllSurvive(left)
      invariant reader.Pending() == WsFrames(!codec.clientSide, left)
    {
      assert left[0..] == left;
      FramesOfFirst(!codec.clientSide, left, 0);
      var payload := RecvFrame(codec, reader, left[0], WsFrames(!codec.clientSide, left[1..]));
      got := got + [payload];
      left := left[1..];
    }
    NoFrames(!codec.clientSide, left);
  }

  /** Client to server, masked, or server to client, not masked: any text messages whose lengths survive the
      decoder arrive as they were, whatever the buffer sizes and the chunking. Reads may come back empty if every
      message, and the eight bytes of a length, fit the read buffer. */
  method Talk(clientSends: bool, messages: seq<seq<byte>>, writeSize: nat, readSize: nat, idle: nat)
    returns (got: seq<seq<byte>>, rest: seq<byte>)
    requires writeSize <= INT_MAX && readSize <= INT_MAX && AllSurvive(messages)
    requires idle == 0 || (8 <= readSize && forall m :: m in messages ==> |m| <= readSize)
    ensures got == messages && rest == []
  {
    hide WsFrame, LengthSurvives;
    var client := new WebsocketCodec();
    client.ClientSide();
    var server := new WebsocketCodec();
    var sink := new Sink(false);
    var writer := new BufWriter(sink, writeSize);
    SendFrames(if clientSends then client else server, writer, messages);
    var source := new Source(sink.sent, idle, false);
    var reader := new BufReader(source, readSize);
    got := RecvFrames(if clientSends then server else client, reader, messages, |messages|);
    rest := reader.Pending();
  }
}
