/** examples/tcp_channel.hpp: a codec over a buffered reader and writer, and the end-to-end theorem. */
module Channel {
  import opened Common
  import opened Tcp
  import opened Framing
  import opened BufReader
  import opened BufWriter
  import Codecs

  class Channel {
    const codec: Format
    const reader: BufReader
    const writer: BufWriter

    ghost predicate Valid()
      reads reader.stream, writer.stream
    {
      reader.Valid() && writer.Valid()
    }

    constructor (codec: Format, source: Source, sink: Sink, readSize: nat, writeSize: nat)
      requires readSize <= INT_MAX && writeSize <= INT_MAX
      ensures Valid() && this.codec == codec && reader.io == source && writer.io == sink
      ensures fresh(reader.stream) && fresh(writer.stream)
      ensures reader.stream.Capacity() == readSize && reader.stream != writer.stream
      ensures reader.Pending() == source.unread && writer.Written() == sink.sent && writer.Buffered() == []
    {
      this.codec := codec;
      this.reader := new BufReader(source, readSize);
      this.writer := new BufWriter(sink, writeSize);
    }

    method Send(message: seq<byte>) returns (r: Result<()>)
      requires Valid() && reader.stream != writer.stream
      modifies writer.stream, writer.io
      ensures Valid()
      ensures old(writer.io.sent) <= writer.io.sent <= old(writer.Written()) + Frame(codec, message)
      ensures r.Ok? ==> writer.Buffered() == [] && writer.io.sent == writer.Written()
      ensures r.Ok? ==> (writer.io.sent == old(writer.Written()) + Frame(codec, message) <==> |message| <= INT_MAX)
      ensures !writer.io.faulty ==> r.Ok?
    {
      hide BufWriter.Written, BufWriter.Buffered, Frame;
      r := Codecs.Encode(codec, message, writer);
    }

    method Recv() returns (r: Result<seq<byte>>)
      requires Valid() && reader.stream != writer.stream
      modifies reader.stream, reader.io
      ensures Valid()
      ensures r.Ok? ==> Parse(codec, old(reader.Pending())) == Done(r.value, reader.Pending())
      ensures Leaves(old(reader.Pending()), reader.Pending())
      ensures reader.io.idle <= old(reader.io.idle)
      ensures old(reader.Serves(1)) ==>
        match Parse(codec, old(reader.Pending()))
        case Done(m, _) => old(reader.Serves(|m|)) ==> r.Ok?
        case Truncated => r.Err?
        case Malformed => r == Err(Unclassified)
    {
      hide BufReader.Pending, Parse;
      r := Codecs.Decode(codec, reader);
    }
  }

  lemma {:induction false} FramesAppend(f: Format, a: seq<seq<byte>>, b: seq<seq<byte>>)
    ensures Frames(f, a + b) == Frames(f, a) + Frames(f, b)
  {
    hide Frame;
    if a == [] {
      assert a + b == b;
    } else {
      assert (a + b)[1..] == a[1..] + b;
      FramesAppend(f, a[1..], b);
    }
  }

  lemma SplitAt(f: Format, messages: seq<seq<byte>>, i: nat)
    requires i < |messages|
    ensures Frames(f, messages[..i + 1]) == Frames(f, messages[..i]) + Frame(f, messages[i])
    ensures Frames(f, messages[..i + 1]) <= Frames(f, messages)
  {
    hide Frame;
    assert messages[..i + 1] == messages[..i] + [messages[i]];
    FramesAppend(f, messages[..i], [messages[i]]);
    assert Frames(f, [messages[i]]) == Frame(f, messages[i]) + Frames(f, []);
    assert messages == messages[..i + 1] + messages[i + 1..];
    FramesAppend(f, messages[..i + 1], messages[i + 1..]);
  }

  /** Send until a send fails. What reaches the wire is never anything but a prefix of the frames. */
  method SendAll(channel: Channel, messages: seq<seq<byte>>) returns (ok: bool)
    requires channel.Valid() && channel.reader.stream != channel.writer.stream
    requires channel.writer.Written() == [] && channel.writer.io.sent == []
    requires forall m :: m in messages ==> |m| <= INT_MAX
    modifies channel.writer.stream, channel.writer.io
    ensures channel.Valid()
    ensures channel.writer.io.sent <= Frames(channel.codec, messages)
    ensures ok ==> channel.writer.io.sent == Frames(channel.codec, messages)
    ensures !channel.writer.io.faulty ==> ok
  {
    hide BufWriter.Written, BufWriter.Buffered, Frame;
    var f := channel.codec;
    for i := 0 to |messages|
      invariant channel.Valid()
      invariant channel.writer.Written() == channel.writer.io.sent == Frames(f, messages[..i])
    {
      SplitAt(f, messages, i);
      var r := channel.Send(messages[i]);
      if r.Err? {
        return false;
      }
    }
    assert messages[..|messages|] == messages;
    return true;
  }

  lemma NextFrame(f: Format, left: seq<seq<byte>>)
    ensures left != [] && |left[0]| < INT_MAX + 1 ==> Parse(f, Frames(f, left)) == Done(left[0], Frames(f, left[1..]))
    ensures left == [] ==> Parse(f, Frames(f, left)) == Truncated
  {
    hide Parse, Frame;
    if left == [] {
      NothingToParse(f);
    } else if |left[0]| <= INT_MAX {
      ParseOfFrame(f, left[0], Frames(f, left[1..]));
    }
  }

  /** The source neither fails early nor, where that matters, comes back empty. */
  ghost predicate ServesAll(reader: BufReader, messages: seq<seq<byte>>)
    reads reader.io
  {
    reader.Serves(1) && forall m :: m in messages ==> reader.Serves(|m|)
  }

  /** One Recv on a wire that carries the frames of `left`, except for `lost` at its end. */
  method RecvNext(channel: Channel, ghost left: seq<seq<byte>>, ghost lost: seq<byte>) returns (r: Result<seq<byte>>)
    requires channel.Valid() && channel.reader.stream != channel.writer.stream
    requires channel.reader.Pending() + lost == Frames(channel.codec, left)
    requires forall m :: m in left ==> |m| <= INT_MAX
    modifies channel.reader.stream, channel.reader.io
    ensures channel.Valid()
    ensures r.Ok? ==> left != [] && r.value == left[0]
    ensures r.Ok? ==> channel.reader.Pending() + lost == Frames(channel.codec, left[1..])
    ensures r.Ok? ==> old(channel.reader.Pending()) == Frame(channel.codec, left[0]) + channel.reader.Pending()
    ensures Leaves(old(channel.reader.Pending()), channel.reader.Pending())
    ensures channel.reader.io.idle <= old(channel.reader.io.idle)
    ensures old(ServesAll(channel.reader, left)) && lost == [] && r.Err? ==> left == []
  {
    hide BufReader.Pending, BufReader.Serves, Parse, Frame, Frames;
    ghost var s := channel.reader.Pending();
    NextFrame(channel.codec, left);
    assert lost == [] ==> s == Frames(channel.codec, left);
    r := channel.Recv();
    if r.Ok? {
      FirstMessage(channel.codec, s, lost, left);
      ghost var first, rest := Frame(channel.codec, left[0]), channel.reader.Pending();
      FramesOfFirst(channel.codec, left);
      assert s + lost == (first + rest) + lost;
      assert s == (s + lost)[..|s|];
      assert first + rest == ((first + rest) + lost)[..|first + rest|];
    }
  }

  lemma FramesOfFirst(f: Format, messages: seq<seq<byte>>)
    requires messages != []
    ensures Frames(f, messages) == Frame(f, messages[0]) + Frames(f, messages[1..])
  {
  }

  /** Receive until a receive fails. What has been received was on the wire one frame behind the other; the
      failing receive has taken a first part of what followed. */
  method RecvAll(channel: Channel, ghost messages: seq<seq<byte>>, ghost lost: seq<byte>) returns (got: seq<seq<byte>>)
    requires channel.Valid() && channel.reader.stream != channel.writer.stream
    requires channel.reader.Pending() + lost == Frames(channel.codec, messages)
    requires forall m :: m in messages ==> |m| <= INT_MAX
    modifies channel.reader.stream, channel.reader.io
    ensures channel.Valid()
    ensures got <= messages
    ensures var wire, frames := old(channel.reader.Pending()), Frames(channel.codec, got);
      frames <= wire && Leaves(wire[|frames|..], channel.reader.Pending())
    ensures old(ServesAll(channel.reader, messages)) && lost == [] ==> got == messages
  {
    hide BufReader.Pending, BufReader.Valid, BufWriter.Valid, Frames, Frame, Leaves;
    got := [];
    ghost var left, served, wire := messages, ServesAll(channel.reader, messages), channel.reader.Pending();
    FramesOfNone(channel.codec);
    while true
      invariant channel.Valid() && got + left == messages
      invariant served ==> ServesAll(channel.reader, left)
      invariant channel.reader.Pending() + lost == Frames(channel.codec, left)
      invariant wire == Frames(channel.codec, got) + channel.reader.Pending()
      decreases |left|
    {
      ghost var frames, before := Frames(channel.codec, got), channel.reader.Pending();
      Behind(frames, before);
      var r := RecvNext(channel, left, lost);
      if r.Err? {
        return;
      }
      FramesAppendOne(channel.codec, got, r.value);
      Reassociate(frames, Frame(channel.codec, r.value), channel.reader.Pending());
      got := got + [r.value];
      left := left[1..];
    }
  }

  lemma Behind(a: seq<byte>, b: seq<byte>)
    ensures a <= a + b && (a + b)[|a|..] == b
  {
  }

  lemma Reassociate(a: seq<byte>, b: seq<byte>, c: seq<byte>)
    ensures a + (b + c) == (a + b) + c
  {
  }

  lemma FramesOfNone(f: Format)
    ensures Frames(f, []) == []
  {
  }

  lemma FramesAppendOne(f: Format, messages: seq<seq<byte>>, m: seq<byte>)
    ensures Frames(f, messages + [m]) == Frames(f, messages) + Frame(f, m)
  {
    hide Frame;
    FramesAppend(f, messages, [m]);
    assert Frames(f, [m]) == Frame(f, m) + Frames(f, []);
  }

  /** No message bypasses a read buffer of this size. */
  predicate AllFit(messages: seq<seq<byte>>, size: nat) {
    1 <= size && forall m :: m in messages ==> |m| <= size
  }

  /** Two channels, one wire: any messages, either codec, any buffer sizes, any chunking, any empty reads,
      any failures on either side. What arrives is a prefix of what was sent, and nothing is left over if all
      of it arrives; and it all does when neither side fails and no empty read meets a message that bypasses
      the buffer. Whatever happens, the received frames were first on the wire, and what is left over is the
      end of what followed them. */
  method Exchange(f: Format, messages: seq<seq<byte>>, writeSize: nat, readSize: nat,
                  sinkFaulty: bool, sourceFaulty: bool, idle: nat)
    returns (got: seq<seq<byte>>, wire: seq<byte>, rest: seq<byte>)
    requires writeSize <= INT_MAX && readSize <= INT_MAX
    requires forall m :: m in messages ==> |m| <= INT_MAX
    ensures got <= messages
    ensures wire <= Frames(f, messages)
    ensures Frames(f, got) <= wire && Leaves(wire[|Frames(f, got)|..], rest)
    ensures got == messages ==> rest == []
    ensures !sinkFaulty ==> wire == Frames(f, messages)
    ensures !sinkFaulty && !sourceFaulty && (idle == 0 || AllFit(messages, readSize)) ==> got == messages && rest == []
  {
    hide BufReader.Pending, BufWriter.Written, BufWriter.Buffered, Frames;
    var sink := new Sink(sinkFaulty);
    var silence := new Source([], 0, false);
    var sender := new Channel(f, silence, sink, 0, writeSize);
    var _ := SendAll(sender, messages);
    wire := sink.sent;
    var source := new Source(wire, idle, sourceFaulty);
    var nowhere := new Sink(false);
    var receiver := new Channel(f, source, nowhere, readSize, 0);
    ghost var lost := Frames(f, messages)[|wire|..];
    got := RecvAll(receiver, messages, lost);
    rest := receiver.reader.Pending();
  }
}
