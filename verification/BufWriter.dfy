/** uvio/io/impl/buf_writer.hpp: gathering small writes in front of a sink.
    `Written` is all that was ever accepted: what the sink has sent, then what the buffer still holds. */
module BufWriter {
  import opened Common
  import opened Buffer
  import opened Tcp

  /** Whether `write` takes the buffering branch: the length is cast to `int` before it is compared. */
  predicate Buffers(len: nat, room: int) {
    ToInt(len) <= room
  }

  /** What fits is buffered, and so is everything that the cast makes negative. */
  lemma BuffersIff(len: nat, room: nat)
    requires len < UINT_RANGE && room <= INT_MAX
    ensures Buffers(len, room) <==> len <= room || len > INT_MAX
  {
  }

  /** How many bytes of a successful `write` of `len` bytes are kept, with `room` bytes free. */
  function Kept(len: nat, room: nat): nat {
    if Buffers(len, room) then Min(len, room) else len % UINT_RANGE
  }

  /** A successful write is complete exactly when its length survives the cast to `int`. */
  lemma KeptAllIff(len: nat, room: nat)
    requires room <= INT_MAX
    ensures Kept(len, room) <= len
    ensures Kept(len, room) == len <==> len <= INT_MAX
  {
    if len < UINT_RANGE {
      assert len % UINT_RANGE == len;
    }
  }

  /** One byte more than an int counts: the length is taken for a negative one, and what fits is kept. */
  lemma FirstLostWrite(room: nat)
    requires room <= INT_MAX
    ensures Kept(INT_MAX + 1, room) == room < INT_MAX + 1
  {
  }

  /** The messages in which a buffer goes out: one, unless it is empty. */
  function Flushed(held: seq<byte>): seq<seq<byte>> {
    if held == [] then [] else [held]
  }

  class BufWriter {
    const io: Sink
    const stream: StreamBuffer

    /** Between calls the read position is 0: nothing that was sent is kept. */
    ghost predicate Valid()
      reads stream
    {
      stream.Valid() && stream.rPos == 0
    }

    function Buffered(): seq<byte>
      requires Valid()
      reads stream
    {
      stream.Readable()
    }

    ghost function Written(): (all: seq<byte>)
      requires Valid()
      reads stream, io
      ensures io.sent <= all
    {
      io.sent + Buffered()
    }

    constructor (io: Sink, size: nat)
      requires size <= INT_MAX
      ensures Valid() && this.io == io && fresh(stream)
      ensures stream.Capacity() == size && Buffered() == []
    {
      this.io := io;
      this.stream := new StreamBuffer(size);
    }

    /** The buffer goes out in one write; on success it is empty again. */
    method Spill() returns (r: Result<nat>)
      requires Valid() && !stream.Empty()
      modifies stream`rPos, io
      ensures stream.Valid()
      ensures old(io.sent) <= io.sent <= old(Written())
      ensures r.Ok? ==> stream.Empty() && r.value == |old(Buffered())| && io.sent == old(Written())
      ensures r.Err? ==> Valid() && Buffered() == old(Buffered())
      ensures !io.faulty ==> r.Ok?
      ensures io.emptyWrites == old(io.emptyWrites) && io.writes == old(io.writes) + [old(Buffered())]
    {
      r := io.Write(stream.Readable());
      if r.Ok? {
        r := Ok(stream.RRemaining());
        stream.RIncrease(stream.RRemaining());
      }
    }

    /** A failed write or flush loses nothing: the buffer is as it was, or it is empty and what it held was sent. */
    predicate AfterError(held: seq<byte>, written: seq<byte>)
      requires Valid()
      reads stream, io
    {
      Buffered() == held || (Buffered() == [] && written <= io.sent)
    }

    /** `write` of what does not fit: first the buffer, if it holds anything, then the data itself. */
    method WriteAround(data: seq<byte>) returns (r: Result<nat>)
      requires Valid() && data != []
      modifies stream, io
      ensures Valid()
      ensures old(io.sent) <= io.sent <= old(Written()) + data
      ensures r.Ok? ==>
        && Buffered() == [] && r.value == |old(Buffered())| + |data|
        && io.sent == old(Written()) + data[..|data| % UINT_RANGE]
        && io.writes == old(io.writes) + Flushed(old(Buffered())) + [data]
      ensures r.Err? ==> AfterError(old(Buffered()), old(Written()))
      ensures !io.faulty ==> r.Ok?
      ensures io.emptyWrites == old(io.emptyWrites)
    {
      var written := 0;
      if stream.RRemaining() > 0 {
        var ret := Spill();
        if ret.Err? {
          return ret;
        }
        written := written + ret.value;
        stream.ResetData();
      }
      var ret2 := io.Write(data);
      if ret2.Err? {
        return ret2;
      }
      return Ok(written + |data|);
    }

    /** The returned count includes buffered bytes that had to be sent first. */
    method Write(data: seq<byte>) returns (r: Result<nat>)
      requires Valid()
      modifies stream, io
      ensures Valid()
      ensures old(io.sent) <= io.sent <= old(Written()) + data
      ensures var room := old(stream.WRemaining());
        r.Ok? ==>
          && Written() == old(Written()) + data[..Kept(|data|, room)]
          && (|data| <= INT_MAX ==> Written() == old(Written()) + data)
          && (if Buffers(|data|, room) then io.sent == old(io.sent) else Buffered() == [])
          && r.value == if Buffers(|data|, room) then Kept(|data|, room) else |old(Buffered())| + |data|
      ensures r.Err? ==> AfterError(old(Buffered()), old(Written()))
      ensures var buffers := Buffers(|data|, old(stream.WRemaining()));
        r.Ok? ==> io.writes == old(io.writes) + if buffers then [] else Flushed(old(Buffered())) + [data]
      ensures !io.faulty ==> r.Ok?
      ensures io.emptyWrites == old(io.emptyWrites)
    {
      KeptAllIff(|data|, stream.WRemaining());
      if stream.WRemaining() >= ToInt(|data|) {
        var n := stream.ReadFrom(data);
        return Ok(n);
      }
      hide Buffers;
      r := WriteAround(data);
    }

    method Flush() returns (r: Result<()>)
      requires Valid()
      modifies stream, io
      ensures Valid()
      ensures old(io.sent) <= io.sent <= old(Written())
      ensures r.Ok? ==> Buffered() == [] && stream.rPos == stream.wPos == 0 && io.sent == old(Written())
      ensures r.Err? ==> Buffered() == old(Buffered())
      ensures !io.faulty ==> r.Ok?
      ensures io.emptyWrites == old(io.emptyWrites) && io.writes == old(io.writes) + Flushed(old(Buffered()))
    {
      while stream.Readable() != []
        invariant stream.Valid() && io.sent + stream.Readable() == old(Written()) && old(io.sent) <= io.sent
        invariant stream.Empty() || (io.sent == old(io.sent) && Valid() && Buffered() == old(Buffered()))
        invariant io.emptyWrites == old(io.emptyWrites)
        invariant io.writes == old(io.writes) + if stream.Empty() then Flushed(old(Buffered())) else []
        decreases |stream.Readable()|
      {
        var ret := Spill();
        if ret.Err? {
          return Err(ret.error);
        }
      }
      stream.ResetPos();
      return Ok(());
    }

    method WriteAll(data: seq<byte>) returns (r: Result<()>)
      requires Valid()
      modifies stream, io
      ensures Valid()
      ensures old(io.sent) <= io.sent <= old(Written()) + data
      ensures r.Ok? ==> Buffered() == [] && io.sent == old(Written()) + data[..Kept(|data|, old(stream.WRemaining()))]
      ensures !io.faulty ==> r.Ok?
      ensures io.emptyWrites == old(io.emptyWrites)
    {
      var w := Write(data);
      if w.Err? {
        return Err(w.error);
      }
      r := Flush();
    }
  }
}
