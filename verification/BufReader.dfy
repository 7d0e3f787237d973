/** uvio/io/impl/buf_reader.hpp: exact and delimited reads over a chunked source.
    `Pending` is all a reader will ever yield: what its buffer holds, then what its source still holds. */
module BufReader {
  import opened Common
  import opened Buffer
  import opened Search
  import opened Tcp

  class BufReader {
    const io: Source
    const stream: StreamBuffer

    predicate Valid()
      reads stream
    {
      stream.Valid()
    }

    function Pending(): seq<byte>
      requires Valid()
      reads stream, io
    {
      stream.Readable() + io.unread
    }

    /** A request of this length is never refused for lack of luck: a large one is passed on to the source,
        where a single empty read ends it, a small one is not. */
    ghost predicate Serves(len: nat)
      reads io
    {
      !io.faulty && (len <= stream.Capacity() || (io.idle == 0 && len < UINT_RANGE))
    }

    constructor (io: Source, size: nat)
      requires size <= INT_MAX
      ensures Valid() && this.io == io && fresh(stream)
      ensures stream.Capacity() == size && stream.rPos == stream.wPos == 0
      ensures Pending() == io.unread && stream.ZeroTail()
    {
      this.io := io;
      this.stream := new StreamBuffer(size);
    }

    /** How much of the pending stream the buffer can hold while it is not compacted. */
    function Room(): nat
      requires Valid()
      reads stream
    {
      stream.size - stream.rPos
    }

    /** co_await io_.read(w_slice), then w_increase. */
    method Receive() returns (r: Result<nat>, got: seq<byte>)
      requires Valid()
      modifies stream, io
      ensures Valid() && stream.rPos == old(stream.rPos) && stream.wPos == old(stream.wPos) + |got|
      ensures if r.Ok? then r.value == |got| else got == [] && r.error in {UnexpectedEOF, Unclassified}
      ensures old(io.unread) == got + io.unread
      ensures stream.Readable() == old(stream.Readable()) + got
      ensures old(stream.ZeroTail()) ==> stream.ZeroTail()
      ensures io.idle + (if r == Ok(0) then 1 else 0) == old(io.idle)
      ensures if old(stream.WRemaining()) > 0 then io.emptyAsks == old(io.emptyAsks) else r == Err(Unclassified)
      ensures old(stream.WRemaining()) > 0 && !io.faulty && r.Err? ==>
        r.error == UnexpectedEOF && old(io.unread) == []
      ensures io.asked == old(io.asked) + 1 && io.lastRoom == old(stream.WRemaining()) && io.lastGot == |got|
    {
      r, got := io.Read(stream.WRemaining());
      ghost var before, from := stream.buf, stream.wPos + |got|;
      stream.Store(got);
      forall k | from <= k < |stream.buf|
        ensures stream.buf[k] == before[k]
      {
        assert stream.buf[from..][k - from] == before[from..][k - from];
      }
      if r.Ok? {
        stream.WIncrease(r.value);
      }
    }

    /** One round of the refill loops of `read` and `read_exact`: make room, then one read. */
    method Refill(len: nat) returns (r: Result<nat>)
      requires Valid() && len <= stream.Capacity()
      modifies stream, io
      ensures Valid()
      ensures Pending() == old(Pending())
      ensures r.Ok? ==> |stream.Readable()| == |old(stream.Readable())| + r.value
      ensures r.Err? ==> io.unread == old(io.unread)
      ensures io.idle + (if r == Ok(0) then 1 else 0) == old(io.idle)
      ensures |old(stream.Readable())| < len ==> io.emptyAsks == old(io.emptyAsks)
      ensures |old(stream.Readable())| < len && !io.faulty && r.Err? ==>
        r.error == UnexpectedEOF && old(io.unread) == []
      ensures io.asked == old(io.asked) + 1 && (r.Ok? ==> io.lastGot == r.value)
      ensures io.lastRoom ==
        if old(stream.WRemaining()) < len then stream.size - |old(stream.Readable())| else old(stream.WRemaining())
    {
      if stream.WRemaining() < len {
        stream.ResetData();
      }
      var got;
      r, got := Receive();
    }

    /** `read` for a request larger than the buffer: drain the buffer, then read straight into dst. */
    method ReadAround(dst: array<byte>, lo: nat, len: nat) returns (r: Result<nat>, ghost got: seq<byte>)
      requires Valid() && lo + len <= dst.Length && stream.Capacity() < len
      modifies stream, io, dst
      ensures Valid() && stream.Empty()
      ensures |got| <= len && (if r.Ok? then r.value == |got| else got == old(stream.Readable()))
      ensures old(stream.Readable()) <= got
      ensures old(Pending()) == got + io.unread
      ensures dst[..] == Splice(old(dst[..]), lo, got)
      ensures io.idle <= old(io.idle) && (r == Ok(0) ==> io.idle < old(io.idle))
      ensures io.emptyAsks == old(io.emptyAsks)
      ensures old(io.Reliable()) && len < UINT_RANGE && r.Err? ==> old(io.unread) == []
      ensures io.asked == old(io.asked) + 1 && io.lastRoom == len - |old(stream.Readable())|
    {
      hide Splice;
      var n;
      n, got := stream.WriteTo(dst, lo, len);
      var more;
      r, more := io.Read(len - n);
      Fill(dst, lo + n, more);
      SpliceNext(old(dst[..]), lo, got, more);
      got := got + more;
      if r.Ok? {
        r := Ok(r.value + n);
      }
    }

    /** The loop of `read` on an empty buffer: read until something, or an empty read, has come. */
    method AwaitSome(len: nat) returns (r: Result<nat>)
      requires Valid() && stream.Empty() && len <= stream.Capacity()
      modifies stream, io
      ensures Valid() && Pending() == old(Pending())
      ensures r.Ok? && stream.Empty() ==> io.idle < old(io.idle)
      ensures io.idle <= old(io.idle) && (len > 0 ==> io.emptyAsks == old(io.emptyAsks))
      ensures r.Err? ==> stream.Empty()
      ensures old(io.Reliable()) && len > 0 && r.Err? ==> old(io.unread) == []
      ensures io.asked == old(io.asked) + 1 && io.lastRoom >= len
    {
      r := Ok(0);
      var settled := false;
      while !settled
        invariant Valid() && Pending() == old(Pending())
        invariant !settled ==> stream.Empty() && io.unread == old(io.unread) && io.idle == old(io.idle)
        invariant if settled then io.asked == old(io.asked) + 1 && io.lastRoom >= len else io.asked == old(io.asked)
        invariant settled && stream.Empty() ==> io.idle < old(io.idle)
        invariant io.idle <= old(io.idle) && (len > 0 ==> io.emptyAsks == old(io.emptyAsks))
        invariant r.Ok?
        decreases !settled
      {
        r := Refill(len);
        if r.Err? {
          return;
        }
        settled := !stream.Empty() || r.value == 0;
      }
    }

    method Read(dst: array<byte>, lo: nat, len: nat) returns (r: Result<nat>, ghost got: seq<byte>)
      requires Valid() && lo + len <= dst.Length
      modifies stream, io, dst
      ensures Valid()
      ensures |got| <= len && (r.Ok? ==> r.value == |got|)
      ensures r.Err? ==> got == if len <= stream.Capacity() then [] else old(stream.Readable())
      ensures len <= stream.Capacity() && !old(stream.Empty()) ==>
        r == Ok(Min(|old(stream.Readable())|, len)) && io.unread == old(io.unread)
      ensures len > stream.Capacity() ==> stream.Empty() && old(stream.Readable()) <= got
      ensures r.Ok? && len <= stream.Capacity() ==> |got| == len || stream.Empty()
      ensures io.asked == old(io.asked) + if len <= stream.Capacity() && !old(stream.Empty()) then 0 else 1
      ensures len > stream.Capacity() ==> io.lastRoom == len - |old(stream.Readable())|
      ensures old(Pending()) == got + Pending()
      ensures dst[..] == Splice(old(dst[..]), lo, got)
      ensures io.idle <= old(io.idle)
      ensures r == Ok(0) && len > 0 ==> io.idle < old(io.idle)
      ensures len > 0 ==> io.emptyAsks == old(io.emptyAsks)
      ensures old(io.Reliable()) && 0 < len < UINT_RANGE && r.Err? ==> old(io.unread) == []
    {
      if stream.Capacity() < len {
        r, got := ReadAround(dst, lo, len);
        return;
      }
      if stream.Empty() {
        r := AwaitSome(len);
        if r.Err? {
          SpliceNothing(dst[..], lo);
          return r, [];
        }
      }
      var n;
      n, got := stream.WriteTo(dst, lo, len);
      return Ok(n), got;
    }

    /** `read_exact` for a request larger than the buffer. */
    method ReadExactAround(dst: array<byte>, lo: nat, len: nat) returns (r: Result<()>, ghost got: seq<byte>)
      requires Valid() && lo + len <= dst.Length && stream.Capacity() < len
      modifies stream, io, dst
      ensures Valid() && stream.Empty()
      ensures |got| <= len && (r.Ok? ==> |got| == len)
      ensures old(Pending()) == got + io.unread
      ensures dst[..] == Splice(old(dst[..]), lo, got)
      ensures io.idle <= old(io.idle) && io.emptyAsks == old(io.emptyAsks)
      ensures old(io.Reliable()) && len < UINT_RANGE ==>
        if len <= |old(Pending())| then r.Ok? else r == Err(UnexpectedEOF) && io.unread == []
    {
      hide Splice;
      var n;
      n, got := stream.WriteTo(dst, lo, len);
      ghost var more;
      r, more := io.ReadExact(dst, lo + n, len - n);
      SpliceNext(old(dst[..]), lo, got, more);
      got := got + more;
    }

    /** The buffered part of `read_exact` up to the hand-out: refill until `len` bytes are held. */
    method AwaitExact(len: nat) returns (r: Result<()>)
      requires Valid() && len <= stream.Capacity()
      modifies stream, io
      ensures Valid() && Pending() == old(Pending())
      ensures r.Ok? ==> stream.RRemaining() >= len
      ensures io.idle <= old(io.idle) && io.emptyAsks == old(io.emptyAsks)
      ensures !io.faulty ==> if len <= |old(Pending())| then r.Ok? else r == Err(UnexpectedEOF)
      ensures io.asked >= old(io.asked)
      ensures if len <= |old(stream.Readable())|
        then r.Ok? && stream.Readable() == old(stream.Readable()) && io.asked == old(io.asked)
        else io.asked > old(io.asked) && |stream.Readable()| - io.lastGot < len
    {
      while stream.RRemaining() < len
        invariant Valid() && Pending() == old(Pending())
        invariant io.idle <= old(io.idle) && io.emptyAsks == old(io.emptyAsks)
        invariant io.asked >= old(io.asked)
        invariant if io.asked == old(io.asked) then stream.Readable() == old(stream.Readable())
          else |old(stream.Readable())| < len && |stream.Readable()| - io.lastGot < len
        decreases io.idle + (len - stream.RRemaining())
      {
        var ret := Refill(len);
        if ret.Err? {
          return Err(ret.error);
        }
      }
      return Ok(());
    }

    method ReadExact(dst: array<byte>, lo: nat, len: nat) returns (r: Result<()>, ghost got: seq<byte>)
      requires Valid() && lo + len <= dst.Length
      modifies stream, io, dst
      ensures Valid()
      ensures |got| <= len && (r.Ok? ==> |got| == len)
      ensures r.Err? && len <= stream.Capacity() ==> got == []
      ensures len > stream.Capacity() ==> stream.Empty()
      ensures old(Pending()) == got + Pending()
      ensures dst[..] == Splice(old(dst[..]), lo, got)
      ensures io.idle <= old(io.idle) && io.emptyAsks == old(io.emptyAsks)
      ensures old(Serves(len)) ==>
        if len <= |old(Pending())| then r.Ok?
        else r == Err(UnexpectedEOF) && (len > stream.Capacity() ==> Pending() == [])
      ensures len <= |old(stream.Readable())| ==>
        r.Ok? && |stream.Readable()| == |old(stream.Readable())| - len && io.asked == old(io.asked)
      ensures r.Ok? && |old(stream.Readable())| < len <= stream.Capacity() ==> |stream.Readable()| < io.lastGot
    {
      if stream.Capacity() < len {
        r, got := ReadExactAround(dst, lo, len);
        return;
      }
      r := AwaitExact(len);
      if r.Err? {
        SpliceNothing(dst[..], lo);
        return r, [];
      }
      var n;
      n, got := stream.WriteTo(dst, lo, len);
    }

    /** Whether a look at the buffer finds the flag. */
    ghost predicate Sees(flag: seq<byte>)
      requires Valid()
      reads stream
    {
      !NulFree(stream.buf[stream.rPos..]) && Reaches(Visible(stream.Readable()), flag)
    }

    /** One look at the buffer for the flag: the bytes up to it, none when more are needed. `Overrun` and
        `Aborted` are a scan off the end of the vector and a slice longer than what is held. */
    method TakeFlagged(flag: seq<byte>) returns (r: Result<seq<byte>>)
      requires Valid()
      modifies stream`rPos
      ensures Valid()
      ensures if r.Ok? then old(Pending()) == r.value + Pending() else stream.rPos == old(stream.rPos)
      ensures r.Ok? ==> stream.rPos == old(stream.rPos) + |r.value|
      ensures r.Ok? && r.value != [] ==> ShortestEnding(r.value, old(Pending()), flag)
      ensures var region, held := old(stream.buf[stream.rPos..]), old(stream.Readable());
        && (r == Err(Overrun) <==> NulFree(region))
        && (r == Err(Aborted) <==> !NulFree(region) && Reaches(Visible(region), flag) && !Reaches(Visible(held), flag))
        && (r.Ok? && r.value != [] <==> old(Sees(flag)))
        && (r.Err? ==> r.error in {Overrun, Aborted})
    {
      hide Reaches, ShortestEnding, NulFree, Visible, FlagSlice;
      ghost var region, held, whole := stream.buf[stream.rPos..], stream.Readable(), Pending();
      assert held <= region && held <= whole;
      FlagSliceIff(region, held, flag);
      var n := stream.FindFlag(flag);
      if n.Err? {
        return Err(n.error);
      }
      if n.value > stream.RRemaining() {
        return Err(Aborted);
      }
      if n.value > 0 {
        FlagSliceSound(region, held, whole, flag);
      }
      r := Ok(stream.buf[stream.rPos..stream.rPos + n.value]);
      assert r.value == held[..n.value];
      stream.RIncrease(n.value);
      assert Pending() == whole[n.value..];
    }

    /** The same on a buffer that nothing was ever written behind: either the outcome of read_until is settled,
        or whatever the next read reports as an error will be. */
    method Look(flag: seq<byte>) returns (r: Result<seq<byte>>)
      requires Valid()
      modifies stream`rPos
      ensures Valid() && stream.rPos == old(stream.rPos) + if r.Ok? then |r.value| else 0
      ensures r.Ok? && r.value != [] <==> old(Sees(flag))
      ensures old(Pending()) == (if r.Ok? then r.value else []) + Pending()
      ensures r.Ok? && r.value != [] ==> ShortestEnding(r.value, old(Pending()), flag)
      ensures old(stream.ZeroTail()) ==>
        var whole, room := old(Pending()), old(Room());
        && stream.ZeroTail()
        && (r.Err? ==> UntilOutcome(Err(r.error), whole, flag, room, io.faulty))
        && (r.Ok? && r.value != [] ==> forall n: nat :: UntilOutcome(Ok(n), whole, flag, room, io.faulty))
        && (r.Ok? && r.value == [] ==> ErrorSettles(stream.Readable(), whole, flag, room, io.faulty))
    {
      hide Reaches, ShortestEnding, NulFree, Visible, UntilOutcome;
      ghost var region, held, whole := stream.buf[stream.rPos..], stream.Readable(), Pending();
      if stream.ZeroTail() {
        LookOutcome(region, held, whole, flag, Room(), io.faulty);
      }
      r := TakeFlagged(flag);
      assert r.Err? ==> whole == [] + Pending();
    }

    /** The read of read_until, after a look for `flag` that has settled nothing. */
    method ReadMore(ghost flag: seq<byte>) returns (r: Result<nat>)
      requires Valid()
      requires stream.ZeroTail() ==> ErrorSettles(stream.Readable(), Pending(), flag, Room(), io.faulty)
      modifies stream, io
      ensures Valid() && Pending() == old(Pending()) && stream.rPos == old(stream.rPos)
      ensures io.idle <= old(io.idle) && (r.Ok? ==> |io.unread| + io.idle < old(|io.unread| + io.idle))
      ensures old(stream.ZeroTail()) ==>
        stream.ZeroTail() && (r.Err? ==> UntilOutcome(Err(r.error), Pending(), flag, Room(), io.faulty))
      ensures |Pending()| < Room() ==> io.emptyAsks == old(io.emptyAsks)
      ensures io.lastRoom == old(stream.WRemaining())
    {
      hide UntilOutcome;
      var more;
      r, more := Receive();
    }

    /** `read_until` (and `read_line`, with flag "\n"): append up to and including the flag to `text`.
        The buffer is never compacted here. */
    method ReadUntil(text: seq<byte>, flag: seq<byte>) returns (r: Result<nat>, out: seq<byte>, ghost got: seq<byte>)
      requires Valid()
      modifies stream, io
      ensures Valid()
      ensures old(Pending()) == got + Pending()
      ensures out == text + got
      ensures stream.rPos == old(stream.rPos) + |got| && io.idle <= old(io.idle)
      ensures if r.Ok? then r.value == |out| && ShortestEnding(got, old(Pending()), flag) else got == []
      ensures old(stream.ZeroTail()) ==>
        stream.ZeroTail() && UntilOutcome(r, old(Pending()), flag, old(Room()), io.faulty)
      ensures old(stream.ZeroTail() && |Pending()| < Room()) ==> io.emptyAsks == old(io.emptyAsks)
      ensures old(Sees(flag)) ==> r.Ok? && io.asked == old(io.asked)
    {
      hide UntilOutcome, ErrorSettles, ShortestEnding, BufReader.Pending, BufReader.Sees;
      ghost var whole := Pending();
      while true
        invariant Valid() && Pending() == whole && stream.rPos == old(stream.rPos) && io.idle <= old(io.idle)
        invariant old(stream.ZeroTail()) ==> stream.ZeroTail()
        invariant |whole| < Room() ==> io.emptyAsks == old(io.emptyAsks)
        invariant old(Sees(flag)) ==> Sees(flag) && io.asked == old(io.asked)
        decreases |io.unread| + io.idle
      {
        var slice := Look(flag);
        if slice.Err? {
          return Err(slice.error), text, [];
        }
        if slice.value != [] {
          return Ok(|text + slice.value|), text + slice.value, slice.value;
        }
        var n := ReadMore(flag);
        if n.Err? {
          return n, text, [];
        }
      }
    }
  }

  /** How a `read_until` on a stream `whole` ends when nothing was ever written behind the write position and
      `room` bytes of the stream fit the buffer. If what comes before the first NUL fits with a byte to spare,
      the flag is found exactly when it is there, and else an error is reported; if not, the scan may leave
      the vector, and does unless the flag is found while the buffer is not yet full. */
  ghost predicate UntilOutcome(r: Result<nat>, whole: seq<byte>, flag: seq<byte>, room: nat, faulty: bool) {
    if |Visible(whole)| < room then
      && (r.Ok? ==> Reaches(Visible(whole), flag))
      && (r.Err? ==> r.error in {UnexpectedEOF, Unclassified})
      && (r.Err? && !faulty ==>
            !Reaches(Visible(whole), flag) && r.error == if |whole| < room then UnexpectedEOF else Unclassified)
    else
      && (r.Ok? ==> 0 < room && Reaches(whole[..room - 1], flag))
      && (r.Err? ==> r.error in (if faulty then {Overrun, UnexpectedEOF, Unclassified} else {Overrun}))
  }

  /** With `held` of the stream in the buffer, any error of the next read gives the outcome. */
  ghost predicate ErrorSettles(held: seq<byte>, whole: seq<byte>, flag: seq<byte>, room: nat, faulty: bool) {
    && (held == whole && |held| < room ==> UntilOutcome(Err(UnexpectedEOF), whole, flag, room, faulty))
    && (|held| == room ==> UntilOutcome(Err(Unclassified), whole, flag, room, faulty))
    && (faulty ==> UntilOutcome(Err(UnexpectedEOF), whole, flag, room, faulty)
                   && UntilOutcome(Err(Unclassified), whole, flag, room, faulty))
  }

  /** What a look at the held part of a stream means for the outcome, whichever way the call goes on. */
  lemma LookOutcome(region: seq<byte>, held: seq<byte>, whole: seq<byte>, flag: seq<byte>, room: nat, faulty: bool)
    requires held <= region && |region| == room && held <= whole
    requires forall k :: |held| <= k < |region| ==> region[k] == 0
    ensures Visible(region) == Visible(held)
    ensures NulFree(region) ==> UntilOutcome(Err(Overrun), whole, flag, room, faulty)
    ensures !NulFree(region) && Reaches(Visible(held), flag) ==>
      forall n :: UntilOutcome(Ok(n), whole, flag, room, faulty)
    ensures !NulFree(region) && !Reaches(Visible(held), flag) ==> ErrorSettles(held, whole, flag, room, faulty)
  {
    ZerosBehind(region, held);
    VisiblePart(held, whole, flag);
    if |held| < room <= |whole| {
      ReachesOn(Visible(held), whole[..room - 1], flag);
    }
  }
}
