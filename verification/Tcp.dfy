/** uvio/net/tcp_stream.hpp as its two halves see it. libuv, the socket and the peer are an adversary:
    how a stream is cut into reads, when a read comes back empty and when the connection fails are
    free choices, bounded only by the fields below. */
module Tcp {
  import opened Common

  class Source {
    var unread: seq<byte>  // everything the peer has sent or will still send
    var idle: nat          // how many more reads may complete with zero bytes
    const faulty: bool     // whether reads may fail although bytes are left
    ghost var emptyAsks: nat  // reads that were offered no room at all
    ghost var asked: nat      // all reads; the room the last one was offered, and what it delivered
    ghost var lastRoom: nat
    ghost var lastGot: nat

    constructor (stream: seq<byte>, idle: nat, faulty: bool)
      ensures unread == stream && this.idle == idle && this.faulty == faulty && emptyAsks == 0
      ensures asked == 0
    {
      this.unread, this.idle, this.faulty, this.emptyAsks := stream, idle, faulty, 0;
      this.asked, this.lastRoom, this.lastGot := 0, 0, 0;
    }

    /** Every read is answered with bytes for as long as there are any. */
    ghost predicate Reliable()
      reads this
    {
      !faulty && idle == 0
    }

    /** co_await read(span of `len` bytes): the bytes that fill the front of the span. uv_buf_init takes
        the length as an `unsigned int`, and libuv refuses an empty buffer. */
    method Read(len: nat) returns (r: Result<nat>, got: seq<byte>)
      modifies this
      ensures |got| <= len
      ensures if r.Ok? then r.value == |got| else got == [] && r.error in {UnexpectedEOF, Unclassified}
      ensures old(unread) == got + unread
      ensures idle + (if r == Ok(0) then 1 else 0) == old(idle)
      ensures if len > 0 then emptyAsks == old(emptyAsks) else r == Err(Unclassified)
      ensures !faulty && 0 < len < UINT_RANGE && r.Err? ==> r.error == UnexpectedEOF && old(unread) == []
      ensures asked == old(asked) + 1 && lastRoom == len && lastGot == |got|
    {
      asked, lastRoom, lastGot := asked + 1, len, 0;
      var room := len % UINT_RANGE;
      if len == 0 {
        emptyAsks := emptyAsks + 1;
      }
      var breaks: bool := *;
      if room == 0 || (faulty && breaks) {
        return Err(Unclassified), [];
      }
      var naps: bool := *;
      if idle > 0 && naps {
        idle := idle - 1;
        return Ok(0), [];
      }
      if unread == [] {
        return Err(UnexpectedEOF), [];
      }
      var most := Min(room, |unread|);
      var n :| 1 <= n <= most;
      got := unread[..n];
      unread := unread[n..];
      lastGot := n;
      return Ok(n), got;
    }

    /** TcpStream::read_exact: fill dst[lo..lo+len], however many reads that takes. */
    method ReadExact(dst: array<byte>, lo: nat, len: nat) returns (r: Result<()>, ghost got: seq<byte>)
      requires lo + len <= dst.Length
      modifies this, dst
      ensures |got| <= len && (r.Ok? ==> |got| == len)
      ensures old(unread) == got + unread
      ensures dst[..] == Splice(old(dst[..]), lo, got)
      ensures idle <= old(idle) && emptyAsks == old(emptyAsks)
      ensures old(Reliable()) && len < UINT_RANGE ==>
        if len <= |old(unread)| then r.Ok? else r == Err(UnexpectedEOF) && unread == []
      ensures if len == 0 then asked == old(asked)
        else asked > old(asked) && |got| - lastGot + lastRoom == len
    {
      hide Splice;
      got := [];
      SpliceNothing(dst[..], lo);
      var done := 0;
      while done < len
        invariant 0 <= done == |got| <= len
        invariant old(unread) == got + unread
        invariant dst[..] == Splice(old(dst[..]), lo, got)
        invariant idle <= old(idle) && emptyAsks == old(emptyAsks)
        invariant if done == 0 then asked == old(asked) else asked > old(asked) && done - lastGot + lastRoom == len
        decreases len - done
      {
        var n, more := this.Read(len - done);
        Fill(dst, lo + done, more);
        SpliceNext(old(dst[..]), lo, got, more);
        got := got + more;
        if n.Err? {
          return Err(n.error), got;
        }
        if n.value == 0 {
          return Err(UnexpectedEOF), got;
        }
        done := done + n.value;
      }
      return Ok(()), got;
    }
  }

  /** What a read does to the span it was given. */
  method Fill(dst: array<byte>, lo: nat, piece: seq<byte>)
    requires lo + |piece| <= dst.Length
    modifies dst
    ensures dst[..] == Splice(old(dst[..]), lo, piece)
  {
    forall i | 0 <= i < |piece| {
      dst[lo + i] := piece[i];
    }
  }

  class Sink {
    var sent: seq<byte>  // what the peer receives
    const faulty: bool   // whether writes may fail
    ghost var emptyWrites: nat
    ghost var writes: seq<seq<byte>>  // the messages of all writes, in order

    constructor (faulty: bool)
      ensures sent == [] && this.faulty == faulty && emptyWrites == 0 && writes == []
    {
      this.sent, this.faulty, this.emptyWrites, this.writes := [], faulty, 0, [];
    }

    /** co_await write(data): all of it, or an error after some prefix of it has left. uv_buf_init keeps
        the low 32 bits of the length, while the reported count is the full length. */
    method Write(data: seq<byte>) returns (r: Result<nat>)
      modifies this
      ensures r.Ok? ==> r.value == |data| && sent == old(sent) + data[..|data| % UINT_RANGE]
      ensures old(sent) <= sent <= old(sent) + data
      ensures data == [] ==> r.Err?
      ensures data != [] ==> emptyWrites == old(emptyWrites)
      ensures !faulty && data != [] ==> r.Ok?
      ensures writes == old(writes) + [data]
    {
      writes := writes + [data];
      if data == [] {
        emptyWrites := emptyWrites + 1;
      }
      var breaks: bool := *;
      if faulty && breaks {
        var k :| 0 <= k <= |data|;
        sent := sent + data[..k];
        return Err(Unclassified);
      }
      sent := sent + data[..|data| % UINT_RANGE];
      if |data| == 0 {
        return Err(WriteZero);
      }
      return Ok(|data|);
    }
  }
}
