/** Whole runs of a BufWriter: any writes and flushes, up to the first error. */
module WriterRuns {
  import opened Common
  import opened Tcp
  import opened BufWriter

  datatype Call = Write(data: seq<byte>) | Flush

  /** All the bytes that the calls write, in order. */
  function Data(calls: seq<Call>): seq<byte> {
    if calls == [] then [] else (if calls[0].Write? then calls[0].data else []) + Data(calls[1..])
  }

  lemma {:induction false} DataAppend(a: seq<Call>, b: seq<Call>)
    ensures Data(a + b) == Data(a) + Data(b)
  {
    if a == [] {
      assert a + b == b;
    } else {
      assert (a + b)[1..] == a[1..] + b;
      DataAppend(a[1..], b);
    }
  }

  lemma DataNone(calls: seq<Call>)
    requires calls == []
    ensures Data(calls) == []
  {
  }

  lemma DataNext(calls: seq<Call>, k: nat)
    requires k < |calls|
    ensures Data(calls[..k + 1]) == Data(calls[..k]) + if calls[k].Write? then calls[k].data else []
  {
    assert calls[..k + 1] == calls[..k] + [calls[k]];
    DataAppend(calls[..k], [calls[k]]);
    assert Data([calls[k]][1..]) == [];
  }

  predicate Countable(calls: seq<Call>) {
    forall c :: c in calls && c.Write? ==> |c.data| <= INT_MAX
  }

  /** What the peer has and what the buffer holds are the data of the calls, in order, cut between two calls. */
  ghost predicate CutAt(calls: seq<Call>, cut: nat, sent: seq<byte>, held: seq<byte>) {
    cut <= |calls| && sent == Data(calls[..cut]) && sent + held == Data(calls)
  }

  /** One call. A write that does not fit sends the buffer and then itself whole; no write is ever split. */
  method Perform(w: BufWriter, call: Call) returns (ok: bool, ghost all: bool)
    requires w.Valid() && (call.Write? ==> |call.data| <= INT_MAX)
    modifies w.stream, w.io
    ensures w.Valid() && w.io.emptyWrites == old(w.io.emptyWrites)
    ensures var data := if call.Write? then call.data else [];
      && old(w.io.sent) <= w.io.sent <= old(w.Written()) + data
      && (ok ==> w.Written() == old(w.Written()) + data)
    ensures ok && call.Flush? ==> all
    ensures ok ==> if all then w.Buffered() == [] && w.io.sent == w.Written() else w.io.sent == old(w.io.sent)
    ensures !w.io.faulty ==> ok
  {
    match call {
      case Write(data) =>
        ghost var room := w.stream.WRemaining();
        var r := w.Write(data);
        return r.Ok?, !Buffers(|data|, room);
      case Flush =>
        var r := w.Flush();
        return r.Ok?, true;
    }
  }

  /** Any writes and flushes, any buffer size. Up to the first error nothing is lost, repeated or reordered, and
      what has been sent ends where a call ended: at the last flush or behind it. On an error the peer has a
      prefix of what was written. No empty write reaches the sink. */
  method Run(calls: seq<Call>, size: nat, faulty: bool)
    returns (done: nat, sent: seq<byte>, held: seq<byte>, ghost cut: nat, ghost emptyWrites: nat)
    requires size <= INT_MAX && Countable(calls)
    ensures done <= |calls| && emptyWrites == 0 && |held| <= size
    ensures done == |calls| ==> CutAt(calls, cut, sent, held)
    ensures done == |calls| ==> forall i :: 0 <= i < |calls| && calls[i].Flush? ==> i < cut
    ensures done < |calls| ==> cut <= done && Data(calls[..cut]) <= sent <= Data(calls[..done + 1])
    ensures !faulty ==> done == |calls|
  {
    hide Data;
    var sink := new Sink(faulty);
    var w := new BufWriter(sink, size);
    done, cut := 0, 0;
    DataNone(calls[..0]);
    while done < |calls|
      invariant 0 <= cut <= done <= |calls| && w.Valid() && sink.emptyWrites == 0
      invariant sink.sent == Data(calls[..cut]) && w.Written() == Data(calls[..done])
      invariant forall i :: 0 <= i < done && calls[i].Flush? ==> i < cut
    {
      DataNext(calls, done);
      assert calls[done] in calls;
      var ok, all := Perform(w, calls[done]);
      if !ok {
        return done, sink.sent, w.Buffered(), cut, sink.emptyWrites;
      }
      done := done + 1;
      if all {
        cut := done;
      }
    }
    assert calls[..done] == calls;
    return done, sink.sent, w.Buffered(), cut, sink.emptyWrites;
  }
}
