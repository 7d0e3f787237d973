/** Whole runs of a BufReader: any calls, in any order, with any outcome. */
module ReaderRuns {
  import opened Common
  import opened Search
  import opened Tcp
  import opened BufReader

  datatype Call = Short(len: nat) | Exact(len: nat) | Until(flag: seq<byte>)

  /** The result of a call: whether it succeeded, what it handed out, and how much the buffer holds then. */
  datatype Outcome = Outcome(ok: bool, piece: seq<byte>, held: nat)

  function Flatten(outcomes: seq<Outcome>): seq<byte> {
    if outcomes == [] then [] else outcomes[0].piece + Flatten(outcomes[1..])
  }

  /** Successive pieces of the given lengths, for as long as the stream lasts. */
  function Cut(s: seq<byte>, lengths: seq<nat>): seq<seq<byte>> {
    if lengths == [] || |s| < lengths[0] then [] else [s[..lengths[0]]] + Cut(s[lengths[0]..], lengths[1..])
  }

  /** What one call may do, given all that is left and how much of it the buffer holds before.
      A short read hands out no more than was asked for and less only when nothing remains held; what it finds held
      it hands out at once. An exact read hands out all that was asked for or, if that fits the buffer, nothing, and
      it succeeds at once on what is held. Larger requests leave nothing held. From a source that never fails or
      comes back empty, an exact read succeeds exactly when enough is left, a short one when anything is. */
  ghost predicate Fulfils(call: Call, o: Outcome, before: nat, left: seq<byte>, size: nat, reliable: bool) {
    match call
    case Short(len) =>
      && |o.piece| <= len
      && (if len <= size then
            && (o.ok && |o.piece| < len ==> o.held == 0)
            && (before > 0 ==> o.ok && |o.piece| == Min(before, len) && o.held == before - |o.piece|)
          else before <= |o.piece| && o.held == 0 && (!o.ok ==> |o.piece| == before))
      && (reliable && 0 < len <= size ==> (o.ok <==> left != []) && (o.ok <==> o.piece != []))
    case Exact(len) =>
      && |o.piece| <= len && (o.ok ==> |o.piece| == len)
      && (len <= before ==> o.ok && o.held == before - len)
      && (if len <= size then !o.ok ==> o.piece == [] else o.held == 0)
      && (reliable && len < UINT_RANGE ==> (o.ok <==> len <= |left|))
    case Until(flag) => if o.ok then ShortestEnding(o.piece, left, flag) else o.piece == []
  }

  method PerformShort(reader: BufReader, len: nat) returns (o: Outcome)
    requires reader.Valid()
    modifies reader.stream, reader.io
    ensures reader.Valid() && reader.io.idle <= old(reader.io.idle)
    ensures old(reader.Pending()) == o.piece + reader.Pending() && o.held == |reader.stream.Readable()|
    ensures Fulfils(Short(len), o, |old(reader.stream.Readable())|, old(reader.Pending()),
                    reader.stream.Capacity(), old(reader.io.Reliable()))
  {
    var before := |reader.Pending()|;
    var dst := new byte[len];
    var r, got := reader.Read(dst, 0, len);
    assert |got| == before - |reader.Pending()|;
    hide BufReader.Pending;
    var piece := dst[..before - |reader.Pending()|];
    assert piece == got;
    return Outcome(r.Ok?, piece, |reader.stream.Readable()|);
  }

  method PerformExact(reader: BufReader, len: nat) returns (o: Outcome)
    requires reader.Valid()
    modifies reader.stream, reader.io
    ensures reader.Valid() && reader.io.idle <= old(reader.io.idle)
    ensures old(reader.Pending()) == o.piece + reader.Pending() && o.held == |reader.stream.Readable()|
    ensures Fulfils(Exact(len), o, |old(reader.stream.Readable())|, old(reader.Pending()),
                    reader.stream.Capacity(), old(reader.io.Reliable()))
  {
    hide BufReader.Pending;
    var before := |reader.Pending()|;
    var dst := new byte[len];
    var r, got := reader.ReadExact(dst, 0, len);
    var piece := dst[..before - |reader.Pending()|];
    assert piece == got;
    return Outcome(r.Ok?, piece, |reader.stream.Readable()|);
  }

  /** One call on a reader; the piece is what it put into the caller's memory. */
  method Perform(reader: BufReader, call: Call, ghost reliable: bool) returns (o: Outcome)
    requires reader.Valid() && (reliable ==> reader.io.Reliable())
    modifies reader.stream, reader.io
    ensures reader.Valid() && (reliable ==> reader.io.Reliable())
    ensures old(reader.Pending()) == o.piece + reader.Pending() && o.held == |reader.stream.Readable()|
    ensures Fulfils(call, o, |old(reader.stream.Readable())|, old(reader.Pending()), reader.stream.Capacity(), reliable)
  {
    hide ShortestEnding, BufReader.Pending;
    match call {
      case Short(len) => o := PerformShort(reader, len);
      case Exact(len) => o := PerformExact(reader, len);
      case Until(flag) =>
        var r, out, got := reader.ReadUntil([], flag);
        assert out == got;
        o := Outcome(r.Ok?, out, |reader.stream.Readable()|);
    }
  }

  /** What a reader of buffer size `size`, which holds `before` bytes, made of a stream: every call hands out a first
      part of what is left, as its kind demands. */
  ghost predicate Trace(calls: seq<Call>, outcomes: seq<Outcome>, before: nat, stream: seq<byte>, rest: seq<byte>,
                        size: nat, reliable: bool)
    decreases |calls|
  {
    && |calls| == |outcomes|
    && if calls == [] then rest == stream else
        var o := outcomes[0];
        && o.piece <= stream
        && Fulfils(calls[0], o, before, stream, size, reliable)
        && Trace(calls[1..], outcomes[1..], o.held, stream[|o.piece|..], rest, size, reliable)
  }

  lemma TraceTail(calls: seq<Call>, outcomes: seq<Outcome>, before: nat, stream: seq<byte>, rest: seq<byte>,
                  size: nat, reliable: bool)
    requires Trace(calls, outcomes, before, stream, rest, size, reliable)
    ensures |calls| == |outcomes|
    ensures calls == [] ==> rest == stream
    ensures calls != [] ==>
      var o := outcomes[0];
      o.piece <= stream && Trace(calls[1..], outcomes[1..], o.held, stream[|o.piece|..], rest, size, reliable)
  {
  }

  /** Nothing is lost, repeated or reordered over a whole run. */
  lemma {:induction false} TraceConserves(calls: seq<Call>, outcomes: seq<Outcome>, before: nat,
                                          stream: seq<byte>, rest: seq<byte>, size: nat, reliable: bool)
    requires Trace(calls, outcomes, before, stream, rest, size, reliable)
    ensures Flatten(outcomes) + rest == stream
    decreases |calls|
  {
    hide Trace;
    TraceTail(calls, outcomes, before, stream, rest, size, reliable);
    if calls != [] {
      var first, later := outcomes[0].piece, Flatten(outcomes[1..]);
      var tail := stream[|first|..];
      TraceConserves(calls[1..], outcomes[1..], outcomes[0].held, tail, rest, size, reliable);
      assert stream == first + tail;
      assert (first + later) + rest == first + (later + rest);
    }
  }

  method RunFrom(reader: BufReader, calls: seq<Call>, ghost reliable: bool) returns (outcomes: seq<Outcome>)
    requires reader.Valid() && (reliable ==> reader.io.Reliable())
    modifies reader.stream, reader.io
    ensures reader.Valid()
    ensures Trace(calls, outcomes, |old(reader.stream.Readable())|, old(reader.Pending()), reader.Pending(),
                  reader.stream.Capacity(), reliable)
    decreases |calls|
  {
    hide Fulfils, BufReader.Pending;
    if calls == [] {
      return [];
    }
    ghost var whole := reader.Pending();
    var o := Perform(reader, calls[0], reliable);
    assert reader.Pending() == whole[|o.piece|..];
    outcomes := RunFrom(reader, calls[1..], reliable);
    outcomes := [o] + outcomes;
  }

  /** Any calls, through compaction, large requests, empty reads and failures, on any stream. */
  method Run(stream: seq<byte>, size: nat, idle: nat, faulty: bool, calls: seq<Call>)
    returns (outcomes: seq<Outcome>, rest: seq<byte>)
    requires size <= INT_MAX
    ensures Trace(calls, outcomes, 0, stream, rest, size, !faulty && idle == 0)
    ensures Flatten(outcomes) + rest == stream
  {
    hide Fulfils, BufReader.Pending;
    var source := new Source(stream, idle, faulty);
    var reader := new BufReader(source, size);
    outcomes := RunFrom(reader, calls, !faulty && idle == 0);
    rest := reader.Pending();
    TraceConserves(calls, outcomes, 0, stream, rest, size, !faulty && idle == 0);
  }

  /** Successful exact reads are determined by the stream and the lengths alone. */
  method RunExact(stream: seq<byte>, size: nat, idle: nat, faulty: bool, lengths: seq<nat>)
    returns (pieces: seq<seq<byte>>)
    requires size <= INT_MAX
    ensures pieces <= Cut(stream, lengths)
    ensures !faulty && (forall n :: n in lengths ==> n <= size || (idle == 0 && n < UINT_RANGE)) ==>
      pieces == Cut(stream, lengths)
  {
    hide BufReader.Pending;
    var source := new Source(stream, idle, faulty);
    var reader := new BufReader(source, size);
    pieces := [];
    for i := 0 to |lengths|
      invariant reader.Valid() && reader.io.idle <= idle
      invariant Cut(stream, lengths) == pieces + Cut(reader.Pending(), lengths[i..])
    {
      ghost var left := reader.Pending();
      var dst := new byte[lengths[i]];
      var r, got := reader.ReadExact(dst, 0, lengths[i]);
      if r.Err? {
        assert lengths[i] in lengths;
        return;
      }
      assert dst[..] == got == left[..lengths[i]] && reader.Pending() == left[lengths[i]..];
      assert lengths[i..][1..] == lengths[i + 1..];
      pieces := pieces + [dst[..]];
    }
  }

  /** Sections of a text, each the shortest that ends in the flag. */
  ghost predicate Sections(pieces: seq<seq<byte>>, rest: seq<byte>, text: seq<byte>, flag: seq<byte>)
    decreases |pieces|
  {
    if pieces == [] then rest == text && !Reaches(text, flag)
    else
      && ShortestEnding(pieces[0], text, flag)
      && Sections(pieces[1..], rest, text[|pieces[0]|..], flag)
  }

  lemma {:induction false} SectionsUnique(a: seq<seq<byte>>, restA: seq<byte>, b: seq<seq<byte>>, restB: seq<byte>,
                                         text: seq<byte>, flag: seq<byte>)
    requires Sections(a, restA, text, flag) && Sections(b, restB, text, flag)
    ensures a == b && restA == restB
    decreases |a|
  {
    if a != [] && b != [] {
      ShortestUnique(a[0], b[0], text, flag);
      SectionsUnique(a[1..], restA, b[1..], restB, text[|a[0]|..], flag);
      assert a == [a[0]] + a[1..] && b == [b[0]] + b[1..];
    } else if a != [] {
      ShortestReaches(a[0], text, flag);
    } else if b != [] {
      ShortestReaches(b[0], text, flag);
    }
  }

  lemma ShortestReaches(got: seq<byte>, whole: seq<byte>, flag: seq<byte>)
    requires ShortestEnding(got, whole, flag)
    ensures Reaches(whole, flag) && OccursAt(whole, flag, |got| - |flag|)
  {
    OccursInPrefix(got, whole, flag, |got| - |flag|);
  }

  lemma ShortestUnique(a: seq<byte>, b: seq<byte>, whole: seq<byte>, flag: seq<byte>)
    requires ShortestEnding(a, whole, flag) && ShortestEnding(b, whole, flag)
    ensures a == b
  {
    ShortestReaches(a, whole, flag);
    ShortestReaches(b, whole, flag);
    assert a == whole[..|a|] && b == whole[..|b|];
  }

  /** Taking the section `got` off a stream takes it off what is visible of the stream. */
  lemma VisibleRest(got: seq<byte>, whole: seq<byte>, flag: seq<byte>)
    requires ShortestEnding(got, whole, flag) && Reaches(Visible(whole), flag)
    ensures got != [] && ShortestEnding(got, Visible(whole), flag)
    ensures Visible(whole)[|got|..] == Visible(whole[|got|..])
    ensures whole[|Visible(whole)|..] == whole[|got|..][|Visible(whole[|got|..])|..]
  {
    var j :| OccursAt(Visible(whole), flag, j);
    OccursInPrefix(Visible(whole), whole, flag, j);
    assert j >= |got| - |flag|;
    assert got <= Visible(whole);
    forall k | 0 <= k < |got| - |flag|
      ensures !OccursAt(Visible(whole), flag, k)
    {
      OccursInPrefix(Visible(whole), whole, flag, k);
    }
    StrLenOfRest(whole, |got|);
  }

  lemma {:induction false} StrLenOfRest(s: seq<byte>, n: nat)
    requires n <= StrLen(s)
    ensures StrLen(s[n..]) == StrLen(s) - n
  {
    if n > 0 {
      StrLenOfRest(s[1..], n - 1);
      assert s[1..][n - 1..] == s[n..];
    }
  }

  method SectionsFrom(reader: BufReader, flag: seq<byte>)
    returns (pieces: seq<seq<byte>>, last: Error, ghost left: seq<byte>)
    requires reader.Valid() && reader.stream.ZeroTail() && !reader.io.faulty
    requires |reader.Pending()| < reader.Room()
    modifies reader.stream, reader.io
    ensures reader.Valid()
    ensures Sections(pieces, left, Visible(old(reader.Pending())), flag)
    ensures reader.Pending() == left + old(reader.Pending())[|Visible(old(reader.Pending()))|..]
    ensures last == UnexpectedEOF
    decreases |reader.Pending()|
  {
    hide BufReader.Pending, Reaches, ShortestEnding, Visible;
    ghost var whole := reader.Pending();
    var r, piece, got := reader.ReadUntil([], flag);
    if r.Err? {
      VisibleFirst(whole);
      return [], r.error, Visible(whole);
    }
    assert piece == got && reader.Pending() == whole[|piece|..];
    VisibleRest(piece, whole, flag);
    pieces, last, left := SectionsFrom(reader, flag);
    pieces := [piece] + pieces;
  }

  lemma VisibleFirst(whole: seq<byte>)
    ensures whole == Visible(whole) + whole[|Visible(whole)|..]
  {
  }

  /** A fresh reader used only through read_until, on a text shorter than its buffer, cuts what comes before
      the text's first NUL into its sections, however it arrives, flags that straddle reads included; and then
      reports EOF, with the rest not consumed. */
  method ReadSections(text: seq<byte>, flag: seq<byte>, size: nat, idle: nat)
    returns (pieces: seq<seq<byte>>, rest: seq<byte>, last: Error, ghost left: seq<byte>)
    requires size <= INT_MAX && |text| < size
    ensures Sections(pieces, left, Visible(text), flag)
    ensures rest == left + text[|Visible(text)|..]
    ensures last == UnexpectedEOF
  {
    hide Reaches, ShortestEnding, Visible;
    var source := new Source(text, idle, false);
    var reader := new BufReader(source, size);
    pieces, last, left := SectionsFrom(reader, flag);
    rest := reader.Pending();
  }
}
