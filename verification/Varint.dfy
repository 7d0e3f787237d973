/** The varint that LengthDelimitedCodec puts in front of a message: seven bits a byte, lowest first,
    the high bit set on every byte but the last. */
module Varint {
  import opened Common

  function Shl7(x: bv64): bv64 { x << 7 }
  function Shr7(x: bv64): bv64 { x >> 7 }
  function Or(x: bv64, y: bv64): bv64 { x | y }

  function LastByte(v: bv64): byte { (v & 0x7F) as byte }
  function MoreByte(v: bv64): byte { ((v & 0x7F) | 0x80) as byte }

  function Encode(v: bv64): (bs: seq<byte>)
    ensures bs != []
    decreases v
  {
    if Shr7(v) == 0 then [LastByte(v)] else [MoreByte(v)] + Encode(Shr7(v))
  }

  /** x << (i * 7). */
  function Up(x: bv64, i: nat): bv64
    decreases i
  {
    if i == 0 then x else Up(Shl7(x), i - 1)
  }

  function Payload(b: byte): bv64 { (b & 0x7F) as bv64 }
  predicate Stops(b: byte) { b & 0x80 == 0 }

  /** decode_length from its round i on, with `value` collected so far. */
  function DecodeFrom(s: seq<byte>, i: nat, value: bv64): Parsed<bv64>
    requires i <= 10
    decreases 10 - i
  {
    if i == 10 then Malformed
    else if s == [] then Truncated
    else
      var v := Or(value, Up(Payload(s[0]), i));
      if Stops(s[0]) then Done(v, s[1..]) else DecodeFrom(s[1..], i + 1, v)
  }

  function Decode(s: seq<byte>): Parsed<bv64> {
    DecodeFrom(s, 0, 0)
  }

  // Facts about the bits of one round. Everything below builds on these alone.

  lemma LastBits(v: bv64)
    ensures Stops(LastByte(v))
    ensures Shr7(v) == 0 ==> Payload(LastByte(v)) == v
  {
  }

  lemma MoreBits(v: bv64)
    ensures !Stops(MoreByte(v))
    ensures Or(Payload(MoreByte(v)), Shl7(Shr7(v))) == v
  {
  }

  /** The byte that encode_length writes for `v`, and the value that is left for the next round. */
  function NextByte(v: bv64): byte {
    if Shr7(v) == 0 then LastByte(v) else MoreByte(v)
  }

  lemma EncodeStep(v: bv64)
    ensures Encode(v) == [NextByte(v)] + (if Shr7(v) != 0 then Encode(Shr7(v)) else [])
  {
  }

  lemma OrAssociates(a: bv64, b: bv64, c: bv64)
    ensures Or(Or(a, b), c) == Or(a, Or(b, c))
    ensures Or(0, a) == a
  {
    assert (a | b) | c == a | (b | c);
  }

  lemma OrShifts(a: bv64, b: bv64)
    ensures Shl7(Or(a, b)) == Or(Shl7(a), Shl7(b))
  {
    assert (a | b) << 7 == (a << 7) | (b << 7);
  }

  lemma UpNext(x: bv64, i: nat)
    ensures Up(x, i + 1) == Up(Shl7(x), i)
  {
  }

  lemma {:induction false} UpOr(x: bv64, y: bv64, i: nat)
    ensures Up(Or(x, y), i) == Or(Up(x, i), Up(y, i))
    decreases i
  {
    hide Shl7, Or;
    if i > 0 {
      OrShifts(x, y);
      UpOr(Shl7(x), Shl7(y), i - 1);
    }
  }

  /** Shifted right by seven k times. */
  function Down(v: bv64, k: nat): bv64
    decreases k
  {
    if k == 0 then v else Down(Shr7(v), k - 1)
  }

  lemma {:induction false} LengthBound(v: bv64, k: nat)
    requires k > 0 && Down(v, k) == 0
    ensures |Encode(v)| <= k
    decreases k
  {
    hide LastByte, MoreByte;
    if k > 1 && Shr7(v) != 0 {
      LengthBound(Shr7(v), k - 1);
    }
  }

  lemma AtMostTen(v: bv64)
    ensures 1 <= |Encode(v)| <= 10
  {
    assert Down(v, 10) == 0 by {
      assert Down(v, 10) == ((((((((((v >> 7) >> 7) >> 7) >> 7) >> 7) >> 7) >> 7) >> 7) >> 7) >> 7);
    }
    LengthBound(v, 10);
  }

  lemma DecodeStep(b: byte, t: seq<byte>, i: nat, value: bv64)
    requires i < 10
    ensures var v := Or(value, Up(Payload(b), i));
      DecodeFrom([b] + t, i, value) == if Stops(b) then Done(v, t) else DecodeFrom(t, i + 1, v)
  {
    hide Up, Or, Payload, Stops;
    assert ([b] + t)[1..] == t;
  }

  /** From any round that leaves enough rounds, the decoder puts back every bit of v and stops there. */
  lemma {:induction false} DecodeEncodeFrom(v: bv64, rest: seq<byte>, i: nat, value: bv64)
    requires i + |Encode(v)| <= 10
    ensures DecodeFrom(Encode(v) + rest, i, value) == Done(Or(value, Up(v, i)), rest)
    decreases |Encode(v)|
  {
    hide DecodeFrom, Up, Shl7, Shr7, Or, LastByte, MoreByte, Payload, Stops;
    if Shr7(v) == 0 {
      LastBits(v);
      DecodeStep(LastByte(v), rest, i, value);
    } else {
      MoreBits(v);
      var high, low := Shr7(v), Payload(MoreByte(v));
      assert Encode(v) + rest == [MoreByte(v)] + (Encode(high) + rest);
      DecodeStep(MoreByte(v), Encode(high) + rest, i, value);
      DecodeEncodeFrom(high, rest, i + 1, Or(value, Up(low, i)));
      UpNext(high, i);
      UpOr(low, Shl7(high), i);
      OrAssociates(value, Up(low, i), Up(Shl7(high), i));
    }
  }

  /** decode_length after encode_length, whatever follows on the stream. */
  lemma DecodeEncode(v: bv64, rest: seq<byte>)
    ensures Decode(Encode(v) + rest) == Done(v, rest)
  {
    AtMostTen(v);
    DecodeEncodeFrom(v, rest, 0, 0);
    OrAssociates(v, 0, 0);
  }

  /** No encoding is a prefix of another one. */
  lemma PrefixFree(v: bv64, w: bv64, restV: seq<byte>, restW: seq<byte>)
    requires Encode(v) + restV == Encode(w) + restW
    ensures v == w && restV == restW
  {
    DecodeEncode(v, restV);
    DecodeEncode(w, restW);
  }

  /** More bytes never change what was decoded, nor turn a malformed stream into a good one. */
  lemma {:induction false} DecodeExtends(s: seq<byte>, more: seq<byte>, i: nat, value: bv64)
    requires i <= 10
    ensures DecodeFrom(s, i, value).Done? ==>
      DecodeFrom(s + more, i, value) == DecodeFrom(s, i, value).(rest := DecodeFrom(s, i, value).rest + more)
    ensures DecodeFrom(s, i, value).Malformed? ==> DecodeFrom(s + more, i, value).Malformed?
    decreases 10 - i
  {
    hide Up, Or, Payload, Stops;
    if i < 10 && s != [] {
      assert (s + more)[1..] == s[1..] + more;
      DecodeExtends(s[1..], more, i + 1, Or(value, Up(Payload(s[0]), i)));
    }
  }

  // What the bytes of a varint say.

  /** The high bit is set on every byte but the last. */
  lemma {:induction false} HighBits(v: bv64)
    ensures forall k :: 0 <= k < |Encode(v)| ==> (Encode(v)[k] & 0x80 != 0 <==> k < |Encode(v)| - 1)
    decreases v
  {
    hide Shr7, LastByte, MoreByte;
    ByteBits(v);
    EncodeStep(v);
    if Shr7(v) != 0 {
      ShrDrops(v);
      HighBits(Shr7(v));
      var tail := Encode(Shr7(v));
      forall k | 0 <= k < |Encode(v)|
        ensures Encode(v)[k] & 0x80 != 0 <==> k < |Encode(v)| - 1
      {
        assert k > 0 ==> Encode(v)[k] == tail[k - 1];
      }
    }
  }

  lemma ByteBits(v: bv64)
    ensures LastByte(v) & 0x80 == 0 && MoreByte(v) & 0x80 != 0
  {
  }

  lemma ShrDrops(v: bv64)
    requires Shr7(v) != 0
    ensures Shr7(v) < v
  {
  }

  /** The index of the first byte with a clear high bit, or the length. */
  function StopAt(s: seq<byte>): (n: nat)
    ensures n <= |s|
    ensures forall k :: 0 <= k < n ==> s[k] & 0x80 != 0
    ensures n < |s| ==> s[n] & 0x80 == 0
  {
    if s == [] || s[0] & 0x80 == 0 then 0 else 1 + StopAt(s[1..])
  }

  /** The low seven bits of each byte, those of byte k shifted left by 7 * (i + k), together. */
  function Collected(bs: seq<byte>, i: nat): bv64 {
    if bs == [] then 0 else Or(Up((bs[0] & 0x7F) as bv64, i), Collected(bs[1..], i + 1))
  }

  /** Up(x, i) is x << (i * 7). */
  lemma UpIsShift(x: bv64)
    ensures Up(x, 0) == x && Up(x, 1) == x << 7 && Up(x, 2) == x << 14 && Up(x, 3) == x << 21 && Up(x, 4) == x << 28
    ensures Up(x, 5) == x << 35 && Up(x, 6) == x << 42 && Up(x, 7) == x << 49 && Up(x, 8) == x << 56
    ensures Up(x, 9) == x << 63
  {
    hide Shl7;
    Shifts(x);
    for i := 0 to 9
      invariant Up(x, 0) == x
      invariant forall k: nat :: k < i ==> Up(x, k + 1) == Shl7(Up(x, k))
    {
      UpOneMore(x, i);
    }
    assert forall k: nat :: k < 9 ==> Up(x, k + 1) == Shl7(Up(x, k));
  }

  lemma Shifts(x: bv64)
    ensures Shl7(x) == x << 7 && Shl7(x << 7) == x << 14 && Shl7(x << 14) == x << 21 && Shl7(x << 21) == x << 28
    ensures Shl7(x << 28) == x << 35 && Shl7(x << 35) == x << 42 && Shl7(x << 42) == x << 49
    ensures Shl7(x << 49) == x << 56 && Shl7(x << 56) == x << 63
  {
  }

  lemma {:induction false} UpOneMore(x: bv64, i: nat)
    ensures Up(x, i + 1) == Shl7(Up(x, i))
    decreases i
  {
    hide Shl7;
    if i > 0 {
      UpOneMore(Shl7(x), i - 1);
    }
  }

  /** On any bytes: the value collected up to the first byte with a clear high bit, if that is among the first ten;
      else the stream is too short, or the varint too long. */
  lemma DecodeMeaning(s: seq<byte>)
    ensures var n := StopAt(s);
      Decode(s) == if n < |s| && n < 10 then Done(Collected(s[..n + 1], 0), s[n + 1..])
                   else if |s| < 10 then Truncated else Malformed
  {
    hide Up, Or, DecodeFrom, Collected, StopAt;
    DecodeFromMeaning(s, 0, 0);
    if StopAt(s) < |s| {
      OrAssociates(Collected(s[..StopAt(s) + 1], 0), 0, 0);
    }
  }

  lemma {:induction false} DecodeFromMeaning(s: seq<byte>, i: nat, value: bv64)
    requires i <= 10
    ensures var n := StopAt(s);
      DecodeFrom(s, i, value) ==
        if n < |s| && i + n < 10 then Done(Or(value, Collected(s[..n + 1], i)), s[n + 1..])
        else if |s| < 10 - i then Truncated else Malformed
    decreases 10 - i
  {
    hide Up, Or, Collected, StopAt, DecodeFrom;
    var n := StopAt(s);
    if i == 10 {
      TenRounds(s, value);
    } else if s == [] {
      NoBytes(i, value);
    } else {
      var v, t := Or(value, Up(Payload(s[0]), i)), s[1..];
      assert s == [s[0]] + t;
      DecodeStep(s[0], t, i, value);
      StopAtStep(s);
      if !Stops(s[0]) {
        DecodeFromMeaning(t, i + 1, v);
        assert n < |s| ==> s[..n + 1] == [s[0]] + t[..n] && t[n..] == s[n + 1..];
      } else {
        assert s[..1] == [s[0]] + [];
      }
      if n < |s| {
        var tail := if n == 0 then [] else t[..n];
        CollectedStep(s[0], tail, i);
        OrAssociates(value, Up(Payload(s[0]), i), Collected(tail, i + 1));
      }
    }
  }

  lemma TenRounds(s: seq<byte>, value: bv64)
    ensures DecodeFrom(s, 10, value) == Malformed
  {
  }

  lemma NoBytes(i: nat, value: bv64)
    requires i < 10
    ensures DecodeFrom([], i, value) == Truncated && StopAt([]) == 0
  {
  }

  lemma StopAtStep(s: seq<byte>)
    requires s != []
    ensures StopAt(s) == if Stops(s[0]) then 0 else 1 + StopAt(s[1..])
  {
  }

  lemma CollectedStep(b: byte, tail: seq<byte>, i: nat)
    ensures Collected([b] + tail, i) == Or(Up(Payload(b), i), Collected(tail, i + 1))
    ensures tail == [] ==> Collected([b] + tail, i) == Up(Payload(b), i)
  {
    hide Up, Or;
    assert ([b] + tail)[1..] == tail;
    OrZero(Up(Payload(b), i));
  }

  lemma OrZero(x: bv64)
    ensures Or(x, 0) == x
  {
  }
}
