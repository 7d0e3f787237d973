/** WebsocketCodec::apply_mask, against section 5.3 of RFC 6455. */
module Masking {
  import opened Common

  function Xor(a: byte, b: byte): byte { a ^ b }

  /** Octet i of the payload is XORed with octet i mod 4 of the key. */
  function Masked(s: seq<byte>, key: seq<byte>): (r: seq<byte>)
    requires |key| == 4
    ensures |r| == |s|
    ensures forall i :: 0 <= i < |s| ==> r[i] == Xor(s[i], key[i % 4])
  {
    seq(|s|, i requires 0 <= i < |s| => Xor(s[i], key[i % 4]))
  }

  lemma MaskedTwice(s: seq<byte>, key: seq<byte>)
    requires |key| == 4
    ensures Masked(Masked(s, key), key) == s
  {
    forall i | 0 <= i < |s|
      ensures Masked(Masked(s, key), key)[i] == s[i]
    {
      XorTwice(s[i], key[i % 4]);
    }
  }

  lemma XorTwice(x: byte, k: byte)
    ensures Xor(Xor(x, k), k) == x
  {
  }

  /** One round of the first loop. */
  method MaskFour(data: array<byte>, i: nat, mask: seq<byte>)
    requires |mask| == 4 && i + 4 <= data.Length && i % 4 == 0
    modifies data
    ensures forall k :: i <= k < i + 4 ==> data[k] == Xor(old(data[k]), mask[k % 4])
    ensures forall k :: 0 <= k < data.Length && !(i <= k < i + 4) ==> data[k] == old(data[k])
  {
    hide Xor;
    data[i] := Xor(data[i], mask[0]);
    data[i + 1] := Xor(data[i + 1], mask[1]);
    data[i + 2] := Xor(data[i + 2], mask[2]);
    data[i + 3] := Xor(data[i + 3], mask[3]);
  }

  /** Four at a time, then the tail. The first counter is a 32-bit `unsigned`. */
  method ApplyMask(data: array<byte>, mask: seq<byte>)
    requires |mask| == 4 && data.Length < UINT_RANGE
    modifies data
    ensures data[..] == Masked(old(data[..]), mask)
  {
    hide Xor;
    var whole := data.Length - data.Length % 4;
    var i := 0;
    while i < whole
      invariant 0 <= i <= whole && i % 4 == 0
      invariant forall k :: 0 <= k < i ==> data[k] == Xor(old(data[k]), mask[k % 4])
      invariant forall k :: i <= k < data.Length ==> data[k] == old(data[k])
    {
      MaskFour(data, i, mask);
      i := i + 4;
    }
    i := whole;
    while i < data.Length
      invariant whole <= i <= data.Length
      invariant forall k :: 0 <= k < i ==> data[k] == Xor(old(data[k]), mask[k % 4])
      invariant forall k :: i <= k < data.Length ==> data[k] == old(data[k])
    {
      data[i] := Xor(data[i], mask[i % 4]);
      i := i + 1;
    }
  }
}
