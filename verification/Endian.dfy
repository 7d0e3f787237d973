/** uvio/net/endian.hpp on a little-endian host, and what the swaps mean for the bytes of a word. */
module Endian {
  import opened Common

  function Bswap16(x: bv16): bv16 {
    ((x >> 8) & 0xFF) | ((x & 0xFF) << 8)
  }

  function Bswap32(x: bv32): bv32 {
    ((x & 0xFF000000) >> 24) | ((x & 0x00FF0000) >> 8) | ((x & 0x0000FF00) << 8) | ((x & 0x000000FF) << 24)
  }

  function Bswap64(x: bv64): bv64 {
    ((x & 0xFF00000000000000) >> 56) | ((x & 0x00FF000000000000) >> 40)
    | ((x & 0x0000FF0000000000) >> 24) | ((x & 0x000000FF00000000) >> 8)
    | ((x & 0x00000000FF000000) << 8) | ((x & 0x0000000000FF0000) << 24)
    | ((x & 0x000000000000FF00) << 40) | ((x & 0x00000000000000FF) << 56)
  }

  function Hton16(x: bv16): bv16 { Bswap16(x) }
  function Ntoh16(x: bv16): bv16 { Bswap16(x) }
  function Hton32(x: bv32): bv32 { Bswap32(x) }
  function Ntoh32(x: bv32): bv32 { Bswap32(x) }
  function Hton64(x: bv64): bv64 { Bswap64(x) }
  function Ntoh64(x: bv64): bv64 { Bswap64(x) }

  lemma SwapsCancel(x: bv16, y: bv32, z: bv64)
    ensures Ntoh16(Hton16(x)) == x && Ntoh32(Hton32(y)) == y && Ntoh64(Hton64(z)) == z
  {
  }

  // A word as its bytes in memory, lowest first, and back.

  function Split16(v: bv16): (bs: seq<byte>)
    ensures |bs| == 2
  {
    [(v & 0xFF) as byte, ((v >> 8) & 0xFF) as byte]
  }

  function Split32(v: bv32): (bs: seq<byte>)
    ensures |bs| == 4
  {
    [(v & 0xFF) as byte, ((v >> 8) & 0xFF) as byte, ((v >> 16) & 0xFF) as byte, ((v >> 24) & 0xFF) as byte]
  }

  function Split64(v: bv64): (bs: seq<byte>)
    ensures |bs| == 8
  {
    [(v & 0xFF) as byte, ((v >> 8) & 0xFF) as byte, ((v >> 16) & 0xFF) as byte, ((v >> 24) & 0xFF) as byte,
     ((v >> 32) & 0xFF) as byte, ((v >> 40) & 0xFF) as byte, ((v >> 48) & 0xFF) as byte, ((v >> 56) & 0xFF) as byte]
  }

  function Join16(bs: seq<byte>): bv16
    requires |bs| == 2
  {
    Join2(bs[0], bs[1])
  }

  function Join2(a: byte, b: byte): bv16 {
    a as bv16 | (b as bv16 << 8)
  }

  function Join32(bs: seq<byte>): bv32
    requires |bs| == 4
  {
    Join4(bs[0], bs[1], bs[2], bs[3])
  }

  function Join4(a: byte, b: byte, c: byte, d: byte): bv32 {
    a as bv32 | (b as bv32 << 8) | (c as bv32 << 16) | (d as bv32 << 24)
  }

  function Join64(bs: seq<byte>): bv64
    requires |bs| == 8
  {
    Join8(bs[0], bs[1], bs[2], bs[3], bs[4], bs[5], bs[6], bs[7])
  }

  function Join8(a: byte, b: byte, c: byte, d: byte, e: byte, f: byte, g: byte, h: byte): bv64 {
    a as bv64 | (b as bv64 << 8) | (c as bv64 << 16) | (d as bv64 << 24)
    | (e as bv64 << 32) | (f as bv64 << 40) | (g as bv64 << 48) | (h as bv64 << 56)
  }

  lemma SplitJoin16(bs: seq<byte>)
    requires |bs| == 2
    ensures Split16(Join16(bs)) == bs
  {
  }

  lemma SplitJoin32(bs: seq<byte>)
    requires |bs| == 4
    ensures Split32(Join32(bs)) == bs
  {
  }

  lemma SplitJoin64(bs: seq<byte>)
    requires |bs| == 8
    ensures Split64(Join64(bs)) == bs
  {
  }

  lemma JoinSplit(x: bv16, y: bv32, z: bv64)
    ensures Join16(Split16(x)) == x && Join32(Split32(y)) == y && Join64(Split64(z)) == z
  {
  }

  function Reverse(bs: seq<byte>): (r: seq<byte>)
    ensures |r| == |bs|
    ensures forall k :: 0 <= k < |bs| ==> r[k] == bs[|bs| - 1 - k]
  {
    seq(|bs|, k requires 0 <= k < |bs| => bs[|bs| - 1 - k])
  }

  /** A swap turns the bytes of a word around: the lowest goes where the highest was. */
  lemma SwapReverses(x: bv16, y: bv32, z: bv64)
    ensures Split16(Bswap16(x)) == Reverse(Split16(x))
    ensures Split32(Bswap32(y)) == Reverse(Split32(y))
    ensures Split64(Bswap64(z)) == Reverse(Split64(z))
  {
    Swap16(x);
    Swap32(y);
    Swap64(z);
  }

  lemma Swap16(x: bv16)
    ensures Split16(Bswap16(x)) == Reverse(Split16(x))
  {
  }

  lemma Swap32(y: bv32)
    ensures Split32(Bswap32(y)) == Reverse(Split32(y))
  {
    hide Split32, Join4, Bswap32;
    var s := Split32(y);
    JoinSplit(0, y, 0);
    SwapJoin4(s[0], s[1], s[2], s[3]);
    var t := [s[3], s[2], s[1], s[0]];
    assert t == Reverse(s);
    SplitJoin32(t);
  }

  lemma SwapJoin4(a: byte, b: byte, c: byte, d: byte)
    ensures Bswap32(Join4(a, b, c, d)) == Join4(d, c, b, a)
  {
  }

  lemma Swap64(z: bv64)
    ensures Split64(Bswap64(z)) == Reverse(Split64(z))
  {
    hide Split64, Join8, Bswap64;
    var s := Split64(z);
    JoinSplit(0, 0, z);
    SwapJoin8(s[0], s[1], s[2], s[3], s[4], s[5], s[6], s[7]);
    var t := [s[7], s[6], s[5], s[4], s[3], s[2], s[1], s[0]];
    assert t == Reverse(s);
    SplitJoin64(t);
  }

  lemma SwapJoin8(a: byte, b: byte, c: byte, d: byte, e: byte, f: byte, g: byte, h: byte)
    ensures Bswap64(Join8(a, b, c, d, e, f, g, h)) == Join8(h, g, f, e, d, c, b, a)
  {
  }

  // Numbers as words: `uint64_t length = message.size()` and `message.resize(length)`.

  function Pow256(k: nat): (p: nat)
    ensures p > 0
  {
    if k == 0 then 1 else 256 * Pow256(k - 1)
  }

  /** The number whose base-256 digits are `bs`, lowest first. */
  function NatOf(bs: seq<byte>): nat {
    if bs == [] then 0 else bs[0] as int + 256 * NatOf(bs[1..])
  }

  lemma NextByte(b: byte)
    requires b as int < 255
    ensures (b + 1) as int == b as int + 1
  {
  }

  function ByteOf(n: nat): (b: byte)
    requires n < 256
    ensures b as int == n
  {
    if n == 0 then 0 else
      NextByte(ByteOf(n - 1));
      ByteOf(n - 1) + 1
  }

  /** The k lowest base-256 digits of n. */
  function BytesOf(n: nat, k: nat): (bs: seq<byte>)
    ensures |bs| == k
    decreases k
  {
    if k == 0 then [] else [ByteOf(n % 256)] + BytesOf(n / 256, k - 1)
  }

  lemma {:induction false} NatOfBytesOf(n: nat, k: nat)
    requires n < Pow256(k)
    ensures NatOf(BytesOf(n, k)) == n
    decreases k
  {
    if k > 0 {
      NatOfBytesOf(n / 256, k - 1);
      assert BytesOf(n, k)[1..] == BytesOf(n / 256, k - 1);
    }
  }

  const U16: int := 0x1_0000
  const U32: int := 0x1_0000_0000
  const U64: int := 0x1_0000_0000_0000_0000

  lemma Powers()
    ensures Pow256(2) == U16 && Pow256(4) == U32 && Pow256(8) == U64
  {
    assert Pow256(4) == 256 * 256 * Pow256(2);
    assert Pow256(6) == 256 * 256 * Pow256(4);
    assert Pow256(8) == 256 * 256 * Pow256(6);
  }

  function Word16(n: nat): bv16 { Join16(BytesOf(n % U16, 2)) }
  function Word32(n: nat): bv32 { Join32(BytesOf(n % U32, 4)) }
  function Word64(n: nat): bv64 { Join64(BytesOf(n % U64, 8)) }
  function Value16(v: bv16): nat { NatOf(Split16(v)) }
  function Value32(v: bv32): nat { NatOf(Split32(v)) }
  function Value64(v: bv64): nat { NatOf(Split64(v)) }

  lemma ValueJoin(bs: seq<byte>)
    ensures |bs| == 4 ==> Value32(Join32(bs)) == NatOf(bs)
    ensures |bs| == 8 ==> Value64(Join64(bs)) == NatOf(bs)
  {
    if |bs| == 4 {
      SplitJoin32(bs);
    } else if |bs| == 8 {
      SplitJoin64(bs);
    }
  }

  lemma WordValue64(n: nat)
    requires n < U64
    ensures Value64(Word64(n)) == n
  {
    hide Join64, Split64, BytesOf, NatOf, Pow256;
    Powers();
    ValueJoin(BytesOf(n, 8));
    NatOfBytesOf(n, 8);
  }

  // The byte loops of FixedLength32Codec.

  /** The k lowest bytes of a word, as k rounds of `value & 0xFF`, `value >>= 8` yield them. */
  function LowBytes(v: bv32, k: nat): (bs: seq<byte>)
    ensures |bs| == k
    decreases k
  {
    if k == 0 then [] else [LowByte(v)] + LowBytes(Shr8(v), k - 1)
  }

  function LowByte(v: bv32): byte { (v & 0xFF) as byte }
  function Shr8(v: bv32): bv32 { v >> 8 }

  lemma LowBytesAreSplit(v: bv32)
    ensures LowBytes(v, 4) == Split32(v)
  {
    var v1, v2, v3 := v >> 8, v >> 8 >> 8, v >> 8 >> 8 >> 8;
    assert LowBytes(v3, 1) == [LowByte(v3)];
    assert LowBytes(v2, 2) == [LowByte(v2), LowByte(v3)];
    assert LowBytes(v1, 3) == [LowByte(v1), LowByte(v2), LowByte(v3)];
  }

  /** The word after i rounds of `value |= byte << (i * 8)`: the bytes read so far, then zeros. */
  function Gathered(bs: seq<byte>): bv32
    requires |bs| <= 4
  {
    Join4(At(bs, 0), At(bs, 1), At(bs, 2), At(bs, 3))
  }

  function At(bs: seq<byte>, k: nat): byte {
    if k < |bs| then bs[k] else 0
  }

  lemma GatheredAll(bs: seq<byte>)
    requires |bs| == 4
    ensures Gathered(bs) == Join32(bs)
  {
    hide Join4;
  }

  lemma ZeroWord()
    ensures Gathered([]) == 0
  {
  }

  function Gather(value: bv32, b: byte, i: nat): bv32
    requires i < 4
  {
    if i == 0 then Gather0(value, b) else if i == 1 then Gather1(value, b)
    else if i == 2 then Gather2(value, b) else Gather3(value, b)
  }

  function Gather0(value: bv32, b: byte): bv32 { value | (b as bv32) }
  function Gather1(value: bv32, b: byte): bv32 { value | (b as bv32 << 8) }
  function Gather2(value: bv32, b: byte): bv32 { value | (b as bv32 << 16) }
  function Gather3(value: bv32, b: byte): bv32 { value | (b as bv32 << 24) }

  lemma GatherNext(bs: seq<byte>, b: byte)
    requires |bs| < 4
    ensures Gather(Gathered(bs), b, |bs|) == Gathered(bs + [b])
  {
    hide Gather0, Gather1, Gather2, Gather3, Join4;
    var t := bs + [b];
    assert forall k: nat :: k != |bs| ==> At(t, k) == At(bs, k);
    GatherBits01(t[0], At(t, 1));
    GatherBits23(t[0], At(t, 1), At(t, 2), At(t, 3));
  }

  lemma GatherBits01(a: byte, b: byte)
    ensures Gather0(Join4(0, 0, 0, 0), a) == Join4(a, 0, 0, 0)
    ensures Gather1(Join4(a, 0, 0, 0), b) == Join4(a, b, 0, 0)
  {
  }

  lemma GatherBits23(a: byte, b: byte, c: byte, d: byte)
    ensures Gather2(Join4(a, b, 0, 0), c) == Join4(a, b, c, 0)
    ensures Gather3(Join4(a, b, c, 0), d) == Join4(a, b, c, d)
  {
  }

  /** hton32 of a length puts its bytes on the wire most significant first; ntoh32 reads them so. */
  lemma BigEndian32(n: nat, bs: seq<byte>)
    requires |bs| == 4
    ensures Split32(Hton32(Word32(n))) == Reverse(BytesOf(n % U32, 4))
    ensures Value32(Ntoh32(Join32(bs))) == NatOf(Reverse(bs))
  {
    hide Bswap32, Split32, Join4, BytesOf, NatOf;
    Swap32(Word32(n));
    SplitJoin32(BytesOf(n % U32, 4));
    Swap32(Join32(bs));
    SplitJoin32(bs);
  }

  /** The k lowest bytes of n, most significant first: network byte order. */
  function BigEndian(n: nat, k: nat): (bs: seq<byte>)
    ensures |bs| == k
  {
    Reverse(BytesOf(n, k))
  }

  lemma BigEndianValue(n: nat, k: nat)
    requires n < Pow256(k)
    ensures NatOf(Reverse(BigEndian(n, k))) == n
  {
    NatOfBytesOf(n, k);
    assert Reverse(BigEndian(n, k)) == BytesOf(n, k);
  }

  lemma BigEndianWord16(n: nat)
    requires n < U16
    ensures Split16(Hton16(Word16(n))) == BigEndian(n, 2)
  {
    hide Bswap16, Split16, Join2, BytesOf, Reverse;
    Swap16(Word16(n));
    SplitJoin16(BytesOf(n, 2));
  }

  lemma BigEndianWord64(n: nat)
    requires n < U64
    ensures Split64(Hton64(Word64(n))) == BigEndian(n, 8)
  {
    hide Bswap64, Split64, Join8, BytesOf, Reverse;
    Swap64(Word64(n));
    SplitJoin64(BytesOf(n, 8));
  }

  lemma BigEndian64Read(bs: seq<byte>)
    requires |bs| == 8
    ensures Value64(Ntoh64(Join64(bs))) == NatOf(Reverse(bs))
  {
    hide Bswap64, Split64, Join8, NatOf;
    Swap64(Join64(bs));
    SplitJoin64(bs);
  }
}
