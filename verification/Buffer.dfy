/** uvio/io/buffer.hpp: a byte vector of fixed size with a read and a write position. */
module Buffer {
  import opened Common
  import opened Search

  class StreamBuffer {
    const size: nat
    var buf: seq<byte>
    var rPos: int
    var wPos: int

    predicate Valid()
      reads this
    {
      0 <= rPos <= wPos <= |buf| == size <= INT_MAX
    }

    /** The bytes of r_slice(), in order: what the buffer currently holds. */
    function Readable(): seq<byte>
      requires Valid()
      reads this
    {
      buf[rPos..wPos]
    }

    /** No byte behind the write position has been written since construction. */
    ghost predicate ZeroTail()
      reads this
    {
      forall k :: 0 <= wPos <= k < |buf| ==> buf[k] == 0
    }

    constructor (size: nat)
      requires size <= INT_MAX
      ensures Valid() && this.size == size && rPos == wPos == 0
      ensures ZeroTail()
    {
      this.size := size;
      buf := seq(size, _ => 0);
      rPos, wPos := 0, 0;
    }

    function RRemaining(): int
      reads this
    {
      wPos - rPos
    }

    function WRemaining(): int
      reads this
    {
      size - wPos
    }

    predicate Empty()
      reads this
    {
      rPos == wPos
    }

    function Capacity(): nat {
      size
    }

    method ResetPos()
      modifies this`rPos, this`wPos
      ensures rPos == wPos == 0
    {
      rPos, wPos := 0, 0;
    }

    method RIncrease(n: nat)
      requires Valid() && n <= RRemaining()
      modifies this`rPos
      ensures Valid() && rPos == old(rPos) + n
    {
      rPos := rPos + n;
    }

    method WIncrease(n: nat)
      requires Valid() && n <= WRemaining()
      modifies this`wPos
      ensures Valid() && wPos == old(wPos) + n
    {
      wPos := wPos + n;
    }

    /** Hand out up to `len` buffered bytes into dst[lo..lo+len]. */
    method WriteTo(dst: array<byte>, lo: nat, len: nat) returns (n: nat, ghost got: seq<byte>)
      requires Valid() && lo + len <= dst.Length
      modifies this`rPos, this`wPos, dst
      ensures Valid()
      ensures n == |got| == Min(|old(Readable())|, len)
      ensures old(Readable()) == got + Readable()
      ensures dst[..] == Splice(old(dst[..]), lo, got)
      ensures if Readable() == [] then rPos == wPos == 0 else rPos == old(rPos) + n && wPos == old(wPos)
    {
      n := Min(RRemaining(), len);
      got := buf[rPos..rPos + n];
      forall i | 0 <= i < n {
        dst[lo + i] := buf[rPos + i];
      }
      RIncrease(n);
      if rPos == wPos {
        ResetPos();
      }
    }

    /** Put bytes at the front of w_slice(), positions unchanged: what filling the slice does. */
    method Store(src: seq<byte>)
      requires Valid() && |src| <= WRemaining()
      modifies this`buf
      ensures Valid()
      ensures Readable() == old(Readable())
      ensures buf[wPos..wPos + |src|] == src
      ensures buf[wPos + |src|..] == old(buf)[wPos + |src|..]
    {
      buf := buf[..wPos] + src + buf[wPos + |src|..];
    }

    /** Take in as much of `src` as fits behind the write position. */
    method ReadFrom(src: seq<byte>) returns (n: nat)
      requires Valid()
      modifies this`buf, this`wPos
      ensures Valid()
      ensures n == Min(old(WRemaining()), |src|) && wPos == old(wPos) + n
      ensures Readable() == old(Readable()) + src[..n]
    {
      n := Min(WRemaining(), |src|);
      Store(src[..n]);
      WIncrease(n);
    }

    /** Compact: move the held bytes to the front, keeping them and their order. */
    method ResetData()
      requires Valid()
      modifies this
      ensures Valid() && rPos == 0
      ensures Readable() == old(Readable())
      ensures buf[wPos..] == old(buf)[wPos..]
    {
      var len := RRemaining();
      buf := buf[rPos..wPos] + buf[len..];
      rPos, wPos := 0, len;
    }

    /** The string overload: strlen from r_begin, then a search in that C string. The scan does not stop
        at the write position. The result is the length of the returned slice, 0 when there is none. */
    function FindFlag(flag: seq<byte>): Result<nat>
      requires Valid()
      reads this
    {
      FlagSlice(buf[rPos..], flag)
    }
  }
}
