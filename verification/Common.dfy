/** Types shared by every part of the model. */
module Common {

  // A C++ `char` or `unsigned char`; code that depends on the sign of a `char` says so explicitly.
  type byte = bv8

  const INT_MAX: int := 0x7FFF_FFFF
  const INT_MIN: int := -0x8000_0000
  const UINT_RANGE: int := 0x1_0000_0000

  /** The error codes of uvio::Error, and three outcomes that leave the defined behaviour of the C++ program. */
  datatype Error =
    | UnexpectedEOF
    | WriteZero
    | Unclassified
    | Overrun   // a scan left the buffer: undefined behaviour in the original
    | Overflow  // an int counter left its range: undefined as well
    | Aborted   // an ASSERT failed

  datatype Option<+T> = None | Some(value: T)

  datatype Result<+T> = Ok(value: T) | Err(error: Error)

  /** What a parser makes of a byte stream. */
  datatype Parsed<+T> =
    | Done(value: T, rest: seq<byte>)
    | Truncated
    | Malformed

  function Min(a: int, b: int): int {
    if a <= b then a else b
  }

  /** `rest` is what is left of `s` when a first part of it has been taken. */
  ghost predicate Leaves(s: seq<byte>, rest: seq<byte>) {
    |rest| <= |s| && s[|s| - |rest|..] == rest
  }

  lemma LeavesOn(s: seq<byte>, t: seq<byte>, u: seq<byte>)
    requires Leaves(s, t) && Leaves(t, u)
    ensures Leaves(s, u)
  {
    assert s == s[..|s| - |t|] + (t[..|t| - |u|] + u);
  }

  lemma TakenLeaves(taken: seq<byte>, rest: seq<byte>)
    ensures Leaves(taken + rest, rest)
  {
  }

  /** static_cast<int> of a size_t: the low 32 bits, read in two's complement. */
  function ToInt(n: nat): int {
    var low := n % UINT_RANGE;
    if low <= INT_MAX then low else low - UINT_RANGE
  }

  /** Two's complement: the one int that is congruent. */
  lemma ToIntIs(n: nat)
    ensures INT_MIN <= ToInt(n) <= INT_MAX && (n - ToInt(n)) % UINT_RANGE == 0
  {
  }

  /** `s` with the bytes from index `lo` on overwritten by `piece`: what filling a span leaves behind. */
  ghost function Splice(s: seq<byte>, lo: nat, piece: seq<byte>): (r: seq<byte>)
    requires lo + |piece| <= |s|
    ensures |r| == |s|
  {
    s[..lo] + piece + s[lo + |piece|..]
  }

  lemma SpliceNothing(s: seq<byte>, lo: nat)
    requires lo <= |s|
    ensures Splice(s, lo, []) == s
  {
  }

  lemma SpliceWhole(s: seq<byte>, piece: seq<byte>)
    requires |piece| == |s|
    ensures Splice(s, 0, piece) == piece
  {
  }

  lemma SpliceNext(s: seq<byte>, lo: nat, a: seq<byte>, b: seq<byte>)
    requires lo + |a| + |b| <= |s|
    ensures Splice(Splice(s, lo, a), lo + |a|, b) == Splice(s, lo, a + b)
  {
  }
}
