/** strlen and std::string_view::find, and what they compute together in find_flag_and_return_slice. */
module Search {
  import opened Common

  /** strlen over a region: the index of its first NUL, or the whole length when there is none. */
  function StrLen(s: seq<byte>): (n: nat)
    ensures n <= |s|
    ensures forall k :: 0 <= k < n ==> s[k] != 0
    ensures n < |s| ==> s[n] == 0
  {
    if s == [] || s[0] == 0 then 0 else 1 + StrLen(s[1..])
  }

  lemma {:induction false} StrLenIs(s: seq<byte>, n: nat)
    requires n < |s| && s[n] == 0 && forall k :: 0 <= k < n ==> s[k] != 0
    ensures StrLen(s) == n
  {
    if n > 0 {
      StrLenIs(s[1..], n - 1);
    }
  }

  /** `flag` occurs in `text` at index k. */
  predicate OccursAt(text: seq<byte>, flag: seq<byte>, k: int) {
    0 <= k && k + |flag| <= |text| && text[k..k + |flag|] == flag
  }

  /** string_view::find: the least index at which `flag` occurs; past the end when it does not. */
  function Find(text: seq<byte>, flag: seq<byte>): (k: nat)
    ensures k <= |text| + 1
    ensures k == |text| + 1 || OccursAt(text, flag, k)
    ensures forall j :: 0 <= j < k ==> !OccursAt(text, flag, j)
  {
    FindFrom(text, flag, 0)
  }

  function FindFrom(text: seq<byte>, flag: seq<byte>, from: nat): (k: nat)
    requires from <= |text| + 1
    ensures from <= k <= |text| + 1
    ensures k == |text| + 1 || OccursAt(text, flag, k)
    ensures forall j :: from <= j < k ==> !OccursAt(text, flag, j)
    decreases |text| + 1 - from
  {
    if from == |text| + 1 || OccursAt(text, flag, from) then from else FindFrom(text, flag, from + 1)
  }

  /** The slice length find_flag_and_return_slice yields on a region that starts at r_begin. */
  function FlagSlice(region: seq<byte>, flag: seq<byte>): Result<nat> {
    var n := StrLen(region);
    if n == |region| then Err(Overrun)
    else
      var k := Find(region[..n], flag);
      Ok(if k == n + 1 then 0 else k + |flag|)
  }

  /** `got` is the shortest prefix of `whole` that ends in the non-empty `flag`. */
  ghost predicate ShortestEnding(got: seq<byte>, whole: seq<byte>, flag: seq<byte>) {
    && flag != [] && got <= whole
    && OccursAt(got, flag, |got| - |flag|)
    && forall j :: 0 <= j < |got| - |flag| ==> !OccursAt(whole, flag, j)
  }

  /** Some prefix of `whole` ends in the non-empty flag. */
  ghost predicate Reaches(whole: seq<byte>, flag: seq<byte>) {
    flag != [] && exists j :: OccursAt(whole, flag, j)
  }

  ghost predicate NulFree(s: seq<byte>) {
    0 !in s
  }

  /** An occurrence that ends within a common prefix is an occurrence in both. */
  lemma OccursInPrefix(a: seq<byte>, b: seq<byte>, flag: seq<byte>, k: int)
    requires a <= b && k + |flag| <= |a|
    ensures OccursAt(a, flag, k) <==> OccursAt(b, flag, k)
  {
    if 0 <= k {
      assert a[k..k + |flag|] == b[k..k + |flag|];
    }
  }

  /** Whatever lies behind the held bytes, a slice within them is the shortest one ending in the flag. */
  lemma FlagSliceSound(region: seq<byte>, held: seq<byte>, whole: seq<byte>, flag: seq<byte>)
    requires held <= region && held <= whole
    requires FlagSlice(region, flag).Ok? && 0 < FlagSlice(region, flag).value <= |held|
    ensures ShortestEnding(held[..FlagSlice(region, flag).value], whole, flag)
  {
    var text := region[..StrLen(region)];
    var n := FlagSlice(region, flag).value;
    var got := held[..n];
    assert got <= whole;
    assert got <= text by {
      assert got == region[..n];
    }
    OccursInPrefix(got, text, flag, n - |flag|);
    forall j | 0 <= j < n - |flag|
      ensures !OccursAt(whole, flag, j)
    {
      OccursInPrefix(got, text, flag, j);
      OccursInPrefix(got, whole, flag, j);
    }
  }

  /** The part of the held bytes that the scan can see: up to the first NUL. */
  function Visible(held: seq<byte>): (v: seq<byte>)
    ensures v <= held && NulFree(v)
  {
    held[..StrLen(held)]
  }

  lemma {:induction false} StrLenOfPrefix(held: seq<byte>, region: seq<byte>)
    requires held <= region
    ensures StrLen(held) == Min(StrLen(region), |held|)
  {
    var n := Min(StrLen(region), |held|);
    assert forall k :: 0 <= k < n ==> held[k] == region[k];
    if n < |held| {
      StrLenIs(held, n);
    }
  }

  lemma ReachesOn(a: seq<byte>, b: seq<byte>, flag: seq<byte>)
    requires a <= b
    ensures Reaches(a, flag) ==> Reaches(b, flag)
  {
    if Reaches(a, flag) {
      var j :| OccursAt(a, flag, j);
      OccursInPrefix(a, b, flag, j);
    }
  }

  /** An occurrence of the flag in a text puts the first one, which is what Find finds, no later. */
  lemma ReachesIff(text: seq<byte>, flag: seq<byte>, n: nat)
    requires n <= |text|
    ensures Reaches(text[..n], flag) <==> flag != [] && Find(text, flag) + |flag| <= n
  {
    var k := Find(text, flag);
    if Reaches(text[..n], flag) {
      var j :| OccursAt(text[..n], flag, j);
      OccursInPrefix(text[..n], text, flag, j);
    }
    if flag != [] && k + |flag| <= n {
      OccursInPrefix(text[..n], text, flag, k);
    }
  }

  /** One look, whatever lies behind the held bytes: a slice within the held bytes if and only if the scan
      ends and the flag is held in front of the first NUL; a slice beyond them if and only if only stale bytes
      complete the flag; none if and only if the flag is not there at all. */
  lemma FlagSliceIff(region: seq<byte>, held: seq<byte>, flag: seq<byte>)
    requires held <= region
    ensures var r := FlagSlice(region, flag);
      && (r == Err(Overrun) <==> NulFree(region))
      && (r.Err? ==> r.error == Overrun)
      && (r.Ok? && 0 < r.value <= |held| <==> !NulFree(region) && Reaches(Visible(held), flag))
      && ((r.Ok? && r.value > |held|) <==>
            (!NulFree(region) && Reaches(Visible(region), flag) && !Reaches(Visible(held), flag)))
  {
    var n := StrLen(region);
    var text := region[..n];
    StrLenOfPrefix(held, region);
    assert Visible(held) == text[..StrLen(held)] && Visible(region) == text[..n];
    ReachesIff(text, flag, StrLen(held));
    ReachesIff(text, flag, n);
  }

  // What the scan can miss.

  /** A flag behind a NUL is not seen. */
  lemma BehindNul()
    ensures Reaches([0, 10], [10]) && FlagSlice([0, 10, 0], [10]) == Ok(0)
  {
    assert OccursAt([0, 10], [10], 1);
    StrLenIs([0, 10, 0], 0);
  }

  /** On a full buffer without NUL the scan runs off the end although the flag is there. */
  lemma FullBuffer()
    ensures Reaches([10], [10]) && FlagSlice([10], [10]) == Err(Overrun)
  {
    assert OccursAt([10], [10], 0);
    assert StrLen([10]) == 1;
  }

  /** Stale bytes behind one held byte complete the flag: the slice is longer than what is held. */
  lemma StaleFlag()
    ensures FlagSlice([13, 10, 0], [13, 10]) == Ok(2) && !Reaches([13], [13, 10])
  {
    StrLenIs([13, 10, 0], 2);
    assert OccursAt([13, 10, 0][..2], [13, 10], 0);
  }

  /** Zeros behind the held bytes change nothing about what is visible. */
  lemma ZerosBehind(region: seq<byte>, held: seq<byte>)
    requires held <= region && forall k :: |held| <= k < |region| ==> region[k] == 0
    ensures Visible(region) == Visible(held)
    ensures NulFree(region) <==> NulFree(held) && |held| == |region|
  {
    StrLenOfPrefix(held, region);
    if |held| < |region| {
      assert region[|held|] == 0;
    }
  }

  /** What is visible of a first part of a stream is visible in the stream. */
  lemma VisiblePart(held: seq<byte>, whole: seq<byte>, flag: seq<byte>)
    requires held <= whole
    ensures Visible(held) <= Visible(whole)
    ensures Reaches(Visible(held), flag) ==> Reaches(Visible(whole), flag)
    ensures held == whole || !NulFree(held) ==> Visible(held) == Visible(whole)
  {
    StrLenOfPrefix(held, whole);
    ReachesOn(Visible(held), Visible(whole), flag);
  }
}
