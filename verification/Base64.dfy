/** uvio/common/base64.hpp, the coder used without OpenSSL, against section 4 of RFC 4648. */
module Base64 {
  import opened Common
  import opened Endian

  // The alphabet, Table 1 of RFC 4648.

  /** base64_chars[k]. */
  function CharOf(k: nat): char
    requires k < 64
  {
    if k < 26 then 'A' + k as char
    else if k < 52 then 'a' + (k - 26) as char
    else if k < 62 then '0' + (k - 52) as char
    else if k == 62 then '+' else '/'
  }

  // base64_chars, as the source spells it.
  const UPPER: string := "ABCDEFGHIJKLMNOPQRSTUVWXYZ"
  const LOWER: string := "abcdefghijklmnopqrstuvwxyz"
  const DIGITS: string := "0123456789+/"

  function Table(): (t: string)
    ensures |t| == 64
  {
    UPPER + LOWER + DIGITS
  }

  lemma UpperAt(k: nat)
    requires k < 26
    ensures UPPER[k] == 'A' + k as char
  {
  }

  lemma LowerAt(k: nat)
    requires k < 26
    ensures LOWER[k] == 'a' + k as char
  {
  }

  lemma DigitAt(k: nat)
    requires k < 12
    ensures DIGITS[k] == if k < 10 then '0' + k as char else if k == 10 then '+' else '/'
  {
  }

  /** Table 1 of RFC 4648, character by character. */
  lemma CharIsTable(k: nat)
    requires k < 64
    ensures CharOf(k) == Table()[k]
  {
    if k < 26 {
      UpperAt(k);
    } else if k < 52 {
      LowerAt(k - 26);
    } else {
      DigitAt(k - 52);
    }
  }

  /** base64_chars.find(c), searching from k on; 64 stands for npos. */
  function Find(c: char, k: nat): (r: nat)
    requires k <= 64
    ensures k <= r <= 64
    ensures r < 64 ==> CharOf(r) == c
    ensures forall j :: k <= j < r ==> CharOf(j) != c
    decreases 64 - k
  {
    if k == 64 || CharOf(k) == c then k else Find(c, k + 1)
  }

  /** The result of find, cut down to a char: npos becomes -1. */
  function FindByte(c: char): byte {
    var k := Find(c, 0);
    if k < 64 then ByteOf(k) else 0xFF
  }

  predicate IsBase64(c: char) {
    'a' <= c <= 'z' || 'A' <= c <= 'Z' || '0' <= c <= '9' || c == '+' || c == '/'
  }

  lemma CharsAreDistinct(j: nat, k: nat)
    requires j < k < 64
    ensures CharOf(j) != CharOf(k)
  {
  }

  lemma CharIsBase64(k: nat)
    requires k < 64
    ensures IsBase64(CharOf(k)) && CharOf(k) != '='
  {
  }

  /** The characters that the decoder accepts are exactly those of the table. */
  lemma AlphabetIff(c: char)
    ensures IsBase64(c) <==> c in Table()
  {
    if IsBase64(c) {
      var k: nat :=
        if 'A' <= c <= 'Z' then (c - 'A') as nat
        else if 'a' <= c <= 'z' then (c - 'a') as nat + 26
        else if '0' <= c <= '9' then (c - '0') as nat + 52
        else if c == '+' then 62 else 63;
      assert CharOf(k) == c;
      CharIsTable(k);
    }
    if c in Table() {
      var k :| 0 <= k < |Table()| && Table()[k] == c;
      CharIsTable(k);
      CharIsBase64(k);
    }
  }

  /** Six bits of a byte, as an index. */
  function Char(v: byte): char {
    CharOf(v as int % 64)
  }

  lemma FindIndex(k: nat)
    requires k < 64
    ensures Find(CharOf(k), 0) == k
  {
    hide CharOf;
    var r := Find(CharOf(k), 0);
    if r < k {
      CharsAreDistinct(r, k);
    }
  }

  lemma FindChar(v: byte)
    requires v & 0xC0 == 0
    ensures FindByte(Char(v)) == v && IsBase64(Char(v)) && Char(v) != '='
  {
    hide CharOf, IsBase64, Find;
    SixBits(v);
    CharIsBase64(v as int);
    FindIndex(v as int);
    SameByte(ByteOf(v as int), v);
  }

  lemma SixBits(v: byte)
    requires v & 0xC0 == 0
    ensures v as int < 64
  {
  }

  lemma SameByte(a: byte, b: byte)
    requires a as int == b as int
    ensures a == b
  {
  }

  // Three octets and four groups of six bits.

  /** Section 4 of RFC 4648: the 24 bits of three octets, read as four groups of six. */
  function Group(a: byte, b: byte, c: byte, i: nat): byte
    requires i < 4
  {
    var bits := ((a as bv24) << 16) | ((b as bv24) << 8) | (c as bv24);
    if i == 0 then ((bits >> 18) & 0x3F) as byte
    else if i == 1 then ((bits >> 12) & 0x3F) as byte
    else if i == 2 then ((bits >> 6) & 0x3F) as byte
    else (bits & 0x3F) as byte
  }

  function Pack0(a: byte): byte { (a & 0xFC) >> 2 }
  function Pack1(a: byte, b: byte): byte { ((a & 0x03) << 4) + ((b & 0xF0) >> 4) }
  function Pack2(b: byte, c: byte): byte { ((b & 0x0F) << 2) + ((c & 0xC0) >> 6) }
  function Pack3(c: byte): byte { c & 0x3F }

  function Unpack0(s: byte, t: byte): byte { (s << 2) + ((t & 0x30) >> 4) }
  function Unpack1(t: byte, u: byte): byte { ((t & 0x0F) << 4) + ((u & 0x3C) >> 2) }
  function Unpack2(u: byte, v: byte): byte { ((u & 0x03) << 6) + v }

  lemma PackIsGroup(a: byte, b: byte, c: byte)
    ensures Pack0(a) == Group(a, b, c, 0) && Pack1(a, b) == Group(a, b, c, 1)
    ensures Pack2(b, c) == Group(a, b, c, 2) && Pack3(c) == Group(a, b, c, 3)
  {
  }

  lemma PackBits(a: byte, b: byte, c: byte)
    ensures Pack0(a) & 0xC0 == 0 && Pack1(a, b) & 0xC0 == 0 && Pack2(b, c) & 0xC0 == 0 && Pack3(c) & 0xC0 == 0
    ensures Unpack0(Pack0(a), Pack1(a, b)) == a
    ensures Unpack1(Pack1(a, b), Pack2(b, c)) == b
    ensures Unpack2(Pack2(b, c), Pack3(c)) == c
  {
  }

  // What the two functions compute.

  function Chars(a: byte, b: byte, c: byte): (s: string)
    ensures |s| == 4
  {
    [Char(Group(a, b, c, 0)), Char(Group(a, b, c, 1)), Char(Group(a, b, c, 2)), Char(Group(a, b, c, 3))]
  }

  /** Section 4 of RFC 4648: missing octets count as zero, and '=' stands for each of them. */
  function Encoded(m: seq<byte>): string {
    if m == [] then []
    else if |m| == 1 then Chars(m[0], 0, 0)[..2] + "=="
    else if |m| == 2 then Chars(m[0], m[1], 0)[..3] + "="
    else Chars(m[0], m[1], m[2]) + Encoded(m[3..])
  }

  /** How far the decoder reads: up to the first '=' or other character outside the alphabet. */
  function Run(text: string): (n: nat)
    ensures n <= |text|
    ensures forall i :: 0 <= i < n ==> IsBase64(text[i]) && text[i] != '='
    ensures n < |text| ==> !IsBase64(text[n]) || text[n] == '='
  {
    if text == [] || text[0] == '=' || !IsBase64(text[0]) then 0 else 1 + Run(text[1..])
  }

  function Octets(s: byte, t: byte, u: byte, v: byte): (bs: seq<byte>)
    ensures |bs| == 3
  {
    [Unpack0(s, t), Unpack1(t, u), Unpack2(u, v)]
  }

  /** The octets of a run of alphabet characters; of n left-over characters come n - 1 octets. */
  function DecodedRun(text: string): seq<byte> {
    if |text| < 2 then []
    else if |text| == 2 then Octets(FindByte(text[0]), FindByte(text[1]), 0xFF, 0xFF)[..1]
    else if |text| == 3 then Octets(FindByte(text[0]), FindByte(text[1]), FindByte(text[2]), 0xFF)[..2]
    else Octets(FindByte(text[0]), FindByte(text[1]), FindByte(text[2]), FindByte(text[3])) + DecodedRun(text[4..])
  }

  function Decoded(text: string): seq<byte> {
    DecodedRun(text[..Run(text)])
  }

  // The round trip.

  /** The characters of an encoding without its padding. */
  function Unpadded(m: seq<byte>): string {
    if m == [] then []
    else if |m| == 1 then Chars(m[0], 0, 0)[..2]
    else if |m| == 2 then Chars(m[0], m[1], 0)[..3]
    else Chars(m[0], m[1], m[2]) + Unpadded(m[3..])
  }

  function Padding(n: nat): string {
    if n % 3 == 1 then "==" else if n % 3 == 2 then "=" else ""
  }

  predicate InAlphabet(text: string) {
    forall i :: 0 <= i < |text| ==> IsBase64(text[i]) && text[i] != '='
  }

  lemma InAlphabetParts(s: string, t: string, n: nat)
    requires InAlphabet(s) && (t == [] || InAlphabet(t)) && n <= |s|
    ensures InAlphabet(s[..n]) && InAlphabet(s + t)
  {
    hide IsBase64;
  }

  lemma EncodedIsPadded(m: seq<byte>)
    ensures Encoded(m) == Unpadded(m) + Padding(|m|)
    ensures |Unpadded(m)| == (4 * |m| + 2) / 3
    ensures InAlphabet(Unpadded(m))
  {
    hide Encoded, Unpadded, InAlphabet;
    PaddingComesLast(m);
    UnpaddedLength(m);
    UnpaddedInAlphabet(m);
  }

  lemma {:induction false} PaddingComesLast(m: seq<byte>)
    ensures Encoded(m) == Unpadded(m) + Padding(|m|)
  {
    hide Chars;
    if |m| >= 3 {
      PaddingComesLast(m[3..]);
    }
  }

  lemma {:induction false} UnpaddedLength(m: seq<byte>)
    ensures |Unpadded(m)| == (4 * |m| + 2) / 3
  {
    hide Chars;
    if |m| >= 3 {
      UnpaddedLength(m[3..]);
    }
  }

  lemma {:induction false} UnpaddedInAlphabet(m: seq<byte>)
    ensures InAlphabet(Unpadded(m))
  {
    hide Chars, InAlphabet;
    if m == [] {
      NothingInAlphabet();
    } else if |m| == 1 {
      CharsInAlphabet(m[0], 0, 0);
      InAlphabetParts(Chars(m[0], 0, 0), [], 2);
    } else if |m| == 2 {
      CharsInAlphabet(m[0], m[1], 0);
      InAlphabetParts(Chars(m[0], m[1], 0), [], 3);
    } else {
      CharsInAlphabet(m[0], m[1], m[2]);
      UnpaddedInAlphabet(m[3..]);
      InAlphabetParts(Chars(m[0], m[1], m[2]), Unpadded(m[3..]), 4);
    }
  }

  lemma NothingInAlphabet()
    ensures InAlphabet([])
  {
  }

  lemma CharsInAlphabet(a: byte, b: byte, c: byte)
    ensures InAlphabet(Chars(a, b, c))
  {
    hide Group, Char, IsBase64, Pack0, Pack1, Pack2, Pack3;
    PackIsGroup(a, b, c);
    PackBits(a, b, c);
    FindChar(Pack0(a));
    FindChar(Pack1(a, b));
    FindChar(Pack2(b, c));
    FindChar(Pack3(c));
  }

  lemma OctetsOfChars(a: byte, b: byte, c: byte)
    ensures var s := Chars(a, b, c);
      Octets(FindByte(s[0]), FindByte(s[1]), FindByte(s[2]), FindByte(s[3])) == [a, b, c]
  {
    hide Group, Char, IsBase64, FindByte, Pack0, Pack1, Pack2, Pack3, Unpack0, Unpack1, Unpack2;
    PackIsGroup(a, b, c);
    PackBits(a, b, c);
    FindChar(Pack0(a));
    FindChar(Pack1(a, b));
    FindChar(Pack2(b, c));
    FindChar(Pack3(c));
  }

  lemma {:induction false} DecodedUnpadded(m: seq<byte>)
    ensures DecodedRun(Unpadded(m)) == m
  {
    hide Group, Char, FindByte, Unpack0, Unpack1, Unpack2;
    if |m| == 1 {
      OctetsOfChars(m[0], 0, 0);
    } else if |m| == 2 {
      OctetsOfChars(m[0], m[1], 0);
    } else if |m| >= 3 {
      OctetsOfChars(m[0], m[1], m[2]);
      DecodedUnpadded(m[3..]);
      assert Unpadded(m)[4..] == Unpadded(m[3..]);
    }
  }

  lemma {:induction false} RunOfPadded(text: string, padding: string)
    requires InAlphabet(text)
    requires padding == [] || padding[0] == '='
    ensures Run(text + padding) == |text|
  {
    hide IsBase64;
    if text == [] {
      assert text + padding == padding;
    } else {
      assert (text + padding)[1..] == text[1..] + padding;
      RunOfPadded(text[1..], padding);
    }
  }

  lemma PaddedLength(n: nat)
    ensures (4 * n + 2) / 3 + |Padding(n)| == 4 * ((n + 2) / 3)
  {
    var q, r := n / 3, n % 3;
    assert n == 3 * q + r;
    assert (4 * n + 2) / 3 == 4 * q + (4 * r + 2) / 3;
    assert (n + 2) / 3 == q + (r + 2) / 3;
  }

  /** Any byte string survives; what is written is as long as RFC 4648 says, a multiple of four, and padded
      with two, one or no '=' as the length leaves one, two or no octets over. */
  lemma RoundTrip(m: seq<byte>)
    ensures Decoded(Encoded(m)) == m
    ensures |Encoded(m)| == 4 * ((|m| + 2) / 3)
    ensures exists text :: Encoded(m) == text + Padding(|m|) && forall i :: 0 <= i < |text| ==> IsBase64(text[i])
  {
    hide IsBase64, Encoded, Unpadded, DecodedRun, Run;
    var text := Unpadded(m);
    EncodedIsPadded(m);
    PaddedLength(|m|);
    RunOfPadded(text, Padding(|m|));
    DecodedUnpadded(m);
    assert Encoded(m)[..|text|] == text;
  }

  // The int counter of the decoder.

  /** How many characters the counter lets the loop see: `in_len` starts at the length cut down to an int and
      stops the loop when it is zero. From a negative start it never does before it leaves the int range. */
  function Window(text: string): (n: nat)
    ensures n <= |text|
    ensures |text| <= INT_MAX ==> n == |text|
  {
    if ToInt(|text|) >= 0 then ToInt(|text|) else |text|
  }

  /** The run of alphabet characters that the loop sees. */
  function Seen(text: string): string {
    var window := text[..Window(text)];
    window[..Run(window)]
  }

  /** What `decode` yields. The counter is decremented once more than there are characters read. */
  function DecodeResult(text: string): Result<seq<byte>> {
    if ToInt(|text|) < 0 && |Seen(text)| >= ToInt(|text|) - INT_MIN then Err(Overflow) else Ok(DecodedRun(Seen(text)))
  }

  lemma {:induction false} DecodedBound(text: string)
    ensures 4 * |DecodedRun(text)| <= 3 * |text|
  {
    hide FindByte, Unpack0, Unpack1, Unpack2;
    if |text| >= 4 {
      DecodedBound(text[4..]);
    }
  }

  /** Four characters give three octets; of two or three left-over characters come one or two, of a single one none. */
  lemma {:induction false} DecodedCount(text: string)
    ensures |DecodedRun(text)| == |text| / 4 * 3 + if |text| % 4 == 0 then 0 else |text| % 4 - 1
  {
    hide FindByte, Unpack0, Unpack1, Unpack2;
    if |text| >= 4 {
      DecodedCount(text[4..]);
    }
  }

  lemma Counter(n: nat)
    ensures INT_MIN <= ToInt(n) <= INT_MAX && ToInt(n) <= n
    ensures n <= INT_MAX <==> ToInt(n) == n
    ensures n > INT_MAX ==> ToInt(n) + UINT_RANGE <= n
  {
  }

  /** A window that cuts the text short yields too little. */
  lemma CutShort(m: seq<byte>, n: nat)
    requires n + 4 <= |Encoded(m)|
    ensures Run(Encoded(m)[..n]) == n && |Decoded(Encoded(m)[..n])| < |m|
  {
    hide Encoded, Unpadded, DecodedRun, Run, IsBase64;
    EncodedIsPadded(m);
    var window := Unpadded(m)[..n];
    assert Encoded(m)[..n] == window && window + [] == window && window[..n] == window;
    RunOfPadded(window, []);
    DecodedBound(window);
  }

  lemma SeenWhole(text: string)
    requires Window(text) == |text|
    ensures Seen(text) == text[..Run(text)]
  {
    hide Run, Window;
    assert text[..|text|] == text;
  }

  lemma SeenOfEncoded(m: seq<byte>)
    ensures var text := Encoded(m);
      if Window(text) == |text| then DecodedRun(Seen(text)) == m && |Seen(text)| + 2 >= |text|
      else |DecodedRun(Seen(text))| < |m|
  {
    hide Encoded, Unpadded, DecodedRun, Run, IsBase64, ToInt;
    var text := Encoded(m);
    Counter(|text|);
    if Window(text) == |text| {
      SeenWhole(text);
      EncodedIsPadded(m);
      RunOfPadded(Unpadded(m), Padding(|m|));
      RoundTrip(m);
    } else {
      CutShort(m, Window(text));
    }
  }

  /** The coder undoes itself exactly on what encodes to no more characters than an int can count. */
  lemma RoundTripIff(m: seq<byte>)
    ensures DecodeResult(Encoded(m)) == Ok(m) <==> |Encoded(m)| <= INT_MAX
  {
    hide Encoded, Seen, DecodedRun, ToInt;
    Counter(|Encoded(m)|);
    SeenOfEncoded(m);
  }

  // The two loops.

  /** The four groups of the three bytes in `buf3`. */
  method Pack(buf3: array<byte>, buf4: array<byte>)
    requires buf3.Length == 3 && buf4.Length == 4 && buf3 != buf4
    modifies buf4
    ensures forall i :: 0 <= i < 4 ==> buf4[i] == Group(buf3[0], buf3[1], buf3[2], i)
  {
    hide Group, Pack0, Pack1, Pack2, Pack3;
    PackIsGroup(buf3[0], buf3[1], buf3[2]);
    buf4[0] := Pack0(buf3[0]);
    buf4[1] := Pack1(buf3[0], buf3[1]);
    buf4[2] := Pack2(buf3[1], buf3[2]);
    buf4[3] := Pack3(buf3[2]);
  }

  /** The first n characters for the three bytes in `buf3`. */
  method Emit(ret: string, buf3: array<byte>, n: nat) returns (out: string)
    requires buf3.Length == 3 && n <= 4
    ensures out == ret + Chars(buf3[0], buf3[1], buf3[2])[..n]
  {
    hide Group, Char;
    var buf4 := new byte[4];
    Pack(buf3, buf4);
    out := ret;
    for i := 0 to n
      invariant out == ret + Chars(buf3[0], buf3[1], buf3[2])[..i]
    {
      out := out + [Char(buf4[i])];
    }
  }

  lemma EncodedThree(a: byte, b: byte, c: byte, rest: seq<byte>)
    ensures Encoded([a, b, c] + rest) == Chars(a, b, c) + Encoded(rest)
  {
    hide Chars;
    assert ([a, b, c] + rest)[3..] == rest;
  }

  method Encode(message: seq<byte>) returns (ret: string)
    ensures ret == Encoded(message)
  {
    hide Chars, Encoded;
    ret := [];
    var buf3 := new byte[3];
    var i := 0;
    ghost var carry: seq<byte> := [];
    assert carry + message[0..] == message;
    for k := 0 to |message|
      invariant 0 <= i < 3 && buf3[..i] == carry
      invariant Encoded(message) == ret + Encoded(carry + message[k..])
    {
      buf3[i] := message[k];
      assert carry + message[k..] == (carry + [message[k]]) + message[k + 1..];
      carry := carry + [message[k]];
      i := i + 1;
      if i == 3 {
        EncodedThree(carry[0], carry[1], carry[2], message[k + 1..]);
        assert carry == [carry[0], carry[1], carry[2]];
        ret := Emit(ret, buf3, 4);
        carry := [];
        assert carry + message[k + 1..] == message[k + 1..];
        i := 0;
      }
    }
    assert carry + message[|message|..] == carry;
    if i != 0 {
      ret := EncodeTail(ret, buf3, i, carry);
    } else {
      EncodedNothing();
    }
  }

  lemma EncodedNothing()
    ensures Encoded([]) == [] && DecodedRun([]) == []
  {
  }

  method EncodeTail(ret: string, buf3: array<byte>, n: nat, ghost left: seq<byte>) returns (out: string)
    requires buf3.Length == 3 && 0 < n < 3 && left == buf3[..n]
    modifies buf3
    ensures out == ret + Encoded(left)
  {
    hide Chars;
    for j := n to 3
      invariant buf3[..n] == left && forall k :: n <= k < j ==> buf3[k] == 0
    {
      buf3[j] := 0;
    }
    out := Emit(ret, buf3, n + 1);
    ghost var chars := out;
    var i := n;
    while i < 3
      invariant n <= i <= 3 && out == chars + "=="[..i - n]
    {
      out := out + "=";
      i := i + 1;
    }
    assert buf3[..n] == left;
  }

  /** The three bytes of the four indices in `buf4`. */
  method Unpack(buf4: array<byte>, buf3: array<byte>)
    requires buf3.Length == 3 && buf4.Length == 4 && buf3 != buf4
    modifies buf3
    ensures buf3[..] == Octets(buf4[0], buf4[1], buf4[2], buf4[3])
  {
    hide Unpack0, Unpack1, Unpack2;
    buf3[0] := Unpack0(buf4[0], buf4[1]);
    buf3[1] := Unpack1(buf4[1], buf4[2]);
    buf3[2] := Unpack2(buf4[2], buf4[3]);
  }

  /** The bytes of the four characters in `buf4`, the first n of them. */
  method Absorb(ret: seq<byte>, buf4: array<char>, n: nat) returns (out: seq<byte>)
    requires buf4.Length == 4 && n <= 3
    ensures out == ret + Octets(FindByte(buf4[0]), FindByte(buf4[1]), FindByte(buf4[2]), FindByte(buf4[3]))[..n]
  {
    hide FindByte, Octets, Unpack0, Unpack1, Unpack2;
    var indices, buf3 := new byte[4], new byte[3];
    for i := 0 to 4
      invariant forall k :: 0 <= k < i ==> indices[k] == FindByte(buf4[k])
    {
      indices[i] := FindByte(buf4[i]);
    }
    Unpack(indices, buf3);
    out := ret;
    for i := 0 to n
      invariant out == ret + buf3[..i]
    {
      out := out + [buf3[i]];
    }
  }

  lemma DecodedFour(s: char, t: char, u: char, v: char, rest: string)
    ensures DecodedRun([s, t, u, v] + rest)
      == Octets(FindByte(s), FindByte(t), FindByte(u), FindByte(v)) + DecodedRun(rest)
  {
    hide FindByte, Octets;
    assert ([s, t, u, v] + rest)[4..] == rest;
  }

  /** A full group of four in front of the characters `left`. */
  method AbsorbFour(ret: seq<byte>, buf4: array<char>, ghost group: string, ghost left: string) returns (out: seq<byte>)
    requires buf4.Length == 4 && buf4[..4] == group
    ensures ret + DecodedRun(group + left) == out + DecodedRun([] + left)
  {
    hide FindByte, Octets, DecodedRun;
    DecodedFour(group[0], group[1], group[2], group[3], left);
    assert group == [group[0], group[1], group[2], group[3]];
    out := Absorb(ret, buf4, 3);
    assert [] + left == left;
  }

  /** base64[k], which is a NUL at the end of the string. */
  function At(text: string, k: nat): char
    requires k <= |text|
  {
    if k < |text| then text[k] else '\0'
  }

  /** The loop: four characters at a time; fewer than four stay in `buf4`. */
  method DecodeLoop(text: string, buf4: array<char>) returns (r: Result<nat>, out: seq<byte>)
    requires buf4.Length == 4
    modifies buf4
    ensures if ToInt(|text|) < 0 && |Seen(text)| >= ToInt(|text|) - INT_MIN then r == Err(Overflow)
      else r.Ok? && r.value < 4
    ensures r.Ok? ==> DecodedRun(Seen(text)) == out + DecodedRun(buf4[..r.value])
  {
    hide FindByte, Octets, IsBase64, DecodedRun, Run, ToInt;
    out := [];
    var i, at, inLen := 0, 0, ToInt(|text|);
    ghost var run, carry: string := Seen(text), [];
    assert carry + run[0..] == run;
    NulIsNotFound();
    Counter(|text|);
    while true
      invariant 0 <= i < 4 && 0 <= at <= |run| && buf4[..i] == carry
      invariant inLen == ToInt(|text|) - at >= INT_MIN
      invariant DecodedRun(run) == out + DecodedRun(carry + run[at..])
      decreases |run| - at
    {
      if inLen == INT_MIN {
        return Err(Overflow), out;
      }
      inLen := inLen - 1;
      if inLen == -1 || At(text, at) == '=' || !IsBase64(At(text, at)) {
        assert carry + run[at..] == carry;
        return Ok(i), out;
      }
      assert at < |run|;
      buf4[i] := text[at];
      assert carry + run[at..] == (carry + [text[at]]) + run[at + 1..];
      carry := carry + [text[at]];
      i, at := i + 1, at + 1;
      if i == 4 {
        out := AbsorbFour(out, buf4, carry, run[at..]);
        carry := [];
        i := 0;
      }
    }
  }

  method Decode(text: string) returns (r: Result<seq<byte>>)
    ensures r == DecodeResult(text)
    ensures |text| <= INT_MAX ==> r == Ok(Decoded(text))
  {
    hide FindByte, Octets, IsBase64, DecodedRun, Run, ToInt, Seen;
    Counter(|text|);
    if |text| <= INT_MAX {
      SeenWhole(text);
    }
    var buf4 := new char[4];
    var left, ret := DecodeLoop(text, buf4);
    if left.Err? {
      return Err(left.error);
    }
    if left.value != 0 {
      ret := DecodeTail(ret, buf4, left.value, buf4[..left.value]);
    } else {
      EncodedNothing();
      assert buf4[..0] == [];
    }
    assert ret == DecodedRun(Seen(text));
    return Ok(ret);
  }

  /** The slots behind the left-over characters are filled with NUL, which `find` turns into -1. */
  method DecodeTail(ret: seq<byte>, buf4: array<char>, n: nat, ghost left: string) returns (out: seq<byte>)
    requires buf4.Length == 4 && 0 < n < 4 && left == buf4[..n]
    modifies buf4
    ensures out == ret + DecodedRun(left)
  {
    hide FindByte, Octets;
    for j := n to 4
      invariant buf4[..n] == left && forall k :: n <= k < j ==> buf4[k] == '\0'
    {
      buf4[j] := '\0';
    }
    NulIsNotFound();
    out := Absorb(ret, buf4, n - 1);
    assert left == buf4[..n];
  }

  lemma NulIsNotFound()
    ensures FindByte('\0') == 0xFF && !IsBase64('\0')
  {
    var k := Find('\0', 0);
    assert k < 64 ==> CharOf(k) != '\0';
  }
}
