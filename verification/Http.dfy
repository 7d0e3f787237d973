/** The text side of uvio/codec/http.hpp: the request and status line, the header block, and their printer. */
module Http {
  import opened Common

  // First lines.

  predicate EndsLine(c: char) {
    c == '\r' || c == '\n'
  }

  predicate HasEol(s: string) {
    '\r' in s || '\n' in s
  }

  /** `line` is a, space, b, space, c and then a CR or LF and anything. */
  predicate IsLine(line: string, a: string, b: string, c: string, tail: string) {
    && line == a + " " + b + " " + c + tail
    && ' ' !in a && ' ' !in b && !HasEol(c)
    && tail != [] && EndsLine(tail[0])
  }

  /** line[i] of a view of a whole std::string: the terminating NUL is readable. */
  function CharAt(line: string, i: nat): char
    requires i <= |line|
  {
    if i < |line| then line[i] else '\0'
  }

  /** The index of the first space, or the length. */
  function SpaceAt(s: string): (k: nat)
    ensures k <= |s| && ' ' !in s[..k] && (k < |s| ==> s[k] == ' ')
  {
    if s == [] || s[0] == ' ' then 0 else 1 + SpaceAt(s[1..])
  }

  /** The index of the first CR or LF, or the length. */
  function LineEnd(s: string): (e: nat)
    ensures e <= |s|
  {
    if s == [] || EndsLine(s[0]) then 0 else 1 + LineEnd(s[1..])
  }

  lemma {:induction false} SpaceAtFirst(a: string, x: string)
    requires ' ' !in a
    ensures SpaceAt(a + " " + x) == |a|
  {
    if a != [] {
      assert (a + " " + x)[1..] == a[1..] + " " + x;
      SpaceAtFirst(a[1..], x);
    }
  }

  lemma {:induction false} LineEndFirst(c: string, tail: string)
    requires !HasEol(c) && (tail == [] || EndsLine(tail[0]))
    ensures LineEnd(c + tail) == |c|
  {
    if c == [] {
      assert c + tail == tail;
    } else {
      assert (c + tail)[1..] == c[1..] + tail;
      LineEndFirst(c[1..], tail);
    }
  }

  lemma NoFirstSpace(line: string, a: string, b: string, c: string, tail: string)
    requires ' ' !in line
    ensures !IsLine(line, a, b, c, tail)
  {
    assert a + " " + b + " " + c + tail == a + " " + (b + " " + c + tail);
    if IsLine(line, a, b, c, tail) {
      SpaceAtFirst(a, b + " " + c + tail);
    }
  }

  /** Two ways of cutting a string at its first space are one. */
  lemma FirstSpaceUnique(a: string, x: string, b: string, y: string)
    requires a + " " + x == b + " " + y && ' ' !in a && ' ' !in b
    ensures a == b && x == y
  {
    SpaceAtFirst(a, x);
    SpaceAtFirst(b, y);
    var s, t := a + " " + x, b + " " + y;
    assert a == s[..|a|] && b == t[..|b|] && x == s[|a| + 1..] && y == t[|b| + 1..];
  }

  lemma NoSecondSpace(line: string, start: nat, a: string, b: string, c: string, tail: string)
    requires 0 < start <= |line| && line[start - 1] == ' ' && ' ' !in line[..start - 1] && ' ' !in line[start..]
    ensures !IsLine(line, a, b, c, tail)
  {
    if IsLine(line, a, b, c, tail) {
      var rest := b + " " + (c + tail);
      assert line == a + " " + rest && line == line[..start - 1] + " " + line[start..];
      FirstSpaceUnique(line[..start - 1], line[start..], a, rest);
      SpaceAtFirst(b, c + tail);
    }
  }

  lemma NoEnd(line: string, a: string, b: string, last: string, a': string, b': string, c: string, tail: string)
    requires line == a + " " + b + " " + last && ' ' !in a && ' ' !in b && !HasEol(last)
    ensures !IsLine(line, a', b', c, tail)
  {
    LineEndFirst(last, []);
    assert last + [] == last;
    if IsLine(line, a', b', c, tail) {
      assert line == a + " " + (b + " " + last) && line == a' + " " + (b' + " " + (c + tail));
      FirstSpaceUnique(a, b + " " + last, a', b' + " " + (c + tail));
      FirstSpaceUnique(b, last, b', c + tail);
      LineEndFirst(c, tail);
    }
  }

  /** A line has at most one reading, so that the parser's answer is the reading. */
  lemma LineUnique(line: string, a: string, b: string, c: string, tail: string,
                   a': string, b': string, c': string, tail': string)
    requires IsLine(line, a, b, c, tail) && IsLine(line, a', b', c', tail')
    ensures a == a' && b == b' && c == c' && tail == tail'
  {
    assert line == a + " " + (b + " " + (c + tail)) && line == a' + " " + (b' + " " + (c' + tail'));
    FirstSpaceUnique(a, b + " " + (c + tail), a', b' + " " + (c' + tail'));
    FirstSpaceUnique(b, c + tail, b', c' + tail');
    LineEndFirst(c, tail);
    LineEndFirst(c', tail');
    var s, t := c + tail, c' + tail';
    assert c == s[..|c|] && c' == t[..|c'|] && tail == s[|c|..] && tail' == t[|c'|..];
  }

  /** The scan to the next space from `from` on. */
  method ScanSpace(s: string, from: nat) returns (end: nat)
    requires from <= |s|
    ensures end == from + SpaceAt(s[from..])
    ensures from <= end <= |s| && ' ' !in s[from..end] && (end < |s| ==> s[end] == ' ')
  {
    end := from;
    while end < |s| && s[end] != ' '
      invariant from <= end <= |s| && ' ' !in s[from..end]
      invariant from + SpaceAt(s[from..]) == end + SpaceAt(s[end..])
    {
      assert s[end..][1..] == s[end + 1..];
      end := end + 1;
    }
  }

  /** The scan to the end of the line from `from` on. */
  method ScanLine(s: string, from: nat) returns (end: nat)
    requires from <= |s|
    ensures end == from + LineEnd(s[from..])
    ensures from <= end <= |s| && !HasEol(s[from..end]) && (end < |s| ==> EndsLine(s[end]))
  {
    end := from;
    while end < |s| && s[end] != '\r' && s[end] != '\n'
      invariant from <= end <= |s| && !HasEol(s[from..end])
      invariant from + LineEnd(s[from..]) == end + LineEnd(s[end..])
    {
      assert s[end..][1..] == s[end + 1..];
      end := end + 1;
    }
  }

  /** parse_request_line, and word for word parse_status_line. */
  method ParseLine(line: string) returns (r: Result<(string, string, string)>)
    ensures r.Ok? ==> exists tail :: IsLine(line, r.value.0, r.value.1, r.value.2, tail)
    ensures r.Err? ==> r.error == Unclassified && forall a, b, c, tail :: !IsLine(line, a, b, c, tail)
  {
    hide IsLine, SpaceAt, LineEnd, HasEol;
    var end := ScanSpace(line, 0);
    if CharAt(line, end) != ' ' {
      assert line[0..end] == line;
      forall a, b, c, tail
        ensures !IsLine(line, a, b, c, tail)
      {
        NoFirstSpace(line, a, b, c, tail);
      }
      return Err(Unclassified);
    }
    var a := line[..end];
    var start := end + 1;
    end := ScanSpace(line, start);
    if CharAt(line, end) != ' ' {
      assert line[start..end] == line[start..];
      forall a', b, c, tail
        ensures !IsLine(line, a', b, c, tail)
      {
        NoSecondSpace(line, start, a', b, c, tail);
      }
      return Err(Unclassified);
    }
    var b := line[start..end];
    ThreeParts(line, |a|, end);
    r := ParseThird(line, a, b, end + 1);
  }

  /** The third field, which starts at `start` and ends with the line. */
  method ParseThird(line: string, a: string, b: string, start: nat) returns (r: Result<(string, string, string)>)
    requires start <= |line| && line == a + " " + b + " " + line[start..] && ' ' !in a && ' ' !in b
    ensures r.Ok? ==> exists tail :: IsLine(line, r.value.0, r.value.1, r.value.2, tail)
    ensures r.Err? ==> r.error == Unclassified && forall a, b, c, tail :: !IsLine(line, a, b, c, tail)
  {
    hide IsLine, LineEnd, HasEol;
    var end := ScanLine(line, start);
    if CharAt(line, end) != '\r' && CharAt(line, end) != '\n' {
      assert end == |line| && line[start..end] == line[start..];
      forall a', b', c, tail
        ensures !IsLine(line, a', b', c, tail)
      {
        NoEnd(line, a, b, line[start..], a', b', c, tail);
      }
      return Err(Unclassified);
    }
    var c := line[start..end];
    Assemble(line, a, b, c, line[end..], line[start..]);
    return Ok((a, b, c));
  }

  lemma ThreeParts(line: string, i: nat, j: nat)
    requires i < j < |line| && line[i] == line[j] == ' '
    ensures line == line[..i] + " " + line[i + 1..j] + " " + line[j + 1..]
  {
    assert line == line[..i] + ([line[i]] + (line[i + 1..j] + ([line[j]] + line[j + 1..])));
  }

  lemma Assemble(line: string, a: string, b: string, c: string, tail: string, last: string)
    requires line == a + " " + b + " " + last && last == c + tail
    requires ' ' !in a && ' ' !in b && !HasEol(c) && tail != [] && EndsLine(tail[0])
    ensures IsLine(line, a, b, c, tail)
  {
  }

  function PrintRequestLine(verb: string, uri: string): string {
    verb + " " + uri + " HTTP/1.1\r\n"
  }

  /** The printed request line reads back as what was printed exactly when neither field has a space. */
  lemma RequestLineRoundTrip(verb: string, uri: string)
    ensures (exists tail :: IsLine(PrintRequestLine(verb, uri), verb, uri, "HTTP/1.1", tail))
      <==> ' ' !in verb && ' ' !in uri
  {
    if ' ' !in verb && ' ' !in uri {
      var line := PrintRequestLine(verb, uri);
      assert " HTTP/1.1\r\n" == " " + "HTTP/1.1" + "\r\n";
      assert line == verb + " " + uri + " " + "HTTP/1.1" + "\r\n";
      assert IsLine(line, verb, uri, "HTTP/1.1", "\r\n");
    }
  }

  /** The same, with the parser run on the printed line. */
  method ReadBack(verb: string, uri: string) returns (r: Result<(string, string, string)>)
    ensures r == Ok((verb, uri, "HTTP/1.1")) <==> ' ' !in verb && ' ' !in uri
  {
    hide IsLine, PrintRequestLine;
    var line := PrintRequestLine(verb, uri);
    r := ParseLine(line);
    RequestLineRoundTrip(verb, uri);
    if ' ' !in verb && ' ' !in uri {
      ghost var tail :| IsLine(line, verb, uri, "HTTP/1.1", tail);
      ghost var tail' :| IsLine(line, r.value.0, r.value.1, r.value.2, tail');
      LineUnique(line, verb, uri, "HTTP/1.1", tail, r.value.0, r.value.1, r.value.2, tail');
    }
  }

  // Trimming.

  predicate IsSpace(c: char) {
    c == ' ' || c == '\t' || c == '\n' || c == '\r' || c == '\U{000B}' || c == '\U{000C}'
  }

  /** std::isspace in the C locale. */
  lemma SpacesAre(c: char)
    ensures IsSpace(c) <==> c as int == 32 || 9 <= c as int <= 13
  {
  }

  function Trimmed(s: string): string {
    if s == [] then s
    else if IsSpace(s[0]) then Trimmed(s[1..])
    else if IsSpace(s[|s| - 1]) then Trimmed(s[..|s| - 1])
    else s
  }

  method Trim(s: string) returns (r: string)
    ensures r == Trimmed(s)
  {
    var start, end := 0, |s|;
    assert s[start..end] == s;
    while start < end && IsSpace(s[start])
      invariant 0 <= start <= end == |s| && Trimmed(s[start..end]) == Trimmed(s)
    {
      assert s[start..end][1..] == s[start + 1..end];
      start := start + 1;
    }
    while end > start && IsSpace(s[end - 1])
      invariant start <= end <= |s| && Trimmed(s[start..end]) == Trimmed(s)
      invariant start < |s| ==> !IsSpace(s[start])
    {
      assert s[start..end][..end - start - 1] == s[start..end - 1];
      end := end - 1;
    }
    return s[start..end];
  }

  predicate IsTrimmed(s: string) {
    s == [] || (!IsSpace(s[0]) && !IsSpace(s[|s| - 1]))
  }

  lemma TrimmedIsTrimmed(s: string)
    ensures IsTrimmed(Trimmed(s))
    ensures IsTrimmed(s) ==> Trimmed(s) == s
  {
  }

  /** What is left is one piece, and only white space has been removed around it. */
  lemma {:induction false} TrimmedSpan(s: string) returns (i: nat, j: nat)
    ensures i <= j <= |s| && Trimmed(s) == s[i..j]
    ensures forall k :: 0 <= k < |s| && !IsSpace(s[k]) ==> i <= k < j
  {
    hide IsSpace;
    i, j := 0, |s|;
    if s != [] && IsSpace(s[0]) {
      i, j := TrimmedSpan(s[1..]);
      assert forall k :: 0 < k < |s| ==> s[1..][k - 1] == s[k];
      i, j := i + 1, j + 1;
    } else if s != [] && IsSpace(s[|s| - 1]) {
      i, j := TrimmedSpan(s[..|s| - 1]);
      assert forall k :: 0 <= k < |s| - 1 ==> s[..|s| - 1][k] == s[k];
    }
  }

  // The header block.

  type Header = (string, string)

  /** How many CRs and LFs a string begins with. */
  function EolCount(s: string): (n: nat)
    ensures n <= |s|
  {
    if s == [] || !EndsLine(s[0]) then 0 else 1 + EolCount(s[1..])
  }

  /** string_view::find of a colon; the length stands for npos. */
  function ColonAt(s: string): (c: nat)
    ensures c <= |s| && (c < |s| ==> s[c] == ':')
  {
    if s == [] || s[0] == ':' then 0 else 1 + ColonAt(s[1..])
  }

  /** string_view::substr. */
  function Substr(s: string, pos: nat, count: nat): string
    requires pos <= |s|
  {
    if count <= |s| - pos then s[pos..pos + count] else s[pos..]
  }

  const SIZE_RANGE: nat := 0x1_0000_0000_0000_0000

  /** `end - colon_pos - 1` in size_t: it wraps around when the colon lies behind the end of the line. */
  function ValueCount(end: nat, colon: nat): nat {
    (end - colon - 1) % SIZE_RANGE
  }

  /** What one round of the loop adds for the line that `s` begins with. */
  function FirstHeader(s: string): seq<Header> {
    var c := ColonAt(s);
    if c == |s| then []
    else [(Trimmed(s[..c]), Trimmed(Substr(s, c + 1, ValueCount(LineEnd(s), c))))]
  }

  function AfterLine(s: string): (n: nat)
    ensures n <= |s| && (s != [] ==> n > 0)
  {
    LineEnd(s) + EolCount(s[LineEnd(s)..])
  }

  /** The headers that parse_headers adds, in order, for any text at all. */
  function Headers(s: string): seq<Header>
    decreases |s|
  {
    if s == [] then [] else FirstHeader(s) + Headers(s[AfterLine(s)..])
  }

  /** The skip over the CRs and LFs at `from`. */
  method SkipEol(s: string, from: nat) returns (end: nat)
    requires from <= |s|
    ensures end == from + EolCount(s[from..])
  {
    end := from;
    while end < |s| && (s[end] == '\r' || s[end] == '\n')
      invariant from <= end <= |s|
      invariant from + EolCount(s[from..]) == end + EolCount(s[end..])
    {
      assert s[end..][1..] == s[end + 1..];
      end := end + 1;
    }
  }

  /** The key-value pair of the line from `start` to `end`, if there is a colon anywhere from `start` on. */
  method ParsePair(headers: string, start: nat, end: nat) returns (pair: seq<Header>)
    requires start <= |headers| && end == start + LineEnd(headers[start..])
    ensures pair == FirstHeader(headers[start..])
  {
    hide Trimmed, LineEnd, ColonAt, ValueCount, Substr;
    var colon := start + ColonAt(headers[start..]);
    if colon == |headers| {
      return [];
    }
    ShiftedCount(start, end, colon);
    var key := Trim(Substr(headers, start, colon - start));
    var value := Trim(Substr(headers, colon + 1, ValueCount(end, colon)));
    PrefixOfSuffix(headers, start, colon);
    SubstrOfSuffix(headers, start, colon + 1, ValueCount(end, colon));
    return [(key, value)];
  }

  method ParseHeaders(headers: string) returns (header: seq<Header>)
    requires |headers| < SIZE_RANGE
    ensures header == Headers(headers)
  {
    hide Headers, FirstHeader, LineEnd, EolCount, HasEol;
    header := [];
    var start, end := 0, 0;
    assert headers[0..] == headers;
    while end < |headers|
      invariant 0 <= start == end <= |headers|
      invariant Headers(headers) == header + Headers(headers[start..])
      decreases |headers| - end
    {
      ghost var s := headers[start..];
      HeadersUnfold(s);
      end := ScanLine(headers, end);
      var pair := ParsePair(headers, start, end);
      header := header + pair;
      SuffixOfSuffix(headers, start, end);
      end := SkipEol(headers, end);
      SuffixOfSuffix(headers, start, end);
      start := end;
    }
    assert headers[start..] == [];
    HeadersUnfold([]);
  }

  lemma SuffixOfSuffix(s: string, i: nat, j: nat)
    requires i <= j <= |s|
    ensures s[i..][j - i..] == s[j..] && s[i..][..j - i] == s[i..j]
  {
  }

  lemma HeadersUnfold(s: string)
    ensures Headers(s) == if s == [] then [] else FirstHeader(s) + Headers(s[AfterLine(s)..])
  {
  }

  lemma ShiftedCount(start: nat, end: nat, colon: nat)
    requires start <= end && start <= colon
    ensures ValueCount(end, colon) == ValueCount(end - start, colon - start)
  {
  }

  lemma PrefixOfSuffix(s: string, start: nat, end: nat)
    requires start <= end <= |s|
    ensures Substr(s, start, end - start) == s[start..][..end - start]
  {
  }

  lemma SubstrOfSuffix(s: string, start: nat, pos: nat, count: nat)
    requires start <= pos <= |s|
    ensures Substr(s[start..], pos - start, count) == Substr(s, pos, count)
  {
  }

  // What a block of lines means.

  /** The line that `s` begins with ends before its first CR or LF. */
  lemma {:induction false} LineEndIs(s: string)
    ensures !HasEol(s[..LineEnd(s)]) && (LineEnd(s) < |s| ==> EndsLine(s[LineEnd(s)]))
  {
    if s != [] && !EndsLine(s[0]) {
      LineEndIs(s[1..]);
      assert s[..LineEnd(s)] == [s[0]] + s[1..][..LineEnd(s[1..])];
    }
  }

  /** Key and value, whatever the text: what is before the first colon, and what is behind it up to the end of the
      line; up to the end of the text if the line has no colon, for then the colon is behind the line. */
  lemma FirstHeaderIs(s: string)
    requires |s| < SIZE_RANGE
    ensures var c, e := ColonAt(s), LineEnd(s);
      && (':' !in s[..c] && (':' in s ==> c < |s|))
      && FirstHeader(s) == if c == |s| then [] else [(Trimmed(s[..c]), Trimmed(s[c + 1..if c < e then e else |s|]))]
  {
    hide Trimmed, LineEnd, ColonAt, ValueCount, Substr, HasEol;
    var c, e := ColonAt(s), LineEnd(s);
    NoColonBefore(s);
    if c < |s| {
      LineEndIs(s);
      assert c != e;
      ValueIs(s, c, e);
    }
  }

  lemma ValueIs(s: string, c: nat, e: nat)
    requires c < |s| < SIZE_RANGE && e <= |s| && c != e
    ensures Substr(s, c + 1, ValueCount(e, c)) == s[c + 1..if c < e then e else |s|]
  {
    if c < e {
      assert ValueCount(e, c) == e - c - 1;
    } else {
      assert ValueCount(e, c) == SIZE_RANGE + e - c - 1;
    }
  }

  datatype Line = Line(key: string, value: string, eol: string)

  predicate ColonLine(l: Line) {
    && ':' !in l.key && !HasEol(l.key) && !HasEol(l.value)
    && forall i :: 0 <= i < |l.eol| ==> EndsLine(l.eol[i])
  }

  function Text(lines: seq<Line>): string {
    if lines == [] then [] else lines[0].key + ":" + lines[0].value + lines[0].eol + Text(lines[1..])
  }

  function Pairs(lines: seq<Line>): seq<Header> {
    if lines == [] then [] else [(Trimmed(lines[0].key), Trimmed(lines[0].value))] + Pairs(lines[1..])
  }

  lemma {:induction false} EolCountIs(eol: string, more: string)
    requires forall i :: 0 <= i < |eol| ==> EndsLine(eol[i])
    requires more == [] || !EndsLine(more[0])
    ensures EolCount(eol + more) == |eol|
  {
    if eol == [] {
      assert eol + more == more;
    } else {
      assert (eol + more)[1..] == eol[1..] + more;
      EolCountIs(eol[1..], more);
    }
  }

  /** One line with a colon, with any spaces around key and value or none, in front of its line end. */
  lemma LineMeaning(key: string, value: string, rest: string)
    requires ':' !in key && !HasEol(key) && !HasEol(value)
    requires rest == [] || EndsLine(rest[0])
    requires |key + ":" + value + rest| < SIZE_RANGE
    ensures FirstHeader(key + ":" + value + rest) == [(Trimmed(key), Trimmed(value))]
    ensures LineEnd(key + ":" + value + rest) == |key| + 1 + |value|
  {
    hide Trimmed, FirstHeader, LineEnd;
    var s, line := key + ":" + value + rest, key + ":" + value;
    assert s == line + rest && s == key + ":" + (value + rest);
    assert !HasEol(line);
    LineEndFirst(line, rest);
    ColonAtFirst(key, value + rest);
    FirstHeaderIs(s);
    assert s[..|key|] == key && s[|key| + 1..|line|] == value;
  }

  /** A block of lines with a colon each, with any line ends between them: their trimmed pairs, in order. */
  lemma {:induction false} BlockMeaning(lines: seq<Line>)
    requires forall l :: l in lines ==> ColonLine(l)
    requires forall i :: 0 <= i < |lines| - 1 ==> lines[i].eol != []
    requires |Text(lines)| < SIZE_RANGE
    ensures Headers(Text(lines)) == Pairs(lines)
  {
    hide Trimmed, FirstHeader, LineEnd, EolCount, HasEol, Headers;
    HeadersUnfold(Text(lines));
    if lines != [] {
      var l, more := lines[0], Text(lines[1..]);
      assert l in lines && ColonLine(l);
      var rest := l.eol + more;
      var s := Text(lines);
      assert s == l.key + ":" + l.value + rest;
      TextStart(lines[1..]);
      assert lines[1..] != [] ==> l.eol != [];
      LineMeaning(l.key, l.value, rest);
      EolCountIs(l.eol, more);
      var e := |l.key| + 1 + |l.value|;
      assert s[e..] == rest && s[e + |l.eol|..] == more;
      forall i | 0 <= i < |lines[1..]| - 1
        ensures lines[1..][i].eol != []
      {
        assert lines[1..][i] == lines[i + 1];
      }
      BlockMeaning(lines[1..]);
    }
  }

  lemma TextStart(lines: seq<Line>)
    requires forall l :: l in lines ==> ColonLine(l)
    ensures if lines == [] then Text(lines) == [] else Text(lines) != [] && !EndsLine(Text(lines)[0])
  {
    if lines != [] {
      assert lines[0] in lines && ColonLine(lines[0]);
      assert Text(lines)[0] == if lines[0].key == [] then ':' else lines[0].key[0];
    }
  }

  // The printer.

  function PrintHeader(h: Header): string {
    h.0 + ": " + h.1 + "\r\n"
  }

  function PrintHeaders(hs: seq<Header>): string {
    if hs == [] then "\r\n" else PrintHeader(hs[0]) + PrintHeaders(hs[1..])
  }

  predicate Printable(h: Header) {
    && ':' !in h.0 && !HasEol(h.0) && IsTrimmed(h.0)
    && !HasEol(h.1) && IsTrimmed(h.1)
  }

  lemma {:induction false} ColonAtFirst(key: string, more: string)
    requires ':' !in key
    ensures ColonAt(key + ":" + more) == |key|
  {
    if key != [] {
      assert (key + ":" + more)[1..] == key[1..] + ":" + more;
      ColonAtFirst(key[1..], more);
    }
  }

  /** A printed block goes on with a character other than CR and LF, or is the final CR LF. */
  lemma EolBeforeBlock(hs: seq<Header>)
    requires hs != [] ==> IsTrimmed(hs[0].0)
    ensures hs == [] ==> EolCount("\r\n" + PrintHeaders(hs)) == 4
    ensures hs != [] ==> EolCount("\r\n" + PrintHeaders(hs)) == 2
  {
    var block := PrintHeaders(hs);
    var s := "\r\n" + block;
    assert s[1..] == "\n" + block && s[1..][1..] == block;
    if hs != [] {
      assert block == PrintHeader(hs[0]) + PrintHeaders(hs[1..]);
      assert block[0] == if hs[0].0 == [] then ':' else hs[0].0[0];
      assert EolCount(block) == 0;
    } else {
      assert block[1..] == "\n" && block[1..][1..] == [];
      assert EolCount("\n") == 1;
      assert EolCount(block) == 2;
      assert EolCount("\n" + block) == 3;
    }
  }

  lemma TrimmedValue(v: string)
    requires IsTrimmed(v)
    ensures Trimmed(" " + v) == v
  {
    assert (" " + v)[1..] == v;
    TrimmedIsTrimmed(v);
  }

  lemma LineOfFirst(h: Header, block: string)
    requires !HasEol(h.0) && !HasEol(h.1)
    ensures LineEnd(PrintHeader(h) + block) == |h.0| + 2 + |h.1|
  {
    hide LineEnd;
    var line := h.0 + ": " + h.1;
    assert PrintHeader(h) + block == line + ("\r\n" + block);
    assert !HasEol(line);
    LineEndFirst(line, "\r\n" + block);
  }

  /** One printed header, read from the front of its block. */
  lemma FirstOfBlock(h: Header, block: string)
    requires Printable(h) && |PrintHeader(h)| < SIZE_RANGE
    ensures FirstHeader(PrintHeader(h) + block) == [h]
    ensures LineEnd(PrintHeader(h) + block) == |h.0| + 2 + |h.1|
  {
    hide LineEnd, HasEol, IsTrimmed, Trimmed;
    var s, c := PrintHeader(h) + block, |h.0|;
    LineOfFirst(h, block);
    assert s == h.0 + ":" + (" " + h.1 + "\r\n" + block);
    ColonAtFirst(h.0, " " + h.1 + "\r\n" + block);
    assert s[..c] == h.0;
    assert ValueCount(LineEnd(s), c) == |h.1| + 1;
    assert Substr(s, c + 1, |h.1| + 1) == " " + h.1;
    TrimmedValue(h.1);
    TrimmedIsTrimmed(h.0);
  }

  lemma BehindFirst(h: Header, rest: string)
    ensures var s, e := PrintHeader(h) + rest, |h.0| + 2 + |h.1|;
      |s| == e + 2 + |rest| && s[e..] == "\r\n" + rest && s[e + 2..] == rest && s[|s|..] == []
  {
  }

  /** A block whose first header is printable: that header, and what the rest of the block gives. */
  lemma PeelFirst(h: Header, hs: seq<Header>)
    requires Printable(h) && |PrintHeader(h)| < SIZE_RANGE
    requires hs != [] ==> IsTrimmed(hs[0].0)
    ensures Headers(PrintHeader(h) + PrintHeaders(hs)) == [h] + if hs == [] then [] else Headers(PrintHeaders(hs))
  {
    hide Trimmed, Printable, IsTrimmed, LineEnd, FirstHeader, EolCount;
    var rest := PrintHeaders(hs);
    var s := PrintHeader(h) + rest;
    HeadersUnfold(s);
    FirstOfBlock(h, rest);
    EolBeforeBlock(hs);
    BehindFirst(h, rest);
    assert hs == [] ==> rest == "\r\n";
    HeadersUnfold([]);
    hide PrintHeader, PrintHeaders, Headers;
    assert AfterLine(s) == if hs == [] then |s| else |s| - |rest|;
  }

  /** Parsing a printed header block gives the headers back, in the order they were printed in. */
  lemma {:induction false} HeadersRoundTrip(hs: seq<Header>)
    requires (forall h :: h in hs ==> Printable(h)) && |PrintHeaders(hs)| < SIZE_RANGE
    ensures Headers(PrintHeaders(hs)) == hs
  {
    hide Trimmed, LineEnd, FirstHeader, EolCount, Headers;
    if hs == [] {
      EmptyBlock();
    } else {
      assert Printable(hs[0]) && (hs[1..] != [] ==> Printable(hs[1]));
      PeelFirst(hs[0], hs[1..]);
      HeadersRoundTrip(hs[1..]);
      assert hs == [hs[0]] + hs[1..];
    }
  }

  lemma EmptyBlock()
    ensures Headers("\r\n") == []
  {
    assert "\r\n"[0..] == "\r\n" && "\r\n"[1..] == "\n" && "\n"[1..] == "";
    assert ColonAt("\r\n") == 2 && EolCount("\r\n") == 2;
    assert "\r\n"[2..] == [];
  }

  // What cannot come back.

  /** Every header that the parser adds, from any text. */
  predicate Parsable(h: Header) {
    ':' !in h.0 && IsTrimmed(h.0) && IsTrimmed(h.1)
  }

  lemma FirstIsParsable(s: string)
    ensures forall h :: h in FirstHeader(s) ==> Parsable(h)
  {
    hide Trimmed, IsTrimmed, LineEnd;
    var c := ColonAt(s);
    if c < |s| {
      NoColonBefore(s);
      var i, j := TrimmedSpan(s[..c]);
      TrimmedIsTrimmed(s[..c]);
      TrimmedIsTrimmed(Substr(s, c + 1, ValueCount(LineEnd(s), c)));
    }
  }

  lemma {:induction false} NoColonBefore(s: string)
    ensures ':' !in s[..ColonAt(s)]
    ensures ':' in s ==> ColonAt(s) < |s|
  {
    if s != [] && s[0] != ':' {
      NoColonBefore(s[1..]);
      assert s[..ColonAt(s)] == [s[0]] + s[1..][..ColonAt(s[1..])];
      assert s == [s[0]] + s[1..];
    }
  }

  lemma {:induction false} AllParsable(s: string)
    ensures forall h :: h in Headers(s) ==> Parsable(h)
    decreases |s|
  {
    hide Headers, FirstHeader, Parsable;
    HeadersUnfold(s);
    if s != [] {
      FirstIsParsable(s);
      AllParsable(s[AfterLine(s)..]);
    }
  }

  lemma {:induction false} LineEndBehind(a: string, b: string)
    ensures !HasEol(a) ==> LineEnd(a + b) == |a| + LineEnd(b)
    ensures HasEol(a) ==> LineEnd(a + b) == LineEnd(a) < |a|
  {
    if a == [] {
      assert a + b == b;
    } else {
      assert (a + b)[1..] == a[1..] + b;
      assert a == [a[0]] + a[1..];
      LineEndBehind(a[1..], b);
    }
  }

  lemma {:induction false} EolCountWithin(a: string, b: string)
    requires a != [] && !EndsLine(a[|a| - 1])
    ensures EolCount(a + b) < |a|
  {
    if EndsLine(a[0]) {
      assert (a + b)[1..] == a[1..] + b;
      EolCountWithin(a[1..], b);
    }
  }

  lemma PrintedHasColon(hs: seq<Header>)
    requires hs != []
    ensures ':' in PrintHeaders(hs)
  {
    assert PrintHeader(hs[0])[|hs[0].0|] == ':';
    assert PrintHeaders(hs)[|hs[0].0|] == ':';
  }

  /** White space at the end of a value is trimmed off again, but no further header is. */
  lemma ValueTooLong(v: string, more: string)
    requires IsTrimmed(v) && ':' in more
    ensures Trimmed(" " + v + "\r\n" + more) != v
  {
    var t := " " + v + "\r\n" + more;
    var q :| 0 <= q < |more| && more[q] == ':';
    var i, j := TrimmedSpan(t);
    assert t[|v| + 3 + q] == ':';
    if v != [] {
      assert t[1] == v[0];
    }
  }

  /** A line end in the key: the count of the value wraps around, and the text goes on to its end. */
  lemma BrokenKey(h: Header, block: string)
    requires Parsable(h) && HasEol(h.0) && |PrintHeader(h) + block| < SIZE_RANGE
    ensures var s := PrintHeader(h) + block;
      && FirstHeader(s) == [(h.0, Trimmed(" " + h.1 + "\r\n" + block))]
      && LineEnd(s) == LineEnd(h.0) < |h.0|
  {
    hide Trimmed, LineEnd;
    var s, c := PrintHeader(h) + block, |h.0|;
    var value := " " + h.1 + "\r\n" + block;
    assert s == h.0 + ":" + value && s == h.0 + (":" + value);
    LineEndBehind(h.0, ":" + value);
    ColonAtFirst(h.0, value);
    assert s[..c] == h.0 && s[c + 1..] == value;
    TrimmedIsTrimmed(h.0);
    assert ValueCount(LineEnd(s), c) == SIZE_RANGE + LineEnd(s) - c - 1;
  }

  /** Two lines at least in front of a colon. */
  lemma TwoLines(x: string, more: string)
    requires HasEol(x) && !EndsLine(x[|x| - 1]) && ':' in more
    ensures |Headers(x + more)| >= 2
  {
    hide Headers, FirstHeader, LineEnd, EolCount, HasEol;
    var t := x + more;
    LineEndBehind(x, more);
    var e := LineEnd(t);
    EndOfKey(x, e, more);
    EolCountWithin(x[e..], more);
    var n := AfterLine(t);
    EndOfKey(x, n, more);
    HeadersUnfold(t);
    ColonMeansHeader(t);
    HeadersUnfold(x[n..] + more);
    ColonMeansHeader(x[n..] + more);
  }

  /** Behind a broken key the parser finds the same colon once more. */
  lemma BrokenKeyAgain(h: Header, block: string)
    requires Parsable(h) && HasEol(h.0)
    ensures |Headers(PrintHeader(h) + block)| >= 2
  {
    hide Headers;
    var value := ": " + h.1 + "\r\n" + block;
    assert PrintHeader(h) + block == h.0 + value;
    assert value[0] == ':';
    TwoLines(h.0, value);
  }

  lemma EndOfKey(key: string, e: nat, value: string)
    requires e < |key|
    ensures (key + value)[e..] == key[e..] + value && key[e..][|key[e..]| - 1] == key[|key| - 1]
  {
  }

  lemma ColonMeansHeader(s: string)
    requires ':' in s
    ensures |FirstHeader(s)| == 1
  {
    hide Trimmed, LineEnd, ValueCount;
    NoColonBefore(s);
  }

  lemma LineOfBrokenValue(h: Header, block: string)
    requires !HasEol(h.0) && HasEol(h.1)
    ensures LineEnd(PrintHeader(h) + block) == |h.0| + 2 + LineEnd(h.1)
    ensures LineEnd(h.1) < |h.1|
  {
    hide LineEnd;
    var front, back := h.0 + ": ", h.1 + ("\r\n" + block);
    assert PrintHeader(h) + block == front + back;
    assert !HasEol(front);
    LineEndBehind(front, back);
    LineEndBehind(h.1, "\r\n" + block);
  }

  /** A line end in the value cuts it off. */
  lemma BrokenValue(h: Header, block: string)
    requires Parsable(h) && !HasEol(h.0) && HasEol(h.1) && |PrintHeader(h) + block| < SIZE_RANGE
    ensures |FirstHeader(PrintHeader(h) + block)| == 1 && FirstHeader(PrintHeader(h) + block)[0] != h
  {
    hide LineEnd, HasEol, IsTrimmed;
    var s, c, n := PrintHeader(h) + block, |h.0|, LineEnd(h.1);
    var back := h.1 + ("\r\n" + block);
    LineOfBrokenValue(h, block);
    assert s == h.0 + ":" + (" " + back);
    ColonAtFirst(h.0, " " + back);
    assert ValueCount(LineEnd(s), c) == n + 1;
    var value := Substr(s, c + 1, n + 1);
    assert value == " " + h.1[..n] && value[1..] == h.1[..n];
    assert Trimmed(value) == Trimmed(h.1[..n]);
    hide Trimmed;
    var i, j := TrimmedSpan(h.1[..n]);
  }

  lemma FirstMustBePrintable(h: Header, hs: seq<Header>)
    requires |PrintHeader(h) + PrintHeaders(hs)| < SIZE_RANGE
    requires Headers(PrintHeader(h) + PrintHeaders(hs)) == [h] + hs
    ensures Printable(h)
  {
    hide Headers, FirstHeader, Trimmed, LineEnd, EolCount, HasEol, IsTrimmed;
    var block := PrintHeaders(hs);
    var s := PrintHeader(h) + block;
    AllParsable(s);
    assert h in [h] + hs;
    HeadersUnfold(s);
    assert |FirstHeader(s)| >= 1 ==> FirstHeader(s)[0] == Headers(s)[0] == h;
    if HasEol(h.0) {
      BrokenKey(h, block);
      if hs == [] {
        BrokenKeyAgain(h, block);
      } else {
        PrintedHasColon(hs);
        ValueTooLong(h.1, block);
      }
    } else if HasEol(h.1) {
      BrokenValue(h, block);
    }
  }

  /** A printed header block reads back as what was printed if and only if every header is printable: no colon, CR
      or LF in its key, no CR or LF in its value, and both trimmed. */
  lemma {:induction false} HeadersRoundTripIff(hs: seq<Header>)
    requires |PrintHeaders(hs)| < SIZE_RANGE
    ensures Headers(PrintHeaders(hs)) == hs <==> forall h :: h in hs ==> Printable(h)
  {
    hide Headers, Printable, IsTrimmed;
    if forall h :: h in hs ==> Printable(h) {
      HeadersRoundTrip(hs);
    } else if Headers(PrintHeaders(hs)) == hs {
      var h, rest := hs[0], hs[1..];
      assert hs == [h] + rest;
      FirstMustBePrintable(h, rest);
      AllParsable(PrintHeaders(hs));
      if rest != [] {
        assert rest[0] in hs;
        ParsableKey(rest[0]);
      }
      PeelFirst(h, rest);
      assert rest == hs[1..];
      HeadersRoundTripIff(rest);
    }
  }

  lemma ParsableKey(h: Header)
    requires Parsable(h)
    ensures IsTrimmed(h.0)
  {
  }

  /** A key with a colon does not come back. */
  lemma ColonInKey()
    ensures Headers(PrintHeaders([("a:b", "c")])) != [("a:b", "c")]
  {
    assert PrintHeaders([("a:b", "c")]) == PrintHeader(("a:b", "c")) + "\r\n";
    HeadersRoundTripIff([("a:b", "c")]);
    assert !Printable(("a:b", "c")) by {
      assert "a:b"[1] == ':';
    }
    assert ("a:b", "c") in [("a:b", "c")];
  }

  // How many headers come back.

  /** Left-over text in front of a block is at least one line, and each of its lines finds a colon. */
  lemma {:induction false} LinesBefore(x: string, block: string)
    requires x != [] && !EndsLine(x[|x| - 1])
    requires ':' in block && !EndsLine(block[0])
    ensures |Headers(x + "\r\n" + block)| >= |Headers(block)| + if HasEol(x) then 2 else 1
    decreases |x|
  {
    hide Headers, FirstHeader, LineEnd, EolCount, HasEol;
    var more := "\r\n" + block;
    var t := x + more;
    assert x + "\r\n" + block == t;
    assert ':' in t;
    ColonMeansHeader(t);
    HeadersUnfold(t);
    if HasEol(x) {
      var e := LineEnd(t);
      LineEndBehind(x, more);
      EndOfKey(x, e, more);
      EolCountWithin(x[e..], more);
      var n := AfterLine(t);
      EndOfKey(x, n, more);
      assert x[n..] + "\r\n" + block == x[n..] + more;
      LinesBefore(x[n..], block);
    } else {
      LineEndFirst(x, more);
      assert t[|x|..] == more;
      TwoEols(block);
      assert t[|x| + 2..] == block;
    }
  }

  lemma TwoEols(block: string)
    requires block != [] && !EndsLine(block[0])
    ensures EolCount("\r\n" + block) == 2
  {
    assert ("\r\n" + block)[1..] == "\n" + block && ("\n" + block)[1..] == block;
    assert EolCount(block) == 0;
    assert EolCount("\n" + block) == 1;
  }

  /** A line end in a header that is not the last one makes too many headers. */
  lemma BrokenCount(h: Header, hs: seq<Header>)
    requires Parsable(h) && (HasEol(h.0) || HasEol(h.1)) && hs != [] && Parsable(hs[0])
    ensures |Headers(PrintHeader(h) + PrintHeaders(hs))| >= 2 + |Headers(PrintHeaders(hs))|
  {
    hide Headers;
    var x, block := h.0 + ": " + h.1, PrintHeaders(hs);
    PrintedHasColon(hs);
    assert block == PrintHeader(hs[0]) + PrintHeaders(hs[1..]);
    assert block[0] == if hs[0].0 == [] then ':' else hs[0].0[0];
    assert x[|x| - 1] == if h.1 == [] then ' ' else h.1[|h.1| - 1];
    assert HasEol(x);
    assert PrintHeader(h) + block == x + "\r\n" + block;
    LinesBefore(x, block);
  }

  /** At least as many headers come back as were printed, and if no more, then all but the last are the same. */
  lemma {:induction false} Counted(hs: seq<Header>)
    requires (forall h :: h in hs ==> Parsable(h)) && |PrintHeaders(hs)| < SIZE_RANGE
    ensures var got := Headers(PrintHeaders(hs));
      && |got| >= |hs|
      && (|got| == |hs| > 0 ==>
            && got[..|hs| - 1] == hs[..|hs| - 1]
            && (got[|hs| - 1] == hs[|hs| - 1] ==> forall h :: h in hs ==> Printable(h)))
  {
    hide Headers, PrintHeader, Printable, Parsable, HasEol;
    if hs != [] {
      var h, rest := hs[0], hs[1..];
      assert hs == [h] + rest && Parsable(h) && (rest != [] ==> rest[0] in hs);
      var got, tail := Headers(PrintHeaders(hs)), Headers(PrintHeaders(rest));
      Counted(rest);
      PrintableIff(h);
      if rest == [] {
        OnlyHeader(h);
      } else if Printable(h) {
        ParsableKey(rest[0]);
        PeelFirst(h, rest);
        assert got == [h] + tail;
      } else {
        BrokenCount(h, rest);
      }
    }
  }

  lemma PrintableIff(h: Header)
    ensures Printable(h) <==> Parsable(h) && !HasEol(h.0) && !HasEol(h.1)
    ensures |PrintHeader(h)| == |h.0| + |h.1| + 4
  {
    hide HasEol, IsTrimmed;
  }

  lemma OnlyHeader(h: Header)
    requires |PrintHeaders([h])| < SIZE_RANGE
    ensures |Headers(PrintHeaders([h]))| >= 1
    ensures Headers(PrintHeaders([h])) == [h] ==> Printable(h)
  {
    hide Headers, FirstHeader, LineEnd, EolCount;
    assert [h] == [h] + [] && [h][1..] == [];
    var s := PrintHeader(h) + PrintHeaders([]);
    assert PrintHeaders([h]) == s;
    PrintedHasColon([h]);
    ColonMeansHeader(s);
    HeadersUnfold(s);
    if Headers(s) == [h] {
      FirstMustBePrintable(h, []);
    }
  }

  /** The container that keeps the parsed headers is not ordered. Even so: what comes back is what was printed, in
      any order and with repetitions, if and only if every header is printable. */
  lemma HeadersMultisetIff(hs: seq<Header>)
    requires |PrintHeaders(hs)| < SIZE_RANGE
    ensures multiset(Headers(PrintHeaders(hs))) == multiset(hs) <==> forall h :: h in hs ==> Printable(h)
  {
    hide Headers, PrintHeaders, Printable, Parsable;
    var got := Headers(PrintHeaders(hs));
    if forall h :: h in hs ==> Printable(h) {
      HeadersRoundTrip(hs);
    } else if multiset(got) == multiset(hs) {
      AllParsable(PrintHeaders(hs));
      forall h | h in hs
        ensures Parsable(h)
      {
        assert h in multiset(got);
      }
      assert |got| == |multiset(got)| == |hs|;
      Counted(hs);
      LastIsLeft(got, hs);
    }
  }

  lemma LastIsLeft(a: seq<Header>, b: seq<Header>)
    requires |a| == |b| > 0 && multiset(a) == multiset(b) && a[..|a| - 1] == b[..|b| - 1]
    ensures a[|a| - 1] == b[|b| - 1]
  {
    var front := a[..|a| - 1];
    assert a == front + [a[|a| - 1]] && b == front + [b[|b| - 1]];
    assert multiset(a) == multiset(front) + multiset{a[|a| - 1]};
    assert multiset(b) == multiset(front) + multiset{b[|b| - 1]};
    assert multiset(a)[a[|a| - 1]] == multiset(front)[a[|a| - 1]] + 1;
  }

  /** The container hands its headers to the printer in any order; all of them come back, with repetitions. */
  lemma HeadersMultiset(headers: multiset<Header>, order: seq<Header>)
    requires multiset(order) == headers && (forall h :: h in order ==> Printable(h))
    requires |PrintHeaders(order)| < SIZE_RANGE
    ensures multiset(Headers(PrintHeaders(order))) == headers
  {
    hide Headers, PrintHeaders, Printable;
    HeadersRoundTrip(order);
  }
}
