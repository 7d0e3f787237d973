/** The timestamp of uvio/log.hpp: one buffer, of which only the milliseconds are rewritten while the second
    stays the same. */
module Timestamp {

  /** The fields of struct tm that are printed; localtime is a fixed function from seconds to these. */
  datatype Tm = Tm(sec: nat, min: nat, hour: nat, mday: nat, mon: nat, year: nat)

  /** The n lowest decimal digits of a number, highest first. */
  function Digits(num: nat, n: nat): (s: string)
    ensures |s| == n
    decreases n
  {
    if n == 0 then "" else Digits(num / 10, n - 1) + [DigitChar(num % 10)]
  }

  function DigitChar(d: nat): char
    requires d < 10
  {
    '0' + d as char
  }

  function Stamp(tm: Tm, ms: nat): (s: string)
    ensures |s| == 23
  {
    Date(tm) + "." + Digits(ms, 3)
  }

  function Date(tm: Tm): (s: string)
    ensures |s| == 19
  {
    Digits(tm.year + 1900, 4) + "-" + Digits(tm.mon + 1, 2) + "-" + Digits(tm.mday, 2) + " "
    + Digits(tm.hour, 2) + ":" + Digits(tm.min, 2) + ":" + Digits(tm.sec, 2)
  }

  /** What a time in milliseconds since the epoch should print as. */
  function Render(local: nat -> Tm, now: nat): string {
    Stamp(local(now / 1000), now % 1000)
  }

  lemma RenderIs(local: nat -> Tm, seconds: nat, ms: nat)
    requires ms < 1000
    ensures Render(local, 1000 * seconds + ms) == Stamp(local(seconds), ms)
  {
    hide Stamp;
    assert (1000 * seconds + ms) / 1000 == seconds && (1000 * seconds + ms) % 1000 == ms;
  }

  function Field(n: nat, c: char, num: nat): (s: string)
    ensures |s| == if n == 4 then n else n + 1
  {
    (if n == 4 then "" else [c]) + Digits(num, n)
  }

  lemma DigitsStep(num: nat, n: nat)
    requires n > 0
    ensures Digits(num, n) == Digits(num / 10, n - 1) + [DigitChar(num % 10)]
  {
  }

  /** The loop of to_int: n digits in front of `size`. What has been written from there up to `end` stays. */
  method WriteDigits(n: nat, num: nat, p: array<char>, size: nat, ghost end: nat) returns (front: nat)
    requires n <= size <= end <= p.Length
    modifies p
    ensures front == size - n
    ensures p[front..end] == Digits(num, n) + old(p[size..end])
    ensures p[..front] == old(p[..front]) && p[end..] == old(p[end..])
  {
    hide Digits, DigitChar;
    front := size;
    var rest := num;
    ghost var goal := Digits(num, n) + p[size..end];
    for i := 0 to n
      invariant front == size - i
      invariant goal == Digits(rest, n - i) + p[front..end]
      invariant p[..front] == old(p[..front]) && p[end..] == old(p[end..])
    {
      DigitsStep(rest, n - i);
      ghost var tail := p[front..end];
      front := front - 1;
      p[front] := DigitChar(rest % 10);
      assert p[front..end] == [DigitChar(rest % 10)] + tail;
      rest := rest / 10;
    }
    assert Digits(rest, 0) == [];
  }

  /** to_int<N, c>: N digits, and c before them unless N is 4. */
  method ToInt(n: nat, c: char, num: nat, p: array<char>, size: nat, ghost end: nat) returns (front: nat)
    requires |Field(n, c, num)| <= size <= end <= p.Length
    modifies p
    ensures front == size - |Field(n, c, num)|
    ensures p[front..end] == Field(n, c, num) + old(p[size..end])
    ensures p[..front] == old(p[..front]) && p[end..] == old(p[end..])
  {
    hide Digits;
    ghost var written := p[size..end];
    front := WriteDigits(n, num, p, size, end);
    if n != 4 {
      front := front - 1;
      p[front] := c;
      assert p[front..end] == [c] + (Digits(num, n) + written);
    }
  }

  class Clock {
    const local: nat -> Tm
    const buf: array<char>
    var lastSecond: nat
    ghost var dated: bool  // whether the date has ever been written

    ghost predicate Valid()
      reads this, buf
    {
      && buf.Length == 33
      && (dated ==> buf[..19] == Date(local(lastSecond)))
      && (!dated ==> lastSecond == 0 && buf[0] == '\0')
    }

    constructor (local: nat -> Tm)
      ensures Valid() && !dated && fresh(buf) && this.local == local
    {
      this.local := local;
      buf := new char[33](_ => '\0');
      lastSecond := 0;
      dated := false;
    }

    /** Date and time, right to left. */
    method WriteDate(tm: Tm)
      requires buf.Length == 33
      modifies buf
      ensures buf[..19] == Date(tm) && buf[19..] == old(buf[19..])
    {
      hide Field, Digits;
      var size := ToInt(2, ':', tm.sec, buf, 19, 19);
      size := ToInt(2, ':', tm.min, buf, size, 19);
      size := ToInt(2, ' ', tm.hour, buf, size, 19);
      size := ToInt(2, '-', tm.mday, buf, size, 19);
      size := ToInt(2, '-', tm.mon + 1, buf, size, 19);
      size := ToInt(4, ' ', tm.year + 1900, buf, size, 19);
      DateIsFields(tm);
      assert buf[..19] == buf[size..19];
    }

    /** The buffer after the call is the full rendering of the time, except for as long as the clock has not
        left the first second of the epoch, for which the cache takes the date as already written. */
    method GetTimestamp(now: nat)
      requires Valid()
      modifies this`lastSecond, this`dated, buf
      ensures Valid() && dated == (old(dated) || now / 1000 != 0)
      ensures buf[..23] == Render(local, now) <==> old(dated) || now / 1000 != 0
    {
      hide Date, Digits;
      var seconds, milliseconds := now / 1000, now % 1000;
      RenderStart(local, now);
      var size := 23;
      if lastSecond == seconds {
        size := ToInt(3, '.', milliseconds, buf, size, 23);
        assert buf[..19] == old(buf[..19]);
        assert buf[..23] == buf[..19] + buf[19..23];
        return;
      }
      lastSecond := seconds;
      dated := true;
      size := ToInt(3, '.', milliseconds, buf, size, 23);
      ghost var fraction := buf[19..23];
      WriteDate(local(seconds));
      assert buf[19..23] == buf[19..][..4] == fraction;
      assert buf[..23] == buf[..19] + buf[19..23];
    }
  }

  lemma DateIsFields(tm: Tm)
    ensures Date(tm) ==
      Field(4, ' ', tm.year + 1900) + (Field(2, '-', tm.mon + 1) + (Field(2, '-', tm.mday) + (Field(2, ' ', tm.hour)
      + (Field(2, ':', tm.min) + (Field(2, ':', tm.sec) + [])))))
  {
    hide Digits;
  }

  lemma RenderStart(local: nat -> Tm, now: nat)
    ensures Render(local, now)[0] != '\0'
    ensures Render(local, now) == Date(local(now / 1000)) + (Field(3, '.', now % 1000) + [])
  {
    hide Digits;
    DateStart(local(now / 1000));
    hide Date;
  }

  lemma DateStart(tm: Tm)
    ensures Date(tm)[0] != '\0'
  {
    hide Digits;
    ReadBackIff(tm.year + 1900, 4);
  }

  /** Any calls at any times, forwards or backwards: a stamp is the full rendering of its own time exactly when
      the clock has left the first second of the epoch in this call or an earlier one. */
  method Run(local: nat -> Tm, times: seq<nat>) returns (stamps: seq<string>)
    ensures |stamps| == |times|
    ensures forall i :: 0 <= i < |times| ==> (stamps[i] == Render(local, times[i]) <==> LeftFirstSecond(times[..i + 1]))
  {
    hide Render, LeftFirstSecond;
    NoTimes();
    var clock := new Clock(local);
    stamps := [];
    assert times[..0] == [];
    for i := 0 to |times|
      invariant clock.Valid() && |stamps| == i && clock.local == local && fresh(clock) && fresh(clock.buf)
      invariant clock.dated == LeftFirstSecond(times[..i])
      invariant forall k :: 0 <= k < i ==> (stamps[k] == Render(local, times[k]) <==> LeftFirstSecond(times[..k + 1]))
    {
      OneMoreTime(times, i);
      clock.GetTimestamp(times[i]);
      stamps := stamps + [clock.buf[..23]];
    }
  }

  ghost predicate LeftFirstSecond(times: seq<nat>) {
    exists j :: 0 <= j < |times| && times[j] >= 1000
  }

  lemma NoTimes()
    ensures !LeftFirstSecond([])
  {
  }

  lemma OneMoreTime(times: seq<nat>, i: nat)
    requires i < |times|
    ensures LeftFirstSecond(times[..i + 1]) <==> LeftFirstSecond(times[..i]) || times[i] >= 1000
  {
    assert times[..i + 1] == times[..i] + [times[i]];
    if LeftFirstSecond(times[..i]) {
      var j :| 0 <= j < i && times[..i][j] >= 1000;
      assert times[..i + 1][j] >= 1000;
    }
    assert times[..i + 1][i] == times[i];
  }

  // What the digits say.

  function Power10(n: nat): (p: nat)
    ensures p > 0
  {
    if n == 0 then 1 else 10 * Power10(n - 1)
  }

  predicate AllDigits(s: string) {
    forall i :: 0 <= i < |s| ==> '0' <= s[i] <= '9'
  }

  function Number(s: string): nat
    requires AllDigits(s)
  {
    if s == [] then 0 else 10 * Number(s[..|s| - 1]) + (s[|s| - 1] - '0') as nat
  }

  /** n digits are read back as the number they were written for exactly when it has no more than n digits. The
      date says the year exactly up to the year 9999. */
  lemma {:induction false} ReadBackIff(num: nat, n: nat)
    ensures AllDigits(Digits(num, n))
    ensures Number(Digits(num, n)) == num <==> num < Power10(n)
    ensures Number(Digits(num, n)) < Power10(n)
    decreases n
  {
    if n == 0 {
      NoDigits(num);
    } else {
      hide Digits, Number, AllDigits;
      ReadBackIff(num / 10, n - 1);
      var front := Digits(num / 10, n - 1);
      DigitsStep(num, n);
      OneMoreDigit(front, num % 10);
      TenTimes(num, Number(front), Power10(n - 1));
    }
  }

  lemma NoDigits(num: nat)
    ensures AllDigits(Digits(num, 0)) && Number(Digits(num, 0)) == 0
  {
  }

  lemma OneMoreDigit(front: string, d: nat)
    requires AllDigits(front) && d < 10
    ensures AllDigits(front + [DigitChar(d)]) && Number(front + [DigitChar(d)]) == 10 * Number(front) + d
  {
    assert (front + [DigitChar(d)])[..|front|] == front;
  }

  lemma TenTimes(num: nat, front: nat, p: nat)
    ensures 10 * front + num % 10 == num <==> front == num / 10
    ensures num < 10 * p <==> num / 10 < p
    ensures front < p ==> 10 * front + num % 10 < 10 * p
  {
  }

  predicate InRange(tm: Tm, ms: nat) {
    && tm.year + 1900 < 10000 && tm.mon + 1 < 100 && tm.mday < 100
    && tm.hour < 100 && tm.min < 100 && tm.sec < 100 && ms < 1000
  }

  /** Where what stands in a stamp, and that each field is there as a number: year, month, day, hour, minute, second
      and millisecond. */
  lemma StampLayout(tm: Tm, ms: nat)
    requires InRange(tm, ms)
    ensures var s := Stamp(tm, ms);
      && s[4] == s[7] == '-' && s[10] == ' ' && s[13] == s[16] == ':' && s[19] == '.'
      && Says(s[0..4], tm.year + 1900) && Says(s[5..7], tm.mon + 1) && Says(s[8..10], tm.mday)
      && Says(s[11..13], tm.hour) && Says(s[14..16], tm.min) && Says(s[17..19], tm.sec) && Says(s[20..23], ms)
  {
    hide Digits, Number, AllDigits, Says;
    Powers();
    DigitsSay(tm.year + 1900, 4);
    DigitsSay(tm.mon + 1, 2);
    DigitsSay(tm.mday, 2);
    DigitsSay(tm.hour, 2);
    DigitsSay(tm.min, 2);
    DigitsSay(tm.sec, 2);
    DigitsSay(ms, 3);
    StampParts(tm, ms);
  }

  predicate Says(s: string, num: nat) {
    AllDigits(s) && Number(s) == num
  }

  lemma DigitsSay(num: nat, n: nat)
    requires num < Power10(n)
    ensures Says(Digits(num, n), num)
  {
    ReadBackIff(num, n);
  }

  lemma Powers()
    ensures Power10(2) == 100 && Power10(3) == 1000 && Power10(4) == 10000
  {
  }

  lemma StampParts(tm: Tm, ms: nat)
    ensures var s := Stamp(tm, ms);
      && s[4] == s[7] == '-' && s[10] == ' ' && s[13] == s[16] == ':' && s[19] == '.'
      && s[0..4] == Digits(tm.year + 1900, 4) && s[5..7] == Digits(tm.mon + 1, 2) && s[8..10] == Digits(tm.mday, 2)
      && s[11..13] == Digits(tm.hour, 2) && s[14..16] == Digits(tm.min, 2) && s[17..19] == Digits(tm.sec, 2)
      && s[20..23] == Digits(ms, 3)
  {
    hide Digits;
    DateParts(tm);
    var d, s := Date(tm), Stamp(tm, ms);
    hide Date;
    assert s[..19] == d;
    assert forall i, j :: 0 <= i <= j <= 19 ==> s[i..j] == d[i..j];
  }

  lemma DateParts(tm: Tm)
    ensures var d := Date(tm);
      && d[4] == d[7] == '-' && d[10] == ' ' && d[13] == d[16] == ':'
      && d[0..4] == Digits(tm.year + 1900, 4) && d[5..7] == Digits(tm.mon + 1, 2) && d[8..10] == Digits(tm.mday, 2)
      && d[11..13] == Digits(tm.hour, 2) && d[14..16] == Digits(tm.min, 2) && d[17..19] == Digits(tm.sec, 2)
  {
    hide Digits;
  }
}
