/** Wall-clock strings. `startSession` renders the current hour and minute as
    a zero-padded "HH:MM" string and compares it with the timetable's
    "HH:MM" bounds using JavaScript's string comparison. This module models
    the rendering (`Number.prototype.toString` then `padStart(2, '0')`), the
    string order, and proves that on well-formed times the string order is
    the order of minutes since midnight. */
module Clock {

  predicate IsDigit(c: char) {
    '0' <= c <= '9'
  }

  predicate AllDigits(s: string) {
    forall i :: 0 <= i < |s| ==> IsDigit(s[i])
  }

  function DigitValue(c: char): nat
    requires IsDigit(c)
  {
    (c as int) - ('0' as int)
  }

  function DigitChar(d: nat): (c: char)
    requires d < 10
    ensures IsDigit(c) && DigitValue(c) == d
  {
    (('0' as int) + d) as char
  }

  /** Digit characters are ordered as the digits they stand for. */
  lemma DigitOrder(a: char, b: char)
    requires IsDigit(a) && IsDigit(b)
    ensures a < b <==> DigitValue(a) < DigitValue(b)
    ensures a == b <==> DigitValue(a) == DigitValue(b)
  {
  }

  /** The number a string of decimal digits denotes (most significant first). */
  function ParseDecimal(s: string): nat
    requires AllDigits(s)
  {
    if |s| == 0 then 0 else 10 * ParseDecimal(s[..|s| - 1]) + DigitValue(s[|s| - 1])
  }

  function Pow10(k: nat): (p: nat)
    ensures p >= 1
  {
    if k == 0 then 1 else 10 * Pow10(k - 1)
  }

  /** `n.toString()` for a non-negative integer: shortest decimal rendering. */
  function DecimalString(n: nat): (r: string)
    ensures 1 <= |r|
    ensures AllDigits(r)
    ensures ParseDecimal(r) == n
    ensures |r| > 1 ==> r[0] != '0'
    decreases n
  {
    if n < 10 then [DigitChar(n)]
    else
      var prefix := DecimalString(n / 10);
      var r := prefix + [DigitChar(n % 10)];
      assert r[..|r| - 1] == prefix;
      r
  }

  /** A number with k+1 digits renders to exactly k+1 characters. */
  lemma {:induction false} DecimalStringLength(n: nat, k: nat)
    requires Pow10(k) <= n < Pow10(k + 1)
    ensures |DecimalString(n)| == k + 1
    decreases k
  {
    if k == 0 {
      assert n < 10;
    } else {
      assert Pow10(k) == 10 * Pow10(k - 1);
      assert Pow10(k + 1) == 10 * Pow10(k);
      assert Pow10(k - 1) <= n / 10 < Pow10(k);
      DecimalStringLength(n / 10, k - 1);
    }
  }

  /** `String.prototype.padStart(width, pad)` with a one-character pad. */
  function PadStart(s: string, width: nat, pad: char): (r: string)
    ensures |r| == if |s| >= width then |s| else width
    ensures |s| <= |r| && r[|r| - |s|..] == s
    ensures forall i :: 0 <= i < |r| - |s| ==> r[i] == pad
  {
    if |s| >= width then s else seq(width - |s|, _ => pad) + s
  }

  /** The shape "DD:DD" without range checks on the numbers. */
  predicate ClockShape(s: string) {
    && |s| == 5
    && IsDigit(s[0]) && IsDigit(s[1])
    && s[2] == ':'
    && IsDigit(s[3]) && IsDigit(s[4])
  }

  function Hour(s: string): nat
    requires ClockShape(s)
  {
    10 * DigitValue(s[0]) + DigitValue(s[1])
  }

  function Minute(s: string): nat
    requires ClockShape(s)
  {
    10 * DigitValue(s[3]) + DigitValue(s[4])
  }

  /** A well-formed 24-hour "HH:MM" time. */
  predicate ValidTime(s: string) {
    ClockShape(s) && Hour(s) < 24 && Minute(s) < 60
  }

  /** Minutes since midnight denoted by a "HH:MM" string. */
  function MinuteOfDay(s: string): nat
    requires ClockShape(s)
  {
    60 * Hour(s) + Minute(s)
  }

  /** The time string `startSession` builds from `getHours()` (0..23) and
      `getMinutes()` (0..59): each part rendered and left-padded with '0' to
      two characters, joined by ':'. */
  function FormatTime(hour: nat, minute: nat): (r: string)
    requires hour < 24 && minute < 60
    ensures ValidTime(r)
    ensures Hour(r) == hour && Minute(r) == minute
    ensures MinuteOfDay(r) == 60 * hour + minute
  {
    var hh := PadStart(DecimalString(hour), 2, '0');
    var mm := PadStart(DecimalString(minute), 2, '0');
    PaddedDigits(hour);
    PaddedDigits(minute);
    var r := hh + ":" + mm;
    assert r[0] == hh[0] && r[1] == hh[1] && r[2] == ':' && r[3] == mm[0] && r[4] == mm[1];
    r
  }

  /** A number below 100, rendered and padded to two characters, reads back
      as its value. */
  lemma PaddedDigits(n: nat)
    requires n < 100
    ensures var p := PadStart(DecimalString(n), 2, '0');
      |p| == 2 && IsDigit(p[0]) && IsDigit(p[1]) && 10 * DigitValue(p[0]) + DigitValue(p[1]) == n
  {
    var q, d := n / 10, n % 10;
    assert n == 10 * q + d && q < 10 && d < 10;
    TwoDigits(q, d);
  }

  /** Reading a "HH:MM" string whose digits are `hq hd : mq md`. */
  lemma ClockValue(s: string, hq: nat, hd: nat, mq: nat, md: nat)
    requires hq < 10 && hd < 10 && mq < 10 && md < 10
    requires 10 * hq + hd < 24 && 10 * mq + md < 60
    requires |s| == 5 && s[2] == ':'
    requires s[0] == DigitChar(hq) && s[1] == DigitChar(hd) && s[3] == DigitChar(mq) && s[4] == DigitChar(md)
    ensures ValidTime(s) && Hour(s) == 10 * hq + hd && Minute(s) == 10 * mq + md
    ensures MinuteOfDay(s) == 60 * (10 * hq + hd) + 10 * mq + md
  {
  }

  /** Padding the rendering of a number below 100 to two characters gives
      its tens digit followed by its units digit. */
  lemma TwoDigits(q: nat, d: nat)
    requires q < 10 && d < 10
    ensures PadStart(DecimalString(10 * q + d), 2, '0') == [DigitChar(q), DigitChar(d)]
  {
    if q == 0 {
      OneDigit(d);
    } else {
      Tens(q, d);
    }
  }

  /** A single digit renders as itself. */
  lemma OneDigit(d: nat)
    requires d < 10
    ensures DecimalString(d) == [DigitChar(d)]
  {
  }

  /** A number from 10 to 99 renders as its tens digit then its units digit. */
  lemma Tens(q: nat, d: nat)
    requires 0 < q < 10 && d < 10
    ensures DecimalString(10 * q + d) == [DigitChar(q), DigitChar(d)]
  {
    assert (10 * q + d) / 10 == q && (10 * q + d) % 10 == d;
    OneDigit(q);
  }

  /** JavaScript's `a < b` on strings: the first differing element decides,
      and a proper prefix is smaller. JavaScript compares UTF-16 code units
      while a Dafny `char` is a code point; the two orders agree on the ASCII
      "HH:MM" strings compared here. */
  predicate LexLess(a: string, b: string)
    ensures LexLess(a, b) ==> a != b
    decreases |a|
  {
    if |a| == 0 then |b| > 0
    else if |b| == 0 then false
    else if a[0] != b[0] then a[0] < b[0]
    else LexLess(a[1..], b[1..])
  }

  /** On two "DD:DD" strings the string order compares the four digits in
      turn; the shared ':' never decides. */
  lemma ShapedLexLess(a: string, b: string)
    requires ClockShape(a) && ClockShape(b)
    ensures LexLess(a, b) <==>
      a[0] < b[0] || (a[0] == b[0] &&
      (a[1] < b[1] || (a[1] == b[1] &&
      (a[3] < b[3] || (a[3] == b[3] && a[4] < b[4])))))
  {
    var a1, b1 := a[1..], b[1..];
    var a2, b2 := a1[1..], b1[1..];
    var a3, b3 := a2[1..], b2[1..];
    var a4, b4 := a3[1..], b3[1..];
    var a5, b5 := a4[1..], b4[1..];
    assert a1[0] == a[1] && b1[0] == b[1];
    assert a2[0] == a[2] && b2[0] == b[2];
    assert a3[0] == a[3] && b3[0] == b[3];
    assert a4[0] == a[4] && b4[0] == b[4];
    assert |a5| == 0 && |b5| == 0;
    assert !LexLess(a5, b5);
    assert LexLess(a4, b4) <==> a[4] < b[4];
    assert LexLess(a3, b3) <==> a[3] < b[3] || (a[3] == b[3] && a[4] < b[4]);
    assert LexLess(a2, b2) <==> LexLess(a3, b3);
    assert LexLess(a1, b1) <==> a[1] < b[1] || (a[1] == b[1] && LexLess(a2, b2));
    assert LexLess(a, b) <==> a[0] < b[0] || (a[0] == b[0] && LexLess(a1, b1));
  }

  /** For well-formed times the string order is the order of the minutes
      they denote. */
  lemma {:induction false} TimeOrder(a: string, b: string)
    requires ValidTime(a) && ValidTime(b)
    ensures LexLess(a, b) <==> MinuteOfDay(a) < MinuteOfDay(b)
  {
    ShapedLexLess(a, b);
    DigitOrder(a[0], b[0]);
    DigitOrder(a[1], b[1]);
    DigitOrder(a[3], b[3]);
    DigitOrder(a[4], b[4]);
  }

  /** The timetable window test of `startSession`: the current time is at
      or after the start and at or before the end, both compared as strings,
      i.e. it is neither below the start nor above the end. On well-formed
      times this is the closed interval of minutes, inclusive at both ends. */
  predicate InWindow(now: string, start: string, end: string)
    ensures ValidTime(now) && ValidTime(start) && ValidTime(end) ==>
      (InWindow(now, start, end) <==> MinuteOfDay(start) <= MinuteOfDay(now) <= MinuteOfDay(end))
  {
    var r := !LexLess(now, start) && !LexLess(end, now);
    if ValidTime(now) && ValidTime(start) && ValidTime(end) then
      TimeOrder(now, start);
      TimeOrder(end, now);
      r
    else r
  }
}
