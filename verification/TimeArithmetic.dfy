/** Minute arithmetic and duration formatting of the time tracker
    (the pure half of timeUtils.js). */
module TimeArithmetic {

  import opened Wrappers

  const MsPerMinute: int := 60000
  const MinutesPerHour: int := 60

  /** Whole minutes in a millisecond count, rounded toward negative infinity
      as `Math.floor` does. Dafny's `/` by a positive divisor already rounds
      that way, also for negative counts. */
  function MsToMinutes(ms: int): (r: int)
    ensures r * MsPerMinute <= ms < (r + 1) * MsPerMinute
  {
    ms / MsPerMinute
  }

  /** Whole minutes elapsed between two millisecond timestamps. The result is
      not clamped: a clock that went backwards gives a negative span. */
  function MinuteSpan(startMs: int, endMs: int): (r: int)
    ensures r * MsPerMinute <= endMs - startMs < (r + 1) * MsPerMinute
    ensures r >= 0 <==> endMs >= startMs
    ensures startMs <= endMs < startMs + MsPerMinute ==> r == 0
  {
    MsToMinutes(endMs - startMs)
  }

  /** No time is no minutes, and a clock set back by a single millisecond
      already gives a whole negative minute. */
  lemma ClockRegression(t: int)
    ensures MinuteSpan(t, t) == 0
    ensures MinuteSpan(t + 1, t) == -1
  {
  }

  /** Cutting an interval at an inner point loses at most one whole minute:
      the sum of the two spans never exceeds the whole span and falls short
      of it by at most one. This bounds what a pause/resume cycle can drop. */
  lemma SplitSpan(a: int, b: int, c: int)
    ensures MinuteSpan(a, b) + MinuteSpan(b, c) <= MinuteSpan(a, c)
    ensures MinuteSpan(a, c) <= MinuteSpan(a, b) + MinuteSpan(b, c) + 1
  {
    var x, y, z := MinuteSpan(a, b), MinuteSpan(b, c), MinuteSpan(a, c);
    assert (x + y) * MsPerMinute <= c - a < (x + y + 2) * MsPerMinute;
  }

  /** A later end never yields fewer minutes. */
  lemma SpanMonotone(startMs: int, t1: int, t2: int)
    requires t1 <= t2
    ensures MinuteSpan(startMs, t1) <= MinuteSpan(startMs, t2)
  {
  }

  // ---------------------------------------------------------------------
  // Decimal digits

  predicate IsDigit(c: char) {
    '0' <= c <= '9'
  }

  predicate AllDigits(s: string) {
    forall i :: 0 <= i < |s| ==> IsDigit(s[i])
  }

  function DigitChar(d: nat): (c: char)
    requires d < 10
    ensures IsDigit(c) && c as int - '0' as int == d
  {
    ('0' as int + d) as char
  }

  /** The number a string of decimal digits denotes (most significant first;
      the empty string denotes zero). */
  function DigitsValue(s: string): nat
    requires AllDigits(s)
  {
    if s == [] then 0
    else DigitsValue(s[..|s| - 1]) * 10 + (s[|s| - 1] as int - '0' as int)
  }

  /** `String(n)` for a non-negative integer: its decimal digits, with no
      leading zero except for zero itself. */
  function DecimalString(n: nat): (r: string)
    ensures |r| >= 1 && AllDigits(r)
    ensures DigitsValue(r) == n
    ensures r[0] == '0' ==> r == "0"
    ensures n < 10 <==> |r| == 1
    ensures n < 100 ==> |r| <= 2
    decreases n
  {
    if n < 10 then [DigitChar(n)]
    else
      var hi := DecimalString(n / 10);
      var r := hi + [DigitChar(n % 10)];
      assert r[..|r| - 1] == hi;
      r
  }

  /** A leading zero does not change the value of a digit string. */
  lemma {:induction false} LeadingZero(s: string)
    requires AllDigits(s)
    ensures AllDigits("0" + s) && DigitsValue("0" + s) == DigitsValue(s)
  {
    if s != [] {
      var init := s[..|s| - 1];
      assert ("0" + s)[..|"0" + s| - 1] == "0" + init;
      LeadingZero(init);
    }
  }

  /** `padStart(2, '0')`: left-pads with zeros up to two characters. */
  function PadTwo(s: string): (r: string)
    ensures |r| == if |s| >= 2 then |s| else 2
    ensures r[|r| - |s|..] == s
    ensures forall i :: 0 <= i < |r| - |s| ==> r[i] == '0'
  {
    if |s| == 0 then "00"
    else if |s| == 1 then "0" + s
    else s
  }

  /** A zero-padded digit string keeps its value. */
  lemma PadTwoValue(s: string)
    requires AllDigits(s)
    ensures AllDigits(PadTwo(s)) && DigitsValue(PadTwo(s)) == DigitsValue(s)
  {
    if |s| == 0 {
      assert DigitsValue("00"[..1]) == 0;
    } else if |s| == 1 {
      LeadingZero(s);
    }
  }

  /** Renders a non-negative minute count as `HH:MM`. The hour field is at
      least two digits and unbounded (it may exceed 24); the minute field is
      exactly two digits and below 60; together they give back the count. */
  function FormatMinutes(totalMinutes: nat): (r: string)
    ensures |r| >= 5 && r[|r| - 3] == ':'
    ensures AllDigits(r[..|r| - 3]) && AllDigits(r[|r| - 2..])
    ensures DigitsValue(r[|r| - 2..]) < MinutesPerHour
    ensures DigitsValue(r[..|r| - 3]) * MinutesPerHour + DigitsValue(r[|r| - 2..]) == totalMinutes
    ensures |r| > 5 ==> r[0] != '0'
  {
    var h, m := totalMinutes / MinutesPerHour, totalMinutes % MinutesPerHour;
    PadTwoValue(DecimalString(h));
    PadTwoValue(DecimalString(m));
    SplitDisplay(PadTwo(DecimalString(h)), PadTwo(DecimalString(m)));
    PadTwo(DecimalString(h)) + ":" + PadTwo(DecimalString(m))
  }

  /** The hour and minute fields can be cut back out of a display. */
  lemma SplitDisplay(hours: string, minutes: string)
    requires |minutes| == 2
    ensures var r := hours + ":" + minutes;
      |r| == |hours| + 3 && r[..|r| - 3] == hours && r[|r| - 3] == ':' && r[|r| - 2..] == minutes
  {
    var r := hours + ":" + minutes;
    assert r[..|r| - 3] == hours;
    assert r[|r| - 2..] == minutes;
  }

  /** Reads an `HH:MM` display back into minutes; `None` when the text is
      not of that shape. */
  function ParseDisplay(text: string): (r: Option<nat>)
    ensures r.Some? ==> |text| >= 5 && text[|text| - 3] == ':'
  {
    if |text| >= 5 && text[|text| - 3] == ':'
       && AllDigits(text[..|text| - 3]) && AllDigits(text[|text| - 2..])
       && DigitsValue(text[|text| - 2..]) < MinutesPerHour
    then Some(DigitsValue(text[..|text| - 3]) * MinutesPerHour + DigitsValue(text[|text| - 2..]))
    else None
  }

  /** Formatting loses nothing: the display reads back as the same count. */
  lemma FormatRoundTrip(totalMinutes: nat)
    ensures ParseDisplay(FormatMinutes(totalMinutes)) == Some(totalMinutes)
  {
  }

  /** `65` renders as `01:05`. */
  lemma FormatSixtyFive()
    ensures FormatMinutes(65) == "01:05"
  {
    assert DecimalString(1) == "1" && DecimalString(5) == "5";
  }

  /** `0` renders as `00:00`. */
  lemma FormatZero()
    ensures FormatMinutes(0) == "00:00"
  {
    assert DecimalString(0) == "0";
  }

  /** The hour field is not wrapped at 24: `1505` renders as `25:05`. */
  lemma FormatPastOneDay()
    ensures FormatMinutes(1505) == "25:05"
  {
    assert DecimalString(2) == "2" && DecimalString(25) == "25";
    assert DecimalString(5) == "5";
  }
}
