/**
 * ISO 8601 renderings as Python's `isoformat()` writes them: a date in
 * extended calendar format `YYYY-MM-DD` (section 4.1.2.2 of ISO 8601:2004)
 * and a naive timestamp `YYYY-MM-DDTHH:MM:SS`, followed by `.ffffff` only
 * when the microsecond is not zero. Each rendering is paired with a parser
 * that recovers the value, which shows the rendering loses nothing.
 */
module Iso {
  import opened Wrappers
  import opened Calendar

  predicate IsDigit(c: char) {
    '0' <= c <= '9'
  }

  /** The last decimal digit of `n`. */
  function LastDigit(n: int): (c: char)
    ensures IsDigit(c) && c as int - '0' as int == n % 10
  {
    (n % 10 + '0' as int) as char
  }

  function DigitValue(c: char): int {
    c as int - '0' as int
  }

  /** `%02d`, `%04d` and `%06d`: the low digits of `n`, zero-padded. */
  function Pad2(n: int): (s: string)
    ensures |s| == 2
  {
    [LastDigit(n / 10), LastDigit(n)]
  }

  function Pad4(n: int): (s: string)
    ensures |s| == 4
  {
    [LastDigit(n / 1000), LastDigit(n / 100), LastDigit(n / 10), LastDigit(n)]
  }

  function Pad6(n: int): (s: string)
    ensures |s| == 6
  {
    [LastDigit(n / 100000), LastDigit(n / 10000), LastDigit(n / 1000),
     LastDigit(n / 100), LastDigit(n / 10), LastDigit(n)]
  }

  predicate AllDigits(s: string) {
    forall i :: 0 <= i < |s| ==> IsDigit(s[i])
  }

  /** The number a string of decimal digits denotes. */
  function DigitsValue(s: string): (n: int)
    decreases |s|
  {
    if s == [] then 0
    else DigitsValue(s[..|s| - 1]) * 10 + DigitValue(s[|s| - 1])
  }

  /** Appending a digit multiplies the value so far by ten and adds the digit. */
  lemma DigitsSnoc(s: string, c: char)
    requires AllDigits(s) && IsDigit(c)
    ensures AllDigits(s + [c]) && DigitsValue(s + [c]) == DigitsValue(s) * 10 + DigitValue(c)
  {
    assert (s + [c])[..|s|] == s;
  }

  /** Dropping one more decimal digit is dividing the quotient by ten again. */
  lemma DivTenAgain(n: int)
    requires n >= 0
    ensures n / 100 == n / 10 / 10 && n / 1000 == n / 100 / 10
    ensures n / 10000 == n / 1000 / 10 && n / 100000 == n / 10000 / 10
  {
  }

  /** The value of `s + [LastDigit(x)]` when `s` denotes `x / 10`. */
  lemma NextDigit(s: string, x: int)
    requires x >= 0 && AllDigits(s) && DigitsValue(s) == x / 10
    ensures AllDigits(s + [LastDigit(x)]) && DigitsValue(s + [LastDigit(x)]) == x
  {
    DigitsSnoc(s, LastDigit(x));
  }

  lemma Pad2RoundTrip(n: int)
    requires 0 <= n < 100
    ensures AllDigits(Pad2(n)) && DigitsValue(Pad2(n)) == n
  {
    NextDigit([], n / 10);
    NextDigit([LastDigit(n / 10)], n);
    assert [] + [LastDigit(n / 10)] == [LastDigit(n / 10)];
    assert [LastDigit(n / 10)] + [LastDigit(n)] == Pad2(n);
  }

  lemma Pad4RoundTrip(n: int)
    requires 0 <= n < 10000
    ensures AllDigits(Pad4(n)) && DigitsValue(Pad4(n)) == n
  {
    DivTenAgain(n);
    var a, b, c := LastDigit(n / 1000), LastDigit(n / 100), LastDigit(n / 10);
    NextDigit([], n / 1000);
    NextDigit([a], n / 100);
    assert [] + [a] == [a] && [a] + [b] == [a, b];
    NextDigit([a, b], n / 10);
    assert [a, b] + [c] == [a, b, c];
    NextDigit([a, b, c], n);
    assert [a, b, c] + [LastDigit(n)] == Pad4(n);
  }

  lemma Pad6RoundTrip(n: int)
    requires 0 <= n < 1000000
    ensures AllDigits(Pad6(n)) && DigitsValue(Pad6(n)) == n
  {
    DivTenAgain(n);
    var a, b, c := LastDigit(n / 100000), LastDigit(n / 10000), LastDigit(n / 1000);
    var d, e := LastDigit(n / 100), LastDigit(n / 10);
    NextDigit([], n / 100000);
    NextDigit([a], n / 10000);
    assert [] + [a] == [a] && [a] + [b] == [a, b];
    NextDigit([a, b], n / 1000);
    assert [a, b] + [c] == [a, b, c];
    NextDigit([a, b, c], n / 100);
    assert [a, b, c] + [d] == [a, b, c, d];
    NextDigit([a, b, c, d], n / 10);
    assert [a, b, c, d] + [e] == [a, b, c, d, e];
    NextDigit([a, b, c, d, e], n);
    assert [a, b, c, d, e] + [LastDigit(n)] == Pad6(n);
  }

  /** `date.isoformat()`: `%04d-%02d-%02d` of year, month and day. */
  function IsoDate(d: Date): (s: string)
    ensures |s| == 10 && s[4] == '-' && s[7] == '-'
    ensures s[..4] == Pad4(d.year) && s[5..7] == Pad2(d.month) && s[8..] == Pad2(d.day)
  {
    [LastDigit(d.year / 1000), LastDigit(d.year / 100), LastDigit(d.year / 10), LastDigit(d.year), '-',
     LastDigit(d.month / 10), LastDigit(d.month), '-',
     LastDigit(d.day / 10), LastDigit(d.day)]
  }

  /** Reads back a `YYYY-MM-DD` string; None for anything else. */
  function ParseIsoDate(s: string): (r: Option<Date>)
    ensures r.Some? ==> ValidDate(r.value)
  {
    if |s| == 10 && s[4] == '-' && s[7] == '-'
       && AllDigits(s[..4]) && AllDigits(s[5..7]) && AllDigits(s[8..])
    then
      var d := Date(DigitsValue(s[..4]), DigitsValue(s[5..7]), DigitsValue(s[8..]));
      if ValidDate(d) then Some(d) else None
    else None
  }

  lemma IsoDateRoundTrip(d: Date)
    requires ValidDate(d)
    ensures ParseIsoDate(IsoDate(d)) == Some(d)
  {
    Pad4RoundTrip(d.year);
    Pad2RoundTrip(d.month);
    Pad2RoundTrip(d.day);
  }

  /** Distinct dates have distinct renderings. */
  lemma IsoDateInjective(a: Date, b: Date)
    requires ValidDate(a) && ValidDate(b) && IsoDate(a) == IsoDate(b)
    ensures a == b
  {
    IsoDateRoundTrip(a);
    IsoDateRoundTrip(b);
  }

  /** `time.isoformat()`: `HH:MM:SS`, with `.ffffff` only for a non-zero microsecond. */
  function IsoTime(t: Time): (s: string)
    ensures |s| == (if t.microsecond == 0 then 8 else 15)
    ensures s[..2] == Pad2(t.hour) && s[2] == ':' && s[3..5] == Pad2(t.minute)
    ensures s[5] == ':' && s[6..8] == Pad2(t.second)
    ensures t.microsecond != 0 ==> s[8] == '.' && s[9..] == Pad6(t.microsecond)
  {
    Pad2(t.hour) + ":" + Pad2(t.minute) + ":" + Pad2(t.second)
    + (if t.microsecond == 0 then "" else "." + Pad6(t.microsecond))
  }

  /** `datetime.isoformat()` with its default separator 'T'. */
  function IsoDateTime(dt: DateTime): (s: string)
    ensures |s| == (if dt.time.microsecond == 0 then 19 else 26)
    ensures s[..10] == IsoDate(dt.date) && s[10] == 'T' && s[11..] == IsoTime(dt.time)
  {
    IsoDate(dt.date) + "T" + IsoTime(dt.time)
  }

  /** Reads back either shape `time.isoformat()` writes; None for anything else. */
  function ParseIsoTime(s: string): (r: Option<Time>)
    ensures r.Some? ==> ValidTime(r.value)
  {
    if (|s| == 8 || (|s| == 15 && s[8] == '.' && AllDigits(s[9..])))
       && s[2] == ':' && s[5] == ':'
       && AllDigits(s[..2]) && AllDigits(s[3..5]) && AllDigits(s[6..8])
    then
      var t := Time(DigitsValue(s[..2]), DigitsValue(s[3..5]), DigitsValue(s[6..8]),
                    if |s| == 8 then 0 else DigitsValue(s[9..]));
      if ValidTime(t) && (|s| == 15 <==> t.microsecond != 0) then Some(t) else None
    else None
  }

  function ParseIsoDateTime(s: string): (r: Option<DateTime>)
    ensures r.Some? ==> ValidDateTime(r.value)
  {
    if |s| >= 11 && s[10] == 'T' then
      match (ParseIsoDate(s[..10]), ParseIsoTime(s[11..]))
      case (Some(d), Some(t)) => Some(DateTime(d, t))
      case _ => None
    else None
  }

  lemma IsoTimeRoundTrip(t: Time)
    requires ValidTime(t)
    ensures ParseIsoTime(IsoTime(t)) == Some(t)
  {
    var s := IsoTime(t);
    assert s[..2] == Pad2(t.hour);
    assert s[3..5] == Pad2(t.minute);
    assert s[6..8] == Pad2(t.second);
    Pad2RoundTrip(t.hour);
    Pad2RoundTrip(t.minute);
    Pad2RoundTrip(t.second);
    if t.microsecond != 0 {
      assert s[9..] == Pad6(t.microsecond);
      Pad6RoundTrip(t.microsecond);
    }
  }

  lemma IsoDateTimeRoundTrip(dt: DateTime)
    requires ValidDateTime(dt)
    ensures ParseIsoDateTime(IsoDateTime(dt)) == Some(dt)
  {
    var s := IsoDateTime(dt);
    assert s[11..] == IsoTime(dt.time);
    IsoDateRoundTrip(dt.date);
    IsoTimeRoundTrip(dt.time);
  }
}
