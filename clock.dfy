/**
 * Times of day written "HH:MM" or "HH:MM:SS", as core.py reads them with
 * `datetime.strptime(s, fmt)` and writes them with `strftime(fmt)`, where
 * `fmt` is "%H:%M:%S" when `s.split(':')` has three parts and "%H:%M"
 * otherwise. A time of day is a number of seconds since midnight; adding to
 * it wraps at midnight because only the time part is ever written back.
 */
module Clock {
  import opened Wrappers
  import opened Text

  const SecondsPerDay: nat := 86400

  /** The two layouts: "%H:%M" and "%H:%M:%S". */
  datatype Layout = HourMinute | HourMinuteSecond

  function CountChar(s: string, c: char): (n: nat)
    ensures n <= |s|
  {
    if s == [] then 0 else (if s[0] == c then 1 else 0) + CountChar(s[1..], c)
  }

  lemma {:induction false} CountCharConcat(a: string, b: string, c: char)
    ensures CountChar(a + b, c) == CountChar(a, c) + CountChar(b, c)
  {
    if a != [] {
      assert (a + b)[1..] == a[1..] + b;
      CountCharConcat(a[1..], b, c);
    } else {
      assert a + b == b;
    }
  }

  /** A string with exactly two colons splits into three parts and is read with seconds. */
  function LayoutOf(s: string): Layout {
    if CountChar(s, ':') == 2 then HourMinuteSecond else HourMinute
  }

  predicate TwoDigitsAt(s: string, i: nat) {
    i + 2 <= |s| && IsDigit(s[i]) && IsDigit(s[i + 1])
  }

  function TwoDigitValue(s: string, i: nat): (n: nat)
    requires TwoDigitsAt(s, i)
    ensures n < 100
  {
    10 * DigitValue(s[i]) + DigitValue(s[i + 1])
  }

  /** Two digits, a colon and two digits, starting at `i` (the pattern `\d{2}:\d{2}`). */
  predicate HourMinuteShapeAt(s: string, i: nat) {
    TwoDigitsAt(s, i) && i + 2 < |s| && s[i + 2] == ':' && TwoDigitsAt(s, i + 3)
  }

  lemma ShapeAtSlice(s: string, j: nat)
    requires HourMinuteShapeAt(s, j)
    ensures HourMinuteShapeAt(s[j..j + 5], 0)
  {
  }

  /**
   * `strptime` with a given layout, for zero-padded two-digit fields: the
   * string must be exactly the layout's shape, with an hour below 24, a minute
   * below 60 and a second below 60. The result is the second of the day.
   */
  function Parse(s: string, layout: Layout): (r: Option<nat>)
    ensures r.Some? ==> r.value < SecondsPerDay
    ensures r.Some? ==> |s| == (if layout == HourMinute then 5 else 8) && HourMinuteShapeAt(s, 0)
    ensures r.Some? && layout == HourMinute ==> r.value % 60 == 0
  {
    if !(|s| >= 5 && HourMinuteShapeAt(s, 0)) then None
    else
      var h, m := TwoDigitValue(s, 0), TwoDigitValue(s, 3);
      if h >= 24 || m >= 60 then None
      else match layout
        case HourMinute =>
          if |s| == 5 then Some(h * 3600 + m * 60) else None
        case HourMinuteSecond =>
          if |s| == 8 && s[5] == ':' && TwoDigitsAt(s, 6) && TwoDigitValue(s, 6) < 60
          then Some(h * 3600 + m * 60 + TwoDigitValue(s, 6))
          else None
  }

  /** `datetime.strptime(s, fmt)`, with `fmt` chosen from `s` itself as core.py does. */
  function ParseTime(s: string): Option<nat> {
    Parse(s, LayoutOf(s))
  }

  function TwoDigits(n: nat): (r: string)
    requires n < 100
    ensures |r| == 2 && TwoDigitsAt(r, 0) && TwoDigitValue(r, 0) == n
  {
    [DigitChar(n / 10), DigitChar(n % 10)]
  }

  /** `strftime` of a second of the day: zero-padded fields, seconds only in the long layout. */
  function Format(t: nat, layout: Layout): (r: string)
    requires t < SecondsPerDay
  {
    var hm := TwoDigits(t / 3600) + ":" + TwoDigits(t % 3600 / 60);
    if layout == HourMinute then hm else hm + ":" + TwoDigits(t % 3600 % 60)
  }

  lemma SecondsOfDaySplit(t: nat)
    requires t < SecondsPerDay
    ensures t / 3600 < 24 && t % 3600 / 60 < 60 && t % 3600 % 60 < 60
    ensures t == t / 3600 * 3600 + t % 3600 / 60 * 60 + t % 3600 % 60
    ensures t % 60 == t % 3600 % 60
  {
  }

  /** Writing a time and reading it back in the same layout gives the time again. */
  lemma FormatThenParse(t: nat, layout: Layout)
    requires t < SecondsPerDay
    requires layout == HourMinute ==> t % 60 == 0
    ensures LayoutOf(Format(t, layout)) == layout
    ensures ParseTime(Format(t, layout)) == Some(t)
  {
    SecondsOfDaySplit(t);
    var hh, mm := TwoDigits(t / 3600), TwoDigits(t % 3600 / 60);
    var r := Format(t, layout);
    assert CountChar(hh, ':') == 0 && CountChar(mm, ':') == 0;
    assert CountChar(":", ':') == 1;
    CountCharConcat(hh, ":", ':');
    CountCharConcat(hh + ":", mm, ':');
    if layout == HourMinuteSecond {
      var ss := TwoDigits(t % 3600 % 60);
      assert CountChar(ss, ':') == 0;
      CountCharConcat(hh + ":" + mm, ":", ':');
      CountCharConcat(hh + ":" + mm + ":", ss, ':');
      assert r[0..2] == hh && r[3..5] == mm && r[6..8] == ss;
    } else {
      assert r[0..2] == hh && r[3..5] == mm;
    }
  }

  /** A string that parses is already in the canonical form `strftime` writes. */
  lemma ParseThenFormat(s: string)
    requires ParseTime(s).Some?
    ensures Format(ParseTime(s).value, LayoutOf(s)) == s
  {
    var t := ParseTime(s).value;
    var h, m := TwoDigitValue(s, 0), TwoDigitValue(s, 3);
    var sec := if LayoutOf(s) == HourMinute then 0 else TwoDigitValue(s, 6);
    assert t == h * 3600 + m * 60 + sec;
    assert t / 3600 == h && t % 3600 / 60 == m && t % 3600 % 60 == sec;
    var r := Format(t, LayoutOf(s));
    assert r[0..2] == TwoDigits(h);
    assert r[0] == s[0] && r[1] == s[1] && r[3] == s[3] && r[4] == s[4];
    if LayoutOf(s) == HourMinuteSecond {
      assert r[6] == s[6] && r[7] == s[7];
    }
  }

  /**
   * `(strptime(s, fmt) + timedelta(minutes=n)).strftime(fmt)`: `None` where
   * `strptime` raises. The result is read back as the original time moved
   * forward by `n` minutes around the 24-hour clock, in the original layout.
   */
  function AddMinutes(s: string, minutes: nat): (r: Option<string>)
    ensures r.Some? <==> ParseTime(s).Some?
    ensures r.Some? ==> LayoutOf(r.value) == LayoutOf(s)
    ensures r.Some? ==> ParseTime(r.value) == Some((ParseTime(s).value + 60 * minutes) % SecondsPerDay)
  {
    match ParseTime(s)
    case None => None
    case Some(t) =>
      var u := (t + 60 * minutes) % SecondsPerDay;
      FormatThenParse(u, LayoutOf(s));
      Some(Format(u, LayoutOf(s)))
  }
}
