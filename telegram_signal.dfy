/**
 * `parse_trading_signal` of `telegram_integration.py`: the stricter signal
 * format `BUY|SELL PAIR at|@ PRICE`, an entry time found by two time
 * patterns tried in order, and the move of a past time to the next day.
 * The clock reading `datetime.utcnow()` is a parameter.
 */
module TelegramSignal {
  import opened Wrappers
  import opened Text
  import Clock

  // ---------------------------------------------------------------------
  // (BUY|SELL)\s+([A-Z]{3,5}/[A-Z]{3,5})\s+(at|@)\s+([\d\.]+) with re.IGNORECASE

  /** The three groups of the signal pattern that the result uses. */
  datatype Groups = Groups(direction: string, pair: string, price: string)

  predicate IsPriceChar(c: char) { IsDigit(c) || c == '.' }

  /**
   * The text `[A-Z]{3,5}/[A-Z]{3,5}` matches under `re.IGNORECASE`, with the
   * slash at `m`: letters of either case, three to five on each side.
   */
  predicate PairTextAt(p: string, m: nat) {
    3 <= m <= 5 && m + 4 <= |p| <= m + 6 && p[m] == '/' && forall k :: 0 <= k < |p| && k != m ==> IsLetter(p[k])
  }

  ghost predicate PairText(p: string) { exists m: nat :: PairTextAt(p, m) }

  /** `(BUY|SELL)` tried at `i`: the length of its match, 0 for none. */
  function DirectionLength(s: string, i: nat): (n: nat)
    ensures n == 0 || (n == 3 && AtIgnoringCase(s, i, "BUY")) || (n == 4 && AtIgnoringCase(s, i, "SELL"))
    ensures n == 0 ==> !AtIgnoringCase(s, i, "BUY") && !AtIgnoringCase(s, i, "SELL")
  {
    if AtIgnoringCase(s, i, "BUY") then 3 else if AtIgnoringCase(s, i, "SELL") then 4 else 0
  }

  /**
   * `\s+([A-Z]{3,5}/[A-Z]{3,5})\s` from `a`: where the pair group starts
   * and ends. Whitespace and letters do not overlap, so `\s+` takes the
   * whole run of whitespace and each `[A-Z]{3,5}` the whole run of letters
   * before the `/` or the whitespace; a longer run of letters fails on every
   * length the engine backtracks to.
   */
  function PairAfter(s: string, a: nat): (r: Option<(nat, nat)>)
    requires a <= |s|
    ensures r.Some? ==>
      && a < r.value.0 < r.value.1 < |s| && IsSpace(s[a]) && IsSpace(s[r.value.1])
      && (forall k :: a <= k < r.value.0 ==> IsSpace(s[k]))
      && PairText(s[r.value.0..r.value.1])
  {
    if a >= |s| || !IsSpace(s[a]) then None
    else
      var b := SkipSpaces(s, a);
      var m := SpanEnd(s, b, IsLetter);
      if !(3 <= m - b <= 5 && m < |s| && s[m] == '/') then None
      else
        var e := SpanEnd(s, m + 1, IsLetter);
        if !(3 <= e - (m + 1) <= 5 && e < |s| && IsSpace(s[e])) then None
        else
          assert PairTextAt(s[b..e], m - b);
          Some((b, e))
  }

  /**
   * `\s+(at|@)\s+([\d\.]+)` from `e`: where the price group starts and
   * ends, `[\d\.]+` taking the whole run of digits and dots.
   */
  function PriceAfter(s: string, e: nat): (r: Option<(nat, nat)>)
    requires e <= |s|
    ensures r.Some? ==>
      && e < r.value.0 < r.value.1 <= |s|
      && (forall k :: r.value.0 <= k < r.value.1 ==> IsPriceChar(s[k]))
      && (r.value.1 == |s| || !IsPriceChar(s[r.value.1]))
  {
    if e >= |s| || !IsSpace(s[e]) then None
    else
      var d := SkipSpaces(s, e);
      var afterAt := if AtIgnoringCase(s, d, "at") then d + 2 else if d < |s| && s[d] == '@' then d + 1 else d;
      if afterAt == d || afterAt >= |s| || !IsSpace(s[afterAt]) then None
      else
        var f := SkipSpaces(s, afterAt);
        var g := SpanEnd(s, f, IsPriceChar);
        if g == f then None else Some((f, g))
  }

  /**
   * The signal pattern tried at `i`. The alternatives of each group start
   * with different characters, so no choice the engine could backtrack into
   * changes the outcome.
   */
  function SignalAt(s: string, i: nat): (r: Option<Groups>)
    ensures r.Some? ==>
      && 0 < DirectionLength(s, i) == |r.value.direction| && i + |r.value.direction| <= |s|
      && r.value.direction == s[i..i + |r.value.direction|]
    ensures r.Some? ==> PairText(r.value.pair)
    ensures r.Some? ==> r.value.price != [] && forall k :: 0 <= k < |r.value.price| ==> IsPriceChar(r.value.price[k])
  {
    var n := DirectionLength(s, i);
    if n == 0 || i + n > |s| then None
    else
      match PairAfter(s, i + n)
      case None => None
      case Some(pair) =>
        match PriceAfter(s, pair.1)
        case None => None
        case Some(price) => Some(Groups(s[i..i + n], s[pair.0..pair.1], s[price.0..price.1]))
  }

  /**
   * `\s+([A-Z]{3,5}/[A-Z]{3,5})\s` matches from `a` with the group at
   * `s[b..e]` and its slash at `m`.
   */
  predicate PairMatch(s: string, a: nat, b: nat, m: nat, e: nat) {
    && a < b < m < e < |s|
    && (forall k :: a <= k < b ==> IsSpace(s[k]))
    && 3 <= m - b <= 5 && s[m] == '/' && 3 <= e - (m + 1) <= 5
    && (forall k :: b <= k < e && k != m ==> IsLetter(s[k]))
    && IsSpace(s[e])
  }

  /**
   * `\s+(at|@)\s+([\d\.]+)` matches from `e`, ignoring case, with `at` or
   * `@` from `d` to `t` and the price group at `s[f..g]`; the group cannot
   * grow, as the engine's greedy `+` leaves it.
   */
  predicate PriceMatch(s: string, e: nat, d: nat, t: nat, f: nat, g: nat) {
    && e < d < t < f < g <= |s|
    && (forall k :: e <= k < d ==> IsSpace(s[k]))
    && ((AtIgnoringCase(s, d, "at") && t == d + 2) || (s[d] == '@' && t == d + 1))
    && (forall k :: t <= k < f ==> IsSpace(s[k]))
    && (forall k :: f <= k < g ==> IsPriceChar(s[k]))
    && (g == |s| || !IsPriceChar(s[g]))
  }

  /** The pair scanner finds exactly the match of its part of the pattern, which is unique. */
  lemma PairAfterMeaning(s: string, a: nat)
    requires a <= |s|
    ensures PairAfter(s, a).Some? ==> exists m: nat :: PairMatch(s, a, PairAfter(s, a).value.0, m, PairAfter(s, a).value.1)
    ensures forall b: nat, m: nat, e: nat :: PairMatch(s, a, b, m, e) ==> PairAfter(s, a) == Some((b, e))
  {
    if PairAfter(s, a).Some? {
      var b := SkipSpaces(s, a);
      var m := SpanEnd(s, b, IsLetter);
      assert PairMatch(s, a, b, m, PairAfter(s, a).value.1);
    }
    forall b: nat, m: nat, e: nat | PairMatch(s, a, b, m, e)
      ensures PairAfter(s, a) == Some((b, e))
    {
      PairMatchUnique(s, a, b, m, e);
    }
  }

  lemma PairMatchUnique(s: string, a: nat, b: nat, m: nat, e: nat)
    requires PairMatch(s, a, b, m, e)
    ensures SkipSpaces(s, a) == b && SpanEnd(s, b, IsLetter) == m && SpanEnd(s, m + 1, IsLetter) == e
    ensures PairAfter(s, a) == Some((b, e))
  {
    assert IsLetter(s[b]) && !IsSpace(s[b]);
    var b' := SkipSpaces(s, a);
    assert b' == b;
    var m' := SpanEnd(s, b, IsLetter);
    assert m' == m;
    assert IsLetter(s[m + 1]);
    var e' := SpanEnd(s, m + 1, IsLetter);
    assert !IsLetter(s[e]);
    assert e' == e;
  }

  /** The price scanner finds exactly the match of its part of the pattern, which is unique. */
  lemma PriceAfterMeaning(s: string, e: nat)
    requires e <= |s|
    ensures PriceAfter(s, e).Some? ==>
      exists d: nat, t: nat :: PriceMatch(s, e, d, t, PriceAfter(s, e).value.0, PriceAfter(s, e).value.1)
    ensures forall d: nat, t: nat, f: nat, g: nat :: PriceMatch(s, e, d, t, f, g) ==> PriceAfter(s, e) == Some((f, g))
  {
    if PriceAfter(s, e).Some? {
      var d := SkipSpaces(s, e);
      var t := if AtIgnoringCase(s, d, "at") then d + 2 else d + 1;
      assert PriceMatch(s, e, d, t, PriceAfter(s, e).value.0, PriceAfter(s, e).value.1);
    }
    forall d: nat, t: nat, f: nat, g: nat | PriceMatch(s, e, d, t, f, g)
      ensures PriceAfter(s, e) == Some((f, g))
    {
      PriceMatchUnique(s, e, d, t, f, g);
    }
  }

  lemma PriceMatchUnique(s: string, e: nat, d: nat, t: nat, f: nat, g: nat)
    requires PriceMatch(s, e, d, t, f, g)
    ensures PriceAfter(s, e) == Some((f, g))
  {
    if AtIgnoringCase(s, d, "at") {
      assert LowerChar(s[d + 0]) == LowerChar("at"[0]);
    }
    assert !IsSpace(s[d]);
    var d' := SkipSpaces(s, e);
    assert d' == d;
    assert IsPriceChar(s[f]) && !IsSpace(s[f]);
    var f' := SkipSpaces(s, t);
    assert f' == f;
    var g' := SpanEnd(s, f, IsPriceChar);
    assert g' == g;
  }

  /**
   * The whole signal pattern matches at `i`: `BUY` or `SELL` in any case
   * (`n` characters), then the pair part from `i + n`, then the price part
   * from the end of the pair.
   */
  predicate SignalMatchWith(s: string, i: nat, n: nat, b: nat, m: nat, e: nat, d: nat, t: nat, f: nat, g: nat) {
    && ((n == 3 && AtIgnoringCase(s, i, "BUY")) || (n == 4 && AtIgnoringCase(s, i, "SELL")))
    && PairMatch(s, i + n, b, m, e)
    && PriceMatch(s, e, d, t, f, g)
  }

  /** A match of the pattern at `i` is exactly what the scanner yields there, its groups the matched slices. */
  lemma SignalAtComplete(s: string, i: nat, n: nat, b: nat, m: nat, e: nat, d: nat, t: nat, f: nat, g: nat)
    requires SignalMatchWith(s, i, n, b, m, e, d, t, f, g)
    ensures SignalAt(s, i) == Some(Groups(s[i..i + n], s[b..e], s[f..g]))
  {
    DirectionMatch(s, i, n);
    PairMatchUnique(s, i + n, b, m, e);
    PriceMatchUnique(s, e, d, t, f, g);
  }

  /** `BUY` and `SELL` start with different letters, so at most one of them matches. */
  lemma DirectionMatch(s: string, i: nat, n: nat)
    requires (n == 3 && AtIgnoringCase(s, i, "BUY")) || (n == 4 && AtIgnoringCase(s, i, "SELL"))
    ensures DirectionLength(s, i) == n
  {
    if n == 4 {
      assert LowerChar(s[i + 0]) == LowerChar("SELL"[0]) == 's';
      assert LowerChar("BUY"[0]) == 'b';
    }
  }

  /** Whatever the scanner yields at `i` is a match of the pattern there, its groups the matched slices. */
  lemma SignalAtSound(s: string, i: nat)
    ensures SignalAt(s, i).Some? ==>
      exists n: nat, b: nat, m: nat, e: nat, d: nat, t: nat, f: nat, g: nat :: SignalMatchWith(s, i, n, b, m, e, d, t, f, g)
        && SignalAt(s, i).value == Groups(s[i..i + n], s[b..e], s[f..g])
  {
    if SignalAt(s, i).Some? {
      var n := DirectionLength(s, i);
      var (b, e) := PairAfter(s, i + n).value;
      var (f, g) := PriceAfter(s, e).value;
      PairAfterMeaning(s, i + n);
      PriceAfterMeaning(s, e);
      var m: nat :| PairMatch(s, i + n, b, m, e);
      var d: nat, t: nat :| PriceMatch(s, e, d, t, f, g);
      assert SignalMatchWith(s, i, n, b, m, e, d, t, f, g);
    }
  }

  /** `float(price)` accepts a run of digits and dots exactly when it has a digit and at most one dot. */
  predicate ValidPrice(price: string) {
    (exists k :: 0 <= k < |price| && IsDigit(price[k])) && Clock.CountChar(price, '.') <= 1
  }

  // ---------------------------------------------------------------------
  // \b(\d{1,2}:\d{2})\b, then \b(\d{1,2}h\d{2})\b

  /**
   * `\b(\d{1,2}<sep>\d{2})\b` tried at `i`. With two digits in front, giving
   * one back would need the separator where a digit stands, so the hour has
   * exactly the digits present.
   */
  function TimeAt(s: string, i: nat, sep: char): (r: Option<string>)
    requires !IsDigit(sep)
    ensures r.Some? <==> TimeShapeAt(s, i, sep, 1) || TimeShapeAt(s, i, sep, 2)
    ensures r.Some? ==>
      && 4 <= |r.value| && TimeShapeAt(s, i, sep, |r.value| - 3)
      && r.value == s[i..i + |r.value|]
  {
    if !(i < |s| && IsDigit(s[i]) && (i == 0 || !IsWordChar(s[i - 1]))) then None
    else
      var n := if i + 1 < |s| && IsDigit(s[i + 1]) then 2 else 1;
      if i + n + 3 <= |s| && s[i + n] == sep && IsDigit(s[i + n + 1]) && IsDigit(s[i + n + 2])
         && (i + n + 3 == |s| || !IsWordChar(s[i + n + 3]))
      then Some(s[i..i + n + 3])
      else None
  }

  /**
   * `\b\d{n}<sep>\d{2}\b` matches at `i`, for an hour of `n` digits, one or
   * two: no word character on either side of the match.
   */
  predicate TimeShapeAt(s: string, i: nat, sep: char, n: nat) {
    && (n == 1 || n == 2) && i + n + 3 <= |s|
    && (i == 0 || !IsWordChar(s[i - 1]))
    && IsDigit(s[i]) && (n == 1 || IsDigit(s[i + 1]))
    && s[i + n] == sep && IsDigit(s[i + n + 1]) && IsDigit(s[i + n + 2])
    && (i + n + 3 == |s| || !IsWordChar(s[i + n + 3]))
  }

  /** `re.search` of the time pattern with separator `sep`: its group, at the first place it matches. */
  function FirstTime(s: string, sep: char): Option<string>
    requires !IsDigit(sep)
  {
    match FindFirst(s, 0, (t, i) => TimeAt(t, i, sep))
    case None => None
    case Some(hit) => Some(hit.value)
  }

  /**
   * The occurrence a time pattern yields is its first one: a later
   * occurrence is never consulted, even when the first does not parse.
   */
  lemma FirstOccurrenceOnly(s: string, sep: char, i: nat, raw: string)
    requires !IsDigit(sep)
    requires TimeAt(s, i, sep) == Some(raw)
    requires forall j :: 0 <= j < i ==> TimeAt(s, j, sep).None?
    ensures FirstTime(s, sep) == Some(raw)
  {
    var f := (t, j) => TimeAt(t, j, sep);
    var hit := FindFirst(s, 0, f);
    assert f(s, i) == Some(raw);
  }

  /** `str.replace("h", ":")`. */
  function ReplaceH(t: string): (r: string)
    ensures |r| == |t| && forall k :: 0 <= k < |t| ==> r[k] == (if t[k] == 'h' then ':' else t[k])
  {
    seq(|t|, k requires 0 <= k < |t| => if t[k] == 'h' then ':' else t[k])
  }

  /**
   * `datetime.strptime(t, "%H:%M")` on the `H:MM` and `HH:MM` strings the
   * time patterns produce: the hour and minute, when they are at most 23
   * and 59.
   */
  function ClockOf(t: string): (r: Option<(nat, nat)>)
    ensures r.Some? ==> r.value.0 < 24 && r.value.1 < 60
  {
    var n := |t| - 3;
    if !((n == 1 || n == 2) && t[n] == ':' && IsDigit(t[n + 1]) && IsDigit(t[n + 2])
         && IsDigit(t[0]) && (n == 1 || IsDigit(t[1])))
    then None
    else
      var hour := if n == 1 then DigitValue(t[0]) else 10 * DigitValue(t[0]) + DigitValue(t[1]);
      var minute := 10 * DigitValue(t[n + 1]) + DigitValue(t[n + 2]);
      if hour <= 23 && minute <= 59 then Some((hour, minute)) else None
  }

  /**
   * Whatever `strptime` accepts here is an hour below 24 and a minute below
   * 60 written as `HH:MM`, or as `H:MM` for an hour below 10.
   */
  lemma ClockOfSound(t: string)
    ensures ClockOf(t).Some? ==>
      var (hour, minute) := ClockOf(t).value;
      && hour < 24 && minute < 60
      && (t == Clock.TwoDigits(hour) + ":" + Clock.TwoDigits(minute)
          || (hour < 10 && t == [DigitChar(hour)] + ":" + Clock.TwoDigits(minute)))
  {
    if ClockOf(t).Some? {
      var (hour, minute) := ClockOf(t).value;
      var n := |t| - 3;
      DigitRoundTrip(t[n + 1]);
      DigitRoundTrip(t[n + 2]);
      DigitRoundTrip(t[0]);
      if n == 1 {
        assert t == [DigitChar(hour)] + ":" + Clock.TwoDigits(minute);
      } else {
        DigitRoundTrip(t[1]);
        assert t == Clock.TwoDigits(hour) + ":" + Clock.TwoDigits(minute);
      }
    }
  }

  /**
   * `strptime` accepts every hour below 24 and minute below 60 written as
   * `HH:MM`, and as `H:MM` when the hour is below 10, and reads them back.
   */
  lemma ClockOfComplete(hour: nat, minute: nat)
    requires hour < 24 && minute < 60
    ensures ClockOf(Clock.TwoDigits(hour) + ":" + Clock.TwoDigits(minute)) == Some((hour, minute))
    ensures hour < 10 ==> ClockOf([DigitChar(hour)] + ":" + Clock.TwoDigits(minute)) == Some((hour, minute))
  {
    var t := Clock.TwoDigits(hour) + ":" + Clock.TwoDigits(minute);
    assert DigitValue(t[0]) == hour / 10 && DigitValue(t[1]) == hour % 10;
    assert DigitValue(t[3]) == minute / 10 && DigitValue(t[4]) == minute % 10;
    if hour < 10 {
      var u := [DigitChar(hour)] + ":" + Clock.TwoDigits(minute);
      assert DigitValue(u[2]) == minute / 10 && DigitValue(u[3]) == minute % 10;
    }
  }

  /** A digit is the character of its own value. */
  lemma DigitRoundTrip(c: char)
    requires IsDigit(c)
    ensures DigitChar(DigitValue(c)) == c
  {
  }

  // ---------------------------------------------------------------------
  // Dates and times

  /** A naive `datetime`, down to the microsecond. */
  datatype DateTime = DateTime(year: int, month: nat, day: nat, hour: nat, minute: nat, second: nat, micro: nat)

  predicate IsLeapYear(y: int) {
    y % 4 == 0 && (y % 100 != 0 || y % 400 == 0)
  }

  function DaysInMonth(y: int, m: nat): nat {
    if m == 2 then (if IsLeapYear(y) then 29 else 28)
    else if m == 4 || m == 6 || m == 9 || m == 11 then 30
    else 31
  }

  /** What `datetime` accepts. */
  predicate ValidDateTime(d: DateTime) {
    && 1 <= d.year <= 9999 && 1 <= d.month <= 12 && 1 <= d.day <= DaysInMonth(d.year, d.month)
    && d.hour < 24 && d.minute < 60 && d.second < 60 && d.micro < 1000000
  }

  /** `a < b` on `datetime`: the fields compared in order, year first. */
  predicate Before(a: DateTime, b: DateTime) {
    if a.year != b.year then a.year < b.year
    else if a.month != b.month then a.month < b.month
    else if a.day != b.day then a.day < b.day
    else if a.hour != b.hour then a.hour < b.hour
    else if a.minute != b.minute then a.minute < b.minute
    else if a.second != b.second then a.second < b.second
    else a.micro < b.micro
  }

  /**
   * The entry time for `hour:minute` at clock reading `now`, and whether the
   * loop breaks: today at that minute; a time already past is moved to the
   * next day of the month, and when there is no such day `replace` raises,
   * the past time stays and the loop goes on.
   */
  function Candidate(now: DateTime, hour: nat, minute: nat): (DateTime, bool) {
    var e := now.(hour := hour, minute := minute, second := 0, micro := 0);
    if Before(e, now) then
      if now.day + 1 <= DaysInMonth(now.year, now.month) then (e.(day := now.day + 1), true)
      else (e, false)
    else (e, true)
  }

  /**
   * The candidate is a valid `datetime` at the given hour and minute with no
   * seconds. When the loop breaks it is not before `now`, on today's date or
   * the next day's; otherwise `now` is on the last day of its month and the
   * candidate is earlier on that same day.
   */
  lemma CandidateMeaning(now: DateTime, hour: nat, minute: nat)
    requires ValidDateTime(now) && hour < 24 && minute < 60
    ensures var (e, done) := Candidate(now, hour, minute);
      && ValidDateTime(e)
      && e.hour == hour && e.minute == minute && e.second == 0 && e.micro == 0
      && e.year == now.year && e.month == now.month
      && (done ==> !Before(e, now) && (e.day == now.day || e.day == now.day + 1))
      && (done && e.day == now.day + 1 ==> Before(e.(day := now.day), now))
      && (!done ==> Before(e, now) && e.day == now.day && now.day == DaysInMonth(now.year, now.month))
  {
  }

  // ---------------------------------------------------------------------
  // The loop over the time patterns

  /** The time patterns, by the separator between hour and minute, in the order they are tried. */
  const TimeSeparators: seq<char> := [':', 'h']

  /**
   * The loop over the patterns from `seps` on, with `entry` the value
   * assigned so far: a pattern that matches and parses assigns its
   * candidate, and breaks unless the move to the next day raised.
   */
  function PickTime(s: string, now: DateTime, seps: seq<char>, entry: Option<DateTime>): Option<DateTime>
    requires forall k :: 0 <= k < |seps| ==> !IsDigit(seps[k])
    decreases |seps|
  {
    if seps == [] then entry
    else
      match FirstTime(s, seps[0])
      case None => PickTime(s, now, seps[1..], entry)
      case Some(raw) =>
        match ClockOf(ReplaceH(raw))
        case None => PickTime(s, now, seps[1..], entry)
        case Some(hm) =>
          var (e, done) := Candidate(now, hm.0, hm.1);
          if done then Some(e) else PickTime(s, now, seps[1..], Some(e))
  }

  /** What the colon pattern alone yields: its candidate and whether the loop breaks there. */
  function ColonCandidate(s: string, now: DateTime): Option<(DateTime, bool)> {
    match FirstTime(s, ':')
    case None => None
    case Some(raw) =>
      match ClockOf(ReplaceH(raw))
      case None => None
      case Some(hm) => Some(Candidate(now, hm.0, hm.1))
  }

  /**
   * The colon form wins when its first occurrence is a valid time that the
   * loop keeps; when it finds nothing, or an hour or minute out of range,
   * the `h` form decides alone; when its time could not be moved to the
   * next day, the `h` form still overrides it, and the past time stands
   * only if the `h` form yields nothing.
   */
  lemma TimePriority(s: string, now: DateTime)
    ensures ColonCandidate(s, now).Some? && ColonCandidate(s, now).value.1 ==>
      PickTime(s, now, TimeSeparators, None) == Some(ColonCandidate(s, now).value.0)
    ensures ColonCandidate(s, now).None? ==>
      PickTime(s, now, TimeSeparators, None) == PickTime(s, now, ['h'], None)
    ensures ColonCandidate(s, now).Some? && !ColonCandidate(s, now).value.1 ==>
      PickTime(s, now, TimeSeparators, None) == PickTime(s, now, ['h'], Some(ColonCandidate(s, now).value.0))
  {
    assert TimeSeparators[1..] == ['h'];
  }

  /** The last pattern: its candidate when it yields one, otherwise what was assigned before. */
  lemma LastPattern(s: string, now: DateTime, entry: Option<DateTime>)
    ensures var hm := if FirstTime(s, 'h').Some? then ClockOf(ReplaceH(FirstTime(s, 'h').value)) else None;
      && (hm.None? ==> PickTime(s, now, ['h'], entry) == entry)
      && (hm.Some? ==> PickTime(s, now, ['h'], entry) == Some(Candidate(now, hm.value.0, hm.value.1).0))
  {
    assert ['h'][1..] == [];
  }

  /** The `for pattern in time_patterns` loop, with its `break`. */
  method SearchEntryTime(message: string, now: DateTime) returns (entry: Option<DateTime>)
    ensures entry == PickTime(message, now, TimeSeparators, None)
  {
    entry := None;
    var patterns := TimeSeparators;
    var k := 0;
    while k < |patterns|
      invariant 0 <= k <= |patterns|
      invariant PickTime(message, now, patterns[k..], entry) == PickTime(message, now, patterns, None)
    {
      assert patterns[k..][1..] == patterns[k + 1..];
      var timeMatch := FirstTime(message, patterns[k]);
      if timeMatch.Some? {
        var parsed := ClockOf(ReplaceH(timeMatch.value));
        if parsed.Some? {
          var (candidate, done) := Candidate(now, parsed.value.0, parsed.value.1);
          entry := Some(candidate);
          if done {
            break;
          }
        }
      }
      k := k + 1;
    }
  }

  // ---------------------------------------------------------------------
  // The result

  /** The pair as returned: upper-case letters, three to five each side of the slash at `m`. */
  predicate UpperPairTextAt(p: string, m: nat) {
    3 <= m <= 5 && m + 4 <= |p| <= m + 6 && p[m] == '/' && forall k :: 0 <= k < |p| && k != m ==> 'A' <= p[k] <= 'Z'
  }

  /** The dictionary returned: `entry_price` kept as the validated price text. */
  datatype TradingSignal = TradingSignal(direction: string, currencyPair: string, entryPrice: string, entryTime: DateTime)

  function SignalMatch(message: string): Option<Hit<Groups>> {
    FindFirst(message, 0, SignalAt)
  }

  /** `parse_trading_signal(message)` at clock reading `now`. */
  function ParseTradingSignal(message: string, now: DateTime): Option<TradingSignal> {
    match SignalMatch(message)
    case None => None
    case Some(hit) =>
      if !ValidPrice(hit.value.price) then None
      else Some(TradingSignal(
        Upper(hit.value.direction),
        Upper(hit.value.pair),
        hit.value.price,
        EntryTime(message, now)))
  }

  /** `entry_time or datetime.utcnow()`. */
  function EntryTime(message: string, now: DateTime): DateTime {
    PickTime(message, now, TimeSeparators, None).GetOr(now)
  }

  /**
   * There is no signal exactly when the pattern matches nowhere or its
   * first match has a price `float` rejects.
   */
  lemma ParseFails(message: string, now: DateTime)
    ensures ParseTradingSignal(message, now).None? <==>
      (forall i :: 0 <= i <= |message| ==> SignalAt(message, i).None?)
      || (SignalMatch(message).Some? && !ValidPrice(SignalMatch(message).value.value.price))
  {
  }

  /**
   * A signal reads `BUY` or `SELL`, a pair of two upper-case runs of three
   * to five letters around a `/`, and a price of digits and at most one dot.
   */
  lemma SignalShape(message: string, now: DateTime)
    ensures ParseTradingSignal(message, now).Some? ==>
      var r := ParseTradingSignal(message, now).value;
      && (r.direction == "BUY" || r.direction == "SELL")
      && (exists m: nat :: UpperPairTextAt(r.currencyPair, m))
      && ValidPrice(r.entryPrice) && (forall k :: 0 <= k < |r.entryPrice| ==> IsPriceChar(r.entryPrice[k]))
  {
    if ParseTradingSignal(message, now).Some? {
      var hit := SignalMatch(message).value;
      var g := hit.value;
      assert SignalAt(message, hit.pos) == Some(g);
      assert ParseTradingSignal(message, now).value
        == TradingSignal(Upper(g.direction), Upper(g.pair), g.price, EntryTime(message, now));
      GroupsUpper(message, hit.pos, g);
    }
  }

  /**
   * A signal is made from the leftmost match of the pattern: its direction
   * and pair groups upper-cased, its price group as matched, and the entry
   * time the time patterns give.
   */
  lemma SignalFromFirstMatch(message: string, now: DateTime)
    ensures ParseTradingSignal(message, now).Some? ==>
      exists i: nat :: i <= |message| && SignalAt(message, i).Some?
        && (forall j :: 0 <= j < i ==> SignalAt(message, j).None?)
        && ValidPrice(SignalAt(message, i).value.price)
        && ParseTradingSignal(message, now).value == TradingSignal(
             Upper(SignalAt(message, i).value.direction),
             Upper(SignalAt(message, i).value.pair),
             SignalAt(message, i).value.price,
             EntryTime(message, now))
  {
    if ParseTradingSignal(message, now).Some? {
      var hit := SignalMatch(message).value;
      assert SignalAt(message, hit.pos) == Some(hit.value);
    }
  }

  /**
   * The entry time is `now` when no time pattern yields one, and otherwise
   * a time on the minute.
   */
  lemma EntryTimeShape(message: string, now: DateTime)
    ensures PickTime(message, now, TimeSeparators, None).None? ==> EntryTime(message, now) == now
    ensures PickTime(message, now, TimeSeparators, None).Some? ==>
      EntryTime(message, now).second == 0 && EntryTime(message, now).micro == 0
  {
    PickTimeOnTheMinute(message, now, TimeSeparators, None);
  }

  /** The groups of a match, upper-cased as the result holds them. */
  lemma GroupsUpper(s: string, i: nat, g: Groups)
    requires SignalAt(s, i) == Some(g)
    ensures Upper(g.direction) == "BUY" || Upper(g.direction) == "SELL"
    ensures exists m: nat :: UpperPairTextAt(Upper(g.pair), m)
  {
    DirectionUpper(s, i, g.direction);
    PairUpper(g.pair);
  }

  /** `(BUY|SELL)` matched in any case reads `BUY` or `SELL` upper-cased. */
  lemma DirectionUpper(s: string, i: nat, d: string)
    requires 0 < DirectionLength(s, i) == |d| && i + |d| <= |s| && d == s[i..i + |d|]
    ensures Upper(d) == "BUY" || Upper(d) == "SELL"
  {
    if |d| == 3 {
      forall k | 0 <= k < 3
        ensures Upper(d)[k] == "BUY"[k]
      {
        assert LowerChar(s[i + k]) == LowerChar("BUY"[k]);
      }
    } else {
      forall k | 0 <= k < 4
        ensures Upper(d)[k] == "SELL"[k]
      {
        assert LowerChar(s[i + k]) == LowerChar("SELL"[k]);
      }
    }
  }

  /** The pair text upper-cased: the slash where it was, upper-case letters elsewhere. */
  lemma PairUpper(p: string)
    requires PairText(p)
    ensures exists m: nat :: UpperPairTextAt(Upper(p), m)
  {
    var m: nat :| PairTextAt(p, m);
    var u := Upper(p);
    forall k | 0 <= k < |u| && k != m
      ensures 'A' <= u[k] <= 'Z'
    {
      assert IsLetter(p[k]);
    }
    assert UpperPairTextAt(u, m);
  }

  /** Whatever the loop assigns is on the minute. */
  lemma {:induction false} PickTimeOnTheMinute(s: string, now: DateTime, seps: seq<char>, entry: Option<DateTime>)
    requires forall k :: 0 <= k < |seps| ==> !IsDigit(seps[k])
    requires entry.Some? ==> entry.value.second == 0 && entry.value.micro == 0
    ensures PickTime(s, now, seps, entry).Some? ==>
      PickTime(s, now, seps, entry).value.second == 0 && PickTime(s, now, seps, entry).value.micro == 0
    decreases |seps|
  {
    if seps != [] {
      var rest := seps[1..];
      match FirstTime(s, seps[0])
      case None => PickTimeOnTheMinute(s, now, rest, entry);
      case Some(raw) =>
        match ClockOf(ReplaceH(raw))
        case None => PickTimeOnTheMinute(s, now, rest, entry);
        case Some(hm) =>
          var (e, done) := Candidate(now, hm.0, hm.1);
          if !done {
            PickTimeOnTheMinute(s, now, rest, Some(e));
          }
    }
  }

  /**
   * The entry time is a valid `datetime`, and it lies before `now` only when
   * `now` is on the last day of its month, where the move to the next day
   * raised and no later pattern replaced the past time.
   */
  lemma EntryNotPast(message: string, now: DateTime)
    requires ValidDateTime(now)
    ensures ValidDateTime(EntryTime(message, now))
    ensures Before(EntryTime(message, now), now) ==> now.day == DaysInMonth(now.year, now.month)
  {
    PickTimeNotPast(message, now, TimeSeparators, None);
  }

  lemma {:induction false} PickTimeNotPast(s: string, now: DateTime, seps: seq<char>, entry: Option<DateTime>)
    requires ValidDateTime(now)
    requires forall k :: 0 <= k < |seps| ==> !IsDigit(seps[k])
    requires entry.Some? ==> ValidDateTime(entry.value) && now.day == DaysInMonth(now.year, now.month)
    ensures PickTime(s, now, seps, entry).Some? ==>
      && ValidDateTime(PickTime(s, now, seps, entry).value)
      && (Before(PickTime(s, now, seps, entry).value, now) ==> now.day == DaysInMonth(now.year, now.month))
    decreases |seps|
  {
    if seps != [] {
      var rest := seps[1..];
      match FirstTime(s, seps[0])
      case None => PickTimeNotPast(s, now, rest, entry);
      case Some(raw) =>
        match ClockOf(ReplaceH(raw))
        case None => PickTimeNotPast(s, now, rest, entry);
        case Some(hm) =>
          CandidateMeaning(now, hm.0, hm.1);
          var (e, done) := Candidate(now, hm.0, hm.1);
          if !done {
            PickTimeNotPast(s, now, rest, Some(e));
          }
    }
  }
}
