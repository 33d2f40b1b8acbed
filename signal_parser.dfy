/**
 * `parse_signal` of core.py: five independent searches over the alert text,
 * each a fixed regular expression, plus the default martingale times for
 * "anna signals" alerts. Every search is modelled as a hand-written scanner
 * that follows Python's matching order: leftmost position first, then the
 * alternatives of the pattern in the order they are written, with greedy
 * repetition and the backtracking that can change the outcome.
 */
module SignalParser {
  import opened Wrappers
  import opened Text
  import Clock

  datatype Direction = Buy | Sell

  datatype Timeframe = M1 | M5

  /** The dictionary `parse_signal` returns; `None` where the field's pattern did not match. */
  datatype ParsedSignal = ParsedSignal(
    currencyPair: Option<string>,
    direction: Option<Direction>,
    entryTime: Option<string>,
    timeframe: Option<Timeframe>,
    martingaleTimes: seq<string>)

  function HitValue<T>(h: Option<Hit<T>>): (r: Option<T>)
    ensures r.Some? <==> h.Some?
    ensures h.Some? ==> r.value == h.value.value
  {
    match h
    case Some(hit) => Some(hit.value)
    case None => None
  }

  // ---------------------------------------------------------------------
  // Currency pair: (?:Pair:|CURRENCY PAIR:|🇺🇸|📊)\s*([\w\/\-]+)

  const PairLabels: seq<string> := ["Pair:", "CURRENCY PAIR:", "\U{1F1FA}\U{1F1F8}", "\U{1F4CA}"]

  predicate IsPairChar(c: char) { IsWordChar(c) || c == '/' || c == '-' }

  /** `p` is the whole run of pair characters that follows `j` after optional whitespace. */
  ghost predicate PairTokenAfter(s: string, j: nat, p: string) {
    exists a: nat :: SpacesBetween(s, j, a) && At(s, a, p) && p != []
      && (forall k :: 0 <= k < |p| ==> IsPairChar(p[k]))
      && (a + |p| == |s| || !IsPairChar(s[a + |p|]))
  }

  /** After `j` and optional whitespace there is no pair character. */
  ghost predicate NoPairAfter(s: string, j: nat) {
    forall a: nat :: SpacesBetween(s, j, a) && a < |s| ==> !IsPairChar(s[a])
  }

  /**
   * `\s*([\w\/\-]+)` at `j`: the longest run of pair characters after any
   * whitespace. The code's `.strip()` of the group changes nothing, since no
   * pair character is whitespace, and the token is not upper-cased.
   */
  function PairToken(s: string, j: nat): Option<string> {
    if j > |s| then None
    else
      var a := SkipSpaces(s, j);
      var e := SpanEnd(s, a, IsPairChar);
      if a < e then Some(s[a..e]) else None
  }

  lemma PairTokenFound(s: string, j: nat)
    requires PairToken(s, j).Some?
    ensures PairTokenAfter(s, j, PairToken(s, j).value) && !NoPairAfter(s, j)
  {
    var a := SkipSpaces(s, j);
    var e := SpanEnd(s, a, IsPairChar);
    assert SpacesBetween(s, j, a) && At(s, a, s[a..e]) && IsPairChar(s[a]);
  }

  lemma PairTokenMissing(s: string, j: nat)
    requires PairToken(s, j).None?
    ensures NoPairAfter(s, j)
  {
    if j <= |s| {
      var a := SkipSpaces(s, j);
      forall b: nat | SpacesBetween(s, j, b) && b < |s|
        ensures !IsPairChar(s[b])
      {
      }
    }
  }

  predicate PairFollows(s: string, j: nat) { PairToken(s, j).Some? }

  /** The pattern tried at `i`: which label it matched. */
  function PairAt(s: string, i: nat): (r: Option<nat>)
    ensures r.Some? ==> r.value < |PairLabels|
  {
    FirstLabel(s, i, PairLabels, PairFollows)
  }

  /** The `currency_pair` field. */
  function CurrencyPair(text: string): Option<string> {
    match FindFirst<nat>(text, 0, PairAt)
    case None => None
    case Some(hit) => PairToken(text, hit.pos + |PairLabels[hit.value]|)
  }

  /** No label occurrence before `pos` is followed by a pair token. */
  ghost predicate NoPairBefore(text: string, pos: nat) {
    forall i: nat, k | i < pos && 0 <= k < |PairLabels| && At(text, i, PairLabels[k]) :: NoPairAfter(text, i + |PairLabels[k]|)
  }

  lemma PairTokenMissingBefore(text: string, pos: nat)
    requires forall i: nat, k | i < pos && 0 <= k < |PairLabels| && At(text, i, PairLabels[k]) :: !PairFollows(text, i + |PairLabels[k]|)
    ensures NoPairBefore(text, pos)
  {
    forall i: nat, k | i < pos && 0 <= k < |PairLabels| && At(text, i, PairLabels[k])
      ensures NoPairAfter(text, i + |PairLabels[k]|)
    {
      PairTokenMissing(text, i + |PairLabels[k]|);
    }
  }

  /**
   * The label `PairLabels[k]` occurs at `i`, is followed by the pair token
   * `v`, and no earlier label occurrence is followed by a pair token.
   */
  ghost predicate FirstPairLabel(text: string, i: nat, k: nat, v: string) {
    i <= |text| && k < |PairLabels| && At(text, i, PairLabels[k]) &&
    PairTokenAfter(text, i + |PairLabels[k]|, v) && NoPairBefore(text, i)
  }

  /**
   * The pair is the pair token after the leftmost label occurrence that is
   * followed by one, as it stands in the text; there is none exactly when no
   * label occurrence is followed by a pair token.
   */
  lemma PairField(text: string)
    ensures CurrencyPair(text).None? <==> NoPairBefore(text, |text| + 1)
    ensures CurrencyPair(text).Some? ==> exists i: nat, k: nat :: FirstPairLabel(text, i, k, CurrencyPair(text).value)
  {
    if FindFirst<nat>(text, 0, PairAt).None? {
      PairSearchFails(text);
    } else {
      PairSearchFinds(text);
    }
  }

  lemma PairSearchFails(text: string)
    requires FindFirst<nat>(text, 0, PairAt).None?
    ensures CurrencyPair(text).None? && NoPairBefore(text, |text| + 1)
  {
    LabelledSearchFails(text, PairLabels, PairFollows, PairAt);
    PairTokenMissingBefore(text, |text| + 1);
  }

  lemma PairSearchFinds(text: string)
    requires FindFirst<nat>(text, 0, PairAt).Some?
    ensures CurrencyPair(text).Some? && !NoPairBefore(text, |text| + 1)
    ensures exists i: nat, k: nat :: FirstPairLabel(text, i, k, CurrencyPair(text).value)
  {
    var i, k := PairSearchHit(text);
    PairWitness(text, i, k);
    assert FirstPairLabel(text, i, k, CurrencyPair(text).value);
  }

  /** Where the search stopped, stated without the search itself. */
  lemma PairSearchHit(text: string) returns (i: nat, k: nat)
    requires FindFirst<nat>(text, 0, PairAt).Some?
    ensures i <= |text| && k < |PairLabels| && At(text, i, PairLabels[k])
    ensures PairToken(text, i + |PairLabels[k]|).Some? && CurrencyPair(text) == PairToken(text, i + |PairLabels[k]|)
    ensures NoPairBefore(text, i)
  {
    var hit := FindFirst<nat>(text, 0, PairAt).value;
    i, k := hit.pos, hit.value;
    LabelledSearchHit(text, PairLabels, PairFollows, PairAt);
    PairSearchBefore(text);
  }

  lemma PairSearchBefore(text: string)
    requires FindFirst<nat>(text, 0, PairAt).Some?
    ensures NoPairBefore(text, FindFirst<nat>(text, 0, PairAt).value.pos)
  {
    LabelledSearchBefore(text, PairLabels, PairFollows, PairAt);
    PairTokenMissingBefore(text, FindFirst<nat>(text, 0, PairAt).value.pos);
  }

  lemma PairWitness(text: string, i: nat, k: nat)
    requires i <= |text| && k < |PairLabels| && At(text, i, PairLabels[k])
    requires PairToken(text, i + |PairLabels[k]|).Some? && NoPairBefore(text, i)
    ensures FirstPairLabel(text, i, k, PairToken(text, i + |PairLabels[k]|).value)
    ensures !NoPairBefore(text, |text| + 1)
  {
    PairTokenFound(text, i + |PairLabels[k]|);
  }

  // ---------------------------------------------------------------------
  // Direction: (BUY|SELL|CALL|PUT|🔼|🟥|🟩) with re.IGNORECASE

  /** The direction alternatives in pattern order, each with what `parse_signal` maps it to. */
  const DirectionTokens: seq<(string, Direction)> := [
    ("BUY", Buy), ("SELL", Sell), ("CALL", Buy), ("PUT", Sell),
    ("\U{1F53C}", Buy), ("\U{1F7E5}", Sell), ("\U{1F7E9}", Buy)]

  function DirectionAt(s: string, i: nat): Option<Direction> {
    TokenAt(s, i, DirectionTokens, true)
  }

  /** The `direction` field. */
  function DirectionOf(text: string): Option<Direction> {
    HitValue(FindFirst(text, 0, DirectionAt))
  }

  /**
   * The direction is decided by the leftmost direction token, in any case,
   * through the synonym table; there is none exactly when the text holds no
   * direction token.
   */
  lemma DirectionField(text: string)
    ensures DirectionOf(text).None? <==> (forall i: nat, k | i <= |text| && 0 <= k < |DirectionTokens| ::
                            !AtIgnoringCase(text, i, DirectionTokens[k].0))
    ensures DirectionOf(text).Some? ==> (exists i: nat, k | i <= |text| && 0 <= k < |DirectionTokens| ::
                           AtIgnoringCase(text, i, DirectionTokens[k].0) && DirectionOf(text).value == DirectionTokens[k].1
                           && (forall i': nat, k' | i' < i && 0 <= k' < |DirectionTokens| ::
                                 !AtIgnoringCase(text, i', DirectionTokens[k'].0)))
  {
    match FindFirst(text, 0, DirectionAt)
    case None =>
      forall i: nat, k | i <= |text| && 0 <= k < |DirectionTokens|
        ensures !AtIgnoringCase(text, i, DirectionTokens[k].0)
      {
        assert DirectionAt(text, i).None?;
        assert !TokenOccurs(text, i, DirectionTokens[k].0, true);
      }
    case Some(hit) =>
      assert DirectionAt(text, hit.pos) == Some(hit.value);
      var k :| 0 <= k < |DirectionTokens| && hit.value == DirectionTokens[k].1
        && TokenOccurs(text, hit.pos, DirectionTokens[k].0, true);
      assert AtIgnoringCase(text, hit.pos, DirectionTokens[k].0);
      forall i': nat, k' | i' < hit.pos && 0 <= k' < |DirectionTokens|
        ensures !AtIgnoringCase(text, i', DirectionTokens[k'].0)
      {
        assert DirectionAt(text, i').None?;
        assert !TokenOccurs(text, i', DirectionTokens[k'].0, true);
      }
  }

  // ---------------------------------------------------------------------
  // Entry time: (?:Entry Time:|Entry at|TIME \(UTC-03:00\):)\s*(\d{2}:\d{2}(?::\d{2})?)

  const EntryLabels: seq<string> := ["Entry Time:", "Entry at", "TIME (UTC-03:00):"]

  /** The two shapes the entry-time group can have: `DD:DD` or `DD:DD:DD`. */
  predicate TimeToken(t: string) {
    (|t| == 5 && Clock.HourMinuteShapeAt(t, 0))
    || (|t| == 8 && Clock.HourMinuteShapeAt(t, 0) && t[5] == ':' && Clock.TwoDigitsAt(t, 6))
  }

  /** `t` is the time read after `j` and optional whitespace, with seconds whenever they follow. */
  ghost predicate EntryTokenAfter(s: string, j: nat, t: string) {
    exists a: nat :: SpacesBetween(s, j, a) && At(s, a, t) && TimeToken(t)
      && (|t| == 5 ==> !(a + 5 < |s| && s[a + 5] == ':' && Clock.TwoDigitsAt(s, a + 6)))
  }

  /** After `j` and optional whitespace there is no `DD:DD`. */
  ghost predicate NoEntryAfter(s: string, j: nat) {
    forall a: nat :: SpacesBetween(s, j, a) ==> !Clock.HourMinuteShapeAt(s, a)
  }

  /** `\s*(\d{2}:\d{2}(?::\d{2})?)` at `j`; the optional seconds are taken whenever present. */
  function EntryToken(s: string, j: nat): Option<string> {
    if j > |s| then None
    else
      var a := SkipSpaces(s, j);
      if !Clock.HourMinuteShapeAt(s, a) then None
      else if a + 5 < |s| && s[a + 5] == ':' && Clock.TwoDigitsAt(s, a + 6) then Some(s[a..a + 8])
      else Some(s[a..a + 5])
  }

  lemma EntryTokenFound(s: string, j: nat)
    requires EntryToken(s, j).Some?
    ensures EntryTokenAfter(s, j, EntryToken(s, j).value) && !NoEntryAfter(s, j)
  {
    var a := SkipSpaces(s, j);
    assert SpacesBetween(s, j, a);
    if a + 5 < |s| && s[a + 5] == ':' && Clock.TwoDigitsAt(s, a + 6) {
      assert At(s, a, s[a..a + 8]);
    } else {
      assert At(s, a, s[a..a + 5]);
    }
  }

  lemma EntryTokenMissing(s: string, j: nat)
    requires EntryToken(s, j).None?
    ensures NoEntryAfter(s, j)
  {
    if j <= |s| {
      var a := SkipSpaces(s, j);
      forall b: nat | SpacesBetween(s, j, b)
        ensures !Clock.HourMinuteShapeAt(s, b)
      {
      }
    }
  }

  predicate EntryFollows(s: string, j: nat) { EntryToken(s, j).Some? }

  /** The pattern tried at `i`: which label it matched. */
  function EntryAt(s: string, i: nat): (r: Option<nat>)
    ensures r.Some? ==> r.value < |EntryLabels|
  {
    FirstLabel(s, i, EntryLabels, EntryFollows)
  }

  /** The `entry_time` field. */
  function EntryTime(text: string): Option<string> {
    match FindFirst<nat>(text, 0, EntryAt)
    case None => None
    case Some(hit) => EntryToken(text, hit.pos + |EntryLabels[hit.value]|)
  }

  /** No label occurrence before `pos` is followed by a time. */
  ghost predicate NoEntryBefore(text: string, pos: nat) {
    forall i: nat, k | i < pos && 0 <= k < |EntryLabels| && At(text, i, EntryLabels[k]) :: NoEntryAfter(text, i + |EntryLabels[k]|)
  }

  lemma EntryTokenMissingBefore(text: string, pos: nat)
    requires forall i: nat, k | i < pos && 0 <= k < |EntryLabels| && At(text, i, EntryLabels[k]) :: !EntryFollows(text, i + |EntryLabels[k]|)
    ensures NoEntryBefore(text, pos)
  {
    forall i: nat, k | i < pos && 0 <= k < |EntryLabels| && At(text, i, EntryLabels[k])
      ensures NoEntryAfter(text, i + |EntryLabels[k]|)
    {
      EntryTokenMissing(text, i + |EntryLabels[k]|);
    }
  }

  /**
   * The label `EntryLabels[k]` occurs at `i`, is followed by the time token
   * `v`, and no earlier label occurrence is followed by a time token.
   */
  ghost predicate FirstEntryLabel(text: string, i: nat, k: nat, v: string) {
    i <= |text| && k < |EntryLabels| && At(text, i, EntryLabels[k]) &&
    EntryTokenAfter(text, i + |EntryLabels[k]|, v) && NoEntryBefore(text, i)
  }

  /**
   * The entry time is the time after the leftmost label occurrence that is
   * followed by one, verbatim; there is none exactly when no label occurrence
   * is followed by a time.
   */
  lemma EntryField(text: string)
    ensures EntryTime(text).None? <==> NoEntryBefore(text, |text| + 1)
    ensures EntryTime(text).Some? ==> exists i: nat, k: nat :: FirstEntryLabel(text, i, k, EntryTime(text).value)
  {
    if FindFirst<nat>(text, 0, EntryAt).None? {
      EntrySearchFails(text);
    } else {
      EntrySearchFinds(text);
    }
  }

  lemma EntrySearchFails(text: string)
    requires FindFirst<nat>(text, 0, EntryAt).None?
    ensures EntryTime(text).None? && NoEntryBefore(text, |text| + 1)
  {
    LabelledSearchFails(text, EntryLabels, EntryFollows, EntryAt);
    EntryTokenMissingBefore(text, |text| + 1);
  }

  lemma EntrySearchFinds(text: string)
    requires FindFirst<nat>(text, 0, EntryAt).Some?
    ensures EntryTime(text).Some? && !NoEntryBefore(text, |text| + 1)
    ensures exists i: nat, k: nat :: FirstEntryLabel(text, i, k, EntryTime(text).value)
  {
    var i, k := EntrySearchHit(text);
    EntryWitness(text, i, k);
    assert FirstEntryLabel(text, i, k, EntryTime(text).value);
  }

  /** Where the search stopped, stated without the search itself. */
  lemma EntrySearchHit(text: string) returns (i: nat, k: nat)
    requires FindFirst<nat>(text, 0, EntryAt).Some?
    ensures i <= |text| && k < |EntryLabels| && At(text, i, EntryLabels[k])
    ensures EntryToken(text, i + |EntryLabels[k]|).Some? && EntryTime(text) == EntryToken(text, i + |EntryLabels[k]|)
    ensures NoEntryBefore(text, i)
  {
    var hit := FindFirst<nat>(text, 0, EntryAt).value;
    i, k := hit.pos, hit.value;
    LabelledSearchHit(text, EntryLabels, EntryFollows, EntryAt);
    EntrySearchBefore(text);
  }

  lemma EntrySearchBefore(text: string)
    requires FindFirst<nat>(text, 0, EntryAt).Some?
    ensures NoEntryBefore(text, FindFirst<nat>(text, 0, EntryAt).value.pos)
  {
    LabelledSearchBefore(text, EntryLabels, EntryFollows, EntryAt);
    EntryTokenMissingBefore(text, FindFirst<nat>(text, 0, EntryAt).value.pos);
  }

  lemma EntryWitness(text: string, i: nat, k: nat)
    requires i <= |text| && k < |EntryLabels| && At(text, i, EntryLabels[k])
    requires EntryToken(text, i + |EntryLabels[k]|).Some? && NoEntryBefore(text, i)
    ensures FirstEntryLabel(text, i, k, EntryToken(text, i + |EntryLabels[k]|).value)
    ensures !NoEntryBefore(text, |text| + 1)
  {
    EntryTokenFound(text, i + |EntryLabels[k]|);
  }

  // ---------------------------------------------------------------------
  // Timeframe: Expiration:?\s*(M1|M5|1 Minute|5 Minute)

  const TimeframeTokens: seq<(string, Timeframe)> := [("M1", M1), ("M5", M5), ("1 Minute", M1), ("5 Minute", M5)]

  /** After `j` and optional whitespace comes a timeframe token standing for `v`. */
  ghost predicate TimeframeTokenAfter(s: string, j: nat, v: Timeframe) {
    exists a: nat, k :: SpacesBetween(s, j, a) && 0 <= k < |TimeframeTokens|
      && At(s, a, TimeframeTokens[k].0) && TimeframeTokens[k].1 == v
  }

  ghost predicate NoTimeframeAfter(s: string, j: nat) {
    forall v :: !TimeframeTokenAfter(s, j, v)
  }

  /** `Expiration:?\s*` then a token for `v`, where "Expiration" starts at `i`. */
  ghost predicate TimeframeAfterLabel(s: string, i: nat, v: Timeframe) {
    TimeframeTokenAfter(s, i + 10, v) || (At(s, i + 10, ":") && TimeframeTokenAfter(s, i + 11, v))
  }

  ghost predicate NoTimeframeAfterLabel(s: string, i: nat) {
    NoTimeframeAfter(s, i + 10) && (At(s, i + 10, ":") ==> NoTimeframeAfter(s, i + 11))
  }

  function TimeframeToken(s: string, j: nat): Option<Timeframe> {
    if j > |s| then None else TokenAt(s, SkipSpaces(s, j), TimeframeTokens, false)
  }

  /** A token after the whitespace is what the scanner reads. */
  lemma TimeframeTokenOccurs(s: string, j: nat, b: nat, k: nat)
    requires SpacesBetween(s, j, b) && k < |TimeframeTokens| && At(s, b, TimeframeTokens[k].0)
    ensures TimeframeToken(s, j).Some?
  {
    assert s[b] == TimeframeTokens[k].0[0];
    SkipSpacesStops(s, j, b);
    assert TokenOccurs(s, b, TimeframeTokens[k].0, false);
  }

  lemma TimeframeTokenMeaning(s: string, j: nat)
    ensures TimeframeToken(s, j).Some? ==> TimeframeTokenAfter(s, j, TimeframeToken(s, j).value)
    ensures TimeframeToken(s, j).None? <==> NoTimeframeAfter(s, j)
  {
    if j <= |s| {
      var a := SkipSpaces(s, j);
      assert SpacesBetween(s, j, a);
      if TimeframeToken(s, j).None? {
        forall v | TimeframeTokenAfter(s, j, v)
          ensures false
        {
          var b: nat, k :| SpacesBetween(s, j, b) && 0 <= k < |TimeframeTokens|
            && At(s, b, TimeframeTokens[k].0) && TimeframeTokens[k].1 == v;
          TimeframeTokenOccurs(s, j, b, k);
        }
      }
    }
  }

  /** The optional colon is taken when present; without it the match is retried, as backtracking does. */
  function TimeframeAt(s: string, i: nat): Option<Timeframe> {
    if !At(s, i, "Expiration") then None
    else if At(s, i + 10, ":") && TimeframeToken(s, i + 11).Some? then TimeframeToken(s, i + 11)
    else TimeframeToken(s, i + 10)
  }

  lemma TimeframeAtMeaning(s: string, i: nat)
    ensures TimeframeAt(s, i).Some? ==> At(s, i, "Expiration") && TimeframeAfterLabel(s, i, TimeframeAt(s, i).value)
    ensures TimeframeAt(s, i).None? <==> !At(s, i, "Expiration") || NoTimeframeAfterLabel(s, i)
  {
    TimeframeTokenMeaning(s, i + 10);
    TimeframeTokenMeaning(s, i + 11);
  }

  /** The `timeframe` field. */
  function TimeframeOf(text: string): Option<Timeframe> {
    HitValue(FindFirst(text, 0, TimeframeAt))
  }

  /**
   * The timeframe is M1 for "M1" or "1 Minute" and M5 for "M5" or
   * "5 Minute", read after the leftmost "Expiration" followed by one; there
   * is none exactly when no "Expiration" is followed by one.
   */
  lemma TimeframeField(text: string)
    ensures TimeframeOf(text).None? <==> (forall i: nat | i <= |text| && At(text, i, "Expiration") :: NoTimeframeAfterLabel(text, i))
    ensures TimeframeOf(text).Some? ==> (exists i: nat | i <= |text| && At(text, i, "Expiration") ::
                           TimeframeAfterLabel(text, i, TimeframeOf(text).value)
                           && (forall i': nat | i' < i && At(text, i', "Expiration") :: NoTimeframeAfterLabel(text, i')))
  {
    match FindFirst(text, 0, TimeframeAt)
    case None =>
      forall i: nat | i <= |text| && At(text, i, "Expiration")
        ensures NoTimeframeAfterLabel(text, i)
      {
        TimeframeAtMeaning(text, i);
      }
    case Some(hit) =>
      TimeframeAtMeaning(text, hit.pos);
      forall i': nat | i' < hit.pos && At(text, i', "Expiration")
        ensures NoTimeframeAfterLabel(text, i')
      {
        TimeframeAtMeaning(text, i');
      }
  }

  // ---------------------------------------------------------------------
  // Martingale times: re.findall(r'(?:Level \d+|level(?: at)?|PROTECTION).*?\s*(\d{2}:\d{2})')

  /**
   * `.*?\s*(\d{2}:\d{2})` from `q`: the lazy `.*?` grows one character at a
   * time, never over a newline, and after each step `\s*` and the time are
   * tried. The result is where the captured time starts.
   */
  function LazyTail(s: string, q: nat): (r: Option<nat>)
    requires q <= |s|
    ensures r.Some? ==> q <= r.value && Clock.HourMinuteShapeAt(s, r.value)
    decreases |s| - q
  {
    var j := SkipSpaces(s, q);
    if Clock.HourMinuteShapeAt(s, j) then Some(j)
    else if q < |s| && s[q] != '\n' then LazyTail(s, q + 1)
    else None
  }

  /** `\d+` followed by the tail: the digit run is given back one digit at a time until the tail matches. */
  function DigitsThenTail(s: string, start: nat, e: nat): (r: Option<nat>)
    requires start < e <= |s|
    ensures r.Some? ==> start < r.value && Clock.HourMinuteShapeAt(s, r.value)
    decreases e
  {
    match LazyTail(s, e)
    case Some(j) => Some(j)
    case None => if e - 1 > start then DigitsThenTail(s, start, e - 1) else None
  }

  /** The martingale pattern tried at `i`: where its captured time starts. */
  function MartingaleAt(s: string, i: nat): (r: Option<nat>)
    ensures r.Some? ==> i < r.value && r.value + 5 <= |s| && Clock.HourMinuteShapeAt(s, r.value)
  {
    var levelNumber :=
      if At(s, i, "Level ") && SpanEnd(s, i + 6, IsDigit) > i + 6
      then DigitsThenTail(s, i + 6, SpanEnd(s, i + 6, IsDigit))
      else None;
    if levelNumber.Some? then levelNumber
    else
      var level :=
        if !At(s, i, "level") then None
        else if At(s, i + 5, " at") && LazyTail(s, i + 8).Some? then LazyTail(s, i + 8)
        else LazyTail(s, i + 5);
      if level.Some? then level
      else if At(s, i, "PROTECTION") then LazyTail(s, i + 10)
      else None
  }

  lemma MartingaleCapturesInside(s: string)
    ensures CapturesInside(s, 5, Clock.HourMinuteShapeAt, MartingaleAt)
  {
  }

  /** `re.findall` of the martingale pattern: where each captured time starts. */
  function MartingaleCaptures(s: string): (r: seq<nat>)
    ensures forall k :: 0 <= k < |r| ==> r[k] + 5 <= |s| && Clock.HourMinuteShapeAt(s, r[k])
  {
    MartingaleCapturesInside(s);
    FindAll(s, 0, 5, Clock.HourMinuteShapeAt, MartingaleAt)
  }

  /** The martingale times `re.findall` returns: each captured `DD:DD`, as it stands in the text. */
  function MartingaleTimes(s: string): (r: seq<string>)
    ensures |r| == |MartingaleCaptures(s)|
    ensures forall k :: 0 <= k < |r| ==> |r[k]| == 5 && Clock.HourMinuteShapeAt(r[k], 0)
  {
    var c := MartingaleCaptures(s);
    seq(|c|, k requires 0 <= k < |c| => Clock.ShapeAtSlice(s, c[k]); s[c[k]..c[k] + 5])
  }

  /** One of the three alternatives that open the martingale pattern occurs at `i`. */
  predicate MartingaleLabelAt(s: string, i: nat) {
    (At(s, i, "Level ") && i + 6 < |s| && IsDigit(s[i + 6])) || At(s, i, "level") || At(s, i, "PROTECTION")
  }

  lemma MartingaleAtLabel(s: string, i: nat, p: nat)
    requires i < p && MartingaleAt(s, i) == Some(p)
    ensures MartingaleLabelAt(s, i)
    ensures exists i': nat :: i' < p && MartingaleLabelAt(s, i') && MartingaleAt(s, i') == Some(p)
  {
  }

  /**
   * Where the opening alternative of the martingale pattern ends and `.*?`
   * begins: after the whole digit run of `Level \d+`, after `level`, or
   * after `PROTECTION`.
   */
  function MartingaleLabelEnd(s: string, i: nat): (e: nat)
    requires MartingaleLabelAt(s, i)
    ensures i < e <= |s|
  {
    if At(s, i, "Level ") && i + 6 < |s| && IsDigit(s[i + 6]) then SpanEnd(s, i + 6, IsDigit)
    else if At(s, i, "level") then i + 5
    else i + 10
  }

  /** No newline in `s[a..b]`, so `.*?` can cross it. */
  predicate SameLine(s: string, a: nat, b: nat)
    requires b <= |s|
  {
    forall k :: a <= k < b ==> s[k] != '\n'
  }

  /** The lazy tail from `q` stops at the latest at a time it reaches on the same line. */
  lemma {:induction false} LazyTailFinds(s: string, q: nat, x: nat)
    requires Clock.HourMinuteShapeAt(s, x) && q <= x && SameLine(s, q, x)
    ensures LazyTail(s, q).Some? && LazyTail(s, q).value <= x
    decreases x - q
  {
    var j := SkipSpaces(s, q);
    assert !IsSpace(s[x]);
    if !Clock.HourMinuteShapeAt(s, j) {
      assert q != x;
      LazyTailFinds(s, q + 1, x);
    }
  }

  /**
   * The pattern tried at a label continues with the lazy tail right after
   * the label when that tail finds a time: the `Level \d+` alternative keeps
   * its whole digit run, and `level at` captures what `level` would.
   */
  lemma MartingaleFromLabel(s: string, i: nat)
    requires MartingaleLabelAt(s, i) && LazyTail(s, MartingaleLabelEnd(s, i)).Some?
    ensures MartingaleAt(s, i) == LazyTail(s, MartingaleLabelEnd(s, i))
  {
    if At(s, i, "level") && At(s, i + 5, " at") {
      var word := s[i + 5..i + 8];
      assert word == " at";
      assert s[i + 5] == word[0] == ' ' && s[i + 6] == word[1] == 'a' && s[i + 7] == word[2] == 't';
      assert SkipSpaces(s, i + 6) == i + 6;
      assert SkipSpaces(s, i + 7) == i + 7;
      assert SkipSpaces(s, i + 5) == i + 6;
      assert LazyTail(s, i + 7) == LazyTail(s, i + 8);
      assert LazyTail(s, i + 6) == LazyTail(s, i + 8);
    }
  }

  /**
   * A martingale label followed on the same line by a `DD:DD` time always
   * yields a martingale time: the pattern tried at the label captures the
   * first time after the label that is reached without crossing a newline.
   */
  lemma MartingaleComplete(s: string, i: nat, x: nat)
    requires MartingaleLabelAt(s, i) && Clock.HourMinuteShapeAt(s, x)
    requires MartingaleLabelEnd(s, i) <= x && SameLine(s, MartingaleLabelEnd(s, i), x)
    ensures MartingaleAt(s, i).Some? && MartingaleLabelEnd(s, i) <= MartingaleAt(s, i).value <= x
    ensures forall y: nat ::
      Clock.HourMinuteShapeAt(s, y) && MartingaleLabelEnd(s, i) <= y && SameLine(s, MartingaleLabelEnd(s, i), y) ==>
      MartingaleAt(s, i).value <= y
    ensures MartingaleTimes(s) != []
  {
    var e := MartingaleLabelEnd(s, i);
    LazyTailFinds(s, e, x);
    MartingaleFromLabel(s, i);
    forall y: nat | Clock.HourMinuteShapeAt(s, y) && e <= y && SameLine(s, e, y)
      ensures MartingaleAt(s, i).value <= y
    {
      LazyTailFinds(s, e, y);
    }
    MartingaleNone(s);
  }

  /** Each martingale time is the captured `DD:DD`, copied verbatim from the text. */
  lemma MartingaleVerbatim(text: string)
    ensures var c := MartingaleCaptures(text);
      forall k :: 0 <= k < |c| ==> MartingaleTimes(text)[k] == text[c[k]..c[k] + 5]
  {
  }

  /**
   * The captured times appear in order and do not overlap, so the list keeps
   * the order of the text; repeated times are kept, since nothing removes them.
   */
  lemma MartingaleInOrder(text: string)
    ensures var c := MartingaleCaptures(text);
      forall k :: 0 <= k < |c| - 1 ==> c[k] + 5 <= c[k + 1]
  {
    MartingaleCapturesInside(text);
    assert MartingaleCaptures(text) == FindAll(text, 0, 5, Clock.HourMinuteShapeAt, MartingaleAt);
    FindAllInOrder(text, 0, 5, Clock.HourMinuteShapeAt, MartingaleAt);
  }

  /** Every captured time is the one the pattern captures after a martingale label before it. */
  lemma MartingaleAfterLabels(text: string)
    ensures var c := MartingaleCaptures(text);
      forall k :: 0 <= k < |c| ==> exists i: nat :: i < c[k] && MartingaleLabelAt(text, i) && MartingaleAt(text, i) == Some(c[k])
  {
    MartingaleCapturesInside(text);
    var c := MartingaleCaptures(text);
    assert c == FindAll(text, 0, 5, Clock.HourMinuteShapeAt, MartingaleAt);
    FindAllSound(text, 0, 5, Clock.HourMinuteShapeAt, MartingaleAt);
    forall k | 0 <= k < |c|
      ensures exists i: nat :: i < c[k] && MartingaleLabelAt(text, i) && MartingaleAt(text, i) == Some(c[k])
    {
      var i :| 0 <= i < c[k] && MartingaleAt(text, i) == Some(c[k]);
      MartingaleAtLabel(text, i, c[k]);
    }
  }

  /** There are no martingale times exactly when the pattern matches nowhere. */
  lemma MartingaleNone(text: string)
    ensures MartingaleTimes(text) == [] <==> forall i :: 0 <= i <= |text| ==> MartingaleAt(text, i).None?
  {
    MartingaleCapturesInside(text);
    assert MartingaleCaptures(text) == FindAll(text, 0, 5, Clock.HourMinuteShapeAt, MartingaleAt);
    FindAllStep(text, 0, 5, Clock.HourMinuteShapeAt, MartingaleAt);
  }

  // ---------------------------------------------------------------------
  // Default martingale times for "anna signals" alerts

  /** Minutes between attempts: 1 for M1 and 5 otherwise, an unknown timeframe included. */
  function AnnaInterval(tf: Option<Timeframe>): nat {
    if tf == Some(M1) then 1 else 5
  }

  /**
   * `[(entry_dt + timedelta(minutes=interval * i)).strftime(fmt) for i in range(1, 3)]`,
   * or no times at all when `strptime` raises on the entry time.
   */
  function AnnaDefault(entry: string, tf: Option<Timeframe>): (r: seq<string>)
    ensures Clock.ParseTime(entry).None? ==> r == []
    ensures Clock.ParseTime(entry).Some? ==> |r| == 2
    ensures Clock.ParseTime(entry).Some? ==> forall k :: 0 <= k < |r| ==>
      Clock.LayoutOf(r[k]) == Clock.LayoutOf(entry)
      && Clock.ParseTime(r[k]) == Some((Clock.ParseTime(entry).value + 60 * (k + 1) * AnnaInterval(tf)) % Clock.SecondsPerDay)
  {
    var interval := AnnaInterval(tf);
    match (Clock.AddMinutes(entry, interval), Clock.AddMinutes(entry, 2 * interval))
    case (Some(first), Some(second)) => [first, second]
    case _ => []
  }

  /** The fallback applies to "anna signals" alerts that list no martingale times but have an entry time. */
  predicate AnnaFallbackApplies(text: string) {
    Contains(Lower(text), "anna signals") && MartingaleTimes(text) == [] && EntryTime(text).Some?
  }

  // ---------------------------------------------------------------------

  /** `parse_signal`: the five fields, each from its own search of the whole text. */
  function ParseSignal(text: string): ParsedSignal {
    ParsedSignal(
      CurrencyPair(text),
      DirectionOf(text),
      EntryTime(text),
      TimeframeOf(text),
      if AnnaFallbackApplies(text) then AnnaDefault(EntryTime(text).value, TimeframeOf(text)) else MartingaleTimes(text))
  }

  /**
   * The martingale times of a parsed signal: the listed times unless the
   * fallback applies; then none when the entry time does not parse, and
   * otherwise exactly two, the entry time moved on by one and by two
   * intervals around the clock, written in the entry time's own layout.
   */
  lemma ParsedMartingaleTimes(text: string)
    ensures !AnnaFallbackApplies(text) ==> ParseSignal(text).martingaleTimes == MartingaleTimes(text)
    ensures AnnaFallbackApplies(text) && Clock.ParseTime(EntryTime(text).value).None? ==> ParseSignal(text).martingaleTimes == []
    ensures AnnaFallbackApplies(text) && Clock.ParseTime(EntryTime(text).value).Some? ==>
      var entry, times := EntryTime(text).value, ParseSignal(text).martingaleTimes;
      var t, interval := Clock.ParseTime(entry).value, AnnaInterval(TimeframeOf(text));
      && |times| == 2
      && Clock.LayoutOf(times[0]) == Clock.LayoutOf(entry) && Clock.LayoutOf(times[1]) == Clock.LayoutOf(entry)
      && Clock.ParseTime(times[0]) == Some((t + 60 * interval) % Clock.SecondsPerDay)
      && Clock.ParseTime(times[1]) == Some((t + 120 * interval) % Clock.SecondsPerDay)
  {
  }

  /** A pair or an entry time that was found is never empty, so Python reads it as true. */
  lemma FoundFieldsNonEmpty(text: string)
    ensures CurrencyPair(text).Some? ==> CurrencyPair(text).value != []
    ensures EntryTime(text).Some? ==> EntryTime(text).value != []
  {
    if CurrencyPair(text).Some? {
      PairField(text);
      var i: nat, k: nat :| FirstPairLabel(text, i, k, CurrencyPair(text).value);
    }
    if EntryTime(text).Some? {
      EntryField(text);
      var i: nat, k: nat :| FirstEntryLabel(text, i, k, EntryTime(text).value);
    }
  }
}
