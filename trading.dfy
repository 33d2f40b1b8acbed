/**
 * The trade manager of `core.py`: the trading switch flipped by `/start` and
 * `/stop`, the plan of attempts a signal turns into (one entry at the base
 * stake, then martingale legs at doubling stakes), the wait before each
 * attempt, and the listener's split of incoming messages into commands and
 * signals.
 */
module Trading {
  import opened Wrappers
  import opened Text
  import Clock
  import SignalParser

  type Direction = SignalParser.Direction

  /**
   * The signal dictionary `handle_signal` reads: its `entry_time`,
   * `direction`, `martingale_times` and `timezone` entries. `None` stands for
   * an entry that holds `None` or, for `entry_time` and `timezone`, a missing
   * key. The listener's dictionaries always carry a `direction` key, so the
   * `"BUY"` default of `signal.get('direction', 'BUY')` never applies to them
   * and a `None` direction is passed on as it is.
   */
  datatype Signal = Signal(
    entryTime: Option<string>,
    direction: Option<Direction>,
    martingaleTimes: seq<string>,
    timezone: Option<string>)

  /**
   * The dictionary `parse_signal` builds has no `timezone` key, so the
   * manager never shifts the entry time of a signal the listener forwards.
   */
  function SignalOf(p: SignalParser.ParsedSignal): (r: Signal)
    ensures ShiftedEntry(r) == p.entryTime
  {
    Signal(p.entryTime, p.direction, p.martingaleTimes, None)
  }

  /** One call of `schedule_trade`: when, which way, how much, at which martingale level. */
  datatype Attempt = Attempt(time: string, direction: Option<Direction>, amount: real, level: nat)

  /** `2 ** n`. */
  function Pow2(n: nat): (r: nat)
    ensures r >= 1
  {
    if n == 0 then 1 else 2 * Pow2(n - 1)
  }

  // ---------------------------------------------------------------------
  // Commands

  /** What `handle_command` leaves in `trading_active`, given what was there. */
  function CommandEffect(command: string, active: bool): bool {
    var cmd := Lower(Strip(command));
    if StartsWith(cmd, "/start") then true
    else if StartsWith(cmd, "/stop") then false
    else active
  }

  /** Sending the same command twice has the effect of sending it once. */
  lemma CommandIdempotent(command: string, active: bool)
    ensures CommandEffect(command, CommandEffect(command, active)) == CommandEffect(command, active)
    ensures CommandEffect(command, active) != active ==>
      (StartsWith(Lower(Strip(command)), "/start") || StartsWith(Lower(Strip(command)), "/stop"))
  {
  }

  /** Commands are recognised whatever the case of their letters. */
  lemma CommandIgnoresCase(command: string, active: bool)
    ensures CommandEffect(Upper(command), active) == CommandEffect(command, active)
  {
    StripUpper(command);
    LowerUpper(Strip(command));
  }

  lemma LowerUpper(s: string)
    ensures Lower(Upper(s)) == Lower(s)
  {
  }

  /** Upper-casing turns no character into whitespace and no whitespace into anything else. */
  lemma UpperKeepsSpace(c: char)
    ensures IsSpace(UpperChar(c)) == IsSpace(c)
  {
  }

  lemma {:induction false} TrimStartUpper(s: string)
    ensures TrimStart(Upper(s)) == Upper(TrimStart(s))
    decreases |s|
  {
    var u := Upper(s);
    if s == [] {
      assert u == [];
    } else {
      UpperKeepsSpace(s[0]);
      assert IsSpace(u[0]) == IsSpace(s[0]);
      if IsSpace(s[0]) {
        assert u[1..] == Upper(s[1..]);
        TrimStartUpper(s[1..]);
        assert TrimStart(u) == TrimStart(u[1..]);
        assert TrimStart(s) == TrimStart(s[1..]);
      } else {
        assert TrimStart(u) == u;
        assert TrimStart(s) == s;
      }
    }
  }

  lemma {:induction false} TrimEndUpper(s: string)
    ensures TrimEnd(Upper(s)) == Upper(TrimEnd(s))
    decreases |s|
  {
    var u := Upper(s);
    if s == [] {
      assert u == [];
    } else {
      UpperKeepsSpace(s[|s| - 1]);
      assert IsSpace(u[|u| - 1]) == IsSpace(s[|s| - 1]);
      if IsSpace(s[|s| - 1]) {
        assert u[..|u| - 1] == Upper(s[..|s| - 1]);
        TrimEndUpper(s[..|s| - 1]);
        assert TrimEnd(u) == TrimEnd(u[..|u| - 1]);
        assert TrimEnd(s) == TrimEnd(s[..|s| - 1]);
      } else {
        assert TrimEnd(u) == u;
        assert TrimEnd(s) == s;
      }
    }
  }

  lemma StripUpper(s: string)
    ensures Strip(Upper(s)) == Upper(Strip(s))
  {
    TrimStartUpper(s);
    TrimEndUpper(TrimStart(s));
  }

  // ---------------------------------------------------------------------
  // The plan a signal turns into

  /** `handle_signal`'s UTC-4 adjustment: one hour later when the tag is `UTC-4` and the time parses. */
  function ShiftedEntry(signal: Signal): Option<string> {
    if signal.timezone == Some("UTC-4") && signal.entryTime.Some? then
      match Clock.AddMinutes(signal.entryTime.value, 60)
      case Some(t) => Some(t)
      case None => signal.entryTime
    else signal.entryTime
  }

  /**
   * Only a `UTC-4` tag moves the entry time: one hour later around the clock,
   * in the same `HH:MM` or `HH:MM:SS` layout; a time that does not parse, and
   * any other tag, leave it as it was.
   */
  lemma TimezoneShift(signal: Signal)
    ensures signal.timezone != Some("UTC-4") ==> ShiftedEntry(signal) == signal.entryTime
    ensures signal.entryTime.None? ==> ShiftedEntry(signal).None?
    ensures signal.entryTime.Some? && Clock.ParseTime(signal.entryTime.value).None? ==> ShiftedEntry(signal) == signal.entryTime
    ensures signal.timezone == Some("UTC-4") && signal.entryTime.Some? && Clock.ParseTime(signal.entryTime.value).Some? ==>
      var e, t := signal.entryTime.value, Clock.ParseTime(signal.entryTime.value).value;
      && ShiftedEntry(signal).Some?
      && Clock.LayoutOf(ShiftedEntry(signal).value) == Clock.LayoutOf(e)
      && Clock.ParseTime(ShiftedEntry(signal).value) == Some((t + 3600) % Clock.SecondsPerDay)
  {
  }

  /** The level-0 attempt: scheduled when the (shifted) entry time is a non-empty string. */
  function Primary(entry: Option<string>, direction: Option<Direction>, base: real): seq<Attempt> {
    if entry.Some? && entry.value != [] then [Attempt(entry.value, direction, base, 0)] else []
  }

  /**
   * The martingale attempts for the times from level `level` on: the time at
   * level `n` gets stake `base * 2 ** n`, and the first level above `max`
   * ends the list.
   */
  function Legs(times: seq<string>, direction: Option<Direction>, base: real, level: nat, max: int): seq<Attempt>
    decreases |times|
  {
    if times == [] || level > max then []
    else [Attempt(times[0], direction, Stake(base, level), level)] + Legs(times[1..], direction, base, level + 1, max)
  }

  /**
   * Every attempt a signal leads to while trading is active, in the order
   * they are scheduled, given its entry time after the timezone adjustment.
   */
  function Plan(entry: Option<string>, direction: Option<Direction>, times: seq<string>, base: real, max: int): seq<Attempt> {
    Primary(entry, direction, base) + Legs(times, direction, base, 1, max)
  }

  /** The stake at martingale level `level`: `base * 2 ** level`. */
  function Stake(base: real, level: nat): real {
    base * Pow2(level) as real
  }

  function Min(a: int, b: int): int { if a <= b then a else b }

  /**
   * The legs are the times in list order, with duplicates kept: the `k`-th
   * is at `times[k]`, at level `level + k` and stake `base * 2 ** (level + k)`;
   * there are as many as there are times, but none above level `max`.
   */
  lemma {:induction false} LegsShape(times: seq<string>, direction: Option<Direction>, base: real, level: nat, max: int)
    ensures var legs := Legs(times, direction, base, level, max);
      |legs| == Min(|times|, if max < level then 0 else max - level + 1)
    ensures var legs := Legs(times, direction, base, level, max);
      forall k :: 0 <= k < |legs| ==> legs[k] == Attempt(times[k], direction, Stake(base, level + k), level + k)
    decreases |times|
  {
    if times != [] && level <= max {
      LegsShape(times[1..], direction, base, level + 1, max);
      var legs := Legs(times, direction, base, level, max);
      var rest := Legs(times[1..], direction, base, level + 1, max);
      assert legs == [legs[0]] + rest;
      forall k | 1 <= k < |legs|
        ensures legs[k] == Attempt(times[k], direction, Stake(base, level + k), level + k)
      {
        assert legs[k] == rest[k - 1];
      }
    }
  }

  /**
   * While trading is active a signal leads to one entry attempt when its
   * entry time is a non-empty string and none otherwise, and then
   * `min(len(martingale_times), max_martingale)` martingale legs.
   */
  lemma PlanLength(entry: Option<string>, direction: Option<Direction>, times: seq<string>, base: real, max: int)
    ensures |Plan(entry, direction, times, base, max)|
      == (if entry.Some? && entry.value != [] then 1 else 0) + Min(|times|, if max < 1 then 0 else max)
  {
    LegsShape(times, direction, base, 1, max);
  }

  /**
   * The entry attempt comes first, at level 0 and the base stake; the `k`-th
   * martingale leg follows at `times[k]`, level `k + 1` and stake
   * `base * 2 ** (k + 1)`.
   */
  lemma PlanAttempts(entry: Option<string>, direction: Option<Direction>, times: seq<string>, base: real, max: int)
    ensures var plan, p := Plan(entry, direction, times, base, max), |Primary(entry, direction, base)|;
      && p <= |plan| <= p + |times|
      && (p == 1 ==> plan[0] == Attempt(entry.value, direction, base, 0))
      && (forall k :: 0 <= k < |plan| - p ==>
            plan[p + k] == Attempt(times[k], direction, Stake(base, k + 1), k + 1))
  {
    LegsShape(times, direction, base, 1, max);
    var plan, p := Plan(entry, direction, times, base, max), |Primary(entry, direction, base)|;
    var legs := Legs(times, direction, base, 1, max);
    forall k | 0 <= k < |plan| - p
      ensures plan[p + k] == Attempt(times[k], direction, Stake(base, k + 1), k + 1)
    {
      assert plan[p + k] == legs[k];
    }
  }

  /** Every attempt of a plan goes in the signal's direction, `None` included. */
  lemma PlanDirection(entry: Option<string>, direction: Option<Direction>, times: seq<string>, base: real, max: int)
    ensures forall a :: a in Plan(entry, direction, times, base, max) ==> a.direction == direction
  {
    PlanAttempts(entry, direction, times, base, max);
    var plan, p := Plan(entry, direction, times, base, max), |Primary(entry, direction, base)|;
    forall a | a in plan
      ensures a.direction == direction
    {
      var n :| 0 <= n < |plan| && plan[n] == a;
      if n >= p {
        assert plan[p + (n - p)] == Attempt(times[n - p], direction, Stake(base, n - p + 1), n - p + 1);
      } else {
        assert p == 1 && n == 0;
        assert plan[0] == Attempt(entry.value, direction, base, 0);
      }
    }
  }

  /** One martingale leg is scheduled at index `i` when its level is within `max`. */
  lemma LegsStep(times: seq<string>, direction: Option<Direction>, base: real, i: nat, max: int)
    requires i < |times| && i + 1 <= max
    ensures Legs(times[i..], direction, base, i + 1, max)
      == [Attempt(times[i], direction, Stake(base, i + 1), i + 1)] + Legs(times[i + 1..], direction, base, i + 2, max)
  {
    assert times[i..][0] == times[i];
    assert times[i..][1..] == times[i + 1..];
  }

  lemma StakeDoubles(base: real, level: nat)
    ensures Stake(base, level + 1) == 2.0 * Stake(base, level)
  {
    var p := Pow2(level) as real;
    assert Pow2(level + 1) as real == 2.0 * p;
    assert base * (2.0 * p) == 2.0 * (base * p);
  }

  /** Each martingale leg stakes twice what the leg before it stakes. */
  lemma LegsDouble(times: seq<string>, direction: Option<Direction>, base: real, max: int)
    ensures var legs := Legs(times, direction, base, 1, max);
      forall k :: 0 <= k < |legs| - 1 ==> legs[k + 1].amount == 2.0 * legs[k].amount
  {
    LegsShape(times, direction, base, 1, max);
    var legs := Legs(times, direction, base, 1, max);
    forall k | 0 <= k < |legs| - 1
      ensures legs[k + 1].amount == 2.0 * legs[k].amount
    {
      StakeDoubles(base, k + 1);
    }
  }

  // ---------------------------------------------------------------------
  // Waiting for the attempt's time

  /**
   * The seconds `wait_until_time` sleeps before an attempt at `time` when the
   * clock reads `now` seconds into the day; `None` when the time does not
   * parse, and then the attempt is placed at once.
   */
  function WaitSeconds(time: string, now: nat): Option<nat>
    requires now < Clock.SecondsPerDay
  {
    match Clock.ParseTime(time)
    case None => None
    case Some(target) =>
      if target < now then Some(target + 24 * 3600 - now) else Some(target - now)
  }

  /** The time of day `w` seconds after `now`. */
  function TimeOfDayAfter(now: nat, w: nat): nat {
    (now + w) % Clock.SecondsPerDay
  }

  /**
   * The wait is less than a day and ends exactly at the target time of day,
   * and it is the shortest such wait: a time already passed today means
   * tomorrow, and the current second means no wait at all.
   */
  lemma WaitReachesTarget(time: string, now: nat)
    requires now < Clock.SecondsPerDay
    ensures WaitSeconds(time, now).None? <==> Clock.ParseTime(time).None?
    ensures WaitSeconds(time, now).Some? ==>
      var w, target := WaitSeconds(time, now).value, Clock.ParseTime(time).value;
      && w < Clock.SecondsPerDay
      && TimeOfDayAfter(now, w) == target
      && (forall w': nat :: w' < w ==> TimeOfDayAfter(now, w') != target)
      && (w == 0 <==> target == now)
  {
    if Clock.ParseTime(time).Some? {
      var w, target := WaitSeconds(time, now).value, Clock.ParseTime(time).value;
      assert target < Clock.SecondsPerDay;
      forall w': nat | w' < w
        ensures TimeOfDayAfter(now, w') != target
      {
        if now + w' < Clock.SecondsPerDay {
          assert (now + w') % Clock.SecondsPerDay == now + w';
        } else {
          assert (now + w') % Clock.SecondsPerDay == now + w' - Clock.SecondsPerDay;
        }
      }
      if target < now {
        assert (now + w) % Clock.SecondsPerDay == now + w - Clock.SecondsPerDay;
      }
    }
  }

  // ---------------------------------------------------------------------
  // The manager

  class TradeManager {
    var tradingActive: bool
    var baseAmount: real
    var maxMartingale: int
    /** The attempts handed to `schedule_trade` so far, oldest first. */
    var scheduled: seq<Attempt>

    /** A new manager: trading off, nothing scheduled. */
    constructor(baseAmount: real, maxMartingale: int)
      ensures !tradingActive && scheduled == []
      ensures this.baseAmount == baseAmount && this.maxMartingale == maxMartingale
    {
      tradingActive := false;
      this.baseAmount := baseAmount;
      this.maxMartingale := maxMartingale;
      scheduled := [];
    }

    /** `handle_command`: only the trading switch can change. */
    method HandleCommand(command: string)
      modifies this
      ensures tradingActive == CommandEffect(command, old(tradingActive))
      ensures baseAmount == old(baseAmount) && maxMartingale == old(maxMartingale) && scheduled == old(scheduled)
    {
      var cmd := Lower(Strip(command));
      if StartsWith(cmd, "/start") {
        tradingActive := true;
      } else if StartsWith(cmd, "/stop") {
        tradingActive := false;
      }
    }

    /** `schedule_trade`: the attempt joins the end of the list. */
    method ScheduleTrade(time: string, direction: Option<Direction>, amount: real, level: nat)
      modifies this
      ensures scheduled == old(scheduled) + [Attempt(time, direction, amount, level)]
      ensures tradingActive == old(tradingActive) && baseAmount == old(baseAmount) && maxMartingale == old(maxMartingale)
    {
      scheduled := scheduled + [Attempt(time, direction, amount, level)];
    }

    /**
     * `handle_signal`: nothing while trading is off; otherwise the signal's
     * plan is scheduled, in order, after what was scheduled before.
     */
    method HandleSignal(signal: Signal)
      modifies this
      ensures scheduled == old(scheduled)
        + (if old(tradingActive)
           then Plan(ShiftedEntry(signal), signal.direction, signal.martingaleTimes, old(baseAmount), old(maxMartingale))
           else [])
      ensures tradingActive == old(tradingActive) && baseAmount == old(baseAmount) && maxMartingale == old(maxMartingale)
    {
      if !tradingActive {
        return;
      }
      ghost var before := scheduled;
      var entryTime := ShiftedEntry(signal);
      ghost var primary := Primary(entryTime, signal.direction, baseAmount);
      if entryTime.Some? && entryTime.value != [] {
        ScheduleTrade(entryTime.value, signal.direction, baseAmount, 0);
      }
      assert scheduled == before + primary;
      ScheduleMartingale(signal.martingaleTimes, signal.direction);
      ghost var legs := Legs(signal.martingaleTimes, signal.direction, old(baseAmount), 1, old(maxMartingale));
      assert scheduled == before + primary + legs;
      assert before + primary + legs == before + (primary + legs);
    }

    /**
     * The loop of `handle_signal` over `martingale_times`: the time at index
     * `i` is scheduled at level `i + 1`, until a level above `max_martingale`
     * stops the loop.
     */
    method ScheduleMartingale(times: seq<string>, direction: Option<Direction>)
      modifies this
      ensures scheduled == old(scheduled) + Legs(times, direction, old(baseAmount), 1, old(maxMartingale))
      ensures tradingActive == old(tradingActive) && baseAmount == old(baseAmount) && maxMartingale == old(maxMartingale)
    {
      var base, max := baseAmount, maxMartingale;
      assert times[0..] == times;
      var i := 0;
      while i < |times|
        invariant 0 <= i <= |times|
        invariant tradingActive == old(tradingActive) && baseAmount == base && maxMartingale == max
        invariant scheduled + Legs(times[i..], direction, base, i + 1, max) == old(scheduled) + Legs(times, direction, base, 1, max)
      {
        if i + 1 > max {
          break;
        }
        var amount := base * Pow2(i + 1) as real;
        assert amount == Stake(base, i + 1);
        LegsStep(times, direction, base, i, max);
        ghost var before, next := scheduled, Attempt(times[i], direction, amount, i + 1);
        ghost var rest := Legs(times[i + 1..], direction, base, i + 2, max);
        assert Legs(times[i..], direction, base, i + 1, max) == [next] + rest;
        ScheduleTrade(times[i], direction, amount, i + 1);
        assert scheduled + rest == before + ([next] + rest);
        i := i + 1;
      }
    }
  }

  // ---------------------------------------------------------------------
  // The listener

  /** Where the listener sends a message. */
  datatype Route = ToCommand(command: string) | ToSignal(signal: SignalParser.ParsedSignal) | Ignored

  /** Python's truth value of an optional string: present and not empty. */
  predicate Truthy(field: Option<string>) {
    field.Some? && field.value != []
  }

  /** The listener's handler: commands by their exact prefix, otherwise a parsed signal with a pair and an entry time. */
  function RouteOf(text: string): Route {
    if StartsWith(text, "/start") || StartsWith(text, "/stop") then ToCommand(text)
    else
      var signal := SignalParser.ParseSignal(text);
      if Truthy(signal.currencyPair) && Truthy(signal.entryTime) then ToSignal(signal) else Ignored
  }

  /**
   * A message is a command exactly when it starts, with that exact case,
   * with `/start` or `/stop`; any other message is forwarded exactly when its
   * parse found a pair and an entry time, whatever its direction.
   */
  lemma RouteSplit(text: string)
    ensures RouteOf(text).ToCommand? <==> StartsWith(text, "/start") || StartsWith(text, "/stop")
    ensures RouteOf(text).ToCommand? ==> RouteOf(text).command == text
    ensures RouteOf(text).ToSignal? <==>
      && !(StartsWith(text, "/start") || StartsWith(text, "/stop"))
      && SignalParser.CurrencyPair(text).Some? && SignalParser.EntryTime(text).Some?
    ensures RouteOf(text).ToSignal? ==> RouteOf(text).signal == SignalParser.ParseSignal(text)
  {
    SignalParser.FoundFieldsNonEmpty(text);
  }

  /**
   * A forwarded message always leads, while trading is active, to its entry
   * attempt at the parsed entry time (never shifted) and the base stake,
   * followed by `min(len(martingale_times), max_martingale)` martingale legs.
   */
  lemma ForwardedSignalPlan(text: string, base: real, max: int)
    requires RouteOf(text).ToSignal?
    ensures var parsed := SignalParser.ParseSignal(text);
      var signal := SignalOf(RouteOf(text).signal);
      var plan := Plan(ShiftedEntry(signal), signal.direction, signal.martingaleTimes, base, max);
      && |plan| == 1 + Min(|parsed.martingaleTimes|, if max < 1 then 0 else max)
      && plan[0] == Attempt(SignalParser.EntryTime(text).value, parsed.direction, base, 0)
  {
    RouteSplit(text);
    var parsed := SignalParser.ParseSignal(text);
    var signal := SignalOf(parsed);
    SignalParser.FoundFieldsNonEmpty(text);
    PlanLength(ShiftedEntry(signal), signal.direction, signal.martingaleTimes, base, max);
    PlanAttempts(ShiftedEntry(signal), signal.direction, signal.martingaleTimes, base, max);
  }

  /** One incoming message, handed to the manager as the listener does. */
  method OnMessage(manager: TradeManager, text: string)
    modifies manager
    ensures match RouteOf(text)
      case ToCommand(command) =>
        && manager.tradingActive == CommandEffect(command, old(manager.tradingActive))
        && manager.scheduled == old(manager.scheduled)
      case ToSignal(signal) =>
        && manager.tradingActive == old(manager.tradingActive)
        && manager.scheduled == old(manager.scheduled)
             + (if old(manager.tradingActive)
                then Plan(signal.entryTime, signal.direction, signal.martingaleTimes, old(manager.baseAmount), old(manager.maxMartingale))
                else [])
      case Ignored =>
        manager.tradingActive == old(manager.tradingActive) && manager.scheduled == old(manager.scheduled)
    ensures manager.baseAmount == old(manager.baseAmount) && manager.maxMartingale == old(manager.maxMartingale)
  {
    match RouteOf(text)
    case ToCommand(command) =>
      manager.HandleCommand(command);
    case ToSignal(signal) =>
      manager.HandleSignal(SignalOf(signal));
    case Ignored =>
  }
}
