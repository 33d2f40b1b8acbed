# Signal parsing and timed martingale scheduling, in Dafny

This project models the decision logic of a bot that trades on alerts posted to a
Telegram channel. The bot reads free-text alerts, extracts a trade instruction,
and schedules a primary attempt plus "martingale" follow-ups whose stake doubles
at each level. It also classifies results scraped from the trading web page as
WIN, LOSS or nothing. The model follows the code:

- `SignalParser` models `parse_signal` (`core.py`). It finds the pair after one of
  four labels, and the direction from a case-insensitive synonym table. It finds
  the labelled entry time, the expiry timeframe, and every label-following
  `HH:MM` martingale time. It also models the "anna signals" fallback, which
  derives two martingale times from the entry time.
- `Clock` models the `strptime`/`strftime` round trip on `HH:MM` and
  `HH:MM:SS` times of day. It adds minutes modulo 24 hours and keeps the
  original layout.
- `Trading` models the listener's split between commands and signals. It also
  models `TradeManager` as a class with the activation flag, the stake settings
  and the list of scheduled attempts:
  - `handle_command` sets or clears the flag;
  - `handle_signal` applies the UTC-4 shift to the entry time and appends the
    level-0 attempt and the martingale legs;
  - `schedule_trade` is an append;
  - the wait before an attempt is a pure function of the target time and the
    current second of the day.
- `ResultDetection` models both result detectors: the ordered text and colour
  rules of `selenium_integration.py` and the simpler `+`/`$0` rule of
  `core.py`. Each detector scans abstract element records selector by selector.
  It also models the monitor loop, which reports a result only when it differs
  from the last one reported.
- `TelegramSignal` models `parse_trading_signal` (`telegram_integration.py`).
  This is the stricter `BUY|SELL PAIR at|@ PRICE` format. The entry time comes
  from two time patterns tried in order, and a time already past moves to the
  next day. The clock reading is a parameter.
- `Text` holds the character classes, trimming and case mapping shared by the
  parsers. It also holds the leftmost-match search (`re.search`) and the
  non-overlapping scan (`re.findall`) that the hand-written pattern scanners use.

Each regular expression of the source is a hand-written scanner. It reproduces
Python's backtracking for that one pattern: leftmost match, alternatives in the
order written, greedy and lazy repetition.

The model follows `core.py` as written, which has these consequences:

- a signal is forwarded when it has a pair and an entry time, even with no
  direction;
- only the entry time is shifted for UTC-4, not the martingale times;
- duplicate martingale times are kept;
- nothing suppresses later martingale attempts after a win, because no code
  connects the result monitor to the scheduler.

## Model

| member | source | states |
|---|---|---|
| Text.Strip | core.py:362 | `str.strip()`: the result is a slice of the input with no whitespace at either end |
| Text.StripCutsSpace | core.py:362 | everything `str.strip()` cuts off before and after the slice it keeps is whitespace |
| Text.TrimStart | core.py:362 | the leading part removed is all whitespace, and what remains starts with a non-space |
| Text.TrimEnd | core.py:362 | the trailing part removed is all whitespace, and what remains ends with a non-space |
| Text.FindAllStep | core.py:216 | `re.findall` finds nothing exactly when the pattern matches nowhere; its first capture comes from the leftmost match, and the search resumes after that capture |
| Text.FindAllInOrder | core.py:216 | `re.findall` returns its captures in order of position, never overlapping |
| Text.FindAllSound | core.py:216 | every capture `re.findall` returns comes from a match of the pattern that starts before it |
| Clock.Parse | core.py:417-418 | `strptime` with `%H:%M` or `%H:%M:%S` accepts only a well-formed time of day and yields its second of the day, which is less than 86400 |
| Clock.FormatThenParse | core.py:382-385 | formatting a second of the day and parsing it back gives the same second and the same layout |
| Clock.ParseThenFormat | core.py:382-385 | a parsed time formatted in its own layout is the original text |
| Clock.AddMinutes | core.py:222-228 | adding minutes succeeds exactly when the time parses, keeps the `HH:MM` or `HH:MM:SS` layout, and wraps modulo 24 hours |
| SignalParser.PairField | core.py:191-193 | the pair is the `[\w/-]+` token after the first label (`Pair:`, `CURRENCY PAIR:`, 🇺🇸, 📊) followed by one, kept verbatim; it is absent exactly when no label is followed by a token |
| SignalParser.DirectionField | core.py:196-202 | the direction comes from the first synonym in the text, matched case-insensitively: BUY, CALL, 🔼 and 🟩 mean BUY, and SELL, PUT and 🟥 mean SELL; no synonym leaves it absent |
| SignalParser.EntryField | core.py:205-207 | the entry time is the `HH:MM` or `HH:MM:SS` token after the first of the three labels followed by one, kept verbatim; it is absent exactly when there is none |
| SignalParser.TimeframeAtMeaning | core.py:210 | `Expiration`, an optional colon, then spaces and M1, M5, `1 Minute` or `5 Minute` |
| SignalParser.TimeframeField | core.py:210-213 | the timeframe is M1 for `M1`/`1 Minute` and M5 for `M5`/`5 Minute` at the first `Expiration` followed by one; otherwise it is absent |
| SignalParser.MartingaleAt | core.py:216 | a martingale match captures two digits, a colon and two digits somewhere after where it starts |
| SignalParser.LazyTailFinds | core.py:216 | `.*?\s*(\d{2}:\d{2})` from a position always matches when a `DD:DD` follows on the same line, and captures one no later than it |
| SignalParser.MartingaleFromLabel | core.py:216 | at a label the pattern captures what the lazy tail right after the label captures: `Level \d+` keeps its whole digit run when that works, and `level at` captures what `level` would |
| SignalParser.MartingaleComplete | core.py:216-217 | a label followed on the same line by a `DD:DD` always yields a martingale time, and the list is not empty; the time captured is the first `DD:DD` after the label on that line |
| SignalParser.MartingaleTimes | core.py:216-217 | there is one martingale time per capture, each five characters: two digits, a colon, two digits |
| SignalParser.MartingaleVerbatim | core.py:216-217 | each martingale time is the text at its capture position |
| SignalParser.MartingaleInOrder | core.py:216-217 | martingale times are listed in order of appearance, with duplicates kept |
| SignalParser.MartingaleAfterLabels | core.py:216-217 | each martingale time is captured by a match that starts, before it, at `Level ` and a digit, at `level` (which covers `level at`) or at `PROTECTION` |
| SignalParser.MartingaleNone | core.py:216-217 | the list is empty exactly when no martingale match exists anywhere |
| SignalParser.AnnaDefault | core.py:221-231 | the fallback yields exactly the entry plus one and two intervals in the entry's layout, modulo 24 hours; an unparsable entry yields nothing |
| SignalParser.ParsedMartingaleTimes | core.py:215-231 | the martingale field is the scanned list unless the "anna signals" fallback applies; when it applies, the list is the fallback's two times, at a 1-minute interval for M1 and 5 minutes otherwise |
| SignalParser.FoundFieldsNonEmpty | core.py:191-207 | a pair or entry time that is found is never the empty string |
| SignalParser.ParseSignal | core.py:177-233 | `parse_signal` as a whole: the dictionary of the five fields; its fields are specified by the `...Field`, martingale and fallback rows above |
| Trading.SignalOf | core.py:285-288 | the dictionary `parse_signal` hands to the trade manager carries no timezone tag, so its entry time is never shifted |
| Trading.ForwardedSignalPlan | core.py:281-288 | a forwarded message leads, while trading is active, to its entry attempt at the parsed entry time and the base stake, followed by `min(len(martingale_times), max_martingale)` legs |
| Trading.CommandEffect | core.py:360-368 | the effect of a command on the trading flag; its properties are stated by `CommandIdempotent` and `CommandIgnoresCase` |
| Trading.Plan | core.py:390-399 | the attempts a signal leads to; its properties are stated by `PlanLength`, `PlanAttempts` and `PlanDirection` |
| Trading.RouteOf | core.py:281-288 | the listener's routing; its properties are stated by `RouteSplit` |
| Trading.WaitSeconds | core.py:413-438 | the wait before an attempt; its properties are stated by `WaitReachesTarget` |
| Trading.CommandIdempotent | core.py:360-368 | sending the same command twice has the same effect as sending it once; the flag changes only for a `/start` or `/stop` prefix after strip and lower-case |
| Trading.CommandIgnoresCase | core.py:362-366 | commands are recognised whatever the case of their letters |
| Trading.TimezoneShift | core.py:378-388 | only the exact tag `UTC-4` shifts the entry time, by one hour modulo 24 hours and in the same layout; an entry that does not parse stays as it is |
| Trading.LegsShape | core.py:394-399 | the martingale legs follow the times in list order; leg `k` has level `k+1` and stake `base * 2^(k+1)`; times beyond `max_martingale` are dropped |
| Trading.PlanLength | core.py:390-399 | a signal yields one primary attempt when its entry time is a non-empty string, plus `min(len(times), max_martingale)` legs |
| Trading.PlanAttempts | core.py:390-399 | the primary attempt comes first, at level 0 and the base stake, followed by the legs |
| Trading.PlanDirection | core.py:392-399 | every attempt uses the signal's direction, including a missing one |
| Trading.StakeDoubles | core.py:398 | each level's stake is twice the previous level's |
| Trading.LegsDouble | core.py:394-399 | each leg's amount is twice the amount of the leg before it |
| Trading.WaitReachesTarget | core.py:413-438 | the wait is absent exactly when the time does not parse; otherwise it is less than a day, ends at the target time of day, is the shortest such wait, and is zero exactly when the target is the current second |
| Trading.TradeManager.constructor | core.py:353-358 | a new manager is inactive, holds the given base amount and maximum, and has nothing scheduled |
| Trading.TradeManager.HandleCommand | core.py:360-368 | the flag becomes the command's effect on it, and nothing else changes |
| Trading.TradeManager.ScheduleTrade | core.py:401-411 | exactly one attempt with the given time, direction, amount and level is appended |
| Trading.TradeManager.HandleSignal | core.py:370-399 | when inactive, nothing is scheduled; otherwise the whole plan for the shifted entry time is appended in order |
| Trading.TradeManager.ScheduleMartingale | core.py:394-399 | the loop appends exactly the martingale legs, stopping at `max_martingale` |
| Trading.RouteSplit | core.py:281-288 | text that starts, case-sensitively, with `/start` or `/stop` goes only to the command handler; other text is forwarded exactly when the parsed pair and entry time are both present |
| Trading.OnMessage | core.py:278-288 | a command reaches `HandleCommand`, a forwarded signal reaches `HandleSignal`, and anything else leaves the manager unchanged |
| ResultDetection.TextVerdict | selenium_integration.py:198-211 | after stripping, text that starts with `+` or contains `win` or `profit` (any case) is WIN; only text that is not WIN can be LOSS, by a leading `-`, `$0`, `loss` or `lose`; other text gives no verdict |
| ResultDetection.ColorVerdict | selenium_integration.py:214-218 | `rgb(0, 128, 0)` or `green` is WIN; otherwise `rgb(255, 0, 0)` or `red` is LOSS; any other colour gives no verdict |
| ResultDetection.ElementRules | selenium_integration.py:194-221 | a hidden element is skipped; a displayed element's text verdict stands whatever its colour; any verdict needs a displayed element with readable text, and it comes from the colour only when the text gives none |
| ResultDetection.WinFirst | selenium_integration.py:201-211 | text that meets both the win and the loss rules is a WIN, as `-5 win` shows |
| ResultDetection.ScanElementsFinds | selenium_integration.py:194-221 | within a selector, the verdict is that of the first element with one, and every element before it moves on |
| ResultDetection.FirstVerdictFinds | selenium_integration.py:191-223 | the result is the first selector's verdict in order; no verdict anywhere gives none |
| ResultDetection.Detect | selenium_integration.py:173-227 | the nested loops over selectors and elements return exactly the first verdict; with no driver the result is none |
| ResultDetection.CoreScan | core.py:336-347 | the element loop of `core.py`; its properties are stated by `CoreScanFinds` and `CoreScanMisses` |
| ResultDetection.CoreScanFinds | core.py:336-347 | a verdict is that of the first element whose text gives one, every element before it having been read without a verdict |
| ResultDetection.CoreScanMisses | core.py:336-347 | no verdict means the loop reached the end, or a text it could not read, before any element whose text gives one |
| ResultDetection.DetectResult | selenium_integration.py:173-227 | the browser detector; its properties are stated by `ElementRules`, `ScanElementsFinds` and `FirstVerdictFinds` |
| ResultDetection.CoreRuleAgrees | core.py:339-344 | whenever the simpler `+`/`$0` rule gives a verdict, the full rule set gives the same one |
| ResultDetection.CoreDetect | core.py:331-347 | the loop returns WIN for the first element whose text starts with `+` or LOSS for the first that is exactly `$0`; with no driver, or when the lookup fails, it returns none |
| ResultDetection.Reports | selenium_integration.py:242-249 | what the monitor reports; its properties are stated by `ReportsChange`, `ReportsOnce` and `ReportsStep` |
| ResultDetection.ReportsStep | selenium_integration.py:242-249 | each poll adds its result to the reports exactly when it gave one that differs from the last result seen, which it then becomes |
| ResultDetection.ReportsChange | selenium_integration.py:242-249 | consecutive reports differ, the first differs from the last result seen before, and every report is a polled result |
| ResultDetection.ReportsOnce | selenium_integration.py:242-249 | a result polled repeatedly is reported once, or not at all if it was already the last one reported |
| ResultDetection.LastSeenIsLatest | selenium_integration.py:242-249 | the remembered result is the latest one polled, or the earlier one when nothing was polled |
| ResultDetection.Monitor | selenium_integration.py:238-257 | the polling loop reports exactly the changes and ends remembering the latest result |
| TelegramSignal.DirectionLength | telegram_integration.py:117 | `(BUY\|SELL)` matches, in any case, with three or four characters, or not at all |
| TelegramSignal.PairAfter | telegram_integration.py:117 | whitespace, then two runs of three to five letters around `/`, then whitespace |
| TelegramSignal.PairAfterMeaning | telegram_integration.py:117 | the pair scanner yields a match of `\s+([A-Z]{3,5}/[A-Z]{3,5})\s` (any case) whenever it yields anything, and yields exactly that match whenever there is one |
| TelegramSignal.PriceAfter | telegram_integration.py:117 | whitespace, `at` or `@`, whitespace, and the whole run of digits and dots that follows |
| TelegramSignal.PriceAfterMeaning | telegram_integration.py:117 | the price scanner yields a match of `\s+(at\|@)\s+([\d\.]+)` (any case) whenever it yields anything, and yields exactly that match whenever there is one |
| TelegramSignal.SignalAt | telegram_integration.py:117-118 | a match at a position has a `BUY`/`SELL` direction group taken from the text there, a pair group of letters around `/`, and a non-empty price group of digits and dots |
| TelegramSignal.SignalAtSound | telegram_integration.py:117-118 | whatever the signal scanner yields at a position is a match of the whole pattern there, with the groups as the matched slices of the text |
| TelegramSignal.SignalAtComplete | telegram_integration.py:117-118 | every match of the whole pattern at a position is what the signal scanner yields there, with the same groups |
| TelegramSignal.TimeAt | telegram_integration.py:126-132 | `\b(\d{1,2}<sep>\d{2})\b` matches at a position exactly when one or two digits, the separator and two digits stand there between word boundaries, and the group is that slice |
| TelegramSignal.FirstOccurrenceOnly | telegram_integration.py:132-134 | each time pattern yields its first occurrence, whether or not that occurrence parses |
| TelegramSignal.ReplaceH | telegram_integration.py:134 | every `h` becomes `:`, and nothing else changes |
| TelegramSignal.ClockOf | telegram_integration.py:137 | `strptime(..., "%H:%M")` accepts only an hour below 24 and a minute below 60 |
| TelegramSignal.ClockOfSound | telegram_integration.py:137 | whatever `strptime` accepts is an hour below 24 and a minute below 60 written as `HH:MM`, or `H:MM` for an hour below 10 |
| TelegramSignal.ClockOfComplete | telegram_integration.py:137 | `strptime` accepts every hour below 24 and minute below 60 written as `HH:MM`, or as `H:MM` for an hour below 10, and reads them back |
| TelegramSignal.Candidate | telegram_integration.py:136-142 | the candidate entry time and whether the loop breaks; its properties are stated by `CandidateMeaning` |
| TelegramSignal.CandidateMeaning | telegram_integration.py:136-142 | the candidate is today at the given hour and minute with no seconds; when it is past it moves to the next day, and when that is not a valid day the past time stays and the loop goes on |
| TelegramSignal.PickTime | telegram_integration.py:131-144 | the loop over the time patterns; its properties are stated by `TimePriority`, `LastPattern` and `PickTimeNotPast` |
| TelegramSignal.TimePriority | telegram_integration.py:126-144 | a valid colon time that is kept wins; when the colon form finds nothing or is out of range, the `h` form decides; a past colon time at month end stands only if the `h` form yields nothing |
| TelegramSignal.LastPattern | telegram_integration.py:131-144 | the last pattern assigns its candidate when it yields one and otherwise leaves the earlier value |
| TelegramSignal.SearchEntryTime | telegram_integration.py:130-144 | the loop over the time patterns, with its `break`, computes the first-match search |
| TelegramSignal.ParseTradingSignal | telegram_integration.py:108-155 | `parse_trading_signal` as a whole; its properties are stated by `ParseFails`, `SignalFromFirstMatch`, `SignalShape` and `EntryNotPast` |
| TelegramSignal.SignalFromFirstMatch | telegram_integration.py:117-151 | a signal is built from the leftmost match: its direction and pair groups upper-cased, its price group as matched, and the entry time from the time patterns |
| TelegramSignal.ParseFails | telegram_integration.py:115-155 | there is no signal exactly when the pattern matches nowhere or its first match has a price that `float` rejects |
| TelegramSignal.SignalShape | telegram_integration.py:146-151 | the direction is `BUY` or `SELL`; the pair is upper case with three to five letters on each side of `/`; the price is well-formed |
| TelegramSignal.GroupsUpper | telegram_integration.py:147-148 | the direction and pair groups, upper-cased, have that shape |
| TelegramSignal.EntryTimeShape | telegram_integration.py:138-150 | the entry time is `now` when no pattern yields one, and otherwise a time with zero seconds and microseconds |
| TelegramSignal.EntryNotPast | telegram_integration.py:136-150 | the entry time is a valid date and time, and it is before `now` only on the last day of a month |
| TelegramSignal.PickTimeNotPast | telegram_integration.py:131-144 | the same holds for the time assigned by the loop from any pattern on |

## Left out

- The Telegram client: connecting, resolving the channel and the event loop. This is network I/O. The model starts from the message text.
- Browser automation: Selenium/Chrome setup, login, asset and amount fields, screenshots, element waits and clicks. These are foreign calls. A selector lookup is a list of element records, and a failed read is an absent field.
- `place_trade` and its key presses. This is GUI I/O. An attempt ends at being scheduled.
- Threads, `time.sleep` and the clocks. `schedule_trade` appends to a list instead of starting a thread. The current time of day, or the current date and time, is a parameter, read once per call where the source reads it several times.
- The health-check HTTP server, signal handlers, `main`, environment and credential configuration, and logging.
- `current_trades` and `selenium_manager` in `TradeManager`. The first is never written after construction. The second only wraps the browser.
- The monitor's `monitoring_active` flag. The loop runs over a finite sequence of polls. A callback that raises, which skips the update of `last_result`, is not modelled.
- The effect of `handle_signal` on the caller's dictionary, which gets the shifted entry time written back into it.
- Floating point. Amounts are reals, so `base * 2 ** level` is exact.
- TelegramSignal.ParseTradingSignal: the price is kept as the validated text rather than converted by `float`. Validity is "a digit and at most one dot", which is what `float` accepts for a run of digits and dots.
- Unicode: `\w`, `\d` and case folding are ASCII. Python applies them to all of Unicode, which includes, for example, non-ASCII digits and the letters that `re.IGNORECASE` folds onto `[A-Z]`. `\s` and `str.strip` use Python's full whitespace set.
- Clock.Parse: `strptime` also accepts single-digit fields. Every string that reaches it in `core.py` has two-digit fields, so only that shape is modelled.
- TelegramSignal.ClockOf: parses only the `H:MM` and `HH:MM` shapes that the time patterns produce.
- The signal/command split of the alternative Telegram service in `telegram_integration.py` is not part of this model.
