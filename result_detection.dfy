/**
 * Reading a trade's outcome off the broker page: the ordered rule set of
 * `BrowserManager.detect_trade_result` in `selenium_integration.py`, the
 * simpler rule of `SeleniumManager.detect_trade_result` in `core.py`, and the
 * monitor loop that reports an outcome only when it changes.
 *
 * The page is abstracted to what the code reads from it: for each CSS
 * selector, in order, either the list of matching elements or a failed
 * lookup; for each element, whether it is displayed, its text and its CSS
 * colour, each `None` when reading it raises.
 */
module ResultDetection {
  import opened Wrappers
  import opened Text

  datatype Outcome = Win | Loss

  /** What reading an element yields; `None` where the WebDriver call raises. */
  datatype Element = Element(displayed: Option<bool>, text: Option<string>, color: Option<string>)

  /** `driver.find_elements(By.CSS_SELECTOR, selector)`: the elements, or an exception. */
  datatype Lookup = Found(elements: seq<Element>) | LookupFailed

  // ---------------------------------------------------------------------
  // The rules for one element

  predicate WinText(t: string) {
    StartsWith(t, "+") || Contains(Lower(t), "win") || Contains(Lower(t), "profit")
  }

  predicate LossText(t: string) {
    StartsWith(t, "-") || t == "$0" || Contains(Lower(t), "loss") || Contains(Lower(t), "lose")
  }

  /** The verdict of the stripped element text: the win indicators are checked before the loss indicators. */
  function TextVerdict(text: string): (r: Option<Outcome>)
    ensures r == Some(Win) <==> WinText(Strip(text))
    ensures r == Some(Loss) <==> !WinText(Strip(text)) && LossText(Strip(text))
    ensures r.None? <==> !WinText(Strip(text)) && !LossText(Strip(text))
  {
    var t := Strip(text);
    if WinText(t) then Some(Win)
    else if LossText(t) then Some(Loss)
    else None
  }

  /** The verdict of the CSS colour, consulted when the text says nothing. */
  function ColorVerdict(color: string): (r: Option<Outcome>)
    ensures r == Some(Win) <==> Contains(color, "rgb(0, 128, 0)") || Contains(Lower(color), "green")
    ensures r == Some(Loss) <==>
      !(Contains(color, "rgb(0, 128, 0)") || Contains(Lower(color), "green"))
      && (Contains(color, "rgb(255, 0, 0)") || Contains(Lower(color), "red"))
  {
    if Contains(color, "rgb(0, 128, 0)") || Contains(Lower(color), "green") then Some(Win)
    else if Contains(color, "rgb(255, 0, 0)") || Contains(Lower(color), "red") then Some(Loss)
    else None
  }

  /** What the inner loop does with one element: return a verdict, go on, or leave the selector on an exception. */
  datatype Step = Verdict(outcome: Outcome) | Next | Abandon

  function ElementStep(e: Element): Step {
    match e.displayed
    case None => Abandon
    case Some(shown) =>
      if !shown then Next
      else
        match e.text
        case None => Abandon
        case Some(text) =>
          match TextVerdict(text)
          case Some(o) => Verdict(o)
          case None =>
            match e.color
            case None => Abandon
            case Some(color) =>
              match ColorVerdict(color)
              case Some(o) => Verdict(o)
              case None => Next
  }

  /**
   * Elements that are not displayed are skipped whatever they show, and the
   * colour of a displayed element counts only when its text gives no verdict.
   */
  lemma ElementRules(e: Element, color: Option<string>)
    ensures e.displayed == Some(false) ==> ElementStep(e) == Next
    ensures e.displayed == Some(true) && e.text.Some? && TextVerdict(e.text.value).Some? ==>
      ElementStep(e) == Verdict(TextVerdict(e.text.value).value) && ElementStep(e.(color := color)) == ElementStep(e)
    ensures ElementStep(e).Verdict? ==> e.displayed == Some(true) && e.text.Some?
    ensures ElementStep(e).Verdict? && TextVerdict(e.text.value).None? ==>
      e.color.Some? && ColorVerdict(e.color.value) == Some(ElementStep(e).outcome)
  {
  }

  /** A text with a win indicator is a win even when it also has a loss indicator. */
  lemma WinFirst(text: string)
    ensures WinText(Strip(text)) && LossText(Strip(text)) ==> TextVerdict(text) == Some(Win)
    ensures TextVerdict("-5 win") == Some(Win)
  {
    var t := "-5 win";
    assert !IsSpace(t[0]) && !IsSpace(t[|t| - 1]);
    assert TrimStart(t) == t;
    assert TrimEnd(t) == t;
    assert Lower(t)[3..6] == "win";
    assert At(Lower(t), 3, "win");
  }

  // ---------------------------------------------------------------------
  // Scanning selectors and elements

  /** The inner loop over one selector's elements: the first verdict, unless an exception comes first. */
  function ScanElements(elements: seq<Element>): Option<Outcome> {
    if elements == [] then None
    else
      match ElementStep(elements[0])
      case Verdict(o) => Some(o)
      case Abandon => None
      case Next => ScanElements(elements[1..])
  }

  function ScanLookup(lookup: Lookup): Option<Outcome> {
    match lookup
    case LookupFailed => None
    case Found(elements) => ScanElements(elements)
  }

  /** The outer loop over the selectors, in order: the first verdict of any of them. */
  function FirstVerdict(lookups: seq<Lookup>): Option<Outcome> {
    if lookups == [] then None
    else
      match ScanLookup(lookups[0])
      case Some(o) => Some(o)
      case None => FirstVerdict(lookups[1..])
  }

  /** `detect_trade_result`: nothing without a driver, otherwise the first verdict across the selectors. */
  function DetectResult(hasDriver: bool, lookups: seq<Lookup>): Option<Outcome> {
    if hasDriver then FirstVerdict(lookups) else None
  }

  /**
   * Within a selector, the verdict is that of an element all of whose
   * predecessors let the loop go on; there is none when the loop reaches the
   * end or an exception first.
   */
  lemma {:induction false} ScanElementsFinds(elements: seq<Element>)
    ensures ScanElements(elements).Some? ==>
      exists j :: 0 <= j < |elements| && ElementStep(elements[j]) == Verdict(ScanElements(elements).value)
        && forall j' :: 0 <= j' < j ==> ElementStep(elements[j']) == Next
    ensures ScanElements(elements).None? ==>
      forall j :: 0 <= j < |elements| && (forall j' :: 0 <= j' < j ==> ElementStep(elements[j']) == Next) ==>
        !ElementStep(elements[j]).Verdict?
  {
    if elements != [] && ElementStep(elements[0]) == Next {
      var rest := elements[1..];
      ScanElementsFinds(rest);
      if ScanElements(elements).Some? {
        var j :| 0 <= j < |rest| && ElementStep(rest[j]) == Verdict(ScanElements(rest).value)
          && forall j' :: 0 <= j' < j ==> ElementStep(rest[j']) == Next;
        assert elements[j + 1] == rest[j];
        forall j' | 0 <= j' < j + 1
          ensures ElementStep(elements[j']) == Next
        {
          if j' > 0 {
            assert elements[j'] == rest[j' - 1];
          }
        }
      } else {
        forall j | 0 <= j < |elements| && (forall j' :: 0 <= j' < j ==> ElementStep(elements[j']) == Next)
          ensures !ElementStep(elements[j]).Verdict?
        {
          if j > 0 {
            forall j' | 0 <= j' < j - 1
              ensures ElementStep(rest[j']) == Next
            {
              assert rest[j'] == elements[j' + 1];
            }
            assert elements[j] == rest[j - 1];
          }
        }
      }
    }
  }

  /**
   * The result is the verdict of the first selector that yields one; there is
   * none when no selector yields one, and none at all without a driver.
   */
  lemma {:induction false} FirstVerdictFinds(lookups: seq<Lookup>)
    ensures FirstVerdict(lookups).Some? ==>
      exists s :: 0 <= s < |lookups| && ScanLookup(lookups[s]) == FirstVerdict(lookups)
        && forall s' :: 0 <= s' < s ==> ScanLookup(lookups[s']).None?
    ensures FirstVerdict(lookups).None? <==> forall s :: 0 <= s < |lookups| ==> ScanLookup(lookups[s]).None?
  {
    if lookups != [] {
      var rest := lookups[1..];
      FirstVerdictFinds(rest);
      if ScanLookup(lookups[0]).None? {
        if FirstVerdict(lookups).Some? {
          var s :| 0 <= s < |rest| && ScanLookup(rest[s]) == FirstVerdict(rest)
            && forall s' :: 0 <= s' < s ==> ScanLookup(rest[s']).None?;
          assert lookups[s + 1] == rest[s];
          forall s' | 0 <= s' < s + 1
            ensures ScanLookup(lookups[s']).None?
          {
            if s' > 0 {
              assert lookups[s'] == rest[s' - 1];
            }
          }
        }
        if forall s :: 0 <= s < |lookups| ==> ScanLookup(lookups[s]).None? {
          forall s | 0 <= s < |rest|
            ensures ScanLookup(rest[s]).None?
          {
            assert rest[s] == lookups[s + 1];
          }
        }
        if FirstVerdict(lookups).None? {
          forall s | 0 <= s < |lookups|
            ensures ScanLookup(lookups[s]).None?
          {
            if s > 0 {
              assert lookups[s] == rest[s - 1];
            }
          }
        }
      } else {
        assert ScanLookup(lookups[0]) == FirstVerdict(lookups);
      }
    }
  }

  /** The nested loops of `detect_trade_result`, with their early returns. */
  method Detect(hasDriver: bool, lookups: seq<Lookup>) returns (result: Option<Outcome>)
    ensures result == DetectResult(hasDriver, lookups)
  {
    if !hasDriver {
      return None;
    }
    var s := 0;
    while s < |lookups|
      invariant 0 <= s <= |lookups|
      invariant FirstVerdict(lookups) == FirstVerdict(lookups[s..])
    {
      assert lookups[s..][1..] == lookups[s + 1..];
      if lookups[s].Found? {
        var elements := lookups[s].elements;
        var j := 0;
        var abandoned := false;
        while j < |elements| && !abandoned
          invariant 0 <= j <= |elements|
          invariant !abandoned ==> ScanElements(elements) == ScanElements(elements[j..])
          invariant abandoned ==> ScanElements(elements) == None
          decreases |elements| - j, if abandoned then 0 else 1
        {
          assert elements[j..][1..] == elements[j + 1..];
          var step := ElementStep(elements[j]);
          match step
          case Verdict(o) =>
            return Some(o);
          case Abandon =>
            abandoned := true;
          case Next =>
            j := j + 1;
        }
      }
      s := s + 1;
    }
    return None;
  }

  // ---------------------------------------------------------------------
  // The simpler rule in core.py

  /** A leading `+` is a win and exactly `$0` a loss; nothing else decides. */
  function CoreTextVerdict(text: string): Option<Outcome> {
    var t := Strip(text);
    if StartsWith(t, "+") then Some(Win)
    else if t == "$0" then Some(Loss)
    else None
  }

  /**
   * `SeleniumManager.detect_trade_result` over the elements of its one
   * selector: no visibility check and no colour; reading a text that raises,
   * or a failed lookup, ends the search with no result.
   */
  function CoreScan(elements: seq<Element>): Option<Outcome> {
    if elements == [] then None
    else
      match elements[0].text
      case None => None
      case Some(text) =>
        if CoreTextVerdict(text).Some? then CoreTextVerdict(text) else CoreScan(elements[1..])
  }

  function CoreDetectResult(hasDriver: bool, lookup: Lookup): Option<Outcome> {
    if !hasDriver then None
    else match lookup
      case LookupFailed => None
      case Found(elements) => CoreScan(elements)
  }

  /**
   * The rule of `core.py` never contradicts the rule set of the browser
   * manager: whatever it reads from a text, the browser manager reads too.
   */
  lemma CoreRuleAgrees(text: string)
    ensures CoreTextVerdict(text).Some? ==> TextVerdict(text) == CoreTextVerdict(text)
  {
    var t := Strip(text);
    if t == "$0" {
      assert !StartsWith(t, "+");
      assert Lower(t) == "$0";
      assert !Contains(Lower(t), "win") && !Contains(Lower(t), "profit");
    }
  }

  /** An element the loop of `core.py` reads without finding a verdict, and so passes over. */
  predicate CorePassesOver(e: Element) {
    e.text.Some? && CoreTextVerdict(e.text.value).None?
  }

  /**
   * The verdict is that of the first element the loop reads a verdict from,
   * all of whose predecessors it read and passed over.
   */
  lemma {:induction false} CoreScanFinds(elements: seq<Element>)
    ensures CoreScan(elements).Some? ==>
      exists j :: 0 <= j < |elements| && elements[j].text.Some?
        && CoreTextVerdict(elements[j].text.value) == CoreScan(elements)
        && forall j' :: 0 <= j' < j ==> CorePassesOver(elements[j'])
  {
    if elements != [] && CorePassesOver(elements[0]) && CoreScan(elements).Some? {
      var rest := elements[1..];
      assert CoreScan(elements) == CoreScan(rest);
      CoreScanFinds(rest);
      var j :| 0 <= j < |rest| && rest[j].text.Some?
        && CoreTextVerdict(rest[j].text.value) == CoreScan(rest)
        && forall j' :: 0 <= j' < j ==> CorePassesOver(rest[j']);
      assert elements[j + 1] == rest[j];
      forall j' | 0 <= j' < j + 1
        ensures CorePassesOver(elements[j'])
      {
        if j' > 0 {
          assert elements[j'] == rest[j' - 1];
        }
      }
      assert elements[j + 1].text.Some? && CoreTextVerdict(elements[j + 1].text.value) == CoreScan(elements);
    }
  }

  /**
   * There is no verdict when the loop reaches the end, or a text it cannot
   * read, before any element it reads a verdict from.
   */
  lemma {:induction false} CoreScanMisses(elements: seq<Element>)
    ensures CoreScan(elements).None? ==>
      forall j :: 0 <= j < |elements| && (forall j' :: 0 <= j' < j ==> CorePassesOver(elements[j'])) ==>
        elements[j].text.None? || CoreTextVerdict(elements[j].text.value).None?
  {
    if elements != [] && CorePassesOver(elements[0]) {
      var rest := elements[1..];
      CoreScanMisses(rest);
      if CoreScan(elements).None? {
        forall j | 0 <= j < |elements| && (forall j' :: 0 <= j' < j ==> CorePassesOver(elements[j']))
          ensures elements[j].text.None? || CoreTextVerdict(elements[j].text.value).None?
        {
          if j > 0 {
            forall j' | 0 <= j' < j - 1
              ensures CorePassesOver(rest[j'])
            {
              assert rest[j'] == elements[j' + 1];
            }
            assert elements[j] == rest[j - 1];
          }
        }
      }
    }
  }

  /** The loop of `SeleniumManager.detect_trade_result`. */
  method CoreDetect(hasDriver: bool, lookup: Lookup) returns (result: Option<Outcome>)
    ensures result == CoreDetectResult(hasDriver, lookup)
  {
    if !hasDriver || lookup.LookupFailed? {
      return None;
    }
    var elements := lookup.elements;
    var j := 0;
    while j < |elements|
      invariant 0 <= j <= |elements|
      invariant CoreScan(elements) == CoreScan(elements[j..])
    {
      assert elements[j..][1..] == elements[j + 1..];
      if elements[j].text.None? {
        return None;
      }
      var t := Strip(elements[j].text.value);
      if StartsWith(t, "+") {
        return Some(Win);
      } else if t == "$0" {
        return Some(Loss);
      }
      j := j + 1;
    }
    return None;
  }

  // ---------------------------------------------------------------------
  // The monitor

  /** What the monitor reports for a run of polls, starting from the last result it reported. */
  function Reports(polls: seq<Option<Outcome>>, last: Option<Outcome>): seq<Outcome> {
    if polls == [] then []
    else if polls[0].Some? && polls[0] != last then [polls[0].value] + Reports(polls[1..], polls[0])
    else Reports(polls[1..], last)
  }

  /** The last result the monitor has seen: the latest poll that gave one. */
  function LastSeen(polls: seq<Option<Outcome>>, last: Option<Outcome>): Option<Outcome> {
    if polls == [] then last
    else LastSeen(polls[1..], if polls[0].Some? then polls[0] else last)
  }

  /**
   * The reports never repeat the result reported just before, nor the result
   * the monitor started from; each is a result some poll gave.
   */
  lemma {:induction false} ReportsChange(polls: seq<Option<Outcome>>, last: Option<Outcome>)
    ensures var r := Reports(polls, last);
      && (r != [] ==> Some(r[0]) != last)
      && (forall k :: 0 <= k < |r| - 1 ==> r[k] != r[k + 1])
      && (forall k :: 0 <= k < |r| ==> Some(r[k]) in polls)
  {
    if polls != [] {
      var next := if polls[0].Some? && polls[0] != last then polls[0] else last;
      ReportsChange(polls[1..], next);
      var r, rest := Reports(polls, last), Reports(polls[1..], next);
      if polls[0].Some? && polls[0] != last {
        assert r == [polls[0].value] + rest;
        forall k | 0 <= k < |r| - 1
          ensures r[k] != r[k + 1]
        {
          assert r[k + 1] == rest[k];
          if k > 0 {
            assert r[k] == rest[k - 1];
          }
        }
        forall k | 0 <= k < |r|
          ensures Some(r[k]) in polls
        {
          if k > 0 {
            assert r[k] == rest[k - 1];
            assert Some(rest[k - 1]) in polls[1..];
          }
        }
      } else {
        forall k | 0 <= k < |r|
          ensures Some(r[k]) in polls
        {
          assert Some(rest[k]) in polls[1..];
        }
      }
    }
  }

  /** A result that keeps coming back is reported once. */
  lemma {:induction false} ReportsOnce(polls: seq<Option<Outcome>>, last: Option<Outcome>, o: Outcome)
    requires polls != [] && forall k :: 0 <= k < |polls| ==> polls[k] == Some(o)
    ensures Reports(polls, last) == (if last == Some(o) then [] else [o])
  {
    var rest := polls[1..];
    if rest != [] {
      ReportsOnce(rest, Some(o), o);
    }
  }

  /** The monitor's `last_result` ends as the latest result any poll gave, or stays as it was. */
  lemma {:induction false} LastSeenIsLatest(polls: seq<Option<Outcome>>, last: Option<Outcome>)
    ensures (forall k :: 0 <= k < |polls| ==> polls[k].None?) ==> LastSeen(polls, last) == last
    ensures forall k :: 0 <= k < |polls| && polls[k].Some? && (forall k' :: k < k' < |polls| ==> polls[k'].None?) ==>
      LastSeen(polls, last) == polls[k]
  {
    if polls != [] {
      var rest := polls[1..];
      LastSeenIsLatest(rest, if polls[0].Some? then polls[0] else last);
      forall k | 0 <= k < |polls| && polls[k].Some? && (forall k' :: k < k' < |polls| ==> polls[k'].None?)
        ensures LastSeen(polls, last) == polls[k]
      {
        if k > 0 {
          assert polls[k] == rest[k - 1];
          forall k' | k - 1 < k' < |rest|
            ensures rest[k'].None?
          {
            assert rest[k'] == polls[k' + 1];
          }
        } else if rest != [] {
          forall k' | 0 <= k' < |rest|
            ensures rest[k'].None?
          {
            assert rest[k'] == polls[k' + 1];
          }
        }
      }
      if forall k :: 0 <= k < |polls| ==> polls[k].None? {
        assert forall k :: 0 <= k < |rest| ==> rest[k] == polls[k + 1];
      }
    }
  }

  /**
   * One more poll extends the reports by its result exactly when it gave one
   * that differs from the last result seen so far, and that result becomes
   * the last one seen.
   */
  lemma {:induction false} ReportsStep(polls: seq<Option<Outcome>>, p: Option<Outcome>, last: Option<Outcome>)
    ensures Reports(polls + [p], last)
      == Reports(polls, last) + (if p.Some? && p != LastSeen(polls, last) then [p.value] else [])
    ensures LastSeen(polls + [p], last) == (if p.Some? then p else LastSeen(polls, last))
  {
    if polls == [] {
      assert polls + [p] == [p];
      assert [p][1..] == [];
    } else {
      var next := if polls[0].Some? then polls[0] else last;
      assert (polls + [p])[0] == polls[0];
      assert (polls + [p])[1..] == polls[1..] + [p];
      ReportsStep(polls[1..], p, next);
      if polls[0].Some? && polls[0] == last {
        assert Reports(polls, last) == Reports(polls[1..], next);
        assert Reports(polls + [p], last) == Reports(polls[1..] + [p], next);
      }
    }
  }

  /**
   * The `while self.monitoring_active` loop over the results of successive
   * polls: the callback receives `reported`, in order, and `last` is the
   * final `last_result`.
   */
  method Monitor(polls: seq<Option<Outcome>>) returns (reported: seq<Outcome>, last: Option<Outcome>)
    ensures reported == Reports(polls, None)
    ensures last == LastSeen(polls, None)
  {
    reported, last := [], None;
    var i := 0;
    while i < |polls|
      invariant 0 <= i <= |polls|
      invariant reported + Reports(polls[i..], last) == Reports(polls, None)
      invariant LastSeen(polls[i..], last) == LastSeen(polls, None)
    {
      assert polls[i..][1..] == polls[i + 1..];
      var result := polls[i];
      if result.Some? && result != last {
        reported := reported + [result.value];
        last := result;
      }
      i := i + 1;
    }
  }
}
