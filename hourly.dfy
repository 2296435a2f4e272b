/** cabsObjectRepo/Hourly: the hourly-rental search, one long chain of
    scans. Every comparison is String.equalsIgnoreCase on the raw text; hour,
    minute and rental options are compared by their first space-separated
    token. */
module Hourly {
  import opened Common
  import opened JavaText
  import opened Selection
  import opened Calendar
  import opened TimePicker

  // -------------------------------------------------------------------------
  // The forward calendar loop.

  /** Both labels of page `p` equal the requested month and year, ignoring case. */
  predicate PageMatches(p: YearMonth, userMonth: string, userYear: string)
  {
    EqualsIgnoreCase(MonthName(p.month), userMonth) && EqualsIgnoreCase(IntToString(p.year), userYear)
  }

  /** Click Next until both labels match. The loop has no other exit, so it
      only ends when a matching page lies ahead; `bound` is such a page (it
      is not needed to run the loop, only to show that it ends). */
  method AdvanceToLabels(picker: DatePicker, userMonth: string, userYear: string, ghost bound: nat) returns (turns: nat)
    requires picker.Valid()
    requires PageMatches(Advance(picker.shown, bound), userMonth, userYear)
    modifies picker
    ensures picker.Valid()
    ensures picker.shown == Advance(old(picker.shown), turns)
    ensures turns <= bound
    ensures PageMatches(picker.shown, userMonth, userYear)
    ensures forall k :: 0 <= k < turns ==> !PageMatches(Advance(old(picker.shown), k), userMonth, userYear)
  {
    ghost var start := picker.shown;
    turns := 0;
    while true
      invariant picker.Valid()
      invariant turns <= bound
      invariant picker.shown == Advance(start, turns)
      invariant forall k :: 0 <= k < turns ==> !PageMatches(Advance(start, k), userMonth, userYear)
      decreases bound - turns
    {
      var matches := LabelsMatch(picker, userMonth, userYear);
      if matches {
        break;
      }
      LabelsNotMatchedYet(start, turns, bound, userMonth, userYear);
      picker.Next();
      turns := turns + 1;
    }
  }

  /** `monthLabel.getText().equalsIgnoreCase(userMonth)` and the same for the year. */
  method LabelsMatch(picker: DatePicker, userMonth: string, userYear: string) returns (matches: bool)
    ensures matches == PageMatches(picker.shown, userMonth, userYear)
  {
    matches := EqualsIgnoreCase(picker.MonthLabel(), userMonth) && EqualsIgnoreCase(picker.YearLabel(), userYear);
  }

  /** One more page checked: the failed pages are the first `turns + 1`. */
  lemma LabelsNotMatchedYet(start: YearMonth, turns: nat, bound: nat, userMonth: string, userYear: string)
    requires turns <= bound && PageMatches(Advance(start, bound), userMonth, userYear)
    requires !PageMatches(Advance(start, turns), userMonth, userYear)
    requires forall k :: 0 <= k < turns ==> !PageMatches(Advance(start, k), userMonth, userYear)
    ensures turns < bound
    ensures forall k :: 0 <= k < turns + 1 ==> !PageMatches(Advance(start, k), userMonth, userYear)
  {
  }

  /** A page matches the labels of page `t` only when it is `t`. */
  lemma PageMatchesOnlyItself(p: YearMonth, t: YearMonth)
    requires PageMatches(p, MonthName(t.month), IntToString(t.year))
    ensures p == t
  {
    MonthNamesDistinct(p.month, t.month);
    EqualsIgnoreCaseNoUpper(IntToString(p.year), IntToString(t.year));
    IntToStringInjective(p.year, t.year);
  }

  /** With the labels of a page at or after the displayed one (in any case),
      the loop stops exactly there, after as many clicks as months lie between. */
  lemma LabelsOfLaterPage(start: YearMonth, t: YearMonth, userMonth: string, userYear: string)
    requires Index(start) <= Index(t)
    requires EqualsIgnoreCase(userMonth, MonthName(t.month)) && userYear == IntToString(t.year)
    ensures PageMatches(Advance(start, Index(t) - Index(start)), userMonth, userYear)
    ensures forall k :: 0 <= k < Index(t) - Index(start) ==> !PageMatches(Advance(start, k), userMonth, userYear)
  {
    IndexInjective(Advance(start, Index(t) - Index(start)), t);
    forall k | 0 <= k < Index(t) - Index(start)
      ensures !PageMatches(Advance(start, k), userMonth, userYear)
    {
      var p := Advance(start, k);
      if PageMatches(p, userMonth, userYear) {
        EqualsIgnoreCaseTrans(MonthName(p.month), userMonth, MonthName(t.month));
        PageMatchesOnlyItself(p, t);
      }
    }
  }

  // -------------------------------------------------------------------------
  // Time text and first-token option scans.

  const Space: set<char> := {' '}
  const Colon: set<char> := {':'}

  /** `timeRaw.split(" ")`, then `[0].split(":")`: the hour, the minute and
      the meridian text, or ArrayIndexOutOfBounds when a part is missing. */
  function HourlyTimeFields(timeRaw: string): (r: Result<TimeFields>)
    ensures r.Err? ==> r.error == IndexOutOfBounds
    ensures r.Ok? <==> |Split(timeRaw, Space)| >= 2 && |Split(Split(timeRaw, Space)[0], Colon)| >= 2
    ensures r.Ok? ==> r.value.meridian == Split(timeRaw, Space)[1]
  {
    var timeParts := Split(timeRaw, Space);
    if |timeParts| < 1 then Err(IndexOutOfBounds)
    else
      var hourMin := Split(timeParts[0], Colon);
      if |hourMin| < 2 || |timeParts| < 2 then Err(IndexOutOfBounds)
      else Ok(TimeFields(hourMin[0], hourMin[1], timeParts[1]))
  }

  /** "AM" in any case clicks AM; anything else clicks PM. */
  function HourlyMeridian(text: string): (m: Meridian)
    ensures m == AM <==> EqualsIgnoreCase(text, "AM")
  {
    if EqualsIgnoreCase(text, "AM") then AM else PM
  }

  lemma HourlyTimeOfClock(h: string, m: string, mer: string)
    requires h != [] && m != [] && mer != []
    requires FreeOf(h, TimeDelimiters) && FreeOf(m, TimeDelimiters) && FreeOf(mer, Space)
    ensures HourlyTimeFields(h + ":" + m + " " + mer) == Ok(TimeFields(h, m, mer))
  {
    var hm := h + ":" + m;
    var s := h + ":" + m + " " + mer;
    assert s == hm + [' '] + mer;
    FreeOfSubset(h, TimeDelimiters, Colon);
    FreeOfSubset(m, TimeDelimiters, Colon);
    assert FreeOf(hm, Space);
    FieldsOfWordThen(hm, ' ', mer, Space);
    FieldsOfPlain(mer, Space);
    assert Fields(s, Space) == [hm, mer];
    assert Split(s, Space) == [hm, mer];
    assert hm == h + [':'] + m;
    FieldsOfWordThen(h, ':', m, Colon);
    FieldsOfPlain(m, Colon);
    assert Fields(hm, Colon) == [h, m];
    assert Split(hm, Colon) == [h, m];
  }

  lemma FreeOfSubset(s: string, big: set<char>, small: set<char>)
    requires FreeOf(s, big) && small <= big
    ensures FreeOf(s, small)
  {
  }

  /** What the scan finds at one option: `split(" ")` is empty and `[0]`
      throws, or the first token equals the wanted text ignoring case, or not. */
  datatype TokenCheck = Throws | Hits | Misses

  function Check(option: string, want: string): TokenCheck
  {
    var tokens := Split(option, Space);
    if |tokens| == 0 then Throws
    else if EqualsIgnoreCase(tokens[0], want) then Hits
    else Misses
  }

  /** The outcome of a scan over the options' checks: the first option that
      hits is clicked, but an option that throws ends the scan before any
      later option is looked at. */
  ghost predicate IsFirstOutcome(checks: seq<TokenCheck>, r: Result<Option<nat>>)
  {
    match r
    case Ok(None) => forall i :: 0 <= i < |checks| ==> checks[i] == Misses
    case Ok(Some(k)) => k < |checks| && checks[k] == Hits && MissesBefore(checks, k)
    case Err(e) => e == IndexOutOfBounds && exists k :: 0 <= k < |checks| && checks[k] == Throws && MissesBefore(checks, k)
  }

  predicate MissesBefore(checks: seq<TokenCheck>, k: int)
  {
    forall i :: 0 <= i < k && i < |checks| ==> checks[i] == Misses
  }

  function Checks(options: seq<string>, want: string): (checks: seq<TokenCheck>)
    ensures |checks| == |options|
  {
    seq(|options|, i requires 0 <= i < |options| => Check(options[i], want))
  }

  /** The scan that reads `text.split(" ")[0]` of each option. */
  ghost predicate IsFirstTokenMatch(options: seq<string>, want: string, r: Result<Option<nat>>)
  {
    IsFirstOutcome(Checks(options, want), r)
  }

  method FirstTokenWhere(options: seq<string>, want: string) returns (r: Result<Option<nat>>)
    ensures IsFirstTokenMatch(options, want, r)
  {
    ghost var checks := Checks(options, want);
    var i := 0;
    while i < |options|
      invariant 0 <= i <= |options|
      invariant MissesBefore(checks, i)
    {
      var c := CheckOption(options[i], want);
      assert c == checks[i];
      if c == Throws {
        return Err(IndexOutOfBounds);
      }
      if c == Hits {
        return Ok(Some(i));
      }
      i := i + 1;
    }
    return Ok(None);
  }

  /** One pass of the scan: `option.getText().split(" ")[0]` and the comparison. */
  method CheckOption(option: string, want: string) returns (c: TokenCheck)
    ensures c == Check(option, want)
  {
    var tokens := Split(option, Space);
    if |tokens| == 0 {
      return Throws;
    }
    c := if EqualsIgnoreCase(tokens[0], want) then Hits else Misses;
  }

  /** An option label "<word> <rest>" has `word` as its first token. */
  lemma FirstTokenOfLabel(word: string, rest: string)
    requires word != [] && FreeOf(word, Space)
    ensures |Split(word + " " + rest, Space)| > 0 && Split(word + " " + rest, Space)[0] == word
  {
    var s := word + " " + rest;
    FieldsOfWordThen(word, ' ', rest, Space);
    var fs := Fields(s, Space);
    assert fs[0] == word;
    DropTrailingEmptyKeepsFirst(fs);
  }

  // -------------------------------------------------------------------------
  // searchCab

  /** What one searchCab call did: the indexes clicked in the city and day
      lists, the Next clicks, the meridian clicked, and the outcome of each
      option scan that was reached (None: an earlier exception ended the call
      before it; Err: the scan itself threw). */
  datatype HourlyRun = HourlyRun(
    city: Option<nat>, turns: nat, day: Option<nat>, meridian: Option<Meridian>,
    hour: Option<Result<Option<nat>>>, minute: Option<Result<Option<nat>>>, rent: Option<Result<Option<nat>>>)

  /** The part of searchCab after the day is clicked: a time text with a
      missing part throws before any of it is clicked; each scan runs only
      when the previous one did not throw. */
  ghost predicate IsTimeAndRent(timeRaw: string, hourOptions: seq<string>, minuteOptions: seq<string>,
                                rentOptions: seq<string>, rentHours: string, run: HourlyRun)
  {
    var t := HourlyTimeFields(timeRaw);
    && (t.Err? ==> run.meridian.None? && run.hour.None?)
    && (t.Ok? ==> run.meridian == Some(HourlyMeridian(t.value.meridian))
                  && run.hour.Some? && IsFirstTokenMatch(hourOptions, t.value.hours, run.hour.value))
    && (run.minute.Some? <==> run.hour.Some? && run.hour.value.Ok?)
    && (run.minute.Some? ==> t.Ok? && IsFirstTokenMatch(minuteOptions, t.value.minutes, run.minute.value))
    && (run.rent.Some? <==> run.minute.Some? && run.minute.value.Ok?)
    && (run.rent.Some? ==> IsFirstTokenMatch(rentOptions, rentHours, run.rent.value))
  }

  /** `searchCab`: the city suggestion, the calendar page, the day, the time
      and the rental duration, in that order. */
  method SearchCab(picker: DatePicker, suggestions: seq<string>, city: string,
                   dayCells: seq<string>, userDay: string, userMonth: string, userYear: string,
                   timeRaw: string, hourOptions: seq<string>, minuteOptions: seq<string>,
                   rentOptions: seq<string>, rentHours: string, ghost bound: nat) returns (run: HourlyRun)
    requires picker.Valid()
    requires PageMatches(Advance(picker.shown, bound), userMonth, userYear)
    modifies picker
    ensures picker.Valid()
    ensures IsFirstWhere(suggestions, s => EqualsIgnoreCase(s, city), run.city)
    ensures picker.shown == Advance(old(picker.shown), run.turns)
    ensures PageMatches(picker.shown, userMonth, userYear)
    ensures forall k :: 0 <= k < run.turns ==> !PageMatches(Advance(old(picker.shown), k), userMonth, userYear)
    ensures IsFirstWhere(dayCells, d => EqualsIgnoreCase(d, userDay), run.day)
    ensures IsTimeAndRent(timeRaw, hourOptions, minuteOptions, rentOptions, rentHours, run)
  {
    var c := FirstWhere(suggestions, s => EqualsIgnoreCase(s, city));
    var turns := AdvanceToLabels(picker, userMonth, userYear, bound);
    var d := FirstWhere(dayCells, e => EqualsIgnoreCase(e, userDay));
    run := HourlyRun(c, turns, d, None, None, None, None);
    var timeParts := Split(timeRaw, Space);
    if |timeParts| < 1 {
      return;
    }
    var hourMin := Split(timeParts[0], Colon);
    if |hourMin| < 2 || |timeParts| < 2 {
      return;
    }
    var hr, min := hourMin[0], hourMin[1];
    run := run.(meridian := Some(HourlyMeridian(timeParts[1])));
    var h := FirstTokenWhere(hourOptions, hr);
    run := run.(hour := Some(h));
    if h.Err? {
      return;
    }
    var m := FirstTokenWhere(minuteOptions, min);
    run := run.(minute := Some(m));
    if m.Err? {
      return;
    }
    var q := FirstTokenWhere(rentOptions, rentHours);
    run := run.(rent := Some(q));
  }

  /** The scan outcome is determined by the options and the wanted token. */
  lemma FirstTokenMatchUnique(options: seq<string>, want: string, r: Result<Option<nat>>, r': Result<Option<nat>>)
    requires IsFirstTokenMatch(options, want, r) && IsFirstTokenMatch(options, want, r')
    ensures r == r'
  {
    FirstOutcomeUnique(Checks(options, want), r, r');
  }

  lemma FirstOutcomeUnique(checks: seq<TokenCheck>, r: Result<Option<nat>>, r': Result<Option<nat>>)
    requires IsFirstOutcome(checks, r) && IsFirstOutcome(checks, r')
    ensures r == r'
  {
    if r.Err? {
      var k :| 0 <= k < |checks| && checks[k] == Throws && MissesBefore(checks, k);
      ThrowEndsScan(checks, r', k);
    }
    if r'.Err? {
      var k :| 0 <= k < |checks| && checks[k] == Throws && MissesBefore(checks, k);
      ThrowEndsScan(checks, r, k);
    }
    if r.Ok? && r'.Ok? && r.value.Some? && r'.value.Some? {
      var k, k' := r.value.value, r'.value.value;
      assert !(k < k') && !(k' < k);
    }
  }

  /** An option that throws, with only misses before it, ends every scan in
      the exception. */
  lemma ThrowEndsScan(checks: seq<TokenCheck>, r: Result<Option<nat>>, k: nat)
    requires IsFirstOutcome(checks, r)
    requires k < |checks| && checks[k] == Throws && MissesBefore(checks, k)
    ensures r == Err(IndexOutOfBounds)
  {
  }
}
