/** cabsObjectRepo/Outstation: the outstation-cab page. Cities are picked by
    prefix, the date picker is paged in both directions until the displayed
    YearMonth is the target, times are used as typed, and the vehicle
    results are recorded in a JSON file under the scenario's name. */
module Outstation {
  import opened Common
  import opened JavaText
  import opened Selection
  import opened Calendar
  import opened TimePicker
  import opened JsonDataWriter

  // -------------------------------------------------------------------------
  // fromField / toField

  method FromField(suggestions: seq<string>, osFromCity: string) returns (clicked: Option<nat>)
    ensures IsFirstWhere(suggestions, t => StartsWith(t, osFromCity), clicked)
  {
    clicked := FirstWhere(suggestions, t => CityMatch(t, osFromCity));
    CityMatchIsPrefix(suggestions, osFromCity, clicked);
  }

  method ToField(suggestions: seq<string>, osToCity: string) returns (clicked: Option<nat>)
    ensures IsFirstWhere(suggestions, t => StartsWith(t, osToCity), clicked)
  {
    clicked := FirstWhere(suggestions, t => CityMatch(t, osToCity));
    CityMatchIsPrefix(suggestions, osToCity, clicked);
  }

  // -------------------------------------------------------------------------
  // pickupDate / returnDate: page in both directions until the target.

  function Distance(a: YearMonth, b: YearMonth): nat
  {
    if Index(a) <= Index(b) then Index(b) - Index(a) else Index(a) - Index(b)
  }

  /** The loop: Next while the displayed page is before the target, Prev while
      it is after, stop on the target. Prev is disabled on the earliest page,
      so a target before it is out of reach; failed clicks are swallowed. */
  method NavigateTo(picker: DatePicker, target: YearMonth) returns (turns: nat)
    requires picker.Valid() && Index(picker.earliest) <= Index(target)
    modifies picker
    ensures picker.Valid()
    ensures picker.shown == target
    ensures turns == Distance(old(picker.shown), target)
  {
    ghost var start := picker.shown;
    turns := 0;
    while true
      invariant picker.Valid()
      invariant Index(start) <= Index(target) ==> Index(start) <= Index(picker.shown) <= Index(target)
      invariant Index(target) < Index(start) ==> Index(target) <= Index(picker.shown) <= Index(start)
      invariant turns == Distance(start, picker.shown)
      decreases Distance(picker.shown, target)
    {
      if picker.shown == target {
        break;
      } else if Index(picker.shown) < Index(target) {
        picker.Next();
      } else {
        if Index(picker.shown) == Index(target) {
          IndexInjective(picker.shown, target);
        }
        var moved := picker.Prev();
      }
      turns := turns + 1;
    }
  }

  /** One pass of the loop body on the page counter. */
  function PageStep(shown: YearMonth, target: YearMonth, earliest: YearMonth): YearMonth
  {
    if shown == target then shown
    else if Index(shown) < Index(target) then NextMonth(shown)
    else if Index(shown) > Index(earliest) then PrevMonth(shown)
    else shown
  }

  function Pages(start: YearMonth, target: YearMonth, earliest: YearMonth, k: nat): YearMonth
  {
    if k == 0 then start else PageStep(Pages(start, target, earliest, k - 1), target, earliest)
  }

  /** A target before the earliest selectable page is never displayed: the
      loop pages back to the earliest page and then spins there, clicking a
      disabled Prev, without ever exiting. */
  lemma UnreachableTargetSpins(start: YearMonth, target: YearMonth, earliest: YearMonth, k: nat)
    requires Index(target) < Index(earliest) <= Index(start)
    ensures Index(earliest) <= Index(Pages(start, target, earliest, k))
    ensures Pages(start, target, earliest, k) != target
    ensures k >= Index(start) - Index(earliest) ==> Pages(start, target, earliest, k) == earliest
  {
    if k <= Index(start) - Index(earliest) {
      PagesBackwards(start, target, earliest, k);
    }
    if k >= Index(start) - Index(earliest) {
      PagesStayAtEarliest(start, target, earliest, k);
    }
  }

  /** From the earliest page on, every pass stays there. */
  lemma {:induction false} PagesStayAtEarliest(start: YearMonth, target: YearMonth, earliest: YearMonth, k: nat)
    requires Index(target) < Index(earliest) <= Index(start)
    requires k >= Index(start) - Index(earliest)
    ensures Pages(start, target, earliest, k) == earliest
  {
    if k == Index(start) - Index(earliest) {
      PagesBackwards(start, target, earliest, k);
      IndexInjective(Pages(start, target, earliest, k), earliest);
    } else {
      PagesStayAtEarliest(start, target, earliest, k - 1);
      StepAboveTarget(earliest, target, earliest);
    }
  }

  /** Above a target before the earliest page, a pass clicks Prev: one month
      back, or nothing on the earliest page. */
  lemma StepAboveTarget(p: YearMonth, target: YearMonth, earliest: YearMonth)
    requires Index(target) < Index(earliest) <= Index(p)
    ensures Index(p) == Index(earliest) ==> PageStep(p, target, earliest) == p
    ensures Index(p) > Index(earliest) ==> Index(PageStep(p, target, earliest)) == Index(p) - 1
  {
    assert p != target;
  }

  /** Before reaching the earliest page, each pass moves one month back. */
  lemma {:induction false} PagesBackwards(start: YearMonth, target: YearMonth, earliest: YearMonth, k: nat)
    requires Index(target) < Index(earliest) <= Index(start)
    requires k <= Index(start) - Index(earliest)
    ensures Index(Pages(start, target, earliest, k)) == Index(start) - k
  {
    if k > 0 {
      PagesBackwards(start, target, earliest, k - 1);
      StepAboveTarget(Pages(start, target, earliest, k - 1), target, earliest);
    }
  }

  /** The day cell `//a[normalize-space()='<day>']` (String.valueOf of the
      day of month): the first whose normalised text is the day label. */
  predicate IsDayCell(text: string, day: DayNum)
  {
    NormalizeSpace(text) == DayLabel(day)
  }

  /** `pickupDate` (and `returnDate`, which differs only in the field it
      opens): a date that does not parse throws before anything is clicked;
      otherwise the picker is paged to the target and the day cell is
      clicked, or NoSuchElement is thrown when there is none. */
  method PickDate(picker: DatePicker, date: Option<Date>, dayCells: seq<string>) returns (turns: nat, day: Result<nat>)
    requires picker.Valid()
    requires date.Some? ==> Index(picker.earliest) <= Index(date.value.Page())
    modifies picker
    ensures picker.Valid()
    ensures date.None? ==> day == Err(DateParse) && turns == 0 && picker.shown == old(picker.shown)
    ensures date.Some? ==>
      && picker.shown == date.value.Page()
      && turns == Distance(old(picker.shown), date.value.Page())
      && (day.Ok? ==> day.value < |dayCells| && IsFirstWhere(dayCells, t => IsDayCell(t, date.value.day), Some(day.value)))
      && (day.Err? ==> day.error == NoSuchElement && IsFirstWhere(dayCells, t => IsDayCell(t, date.value.day), None))
  {
    if date.None? {
      return 0, Err(DateParse);
    }
    turns := NavigateTo(picker, date.value.Page());
    var d := date.value.day;
    var cell := FirstWhere(dayCells, t => IsDayCell(t, d));
    day := if cell.Some? then Ok(cell.value) else Err(NoSuchElement);
  }

  method PickupDate(picker: DatePicker, date: Option<Date>, dayCells: seq<string>) returns (turns: nat, day: Result<nat>)
    requires picker.Valid()
    requires date.Some? ==> Index(picker.earliest) <= Index(date.value.Page())
    modifies picker
    ensures picker.Valid()
    ensures date.None? ==> day == Err(DateParse) && turns == 0 && picker.shown == old(picker.shown)
    ensures date.Some? ==>
      && picker.shown == date.value.Page()
      && turns == Distance(old(picker.shown), date.value.Page())
      && (day.Ok? ==> day.value < |dayCells| && IsFirstWhere(dayCells, t => IsDayCell(t, date.value.day), Some(day.value)))
      && (day.Err? ==> day.error == NoSuchElement && IsFirstWhere(dayCells, t => IsDayCell(t, date.value.day), None))
  {
    turns, day := PickDate(picker, date, dayCells);
  }

  method ReturnDate(picker: DatePicker, date: Option<Date>, dayCells: seq<string>) returns (turns: nat, day: Result<nat>)
    requires picker.Valid()
    requires date.Some? ==> Index(picker.earliest) <= Index(date.value.Page())
    modifies picker
    ensures picker.Valid()
    ensures date.None? ==> day == Err(DateParse) && turns == 0 && picker.shown == old(picker.shown)
    ensures date.Some? ==>
      && picker.shown == date.value.Page()
      && turns == Distance(old(picker.shown), date.value.Page())
      && (day.Ok? ==> day.value < |dayCells| && IsFirstWhere(dayCells, t => IsDayCell(t, date.value.day), Some(day.value)))
      && (day.Err? ==> day.error == NoSuchElement && IsFirstWhere(dayCells, t => IsDayCell(t, date.value.day), None))
  {
    turns, day := PickDate(picker, date, dayCells);
  }

  /** A cell showing exactly the day label, or the label with white space
      around it, is a day cell for that day. */
  lemma DayCellByLabel(day: DayNum, lead: string, tail: string)
    requires forall i :: 0 <= i < |lead| ==> IsXmlSpace(lead[i])
    requires forall i :: 0 <= i < |tail| ==> IsXmlSpace(tail[i])
    ensures IsDayCell(lead + DayLabel(day) + tail, day)
  {
    LeadCollapse(lead, DayLabel(day) + tail);
    assert lead + DayLabel(day) + tail == lead + (DayLabel(day) + tail);
    WordCollapse(DayLabel(day), tail);
  }

  /** normalize-space ignores leading white space. */
  lemma {:induction false} LeadCollapse(lead: string, rest: string)
    requires forall i :: 0 <= i < |lead| ==> IsXmlSpace(lead[i])
    ensures Collapse(lead + rest, false, false) == Collapse(rest, false, false)
    decreases |lead|
  {
    if lead != [] {
      assert (lead + rest)[0] == lead[0] && IsXmlSpace(lead[0]);
      assert (lead + rest)[1..] == lead[1..] + rest;
      assert forall i :: 0 <= i < |lead[1..]| ==> lead[1..][i] == lead[i + 1];
      LeadCollapse(lead[1..], rest);
    } else {
      assert lead + rest == rest;
    }
  }

  /** A word with no white space, followed only by white space, collapses to the word. */
  lemma {:induction false} WordCollapse(word: string, tail: string)
    requires word != [] && forall i :: 0 <= i < |word| ==> !IsXmlSpace(word[i])
    requires forall i :: 0 <= i < |tail| ==> IsXmlSpace(tail[i])
    ensures Collapse(word + tail, false, false) == word
  {
    WordCollapseFrom(word, tail, false);
  }

  lemma {:induction false} WordCollapseFrom(word: string, tail: string, started: bool)
    requires forall i :: 0 <= i < |word| ==> !IsXmlSpace(word[i])
    requires forall i :: 0 <= i < |tail| ==> IsXmlSpace(tail[i])
    requires word == [] ==> started
    ensures Collapse(word + tail, started, false) == word
    decreases |word| + |tail|
  {
    var s := word + tail;
    if word != [] {
      assert s[0] == word[0] && s[1..] == word[1..] + tail;
      WordCollapseFrom(word[1..], tail, true);
      assert [word[0]] + word[1..] == word;
    } else if tail != [] {
      assert s == tail && s[1..] == [] + tail[1..];
      TailCollapse(tail[1..], started);
    }
  }

  lemma {:induction false} TailCollapse(tail: string, started: bool)
    requires forall i :: 0 <= i < |tail| ==> IsXmlSpace(tail[i])
    ensures Collapse(tail, started, started) == []
    decreases |tail|
  {
    if tail != [] {
      TailCollapse(tail[1..], started);
    }
  }

  // -------------------------------------------------------------------------
  // pickupTime / returnTime

  /** The parts `pickupTime`/`returnTime` use, verbatim: no leading zero is
      stripped. Fewer than three parts throw ArrayIndexOutOfBounds. */
  function OutstationTimeFields(time: string): (r: Result<TimeFields>)
    ensures r.Ok? <==> |SplitTime(time)| >= 3
  {
    var parts := SplitTime(time);
    if |parts| < 3 then Err(IndexOutOfBounds) else Ok(TimeFields(parts[0], parts[1], parts[2]))
  }

  /** "05:30 PM" keeps its hour "05": the option looked up is "05 Hr.". */
  lemma OutstationTimeOfClock(h: nat, m: nat, mer: string)
    requires h < 100 && m < 100
    requires mer != [] && FreeOf(mer, TimeDelimiters)
    ensures OutstationTimeFields(Pad2(h) + ":" + Pad2(m) + " " + mer) == Ok(TimeFields(Pad2(h), Pad2(m), mer))
  {
    Pad2Plain(h);
    Pad2Plain(m);
    SplitTimeOfParts(Pad2(h), Pad2(m), mer);
  }

  /** The option `//li[normalize-space()='<text>']`. */
  predicate IsOption(item: string, text: string)
  {
    NormalizeSpace(item) == text
  }

  /** Shared by pickupTime and returnTime (they differ only in which picker's
      selectors and options they use): click the meridian selector, then the
      hour option, then the minute option, then Done. */
  method PickTime(time: string, hourOptions: seq<string>, minuteOptions: seq<string>) returns (r: TimeClicks)
    ensures OutstationTimeFields(time).Err? ==> r == TimeClicks(None, None, None, Some(IndexOutOfBounds))
    ensures OutstationTimeFields(time).Ok? ==>
      var f := OutstationTimeFields(time).value;
      && r.meridian == MeridianOf(f.meridian)
      && IsFirstWhere(hourOptions, l => IsOption(l, HourLabel(f.hours)), r.hour)
      && (r.hour.None? ==> r.minute.None? && r.failure == Some(NoSuchElement))
      && (r.hour.Some? ==> IsFirstWhere(minuteOptions, l => IsOption(l, MinuteLabel(f.minutes)), r.minute))
      && (r.hour.Some? && r.minute.None? ==> r.failure == Some(NoSuchElement))
      && (r.minute.Some? ==> r.failure.None?)
  {
    var parts := SplitTime(time);
    if |parts| < 3 {
      return TimeClicks(None, None, None, Some(IndexOutOfBounds));
    }
    var hours, minutes, meridian := parts[0], parts[1], parts[2];
    var selector := MeridianOf(meridian);
    var hour := FirstWhere(hourOptions, l => IsOption(l, HourLabel(hours)));
    if hour.None? {
      return TimeClicks(selector, None, None, Some(NoSuchElement));
    }
    var minute := FirstWhere(minuteOptions, l => IsOption(l, MinuteLabel(minutes)));
    if minute.None? {
      return TimeClicks(selector, hour, None, Some(NoSuchElement));
    }
    return TimeClicks(selector, hour, minute, None);
  }

  method PickupTime(time: string, hourOptions: seq<string>, minuteOptions: seq<string>) returns (r: TimeClicks)
    ensures OutstationTimeFields(time).Err? ==> r == TimeClicks(None, None, None, Some(IndexOutOfBounds))
    ensures OutstationTimeFields(time).Ok? ==>
      var f := OutstationTimeFields(time).value;
      && r.meridian == MeridianOf(f.meridian)
      && IsFirstWhere(hourOptions, l => IsOption(l, HourLabel(f.hours)), r.hour)
      && (r.hour.None? ==> r.minute.None? && r.failure == Some(NoSuchElement))
      && (r.hour.Some? ==> IsFirstWhere(minuteOptions, l => IsOption(l, MinuteLabel(f.minutes)), r.minute))
      && (r.hour.Some? && r.minute.None? ==> r.failure == Some(NoSuchElement))
      && (r.minute.Some? ==> r.failure.None?)
  {
    r := PickTime(time, hourOptions, minuteOptions);
  }

  method ReturnTime(time: string, hourOptions: seq<string>, minuteOptions: seq<string>) returns (r: TimeClicks)
    ensures OutstationTimeFields(time).Err? ==> r == TimeClicks(None, None, None, Some(IndexOutOfBounds))
    ensures OutstationTimeFields(time).Ok? ==>
      var f := OutstationTimeFields(time).value;
      && r.meridian == MeridianOf(f.meridian)
      && IsFirstWhere(hourOptions, l => IsOption(l, HourLabel(f.hours)), r.hour)
      && (r.hour.None? ==> r.minute.None? && r.failure == Some(NoSuchElement))
      && (r.hour.Some? ==> IsFirstWhere(minuteOptions, l => IsOption(l, MinuteLabel(f.minutes)), r.minute))
      && (r.hour.Some? && r.minute.None? ==> r.failure == Some(NoSuchElement))
      && (r.minute.Some? ==> r.failure.None?)
  {
    r := PickTime(time, hourOptions, minuteOptions);
  }

  // -------------------------------------------------------------------------
  // results

  /** A vehicle block: its name and price elements, None when the block has
      no such element. */
  datatype VehicleBlock = VehicleBlock(name: Option<string>, price: Option<string>)

  /** The (trimmed name, trimmed price) pairs of the blocks that have both, in
      block order. */
  function Recorded(blocks: seq<VehicleBlock>): (pairs: seq<(string, string)>)
    ensures |pairs| <= |blocks|
  {
    if blocks == [] then []
    else
      var b := blocks[|blocks| - 1];
      Recorded(blocks[..|blocks| - 1]) + if b.name.Some? && b.price.Some? then [(Trim(b.name.value), Trim(b.price.value))] else []
  }

  /** The file after one scenario write per pair, in order; a write that
      throws leaves the file as it was (the exception is caught). */
  function RecordAll(f: FileState, scenario: string, pairs: seq<(string, string)>): FileState
  {
    if pairs == [] then f
    else
      var g := RecordAll(f, scenario, pairs[..|pairs| - 1]);
      var p := pairs[|pairs| - 1];
      AfterScenarioWrite(g, scenario, p.0, p.1)
  }

  lemma RecordedStep(blocks: seq<VehicleBlock>, i: nat)
    requires i < |blocks|
    ensures var b := blocks[i];
      b.name.Some? && b.price.Some? ==> Recorded(blocks[..i + 1]) == Recorded(blocks[..i]) + [(Trim(b.name.value), Trim(b.price.value))]
    ensures var b := blocks[i];
      !(b.name.Some? && b.price.Some?) ==> Recorded(blocks[..i + 1]) == Recorded(blocks[..i])
  {
    assert blocks[..i + 1][..i] == blocks[..i];
  }

  lemma RecordAllStep(f: FileState, scenario: string, pairs: seq<(string, string)>, p: (string, string))
    ensures RecordAll(f, scenario, pairs + [p]) == AfterScenarioWrite(RecordAll(f, scenario, pairs), scenario, p.0, p.1)
  {
    assert (pairs + [p])[..|pairs|] == pairs;
  }

  const SuvMessage: string := "SUV checkbox not enabled"
  const OptionsMessage: string := "Options link not visible"
  const NoBlocksMessage: string := "No cab prices were displayed."

  /** `results(scenario)`: two display assertions, then a non-empty block list,
      then one JSON write per complete block, each failure swallowed. */
  method Results(suvShown: bool, optionsShown: bool, blocks: seq<VehicleBlock>, scenario: string, file: JsonFile) returns (outcome: Outcome)
    modifies file
    ensures outcome == if !suvShown then Fail(AssertionFailed(SuvMessage))
                       else if !optionsShown then Fail(AssertionFailed(OptionsMessage))
                       else if blocks == [] then Fail(AssertionFailed(NoBlocksMessage)) else Pass
    ensures file.state == if outcome.Pass? then RecordAll(old(file.state), scenario, Recorded(blocks)) else old(file.state)
  {
    if !suvShown {
      return Fail(AssertionFailed(SuvMessage));
    }
    if !optionsShown {
      return Fail(AssertionFailed(OptionsMessage));
    }
    if blocks == [] {
      return Fail(AssertionFailed(NoBlocksMessage));
    }
    RecordBlocks(blocks, scenario, file);
    outcome := Pass;
  }

  /** One pass of the loop of `results`. */
  method RecordBlock(b: VehicleBlock, scenario: string, file: JsonFile)
    modifies file
    ensures b.name.Some? && b.price.Some? ==>
      file.state == AfterScenarioWrite(old(file.state), scenario, Trim(b.name.value), Trim(b.price.value))
    ensures !(b.name.Some? && b.price.Some?) ==> file.state == old(file.state)
  {
    if b.name.Some? && b.price.Some? {
      var vehicleName := Trim(b.name.value);
      var price := Trim(b.price.value);
      var written := file.WriteSimpleDataWithScenario(scenario, vehicleName, price);
    }
  }

  /** The loop of `results`: each block with both a name and a price element
      is written as trimmed name -> trimmed price; an exception thrown by
      a lookup or by the write is caught and the next block is tried. */
  method RecordBlocks(blocks: seq<VehicleBlock>, scenario: string, file: JsonFile)
    modifies file
    ensures file.state == RecordAll(old(file.state), scenario, Recorded(blocks))
  {
    var i := 0;
    while i < |blocks|
      invariant 0 <= i <= |blocks|
      invariant file.state == RecordAll(old(file.state), scenario, Recorded(blocks[..i]))
    {
      RecordedStep(blocks, i);
      ghost var done := Recorded(blocks[..i]);
      var b := blocks[i];
      RecordBlock(b, scenario, file);
      if b.name.Some? && b.price.Some? {
        RecordAllStep(old(file.state), scenario, done, (Trim(b.name.value), Trim(b.price.value)));
      }
      i := i + 1;
    }
    assert blocks[..i] == blocks;
  }

  /** A file the scenario write succeeds on: no file, an empty one, or a
      root object whose scenario member is absent or an object. */
  predicate Writable(f: FileState, scenario: string)
  {
    f.Missing? || f == Stored(EmptyFile)
    || (RootOf(f).Some? && (Get(RootOf(f).value, scenario).None? || Get(RootOf(f).value, scenario).value.JObject?))
  }

  lemma WritableIffWrites(f: FileState, scenario: string, key: string, value: string)
    ensures ScenarioWrite(f, scenario, key, value).Ok? <==> Writable(f, scenario)
  {
  }

  /** Once a write succeeded, the file stays writable for that scenario. */
  lemma {:induction false} WriteKeepsWritable(f: FileState, scenario: string, key: string, value: string)
    requires Writable(f, scenario)
    ensures Writable(ScenarioWrite(f, scenario, key, value).value, scenario)
    ensures BlockOf(ScenarioWrite(f, scenario, key, value).value, scenario).Some?
  {
    var root: Members := if f.Missing? || f.content.EmptyFile? then [] else RootOf(f).value;
    var block: Members := if BlockOf(f, scenario).Some? then BlockOf(f, scenario).value else [];
    GetPut(root, scenario, JObject(Put(block, key, JString(value))), scenario);
  }

  /** On a writable file, each recorded vehicle name ends up mapped, inside
      the scenario block, to the price of its last complete block. */
  lemma {:induction false} RecordAllLastPriceWins(f: FileState, scenario: string, pairs: seq<(string, string)>, i: nat)
    requires Writable(f, scenario)
    requires i < |pairs|
    requires forall j :: i < j < |pairs| ==> pairs[j].0 != pairs[i].0
    ensures Writable(RecordAll(f, scenario, pairs), scenario)
    ensures BlockOf(RecordAll(f, scenario, pairs), scenario).Some?
    ensures Get(BlockOf(RecordAll(f, scenario, pairs), scenario).value, pairs[i].0) == Some(JString(pairs[i].1))
    decreases |pairs|
  {
    var n := |pairs| - 1;
    var prefix := pairs[..n];
    var p := pairs[n];
    var g := RecordAll(f, scenario, prefix);
    assert RecordAll(f, scenario, pairs) == AfterScenarioWrite(g, scenario, p.0, p.1);
    RecordAllWritable(f, scenario, prefix);
    WritableIffWrites(g, scenario, p.0, p.1);
    var h := ScenarioWrite(g, scenario, p.0, p.1).value;
    assert RecordAll(f, scenario, pairs) == h;
    WriteKeepsWritable(g, scenario, p.0, p.1);
    BlockAfterWrite(g, scenario, p.0, p.1, pairs[i].0);
    if i < n {
      forall j | i < j < |prefix| ensures prefix[j].0 != prefix[i].0 {
        assert prefix[j] == pairs[j];
      }
      RecordAllLastPriceWins(f, scenario, prefix, i);
      assert prefix[i] == pairs[i] && p.0 != pairs[i].0;
      assert Get(BlockOf(h, scenario).value, pairs[i].0) == Get(BlockOf(g, scenario).value, pairs[i].0);
    } else {
      assert p == pairs[i];
    }
  }

  /** A successful scenario write sets `key` in the block and keeps the
      block's other members. */
  lemma BlockAfterWrite(f: FileState, scenario: string, key: string, value: string, x: string)
    requires ScenarioWrite(f, scenario, key, value).Ok?
    ensures var g := ScenarioWrite(f, scenario, key, value).value;
      && BlockOf(g, scenario).Some?
      && Get(BlockOf(g, scenario).value, x)
        == if x == key then Some(JString(value)) else if BlockOf(f, scenario).Some? then Get(BlockOf(f, scenario).value, x) else None
  {
    var root: Members := if f.Missing? || f.content.EmptyFile? then [] else RootOf(f).value;
    var block: Members := if BlockOf(f, scenario).Some? then BlockOf(f, scenario).value else [];
    GetPut(root, scenario, JObject(Put(block, key, JString(value))), scenario);
    GetPut(block, key, JString(value), x);
  }

  lemma {:induction false} RecordAllWritable(f: FileState, scenario: string, pairs: seq<(string, string)>)
    requires Writable(f, scenario)
    ensures Writable(RecordAll(f, scenario, pairs), scenario)
    decreases |pairs|
  {
    if pairs != [] {
      var n := |pairs| - 1;
      RecordAllWritable(f, scenario, pairs[..n]);
      WriteKeepsWritable(RecordAll(f, scenario, pairs[..n]), scenario, pairs[n].0, pairs[n].1);
    }
  }

  /** On a file that is not writable every write throws, so `results` leaves
      it unchanged. */
  lemma {:induction false} RecordAllUnwritable(f: FileState, scenario: string, pairs: seq<(string, string)>)
    requires !Writable(f, scenario)
    ensures RecordAll(f, scenario, pairs) == f
    decreases |pairs|
  {
    if pairs != [] {
      RecordAllUnwritable(f, scenario, pairs[..|pairs| - 1]);
    }
  }
}
