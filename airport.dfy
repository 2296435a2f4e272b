/** cabsObjectRepo/Airport: the airport-transfer page. Suggestions are picked
    by a best-match rule, the date picker is paged forward only, the time text
    is split into option labels, and the result lists are written to a sheet. */
module Airport {
  import opened Common
  import opened JavaText
  import opened Selection
  import opened Calendar
  import opened TimePicker
  import opened ExcelWrite

  // -------------------------------------------------------------------------
  // Suggestions: exact match, else the shortest match containing the target.

  /** Integer.MAX_VALUE, the initial `shortestLength`. */
  const IntMax: int := 0x7fff_ffff

  /** `s.trim().toLowerCase()`, applied to the target and to every suggestion. */
  function Normal(s: string): string
  {
    ToLower(Trim(s))
  }

  /** The normalised text of every suggestion, in order. */
  function Normals(suggestions: seq<string>): (texts: seq<string>)
    ensures |texts| == |suggestions|
  {
    seq(|suggestions|, i requires 0 <= i < |suggestions| => Normal(suggestions[i]))
  }

  /** `text.startsWith(t) || text.contains(t)`. */
  predicate Mentions(text: string, t: string)
  {
    StartsWith(text, t) || Contains(text, t)
  }

  /** The suggestion the Airport rule clicks, over the normalised suggestion
      texts and the normalised target `t`: the first exact match when there is
      one; otherwise a text mentioning `t` of least length, the earliest among
      equal lengths; nothing when no text mentions `t`. */
  ghost predicate IsBestMatch(texts: seq<string>, t: string, clicked: Option<nat>)
  {
    if t in texts then
      clicked.Some? && clicked.value < |texts| && texts[clicked.value] == t
      && forall j :: 0 <= j < clicked.value ==> texts[j] != t
    else if clicked.None? then
      forall j :: 0 <= j < |texts| ==> !Mentions(texts[j], t)
    else
      var k := clicked.value;
      k < |texts| && Mentions(texts[k], t)
      && (forall j :: 0 <= j < |texts| && Mentions(texts[j], t) ==> |texts[k]| <= |texts[j]|)
      && (forall j :: 0 <= j < k && Mentions(texts[j], t) ==> |texts[k]| < |texts[j]|)
  }

  /** The loop of selectSrcVal/selectDestVal over the normalised texts:
      return on the first exact match, otherwise remember the first text of
      least length that mentions `t`. Java strings are shorter than
      Integer.MAX_VALUE, which the sentinel `shortestLength` relies on. */
  method Scan(texts: seq<string>, t: string) returns (clicked: Option<nat>)
    requires forall i :: 0 <= i < |texts| ==> |texts[i]| < IntMax
    ensures IsBestMatch(texts, t, clicked)
  {
    var best: Option<nat> := None;
    var shortest := IntMax;
    var i := 0;
    while i < |texts|
      invariant 0 <= i <= |texts|
      invariant t !in texts[..i]
      invariant best.None? ==> shortest == IntMax && forall j :: 0 <= j < i ==> !Mentions(texts[j], t)
      invariant best.Some? ==>
        best.value < i && Mentions(texts[best.value], t) && shortest == |texts[best.value]|
        && (forall j :: 0 <= j < i && Mentions(texts[j], t) ==> shortest <= |texts[j]|)
        && (forall j :: 0 <= j < best.value && Mentions(texts[j], t) ==> shortest < |texts[j]|)
    {
      var text := texts[i];
      if text == t {
        clicked := Some(i);
        return;
      }
      if StartsWith(text, t) || Contains(text, t) {
        if |text| < shortest {
          best := Some(i);
          shortest := |text|;
        }
      }
      assert texts[..i + 1] == texts[..i] + [texts[i]];
      i := i + 1;
    }
    assert texts[..i] == texts;
    clicked := best;
  }

  /** selectSrcVal/selectDestVal: the target and every suggestion are
      compared after `trim().toLowerCase()`; the clicked suggestion always
      contains the normalised target. */
  method BestMatch(suggestions: seq<string>, target: string) returns (clicked: Option<nat>)
    requires forall i :: 0 <= i < |suggestions| ==> |suggestions[i]| < IntMax
    ensures IsBestMatch(Normals(suggestions), Normal(target), clicked)
    ensures clicked.Some? ==> clicked.value < |suggestions| && Contains(Normal(suggestions[clicked.value]), Normal(target))
  {
    ghost var texts := Normals(suggestions);
    forall j | 0 <= j < |texts|
      ensures |texts[j]| < IntMax
    {
      assert texts[j] == Normal(suggestions[j]);
    }
    clicked := Scan(Normals(suggestions), Normal(target));
    if clicked.Some? {
      var k := clicked.value;
      if texts[k] == Normal(target) {
        assert OccursAt(texts[k], Normal(target), 0);
      } else if StartsWith(texts[k], Normal(target)) {
        StartsWithImpliesContains(texts[k], Normal(target));
      }
    }
  }

  /** The choice is unique, and the rule sees the target only through its
      normalised form: targets that differ in case or in surrounding white
      space click the same suggestion. */
  lemma {:induction false} BestMatchIgnoresTargetCaseAndPadding(suggestions: seq<string>, a: string, b: string, ra: Option<nat>, rb: Option<nat>)
    requires Normal(a) == Normal(b)
    requires IsBestMatch(Normals(suggestions), Normal(a), ra) && IsBestMatch(Normals(suggestions), Normal(b), rb)
    ensures ra == rb
  {
    BestMatchUnique(Normals(suggestions), Normal(a), ra, rb);
  }

  lemma BestMatchUnique(texts: seq<string>, t: string, r: Option<nat>, r': Option<nat>)
    requires IsBestMatch(texts, t, r) && IsBestMatch(texts, t, r')
    ensures r == r'
  {
    if t !in texts && r.Some? && r'.Some? {
      var k, k' := r.value, r'.value;
      assert |texts[k]| <= |texts[k']| && |texts[k']| <= |texts[k]|;
      assert !(k < k') && !(k' < k);
    }
  }

  /** An exact match anywhere in the list beats every fuzzy match, however
      short, seen before it: the first suggestion equal to the target after
      normalisation is the one clicked. */
  lemma {:induction false} ExactBeatsEarlierFuzzy(suggestions: seq<string>, target: string, e: nat, clicked: Option<nat>)
    requires e < |suggestions| && Normal(suggestions[e]) == Normal(target)
    requires forall j :: 0 <= j < e ==> Normal(suggestions[j]) != Normal(target)
    requires IsBestMatch(Normals(suggestions), Normal(target), clicked)
    ensures clicked == Some(e)
  {
    var texts := Normals(suggestions);
    assert texts[e] == Normal(target);
    var k := clicked.value;
    assert k < |texts| && texts[k] == Normal(suggestions[k]) == Normal(target);
  }

  method SelectSrcVal(suggestions: seq<string>, sourceVal: string) returns (clicked: Option<nat>)
    requires forall i :: 0 <= i < |suggestions| ==> |suggestions[i]| < IntMax
    ensures IsBestMatch(Normals(suggestions), Normal(sourceVal), clicked)
    ensures clicked.Some? ==> clicked.value < |suggestions| && Contains(Normal(suggestions[clicked.value]), Normal(sourceVal))
  {
    clicked := BestMatch(suggestions, sourceVal);
  }

  method SelectDestVal(suggestions: seq<string>, destVal: string) returns (clicked: Option<nat>)
    requires forall i :: 0 <= i < |suggestions| ==> |suggestions[i]| < IntMax
    ensures IsBestMatch(Normals(suggestions), Normal(destVal), clicked)
    ensures clicked.Some? ==> clicked.value < |suggestions| && Contains(Normal(suggestions[clicked.value]), Normal(destVal))
  {
    clicked := BestMatch(suggestions, destVal);
  }

  // -------------------------------------------------------------------------
  // selectDate: Next is clicked while `currMonth < month || currYear < year`.

  predicate KeepsPaging(shown: YearMonth, target: YearMonth)
  {
    shown.month < target.month || shown.year < target.year
  }

  /** Where the forward-only loop stops. From a page at or before the target
      it stops on the target. From a page after it, it stops without reaching
      the target, after at most 11 clicks (when the year is later but the month
      earlier, it pages on to the target's month in the later year). */
  function PagingStop(start: YearMonth, target: YearMonth): (stop: YearMonth)
    ensures Index(start) <= Index(stop)
    ensures !KeepsPaging(stop, target)
    ensures Index(start) <= Index(target) ==> stop == target
    ensures Index(target) < Index(start) ==> stop != target && Index(stop) - Index(start) <= 11
  {
    if Index(start) <= Index(target) then target
    else if start.year > target.year && start.month < target.month then YearMonth(start.year, target.month)
    else start
  }

  /** Every page before the stop satisfies the loop condition, so the loop
      does not exit early. */
  lemma KeepsPagingBeforeStop(start: YearMonth, target: YearMonth, shown: YearMonth)
    requires Index(start) <= Index(shown) < Index(PagingStop(start, target))
    ensures KeepsPaging(shown, target)
  {
    if Index(start) > Index(target) {
      assert start.year * 12 <= Index(shown) < start.year * 12 + 12;
    }
  }

  /** `selectDate`: page forward while the loop condition holds, then click the
      first day cell labelled with the target day if the target page is shown.
      A date that does not parse (`target` None) and a missing day cell are
      swallowed by the catch-all handler: nothing more happens. */
  method SelectDate(picker: DatePicker, target: Option<Date>, dayCells: seq<string>) returns (turns: nat, day: Option<nat>)
    requires picker.Valid()
    modifies picker
    ensures picker.Valid()
    ensures target.None? ==> turns == 0 && day.None? && picker.shown == old(picker.shown)
    ensures target.Some? ==> picker.shown == PagingStop(old(picker.shown), target.value.Page())
    ensures Index(picker.shown) == Index(old(picker.shown)) + turns
    ensures day.Some? ==> target.Some? && picker.shown == target.value.Page()
    ensures target.Some? && picker.shown == target.value.Page() ==>
      IsFirstWhere(dayCells, l => l == DayLabel(target.value.day), day)
  {
    turns := 0;
    day := None;
    if target.None? {
      return;
    }
    var t := target.value.Page();
    ghost var start := picker.shown;
    while picker.shown.month < t.month || picker.shown.year < t.year
      invariant picker.Valid()
      invariant Index(start) <= Index(picker.shown) <= Index(PagingStop(start, t))
      invariant Index(picker.shown) == Index(start) + turns
      decreases Index(PagingStop(start, t)) - Index(picker.shown)
    {
      if Index(picker.shown) == Index(PagingStop(start, t)) {
        IndexInjective(picker.shown, PagingStop(start, t));
      }
      picker.Next();
      turns := turns + 1;
    }
    if Index(picker.shown) < Index(PagingStop(start, t)) {
      KeepsPagingBeforeStop(start, t, picker.shown);
    }
    IndexInjective(picker.shown, PagingStop(start, t));
    if picker.shown == t {
      var item := DayLabel(target.value.day);
      day := FirstWhere(dayCells, l => l == item);
    }
  }

  // -------------------------------------------------------------------------
  // selectTime: split on ':' or ' ', strip a leading '0' from the hour.

  /** The hour, minute and meridian texts `selectTime` uses, or the exception
      it throws before clicking anything: fewer than three parts, an empty
      hour, or an hour that is the single character '0'. When the hour starts
      with '0' only its second character is kept. */
  function AirportTimeFields(time: string): (r: Result<TimeFields>)
    ensures r.Ok? <==> |SplitTime(time)| >= 3 && SplitTime(time)[0] != [] && SplitTime(time)[0] != "0"
    ensures r.Err? ==> r.error == IndexOutOfBounds
    ensures r.Ok? ==> r.value.minutes == SplitTime(time)[1] && r.value.meridian == SplitTime(time)[2]
    ensures r.Ok? ==> r.value.hours != [] && (SplitTime(time)[0][0] != '0' ==> r.value.hours == SplitTime(time)[0])
  {
    var parts := SplitTime(time);
    if |parts| < 3 || parts[0] == [] || (parts[0][0] == '0' && |parts[0]| < 2) then Err(IndexOutOfBounds)
    else Ok(TimeFields(if parts[0][0] == '0' then [parts[0][1]] else parts[0], parts[1], parts[2]))
  }

  /** A clock time written "hh:mm AM" with a zero-padded hour yields the hour
      with no leading zero, the minutes as written and the meridian. */
  lemma AirportTimeOfClock(h: nat, m: nat, mer: string)
    requires 1 <= h <= 12 && m < 60
    requires mer != [] && FreeOf(mer, TimeDelimiters)
    ensures AirportTimeFields(Pad2(h) + ":" + Pad2(m) + " " + mer) == Ok(TimeFields(NatToString(h), Pad2(m), mer))
  {
    Pad2Plain(h);
    Pad2Plain(m);
    SplitTimeOfParts(Pad2(h), Pad2(m), mer);
    if h >= 10 {
      NatToStringNoLeadingZero(h);
    }
  }

  /** `selectTime`: click the meridian selector, then the first hour option
      whose text is "<h> Hr." and the first minute option whose text is
      "<mm> Min."; a missing option throws NoSuchElement and ends the call. */
  method SelectTime(time: string, hourOptions: seq<string>, minuteOptions: seq<string>) returns (r: TimeClicks)
    ensures AirportTimeFields(time).Err? ==> r == TimeClicks(None, None, None, Some(IndexOutOfBounds))
    ensures AirportTimeFields(time).Ok? ==>
      var f := AirportTimeFields(time).value;
      && r.meridian == MeridianOf(f.meridian)
      && IsFirstWhere(hourOptions, l => l == HourLabel(f.hours), r.hour)
      && (r.hour.None? ==> r.minute.None? && r.failure == Some(NoSuchElement))
      && (r.hour.Some? ==> IsFirstWhere(minuteOptions, l => l == MinuteLabel(f.minutes), r.minute))
      && (r.hour.Some? && r.minute.None? ==> r.failure == Some(NoSuchElement))
      && (r.minute.Some? ==> r.failure.None?)
  {
    var parts := SplitTime(time);
    if |parts| < 3 {
      return TimeClicks(None, None, None, Some(IndexOutOfBounds));
    }
    var hours, minutes, meridian := parts[0], parts[1], parts[2];
    if |hours| == 0 {
      return TimeClicks(None, None, None, Some(IndexOutOfBounds));
    }
    if hours[0] == '0' {
      if |hours| < 2 {
        return TimeClicks(None, None, None, Some(IndexOutOfBounds));
      }
      hours := [hours[1]];
    }
    var selector := MeridianOf(meridian);
    var hour := FirstWhere(hourOptions, l => l == HourLabel(hours));
    if hour.None? {
      return TimeClicks(selector, None, None, Some(NoSuchElement));
    }
    var minute := FirstWhere(minuteOptions, l => l == MinuteLabel(minutes));
    if minute.None? {
      return TimeClicks(selector, hour, None, Some(NoSuchElement));
    }
    return TimeClicks(selector, hour, minute, None);
  }

  // -------------------------------------------------------------------------
  // Result lists written to the sheet.

  const NoNamesMessage: string := "No cab names were displayed."
  const NoPricesMessage: string := "No cab prices were displayed."

  /** The two header cells displayNames writes first. */
  function WithHeaders(cells: map<(int, int), Cell>): map<(int, int), Cell>
  {
    WithValue(WithValue(cells, 0, 0, "Cab Names"), 0, 1, "Cab Prices")
  }


  /** Writes `values[k]` to row first + k of column `col` until a row index
      falls outside the sheet; returns how many were written. */
  method WriteValues(writer: Writer, col: int, values: seq<string>) returns (written: nat)
    requires writer.Valid() && ValidColumn(col)
    modifies writer
    ensures writer.Valid()
    ensures written == Min(|values|, LastRowIndex)
    ensures writer.cells == WriteColumn(old(writer.cells), col, 1, values[..written])
    ensures writer.rows == old(writer.rows) + RowSpan(1, written)
  {
    written := 0;
    while written < |values|
      invariant writer.Valid()
      invariant written <= |values| && written <= LastRowIndex
      invariant writer.cells == WriteColumn(old(writer.cells), col, 1, values[..written])
      invariant writer.rows == old(writer.rows) + RowSpan(1, written)
    {
      var ok := writer.SetCellValue(written + 1, col, values[written]);
      if !ok {
        return;
      }
      assert values[..written + 1][..written] == values[..written];
      written := written + 1;
    }
  }

  /** `displayNames`: the headers "Cab Names" and "Cab Prices" go to (0, 0)
      and (0, 1) before the assertion that the list is not empty; then the
      i-th name goes to (i + 1, 0). */
  method DisplayNames(writer: Writer, names: seq<string>) returns (outcome: Outcome)
    requires writer.Valid()
    modifies writer
    ensures writer.Valid()
    ensures var n := Min(|names|, LastRowIndex);
      && writer.cells == WriteColumn(WithHeaders(old(writer.cells)), 0, 1, names[..n])
      && writer.rows == old(writer.rows) + {0} + RowSpan(1, n)
    ensures outcome == if names == [] then Fail(AssertionFailed(NoNamesMessage))
                       else if |names| > LastRowIndex then Fail(IllegalArgument) else Pass
  {
    var ok := writer.SetCellValue(0, 0, "Cab Names");
    ok := writer.SetCellValue(0, 1, "Cab Prices");
    if names == [] {
      return Fail(AssertionFailed(NoNamesMessage));
    }
    var written := WriteValues(writer, 0, names);
    outcome := if written < |names| then Fail(IllegalArgument) else Pass;
  }

  /** What displayNames leaves in the sheet: the headers, the i-th name in
      (i + 1, 0), and every other cell as it was. */
  lemma DisplayNamesLayout(cells: map<(int, int), Cell>, names: seq<string>, i: nat, r: int, c: int)
    requires i < |names| <= LastRowIndex
    ensures var out := WriteColumn(WithHeaders(cells), 0, 1, names);
      && CellAt(out, 0, 0).value == Text("Cab Names")
      && CellAt(out, 0, 1).value == Text("Cab Prices")
      && CellAt(out, i + 1, 0).value == Text(names[i])
      && ((r, c) != (0, 0) && (r, c) != (0, 1) && (c != 0 || r < 1 || |names| < r) ==> CellAt(out, r, c) == CellAt(cells, r, c))
  {
    WriteColumnFrame(WithHeaders(cells), 0, 1, names, 0, 0);
    WriteColumnFrame(WithHeaders(cells), 0, 1, names, 0, 1);
    WriteColumnAt(WithHeaders(cells), 0, 1, names, i);
    if (r, c) != (0, 0) && (r, c) != (0, 1) && (c != 0 || r < 1 || |names| < r) {
      WriteColumnFrame(WithHeaders(cells), 0, 1, names, r, c);
    }
  }

  /** `displayPrices`: the assertion comes first, so an empty list writes
      nothing; otherwise the i-th price goes to (i + 1, 1). */
  method DisplayPrices(writer: Writer, prices: seq<string>) returns (outcome: Outcome)
    requires writer.Valid()
    modifies writer
    ensures writer.Valid()
    ensures prices == [] ==> writer.cells == old(writer.cells) && writer.rows == old(writer.rows)
    ensures var n := Min(|prices|, LastRowIndex);
      && writer.cells == WriteColumn(old(writer.cells), 1, 1, prices[..n])
      && writer.rows == old(writer.rows) + RowSpan(1, n)
    ensures outcome == if prices == [] then Fail(AssertionFailed(NoPricesMessage))
                       else if |prices| > LastRowIndex then Fail(IllegalArgument) else Pass
  {
    if prices == [] {
      return Fail(AssertionFailed(NoPricesMessage));
    }
    var written := WriteValues(writer, 1, prices);
    outcome := if written < |prices| then Fail(IllegalArgument) else Pass;
  }

  /** `displayPrice`: "Least Sedan Price" to (0, 2), the price to (1, 2). */
  method DisplayPrice(writer: Writer, price: string) returns (shown: string)
    requires writer.Valid()
    modifies writer
    ensures writer.Valid()
    ensures shown == price
    ensures writer.cells == WithValue(WithValue(old(writer.cells), 0, 2, "Least Sedan Price"), 1, 2, price)
    ensures writer.rows == old(writer.rows) + {0, 1}
  {
    var ok := writer.SetCellValue(0, 2, "Least Sedan Price");
    ok := writer.SetCellValue(1, 2, price);
    shown := price;
  }
}
