/** objectRepositories/Activities: the activities search. The calendar is
    paged forward until its trimmed title equals the target ignoring case,
    dates are picked by exact text, city suggestions by prefix, and the
    first five result names are logged to a text file. */
module Activities {
  import opened Common
  import opened JavaText
  import opened Selection
  import opened Calendar
  import opened TextFileWriter

  // -------------------------------------------------------------------------
  // selectMonthAndYear

  /** `currentMonthYear.getText().trim().equalsIgnoreCase(targetMonthYear)`
      on page `p`. A title is its own trim (Calendar.PageTitleIsTrimmed), so the
      trimmed text is the title; the target itself is not trimmed. */
  predicate TitleMatches(p: YearMonth, targetMonthYear: string)
  {
    EqualsIgnoreCase(PageTitle(p), targetMonthYear)
  }

  /** `currentMonthYear.getText().trim()`: the trim leaves a title as it is. */
  method ReadTitle(picker: DatePicker) returns (displayed: string)
    ensures displayed == PageTitle(picker.shown)
  {
    displayed := Trim(picker.Title());
    PageTitleIsTrimmed(picker.shown);
  }

  /** Click Next until the title matches. The loop has no other exit, so it
      ends only when a matching page lies ahead; `bound` is such a page (it
      is needed only to show that the loop ends). */
  method SelectMonthAndYear(picker: DatePicker, targetMonthYear: string, ghost bound: nat) returns (turns: nat)
    requires picker.Valid()
    requires TitleMatches(Advance(picker.shown, bound), targetMonthYear)
    modifies picker
    ensures picker.Valid()
    ensures picker.shown == Advance(old(picker.shown), turns)
    ensures turns <= bound
    ensures TitleMatches(picker.shown, targetMonthYear)
    ensures forall k :: 0 <= k < turns ==> !TitleMatches(Advance(old(picker.shown), k), targetMonthYear)
  {
    ghost var start := picker.shown;
    turns := 0;
    while true
      invariant picker.Valid()
      invariant turns <= bound
      invariant picker.shown == Advance(start, turns)
      invariant forall k :: 0 <= k < turns ==> !TitleMatches(Advance(start, k), targetMonthYear)
      decreases bound - turns
    {
      var displayed := ReadTitle(picker);
      if EqualsIgnoreCase(displayed, targetMonthYear) {
        break;
      }
      ghost var before := picker.shown;
      assert !TitleMatches(before, targetMonthYear);
      assert turns < bound;
      picker.Next();
      NotMatchedYet(start, turns, before, targetMonthYear);
      turns := turns + 1;
    }
  }

  /** One more page checked: the failed pages are the first `turns + 1`. */
  lemma NotMatchedYet(start: YearMonth, turns: nat, before: YearMonth, targetMonthYear: string)
    requires before == Advance(start, turns) && !TitleMatches(before, targetMonthYear)
    requires forall k :: 0 <= k < turns ==> !TitleMatches(Advance(start, k), targetMonthYear)
    ensures forall k :: 0 <= k < turns + 1 ==> !TitleMatches(Advance(start, k), targetMonthYear)
  {
  }

  /** The title of `t`, in any case, matches on `t` and on no other page. */
  lemma OnlyItsPageMatches(p: YearMonth, t: YearMonth, targetMonthYear: string)
    requires EqualsIgnoreCase(targetMonthYear, PageTitle(t))
    ensures TitleMatches(p, targetMonthYear) <==> p == t
  {
    if EqualsIgnoreCase(PageTitle(p), targetMonthYear) {
      EqualsIgnoreCaseTrans(PageTitle(p), targetMonthYear, PageTitle(t));
      PageTitleInjective(p, t);
    }
  }

  /** With the title of a page at or after the displayed one (in any case),
      the loop stops exactly there, after as many clicks as months lie between. */
  lemma TitleOfLaterPage(start: YearMonth, t: YearMonth, targetMonthYear: string)
    requires Index(start) <= Index(t)
    requires EqualsIgnoreCase(targetMonthYear, PageTitle(t))
    ensures TitleMatches(Advance(start, Index(t) - Index(start)), targetMonthYear)
    ensures forall k :: 0 <= k < Index(t) - Index(start) ==> !TitleMatches(Advance(start, k), targetMonthYear)
  {
    IndexInjective(Advance(start, Index(t) - Index(start)), t);
    OnlyItsPageMatches(t, t, targetMonthYear);
    forall k | 0 <= k < Index(t) - Index(start)
      ensures !TitleMatches(Advance(start, k), targetMonthYear)
    {
      OnlyItsPageMatches(Advance(start, k), t, targetMonthYear);
    }
  }

  // -------------------------------------------------------------------------
  // selectDate / selectCity

  /** The first date cell whose text equals the target exactly: no trimming,
      case-sensitive. */
  method SelectDate(allDates: seq<string>, targetDate: string) returns (clicked: Option<nat>)
    ensures IsFirstWhere(allDates, l => l == targetDate, clicked)
    ensures clicked == IndexOf(allDates, targetDate)
  {
    clicked := FirstWhere(allDates, l => l == targetDate);
    FirstEqualIsIndexOf(allDates, targetDate, clicked);
  }

  /** The first suggestion that starts with the partial name. */
  method SelectCity(citySuggestions: seq<string>, cityNamePartial: string) returns (clicked: Option<nat>)
    ensures IsFirstWhere(citySuggestions, t => StartsWith(t, cityNamePartial), clicked)
  {
    clicked := FirstWhere(citySuggestions, t => CityMatch(t, cityNamePartial));
    CityMatchIsPrefix(citySuggestions, cityNamePartial, clicked);
  }

  // -------------------------------------------------------------------------
  // printCityNames

  const ReportHeader := "Activities:\n-------------------------------------"
  const NoCitiesMessage := "City names not displayed"
  const ReportLimit := 5

  /** What the file holds after a report of `cityNames`: the header, then
      the first five names in result order. */
  function CityReport(cityNames: seq<string>): (r: seq<string>)
    ensures 1 <= |r| <= ReportLimit + 1 && r[0] == ReportHeader
    ensures |r| == 1 + Min(ReportLimit, |cityNames|)
    ensures forall i :: 1 <= i < |r| ==> r[i] == cityNames[i - 1]
  {
    [ReportHeader] + cityNames[..Min(ReportLimit, |cityNames|)]
  }

  /** Results past the fifth never reach the file. */
  lemma CityReportIgnoresTail(cityNames: seq<string>, more: seq<string>)
    requires |cityNames| >= ReportLimit
    ensures CityReport(cityNames + more) == CityReport(cityNames)
  {
    assert (cityNames + more)[..ReportLimit] == cityNames[..ReportLimit];
  }

  /** Asserts there is a result, clears the file, writes the header and then
      one entry per result while the counter `i` (from 1) is at most 5. */
  method PrintCityNames(cityNames: seq<string>, file: TextFile) returns (outcome: Outcome)
    modifies file
    ensures cityNames == [] ==> outcome == Fail(AssertionFailed(NoCitiesMessage)) && file.entries == old(file.entries)
    ensures cityNames != [] ==> outcome == Pass && file.entries == CityReport(cityNames)
  {
    if |cityNames| == 0 {
      return Fail(AssertionFailed(NoCitiesMessage));
    }
    var i := 1;
    file.ClearFile();
    file.WriteToTextFile(ReportHeader);
    var k := 0;
    while k < |cityNames|
      invariant 0 <= k <= |cityNames| && k <= ReportLimit && i == k + 1
      invariant file.entries == [ReportHeader] + cityNames[..k]
    {
      if i > ReportLimit {
        break;
      }
      file.WriteToTextFile(cityNames[k]);
      assert cityNames[..k + 1] == cityNames[..k] + [cityNames[k]];
      i := i + 1;
      k := k + 1;
    }
    outcome := Pass;
  }
}
