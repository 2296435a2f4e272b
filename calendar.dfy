/** The paginated month-view date picker shared by the cab, hotel and
    activity pages: a displayed (year, month) page, a Next button that moves
    it one month forward and a Prev button that moves it one month back and
    is disabled on the earliest selectable page. */
module Calendar {
  import opened JavaText

  /** Months are numbered 1..12, as java.time.YearMonth numbers them. */
  type MonthNum = m: int | 1 <= m <= 12 witness 1

  /** A day of the month as a successfully parsed date carries it. */
  type DayNum = d: int | 1 <= d <= 31 witness 1

  datatype YearMonth = YearMonth(year: int, month: MonthNum)

  /** A parsed target date (the text parser itself is not modelled). */
  datatype Date = Date(day: DayNum, month: MonthNum, year: int)
  {
    function Page(): YearMonth { YearMonth(year, month) }
  }

  /** Months since January of year 0: pages are ordered by this number. */
  function Index(p: YearMonth): int
  {
    p.year * 12 + (p.month - 1)
  }

  lemma IndexInjective(p: YearMonth, q: YearMonth)
    requires Index(p) == Index(q)
    ensures p == q
  {
  }

  /** The page `k` clicks on Next after `p`. */
  function Advance(p: YearMonth, k: nat): (q: YearMonth)
    ensures Index(q) == Index(p) + k
  {
    if k == 0 then p else NextMonth(Advance(p, k - 1))
  }

  function NextMonth(p: YearMonth): (q: YearMonth)
    ensures Index(q) == Index(p) + 1
  {
    if p.month == 12 then YearMonth(p.year + 1, 1) else YearMonth(p.year, p.month + 1)
  }

  function PrevMonth(p: YearMonth): (q: YearMonth)
    ensures Index(q) == Index(p) - 1
  {
    if p.month == 1 then YearMonth(p.year - 1, 12) else YearMonth(p.year, p.month - 1)
  }

  /** The English month names the widget shows ("MMMM" in java.time). */
  function MonthName(m: MonthNum): string
  {
    match m
    case 1 => "January" case 2 => "February" case 3 => "March" case 4 => "April"
    case 5 => "May" case 6 => "June" case 7 => "July" case 8 => "August"
    case 9 => "September" case 10 => "October" case 11 => "November" case 12 => "December"
  }

  /** Month names differ even with case ignored. */
  lemma MonthNamesDistinct(a: MonthNum, b: MonthNum)
    requires EqualsIgnoreCase(MonthName(a), MonthName(b))
    ensures a == b
  {
    var x, y := MonthName(a), MonthName(b);
    assert LowerChar(x[0]) == LowerChar(y[0]);
    if |x| >= 3 {
      assert LowerChar(x[1]) == LowerChar(y[1]) && LowerChar(x[2]) == LowerChar(y[2]);
    }
  }

  /** A month name is one capitalised word. */
  lemma MonthNameIsWord(m: MonthNum)
    ensures |MonthName(m)| >= 3 && 'A' <= MonthName(m)[0] <= 'Z' && FreeOf(MonthName(m), {' '})
  {
  }

  /** The widget title of a page, e.g. "July 2025". */
  function PageTitle(p: YearMonth): string
  {
    MonthName(p.month) + " " + IntToString(p.year)
  }

  /** A title is its own trim. */
  lemma PageTitleIsTrimmed(p: YearMonth)
    ensures Trim(PageTitle(p)) == PageTitle(p)
  {
    MonthNameIsWord(p.month);
    TrimOfVisibleEnds(PageTitle(p));
  }

  /** A title names its page even with case ignored. */
  lemma PageTitleInjective(p: YearMonth, t: YearMonth)
    requires EqualsIgnoreCase(PageTitle(p), PageTitle(t))
    ensures p == t
  {
    MonthNameIsWord(p.month);
    MonthNameIsWord(t.month);
    EqualsIgnoreCaseAtSpace(MonthName(p.month), IntToString(p.year), MonthName(t.month), IntToString(t.year));
    MonthNamesDistinct(p.month, t.month);
    EqualsIgnoreCaseNoUpper(IntToString(p.year), IntToString(t.year));
    IntToStringInjective(p.year, t.year);
  }

  /** The label of a day cell: String.valueOf(dayOfMonth), no leading zero. */
  function DayLabel(d: DayNum): (r: string)
    ensures 1 <= |r| <= 2 && r[0] != '0'
    ensures forall i :: 0 <= i < |r| ==> '0' <= r[i] <= '9'
  {
    NatToStringNoLeadingZero(d);
    NatToString(d)
  }

  class DatePicker {
    /** The page on display. */
    var shown: YearMonth
    /** The earliest selectable page: Prev is disabled there. */
    const earliest: YearMonth

    ghost predicate Valid()
      reads this
    {
      Index(earliest) <= Index(shown)
    }

    constructor (earliest: YearMonth, shown: YearMonth)
      requires Index(earliest) <= Index(shown)
      ensures Valid() && this.earliest == earliest && this.shown == shown
    {
      this.earliest := earliest;
      this.shown := shown;
    }

    /** The month label (span.ui-datepicker-month). */
    function MonthLabel(): string
      reads this
    {
      MonthName(shown.month)
    }

    /** The year label (span.ui-datepicker-year). */
    function YearLabel(): string
      reads this
    {
      IntToString(shown.year)
    }

    /** The combined title, e.g. "July 2025". */
    function Title(): string
      reads this
    {
      PageTitle(shown)
    }

    method Next()
      requires Valid()
      modifies this
      ensures Valid()
      ensures shown == NextMonth(old(shown))
    {
      shown := NextMonth(shown);
    }

    /** Clicking Prev on the earliest page fails (`moved` is false) and leaves
        the page as it is. */
    method Prev() returns (moved: bool)
      requires Valid()
      modifies this
      ensures Valid()
      ensures moved == (Index(old(shown)) > Index(earliest))
      ensures shown == if moved then PrevMonth(old(shown)) else old(shown)
    {
      moved := Index(shown) > Index(earliest);
      if moved {
        shown := PrevMonth(shown);
      }
    }
  }
}
