/** objectRepositories/Hotels: the hotel search. The city suggestion is the
    first that starts with one text and contains another; check-in and
    check-out are a month option and a date option picked by exact text; the
    cheapest result is written to a JSON file. */
module Hotels {
  import opened Common
  import opened JavaText
  import opened Selection
  import opened JsonDataWriter

  // -------------------------------------------------------------------------
  // selectingCity

  /** `placename.startsWith(place) && placename.contains(city)`: two
      independent tests on the raw suggestion text. */
  predicate PlaceMatch(text: string, place: string, city: string)
  {
    StartsWith(text, place) && Contains(text, city)
  }

  method SelectingCity(citynames: seq<string>, place: string, city: string) returns (clicked: Option<nat>)
    ensures IsFirstWhere(citynames, t => PlaceMatch(t, place, city), clicked)
    ensures clicked.Some? ==> StartsWith(citynames[clicked.value], place) && Contains(citynames[clicked.value], city)
  {
    clicked := FirstWhere(citynames, t => PlaceMatch(t, place, city));
  }

  /** A text that starts with `place` contains what `place` contains. */
  lemma PrefixCarriesInfix(text: string, place: string, city: string)
    requires StartsWith(text, place) && Contains(place, city)
    ensures Contains(text, city)
  {
    var i :| 0 <= i <= |place| - |city| && OccursAt(place, city, i);
    assert text[i..i + |city|] == place[i..i + |city|];
    assert OccursAt(text, city, i);
  }

  /** When the place text already names the city, the `contains` test is
      redundant and the scan is the first-prefix scan. */
  lemma PlaceNamingCityIsPrefixScan(citynames: seq<string>, place: string, city: string, clicked: Option<nat>)
    requires Contains(place, city)
    requires IsFirstWhere(citynames, t => PlaceMatch(t, place, city), clicked)
    ensures IsFirstWhere(citynames, t => StartsWith(t, place), clicked)
  {
    forall i | 0 <= i < |citynames| && StartsWith(citynames[i], place)
      ensures PlaceMatch(citynames[i], place, city)
    {
      PrefixCarriesInfix(citynames[i], place, city);
    }
  }

  // -------------------------------------------------------------------------
  // checkInDate / checkOutDate

  /** The two scans of a stay date: the first month option equal to the month
      text, then, whatever the first scan found, the first date equal to the
      date text. */
  method PickMonthAndDate(months: seq<string>, month: string, dates: seq<string>, date: string)
    returns (monthClicked: Option<nat>, dateClicked: Option<nat>)
    ensures monthClicked == IndexOf(months, month)
    ensures dateClicked == IndexOf(dates, date)
  {
    monthClicked := FirstWhere(months, l => l == month);
    FirstEqualIsIndexOf(months, month, monthClicked);
    dateClicked := FirstWhere(dates, l => l == date);
    FirstEqualIsIndexOf(dates, date, dateClicked);
  }

  /** After opening the check-in widget and its month list. */
  method CheckInDate(selectCImonth: seq<string>, ciMonth: string, datesForCI: seq<string>, ciDate: string)
    returns (monthClicked: Option<nat>, dateClicked: Option<nat>)
    ensures monthClicked == IndexOf(selectCImonth, ciMonth)
    ensures dateClicked == IndexOf(datesForCI, ciDate)
  {
    monthClicked, dateClicked := PickMonthAndDate(selectCImonth, ciMonth, datesForCI, ciDate);
  }

  /** The same two scans, after which Done is always clicked (the click has
      no outcome to return). */
  method CheckOutDate(selectCOmonth: seq<string>, coMonth: string, datesForCO: seq<string>, coDate: string)
    returns (monthClicked: Option<nat>, dateClicked: Option<nat>)
    ensures monthClicked == IndexOf(selectCOmonth, coMonth)
    ensures dateClicked == IndexOf(datesForCO, coDate)
  {
    monthClicked, dateClicked := PickMonthAndDate(selectCOmonth, coMonth, datesForCO, coDate);
  }

  // -------------------------------------------------------------------------
  // hotelNameAndPrice

  const NoSortMessage := "Sort option is not displayed"
  const NoLowToHighMessage := "Price Low to High Sort option is not displayed"
  const NoNameMessage := "Hotel name not displayed"
  const NoPriceMessage := "Hotel price not displayed"

  /** The four assertions in order, then one writeSimpleData of name -> price
      at the root of the file. A text the driver could not read is None. */
  method HotelNameAndPrice(sortShown: bool, lowToHighShown: bool, hotelName: Option<string>, hotelPrice: Option<string>, file: JsonFile)
    returns (outcome: Outcome)
    modifies file
    ensures !sortShown ==> outcome == Fail(AssertionFailed(NoSortMessage))
    ensures sortShown && !lowToHighShown ==> outcome == Fail(AssertionFailed(NoLowToHighMessage))
    ensures sortShown && lowToHighShown && hotelName.None? ==> outcome == Fail(AssertionFailed(NoNameMessage))
    ensures sortShown && lowToHighShown && hotelName.Some? && hotelPrice.None? ==> outcome == Fail(AssertionFailed(NoPriceMessage))
    ensures !(sortShown && lowToHighShown && hotelName.Some? && hotelPrice.Some?) ==> file.state == old(file.state)
    ensures sortShown && lowToHighShown && hotelName.Some? && hotelPrice.Some? ==>
      var r := SimpleWrite(old(file.state), hotelName.value, hotelPrice.value);
      (r.Ok? ==> outcome == Pass && file.state == r.value) && (r.Err? ==> outcome == Fail(r.error) && file.state == old(file.state))
  {
    if !sortShown {
      return Fail(AssertionFailed(NoSortMessage));
    }
    if !lowToHighShown {
      return Fail(AssertionFailed(NoLowToHighMessage));
    }
    if hotelName.None? {
      return Fail(AssertionFailed(NoNameMessage));
    }
    if hotelPrice.None? {
      return Fail(AssertionFailed(NoPriceMessage));
    }
    outcome := file.WriteSimpleData(hotelName.value, hotelPrice.value);
  }
}
