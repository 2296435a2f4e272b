/** The pickup/return time picker of the cab pages: the time text is split
    into hour, minute and meridian, an AM or PM selector is clicked, then an
    hour option and a minute option are looked up by their label. */
module TimePicker {
  import opened Common
  import opened JavaText

  datatype Meridian = AM | PM

  /** The regular expression "[: ]" used by `time.split`. */
  const TimeDelimiters: set<char> := {':', ' '}

  function SplitTime(time: string): seq<string>
  {
    Split(time, TimeDelimiters)
  }

  /** Text made of an hour, a ':' , minutes, a ' ' and a meridian splits back
      into exactly those three parts. */
  lemma SplitTimeOfParts(h: string, m: string, mer: string)
    requires FreeOf(h, TimeDelimiters) && FreeOf(m, TimeDelimiters) && FreeOf(mer, TimeDelimiters)
    requires mer != []
    ensures SplitTime(h + ":" + m + " " + mer) == [h, m, mer]
  {
    var s := h + ":" + m + " " + mer;
    assert s == h + [':'] + (m + [' '] + mer);
    FieldsOfWordThen(h, ':', m + [' '] + mer, TimeDelimiters);
    FieldsOfWordThen(m, ' ', mer, TimeDelimiters);
    FieldsOfPlain(mer, TimeDelimiters);
    assert Fields(s, TimeDelimiters) == [h, m, mer];
  }

  /** `meridian.equals("AM")` clicks AM, `equals("PM")` clicks PM, anything
      else clicks neither selector. */
  function MeridianOf(text: string): (r: Option<Meridian>)
    ensures r == Some(AM) <==> text == "AM"
    ensures r == Some(PM) <==> text == "PM"
  {
    if text == "AM" then Some(AM) else if text == "PM" then Some(PM) else None
  }

  /** The option label an hour is looked up by, e.g. "5 Hr.". */
  function HourLabel(h: string): string { h + " Hr." }

  /** The option label minutes are looked up by, e.g. "30 Min.". */
  function MinuteLabel(m: string): string { m + " Min." }

  /** The hour, minute and meridian texts taken from a time string. */
  datatype TimeFields = TimeFields(hours: string, minutes: string, meridian: string)

  /** What one time-picker call clicked: the meridian selector (if any), the
      indexes of the hour and minute options, and the exception that ended the
      call early (None when Done was clicked). */
  datatype TimeClicks = TimeClicks(meridian: Option<Meridian>, hour: Option<nat>, minute: Option<nat>, failure: Option<Failure>)

  /** Two-digit, zero-padded text of an hour or minute ("HH"/"mm" formats). */
  function Pad2(n: nat): string
    requires n < 100
  {
    if n < 10 then "0" + NatToString(n) else NatToString(n)
  }

  lemma Pad2Plain(n: nat)
    requires n < 100
    ensures FreeOf(Pad2(n), TimeDelimiters) && |Pad2(n)| == 2
  {
    if n >= 10 {
      assert NatToString(n) == NatToString(n / 10) + [DigitChar(n % 10)];
    }
  }
}
