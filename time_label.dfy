/**
 * Time-of-day labels of the form "HH:MM AM" / "HH:MM PM": resolving a
 * (date, label) pair to an instant, as `convertToDate` does, and writing an
 * instant back as a label, as `toLocaleTimeString('en-US', {hour: '2-digit',
 * minute: '2-digit'})` does.
 */
module TimeLabel {
  import opened Wrappers
  import opened Instants
  import opened JsText

  /** The bookable slots of every day, in the order they are listed. */
  const FixedSlots: seq<string> := ["09:00 AM", "11:00 AM", "01:00 PM", "03:00 PM", "05:00 PM"]

  /** Hours and minutes read from a label, hours already on the 24-hour clock. */
  datatype ClockTime = ClockTime(hours: int, minutes: int)

  /** An hour of the 24-hour clock as the 12-hour clock shows it: 0 is 12 AM, 12 is 12 PM. */
  function To12Hour(h: int): (r: (int, string))
    requires 0 <= h < 24
    ensures 1 <= r.0 <= 12 && (r.1 == "AM" || r.1 == "PM")
  {
    (if h % 12 == 0 then 12 else h % 12, if h < 12 then "AM" else "PM")
  }

  /**
   * The two adjustments of the parsed hour: PM adds 12 unless the hour is 12,
   * then AM turns 12 into 0. Any other modifier (or none) leaves the hour as
   * it is; `NaN` (None) stays `NaN`. On the 12-hour clock this is the inverse
   * of `To12Hour`.
   */
  function To24Hour(hours: Option<int>, modifier: Option<string>): (r: Option<int>)
    ensures r.Some? <==> hours.Some?
    ensures hours.Some? && modifier !in {Some("AM"), Some("PM")} ==> r == hours
    ensures hours.Some? && 1 <= hours.value <= 12 && modifier in {Some("AM"), Some("PM")} ==>
      0 <= r.value < 24 && To12Hour(r.value) == (hours.value, modifier.value)
  {
    match hours
    case None => None
    case Some(h) =>
      var afterPm := if modifier == Some("PM") && h != 12 then h + 12 else h;
      var afterAm := if modifier == Some("AM") && afterPm == 12 then 0 else afterPm;
      Some(afterAm)
  }

  /** Every hour of the 24-hour clock is reached from its 12-hour reading. */
  lemma To24HourOfTo12Hour(h: int)
    requires 0 <= h < 24
    ensures To24Hour(Some(To12Hour(h).0), Some(To12Hour(h).1)) == Some(h)
  {
  }

  /**
   * The label handling of `convertToDate`: split at the first space into the
   * time and the modifier, split the time at ':' into hours and minutes,
   * `parseInt` both and move the hours to the 24-hour clock.
   */
  function ReadClock(time: string): (r: Option<ClockTime>)
    ensures r.Some? ==> ':' in Split(time, ' ')[0]
    ensures r.Some? ==> ParseInt(Split(Split(time, ' ')[0], ':')[0]).Some?
  {
    var parts := Split(time, ' ');
    var modifier := if |parts| > 1 then Some(parts[1]) else None;
    var fields := Split(parts[0], ':');
    var minutes := if |fields| > 1 then ParseInt(fields[1]) else None;
    match To24Hour(ParseInt(fields[0]), modifier)
    case None => None
    case Some(h) =>
      match minutes
      case None => None
      case Some(m) => Some(ClockTime(h, m))
  }

  /**
   * `convertToDate(date, time)`: the given day at the label's hours and
   * minutes, seconds and milliseconds zero; `None` is the invalid date that
   * results from an unreadable date or label. The day is the local calendar
   * day named by `date`.
   */
  function ConvertToDate(date: DateInput, time: string): (t: Option<int>)
    ensures t.Some? <==> date.OnDay? && ReadClock(time).Some?
    ensures t.Some? ==> MinuteAligned(t.value)
    ensures t.Some? ==> t.value == MakeInstant(date.day, ReadClock(time).value.hours, ReadClock(time).value.minutes)
    ensures t.Some? && 0 <= ReadClock(time).value.hours < 24 && 0 <= ReadClock(time).value.minutes < 60 ==>
      && DayOf(t.value) == date.day
      && HourOf(t.value) == ReadClock(time).value.hours
      && MinuteOf(t.value) == ReadClock(time).value.minutes
  {
    match date
    case Absent => None
    case Unparseable => None
    case OnDay(day) =>
      match ReadClock(time)
      case None => None
      case Some(clock) =>
        MakeInstantAligned(day, clock.hours, clock.minutes);
        if 0 <= clock.hours < 24 && 0 <= clock.minutes < 60 then
          MakeInstantFields(day, clock.hours, clock.minutes);
          Some(MakeInstant(day, clock.hours, clock.minutes))
        else
          Some(MakeInstant(day, clock.hours, clock.minutes))
  }

  /** The text of a label. */
  function LabelText(h12: nat, minutes: nat, modifier: string): string
    requires h12 < 100 && minutes < 100
  {
    TwoDigits(h12) + ":" + TwoDigits(minutes) + " " + modifier
  }

  /** "HH:MM AM" or "HH:MM PM" with HH from 01 to 12 and MM from 00 to 59. */
  predicate WellFormedLabel(s: string)
  {
    && |s| == 8
    && IsDigit(s[0]) && IsDigit(s[1]) && s[2] == ':' && IsDigit(s[3]) && IsDigit(s[4]) && s[5] == ' '
    && (s[6..] == "AM" || s[6..] == "PM")
    && 1 <= TwoDigitValue(s[..2]) <= 12
    && TwoDigitValue(s[3..5]) < 60
  }

  /** The time of day of an instant as the en-US 2-digit formatter writes it. */
  function FormatLabel(t: int): (s: string)
    ensures WellFormedLabel(s)
  {
    var (h12, modifier) := To12Hour(HourOf(t));
    var s := LabelText(h12, MinuteOf(t), modifier);
    TwoDigitsRoundTrip(h12);
    TwoDigitsRoundTrip(MinuteOf(t));
    assert s[..2] == TwoDigits(h12) && s[3..5] == TwoDigits(MinuteOf(t)) && s[6..] == modifier;
    s
  }

  /**
   * A label "HH:MM" followed by a space and a modifier is read as its hours
   * (moved to the 24-hour clock) and its minutes, whether or not they are in
   * range: nothing checks them.
   */
  lemma ReadClockOfLabel(s: string)
    requires |s| == 8 && s[2] == ':' && s[5] == ' ' && ' ' !in s[6..]
    requires IsDigit(s[0]) && IsDigit(s[1]) && IsDigit(s[3]) && IsDigit(s[4])
    ensures ReadClock(s) == Some(ClockTime(To24Hour(Some(TwoDigitValue(s[..2])), Some(s[6..])).value, TwoDigitValue(s[3..5])))
  {
    var time := s[..5];
    assert forall i :: 0 <= i < 5 ==> time[i] != ' ';
    assert s[6..] == [s[6], s[7]];
    SplitAtOnly(s, ' ', 5);
    assert time[..2] == s[..2] && time[3..] == s[3..5];
    SplitAtOnly(time, ':', 2);
    ParseTwoDigits(s[..2]);
    ParseTwoDigits(s[3..5]);
  }

  /** Resolving a well-formed label on a day and formatting the instant gives the label back. */
  lemma LabelRoundTrip(day: int, s: string)
    requires WellFormedLabel(s)
    ensures ConvertToDate(OnDay(day), s).Some?
    ensures DayOf(ConvertToDate(OnDay(day), s).value) == day
    ensures FormatLabel(ConvertToDate(OnDay(day), s).value) == s
  {
    ReadClockOfLabel(s);
    var t := ConvertToDate(OnDay(day), s).value;
    var h12 := TwoDigitValue(s[..2]);
    var m := TwoDigitValue(s[3..5]);
    assert To12Hour(HourOf(t)) == (h12, s[6..]);
    assert MinuteOf(t) == m;
    TwoDigitsOfValue(s[..2]);
    TwoDigitsOfValue(s[3..5]);
    assert s == s[..2] + ":" + s[3..5] + " " + s[6..];
  }

  /** Formatting a minute-aligned instant and resolving the label on the instant's day gives the instant back. */
  lemma InstantRoundTrip(t: int)
    requires MinuteAligned(t)
    ensures ConvertToDate(OnDay(DayOf(t)), FormatLabel(t)) == Some(t)
  {
    var s := FormatLabel(t);
    FieldsMakeInstant(t);
    var (h12, modifier) := To12Hour(HourOf(t));
    TwoDigitsRoundTrip(h12);
    TwoDigitsRoundTrip(MinuteOf(t));
    assert s[..2] == TwoDigits(h12) && s[3..5] == TwoDigits(MinuteOf(t)) && s[6..] == modifier;
    ReadClockOfLabel(s);
    To24HourOfTo12Hour(HourOf(t));
  }

  /** Two minute-aligned instants of the same day with the same label are the same instant. */
  lemma FormatLabelInjective(t: int, u: int)
    requires MinuteAligned(t) && MinuteAligned(u) && DayOf(t) == DayOf(u)
    requires FormatLabel(t) == FormatLabel(u)
    ensures t == u
  {
    InstantRoundTrip(t);
    InstantRoundTrip(u);
  }

  /** A label on the 12-hour clock resolves to the day at its 24-hour hour and its minute, and that instant formats back to the label. */
  lemma ResolveLabelText(day: int, h12: nat, minutes: nat, modifier: string)
    requires 1 <= h12 <= 12 && minutes < 60 && modifier in {"AM", "PM"}
    ensures var h24 := To24Hour(Some(h12), Some(modifier)).value;
      && ConvertToDate(OnDay(day), LabelText(h12, minutes, modifier)) == Some(MakeInstant(day, h24, minutes))
      && FormatLabel(MakeInstant(day, h24, minutes)) == LabelText(h12, minutes, modifier)
  {
    var h24 := To24Hour(Some(h12), Some(modifier)).value;
    var t := MakeInstant(day, h24, minutes);
    MakeInstantFields(day, h24, minutes);
    assert To12Hour(HourOf(t)) == (h12, modifier);
    InstantRoundTrip(t);
  }

  /** Fixed slot `i` on the 12-hour clock: its hour and its modifier. */
  function SlotHour12(i: int): nat
    requires 0 <= i < |FixedSlots|
  {
    if i < 2 then 9 + 2 * i else if i == 2 then 1 else if i == 3 then 3 else 5
  }

  function SlotModifier(i: int): string
    requires 0 <= i < |FixedSlots|
  {
    if i < 2 then "AM" else "PM"
  }

  /** The fixed slots are written as the formatter writes hour 9 + 2i, minute 0. */
  lemma FixedSlotText(i: int)
    requires 0 <= i < |FixedSlots|
    ensures FixedSlots[i] == LabelText(SlotHour12(i), 0, SlotModifier(i))
  {
    assert TwoDigits(0) == "00" && TwoDigits(9) == "09" && TwoDigits(11) == "11";
    assert TwoDigits(1) == "01" && TwoDigits(3) == "03" && TwoDigits(5) == "05";
  }

  /** Slot `i` resolves to hour 9 + 2i, minute 0, and formats back to its own label. */
  lemma FixedSlotRoundTrip(day: int, i: int)
    requires 0 <= i < |FixedSlots|
    ensures ConvertToDate(OnDay(day), FixedSlots[i]) == Some(MakeInstant(day, 9 + 2 * i, 0))
    ensures FormatLabel(MakeInstant(day, 9 + 2 * i, 0)) == FixedSlots[i]
  {
    FixedSlotText(i);
    assert To24Hour(Some(SlotHour12(i)), Some(SlotModifier(i))) == Some(9 + 2 * i);
    ResolveLabelText(day, SlotHour12(i), 0, SlotModifier(i));
  }

  /** "12:00 AM" is hour 0 and "12:00 PM" is hour 12 of the day. */
  lemma MidnightAndNoon(day: int)
    ensures ConvertToDate(OnDay(day), "12:00 AM") == Some(MakeInstant(day, 0, 0))
    ensures ConvertToDate(OnDay(day), "12:00 PM") == Some(MakeInstant(day, 12, 0))
  {
    assert "12:00 AM" == LabelText(12, 0, "AM") && "12:00 PM" == LabelText(12, 0, "PM");
    ResolveLabelText(day, 12, 0, "AM");
    ResolveLabelText(day, 12, 0, "PM");
  }

  /**
   * A label "HH:MM" without AM/PM is taken on the 24-hour clock as written,
   * and nothing checks its range: "21:00" is 21:00, and "30:00" is 06:00 of
   * the next day.
   */
  lemma UnmarkedLabel(day: int, hours: nat, minutes: nat)
    requires hours < 100 && minutes < 100
    ensures ConvertToDate(OnDay(day), TwoDigits(hours) + ":" + TwoDigits(minutes)) == Some(MakeInstant(day, hours, minutes))
  {
    var s := TwoDigits(hours) + ":" + TwoDigits(minutes);
    assert s[..2] == TwoDigits(hours) && s[3..] == TwoDigits(minutes);
    assert forall i :: 0 <= i < |s| ==> s[i] != ' ';
    SplitAtOnly(s, ':', 2);
    TwoDigitsRoundTrip(hours);
    TwoDigitsRoundTrip(minutes);
  }

  /**
   * An hour the 12-hour clock does not have is not refused: with PM it is
   * moved past noon and carries into the next day, so "13:00 PM" is hour 25,
   * 01:00 of the next day.
   */
  lemma OutOfRangeLabel(day: int, hours: nat, minutes: nat)
    requires 12 < hours < 100 && minutes < 100
    ensures ConvertToDate(OnDay(day), LabelText(hours, minutes, "PM")) == Some(MakeInstant(day + 1, hours - 12, minutes))
  {
    ReadPastNoonLabel(hours, minutes);
    assert MakeInstant(day, hours + 12, minutes) == MakeInstant(day + 1, hours - 12, minutes);
  }

  /** A PM label with an hour past 12 is read as that hour plus 12. */
  lemma ReadPastNoonLabel(hours: nat, minutes: nat)
    requires 12 < hours < 100 && minutes < 100
    ensures ReadClock(LabelText(hours, minutes, "PM")) == Some(ClockTime(hours + 12, minutes))
  {
    var s := LabelText(hours, minutes, "PM");
    assert s[..2] == TwoDigits(hours) && s[3..5] == TwoDigits(minutes) && s[6..] == "PM";
    ReadClockOfLabel(s);
    TwoDigitsRoundTrip(hours);
    TwoDigitsRoundTrip(minutes);
  }

  /**
   * `parseInt` accepts a sign, and a negative hour is not refused either:
   * "-1:00 AM" is hour -1, which `setHours` carries to 23:00 of the day
   * before.
   */
  lemma NegativeHourLabel(day: int, digit: nat, minutes: nat)
    requires 1 <= digit <= 9 && minutes < 100
    ensures ConvertToDate(OnDay(day), "-" + [DigitChar(digit)] + ":" + TwoDigits(minutes) + " AM") == Some(MakeInstant(day - 1, 24 - digit, minutes))
  {
    ReadNegativeHourLabel(digit, minutes);
    MakeInstantCarries(day - 1, 0 - digit, minutes);
  }

  /** "-D:MM AM" is read as hour -D, left alone by AM, and minute MM. */
  lemma ReadNegativeHourLabel(digit: nat, minutes: nat)
    requires 1 <= digit <= 9 && minutes < 100
    ensures ReadClock("-" + [DigitChar(digit)] + ":" + TwoDigits(minutes) + " AM") == Some(ClockTime(0 - digit, minutes))
  {
    var s := "-" + [DigitChar(digit)] + ":" + TwoDigits(minutes) + " AM";
    var time := s[..5];
    assert forall i :: 0 <= i < 5 ==> time[i] != ' ';
    assert s[6..] == "AM";
    SplitAtOnly(s, ' ', 5);
    var hourField := ['-', DigitChar(digit)];
    assert time[..2] == hourField && time[3..] == TwoDigits(minutes);
    SplitAtOnly(time, ':', 2);
    ParseNegativeDigit(DigitChar(digit));
    TwoDigitsRoundTrip(minutes);
  }

  /** A label with no minutes after a colon gives no instant: "9 AM" is an invalid date. */
  lemma LabelWithoutMinutes(day: int)
    ensures ConvertToDate(OnDay(day), "9 AM") == None
  {
    var short := "9 AM";
    SplitAtOnly(short, ' ', 1);
    assert ':' !in short[..1];
    assert ReadClock(short) == None;
  }
}
