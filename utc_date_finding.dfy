/**
 * `convertToDate` as written starts from `new Date(date)` with a date-only
 * string "YYYY-MM-DD". ECMAScript (ECMA-262, the Date Time String Format
 * used by Date.parse) reads a date-only form as UTC midnight, while `setHours`, `setMinutes`
 * and the slot listing's window `${date} 00:00:00` all work in local time.
 * On a host west of UTC, UTC midnight falls on the previous local day, so
 * the booked instant lands a day early and the listing of the requested
 * day does not show it. `TimeLabel.ConvertToDate` is the corrected reading
 * (the local day named by the date), used by the rest of the model.
 */
module UtcDateFinding {
  import opened Wrappers
  import opened Instants
  import opened TimeLabel
  import opened AppointmentStore
  import opened AppointmentController

  /** The local day containing UTC midnight of `day`, on a host whose clock is `utcOffset` ms ahead of UTC. */
  function LocalDayOfUtcMidnight(day: int, utcOffset: int): int
  {
    (day * MsPerDay + utcOffset) / MsPerDay
  }

  /** `convertToDate` as written: the local setters act on the local day that contains UTC midnight of `date`. */
  function ConvertToDateAsWritten(utcOffset: int, date: DateInput, time: string): (t: Option<int>)
    ensures t.Some? <==> ConvertToDate(date, time).Some?
    ensures t.Some? ==> MinuteAligned(t.value)
  {
    match date
    case OnDay(day) => ConvertToDate(OnDay(LocalDayOfUtcMidnight(day, utcOffset)), time)
    case Absent => None
    case Unparseable => None
  }

  /** At UTC or east of it (offsets below a day), the code as written resolves to the requested local day. */
  lemma AsWrittenAgreesEastOfUtc(utcOffset: int, date: DateInput, time: string)
    requires 0 <= utcOffset < MsPerDay
    ensures ConvertToDateAsWritten(utcOffset, date, time) == ConvertToDate(date, time)
  {
    if date.OnDay? {
      assert LocalDayOfUtcMidnight(date.day, utcOffset) == date.day;
    }
  }

  /** West of UTC, the code as written resolves to the day before the requested one. */
  lemma AsWrittenPreviousDayWestOfUtc(utcOffset: int, day: int, time: string)
    requires -MsPerDay <= utcOffset < 0
    ensures ConvertToDateAsWritten(utcOffset, OnDay(day), time) == ConvertToDate(OnDay(day - 1), time)
  {
    assert LocalDayOfUtcMidnight(day, utcOffset) == day - 1;
  }

  /**
   * West of UTC, a fixed slot booked through the code as written is not
   * listed as booked on the requested day, but on the day before.
   */
  lemma BookedSlotHiddenWestOfUtc(utcOffset: int, day: int, i: int, patientId: string, docId: string)
    requires -MsPerDay <= utcOffset < 0
    requires 0 <= i < |FixedSlots|
    ensures ConvertToDateAsWritten(utcOffset, OnDay(day), FixedSlots[i]).Some?
    ensures var records := [Appointment(0, patientId, docId, ConvertToDateAsWritten(utcOffset, OnDay(day), FixedSlots[i]).value, Some(0))];
      && !GetAvailableSlots(records, docId, OnDay(day)).availableSlots[i].isBooked
      && GetAvailableSlots(records, docId, OnDay(day - 1)).availableSlots[i].isBooked
  {
    AsWrittenPreviousDayWestOfUtc(utcOffset, day, FixedSlots[i]);
    FixedSlotRoundTrip(day - 1, i);
    FixedSlotRoundTrip(day, i);
    var booked := MakeInstant(day - 1, 9 + 2 * i, 0);
    MakeInstantFields(day - 1, 9 + 2 * i, 0);
    MakeInstantFields(day, 9 + 2 * i, 0);
    var records := [Appointment(0, patientId, docId, booked, Some(0))];
    assert Provisioned(records);
    SlotShownBookedIffTaken(records, docId, day, i);
    SlotShownBookedIffTaken(records, docId, day - 1, i);
    assert records[0].scheduleTime != MakeInstant(day, 9 + 2 * i, 0);
  }
}
