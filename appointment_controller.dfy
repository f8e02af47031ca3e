/**
 * The booking controller: booking a slot, listing a doctor's slots for a day
 * with their booked flags, and listing appointments by doctor or by patient.
 */
module AppointmentController {
  import opened Wrappers
  import opened Instants
  import opened TimeLabel
  import opened AppointmentStore

  /** Which of the two writes of a booking fails for a reason other than the unique index, if any. */
  datatype Fault = NoFault | CreateFails | SaveFails

  /** The replies of `bookAppointment`. */
  datatype BookingResponse = Created(appointment: Appointment) | PastSlot | SlotAlreadyBooked | BookingFailed
  {
    function Status(): int
    {
      match this
      case Created(_) => 201
      case PastSlot => 400
      case SlotAlreadyBooked => 400
      case BookingFailed => 500
    }

    function Message(): string
    {
      match this
      case Created(_) => "Appointment booked successfully"
      case PastSlot => "Cannot book appointment in the past"
      case SlotAlreadyBooked => "Slot already booked"
      case BookingFailed => "Booking failed"
    }
  }

  /** One entry of the slot listing. */
  datatype SlotStatus = SlotStatus(time: string, isBooked: bool)

  /** The replies of `getAvailableSlots`: 200 with the slots, 400 "Date is required", 500 "Could not fetch slots". */
  datatype SlotsResponse = Slots(availableSlots: seq<SlotStatus>) | DateRequired | SlotsFailed

  /**
   * What booking keeps true of every record: its room id is unassigned or
   * its own id, and its instant has zero seconds and milliseconds.
   */
  predicate Provisioned(records: seq<Appointment>)
  {
    forall i :: 0 <= i < |records| ==>
      && (records[i].roomId == None || records[i].roomId == Some(records[i].id))
      && MinuteAligned(records[i].scheduleTime)
  }

  /** The instant a booking request resolves to; a missing `time` cannot be split and yields no instant. */
  function ScheduleTime(date: DateInput, time: Option<string>): (t: Option<int>)
    ensures t.Some? <==> date.OnDay? && time.Some? && ReadClock(time.value).Some?
    ensures t.Some? ==> MinuteAligned(t.value)
  {
    if time.None? then None else ConvertToDate(date, time.value)
  }

  /** The request resolves to an instant that is not before `now` and that the doctor has free. */
  predicate Bookable(records: seq<Appointment>, docId: string, t: Option<int>, now: int)
  {
    t.Some? && now <= t.value && !SlotTaken(records, docId, t.value)
  }

  /**
   * `bookAppointment`: resolve the instant, refuse one strictly before
   * `now`, insert and let the unique index report a collision (code 11000),
   * then store the record's own id as its room id. The label is not checked
   * against `FixedSlots`.
   */
  method BookAppointment(store: Collection, patientId: string, docId: string, date: DateInput,
                         time: Option<string>, now: int, fault: Fault)
    returns (res: BookingResponse)
    requires store.Valid() && Provisioned(store.records)
    modifies store
    ensures store.Valid() && Provisioned(store.records)
    ensures var t := ScheduleTime(date, time);
      && (res.PastSlot? <==> t.Some? && t.value < now)
      && (res.SlotAlreadyBooked? <==>
            t.Some? && now <= t.value && fault != CreateFails && SlotTaken(old(store.records), docId, t.value))
      && (res.Created? <==> Bookable(old(store.records), docId, t, now) && fault == NoFault)
    ensures res.Created? ==>
      && res.appointment == Appointment(old(store.nextId), patientId, docId, ScheduleTime(date, time).value, Some(old(store.nextId)))
      && (forall a :: a in old(store.records) ==> a.id != res.appointment.id)
      && store.records == old(store.records) + [res.appointment]
    ensures Bookable(old(store.records), docId, ScheduleTime(date, time), now) && fault == SaveFails ==>
      && res == BookingFailed
      && store.records == old(store.records) + [Appointment(old(store.nextId), patientId, docId, ScheduleTime(date, time).value, None)]
    ensures !res.Created? && !(Bookable(old(store.records), docId, ScheduleTime(date, time), now) && fault == SaveFails) ==>
      store.records == old(store.records)
  {
    if time.None? {
      return BookingFailed;
    }
    var scheduleTime := ConvertToDate(date, time.value);
    if scheduleTime.Some? && scheduleTime.value < now {
      return PastSlot;
    }
    var created := store.Create(patientId, docId, scheduleTime, fault == CreateFails);
    if created.Failure? {
      if created.error.Code() == Some(DuplicateKeyCode) {
        return SlotAlreadyBooked;
      }
      return BookingFailed;
    }
    var appointment := created.value;
    ghost var inserted := store.records;
    assert inserted[|inserted| - 1] == appointment;
    var saved := store.SaveRoomId(appointment.id, appointment.id, fault == SaveFails);
    if !saved {
      assert fault == SaveFails && store.records == inserted;
      return BookingFailed;
    }
    appointment := appointment.(roomId := Some(appointment.id));
    assert store.records == old(store.records) + [appointment] by {
      assert forall i :: 0 <= i < |old(store.records)| ==> old(store.records)[i].id != appointment.id;
      assert |store.records| == |inserted|;
      assert inserted[|inserted| - 1].id == appointment.id;
    }
    return Created(appointment);
  }

  /** The records of doctor `docId` in the inclusive window [day 00:00:00, day 23:59:59]. */
  function DayWindow(records: seq<Appointment>, docId: string, day: int): (w: seq<Appointment>)
    ensures forall a :: a in w <==> a in records && a.docId == docId && DayStart(day) <= a.scheduleTime <= DayStart(day) + EndOfDayOffset
    ensures forall a :: a in records && MinuteAligned(a.scheduleTime) ==> (a in w <==> a.docId == docId && DayOf(a.scheduleTime) == day)
  {
    InDayWindowAll(day);
    Where(records, (a: Appointment) => a.docId == docId && DayStart(day) <= a.scheduleTime <= DayStart(day) + EndOfDayOffset)
  }

  /** Record `a` is one of doctor `docId`'s records in the window of `day`, and formats to `time`. */
  predicate ListedAs(a: Appointment, docId: string, day: int, time: string)
  {
    && a.docId == docId
    && DayStart(day) <= a.scheduleTime <= DayStart(day) + EndOfDayOffset
    && FormatLabel(a.scheduleTime) == time
  }

  /** The labels of the given records' instants. */
  function BookedTimes(appointments: seq<Appointment>): (labels: seq<string>)
    ensures forall s :: s in labels <==> exists a :: a in appointments && FormatLabel(a.scheduleTime) == s
  {
    var labels := seq(|appointments|, k requires 0 <= k < |appointments| => FormatLabel(appointments[k].scheduleTime));
    assert forall a :: a in appointments ==> FormatLabel(a.scheduleTime) in labels by {
      forall a | a in appointments ensures FormatLabel(a.scheduleTime) in labels {
        var k :| 0 <= k < |appointments| && appointments[k] == a;
        assert labels[k] == FormatLabel(a.scheduleTime);
      }
    }
    labels
  }

  /**
   * `getAvailableSlots`: without a date, "Date is required"; with a date
   * that does not parse, the query fails; otherwise the five fixed slots in
   * order, each booked exactly when some record of the doctor within the
   * day's window formats to its label. It reads the records and writes
   * nothing.
   */
  function GetAvailableSlots(records: seq<Appointment>, docId: string, date: DateInput): (r: SlotsResponse)
    ensures date.Absent? <==> r == DateRequired
    ensures date.Unparseable? <==> r == SlotsFailed
    ensures date.OnDay? ==>
      && r.Slots?
      && |r.availableSlots| == |FixedSlots|
      && forall i :: 0 <= i < |FixedSlots| ==>
           && r.availableSlots[i].time == FixedSlots[i]
           && (r.availableSlots[i].isBooked <==> exists a :: a in records && ListedAs(a, docId, date.day, FixedSlots[i]))
  {
    match date
    case Absent => DateRequired
    case Unparseable => SlotsFailed
    case OnDay(day) =>
      var bookedTimes := BookedTimes(DayWindow(records, docId, day));
      Slots(seq(|FixedSlots|, i requires 0 <= i < |FixedSlots| => SlotStatus(FixedSlots[i], FixedSlots[i] in bookedTimes)))
  }

  /**
   * A fixed slot of a day is listed as booked exactly when the doctor has a
   * record at the instant that booking that slot on that day resolves to,
   * that is, exactly when booking it would collide.
   */
  lemma SlotShownBookedIffTaken(records: seq<Appointment>, docId: string, day: int, i: int)
    requires Provisioned(records)
    requires 0 <= i < |FixedSlots|
    ensures ConvertToDate(OnDay(day), FixedSlots[i]).Some?
    ensures GetAvailableSlots(records, docId, OnDay(day)).availableSlots[i].isBooked <==>
      SlotTaken(records, docId, ConvertToDate(OnDay(day), FixedSlots[i]).value)
  {
    FixedSlotRoundTrip(day, i);
    var slot := MakeInstant(day, 9 + 2 * i, 0);
    var listed := GetAvailableSlots(records, docId, OnDay(day));
    if SlotTaken(records, docId, slot) {
      var k :| 0 <= k < |records| && records[k].docId == docId && records[k].scheduleTime == slot;
      ListedAtSlot(records[k], docId, day, i);
      assert records[k] in records;
    }
    if listed.availableSlots[i].isBooked {
      var a :| a in records && ListedAs(a, docId, day, FixedSlots[i]);
      var k :| 0 <= k < |records| && records[k] == a;
      ListedAtSlot(a, docId, day, i);
    }
  }

  /** A minute-aligned record is listed under fixed slot `i` of a day exactly when it is at the instant of that slot. */
  lemma ListedAtSlot(a: Appointment, docId: string, day: int, i: int)
    requires MinuteAligned(a.scheduleTime)
    requires 0 <= i < |FixedSlots|
    ensures ListedAs(a, docId, day, FixedSlots[i]) <==> a.docId == docId && a.scheduleTime == MakeInstant(day, 9 + 2 * i, 0)
  {
    var slot := MakeInstant(day, 9 + 2 * i, 0);
    FixedSlotRoundTrip(day, i);
    MakeInstantFields(day, 9 + 2 * i, 0);
    InDayWindow(slot, day);
    InDayWindow(a.scheduleTime, day);
    if ListedAs(a, docId, day, FixedSlots[i]) {
      FormatLabelInjective(a.scheduleTime, slot);
    }
  }

  /** `getAppointmentsForDoctor`: the records of doctor `docId`, each as often as stored. */
  function GetAppointmentsForDoctor(records: seq<Appointment>, docId: string): (r: seq<Appointment>)
    ensures forall a :: a in r <==> a in records && a.docId == docId
    ensures forall a :: multiset(r)[a] == if a.docId == docId then multiset(records)[a] else 0
  {
    Where(records, (a: Appointment) => a.docId == docId)
  }

  /** `getAppointmentsByPatient`: the records of patient `patientId`, each as often as stored. */
  function GetAppointmentsByPatient(records: seq<Appointment>, patientId: string): (r: seq<Appointment>)
    ensures forall a :: a in r <==> a in records && a.patientId == patientId
    ensures forall a :: multiset(r)[a] == if a.patientId == patientId then multiset(records)[a] else 0
  {
    Where(records, (a: Appointment) => a.patientId == patientId)
  }

  /**
   * Clients of the controller: booking walk-throughs for doctor "D1" on
   * 2026-02-10 (day 20494 since 1970-01-01), with the clock at noon the day
   * before.
   */
  const ScenarioDay: int := 20494

  /** All slots free; booking 09:00 AM succeeds; the slot then shows booked; a second booking collides. */
  method DoubleBookingScenario()
  {
    var store := new Collection();
    var day := ScenarioDay;
    var now := MakeInstant(day - 1, 12, 0);

    var before := GetAvailableSlots(store.records, "D1", OnDay(day));
    assert forall i :: 0 <= i < |FixedSlots| ==> !before.availableSlots[i].isBooked;

    FixedSlotRoundTrip(day, 0);
    var first := BookAppointment(store, "P1", "D1", OnDay(day), Some("09:00 AM"), now, NoFault);
    assert first.Created? && first.appointment.roomId == Some(first.appointment.id);

    SlotShownBookedIffTaken(store.records, "D1", day, 0);
    assert store.records[0].docId == "D1";
    var after := GetAvailableSlots(store.records, "D1", OnDay(day));
    assert after.availableSlots[0].isBooked;

    var second := BookAppointment(store, "P2", "D1", OnDay(day), Some("09:00 AM"), now, NoFault);
    assert second == SlotAlreadyBooked && second.Status() == 400;
  }

  /** A slot before the clock is refused; a slot exactly at the clock is not. */
  method PastSlotScenario()
  {
    var store := new Collection();
    var day := ScenarioDay;
    var now := MakeInstant(day - 1, 12, 0);

    FixedSlotRoundTrip(day - 2, 0);
    var past := BookAppointment(store, "P1", "D1", OnDay(day - 2), Some("09:00 AM"), now, NoFault);
    assert past == PastSlot && past.Message() == "Cannot book appointment in the past";

    MidnightAndNoon(day - 1);
    var atNow := BookAppointment(store, "P1", "D1", OnDay(day - 1), Some("12:00 PM"), now, NoFault);
    assert atNow.Created?;
  }

  /** "10:30 AM" is not a fixed slot, and resolves to 10:30 of the day. */
  lemma OffGridLabel(day: int)
    ensures "10:30 AM" !in FixedSlots
    ensures ConvertToDate(OnDay(day), "10:30 AM") == Some(MakeInstant(day, 10, 30))
  {
    assert "10:30 AM" == LabelText(10, 30, "AM");
    ResolveLabelText(day, 10, 30, "AM");
  }

  /** A time that is not one of the fixed slots is booked all the same. */
  method OffGridScenario()
  {
    var store := new Collection();
    var day := ScenarioDay;
    var now := MakeInstant(day - 1, 12, 0);
    OffGridLabel(day);
    var offGrid := BookAppointment(store, "P1", "D1", OnDay(day), Some("10:30 AM"), now, NoFault);
    assert offGrid.Created?;
  }
}
