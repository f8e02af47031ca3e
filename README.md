# Appointment slot-booking engine — a Dafny model

This project models the slot-booking engine of a telehealth booking service,
`backend/controllers/appointmentController.js`:

- **Time-label resolution** (`convertToDate`). A label `"HH:MM AM|PM"` is split at the space and at the colon. Both numbers go through `parseInt`. The hour moves to the 24-hour clock: PM adds 12 unless the hour is 12, and then AM turns 12 into 0. The instant is the date at that hour and minute, with seconds and milliseconds zero.
- **Booking** (`bookAppointment`). An instant strictly before "now" is refused with 400 "Cannot book appointment in the past". The record is then inserted. The store's unique index on (doctor, instant) reports a collision as error code 11000, and the reply is 400 "Slot already booked". On success, a second write stores the record's own id as its `roomId`, and the reply is 201. Any other failure gives 500 "Booking failed". The label is never checked against the fixed slots.
- **Slot listing** (`getAvailableSlots`). Without a date the reply is 400 "Date is required". Otherwise the doctor's records inside the inclusive window [date 00:00:00, date 23:59:59] are formatted back to labels. The reply lists the five fixed slots in order, each with `isBooked`.
- **Listings** (`getAppointmentsForDoctor`, `getAppointmentsByPatient`). They select the records of one doctor or of one patient.

Modules, one per file:

- `wrappers.dfy`: `Option` and `Result`, standing for `undefined`/`NaN` and for thrown errors.
- `instants.dfy`: instants as integer milliseconds on the host's local time line, and calendar days as integers. `MakeInstant` is the chain `setHours`/`setMinutes`/`setSeconds(0)`/`setMilliseconds(0)`. Out-of-range fields carry into the next field, as they do in JavaScript. `DateInput` is the request's `date` field: absent, unparseable, or a day.
- `js_text.dfy`: `String.prototype.split` with a one-character separator, and `parseInt` in base ten. `parseInt` reads an optional sign and then the leading run of digits; `NaN` is `None`.
- `time_label.dfy`: `convertToDate` and the label formatter, with the round trip between well-formed labels and minute-aligned instants.
- `appointment_store.dfy`: the appointment collection as a class. It holds its records and its id generator, enforces the unique index, and offers `create` and the `roomId` save.
- `appointment_controller.dfy`: the four handlers, the invariant that booking keeps, and three client walk-throughs (double booking, past slot, off-grid time).
- `utc_date_finding.dfy`: the finding below.

Inputs the code takes from outside are parameters. The clock (`new Date()`) is `now`. Whether the insert or the room-id save fails for reasons other than the unique index is a `Fault`.

Where the intended design and the code differ, the model follows the code, with one exception: the day that a `date` such as "2026-02-10" names. The model resolves a booking on that local calendar day. The code resolves it on the local day that contains UTC midnight of that date. The two agree at UTC and east of it; the difference is the finding below, modelled as written in `UtcDateFinding.ConvertToDateAsWritten`. Otherwise:

- A request without an instant gets 500 "Booking failed", as a failed write does. That happens when the date is missing or unparseable, or when the label's hour or minute is missing or has no digit after an optional sign (such as "9 AM", which has no minutes). `parseInt` then yields `NaN` and the date becomes invalid. `NaN < now` is false, so the request reaches `Appointment.create`, where the cast to `Date` refuses it. A missing `time` throws in `split`, which also gives 500. There is no distinct "invalid slot format" reply.
- Labels are not validated. A label without AM/PM is read on the 24-hour clock: "21:00" is 21:00. An hour or minute out of range carries through `setHours`/`setMinutes`: "13:00 PM" is hour 25, which is 01:00 of the next day. `parseInt` also accepts a sign: "+09:00 AM" is 09:00, and "-1:00 AM" is hour -1, which is 23:00 of the day before. Such labels are booked like any other: 201 when the instant is not past and free.
- An instant equal to "now" is accepted, because the comparison is a strict `<`.
- Off-grid times, such as "10:30 AM", are booked. Only the listing uses the fixed slots.
- If the second write (the `roomId` save) fails, the record stays stored with a null `roomId` and the reply is 500. Nothing retries the write.

## Model

| member | source | states |
|---|---|---|
| `Instants.MakeInstantAligned` | backend/controllers/appointmentController.js:18-22 | the resolved instant always has zero seconds and milliseconds, whatever hour and minute were set |
| `Instants.MakeInstant` | backend/controllers/appointmentController.js:19-22 | the instant is the day's start plus the hours and the minutes, neither bounded; what that means is stated by its partners `MakeInstantCarries` (the carry), `MakeInstantFields` and `FieldsMakeInstant` (the fields read back) |
| `Instants.MakeInstantCarries` | backend/controllers/appointmentController.js:19-20 | 24 hours more is the same time of the next day, and 60 minutes more is the same minute of the next hour, for every day, hour and minute: `setHours`/`setMinutes` carry out-of-range values, negative ones included |
| `Instants.MakeInstantFields` | backend/controllers/appointmentController.js:18-22 | for in-range hour and minute, the instant lies on the given day and reads back exactly that hour and minute |
| `Instants.FieldsMakeInstant` | backend/controllers/appointmentController.js:101-106 | a minute-aligned instant has hour 0..23 and minute 0..59 and is rebuilt from its day, hour and minute |
| `Instants.InDayWindow` | backend/controllers/appointmentController.js:93-99 | for minute-aligned instants, the inclusive window [day 00:00:00, day 23:59:59] holds exactly the instants of that day |
| `JsText.Split` | backend/controllers/appointmentController.js:4-6 | `split` always gives at least one piece (destructuring never fails on a string) |
| `JsText.SplitJoin` | backend/controllers/appointmentController.js:4-6 | `split` then `join` gives back the string, and no piece contains the separator |
| `JsText.SplitAtOnly` | backend/controllers/appointmentController.js:4-6 | a string with exactly one separator splits into the text before it and the text after it |
| `JsText.ParseInt` | backend/controllers/appointmentController.js:8 | a string that starts with a digit gives a number, and a non-negative one; an empty string, or one that starts with neither a digit nor a sign, gives `NaN` (line 20 reads the minutes the same way) |
| `JsText.ParseTwoDigits` | backend/controllers/appointmentController.js:8 | `parseInt` of two digits is their decimal value |
| `JsText.ParseNegativeDigit` | backend/controllers/appointmentController.js:8 | `parseInt` reads a minus sign and a digit as the negated digit |
| `JsText.TwoDigitsRoundTrip` | backend/controllers/appointmentController.js:102-105 | a number below 100 written with two digits is read back by `parseInt` as the same number |
| `JsText.TwoDigitsOfValue` | backend/controllers/appointmentController.js:102-105 | two digits read as a number and written back with two digits are the same two digits |
| `TimeLabel.To12Hour` | backend/controllers/appointmentController.js:101-106 | the formatter's hour is 1..12 and its modifier is AM or PM |
| `TimeLabel.To24Hour` | backend/controllers/appointmentController.js:8-16 | NaN stays NaN; a modifier other than AM/PM leaves the hour unchanged; for hours 1..12 with AM/PM the result is in 0..23 and the 12-hour formatter gives back the same hour and modifier |
| `TimeLabel.To24HourOfTo12Hour` | backend/controllers/appointmentController.js:8-16 | every hour 0..23 is the 24-hour reading of its own 12-hour form, so the conversion maps 1..12 × {AM, PM} onto 0..23 |
| `TimeLabel.ReadClock` | backend/controllers/appointmentController.js:4-16 | a label is read only when its time part holds a colon and its hour field gives a number; its partner `TimeLabel.ReadClockOfLabel` gives the value read from every "HH:MM modifier" label |
| `TimeLabel.ConvertToDate` | backend/controllers/appointmentController.js:3-25 | the instant exists exactly when the date is a day and the label parses; it is minute-aligned; it is the day at the label's hour and minute as read, with the carry for out-of-range values; for an in-range hour and minute it is on that day at the parsed hour and minute |
| `TimeLabel.FormatLabel` | backend/controllers/appointmentController.js:101-106 | every formatted instant is a well-formed "HH:MM AM/PM" label |
| `TimeLabel.ReadClockOfLabel` | backend/controllers/appointmentController.js:4-16 | a label "HH:MM" followed by a space and a modifier is read as its hour moved to the 24-hour clock and its minutes, whether or not they are in range |
| `TimeLabel.LabelRoundTrip` | backend/controllers/appointmentController.js:3-25 | a well-formed label resolved on a day lands on that day and formats back to the same label |
| `TimeLabel.InstantRoundTrip` | backend/controllers/appointmentController.js:101-110 | a minute-aligned instant formatted and then resolved on its own day is the same instant |
| `TimeLabel.FormatLabelInjective` | backend/controllers/appointmentController.js:101-110 | two minute-aligned instants of one day with the same label are equal |
| `TimeLabel.ResolveLabelText` | backend/controllers/appointmentController.js:3-25 | a label hh:mm AM/PM with hh in 1..12 and mm in 0..59 resolves to the day at hh converted to the 24-hour clock, minute mm, and that instant formats back to the label |
| `TimeLabel.UnmarkedLabel` | backend/controllers/appointmentController.js:3-25 | a label "HH:MM" without AM/PM resolves to that hour and minute of the day as written, with any hour or minute below 100 accepted and carried |
| `TimeLabel.OutOfRangeLabel` | backend/controllers/appointmentController.js:3-25 | a PM label with an hour from 13 to 99 is not refused: it resolves to the next day at the hour minus 12 |
| `TimeLabel.ReadPastNoonLabel` | backend/controllers/appointmentController.js:4-16 | a PM label with an hour past 12 is read as that hour plus 12 |
| `TimeLabel.NegativeHourLabel` | backend/controllers/appointmentController.js:3-25 | a label "-D:MM AM" with a digit D from 1 to 9 is not refused: it resolves to hour 24-D of the day before |
| `TimeLabel.ReadNegativeHourLabel` | backend/controllers/appointmentController.js:4-16 | "-D:MM AM" is read as hour -D, which AM leaves alone, and minute MM |
| `TimeLabel.LabelWithoutMinutes` | backend/controllers/appointmentController.js:3-25 | a label with no colon, "9 AM", gives no instant (an invalid date) |
| `TimeLabel.FixedSlotRoundTrip` | backend/controllers/appointmentController.js:90 | fixed slot i resolves to hour 9+2i, minute 0 of the day, and formats back to its own label |
| `TimeLabel.MidnightAndNoon` | backend/controllers/appointmentController.js:10-16 | "12:00 AM" resolves to hour 0 and "12:00 PM" to hour 12 |
| `AppointmentStore.Where` | backend/controllers/appointmentController.js:96-99 | a query returns exactly the stored records it selects, each as many times as stored |
| `AppointmentStore.AtMostOneAtSlot` | backend/controllers/appointmentController.js:45-46 | under the unique index, a doctor has at most one record at an instant, and one exactly when the slot is taken |
| `AppointmentStore.Collection.Create` | backend/controllers/appointmentController.js:47-52 | an invalid date fails the cast; an insert colliding on (docId, scheduleTime) fails as a duplicate key and writes nothing; otherwise exactly one record with a fresh id and a null roomId is appended; the unique index is kept |
| `AppointmentStore.Collection.SaveRoomId` | backend/controllers/appointmentController.js:54-56 | unless the write fails, the record with the id gets the room id; no other record changes |
| `AppointmentController.ScheduleTime` | backend/controllers/appointmentController.js:34 | a request has an instant exactly when its date is a day, its `time` is present and the label is read; the instant is minute-aligned |
| `AppointmentController.BookAppointment` | backend/controllers/appointmentController.js:27-78 | 400 past exactly when the instant is strictly before now; 400 already booked exactly when it collides; 201 exactly when it is valid, not past and free; on 201 exactly one record is added, with the given patient, doctor and instant and roomId equal to its own fresh id; a failed room-id save leaves that record with a null roomId and gives 500; otherwise nothing changes; the unique index and "room id is null or own id" are kept |
| `AppointmentController.DayWindow` | backend/controllers/appointmentController.js:93-99 | the query returns exactly the doctor's records inside the inclusive window [day 00:00:00, day 23:59:59], and for minute-aligned records exactly the doctor's records of that day |
| `AppointmentController.BookedTimes` | backend/controllers/appointmentController.js:101-106 | the booked labels are exactly the labels of the queried records |
| `AppointmentController.GetAvailableSlots` | backend/controllers/appointmentController.js:82-120 | no date gives "Date is required"; an unparseable date fails the query; otherwise exactly five entries in fixed order, each booked iff some record of the doctor in the inclusive day window formats to its label; being a function of the records, it writes nothing |
| `AppointmentController.SlotShownBookedIffTaken` | backend/controllers/appointmentController.js:90-111 | a fixed slot is listed as booked exactly when the doctor has a record at the instant that booking that slot resolves to, so exactly when booking it would collide |
| `AppointmentController.GetAppointmentsForDoctor` | backend/controllers/appointmentController.js:126-138 | exactly the doctor's records, each as many times as stored |
| `AppointmentController.GetAppointmentsByPatient` | backend/controllers/appointmentController.js:140-153 | exactly the patient's records, each as many times as stored |
| `UtcDateFinding.ConvertToDateAsWritten` | backend/controllers/appointmentController.js:18-19 | the code as written gives an instant exactly when the intended resolution does (only the day differs), and it is minute-aligned |
| `UtcDateFinding.AsWrittenAgreesEastOfUtc` | backend/controllers/appointmentController.js:18-19 | at UTC or east of it, the date handling as written resolves to the requested day |
| `UtcDateFinding.AsWrittenPreviousDayWestOfUtc` | backend/controllers/appointmentController.js:18-19 | west of UTC, the date handling as written resolves to the day before the requested one |
| `UtcDateFinding.BookedSlotHiddenWestOfUtc` | backend/controllers/appointmentController.js:18-19 | west of UTC, a fixed slot booked as written is listed as free on the requested day and as booked on the day before |

## Findings

| source | as written | input that shows it | evidently intended | confidence | as-written member | corrected member |
|---|---|---|---|---|---|---|
| backend/controllers/appointmentController.js:18-19 | `new Date(date)` with a date-only "YYYY-MM-DD" string is UTC midnight; `setHours`/`setMinutes` then act on the local day that contains it | host at UTC−05:00, book "09:00 AM" on 2026-02-10: the record is at 2026-02-09 09:00 local, and the listing for 2026-02-10 shows 09:00 AM as free | the booking lands on the requested local day, the one the listing's `${date} 00:00:00` window uses | medium (depends on the host's time zone; not executed) | `UtcDateFinding.ConvertToDateAsWritten`, `UtcDateFinding.BookedSlotHiddenWestOfUtc` | `TimeLabel.ConvertToDate`, `AppointmentController.SlotShownBookedIffTaken` |

## Left out

- TimeLabel.ConvertToDate: resolves a booking on the local day that `date` names. Lines 18-19 resolve it on the local day that contains UTC midnight of that date. The two agree only at UTC or east of it (`UtcDateFinding.AsWrittenAgreesEastOfUtc`). West of UTC the code lands on the previous day; that is the finding above, modelled as written by `UtcDateFinding.ConvertToDateAsWritten`.
- JavaScript `Date` internals. There is no daylight-saving shift and no `TimeClip` range limit. Instants are integer milliseconds on the local time line, with the host's UTC offset fixed; only the finding uses that offset. The calendar parsing of the `date` string is not modelled: a date is absent, unparseable, or a day index.
- `parseInt` leading whitespace and the `0x` hexadecimal prefix are not modelled. Labels come from the client's fixed list.
- The formatter `toLocaleTimeString('en-US', …)` is modelled with an ASCII space before AM/PM and with "12" for midnight and noon. Other locales and ICU versions that use a narrow no-break space are not modelled.
- The Appointment schema file is not part of this model. Two of its behaviours are assumed: it casts `scheduleTime` to a Date and refuses an invalid one, and it carries the unique index on (docId, scheduleTime). Required-field validation of `patientId` and `docId` is not modelled.
- Persistence failures in the three read handlers (500 "Could not fetch slots" after a driver failure, and 500 from the listings) are left out. They are I/O failures that change nothing. An unparseable date in the slot listing does give `SlotsFailed`.
- `populate` joins of patient and doctor fields, and `console.log`, are left out. They are lookups in external collections and logging.
- Concurrency between requests is not modelled. Each booking is one atomic call on the collection, and the unique index decides collisions.
- The React components, the real-time signalling relay, presence tracking, route wiring and the database connection are outside the booking engine and are left out.
