/**
 * Instants on the host's local time line.
 *
 * A JavaScript `Date` is a count of milliseconds; the booking code only ever
 * reads and writes it through the local-time setters and formatter, so an
 * instant is modelled as an integer number of milliseconds on the local time
 * line (a fixed offset from UTC, no daylight-saving jumps), and a calendar
 * date as the index of a local day.
 */
module Instants {

  const MsPerMinute: int := 60_000
  const MsPerHour: int := 3_600_000
  const MsPerDay: int := 86_400_000

  /** Milliseconds from the start of a day to 23:59:59 of that day. */
  const EndOfDayOffset: int := 86_399_000

  /** The `date` field of a request: missing (or empty), not a date, or a calendar day. */
  datatype DateInput = Absent | Unparseable | OnDay(day: int)

  /**
   * The instant `day` at `hours`:`minutes`:00.000. As with `setHours` and
   * `setMinutes`, fields out of their usual range carry into the next field.
   */
  function MakeInstant(day: int, hours: int, minutes: int): (t: int)
    ensures t == day * 86_400_000 + hours * 3_600_000 + minutes * 60_000
  {
    (day * 1440 + hours * 60 + minutes) * MsPerMinute
  }

  function DayStart(day: int): int
  {
    day * MsPerDay
  }

  function DayOf(t: int): int
  {
    t / MsPerDay
  }

  function HourOf(t: int): int
  {
    (t % MsPerDay) / MsPerHour
  }

  function MinuteOf(t: int): int
  {
    (t % MsPerHour) / MsPerMinute
  }

  /** Seconds and milliseconds are both zero. */
  predicate MinuteAligned(t: int)
  {
    t % MsPerMinute == 0
  }

  lemma MakeInstantAligned(day: int, hours: int, minutes: int)
    ensures MinuteAligned(MakeInstant(day, hours, minutes))
  {
    var k := day * 1440 + hours * 60 + minutes;
    assert MakeInstant(day, hours, minutes) == k * MsPerMinute;
  }

  /**
   * `setHours` and `setMinutes` carry: 24 hours more is the same time of the
   * next day, and 60 minutes more is the same minute of the next hour. So an
   * hour of -1 is 23:00 of the day before, and an hour of 25 is 01:00 of
   * the day after.
   */
  lemma MakeInstantCarries(day: int, hours: int, minutes: int)
    ensures MakeInstant(day, hours + 24, minutes) == MakeInstant(day + 1, hours, minutes)
    ensures MakeInstant(day, hours, minutes + 60) == MakeInstant(day, hours + 1, minutes)
  {
  }

  /** The fields an instant was made from are the fields it reads back. */
  lemma MakeInstantFields(day: int, hours: int, minutes: int)
    requires 0 <= hours < 24 && 0 <= minutes < 60
    ensures var t := MakeInstant(day, hours, minutes);
      && MinuteAligned(t)
      && DayOf(t) == day && HourOf(t) == hours && MinuteOf(t) == minutes
  {
    var t := MakeInstant(day, hours, minutes);
    MakeInstantAligned(day, hours, minutes);
    var inDay := hours * 3_600_000 + minutes * 60_000;
    var inHour := minutes * 60_000;
    assert t / 86_400_000 == day && t % 86_400_000 == inDay by {
      assert t == day * 86_400_000 + inDay;
      assert 0 <= inDay < 86_400_000;
    }
    assert inDay / 3_600_000 == hours by {
      assert 0 <= inHour < 3_600_000;
    }
    assert t % 3_600_000 == inHour by {
      assert t == (day * 24 + hours) * 3_600_000 + inHour;
    }
    assert inHour / 60_000 == minutes;
  }

  /** A minute-aligned instant is rebuilt from the fields it reads back. */
  lemma FieldsMakeInstant(t: int)
    requires MinuteAligned(t)
    ensures 0 <= HourOf(t) < 24 && 0 <= MinuteOf(t) < 60
    ensures MakeInstant(DayOf(t), HourOf(t), MinuteOf(t)) == t
  {
    var d, r := t / 86_400_000, t % 86_400_000;
    var h, rh := r / 3_600_000, r % 3_600_000;
    var m := rh / 60_000;
    var k := t / 60_000;
    assert t == k * 60_000;
    assert r == (k - d * 1440) * 60_000;
    assert rh == (k - d * 1440 - h * 60) * 60_000;
    assert t == d * 86_400_000 + h * 3_600_000 + m * 60_000;
    assert t == (d * 24 + h) * 3_600_000 + rh;
    assert t % 3_600_000 == rh;
    assert DayOf(t) == d && HourOf(t) == h && MinuteOf(t) == m;
  }

  /** For minute-aligned instants the inclusive window [00:00:00, 23:59:59] of a day is exactly that day. */
  lemma InDayWindow(t: int, day: int)
    requires MinuteAligned(t)
    ensures DayStart(day) <= t <= DayStart(day) + EndOfDayOffset <==> DayOf(t) == day
  {
    var d, r := t / 86_400_000, t % 86_400_000;
    var k := t / 60_000;
    assert t == k * 60_000;
    assert r == (k - d * 1440) * 60_000;
    assert r <= 1439 * 60_000;
    assert DayStart(day) == day * 86_400_000 && DayOf(t) == d;
    if d < day {
      assert t < (d + 1) * 86_400_000 <= day * 86_400_000;
    } else if d > day {
      assert t >= d * 86_400_000 >= (day + 1) * 86_400_000;
    }
  }

  /** `InDayWindow` for every minute-aligned instant at once. */
  lemma InDayWindowAll(day: int)
    ensures forall t :: MinuteAligned(t) ==> (DayStart(day) <= t <= DayStart(day) + EndOfDayOffset <==> DayOf(t) == day)
  {
    forall t | MinuteAligned(t)
      ensures DayStart(day) <= t <= DayStart(day) + EndOfDayOffset <==> DayOf(t) == day
    {
      InDayWindow(t, day);
    }
  }
}
