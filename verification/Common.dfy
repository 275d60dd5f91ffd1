/** Datatypes shared by every module: optional values, outcomes, and a record of the seven weekdays. */
module Common {

  datatype Option<+T> = None | Some(value: T)

  datatype Result<+T, +E> = Ok(value: T) | Err(error: E)

  /** The sequence without its element at position `i`. */
  function Without<T>(s: seq<T>, i: nat): seq<T>
    requires i < |s|
  {
    s[..i] + s[i + 1..]
  }

  /** One entry per weekday, in the order in which the services list them. */
  datatype Week<+T> = Week(monday: T, tuesday: T, wednesday: T, thursday: T, friday: T, saturday: T, sunday: T) {
    /** The entry of day `i`, counting from Monday. */
    function Day(i: nat): T
      requires i < 7
    {
      if i == 0 then monday
      else if i == 1 then tuesday
      else if i == 2 then wednesday
      else if i == 3 then thursday
      else if i == 4 then friday
      else if i == 5 then saturday
      else sunday
    }
  }
}

/**
  Instants of one time zone, counted in nanoseconds from midnight of Monday, January 1, year 1,
  which is the zero value of Go's `time.Time`.
 */
module Time {

  type Instant = int

  const MINUTE: int := 60_000_000_000
  const HOUR: int := 3_600_000_000_000
  const DAY: int := 86_400_000_000_000

  /** The zero instant is the one that `IsZero` recognises. */
  const ZERO: Instant := 0

  function DayOf(t: Instant): int {
    t / DAY
  }

  /** 0 is Monday. */
  function WeekdayOf(t: Instant): nat {
    DayOf(t) % 7
  }

  predicate SameDay(s: Instant, t: Instant) {
    DayOf(s) == DayOf(t)
  }

  /** The instant at which the clock shows `hour`:`minute` on the given day. */
  function At(day: int, hour: nat, minute: nat): Instant {
    day * DAY + hour * HOUR + minute * MINUTE
  }

  function HourOf(t: Instant): nat {
    t % DAY / HOUR
  }

  function MinuteOf(t: Instant): nat {
    t % HOUR / MINUTE
  }

  lemma AtFields(day: int, hour: nat, minute: nat)
    requires hour < 24 && minute < 60
    ensures DayOf(At(day, hour, minute)) == day
    ensures HourOf(At(day, hour, minute)) == hour
    ensures MinuteOf(At(day, hour, minute)) == minute
  {
    var inDay := hour * HOUR + minute * MINUTE;
    assert 0 <= inDay < DAY;
    assert At(day, hour, minute) == day * DAY + inDay;
    assert At(day, hour, minute) == (day * 24 + hour) * HOUR + minute * MINUTE;
  }

  /** `midnight` begins the calendar day of `t`, which has this place in its week, counting from 0 for Monday. */
  predicate BeginsDay(midnight: Instant, weekday: nat, t: Instant) {
    && weekday < 7 && midnight <= t < midnight + 86_400_000_000_000
    && midnight % 604_800_000_000_000 == weekday * 86_400_000_000_000
  }

  lemma DayBegins(t: Instant)
    ensures BeginsDay(DayOf(t) * DAY, WeekdayOf(t), t)
  {
    var d := DayOf(t);
    assert d * DAY == d / 7 * 604_800_000_000_000 + d % 7 * 86_400_000_000_000;
  }

  /** Every instant has one such midnight and weekday. */
  lemma DayBeginsOnce(midnight: Instant, weekday: nat, t: Instant)
    requires BeginsDay(midnight, weekday, t)
    ensures midnight == DayOf(t) * DAY && weekday == WeekdayOf(t)
  {
    DayBegins(t);
    assert midnight == midnight / 604_800_000_000_000 * 7 * DAY + weekday * DAY;
    assert midnight == (midnight / 604_800_000_000_000 * 7 + weekday) * DAY;
  }

  /** Between two clock readings of one day, every instant is on that day. */
  lemma BetweenClockReadings(day: int, h: nat, m: nat, h': nat, m': nat, t: Instant)
    requires h' < 24 && m' < 60
    requires At(day, h, m) <= t <= At(day, h', m')
    ensures DayOf(t) == day
  {
  }
}
