/**
  What a week of opening hours says about a date, in terms of the calendar and of what its texts show, and
  that this is what the reservation service reads off it.
 */
module OpeningHours {
  import opened Common
  import opened Time
  import opened ClockText
  import opened Sweep
  import opened VenueSchedule
  import opened Bookings

  /** Why a day has no working hours. */
  ghost function HoursProblem(day: DayDTO): Option<BookingError> {
    if !day.enabled then Some(DayClosed)
    else if day.startTime == None || day.endTime == None then Some(HoursMissing)
    else if !Readable(day.startTime.value) then Some(BadOpeningTime)
    else if !Readable(day.endTime.value) then Some(BadClosingTime)
    else None
  }

  /** These are the working hours of the day of `date`. */
  ghost predicate OpenOn(week: Week<DayDTO>, date: Instant, hours: Interval) {
    exists weekday, midnight, open, close ::
      && BeginsDay(midnight, weekday, date) && Opens(Entry(week, weekday), open, close)
      && hours == Interval(OnClock(midnight, open), OnClock(midnight, close))
  }

  /** The readings that the service takes off a day are those its texts show, and each failure has its own cause. */
  lemma ReadHoursMeans(day: DayDTO)
    ensures forall open, close :: ReadHours(day) == Ok((open, close)) <==> Opens(day, open, close)
    ensures forall e :: ReadHours(day) == Err(e) <==> HoursProblem(day) == Some(e)
    ensures ReadHours(day).Ok? <==> HoursProblem(day) == None
  {
    if day.startTime.Some? && day.endTime.Some? {
      forall open, close
        ensures ParseClock(day.startTime.value) == Some(open) <==> Shows(day.startTime.value, open)
        ensures ParseClock(day.endTime.value) == Some(close) <==> Shows(day.endTime.value, close)
      {
        ReadingIsShown(day.startTime.value, 0, open);
        ReadingIsShown(day.endTime.value, 0, close);
      }
      ReadableIsParsed(day.startTime.value);
      ReadableIsParsed(day.endTime.value);
    }
  }

  lemma ReadableIsParsed(s: string)
    ensures Readable(s) <==> ParseClock(s).Some?
  {
    ReadingIsShown(s, 0, Clock(0, 0));
    ParsersAgree(s, 0);
  }

  lemma EntryIsDay<T>(w: Week<T>, weekday: nat)
    requires weekday < 7
    ensures Entry(w, weekday) == w.Day(weekday)
  {
  }

  /** The first midnight of a weekday on which a date may fall, and the instant it shows a clock reading. */
  lemma DayStarts(today: int)
    ensures BeginsDay(today * 86_400_000_000_000, WeekdayOf(today * DAY), today * DAY)
  {
    DayBegins(today * DAY);
    assert DayOf(today * DAY) == today;
  }

  /**
    A day of a venue that was converted from text and passed the hooks: if it was given as closed it is
    answered as closed. Otherwise the stored times are the given readings on the date of the conversion, the
    answered texts show these readings, and on whatever date they are asked about opening precedes closing.
   */
  lemma ValidatedDayOpens(dto: VenueDTO, today: int, v: Venue, i: nat, midnight: Instant)
    requires WeekConverted(dto.weekdays, today, Ok(v.weekdays)) && ValidateVenue(v).None? && i < 7
    ensures var given, stored, answered := Entry(dto.weekdays, i), Entry(v.weekdays, i),
            Entry(ToVenueDTO(v).weekdays, i);
            if !given.enabled then HoursProblem(answered) == Some(DayClosed)
            else exists open, close ::
                   && Opens(given, open, close) && Opens(answered, open, close)
                   && stored.startTime == Some(OnClock(today * 86_400_000_000_000, open))
                   && stored.endTime == Some(OnClock(today * 86_400_000_000_000, close))
                   && OnClock(midnight, open) < OnClock(midnight, close)
  {
    EntryIsDay(dto.weekdays, i);
    EntryIsDay(v.weekdays, i);
    EntryIsDay(ToVenueDTO(v).weekdays, i);
    ValidatedDays(v);
    var given, stored := dto.weekdays.Day(i), v.weekdays.Day(i);
    assert FromDayDTO(given, today) == Ok(stored);
    assert WellFormedDay(stored);
    DayConversionMeans(given, today);
    hide FromDayDTO, ToDayDTO, Shows, BeginsDay;
    if given.enabled {
      var open, close :| Opens(given, open, close);
      DayStarts(today);
      ClockIsShownAt(today * DAY, WeekdayOf(today * DAY), today * DAY, open);
      ClockIsShownAt(today * DAY, WeekdayOf(today * DAY), today * DAY, close);
      DayTextMeans(stored, open, close);
    } else {
      DayTextMeans(stored, Clock(0, 0), Clock(0, 0));
    }
  }

  /** The working hours that the service computes for a date are the ones the calendar and the texts give it. */
  lemma OpenOnMeans(week: Week<DayDTO>, date: Instant, hours: Interval)
    ensures OpenOn(week, date, hours) <==>
              var day := week.Day(WeekdayOf(date));
              ReadHours(day).Ok?
              && hours.start == At(DayOf(date), ReadHours(day).value.0.hour, ReadHours(day).value.0.minute)
              && hours.end == At(DayOf(date), ReadHours(day).value.1.hour, ReadHours(day).value.1.minute)
  {
    var day := week.Day(WeekdayOf(date));
    ReadHoursMeans(day);
    EntryIsDay(week, WeekdayOf(date));
    DayBegins(date);
    hide Shows, ReadHours, Entry, Week.Day, BeginsDay, DayOf, WeekdayOf;
    if OpenOn(week, date, hours) {
      var weekday, midnight, open, close :| BeginsDay(midnight, weekday, date)
        && Opens(Entry(week, weekday), open, close)
                                            && hours == Interval(OnClock(midnight, open), OnClock(midnight, close));
      DayBeginsOnce(midnight, weekday, date);
      assert ReadHours(day) == Ok((open, close));
    }
    if ReadHours(day).Ok? {
      var (open, close) := ReadHours(day).value;
      assert ReadHours(day) == Ok((open, close));
      assert Opens(Entry(week, WeekdayOf(date)), open, close);
      assert OpenOn(week, date, Interval(OnClock(DayOf(date) * DAY, open), OnClock(DayOf(date) * DAY, close)));
    }
  }

  /** A date has at most one pair of working hours. */
  lemma OpenOnOnce(week: Week<DayDTO>, date: Instant, hours: Interval, hours': Interval)
    requires OpenOn(week, date, hours) && OpenOn(week, date, hours')
    ensures hours == hours'
  {
    OpenOnMeans(week, date, hours);
    OpenOnMeans(week, date, hours');
  }
}
