/**
  The venue service: weekly schedules with times, their textual transfer form, the conversions
  between the two, and the check that the storage hooks run on a venue.
 */
module VenueSchedule {
  import opened Common
  import opened Time
  import opened ClockText

  /** A day as it travels between the services: times are texts such as "09:30". */
  datatype DayDTO = DayDTO(enabled: bool, startTime: Option<string>, endTime: Option<string>)

  datatype DaySchedule = DaySchedule(enabled: bool, startTime: Option<Instant>, endTime: Option<Instant>)

  datatype DayError = TimesRequired | BadStart(cause: TimeError) | BadEnd(cause: TimeError)

  /** The first day, counted from Monday, that could not be converted, and why. */
  datatype WeekError = WeekError(day: nat, cause: DayError)

  datatype Venue = Venue(id: nat, venueType: string, ownerId: nat, isActive: bool, hourPrice: int,
                         district: string, weekdays: Week<DaySchedule>)

  datatype VenueDTO = VenueDTO(id: nat, venueType: string, ownerId: nat, isActive: bool, hourPrice: int,
                               district: string, weekdays: Week<DayDTO>)

  datatype VenueError =
    | UnknownType | MissingTimes(day: nat) | OpeningNotBeforeClosing(day: nat) | TimesOnClosedDay(day: nat)

  const VENUE_TYPES: set<string> := {"football", "basketball", "tennis", "gym", "swimming"}

  // ----- Conversions -----

  function ToDayDTO(schedule: DaySchedule): DayDTO {
    if schedule.enabled && schedule.startTime.Some? && schedule.endTime.Some? then
      DayDTO(true, Some(FormatClock(schedule.startTime.value)), Some(FormatClock(schedule.endTime.value)))
    else
      DayDTO(schedule.enabled, None, None)
  }

  function FromDayDTO(dto: DayDTO, today: int): Result<DaySchedule, DayError> {
    if !dto.enabled then Ok(DaySchedule(false, None, None))
    else if dto.startTime.None? || dto.endTime.None? then Err(TimesRequired)
    else match ValidateTime(dto.startTime.value, today)
      case Err(e) => Err(BadStart(e))
      case Ok(start) =>
        match ValidateTime(dto.endTime.value, today)
        case Err(e) => Err(BadEnd(e))
        case Ok(end) => Ok(DaySchedule(true, Some(start), Some(end)))
  }

  function ToWeekDTO(w: Week<DaySchedule>): (r: Week<DayDTO>)
    ensures forall i: nat :: i < 7 ==> r.Day(i) == ToDayDTO(w.Day(i))
  {
    Week(ToDayDTO(w.monday), ToDayDTO(w.tuesday), ToDayDTO(w.wednesday), ToDayDTO(w.thursday),
         ToDayDTO(w.friday), ToDayDTO(w.saturday), ToDayDTO(w.sunday))
  }

  /** `r` is the outcome of converting the seven days in order, stopping at the first failure. */
  ghost predicate WeekConverted(dto: Week<DayDTO>, today: int, r: Result<Week<DaySchedule>, WeekError>) {
    match r
    case Ok(w) => forall i: nat :: i < 7 ==> FromDayDTO(dto.Day(i), today) == Ok(w.Day(i))
    case Err(e) =>
      && e.day < 7
      && FromDayDTO(dto.Day(e.day), today) == Err(e.cause)
      && forall i: nat :: i < e.day ==> FromDayDTO(dto.Day(i), today).Ok?
  }

  /** The outcome is determined: no two different outcomes describe the same conversion. */
  lemma WeekConvertedIsUnique(dto: Week<DayDTO>, today: int, r: Result<Week<DaySchedule>, WeekError>,
                              r': Result<Week<DaySchedule>, WeekError>)
    requires WeekConverted(dto, today, r) && WeekConverted(dto, today, r')
    ensures r == r'
  {
    if r.Ok? && r'.Ok? {
      SameDaysSameWeek(r.value, r'.value);
    } else if r.Err? && r'.Err? {
      assert r.error.day == r'.error.day;
    }
  }

  lemma SameDaysSameWeek<T>(w: Week<T>, w': Week<T>)
    requires forall i: nat :: i < 7 ==> w.Day(i) == w'.Day(i)
    ensures w == w'
  {
    assert w.Day(0) == w'.Day(0) && w.Day(1) == w'.Day(1) && w.Day(2) == w'.Day(2) && w.Day(3) == w'.Day(3);
    assert w.Day(4) == w'.Day(4) && w.Day(5) == w'.Day(5) && w.Day(6) == w'.Day(6);
  }

  method FromWeekDTO(dto: Week<DayDTO>, today: int) returns (r: Result<Week<DaySchedule>, WeekError>)
    ensures WeekConverted(dto, today, r)
  {
    var days := [dto.monday, dto.tuesday, dto.wednesday, dto.thursday, dto.friday, dto.saturday, dto.sunday];
    var schedules: seq<DaySchedule> := [];
    for d := 0 to 7
      invariant |schedules| == d
      invariant forall i: nat :: i < d ==> FromDayDTO(dto.Day(i), today) == Ok(schedules[i])
    {
      assert days[d] == dto.Day(d);
      match FromDayDTO(days[d], today) {
        case Err(e) => return Err(WeekError(d, e));
        case Ok(schedule) => schedules := schedules + [schedule];
      }
    }
    r := Ok(Week(schedules[0], schedules[1], schedules[2], schedules[3], schedules[4], schedules[5], schedules[6]));
  }

  function ToVenueDTO(v: Venue): VenueDTO {
    VenueDTO(v.id, v.venueType, v.ownerId, v.isActive, v.hourPrice, v.district, ToWeekDTO(v.weekdays))
  }

  /** Every field but the schedule is copied; the schedule is converted. */
  method FromVenueDTO(dto: VenueDTO, today: int) returns (r: Result<Venue, WeekError>)
    ensures r.Err? ==> WeekConverted(dto.weekdays, today, Err(r.error))
    ensures r.Ok? ==> WeekConverted(dto.weekdays, today, Ok(r.value.weekdays))
    ensures r.Ok? ==> ToVenueDTO(r.value) == dto.(weekdays := ToWeekDTO(r.value.weekdays))
    ensures r.Ok? ==>
              && r.value.id == dto.id && r.value.venueType == dto.venueType && r.value.ownerId == dto.ownerId
              && r.value.isActive == dto.isActive && r.value.hourPrice == dto.hourPrice
                 && r.value.district == dto.district
  {
    var weekdays := FromWeekDTO(dto.weekdays, today);
    match weekdays {
      case Err(e) => r := Err(e);
      case Ok(w) =>
        r := Ok(Venue(dto.id, dto.venueType, dto.ownerId, dto.isActive, dto.hourPrice, dto.district, w));
    }
  }

  // ----- The storage hooks -----

  function DayProblem(s: DaySchedule, day: nat): Option<VenueError> {
    if s.enabled then
      if s.startTime.None? || s.endTime.None? then Some(MissingTimes(day))
      else if !(s.startTime.value < s.endTime.value) then Some(OpeningNotBeforeClosing(day))
      else None
    else if s.startTime.Some? || s.endTime.Some? then Some(TimesOnClosedDay(day))
    else None
  }

  /** The first problem among the days from `day` on. */
  function DaysProblem(w: Week<DaySchedule>, day: nat): (r: Option<VenueError>)
    requires day <= 7
    ensures r.None? <==> forall i: nat :: day <= i < 7 ==> DayProblem(w.Day(i), i).None?
    decreases 7 - day
  {
    if day == 7 then None
    else
      var problem := DayProblem(w.Day(day), day);
      if problem.Some? then problem else DaysProblem(w, day + 1)
  }

  function ValidateVenue(v: Venue): Option<VenueError> {
    if v.venueType !in VENUE_TYPES then Some(UnknownType) else DaysProblem(v.weekdays, 0)
  }

  /** A day the hooks accept: open with an opening time before the closing time, or closed without times. */
  ghost predicate WellFormedDay(s: DaySchedule) {
    if s.enabled then s.startTime.Some? && s.endTime.Some? && s.startTime.value < s.endTime.value
    else s.startTime.None? && s.endTime.None?
  }

  lemma {:induction false} ValidatedDays(v: Venue)
    ensures ValidateVenue(v).None? <==>
              v.venueType in VENUE_TYPES && forall i: nat :: i < 7 ==> WellFormedDay(v.weekdays.Day(i))
  {
    forall i: nat | i < 7
      ensures DayProblem(v.weekdays.Day(i), i).None? <==> WellFormedDay(v.weekdays.Day(i))
    {
    }
  }

  /** The problem of a day that is not well formed. */
  predicate DayFails(s: DaySchedule, day: nat, e: VenueError) {
    || (s.enabled && (s.startTime == None || s.endTime == None) && e == MissingTimes(day))
    || (s.enabled && s.startTime.Some? && s.endTime.Some? && s.startTime.value >= s.endTime.value
        && e == OpeningNotBeforeClosing(day))
    || (!s.enabled && (s.startTime.Some? || s.endTime.Some?) && e == TimesOnClosedDay(day))
  }

  /**
    The hooks refuse an unknown type first, and then name the first day
    that is not well formed and what is wrong with it.
   */
  lemma VenueProblemMeans(v: Venue)
    ensures ValidateVenue(v) == Some(UnknownType) <==>
              v.venueType !in {"football", "basketball", "tennis", "gym", "swimming"}
    ensures ValidateVenue(v).Some? && ValidateVenue(v) != Some(UnknownType) ==>
              exists day: nat ::
                && day < 7 && DayFails(v.weekdays.Day(day), day, ValidateVenue(v).value)
                && forall i: nat :: i < day ==> WellFormedDay(v.weekdays.Day(i))
  {
    if v.venueType in VENUE_TYPES {
      var day := FirstFailingDay(v.weekdays, 0);
    }
  }

  lemma {:induction false} FirstFailingDay(w: Week<DaySchedule>, from: nat) returns (day: nat)
    requires from <= 7
    ensures from <= day <= 7 && forall i: nat :: from <= i < day ==> WellFormedDay(w.Day(i))
    ensures if day == 7 then DaysProblem(w, from) == None
            else DaysProblem(w, from).Some? && DayFails(w.Day(day), day, DaysProblem(w, from).value)
    decreases 7 - from
  {
    if from < 7 && DayProblem(w.Day(from), from).None? {
      day := FirstFailingDay(w, from + 1);
    } else {
      day := from;
    }
  }

  // ----- What days say -----

  /** The entry of a weekday, counting from 0 for Monday. */
  function Entry<T>(w: Week<T>, weekday: nat): T
    requires weekday < 7
  {
    [w.monday, w.tuesday, w.wednesday, w.thursday, w.friday, w.saturday, w.sunday][weekday]
  }

  /** The day is enabled, and its two texts show these readings. */
  predicate Opens(day: DayDTO, open: Clock, close: Clock) {
    && day.enabled && day.startTime.Some? && day.endTime.Some?
    && Shows(day.startTime.value, open) && Shows(day.endTime.value, close)
  }

  /**
    A closed day converts to one without times, an open one to the
    readings of its texts on the date of the conversion.
   */
  lemma DayConversionMeans(dto: DayDTO, today: int)
    ensures !dto.enabled ==> FromDayDTO(dto, today) == Ok(DaySchedule(false, None, None))
    ensures forall open, close :: Opens(dto, open, close) ==>
              var midnight := today * 86_400_000_000_000;
              FromDayDTO(dto, today) == Ok(DaySchedule(true, Some(OnClock(midnight, open)),
                                                       Some(OnClock(midnight, close))))
    ensures FromDayDTO(dto, today).Ok? <==> !dto.enabled || exists open, close :: Opens(dto, open, close)
    ensures FromDayDTO(dto, today) == Err(TimesRequired)
            <==> dto.enabled && (dto.startTime == None || dto.endTime == None)
    ensures FromDayDTO(dto, today) == Err(BadStart(NoMatch)) <==>
              dto.enabled && dto.startTime.Some? && dto.endTime.Some? && !Readable(dto.startTime.value)
    ensures FromDayDTO(dto, today) == Err(BadEnd(NoMatch)) <==>
              && dto.enabled && dto.startTime.Some? && dto.endTime.Some?
              && Readable(dto.startTime.value) && !Readable(dto.endTime.value)
  {
    if dto.enabled && dto.startTime.Some? && dto.endTime.Some? {
      var s, t := dto.startTime.value, dto.endTime.value;
      forall c
        ensures Shows(s, c) ==> ValidateTime(s, today) == Ok(OnClock(today * 86_400_000_000_000, c))
        ensures Shows(t, c) ==> ValidateTime(t, today) == Ok(OnClock(today * 86_400_000_000_000, c))
      {
        ReadingIsShown(s, today, c);
        ReadingIsShown(t, today, c);
      }
      ReadingIsShown(s, today, Clock(0, 0));
      ReadingIsShown(t, today, Clock(0, 0));
      hide Shows, ValidateTime, OnClock;
      if Readable(s) && Readable(t) {
        var open :| Shows(s, open);
        var close :| Shows(t, close);
        assert Opens(dto, open, close);
      }
    }
  }

  /** A schedule with times is written as the times of day its two instants show; one without is written without. */
  lemma DayTextMeans(s: DaySchedule, open: Clock, close: Clock)
    ensures ToDayDTO(s).enabled == s.enabled
    ensures s.enabled && s.startTime.Some? && s.endTime.Some? ==>
              (ShownAt(s.startTime.value, open) && ShownAt(s.endTime.value, close) ==> Opens(ToDayDTO(s), open, close))
    ensures !s.enabled || s.startTime == None || s.endTime == None ==>
              ToDayDTO(s).startTime == None && ToDayDTO(s).endTime == None
  {
    if s.startTime.Some? && ShownAt(s.startTime.value, open) {
      FormatShows(s.startTime.value, open);
    }
    if s.endTime.Some? && ShownAt(s.endTime.value, close) {
      FormatShows(s.endTime.value, close);
    }
  }

  // ----- Round trips -----

  /** The time of day to the minute, put on the day `today`. */
  function OnDay(t: Option<Instant>, today: int): Option<Instant> {
    match t
    case None => None
    case Some(v) => Some(At(today, HourOf(v), MinuteOf(v)))
  }

  /** Model to text and back: enabled flags and times of day survive. */
  lemma ScheduleRoundTrip(w: Week<DaySchedule>, today: int, r: Result<Week<DaySchedule>, WeekError>)
    requires forall i: nat :: i < 7 ==> WellFormedDay(w.Day(i))
    requires WeekConverted(ToWeekDTO(w), today, r)
    ensures r.Ok?
    ensures forall i: nat :: i < 7 ==>
              && r.value.Day(i).enabled == w.Day(i).enabled
              && r.value.Day(i).startTime == OnDay(w.Day(i).startTime, today)
              && r.value.Day(i).endTime == OnDay(w.Day(i).endTime, today)
  {
    forall i: nat | i < 7
      ensures FromDayDTO(ToWeekDTO(w).Day(i), today)
              == Ok(DaySchedule(w.Day(i).enabled, OnDay(w.Day(i).startTime, today), OnDay(w.Day(i).endTime, today)))
    {
      DayRoundTrip(w.Day(i), today);
    }
  }

  lemma DayRoundTrip(s: DaySchedule, today: int)
    requires WellFormedDay(s)
    ensures FromDayDTO(ToDayDTO(s), today)
            == Ok(DaySchedule(s.enabled, OnDay(s.startTime, today), OnDay(s.endTime, today)))
  {
    if s.enabled {
      FormatThenParse(s.startTime.value, today);
      FormatThenParse(s.endTime.value, today);
    }
  }

  /** The text with its hour padded to two digits. */
  function ZeroPadded(s: string): string {
    if |s| == 4 then "0" + s else s
  }

  function NormalizedDay(dto: DayDTO): DayDTO {
    if dto.enabled && dto.startTime.Some? && dto.endTime.Some? then
      DayDTO(true, Some(ZeroPadded(dto.startTime.value)), Some(ZeroPadded(dto.endTime.value)))
    else DayDTO(dto.enabled, None, None)
  }

  lemma FormatOfValidated(s: string, today: int)
    requires ValidateTime(s, today).Ok?
    ensures FormatClock(ValidateTime(s, today).value) == ZeroPadded(s)
  {
    ParsersAgree(s, today);
    var c := ParseClock(s).value;
    AtFields(today, c.hour, c.minute);
    var k :| 0 <= k < |s| && s[k] == ':' && HourPattern(s[..k]) && MinutePattern(s[k + 1..]);
    PaddedReading(s, k);
  }

  lemma PaddedReading(s: string, k: nat)
    requires k < |s| && s[k] == ':' && HourPattern(s[..k]) && MinutePattern(s[k + 1..]) && ParseClock(s).Some?
    ensures var c := ParseClock(s).value;
            c.hour < 24 && c.minute < 60 && TwoDigits(c.hour) + ":" + TwoDigits(c.minute) == ZeroPadded(s)
  {
    var h, m := s[..k], s[k + 1..];
    assert h[0] == s[0] && (k == 2 ==> h[1] == s[1]) && m[0] == s[k + 1] && m[1] == s[k + 2];
    ReadingOfPattern(s, k);
    DigitsOfReading(h);
    DigitsOfReading(m);
    assert s == h + ":" + m;
    assert TwoDigits(ParseClock(s).value.hour) == if k == 1 then "0" + h else h;
  }

  lemma ReadingOfPattern(s: string, k: nat)
    requires 1 <= k <= 2 && |s| == k + 3 && s[k] == ':'
    requires IsDigit(s[0]) && (k == 2 ==> IsDigit(s[1])) && IsDigit(s[k + 1]) && IsDigit(s[k + 2])
    requires ParseClock(s).Some?
    ensures ParseClock(s).value.hour == if k == 1 then DigitValue(s[0]) else 10 * DigitValue(s[0]) + DigitValue(s[1])
    ensures ParseClock(s).value.minute == 10 * DigitValue(s[k + 1]) + DigitValue(s[k + 2])
  {
    assert GetNum(s, false).value.1 == s[k..];
    var m := s[k..][1..];
    assert m[0] == s[k + 1] && m[1] == s[k + 2];
  }

  /**
    Text to model and back pads the times with zeros and drops the times of closed days;
    a second pass changes nothing.
   */
  lemma TextRoundTrip(dto: Week<DayDTO>, today: int, r: Result<Week<DaySchedule>, WeekError>, i: nat)
    requires WeekConverted(dto, today, r) && r.Ok? && i < 7
    ensures ToWeekDTO(r.value).Day(i) == NormalizedDay(dto.Day(i))
    ensures FromDayDTO(ToWeekDTO(r.value).Day(i), today) == Ok(r.value.Day(i))
    ensures NormalizedDay(NormalizedDay(dto.Day(i))) == NormalizedDay(dto.Day(i))
  {
    var d := dto.Day(i);
    assert FromDayDTO(d, today) == Ok(r.value.Day(i));
    if d.enabled {
      var s, t := d.startTime.value, d.endTime.value;
      FormatOfValidated(s, today);
      FormatOfValidated(t, today);
      FormatThenParse(ValidateTime(s, today).value, today);
      FormatThenParse(ValidateTime(t, today).value, today);
      ParsersAgree(s, today);
      ParsersAgree(t, today);
      AtFields(today, ParseClock(s).value.hour, ParseClock(s).value.minute);
      AtFields(today, ParseClock(t).value.hour, ParseClock(t).value.minute);
      assert |ZeroPadded(s)| == 5 && |ZeroPadded(t)| == 5;
    }
  }

  /**
    A venue that was converted from text on day `today` and passed the hooks answers the
    reservation service with texts that service can parse, opening before closing.
   */
  lemma ValidatedVenueAnswers(dto: VenueDTO, today: int, v: Venue, i: nat)
    requires WeekConverted(dto.weekdays, today, Ok(v.weekdays)) && ValidateVenue(v).None? && i < 7
    ensures var d := ToVenueDTO(v).weekdays.Day(i);
            if !dto.weekdays.Day(i).enabled then d == DayDTO(false, None, None)
            else
              && d.enabled && d.startTime.Some? && d.endTime.Some?
              && ParseClock(d.startTime.value).Some? && ParseClock(d.endTime.value).Some?
              && var open, close := ParseClock(d.startTime.value).value, ParseClock(d.endTime.value).value;
              && ParseClock(dto.weekdays.Day(i).startTime.value) == Some(open)
              && ParseClock(dto.weekdays.Day(i).endTime.value) == Some(close)
              && open.hour < 24 && open.minute < 60 && close.hour < 24 && close.minute < 60
              && At(today, open.hour, open.minute) < At(today, close.hour, close.minute)
  {
    var d := dto.weekdays.Day(i);
    ValidatedDays(v);
    assert FromDayDTO(d, today) == Ok(v.weekdays.Day(i));
    if d.enabled {
      ReadingSurvives(d.startTime.value, today);
      ReadingSurvives(d.endTime.value, today);
    }
  }

  lemma ReadingSurvives(s: string, today: int)
    requires ValidateTime(s, today).Ok?
    ensures ParseClock(s).Some? && ParseClock(FormatClock(ValidateTime(s, today).value)) == ParseClock(s)
    ensures var c := ParseClock(s).value;
            c.hour < 24 && c.minute < 60 && ValidateTime(s, today).value == At(today, c.hour, c.minute)
  {
    ParsersAgree(s, today);
    var c := ParseClock(s).value;
    AtFields(today, c.hour, c.minute);
    FormatThenParse(At(today, c.hour, c.minute), today);
  }
}
