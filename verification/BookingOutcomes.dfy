/**
  What each booking call answers and stores, field by field: said of the request, the stored rows, the calendar
  and what the opening hours show, so that every check, error and field has a meaning of its own.
 */
module BookingOutcomes {
  import opened Common
  import opened Time
  import opened ClockText
  import opened Sweep
  import opened VenueSchedule
  import opened Bookings
  import opened OpeningHours
  import opened Availability

  /** A check, and the error that its failure gives. */
  datatype Check = Check(fails: bool, error: BookingError)

  /** The outcome of checks that are made in order: the first failure, or none. */
  ghost predicate FirstFailing(checks: seq<Check>, problem: Option<BookingError>) {
    match problem
    case None => forall k :: 0 <= k < |checks| ==> !checks[k].fails
    case Some(e) =>
      exists k :: 0 <= k < |checks| && checks[k] == Check(true, e) && forall j :: 0 <= j < k ==> !checks[j].fails
  }

  lemma FirstFailingOfBoth(first: seq<Check>, second: seq<Check>, problem: Option<BookingError>,
                           later: Option<BookingError>)
    requires FirstFailing(first, problem) && (problem.None? ==> FirstFailing(second, later))
    ensures FirstFailing(first + second, if problem.Some? then problem else later)
  {
    var all := first + second;
    if problem.Some? {
      var k :| 0 <= k < |first| && first[k] == Check(true, problem.value) && forall j :: 0 <= j < k ==> !first[j].fails;
      assert all[k] == first[k];
    } else if later.Some? {
      var k :| 0 <= k < |second| && second[k] == Check(true, later.value) && forall j :: 0 <= j < k ==>
        !second[j].fails;
      assert all[|first| + k] == second[k];
    }
  }

  /** A list of checks has one outcome. */
  lemma FirstFailingOnce(checks: seq<Check>, problem: Option<BookingError>, problem': Option<BookingError>)
    requires FirstFailing(checks, problem) && FirstFailing(checks, problem')
    ensures problem == problem'
  {
    if problem.Some? && problem'.Some? {
      var k :| 0 <= k < |checks| && checks[k] == Check(true, problem.value) && forall j :: 0 <= j < k ==>
        !checks[j].fails;
      var k' :| 0 <= k' < |checks| && checks[k'] == Check(true, problem'.value)
                && forall j :: 0 <= j < k' ==> !checks[j].fails;
      assert k == k';
    }
  }

  // ----- Where and when a booking may lie -----

  /** The window lies between the readings of the day's two texts. */
  ghost predicate Fits(w: Interval, day: DayDTO, midnight: Instant) {
    exists open, close ::
      Opens(day, open, close) && OnClock(midnight, open) <= w.start && w.end <= OnClock(midnight, close)
  }

  ghost function DayChecks(w: Interval, day: DayDTO, midnight: Instant): seq<Check> {
    [Check(!day.enabled, DayClosed),
     Check(day.startTime == None || day.endTime == None, HoursMissing),
     Check(day.startTime.Some? && !Readable(day.startTime.value), BadOpeningTime),
     Check(day.endTime.Some? && !Readable(day.endTime.value), BadClosingTime),
     Check(!Fits(w, day, midnight), OutsideHours)]
  }

  /** The checks that create and update share; `midnight` and `weekday` are those of the start of the window. */
  ghost function PlacementChecks(rows: map<nat, Row>, venueId: nat, w: Interval, week: Option<Week<DayDTO>>,
                                 exclude: Option<nat>, midnight: Instant, weekday: nat): seq<Check>
    requires weekday < 7
  {
    [Check(!(midnight <= w.end < midnight + 86_400_000_000_000), NotOneDay), Check(week == None, VenueUnavailable)]
    + (if week.Some? then DayChecks(w, Entry(week.value, weekday), midnight) else [])
    + [Check(Taken(rows, venueId, w, exclude), Conflict)]
  }

  lemma DayOutcome(w: Interval, day: DayDTO, midnight: Instant, weekday: nat)
    requires w.start < w.end && BeginsDay(midnight, weekday, w.start)
             && midnight <= w.end < midnight + 86_400_000_000_000
    ensures FirstFailing(DayChecks(w, day, midnight), ScheduleProblem(day, w.start, w.end))
  {
    DayBeginsOnce(midnight, weekday, w.start);
    assert DayOf(w.end) == DayOf(w.start);
    ReadHoursMeans(day);
    hide FirstFailing, Fits, Readable, ReadHours, BeginsDay, DayOf, HoursProblem, Shows;
    match ReadHours(day)
    case Err(e) =>
      assert HoursProblem(day) == Some(e);
      DayWithoutHours(w, day, midnight, e);
    case Ok((open, close)) =>
      assert Opens(day, open, close);
      forall open', close' | Opens(day, open', close')
        ensures open' == open && close' == close
      {
        assert ReadHours(day) == Ok((open', close'));
      }
      DayWithHours(w, day, midnight, open, close);
  }

  lemma DayWithoutHours(w: Interval, day: DayDTO, midnight: Instant, e: BookingError)
    requires HoursProblem(day) == Some(e)
    ensures FirstFailing(DayChecks(w, day, midnight), Some(e))
  {
    var checks := DayChecks(w, day, midnight);
    assert e == DayClosed ==> checks[0] == Check(true, e);
    assert e == HoursMissing ==> checks[1] == Check(true, e);
    assert e == BadOpeningTime ==> checks[2] == Check(true, e);
    assert e == BadClosingTime ==> checks[3] == Check(true, e);
  }

  lemma DayWithHours(w: Interval, day: DayDTO, midnight: Instant, open: Clock, close: Clock)
    requires Opens(day, open, close)
    requires forall open', close' :: Opens(day, open', close') ==> open' == open && close' == close
    ensures FirstFailing(DayChecks(w, day, midnight),
                         if w.start < OnClock(midnight, open) || w.end > OnClock(midnight, close)
                           then Some(OutsideHours) else None)
  {
    var checks := DayChecks(w, day, midnight);
    assert Readable(day.startTime.value) && Readable(day.endTime.value);
    hide Shows, Readable, OnClock;
    assert !Fits(w, day, midnight) ==> checks[4] == Check(true, OutsideHours);
  }

  /** Every window gets the first error of these checks, or none. */
  lemma PlacementOutcome(rows: map<nat, Row>, venueId: nat, w: Interval, week: Option<Week<DayDTO>>,
                         exclude: Option<nat>,
                         midnight: Instant, weekday: nat)
    requires w.start < w.end && StartBeforeEnd(rows) && BeginsDay(midnight, weekday, w.start)
    ensures FirstFailing(PlacementChecks(rows, venueId, w, week, exclude, midnight, weekday),
                         PlacementProblem(rows, venueId, w.start, w.end, week, exclude))
  {
    DayBeginsOnce(midnight, weekday, w.start);
    assert midnight <= w.end < midnight + 86_400_000_000_000 <==> SameDay(w.start, w.end);
    ConflictCountMeansTaken(rows, venueId, w.start, w.end, exclude);
    var outer := [Check(!(midnight <= w.end < midnight + 86_400_000_000_000), NotOneDay),
                  Check(week == None, VenueUnavailable)];
    var last := [Check(Taken(rows, venueId, w, exclude), Conflict)];
    var day := if week.Some? then DayChecks(w, Entry(week.value, weekday), midnight) else [];
    var problem := if !SameDay(w.start, w.end) then Some(NotOneDay)
      else if week == None then Some(VenueUnavailable) else None;
    assert FirstFailing(outer, problem) by {
      assert problem == Some(NotOneDay) ==> outer[0] == Check(true, NotOneDay);
      assert problem == Some(VenueUnavailable) ==> outer[1] == Check(true, VenueUnavailable);
    }
    var conflict := if ConflictCount(rows, venueId, w.start, w.end, exclude) > 0 then Some(Conflict) else None;
    assert FirstFailing(last, conflict) by {
      assert conflict.Some? ==> last[0] == Check(true, Conflict);
    }
    hide Taken, ConflictCount, ScheduleProblem, FirstFailing, DayChecks, SameDay, BeginsDay;
    if problem.None? {
      EntryIsDay(week.value, weekday);
      DayOutcome(w, Entry(week.value, weekday), midnight, weekday);
      var schedule := ScheduleProblem(Entry(week.value, weekday), w.start, w.end);
      FirstFailingOfBoth(outer, day, None, schedule);
      FirstFailingOfBoth(outer + day, last, schedule, conflict);
    } else {
      FirstFailingOfBoth(outer, day, problem, None);
      FirstFailingOfBoth(outer + day, last, problem, None);
    }
  }

  // ----- Create -----

  ghost function CreateChecks(rows: map<nat, Row>, c: CreateCall, midnight: Instant, weekday: nat): seq<Check>
    requires weekday < 7
  {
    CallerChecks(c)
    + PlacementChecks(rows, c.req.venueId, Interval(c.req.startAt, c.req.endAt), c.week, None, midnight, weekday)
    + [Check(c.hourPrice == None, VenueUnavailable), Check(c.req.endAt - c.req.startAt < 3_600_000_000_000, TooShort)]
  }

  function CallerChecks(c: CreateCall): seq<Check> {
    [Check(c.req.ownerId == 0, OwnerIdMissing), Check(c.req.startAt == 0, StartEmpty),
     Check(c.req.endAt == 0, EndEmpty),
     Check(c.req.startAt >= c.req.endAt, StartNotBeforeEnd), Check(c.req.startAt < c.now, StartInPast),
     Check(c.req.status == Unset, StatusEmpty), Check(c.claims.role !in {ClientRole, AdminRole}, InvalidRole)]
  }

  function CallerProblem(c: CreateCall): Option<BookingError> {
    if c.req.ownerId == 0 then Some(OwnerIdMissing)
    else if c.req.startAt == ZERO then Some(StartEmpty)
    else if c.req.endAt == ZERO then Some(EndEmpty)
    else if !(c.req.startAt < c.req.endAt) then Some(StartNotBeforeEnd)
    else if c.req.startAt < c.now then Some(StartInPast)
    else if c.req.status == Unset then Some(StatusEmpty)
    else if c.claims.role != ClientRole && c.claims.role != AdminRole then Some(InvalidRole)
    else None
  }

  lemma CallerOutcome(c: CreateCall)
    ensures FirstFailing(CallerChecks(c), CallerProblem(c))
  {
    var checks, p := CallerChecks(c), CallerProblem(c);
    assert p == Some(OwnerIdMissing) ==> checks[0] == Check(true, OwnerIdMissing);
    assert p == Some(StartEmpty) ==> checks[1] == Check(true, StartEmpty);
    assert p == Some(EndEmpty) ==> checks[2] == Check(true, EndEmpty);
    assert p == Some(StartNotBeforeEnd) ==> checks[3] == Check(true, StartNotBeforeEnd);
    assert p == Some(StartInPast) ==> checks[4] == Check(true, StartInPast);
    assert p == Some(StatusEmpty) ==> checks[5] == Check(true, StatusEmpty);
    assert p == Some(InvalidRole) ==> checks[6] == Check(true, InvalidRole);
  }

  lemma CreateIsChecked(rows: map<nat, Row>, c: CreateCall, midnight: Instant, weekday: nat)
    requires StartBeforeEnd(rows) && BeginsDay(midnight, weekday, c.req.startAt)
    ensures FirstFailing(CreateChecks(rows, c, midnight, weekday), CreateProblem(rows, c))
  {
    CallerOutcome(c);
    var w := Interval(c.req.startAt, c.req.endAt);
    var caller, place := CallerChecks(c), PlacementChecks(rows, c.req.venueId, w, c.week, None, midnight, weekday);
    var last := [Check(c.hourPrice == None, VenueUnavailable), Check(w.end - w.start < 3_600_000_000_000, TooShort)];
    var placed := PlacementProblem(rows, c.req.venueId, w.start, w.end, c.week, None);
    var p, late := CallerProblem(c),
      if c.hourPrice.None? then Some(VenueUnavailable) else if w.end - w.start < HOUR then Some(TooShort) else None;
    assert FirstFailing(last, late) by {
      assert late == Some(VenueUnavailable) ==> last[0] == Check(true, VenueUnavailable);
      assert late == Some(TooShort) ==> last[1] == Check(true, TooShort);
    }
    assert CreateProblem(rows, c) == if p.Some? then p else if placed.Some? then placed else late;
    hide FirstFailing, PlacementChecks, CallerChecks, PlacementProblem, CreateProblem, BeginsDay;
    if p.None? {
      PlacementOutcome(rows, c.req.venueId, w, c.week, None, midnight, weekday);
      FirstFailingOfBoth(caller, place, None, placed);
      FirstFailingOfBoth(caller + place, last, placed, late);
    } else {
      FirstFailingOfBoth(caller, place, p, None);
      FirstFailingOfBoth(caller + place, last, p, None);
    }
  }

  /** The event carries every field of the row that it announces. */
  predicate Announces(e: CreatedEvent, r: Row) {
    && e.bookingId == r.id && e.venueId == r.venueId && e.clientId == r.clientId && e.ownerId == r.ownerId
    && e.startAt == r.startAt && e.endAt == r.endAt && e.price == r.price && e.status == r.status
  }

  /** The row is what the call asks for, at the hour price times the hours, and is stored under the next identifier. */
  ghost predicate Booked(t: Table, t': Table, c: CreateCall, row: Row) {
    && t'.rows == t.rows[t.nextId := row] && t'.nextId == t.nextId + 1 && t'.cancelled == t.cancelled
    && row.id == t.nextId && row.venueId == c.req.venueId && row.ownerId == c.req.ownerId
    && row.clientId == c.claims.userId && row.startAt == c.req.startAt && row.endAt == c.req.endAt
    && row.duration == c.req.endAt - c.req.startAt && row.reason == "" && row.status == c.req.status
    && c.hourPrice.Some?
    && row.price * 3_600_000_000_000.0 == c.hourPrice.value * (c.req.endAt - c.req.startAt) as real
    && (if c.published then exists e :: t'.created == t.created + [e] && Announces(e, row) else t'.created == t.created)
  }

  lemma PriceMeans(hourPrice: real, startAt: Instant, endAt: Instant)
    ensures hourPrice * Hours(startAt, endAt) * 3_600_000_000_000.0 == hourPrice * (endAt - startAt) as real
  {
    assert Hours(startAt, endAt) * 3_600_000_000_000.0 == (endAt - startAt) as real;
    assert hourPrice * Hours(startAt, endAt) * 3_600_000_000_000.0
           == hourPrice * (Hours(startAt, endAt) * 3_600_000_000_000.0);
  }

  /**
    A create call gives the first error of its checks and changes nothing, or passes them all and stores and
    announces the row; when publishing fails the row stays and the answer is that error.
   */
  lemma CreateOutcome(t: Table, c: CreateCall, midnight: Instant, weekday: nat)
    requires StartBeforeEnd(t.rows) && BeginsDay(midnight, weekday, c.req.startAt)
    ensures var (t', r) := CreateStep(t, c);
            var passed := r.Ok? || r.error == PublishFailed;
            && FirstFailing(CreateChecks(t.rows, c, midnight, weekday), if passed then None else Some(r.error))
            && (!passed ==> t' == t)
            && (passed ==> t.nextId in t'.rows
                           && r == (if c.published then Ok(t'.rows[t.nextId]) else Err(PublishFailed))
                           && Booked(t, t', c, t'.rows[t.nextId]))
  {
    CreateIsChecked(t.rows, c, midnight, weekday);
    assert CreateProblem(t.rows, c) != Some(PublishFailed);
    if CreateProblem(t.rows, c).None? {
      AcceptedIsBooked(t, c);
    }
    hide CreateProblem, FirstFailing, CreateChecks, Booked, BeginsDay, EventOf, NewRow;
  }

  lemma AcceptedIsBooked(t: Table, c: CreateCall)
    requires CreateProblem(t.rows, c).None?
    ensures c.hourPrice.Some? && Booked(t, CreateStep(t, c).0, c, NewRow(c, t.nextId))
  {
    assert c.hourPrice.Some?;
    hide PlacementProblem;
    var row := NewRow(c, t.nextId);
    PriceMeans(c.hourPrice.value, c.req.startAt, c.req.endAt);
    assert Announces(EventOf(row), row);
  }

  // ----- Cancel -----

  /**
    A cancellation fails on an unknown row and on one that is cancelled or completed, and changes nothing then.
    Otherwise the row becomes cancelled with the reason, the event names both, and nothing else changes.
   */
  lemma CancelOutcome(t: Table, id: nat, reason: string, published: bool)
    ensures var (t', r) := CancelStep(t, id, reason, published);
            && (r == Err(NotFound) <==> id !in t.rows)
            && (r == Err(CannotCancel) <==> id in t.rows && t.rows[id].status in {Cancelled, Completed})
            && (r.Err? ==> t' == t && r.error in {NotFound, CannotCancel})
            && (r.Ok? ==>
                  && id in t.rows && t'.rows == t.rows[id := r.value] && t'.nextId == t.nextId
                     && t'.created == t.created
                  && r.value.status == Cancelled && r.value.reason == reason
                  && r.value.(status := t.rows[id].status, reason := t.rows[id].reason) == t.rows[id]
                  && t'.cancelled == t.cancelled + if published then [CancelledEvent(id, reason)] else [])
  {
  }

  // ----- Update -----

  ghost function UpdateChecks(rows: map<nat, Row>, id: nat, u: UpdateRequest, now: Instant, week: Option<Week<DayDTO>>,
                              venueId: nat, w: Interval, midnight: Instant, weekday: nat): seq<Check>
    requires weekday < 7 && id in rows
  {
    RequestChecks(u, now, w)
    + PlacementChecks(rows, venueId, w, week, Some(id), midnight, weekday)
    + [Check(u.price.Some? && u.price.value <= 0.0, PriceNotPositive), Check(rows[id].status != Pending, NotPending)]
  }

  function RequestChecks(u: UpdateRequest, now: Instant, w: Interval): seq<Check> {
    [Check(u.clientId == Some(0), ClientIdMissing), Check(u.ownerId == Some(0), OwnerIdMissing),
     Check(u.startAt == Some(0), StartEmpty), Check(u.endAt == Some(0), EndEmpty),
     Check(w.start >= w.end, StartNotBeforeEnd), Check(w.start < now, StartInPast)]
  }

  lemma RequestOutcome(r: Row, u: UpdateRequest, now: Instant, venueId: nat, w: Interval)
    requires Moves(r, u, venueId, w)
    ensures FirstFailing(RequestChecks(u, now, w), RequestProblem(r, u, now))
  {
    var checks, p := RequestChecks(u, now, w), RequestProblem(r, u, now);
    assert p == Some(ClientIdMissing) ==> checks[0] == Check(true, ClientIdMissing);
    assert p == Some(OwnerIdMissing) ==> checks[1] == Check(true, OwnerIdMissing);
    assert p == Some(StartEmpty) ==> checks[2] == Check(true, StartEmpty);
    assert p == Some(EndEmpty) ==> checks[3] == Check(true, EndEmpty);
    assert p == Some(StartNotBeforeEnd) ==> checks[4] == Check(true, StartNotBeforeEnd);
    assert p == Some(StartInPast) ==> checks[5] == Check(true, StartInPast);
  }

  lemma UpdateIsChecked(rows: map<nat, Row>, id: nat, u: UpdateRequest, now: Instant, week: Option<Week<DayDTO>>,
                        venueId: nat, w: Interval, midnight: Instant, weekday: nat)
    requires StartBeforeEnd(rows) && id in rows && Moves(rows[id], u, venueId, w)
             && BeginsDay(midnight, weekday, w.start)
    ensures FirstFailing(UpdateChecks(rows, id, u, now, week, venueId, w, midnight, weekday),
                         UpdateProblem(rows, id, u, now, week))
  {
    RequestOutcome(rows[id], u, now, venueId, w);
    assert Updated(rows[id], u).venueId == venueId && Window(Updated(rows[id], u)) == w;
    var request, place := RequestChecks(u, now, w),
      PlacementChecks(rows, venueId, w, week, Some(id), midnight, weekday);
    var last := [Check(u.price.Some? && u.price.value <= 0.0, PriceNotPositive),
                 Check(rows[id].status != Pending, NotPending)];
    var p, placed, late := RequestProblem(rows[id], u, now),
      PlacementProblem(rows, venueId, w.start, w.end, week, Some(id)), ChangeProblem(rows[id], u);
    assert FirstFailing(last, late) by {
      assert late == Some(PriceNotPositive) ==> last[0] == Check(true, PriceNotPositive);
      assert late == Some(NotPending) ==> last[1] == Check(true, NotPending);
    }
    assert UpdateProblem(rows, id, u, now, week) == if p.Some? then p else if placed.Some? then placed else late;
    assert p.None? ==> w.start < w.end;
    hide FirstFailing, PlacementChecks, RequestChecks, PlacementProblem, UpdateProblem, RequestProblem, ChangeProblem,
      BeginsDay;
    if p.None? {
      PlacementOutcome(rows, venueId, w, week, Some(id), midnight, weekday);
      FirstFailingOfBoth(request, place, None, placed);
      FirstFailingOfBoth(request + place, last, placed, late);
    } else {
      FirstFailingOfBoth(request, place, p, None);
      FirstFailingOfBoth(request + place, last, p, None);
    }
  }

  /** Every field is the one asked for or the old one; identifier, status, reason and duration are the old ones. */
  ghost predicate Changed(r: Row, u: UpdateRequest, r': Row) {
    && Asked(u.venueId, r.venueId, r'.venueId) && Asked(u.clientId, r.clientId, r'.clientId)
    && Asked(u.ownerId, r.ownerId, r'.ownerId) && Asked(u.startAt, r.startAt, r'.startAt)
    && Asked(u.endAt, r.endAt, r'.endAt) && Asked(u.price, r.price, r'.price)
    && r'.id == r.id && r'.status == r.status && r'.reason == r.reason && r'.duration == r.duration
  }

  /** What is stored and what is validated in interleaved updates too: the copy of the row, changed as asked. */
  lemma UpdatedMeans(r: Row, u: UpdateRequest, r': Row)
    ensures Changed(r, u, r') <==> r' == Updated(r, u)
  {
  }

  /**
    An update of an unknown row is refused. Otherwise it gives the first error of its checks and changes
    nothing, or passes them all and stores the row changed as asked; the answer has the new duration.
   */
  lemma UpdateOutcome(t: Table, id: nat, u: UpdateRequest, now: Instant, week: Option<Week<DayDTO>>,
                      venueId: nat, w: Interval, midnight: Instant, weekday: nat)
    requires StartBeforeEnd(t.rows) && (id in t.rows ==> Moves(t.rows[id], u, venueId, w))
    requires BeginsDay(midnight, weekday, w.start)
    ensures var (t', r) := UpdateStep(t, id, u, now, week);
            && (id !in t.rows ==> r == Err(NotFound))
            && (id in t.rows ==> FirstFailing(UpdateChecks(t.rows, id, u, now, week, venueId, w, midnight, weekday),
                                              if r.Ok? then None else Some(r.error)))
            && (r.Err? ==> t' == t)
            && (r.Ok? ==>
                  && id in t.rows && id in t'.rows && t'.rows == t.rows[id := t'.rows[id]]
                  && t'.(rows := t.rows) == t && Changed(t.rows[id], u, t'.rows[id])
                  && r.value == t'.rows[id].(duration := w.end - w.start))
  {
    if id in t.rows {
      UpdateIsChecked(t.rows, id, u, now, week, venueId, w, midnight, weekday);
      assert Window(Updated(t.rows[id], u)) == w;
    }
    hide UpdateProblem, FirstFailing, BeginsDay;
  }
}
