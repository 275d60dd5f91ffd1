/**
  The reservation service: the booking table it changes in place, and the calls it answers.
  The venue service's answers, the clock and the outcome of publishing are parameters.
 */
module BookingService {
  import opened Common
  import opened Time
  import opened ClockText
  import opened VenueSchedule
  import opened Sweep
  import opened Bookings
  import opened OpeningHours
  import opened Availability

  /** Sorts by start; callers know nothing about the order it leaves among equal starts. */
  method SortByStart(intervals: seq<Interval>) returns (sorted: seq<Interval>)
    ensures SortedByStart(sorted) && multiset(sorted) == multiset(intervals)
  {
    sorted := [];
    for n := 0 to |intervals|
      invariant SortedByStart(sorted) && multiset(sorted) == multiset(intervals[..n])
    {
      var it := intervals[n];
      assert intervals[..n + 1] == intervals[..n] + [it];
      sorted := InsertByStart(sorted, it);
    }
    assert intervals[..|intervals|] == intervals;
  }

  method InsertByStart(sorted: seq<Interval>, it: Interval) returns (r: seq<Interval>)
    requires SortedByStart(sorted)
    ensures SortedByStart(r) && multiset(r) == multiset(sorted) + multiset{it}
  {
    var k := 0;
    while k < |sorted| && sorted[k].start < it.start
      invariant k <= |sorted|
      invariant forall i :: 0 <= i < k ==> sorted[i].start < it.start
    {
      k := k + 1;
    }
    r := Inserted(sorted, k, it);
    InsertionIsSorted(sorted, k, it);
  }

  function Inserted(sorted: seq<Interval>, k: nat, it: Interval): seq<Interval>
    requires k <= |sorted|
  {
    sorted[..k] + [it] + sorted[k..]
  }

  lemma InsertedPair(sorted: seq<Interval>, k: nat, it: Interval, i: nat, j: nat)
    requires SortedByStart(sorted) && k <= |sorted|
    requires (forall m :: 0 <= m < k ==> sorted[m].start <= it.start)
    requires k < |sorted| ==> it.start <= sorted[k].start
    requires i < j < |Inserted(sorted, k, it)|
    ensures Inserted(sorted, k, it)[i].start <= Inserted(sorted, k, it)[j].start
  {
    assert j > k ==> sorted[k].start <= sorted[j - 1].start;
  }

  lemma InsertionIsSorted(sorted: seq<Interval>, k: nat, it: Interval)
    requires SortedByStart(sorted) && k <= |sorted|
    requires (forall m :: 0 <= m < k ==> sorted[m].start <= it.start)
    requires k < |sorted| ==> it.start <= sorted[k].start
    ensures SortedByStart(Inserted(sorted, k, it))
    ensures multiset(Inserted(sorted, k, it)) == multiset(sorted) + multiset{it}
  {
    hide Inserted;
    forall i, j | 0 <= i < j < |Inserted(sorted, k, it)|
      ensures Inserted(sorted, k, it)[i].start <= Inserted(sorted, k, it)[j].start
    {
      InsertedPair(sorted, k, it, i, j);
    }
    InsertedElements(sorted, k, it);
  }

  lemma InsertedElements(sorted: seq<Interval>, k: nat, it: Interval)
    requires k <= |sorted|
    ensures multiset(Inserted(sorted, k, it)) == multiset(sorted) + multiset{it}
  {
    assert sorted == sorted[..k] + sorted[k..];
  }

  /** Without bookings the answer is the whole working day, if that is an hour or more. */
  lemma EmptyDay(venueStart: Instant, venueEnd: Instant)
    ensures LongOnly(Gaps(venueStart, [], venueEnd))
            == if venueEnd - venueStart >= HOUR then [Interval(venueStart, venueEnd)] else []
  {
    var day := Interval(venueStart, venueEnd);
    assert LongOnly([day]) == (if Long(day) then [day] else []) + LongOnly([]);
  }

  /** One step of the sweep. */
  lemma GapsStep(slots: seq<Interval>, prev: Instant, its: seq<Interval>, close: Instant)
    requires its != []
    ensures slots + Gaps(prev, its, close)
            == (if its[0].start > prev then slots + [Interval(prev, its[0].start)] else slots)
               + Gaps(if its[0].end > prev then its[0].end else prev, its[1..], close)
  {
  }

  /** A listing of the venue's rows whose identifiers are not in `rest`. */
  ghost predicate ListedExcept(bookings: seq<Row>, rows: map<nat, Row>, venueId: nat, rest: set<nat>) {
    && (forall k :: 0 <= k < |bookings| ==>
          bookings[k].venueId == venueId && bookings[k].id in rows && rows[bookings[k].id] == bookings[k]
            && bookings[k].id !in rest)
    && (forall id :: id in rows && id !in rest && rows[id].venueId == venueId ==> rows[id] in bookings)
    && (forall k, l :: 0 <= k < l < |bookings| ==> bookings[k].id != bookings[l].id)
  }

  lemma ListOneMore(bookings: seq<Row>, rows: map<nat, Row>, venueId: nat, rest: set<nat>, id: nat)
    requires ListedExcept(bookings, rows, venueId, rest) && id in rest && id in rows && rows[id].id == id
    ensures ListedExcept(bookings + (if rows[id].venueId == venueId then [rows[id]] else []), rows, venueId,
                         rest - {id})
  {
    var added := if rows[id].venueId == venueId then [rows[id]] else [];
    forall other | other in rows && other !in rest - {id} && rows[other].venueId == venueId
      ensures rows[other] in bookings + added
    {
      if other == id {
        assert rows[id] in added;
      }
    }
  }

  class Service {
    var rows: map<nat, Row>
    var nextId: nat
    var created: seq<CreatedEvent>
    var cancelled: seq<CancelledEvent>

    ghost function State(): Table
      reads this
    {
      Table(rows, nextId, created, cancelled)
    }

    ghost predicate Valid()
      reads this
    {
      Invariant(State())
    }

    constructor ()
      ensures Valid() && State() == EMPTY_TABLE
    {
      rows, nextId, created, cancelled := map[], 1, [], [];
    }

    // ----- The repository -----

    /** Stores a new row under the next identifier. */
    method Insert(row: Row) returns (stored: Row)
      modifies this`rows, this`nextId
      ensures stored == row.(id := old(nextId))
      ensures State() == old(State()).(rows := old(rows)[stored.id := stored], nextId := old(nextId) + 1)
    {
      stored := row.(id := nextId);
      rows := rows[nextId := stored];
      nextId := nextId + 1;
    }

    method Save(row: Row)
      modifies this`rows
      ensures State() == old(State()).(rows := old(rows)[row.id := row])
    {
      rows := rows[row.id := row];
    }

    method GetByID(id: nat) returns (row: Option<Row>)
      ensures row == if id in rows then Some(rows[id]) else None
    {
      row := if id in rows then Some(rows[id]) else None;
    }

    /** The rows of a venue, in an order of the database's choice. */
    method GetVenueBookings(venueId: nat) returns (bookings: seq<Row>)
      requires forall id :: id in rows ==> rows[id].id == id
      ensures IsListing(bookings, rows, venueId)
    {
      bookings := [];
      var stored := rows;
      var ids := stored.Keys;
      assert ListedExcept(bookings, stored, venueId, ids);
      while ids != {}
        invariant ids <= stored.Keys && ListedExcept(bookings, stored, venueId, ids)
        decreases |ids|
      {
        var id :| id in ids;
        assert stored[id].id == id;
        ListOneMore(bookings, stored, venueId, ids, id);
        ids := ids - {id};
        if stored[id].venueId == venueId {
          bookings := bookings + [stored[id]];
        }
      }
    }

    // ----- Availability -----

    /** The free slots of a venue on the day of `date`. */
    method GetVenueAvailability(venueId: nat, date: Instant, week: Option<Week<DayDTO>>)
      returns (r: Result<seq<Interval>, BookingError>)
      requires RowsStored(rows, nextId)
      ensures AvailabilityAnswer(rows, venueId, date, week, r)
      ensures forall hours :: RowsWellFormed(State()) && week.Some? && OpenOn(week.value, date, hours) && r.Ok? ==>
                IsSlotList(r.value, hours, Busy(rows, venueId))
    {
      hide AvailabilityAnswer, OpenOn, IsSlotList, BusyOn, RowsWellFormed;
      if week.None? {
        r := Err(VenueUnavailable);
        AnswerIsSound(State(), venueId, date, week, r);
        return;
      }
      var day := week.value.Day(WeekdayOf(date));
      if !day.enabled {
        r := Ok([]);
        AnswerIsSound(State(), venueId, date, week, r);
        return;
      }
      if day.startTime.None? || day.endTime.None? {
        r := Err(HoursMissing);
        AnswerIsSound(State(), venueId, date, week, r);
        return;
      }
      var tStart := ParseClock(day.startTime.value);
      if tStart.None? {
        r := Err(BadOpeningTime);
        AnswerIsSound(State(), venueId, date, week, r);
        return;
      }
      var tEnd := ParseClock(day.endTime.value);
      if tEnd.None? {
        r := Err(BadClosingTime);
        AnswerIsSound(State(), venueId, date, week, r);
        return;
      }
      var venueStart := At(DayOf(date), tStart.value.hour, tStart.value.minute);
      var venueEnd := At(DayOf(date), tEnd.value.hour, tEnd.value.minute);
      var slots := FreeSlots(venueId, date, venueStart, venueEnd);
      r := Ok(slots);
      AnswerIsSound(State(), venueId, date, week, r);
    }

    /** Collect, sort, sweep, and keep the gaps of at least an hour. */
    method FreeSlots(venueId: nat, date: Instant, venueStart: Instant, venueEnd: Instant) returns (slots: seq<Interval>)
      requires RowsStored(rows, nextId)
      ensures IsSlotList(slots, Interval(venueStart, venueEnd), BusyOn(rows, venueId, date))
    {
      var bookings := GetVenueBookings(venueId);
      var intervals := CollectIntervals(bookings, date, venueStart, venueEnd);
      intervals := SortByStart(intervals);
      SweepGivesSlotList(rows, venueId, bookings, intervals, date, Interval(venueStart, venueEnd));
      var gaps := FreeGaps(intervals, venueStart, venueEnd);
      slots := KeepLong(gaps);
      if |intervals| == 0 {
        EmptyDay(venueStart, venueEnd);
        if venueEnd - venueStart >= HOUR {
          return [Interval(venueStart, venueEnd)];
        }
        return [];
      }
    }

    /** Drops cancelled rows, rows of other days and rows outside the working hours, and clips the rest. */
    static method CollectIntervals(bookings: seq<Row>, date: Instant, venueStart: Instant, venueEnd: Instant)
      returns (intervals: seq<Interval>)
      ensures intervals == ClipAll(bookings, date, Interval(venueStart, venueEnd))
    {
      intervals := [];
      for n := 0 to |bookings|
        invariant intervals == ClipAll(bookings[..n], date, Interval(venueStart, venueEnd))
      {
        assert bookings[..n + 1][..n] == bookings[..n];
        var b := bookings[n];
        if b.status == Cancelled {
          continue;
        }
        if DayOf(b.startAt) != DayOf(date) {
          continue;
        }
        if b.endAt < venueStart || b.startAt > venueEnd {
          continue;
        }
        var s := b.startAt;
        if s < venueStart {
          s := venueStart;
        }
        var e := b.endAt;
        if e > venueEnd {
          e := venueEnd;
        }
        intervals := intervals + [Interval(s, e)];
      }
      assert bookings[..|bookings|] == bookings;
    }

    /** One pass over the intervals, keeping the latest end seen. */
    static method FreeGaps(intervals: seq<Interval>, venueStart: Instant, venueEnd: Instant)
      returns (slots: seq<Interval>)
      ensures slots == Gaps(venueStart, intervals, venueEnd)
    {
      slots := [];
      var prev := venueStart;
      for n := 0 to |intervals|
        invariant slots + Gaps(prev, intervals[n..], venueEnd) == Gaps(venueStart, intervals, venueEnd)
      {
        var it := intervals[n];
        GapsStep(slots, prev, intervals[n..], venueEnd);
        assert intervals[n..][1..] == intervals[n + 1..];
        if it.start > prev {
          slots := slots + [Interval(prev, it.start)];
        }
        if it.end > prev {
          prev := it.end;
        }
      }
      if prev < venueEnd {
        slots := slots + [Interval(prev, venueEnd)];
      }
    }

    static method KeepLong(slots: seq<Interval>) returns (filtered: seq<Interval>)
      ensures filtered == LongOnly(slots)
    {
      filtered := [];
      for n := 0 to |slots|
        invariant filtered == LongOnly(slots[..n])
      {
        assert slots[..n + 1] == slots[..n] + [slots[n]];
        LongOnlyAppend(slots[..n], slots[n]);
        if slots[n].end - slots[n].start >= HOUR {
          filtered := filtered + [slots[n]];
        }
      }
      assert slots[..|slots|] == slots;
    }

    // ----- Create, cancel, update -----

    method ValidateReservation(venueId: nat, startAt: Instant, endAt: Instant, week: Option<Week<DayDTO>>,
                               exclude: Option<nat>)
      returns (problem: Option<BookingError>)
      ensures problem == PlacementProblem(rows, venueId, startAt, endAt, week, exclude)
      ensures problem.None? ==> ConflictCount(rows, venueId, startAt, endAt, exclude) == 0
    {
      if DayOf(startAt) != DayOf(endAt) {
        return Some(NotOneDay);
      }
      if week.None? {
        return Some(VenueUnavailable);
      }
      problem := ScheduleProblem(week.value.Day(WeekdayOf(startAt)), startAt, endAt);
      if problem.Some? {
        return;
      }
      if ConflictCount(rows, venueId, startAt, endAt, exclude) > 0 {
        return Some(Conflict);
      }
    }

    method CreateReservation(c: CreateCall) returns (r: Result<Row, BookingError>)
      requires Valid()
      modifies this
      ensures (State(), r) == CreateStep(old(State()), c)
      ensures Valid() && Evolves(old(State()), State())
    {
      hide Invariant, Evolves, PlacementProblem, ConflictCount;
      CreateKeepsInvariant(State(), c);
      if c.req.ownerId <= 0 {
        return Err(OwnerIdMissing);
      }
      if c.req.startAt == ZERO {
        return Err(StartEmpty);
      }
      if c.req.endAt == ZERO {
        return Err(EndEmpty);
      }
      if !(c.req.startAt < c.req.endAt) {
        return Err(StartNotBeforeEnd);
      }
      if c.req.startAt < c.now {
        return Err(StartInPast);
      }
      if c.req.status == Unset {
        return Err(StatusEmpty);
      }
      if c.claims.role != ClientRole && c.claims.role != AdminRole {
        return Err(InvalidRole);
      }
      var problem := ValidateReservation(c.req.venueId, c.req.startAt, c.req.endAt, c.week, None);
      if problem.Some? {
        return Err(problem.value);
      }
      if c.hourPrice.None? {
        return Err(VenueUnavailable);
      }
      var duration := c.req.endAt - c.req.startAt;
      var row := Row(0, c.req.venueId, c.claims.userId, c.req.ownerId, c.req.startAt, c.req.endAt,
                     c.hourPrice.value * Hours(c.req.startAt, c.req.endAt), duration, "", c.req.status);
      if duration < HOUR {
        return Err(TooShort);
      }
      if ConflictCount(rows, c.req.venueId, c.req.startAt, c.req.endAt, None) > 0 {
        return Err(Conflict);
      }
      assert CreateProblem(rows, c).None?;
      row := Insert(row);
      assert row == NewRow(c, old(nextId));
      if !c.published {
        return Err(PublishFailed);
      }
      created := created + [EventOf(row)];
      r := Ok(row);
    }

    method ReservationCancel(id: nat, reason: string, published: bool) returns (r: Result<Row, BookingError>)
      requires Valid()
      modifies this
      ensures (State(), r) == CancelStep(old(State()), id, reason, published)
      ensures Valid() && Evolves(old(State()), State())
    {
      CancelKeepsInvariant(State(), id, reason, published);
      var found := GetByID(id);
      if found.None? {
        return Err(NotFound);
      }
      var row := found.value;
      if row.status == Cancelled || row.status == Completed {
        return Err(CannotCancel);
      }
      row := row.(status := Cancelled);
      row := row.(reason := reason);
      Save(row);
      if published {
        cancelled := cancelled + [CancelledEvent(row.id, reason)];
      }
      r := Ok(row);
    }

    method ReservationUpdate(id: nat, u: UpdateRequest, now: Instant, week: Option<Week<DayDTO>>)
      returns (r: Result<Row, BookingError>)
      requires Valid()
      modifies this
      ensures (State(), r) == UpdateStep(old(State()), id, u, now, week)
      ensures Valid() && Evolves(old(State()), State())
    {
      hide Invariant, Evolves, PlacementProblem, ConflictCount;
      UpdateKeepsInvariant(State(), id, u, now, week);
      var found := GetByID(id);
      if found.None? {
        return Err(NotFound);
      }
      var row := found.value;
      RowKeepsItsId(State(), id);
      if u.clientId.Some? && u.clientId.value <= 0 {
        return Err(ClientIdMissing);
      }
      if u.ownerId.Some? && u.ownerId.value <= 0 {
        return Err(OwnerIdMissing);
      }
      if u.startAt.Some? && u.startAt.value == ZERO {
        return Err(StartEmpty);
      }
      if u.endAt.Some? && u.endAt.value == ZERO {
        return Err(EndEmpty);
      }
      ghost var target := Updated(row, u);
      var finalStartAt := if u.startAt.Some? then u.startAt.value else row.startAt;
      var finalEndAt := if u.endAt.Some? then u.endAt.value else row.endAt;
      assert finalStartAt == target.startAt && finalEndAt == target.endAt;
      if !(finalStartAt < finalEndAt) {
        return Err(StartNotBeforeEnd);
      }
      if finalStartAt < now {
        return Err(StartInPast);
      }
      var venueId := if u.venueId.Some? then u.venueId.value else row.venueId;
      assert venueId == target.venueId;
      var problem := ValidateReservation(venueId, finalStartAt, finalEndAt, week, Some(id));
      if problem.Some? {
        return Err(problem.value);
      }
      if u.price.Some? && u.price.value <= 0.0 {
        return Err(PriceNotPositive);
      }
      if row.status != Pending {
        return Err(NotPending);
      }
      assert UpdateProblem(rows, id, u, now, week).None?;
      if u.venueId.Some? {
        row := row.(venueId := u.venueId.value);
      }
      if u.clientId.Some? {
        row := row.(clientId := u.clientId.value);
      }
      if u.ownerId.Some? {
        row := row.(ownerId := u.ownerId.value);
      }
      if u.startAt.Some? {
        row := row.(startAt := u.startAt.value);
      }
      if u.endAt.Some? {
        row := row.(endAt := u.endAt.value);
      }
      if u.price.Some? {
        row := row.(price := u.price.value);
      }
      assert row == target;
      Save(row);
      row := row.(duration := row.endAt - row.startAt);
      r := Ok(row);
    }
  }
}
