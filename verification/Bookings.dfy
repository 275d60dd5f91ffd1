/**
  The booking table of the reservation service and its three operations, each taken as one atomic
  step on the table and the two event logs, with the invariants that every run keeps.
 */
module Bookings {
  import opened Common
  import opened Time
  import opened ClockText
  import opened Sweep
  import opened VenueSchedule

  datatype Status = Unset | Pending | Confirmed | Cancelled | Completed | OtherStatus(text: string)

  datatype Role = OwnerRole | ClientRole | AdminRole | OtherRole(text: string)

  datatype Claims = Claims(userId: nat, role: Role)

  datatype Row = Row(id: nat, venueId: nat, clientId: nat, ownerId: nat, startAt: Instant, endAt: Instant,
                     price: real, duration: int, reason: string, status: Status)

  datatype CreatedEvent = CreatedEvent(bookingId: nat, venueId: nat, clientId: nat, ownerId: nat,
                                       startAt: Instant, endAt: Instant, price: real, status: Status)

  datatype CancelledEvent = CancelledEvent(bookingId: nat, reason: string)

  /** The stored rows, the next identifier, and what has been published on the two topics. */
  datatype Table = Table(rows: map<nat, Row>, nextId: nat, created: seq<CreatedEvent>, cancelled: seq<CancelledEvent>)

  const EMPTY_TABLE := Table(map[], 1, [], [])

  datatype BookingError =
    | NotFound | OwnerIdMissing | ClientIdMissing | StartEmpty | EndEmpty | StartNotBeforeEnd | StartInPast
    | StatusEmpty | InvalidRole | NotOneDay | VenueUnavailable | DayClosed | HoursMissing
    | BadOpeningTime | BadClosingTime | OutsideHours | Conflict | TooShort | PublishFailed
    | CannotCancel | PriceNotPositive | NotPending

  function Window(r: Row): Interval {
    Interval(r.startAt, r.endAt)
  }

  /** The part of the day the client pays for, in hours. */
  function Hours(startAt: Instant, endAt: Instant): real {
    (endAt - startAt) as real / HOUR as real
  }

  // ----- Checks -----

  /** The three alternatives of the conflict query. */
  predicate ConflictsWith(r: Row, startAt: Instant, endAt: Instant) {
    || (r.startAt < endAt && r.endAt > endAt)
    || (r.startAt < startAt && r.endAt > startAt)
    || (r.startAt >= startAt && r.endAt <= endAt)
  }

  /** The rows that the conflict query selects; it does not look at their status. */
  function ConflictIds(rows: map<nat, Row>, venueId: nat, startAt: Instant, endAt: Instant, exclude: Option<nat>)
    : set<nat>
  {
    set id | id in rows && rows[id].venueId == venueId && (exclude.None? || id != exclude.value)
             && ConflictsWith(rows[id], startAt, endAt)
  }

  function ConflictCount(rows: map<nat, Row>, venueId: nat, startAt: Instant, endAt: Instant, exclude: Option<nat>)
    : nat
  {
    |ConflictIds(rows, venueId, startAt, endAt, exclude)|
  }

  /** The opening hours of a day as texts, read by the reservation service. */
  function ReadHours(day: DayDTO): Result<(Clock, Clock), BookingError> {
    if !day.enabled then Err(DayClosed)
    else if day.startTime.None? || day.endTime.None? then Err(HoursMissing)
    else match ParseClock(day.startTime.value)
      case None => Err(BadOpeningTime)
      case Some(open) =>
        match ParseClock(day.endTime.value)
        case None => Err(BadClosingTime)
        case Some(close) => Ok((open, close))
  }

  /** Opening is put on the day of the start, closing on the day of the end. */
  function ScheduleProblem(day: DayDTO, startAt: Instant, endAt: Instant): Option<BookingError> {
    match ReadHours(day)
    case Err(e) => Some(e)
    case Ok((open, close)) =>
      if startAt < At(DayOf(startAt), open.hour, open.minute) || endAt > At(DayOf(endAt), close.hour, close.minute)
      then Some(OutsideHours) else None
  }

  /** The checks that create and update share. */
  function PlacementProblem(rows: map<nat, Row>, venueId: nat, startAt: Instant, endAt: Instant,
                            week: Option<Week<DayDTO>>, exclude: Option<nat>): Option<BookingError>
  {
    if !SameDay(startAt, endAt) then Some(NotOneDay)
    else match week
      case None => Some(VenueUnavailable)
      case Some(w) =>
        var problem := ScheduleProblem(w.Day(WeekdayOf(startAt)), startAt, endAt);
        if problem.Some? then problem
        else if ConflictCount(rows, venueId, startAt, endAt, exclude) > 0 then Some(Conflict)
        else None
  }

  // ----- Operations -----

  datatype CreateRequest = CreateRequest(venueId: nat, ownerId: nat, startAt: Instant, endAt: Instant, status: Status)

  /**
    A create call: the request, the caller, the clock, the venue
    service's two answers, and whether publishing works.
   */
  datatype CreateCall = CreateCall(req: CreateRequest, claims: Claims, now: Instant,
                                   week: Option<Week<DayDTO>>, hourPrice: Option<real>, published: bool)

  function CreateProblem(rows: map<nat, Row>, c: CreateCall): Option<BookingError> {
    if c.req.ownerId == 0 then Some(OwnerIdMissing)
    else if c.req.startAt == ZERO then Some(StartEmpty)
    else if c.req.endAt == ZERO then Some(EndEmpty)
    else if !(c.req.startAt < c.req.endAt) then Some(StartNotBeforeEnd)
    else if c.req.startAt < c.now then Some(StartInPast)
    else if c.req.status == Unset then Some(StatusEmpty)
    else if c.claims.role != ClientRole && c.claims.role != AdminRole then Some(InvalidRole)
    else
      var placement := PlacementProblem(rows, c.req.venueId, c.req.startAt, c.req.endAt, c.week, None);
      if placement.Some? then placement
      else if c.hourPrice.None? then Some(VenueUnavailable)
      else if c.req.endAt - c.req.startAt < HOUR then Some(TooShort)
      else None
  }

  /** The hour price times the hours requested. */
  function PriceOf(c: CreateCall): real
    requires c.hourPrice.Some?
  {
    c.hourPrice.value * Hours(c.req.startAt, c.req.endAt)
  }

  function NewRow(c: CreateCall, id: nat): Row
    requires c.hourPrice.Some?
  {
    Row(id, c.req.venueId, c.claims.userId, c.req.ownerId, c.req.startAt, c.req.endAt,
        PriceOf(c), c.req.endAt - c.req.startAt, "", c.req.status)
  }

  function EventOf(r: Row): CreatedEvent {
    CreatedEvent(r.id, r.venueId, r.clientId, r.ownerId, r.startAt, r.endAt, r.price, r.status)
  }

  /** An accepted row stays even when its event cannot be published. */
  function CreateStep(t: Table, c: CreateCall): (Table, Result<Row, BookingError>) {
    match CreateProblem(t.rows, c)
    case Some(e) => (t, Err(e))
    case None =>
      var row := NewRow(c, t.nextId);
      var t' := t.(rows := t.rows[row.id := row], nextId := t.nextId + 1);
      if c.published then (t'.(created := t.created + [EventOf(row)]), Ok(row)) else (t', Err(PublishFailed))
  }

  /** A failed publication of a cancellation is only logged. */
  function CancelStep(t: Table, id: nat, reason: string, published: bool): (Table, Result<Row, BookingError>) {
    if id !in t.rows then (t, Err(NotFound))
    else if t.rows[id].status == Cancelled || t.rows[id].status == Completed then (t, Err(CannotCancel))
    else
      var row := t.rows[id].(status := Cancelled, reason := reason);
      var t' := t.(rows := t.rows[id := row]);
      ((if published then t'.(cancelled := t.cancelled + [CancelledEvent(id, reason)]) else t'), Ok(row))
  }

  datatype UpdateRequest = UpdateRequest(venueId: Option<nat>, clientId: Option<nat>, ownerId: Option<nat>,
                                         startAt: Option<Instant>, endAt: Option<Instant>, price: Option<real>)

  function Or<T>(o: Option<T>, otherwise: T): T {
    match o
    case None => otherwise
    case Some(v) => v
  }

  /** The row with the requested fields replaced; the stored duration and, unless given, the price stay. */
  function Updated(r: Row, u: UpdateRequest): Row {
    r.(venueId := Or(u.venueId, r.venueId), clientId := Or(u.clientId, r.clientId), ownerId := Or(u.ownerId, r.ownerId),
       startAt := Or(u.startAt, r.startAt), endAt := Or(u.endAt, r.endAt), price := Or(u.price, r.price))
  }

  /** The checks of an update on the row it has read that come before validation. */
  function RequestProblem(r: Row, u: UpdateRequest, now: Instant): Option<BookingError> {
    if u.clientId == Some(0) then Some(ClientIdMissing)
    else if u.ownerId == Some(0) then Some(OwnerIdMissing)
    else if u.startAt == Some(ZERO) then Some(StartEmpty)
    else if u.endAt == Some(ZERO) then Some(EndEmpty)
    else if !(Updated(r, u).startAt < Updated(r, u).endAt) then Some(StartNotBeforeEnd)
    else if Updated(r, u).startAt < now then Some(StartInPast)
    else None
  }

  /** The checks of an update on the row it has read that come after validation. */
  function ChangeProblem(r: Row, u: UpdateRequest): Option<BookingError> {
    if u.price.Some? && u.price.value <= 0.0 then Some(PriceNotPositive)
    else if r.status != Pending then Some(NotPending)
    else None
  }

  function UpdateProblem(rows: map<nat, Row>, id: nat, u: UpdateRequest, now: Instant, week: Option<Week<DayDTO>>)
    : Option<BookingError>
  {
    if id !in rows then Some(NotFound)
    else if RequestProblem(rows[id], u, now).Some? then RequestProblem(rows[id], u, now)
    else
      var row := Updated(rows[id], u);
      var placement := PlacementProblem(rows, row.venueId, row.startAt, row.endAt, week, Some(id));
      if placement.Some? then placement else ChangeProblem(rows[id], u)
  }

  /** The answer carries the new duration, the stored row does not. */
  function UpdateStep(t: Table, id: nat, u: UpdateRequest, now: Instant, week: Option<Week<DayDTO>>)
    : (Table, Result<Row, BookingError>)
  {
    match UpdateProblem(t.rows, id, u, now, week)
    case Some(e) => (t, Err(e))
    case None =>
      var row := Updated(t.rows[id], u);
      (t.(rows := t.rows[id := row]), Ok(row.(duration := row.endAt - row.startAt)))
  }

  // ----- The conflict query means overlap -----

  /** The three alternatives together say that the two half-open windows share an instant. */
  lemma ConflictMeansOverlap(r: Row, startAt: Instant, endAt: Instant)
    requires r.startAt < r.endAt && startAt < endAt
    ensures ConflictsWith(r, startAt, endAt)
            <==> exists t :: Contains(Window(r), t) && Contains(Interval(startAt, endAt), t)
    ensures ConflictsWith(r, startAt, endAt) <==> Overlaps(Window(r), Interval(startAt, endAt))
  {
    var t := if r.startAt < startAt then startAt else r.startAt;
    if ConflictsWith(r, startAt, endAt) {
      assert Contains(Window(r), t) && Contains(Interval(startAt, endAt), t);
    }
  }

  ghost predicate StartBeforeEnd(rows: map<nat, Row>) {
    forall id :: id in rows ==> rows[id].startAt < rows[id].endAt
  }

  ghost predicate Taken(rows: map<nat, Row>, venueId: nat, w: Interval, exclude: Option<nat>) {
    exists id :: id in rows && rows[id].venueId == venueId && exclude != Some(id)
                 && Overlaps(Window(rows[id]), w)
  }

  /** The count is positive exactly when another row of the venue overlaps the window. */
  lemma ConflictCountMeansTaken(rows: map<nat, Row>, venueId: nat, startAt: Instant, endAt: Instant,
                                exclude: Option<nat>)
    requires startAt < endAt && StartBeforeEnd(rows)
    ensures ConflictCount(rows, venueId, startAt, endAt, exclude) > 0
            <==> Taken(rows, venueId, Interval(startAt, endAt), exclude)
  {
    var ids := ConflictIds(rows, venueId, startAt, endAt, exclude);
    if ids != {} {
      var id :| id in ids;
      ConflictMeansOverlap(rows[id], startAt, endAt);
    }
    if Taken(rows, venueId, Interval(startAt, endAt), exclude) {
      var id :| id in rows && rows[id].venueId == venueId && exclude != Some(id)
        && Overlaps(Window(rows[id]), Interval(startAt, endAt));
      ConflictMeansOverlap(rows[id], startAt, endAt);
      assert id in ids;
    }
  }

  // ----- Invariants -----

  /** Rows are stored under their own identifiers, below the next one, and start before they end. */
  ghost predicate RowsStored(rows: map<nat, Row>, nextId: nat) {
    && nextId > 0
    && forall id :: id in rows ==> rows[id].id == id && 0 < id < nextId && rows[id].startAt < rows[id].endAt
  }

  ghost predicate RowsWellFormed(t: Table) {
    RowsStored(t.rows, t.nextId) && forall id :: id in t.rows ==> SameDay(t.rows[id].startAt, t.rows[id].endAt)
  }

  /** Two rows of one venue never share an instant, whatever their status. */
  ghost predicate NoDoubleBooking(rows: map<nat, Row>) {
    forall i, j :: i in rows && j in rows && i != j && rows[i].venueId == rows[j].venueId ==>
      rows[i].endAt <= rows[j].startAt || rows[j].endAt <= rows[i].startAt
  }

  /** Every created event is about a stored row, and no row has two. */
  ghost predicate CreatedSound(rows: map<nat, Row>, created: seq<CreatedEvent>) {
    && (forall k :: 0 <= k < |created| ==> created[k].bookingId in rows)
    && (forall k, l :: 0 <= k < l < |created| ==> created[k].bookingId != created[l].bookingId)
  }

  /** Every cancelled event is about a cancelled row, and no row has two. */
  ghost predicate CancelledSound(rows: map<nat, Row>, cancelled: seq<CancelledEvent>) {
    && (forall k :: 0 <= k < |cancelled| ==>
          cancelled[k].bookingId in rows && rows[cancelled[k].bookingId].status == Cancelled)
    && (forall k, l :: 0 <= k < l < |cancelled| ==> cancelled[k].bookingId != cancelled[l].bookingId)
  }

  ghost predicate Invariant(t: Table) {
    && RowsWellFormed(t) && NoDoubleBooking(t.rows)
    && CreatedSound(t.rows, t.created) && CancelledSound(t.rows, t.cancelled)
  }

  /** What may happen to one row in any number of steps. */
  ghost predicate RowEvolves(r: Row, r': Row) {
    && r'.id == r.id
    && (r.status == Cancelled || r.status == Completed ==> r' == r)
    && (r.status != Pending ==> r' == r || r' == r.(status := Cancelled, reason := r'.reason))
  }

  /** Rows stay, terminal rows are frozen, and logs only grow. */
  ghost predicate Evolves(t: Table, t': Table) {
    && (forall id :: id in t.rows ==> id in t'.rows && RowEvolves(t.rows[id], t'.rows[id]))
    && t.created <= t'.created && t.cancelled <= t'.cancelled
  }

  /** Storing a row that overlaps no other row of its venue keeps the table free of double bookings. */
  lemma StoreKeepsDisjoint(rows: map<nat, Row>, row: Row)
    requires StartBeforeEnd(rows)
    requires NoDoubleBooking(rows) && row.startAt < row.endAt
    ensures NoDoubleBooking(rows[row.id := row])
            <==> ConflictCount(rows, row.venueId, row.startAt, row.endAt, Some(row.id)) == 0
  {
    ConflictCountMeansTaken(rows, row.venueId, row.startAt, row.endAt, Some(row.id));
    var rows' := rows[row.id := row];
    if Taken(rows, row.venueId, Window(row), Some(row.id)) {
      var id :| id in rows && rows[id].venueId == row.venueId && id != row.id
        && Overlaps(Window(rows[id]), Window(row));
      assert rows'[id] == rows[id] && rows'[row.id] == row;
    } else {
      forall i, j | i in rows' && j in rows' && i != j && rows'[i].venueId == rows'[j].venueId
        ensures rows'[i].endAt <= rows'[j].startAt || rows'[j].endAt <= rows'[i].startAt
      {
        if i == row.id {
          assert !Overlaps(Window(rows[j]), Window(row));
        } else if j == row.id {
          assert !Overlaps(Window(rows[i]), Window(row));
        }
      }
    }
  }

  /** Logs stay sound when rows stay and cancelled ones do not change. */
  lemma LogsStaySound(rows: map<nat, Row>, rows': map<nat, Row>, created: seq<CreatedEvent>,
                      cancelled: seq<CancelledEvent>)
    requires CreatedSound(rows, created) && CancelledSound(rows, cancelled)
    requires forall id :: id in rows ==> id in rows' && (rows[id].status == Cancelled ==> rows'[id] == rows[id])
    ensures CreatedSound(rows', created) && CancelledSound(rows', cancelled)
  {
  }

  /** Inserting a placed row under the next identifier. */
  lemma InsertKeepsInvariant(t: Table, row: Row)
    requires Invariant(t) && row.id == t.nextId
    requires row.startAt < row.endAt && SameDay(row.startAt, row.endAt)
    requires ConflictCount(t.rows, row.venueId, row.startAt, row.endAt, None) == 0
    ensures Invariant(t.(rows := t.rows[row.id := row], nextId := t.nextId + 1))
    ensures Evolves(t, t.(rows := t.rows[row.id := row], nextId := t.nextId + 1))
  {
    assert ConflictIds(t.rows, row.venueId, row.startAt, row.endAt, Some(row.id))
        == ConflictIds(t.rows, row.venueId, row.startAt, row.endAt, None);
    StoreKeepsDisjoint(t.rows, row);
    hide NoDoubleBooking, ConflictCount, CreatedSound, CancelledSound;
    LogsStaySound(t.rows, t.rows[row.id := row], t.created, t.cancelled);
  }

  /** Replacing a row that is not cancelled by a placed one. */
  lemma ReplaceKeepsInvariant(t: Table, row: Row)
    requires Invariant(t) && row.id in t.rows
    requires t.rows[row.id].status != Cancelled && RowEvolves(t.rows[row.id], row)
    requires row.startAt < row.endAt && SameDay(row.startAt, row.endAt)
    requires ConflictCount(t.rows, row.venueId, row.startAt, row.endAt, Some(row.id)) == 0
    ensures Invariant(t.(rows := t.rows[row.id := row]))
    ensures Evolves(t, t.(rows := t.rows[row.id := row]))
  {
    StoreKeepsDisjoint(t.rows, row);
    hide NoDoubleBooking, ConflictCount, CreatedSound, CancelledSound;
    LogsStaySound(t.rows, t.rows[row.id := row], t.created, t.cancelled);
  }

  lemma RowKeepsItsId(t: Table, id: nat)
    requires Invariant(t) && id in t.rows
    ensures t.rows[id].id == id
  {
  }

  lemma CreateKeepsInvariant(t: Table, c: CreateCall)
    requires Invariant(t)
    ensures Invariant(CreateStep(t, c).0) && Evolves(t, CreateStep(t, c).0)
  {
    if CreateProblem(t.rows, c).None? {
      var row := NewRow(c, t.nextId);
      InsertKeepsInvariant(t, row);
      CreatedOneMore(t.rows, row, t.created);
      hide CreateProblem, NoDoubleBooking, ConflictCount, CreatedSound, CancelledSound, RowEvolves, NewRow;
    }
  }

  /** The event of a row that was not stored before joins the created topic. */
  lemma CreatedOneMore(rows: map<nat, Row>, row: Row, created: seq<CreatedEvent>)
    requires CreatedSound(rows, created) && row.id !in rows
    ensures CreatedSound(rows[row.id := row], created + [EventOf(row)])
  {
    assert forall k :: 0 <= k < |created| ==> created[k].bookingId != row.id;
  }

  /** A row of a table without double bookings conflicts with no other row. */
  lemma StoredRowHasNoConflict(t: Table, id: nat)
    requires Invariant(t) && id in t.rows
    ensures var r := t.rows[id]; ConflictCount(t.rows, r.venueId, r.startAt, r.endAt, Some(id)) == 0
  {
    var r := t.rows[id];
    assert t.rows[id := r] == t.rows;
    StoreKeepsDisjoint(t.rows, r);
  }

  lemma CancelKeepsInvariant(t: Table, id: nat, reason: string, published: bool)
    requires Invariant(t)
    ensures Invariant(CancelStep(t, id, reason, published).0) && Evolves(t, CancelStep(t, id, reason, published).0)
  {
    if CancelStep(t, id, reason, published).1.Ok? {
      StoredRowHasNoConflict(t, id);
      var row := t.rows[id].(status := Cancelled, reason := reason);
      ReplaceKeepsInvariant(t, row);
      var t' := t.(rows := t.rows[id := row]);
      assert forall k :: 0 <= k < |t.cancelled| ==> t.cancelled[k].bookingId != id;
      assert CancelledSound(t'.rows, t.cancelled + [CancelledEvent(id, reason)]);
    }
  }

  lemma UpdateKeepsInvariant(t: Table, id: nat, u: UpdateRequest, now: Instant, week: Option<Week<DayDTO>>)
    requires Invariant(t)
    ensures Invariant(UpdateStep(t, id, u, now, week).0) && Evolves(t, UpdateStep(t, id, u, now, week).0)
  {
    if UpdateProblem(t.rows, id, u, now, week).None? {
      ReplaceKeepsInvariant(t, Updated(t.rows[id], u));
    }
  }

  /**
    The answer to an update has the right duration. The stored row keeps the old one, so it is right
    exactly when the new window is as long as the stored duration said before.
   */
  lemma StoredDurationIsRightIff(t: Table, id: nat, u: UpdateRequest, now: Instant, week: Option<Week<DayDTO>>)
    requires UpdateProblem(t.rows, id, u, now, week).None?
    ensures var (t', answer) := UpdateStep(t, id, u, now, week);
            var startAt, endAt := Or(u.startAt, t.rows[id].startAt), Or(u.endAt, t.rows[id].endAt);
            && answer.Ok? && answer.value.duration == endAt - startAt
            && t'.rows[id] == answer.value.(duration := t.rows[id].duration)
            && (t'.rows[id].duration == t'.rows[id].endAt - t'.rows[id].startAt
                <==> t.rows[id].duration == endAt - startAt)
  {
  }

  /** An update places the booking exactly as a create call would in a table without that booking. */
  lemma UpdatePlacesAsIfRemoved(rows: map<nat, Row>, id: nat, venueId: nat, startAt: Instant, endAt: Instant,
                                week: Option<Week<DayDTO>>)
    ensures PlacementProblem(rows, venueId, startAt, endAt, week, Some(id))
            == PlacementProblem(rows - {id}, venueId, startAt, endAt, week, None)
  {
    assert ConflictIds(rows, venueId, startAt, endAt, Some(id))
           == ConflictIds(rows - {id}, venueId, startAt, endAt, None);
  }

  // ----- Runs -----

  datatype Op =
    | Create(call: CreateCall)
    | Cancel(id: nat, reason: string, published: bool)
    | Update(id: nat, update: UpdateRequest, now: Instant, week: Option<Week<DayDTO>>)

  function Apply(t: Table, op: Op): Table {
    match op
    case Create(call) => CreateStep(t, call).0
    case Cancel(id, reason, published) => CancelStep(t, id, reason, published).0
    case Update(id, update, now, week) => UpdateStep(t, id, update, now, week).0
  }

  /** The table after the operations, from `t`. */
  function Run(t: Table, ops: seq<Op>): Table {
    if ops == [] then t else Apply(Run(t, ops[..|ops| - 1]), ops[|ops| - 1])
  }

  lemma ApplyKeepsInvariant(t: Table, op: Op)
    requires Invariant(t)
    ensures Invariant(Apply(t, op)) && Evolves(t, Apply(t, op))
  {
    match op
    case Create(call) => CreateKeepsInvariant(t, call);
    case Cancel(id, reason, published) => CancelKeepsInvariant(t, id, reason, published);
    case Update(id, update, now, week) => UpdateKeepsInvariant(t, id, update, now, week);
  }

  lemma EvolvesTransitively(t: Table, t': Table, t'': Table)
    requires Evolves(t, t') && Evolves(t', t'')
    ensures Evolves(t, t'')
  {
    forall id | id in t.rows
      ensures id in t''.rows && RowEvolves(t.rows[id], t''.rows[id])
    {
      assert RowEvolves(t.rows[id], t'.rows[id]) && RowEvolves(t'.rows[id], t''.rows[id]);
    }
  }

  /** Every run keeps the invariant, and rows and logs only evolve. */
  lemma {:induction false} RunKeepsInvariant(t: Table, ops: seq<Op>)
    requires Invariant(t)
    ensures Invariant(Run(t, ops)) && Evolves(t, Run(t, ops))
  {
    if ops != [] {
      var before := Run(t, ops[..|ops| - 1]);
      RunKeepsInvariant(t, ops[..|ops| - 1]);
      ApplyKeepsInvariant(before, ops[|ops| - 1]);
      EvolvesTransitively(t, before, Run(t, ops));
    }
  }

  /** From an empty table no run ever double-books a venue, and every row is a window of one day. */
  lemma NeverDoubleBooked(ops: seq<Op>)
    ensures NoDoubleBooking(Run(EMPTY_TABLE, ops).rows)
    ensures forall id :: id in Run(EMPTY_TABLE, ops).rows ==>
              var r := Run(EMPTY_TABLE, ops).rows[id]; r.startAt < r.endAt && SameDay(r.startAt, r.endAt)
  {
    RunKeepsInvariant(EMPTY_TABLE, ops);
  }

  lemma {:induction false} RunSplits(t: Table, first: seq<Op>, second: seq<Op>)
    ensures Run(t, first + second) == Run(Run(t, first), second)
  {
    if second == [] {
      assert first + second == first;
    } else {
      var n := |second| - 1;
      RunSplits(t, first, second[..n]);
      assert (first + second)[..|first| + n] == first + second[..n];
    }
  }

  /** A row that a cancellation event names is cancelled when the event is published and unchanged ever after. */
  lemma CancellationIsFinal(first: seq<Op>, second: seq<Op>, k: nat)
    requires k < |Run(EMPTY_TABLE, first).cancelled|
    ensures var t, t' := Run(EMPTY_TABLE, first), Run(EMPTY_TABLE, first + second);
            && k < |t'.cancelled| && t'.cancelled[k] == t.cancelled[k]
            && var id := t.cancelled[k].bookingId;
            && id in t.rows && id in t'.rows && t.rows[id].status == Cancelled && t'.rows[id] == t.rows[id]
            && forall l :: 0 <= l < |t'.cancelled| && l != k ==> t'.cancelled[l].bookingId != id
  {
    RunKeepsInvariant(EMPTY_TABLE, first);
    RunKeepsInvariant(Run(EMPTY_TABLE, first), second);
    RunSplits(EMPTY_TABLE, first, second);
  }
}
