/** Runs of interleaved booking calls that break what atomic calls keep. */
module InterleavedFailures {
  import opened Common
  import opened Time
  import opened Sweep
  import opened Bookings
  import opened SampleVenue
  import opened InterleavedBookings
  import opened InterleavedRows
  import opened InterleavedConflicts

  lemma {:induction false} AfterPrefix(run: seq<CallStep>, more: seq<CallStep>, n: nat)
    requires n <= |run|
    ensures After(run + more, n) == After(run, n)
  {
    if n > 0 {
      AfterPrefix(run, more, n - 1);
    }
  }

  // ----- One step at a time -----

  lemma StepValidateCreate(run: seq<CallStep>, n: nat, s: Shared, c: CreateCall)
    requires n < |run| && After(run, n) == s && run[n] == ValidateCreate(c) && CreateProblem(s.rows, c).None?
    ensures After(run, n + 1) == s.(candidates := s.candidates + [NewRow(c, 0)])
  {
  }

  lemma StepRecheckCreate(run: seq<CallStep>, n: nat, s: Shared)
    requires n < |run| && After(run, n) == s && run[n] == RecheckCreate(0) && s.candidates != []
    requires var row := s.candidates[0]; ConflictCount(s.rows, row.venueId, row.startAt, row.endAt, None) == 0
    ensures After(run, n + 1) == s.(candidates := Without(s.candidates, 0),
                                    writes := s.writes + [NewBooking(s.candidates[0], n)])
  {
  }

  lemma StepReadToCancel(run: seq<CallStep>, n: nat, s: Shared, id: nat, reason: string)
    requires n < |run| && After(run, n) == s && run[n] == ReadToCancel(id, reason)
    requires id in s.rows && s.rows[id].status != Cancelled && s.rows[id].status != Completed
    ensures After(run, n + 1) == s.(writes := s.writes + [Cancellation(s.rows[id], reason, n)])
  {
  }

  lemma StepReadToUpdate(run: seq<CallStep>, n: nat, s: Shared, id: nat, u: UpdateRequest, now: Instant)
    requires n < |run| && After(run, n) == s && run[n] == ReadToUpdate(id, u, now)
    requires id in s.rows && RequestProblem(s.rows[id], u, now).None?
    ensures After(run, n + 1) == s.(drafts := s.drafts + [Draft(s.rows[id], u, n)])
  {
  }

  lemma StepValidateUpdate(run: seq<CallStep>, n: nat, s: Shared, which: nat)
    requires n < |run| && After(run, n) == s && run[n] == ValidateUpdate(which, Some(OPEN_WEEK)) && which < |s.drafts|
    requires s.drafts[which].first.id in s.rows && ChangeProblem(s.drafts[which].first, s.drafts[which].u).None?
    requires var d := s.drafts[which];
             var row := Updated(s.rows[d.first.id], d.u);
             PlacementProblem(s.rows, row.venueId, row.startAt, row.endAt, Some(OPEN_WEEK), Some(d.first.id)).None?
    ensures var d := s.drafts[which];
            After(run, n + 1) == s.(drafts := Without(s.drafts, which),
                                   writes := s.writes + [Change(d.first, d.u, Updated(s.rows[d.first.id], d.u),
                                                                d.readAt, n)])
  {
  }

  lemma StepCommit(run: seq<CallStep>, n: nat, s: Shared)
    requires n < |run| && After(run, n) == s && run[n] == Commit(0, true) && s.writes != []
    ensures var w := s.writes[0];
            After(run, n + 1) == s.(rows := s.rows[RowOf(s, w).id := RowOf(s, w)],
                                   nextId := if w.NewBooking? then s.nextId + 1 else s.nextId,
                                   writes := Without(s.writes, 0),
                                   cancelled := if w.Cancellation?
                                     then s.cancelled + [CancelledEvent(RowOf(s, w).id, w.reason)] else s.cancelled)
  {
  }

  lemma StepCancellation(run: seq<CallStep>, n: nat, s: Shared, w: Write, rest: seq<Write>)
    requires n < |run| && After(run, n) == s && run[n] == Commit(0, true) && w.Cancellation? && s.writes == [w] + rest
    ensures After(run, n + 1) == s.(rows := s.rows[w.first.id := w.first.(status := Cancelled, reason := w.reason)],
                                    writes := rest,
                                    cancelled := s.cancelled + [CancelledEvent(w.first.id, w.reason)])
  {
    hide After, Advance;
    StepCommit(run, n, s);
    assert Without(s.writes, 0) == rest;
  }

  lemma AcceptedIsClear(rows: map<nat, Row>, c: CreateCall)
    requires CreateProblem(rows, c).None?
    ensures c.hourPrice.Some?
    ensures var row := NewRow(c, 0);
            row.startAt < row.endAt && ConflictCount(rows, row.venueId, row.startAt, row.endAt, None) == 0
  {
  }

  /** Both calls pass their first check. */
  lemma BothValidated(run: seq<CallStep>, n: nat, s: Shared, c: CreateCall)
    requires n + 2 <= |run| && After(run, n) == s && s.candidates == [] && CreateProblem(s.rows, c).None?
    requires run[n] == ValidateCreate(c) && run[n + 1] == ValidateCreate(c)
    ensures After(run, n + 2) == s.(candidates := [NewRow(c, 0), NewRow(c, 0)])
  {
    hide *;
    AcceptedIsClear(s.rows, c);
    var row := NewRow(c, 0);
    StepValidateCreate(run, n, s, c);
    assert [] + [row] == [row];
    StepValidateCreate(run, n + 1, s.(candidates := [row]), c);
  }

  /** Both calls pass their last check. */
  lemma BothRechecked(run: seq<CallStep>, n: nat, s: Shared, row: Row)
    requires n + 2 <= |run| && After(run, n) == s.(candidates := [row, row]) && s.candidates == [] && s.writes == []
    requires ConflictCount(s.rows, row.venueId, row.startAt, row.endAt, None) == 0
    requires run[n] == RecheckCreate(0) && run[n + 1] == RecheckCreate(0)
    ensures After(run, n + 2) == s.(writes := [NewBooking(row, n), NewBooking(row, n + 1)])
  {
    assert Without([row, row], 0) == [row] && Without([row], 0) == [];
    hide After, Advance, ConflictCount, Without;
    StepRecheckCreate(run, n, s.(candidates := [row, row]));
    assert [] + [NewBooking(row, n)] == [NewBooking(row, n)];
    StepRecheckCreate(run, n + 1, s.(candidates := [row], writes := [NewBooking(row, n)]));
  }

  /** Both rows are inserted. */
  lemma BothInserted(run: seq<CallStep>, n: nat, s: Shared, row: Row, w: Write, w': Write)
    requires n + 2 <= |run| && After(run, n) == s.(writes := [w, w']) && run[n] == run[n + 1] == Commit(0, true)
    requires w.NewBooking? && w'.NewBooking? && w.row == row && w'.row == row && row.startAt < row.endAt
    ensures !SafeAt(run, n + 2)
  {
    hide After, Advance, NoDoubleBooking;
    assert Without([w, w'], 0) == [w'] && Without([w'], 0) == [];
    StepCommit(run, n, s.(writes := [w, w']));
    StepCommit(run, n + 1, s.(rows := s.rows[s.nextId := row.(id := s.nextId)], nextId := s.nextId + 1,
                              writes := [w']));
    SameWindowTwice(s.rows, s.nextId, row.(id := s.nextId), row.(id := s.nextId + 1));
  }

  lemma TwoCreatesDoubleBook(run: seq<CallStep>, n: nat, s: Shared, c: CreateCall)
    requires n + 6 <= |run| && After(run, n) == s && s.candidates == [] && s.writes == []
             && CreateProblem(s.rows, c).None?
    requires run[n] == ValidateCreate(c) && run[n + 1] == ValidateCreate(c)
    requires run[n + 2] == RecheckCreate(0) && run[n + 3] == RecheckCreate(0)
    requires run[n + 4] == Commit(0, true) && run[n + 5] == Commit(0, true)
    ensures !SafeAt(run, n + 6)
  {
    hide *;
    AcceptedIsClear(s.rows, c);
    var row := NewRow(c, 0);
    BothValidated(run, n, s, c);
    BothRechecked(run, n + 2, s, row);
    BothInserted(run, n + 4, s, row, NewBooking(row, n + 2), NewBooking(row, n + 3));
  }

  /**
    After any run, two create calls for one window that both pass their
    last check before either inserts double-book it.
   */
  lemma ConcurrentCreatesDoubleBook(run: seq<CallStep>, c: CreateCall)
    requires After(run, |run|).candidates == [] && After(run, |run|).writes == []
             && CreateProblem(After(run, |run|).rows, c).None?
    ensures var both := run + [ValidateCreate(c), ValidateCreate(c), RecheckCreate(0), RecheckCreate(0),
                               Commit(0, true), Commit(0, true)];
            !SafeAt(both, |both|)
  {
    hide *;
    var more := [ValidateCreate(c), ValidateCreate(c), RecheckCreate(0), RecheckCreate(0), Commit(0, true),
                 Commit(0, true)];
    AfterPrefix(run, more, |run|);
    TwoCreatesDoubleBook(run + more, |run|, After(run, |run|), c);
  }

  lemma SameWindowTwice(rows: map<nat, Row>, id: nat, r: Row, r': Row)
    requires r.venueId == r'.venueId && r.startAt == r'.startAt && r.endAt == r'.endAt && r.startAt < r.endAt
    ensures !NoDoubleBooking(rows[id := r][id + 1 := r'])
  {
    var both := rows[id := r][id + 1 := r'];
    assert both[id] == r && both[id + 1] == r';
  }

  // ----- Runs on one booking -----

  /** One client books Wednesday of the second week from ten to twelve. */
  const BOOKED: seq<CallStep> := [ValidateCreate(CallOn(9)), RecheckCreate(0), Commit(0, true)]

  function Booked(): Row {
    NewRow(CallOn(9), 1)
  }

  function Alone(row: Row): Shared {
    Shared(map[1 := row], 2, [], [], [], [])
  }

  lemma AfterBooked(more: seq<CallStep>)
    ensures After(BOOKED + more, 3) == Alone(Booked())
  {
    FirstCallIsAccepted(9);
    var run, row := BOOKED + more, NewRow(CallOn(9), 0);
    assert ConflictIds(map[], row.venueId, row.startAt, row.endAt, None) == {};
    assert Without([row], 0) == [] && Without([NewBooking(row, 1)], 0) == [];
    StepValidateCreate(run, 0, NOTHING, CallOn(9));
    hide CreateProblem, After, Advance;
    StepRecheckCreate(run, 1, NOTHING.(candidates := [row]));
    StepCommit(run, 2, NOTHING.(writes := [NewBooking(row, 1)]));
  }

  /** The booking is pending, on Wednesday from ten to twelve. */
  lemma BookedFacts()
    ensures var r := Booked();
            r.id == 1 && r.venueId == 1 && r.status == Pending && r.startAt == At(9, 10, 0) && r.endAt == At(9, 12, 0)
  {
  }

  /** Two cancellations that both read the booking as pending. */
  const CANCELLED_TWICE: seq<CallStep> :=
    BOOKED + [ReadToCancel(1, "first"), ReadToCancel(1, "second"), Commit(0, true), Commit(0, true)]

  function Gone(row: Row, reason: string): Row {
    row.(status := Cancelled, reason := reason)
  }

  lemma BothRead(run: seq<CallStep>, row: Row, reason: string, reason': string)
    requires |run| >= 5 && After(run, 3) == Alone(row) && row.id == 1 && row.status == Pending
    requires run[3] == ReadToCancel(1, reason) && run[4] == ReadToCancel(1, reason')
    ensures After(run, 5) == Alone(row).(writes := [Cancellation(row, reason, 3), Cancellation(row, reason', 4)])
  {
    hide After, Advance;
    StepReadToCancel(run, 3, Alone(row), 1, reason);
    StepReadToCancel(run, 4, Alone(row).(writes := [Cancellation(row, reason, 3)]), 1, reason');
  }

  /** A cancellation of the one booking is stored and published. */
  lemma CancellationStored(run: seq<CallStep>, n: nat, stored: Row, log: seq<CancelledEvent>, w: Write,
                           rest: seq<Write>)
    requires n < |run| && After(run, n) == Alone(stored).(writes := [w] + rest, cancelled := log)
    requires run[n] == Commit(0, true) && w.Cancellation? && w.first.id == 1
    ensures After(run, n + 1)
            == Alone(Gone(w.first, w.reason)).(writes := rest, cancelled := log + [CancelledEvent(1, w.reason)])
  {
    hide After, Advance;
    StepCancellation(run, n, Alone(stored).(writes := [w] + rest, cancelled := log), w, rest);
    assert map[1 := stored][1 := Gone(w.first, w.reason)] == map[1 := Gone(w.first, w.reason)];
  }

  /** Both are stored and published. */
  lemma BothCancelled(run: seq<CallStep>, row: Row, reason: string, reason': string)
    requires |run| >= 7 && After(run, 3) == Alone(row) && row.id == 1 && row.status == Pending
    requires run[3] == ReadToCancel(1, reason) && run[4] == ReadToCancel(1, reason')
    requires run[5] == Commit(0, true) && run[6] == Commit(0, true)
    ensures After(run, 6) == Alone(Gone(row, reason)).(writes := [Cancellation(row, reason', 4)],
                                                       cancelled := [CancelledEvent(1, reason)])
    ensures After(run, 7)
            == Alone(Gone(row, reason')).(cancelled := [CancelledEvent(1, reason), CancelledEvent(1, reason')])
  {
    var w, w' := Cancellation(row, reason, 3), Cancellation(row, reason', 4);
    hide After, Advance, Gone;
    BothRead(run, row, reason, reason');
    assert [w, w'] == [w] + [w'];
    CancellationStored(run, 5, row, [], w, [w']);
    assert [w'] == [w'] + [];
    CancellationStored(run, 6, Gone(row, reason), [CancelledEvent(1, reason)], w', []);
  }

  /** The second one rewrites the reason of a cancelled row and publishes a second event. */
  lemma CancelledTwice()
    ensures !FrozenThrough(CANCELLED_TWICE, 7)
    ensures !EventsOnce(After(CANCELLED_TWICE, 7).cancelled) && !CancellationsAreFirst(CANCELLED_TWICE, 7)
  {
    var run, row := CANCELLED_TWICE, Booked();
    AfterBooked(run[3..]);
    BookedFacts();
    assert BOOKED + run[3..] == run;
    hide After, Advance, Booked;
    BothCancelled(run, row, "first", "second");
    var log := After(run, 7).cancelled;
    assert log[0].bookingId == log[1].bookingId;
    assert CommittedAt(run, 6) == Some(Cancellation(row, "second", 4)) && CancelledAt(run, 6, 1);
    assert After(run, 6).rows[1].reason[0] != After(run, 7).rows[1].reason[0];
    assert !FrozenAt(run, 6);
  }

  const NO_CHANGE := UpdateRequest(None, None, None, None, None, None)

  /** An update that reads the booking before it is cancelled and saves it after. */
  const REVIVED: seq<CallStep> :=
    BOOKED + [ReadToUpdate(1, NO_CHANGE, 1), ReadToCancel(1, "first"), Commit(0, true),
              ValidateUpdate(0, Some(OPEN_WEEK)), Commit(0, true)]

  lemma NoChangeIsAllowed(row: Row)
    requires row.status == Pending && row.startAt == At(9, 10, 0) && row.endAt == At(9, 12, 0)
    ensures RequestProblem(row, NO_CHANGE, 1).None? && ChangeProblem(row, NO_CHANGE).None?
  {
  }

  /** The cancellation is stored and published while the update has read the booking. */
  lemma CancelledMeanwhile(run: seq<CallStep>, row: Row)
    requires |run| >= 6 && After(run, 3) == Alone(row) && row.id == 1 && row.status == Pending
    requires run[3] == ReadToUpdate(1, NO_CHANGE, 1) && run[4] == ReadToCancel(1, "first") && run[5] == Commit(0, true)
    requires RequestProblem(row, NO_CHANGE, 1).None?
    ensures var gone := Gone(row, "first");
            After(run, 6) == Alone(gone).(drafts := [Draft(row, NO_CHANGE, 3)],
                                          cancelled := [CancelledEvent(1, "first")])
  {
    var w, d := Cancellation(row, "first", 4), Draft(row, NO_CHANGE, 3);
    assert Without([w], 0) == [];
    hide After, Advance, RequestProblem, Without;
    StepReadToUpdate(run, 3, Alone(row), 1, NO_CHANGE, 1);
    assert [] + [d] == [d] && [] + [w] == [w];
    StepReadToCancel(run, 4, Alone(row).(drafts := [d]), 1, "first");
    StepCommit(run, 5, Alone(row).(drafts := [d], writes := [w]));
  }

  /** An update of the one row passes validation and is saved. */
  lemma UpdateSaved(run: seq<CallStep>, n: nat, s: Shared, row: Row, which: nat, d: Draft)
    requires n + 2 <= |run| && After(run, n) == s && s.rows == map[1 := row] && s.writes == []
    requires which < |s.drafts| && s.drafts[which] == d
    requires run[n] == ValidateUpdate(which, Some(OPEN_WEEK)) && run[n + 1] == Commit(0, true)
    requires d.first.id == 1 && ChangeProblem(d.first, d.u).None?
    requires var r := Updated(row, d.u);
             PlacementProblem(s.rows, r.venueId, r.startAt, r.endAt, Some(OPEN_WEEK), Some(1)).None?
    ensures After(run, n + 2) == s.(rows := map[1 := Updated(d.first, d.u)], drafts := Without(s.drafts, which))
  {
    var w := Change(d.first, d.u, Updated(row, d.u), d.readAt, n);
    assert Without([w], 0) == [];
    hide After, Advance, PlacementProblem, ChangeProblem, Without;
    StepValidateUpdate(run, n, s, which);
    assert [] + [w] == [w];
    StepCommit(run, n + 1, s.(drafts := Without(s.drafts, which), writes := [w]));
    assert s.rows[1 := Updated(d.first, d.u)] == map[1 := Updated(d.first, d.u)];
  }

  lemma RevivedRows(run: seq<CallStep>, row: Row)
    requires |run| >= 8 && After(run, 3) == Alone(row)
    requires row.id == 1 && row.venueId == 1 && row.status == Pending
    requires row.startAt == At(9, 10, 0) && row.endAt == At(9, 12, 0)
    requires run[3] == ReadToUpdate(1, NO_CHANGE, 1) && run[4] == ReadToCancel(1, "first") && run[5] == Commit(0, true)
    requires run[6] == ValidateUpdate(0, Some(OPEN_WEEK)) && run[7] == Commit(0, true)
    ensures RowsAt(run, 7) == map[1 := Gone(row, "first")] && RowsAt(run, 8) == map[1 := row]
    ensures After(run, 8).cancelled == [CancelledEvent(1, "first")]
  {
    NoChangeIsAllowed(row);
    var gone := Gone(row, "first");
    WindowIsPlaced(map[1 := gone], 1, 9, 10, 12, Some(1));
    hide After, Advance, PlacementProblem, RequestProblem, ChangeProblem, At;
    CancelledMeanwhile(run, row);
    UpdateSaved(run, 6, After(run, 6), gone, 0, Draft(row, NO_CHANGE, 3));
  }

  /** The booking is pending again although its cancelled event has been published. */
  lemma RevivedAfterCancellation()
    ensures 1 in RowsAt(REVIVED, 8) && RowsAt(REVIVED, 8)[1].status == Pending
    ensures Announced(After(REVIVED, 8).cancelled, 1) && !FrozenThrough(REVIVED, 8)
  {
    var run := REVIVED;
    AfterBooked(run[3..]);
    BookedFacts();
    assert BOOKED + run[3..] == run;
    hide After, Advance, Booked, At;
    RevivedRows(run, Booked());
    assert After(run, 8).cancelled[0].bookingId == 1;
    assert RowsAt(run, 7)[1].status == Cancelled && Booked().status == Pending;
    assert !FrozenAt(run, 7);
  }

  const MONDAY_NINE := NO_CHANGE.(startAt := Some(At(7, 9, 0)))
  const MONDAY_TEN_TO_TWELVE := NO_CHANGE.(startAt := Some(At(7, 10, 0)), endAt := Some(At(7, 12, 0)))

  /** One update moves only the start to Monday; between its two reads another moves the whole booking there. */
  const TORN: seq<CallStep> :=
    BOOKED + [ReadToUpdate(1, MONDAY_NINE, 1), ReadToUpdate(1, MONDAY_TEN_TO_TWELVE, 1),
              ValidateUpdate(1, Some(OPEN_WEEK)), Commit(0, true), ValidateUpdate(0, Some(OPEN_WEEK)), Commit(0, true)]

  lemma MovesAreAllowed(row: Row)
    requires row.status == Pending && row.startAt == At(9, 10, 0) && row.endAt == At(9, 12, 0)
    ensures RequestProblem(row, MONDAY_NINE, 1).None? && ChangeProblem(row, MONDAY_NINE).None?
    ensures RequestProblem(row, MONDAY_TEN_TO_TWELVE, 1).None? && ChangeProblem(row, MONDAY_TEN_TO_TWELVE).None?
  {
  }

  lemma MovesArePlaced(row: Row)
    requires row.venueId == 1
    ensures var moved := Updated(row, MONDAY_TEN_TO_TWELVE);
            PlacementProblem(map[1 := row], moved.venueId, moved.startAt, moved.endAt, Some(OPEN_WEEK), Some(1)).None?
    ensures var moved := Updated(row, MONDAY_TEN_TO_TWELVE);
            var torn := Updated(moved, MONDAY_NINE);
            PlacementProblem(map[1 := moved], torn.venueId, torn.startAt, torn.endAt, Some(OPEN_WEEK), Some(1)).None?
  {
    hide PlacementProblem, At;
    WindowIsPlaced(map[1 := row], 1, 7, 10, 12, Some(1));
    WindowIsPlaced(map[1 := Updated(row, MONDAY_TEN_TO_TWELVE)], 1, 7, 9, 12, Some(1));
  }

  /** Both updates read the booking, and the second is validated and stored. */
  lemma MovedMeanwhile(run: seq<CallStep>, row: Row, u: UpdateRequest, u': UpdateRequest)
    requires |run| >= 7 && After(run, 3) == Alone(row) && row.id == 1
    requires run[3] == ReadToUpdate(1, u, 1) && run[4] == ReadToUpdate(1, u', 1)
    requires run[5] == ValidateUpdate(1, Some(OPEN_WEEK)) && run[6] == Commit(0, true)
    requires RequestProblem(row, u, 1).None? && RequestProblem(row, u', 1).None? && ChangeProblem(row, u').None?
    requires var r := Updated(row, u');
             PlacementProblem(map[1 := row], r.venueId, r.startAt, r.endAt, Some(OPEN_WEEK), Some(1)).None?
    ensures After(run, 7) == Alone(Updated(row, u')).(drafts := [Draft(row, u, 3)])
  {
    var d, d' := Draft(row, u, 3), Draft(row, u', 4);
    assert Without([d, d'], 1) == [d];
    hide After, Advance, PlacementProblem, RequestProblem, ChangeProblem, Without, Updated;
    StepReadToUpdate(run, 3, Alone(row), 1, u, 1);
    assert [] + [d] == [d] && [d] + [d'] == [d, d'];
    StepReadToUpdate(run, 4, Alone(row).(drafts := [d]), 1, u', 1);
    UpdateSaved(run, 5, Alone(row).(drafts := [d, d']), row, 1, d');
  }

  lemma TornRows(run: seq<CallStep>, row: Row)
    requires |run| >= 9 && After(run, 3) == Alone(row)
    requires row.id == 1 && row.venueId == 1 && row.status == Pending
    requires row.startAt == At(9, 10, 0) && row.endAt == At(9, 12, 0)
    requires run[3] == ReadToUpdate(1, MONDAY_NINE, 1) && run[4] == ReadToUpdate(1, MONDAY_TEN_TO_TWELVE, 1)
    requires run[5] == ValidateUpdate(1, Some(OPEN_WEEK)) && run[6] == Commit(0, true)
    requires run[7] == ValidateUpdate(0, Some(OPEN_WEEK)) && run[8] == Commit(0, true)
    ensures RowsAt(run, 9) == map[1 := Updated(row, MONDAY_NINE)]
  {
    MovesAreAllowed(row);
    MovesArePlaced(row);
    hide After, Advance, PlacementProblem, RequestProblem, ChangeProblem, At, ConflictCount, ConflictIds;
    MovedMeanwhile(run, row, MONDAY_NINE, MONDAY_TEN_TO_TWELVE);
    UpdateSaved(run, 7, After(run, 7), Updated(row, MONDAY_TEN_TO_TWELVE), 0, Draft(row, MONDAY_NINE, 3));
  }

  /** The first update validates Monday and stores a booking from Monday nine to Wednesday twelve. */
  lemma TornUpdateSpansDays()
    ensures RowsAt(TORN, 9).Keys == {1} && Window(RowsAt(TORN, 9)[1]) == Interval(At(7, 9, 0), At(9, 12, 0))
    ensures RowsAt(TORN, 9)[1].venueId == 1 && RowsAt(TORN, 9)[1].status == Pending
    ensures !OneDayThrough(TORN, 9)
  {
    var run := TORN;
    AfterBooked(run[3..]);
    BookedFacts();
    assert BOOKED + run[3..] == run;
    hide After, Advance, Booked, At;
    TornRows(run, Booked());
    AtFields(7, 9, 0);
    AtFields(9, 12, 0);
    assert !OneDay(RowsAt(run, 9)[1]);
    assert !OneDayAt(run, 9);
  }
}
