/**
  Which schedules of interleaved booking calls keep every row within one day, keep cancelled rows as they
  are, and keep the cancelled topic true and free of repetitions.
 */
module InterleavedRows {
  import opened Time
  import opened Bookings
  import opened InterleavedBookings

  // ----- Exactly when every row stays within one day -----

  predicate OneDay(r: Row) {
    SameDay(r.startAt, r.endAt)
  }

  ghost predicate OneDayAt(run: seq<CallStep>, n: nat)
    requires n <= |run|
  {
    forall id :: id in RowsAt(run, n) ==> OneDay(RowsAt(run, n)[id])
  }

  ghost predicate OneDayThrough(run: seq<CallStep>, m: nat)
    requires m <= |run|
  {
    forall n :: 0 <= n <= m ==> OneDayAt(run, n)
  }

  /** The row starts on the same day at both moments. */
  ghost predicate OnSameDayAt(run: seq<CallStep>, id: nat, a: nat, b: nat) {
    && a <= |run| && b <= |run| && id in RowsAt(run, a) && id in RowsAt(run, b)
    && SameDay(RowsAt(run, a)[id].startAt, RowsAt(run, b)[id].startAt)
  }

  /** If step `n` saves an update that gives one edge of the window, both reads of the call found the row on one day. */
  ghost predicate ReadsAgreeAt(run: seq<CallStep>, n: nat)
    requires n < |run|
  {
    CommittedAt(run, n).Some? && CommittedAt(run, n).value.Change? ==>
      var w := CommittedAt(run, n).value;
      w.u.startAt.Some? != w.u.endAt.Some? ==> OnSameDayAt(run, w.first.id, w.readAt, w.clearedAt)
  }

  ghost predicate ReadsAgreeThrough(run: seq<CallStep>, m: nat)
    requires m <= |run|
  {
    forall n :: 0 <= n < m ==> ReadsAgreeAt(run, n)
  }

  /**
    Applied to two one-day copies of a row, of which it fits the second, an
    update fits the first too unless it mixes their days.
   */
  lemma UpdateFitsIff(first: Row, second: Row, u: UpdateRequest)
    requires OneDay(first) && OneDay(second) && OneDay(Updated(second, u))
    ensures OneDay(Updated(first, u)) <==> (u.startAt.Some? != u.endAt.Some? ==> SameDay(first.startAt, second.startAt))
  {
  }

  lemma StoredIsOneDayIff(run: seq<CallStep>, n: nat)
    requires n < |run| && OneDayThrough(run, n) && CommittedAt(run, n).Some?
    ensures OneDay(StoredAt(run, n)) <==> ReadsAgreeAt(run, n)
  {
    var w := CommittedAt(run, n).value;
    CommitHasOrigin(run, n);
    hide After, Advance, ConflictCount, SameDay;
    match w
    case NewBooking(_, _) =>
    case Cancellation(first, _, readAt) =>
      assert OneDayAt(run, readAt);
    case Change(first, u, validated, readAt, clearedAt) =>
      assert OneDayAt(run, readAt) && OneDayAt(run, clearedAt);
      UpdateFitsIff(first, RowsAt(run, clearedAt)[first.id], u);
  }

  lemma NextOneDayIff(run: seq<CallStep>, n: nat)
    requires n < |run| && OneDayThrough(run, n)
    ensures OneDayAt(run, n + 1) <==> ReadsAgreeAt(run, n)
  {
    assert OneDayAt(run, n);
    if CommittedAt(run, n).Some? {
      StoredIsOneDayIff(run, n);
      CommitStores(run, n);
      hide After, Advance, ReadsAgreeAt, OneDay, StoredAt;
      assert RowsAt(run, n + 1)[StoredAt(run, n).id] == StoredAt(run, n);
    } else {
      assert RowsAt(run, n + 1) == RowsAt(run, n);
    }
  }

  /**
    Every row of every moment is a window of one day exactly when each committed update that gives one edge
    of the window found its row on the same day when it first read it and when it validated.
   */
  lemma {:induction false} OneDayIff(run: seq<CallStep>, m: nat)
    requires m <= |run|
    ensures OneDayThrough(run, m) <==> ReadsAgreeThrough(run, m)
    decreases m
  {
    if m == 0 {
      assert OneDayAt(run, 0);
    } else {
      hide OneDayAt, ReadsAgreeAt;
      OneDayIff(run, m - 1);
      if OneDayThrough(run, m - 1) {
        NextOneDayIff(run, m - 1);
      }
    }
  }

  // ----- Exactly when rows stay frozen -----

  ghost predicate RowsEvolve(rows: map<nat, Row>, rows': map<nat, Row>) {
    forall id :: id in rows ==> id in rows' && RowEvolves(rows[id], rows'[id])
  }

  /** A save, of a cancellation or of an update, leaves a row that has been cancelled as it is. */
  predicate SparesCancelled(s: Shared, w: Write) {
    !w.NewBooking? && w.first.id in s.rows && s.rows[w.first.id].status == Cancelled ==>
      RowOf(s, w) == s.rows[w.first.id]
  }

  lemma StepFreezesIff(s: Shared, step: CallStep, n: nat)
    requires RowsStored(s.rows, s.nextId) && InFlightSound(s)
    ensures RowsEvolve(s.rows, Advance(s, step, n).rows)
            <==> (Committed(s, step).Some? ==> SparesCancelled(s, Committed(s, step).value))
  {
    if Committed(s, step).Some? {
      var w := Committed(s, step).value;
      var row, rows' := RowOf(s, w), Advance(s, step, n).rows;
      assert WriteSound(w, s.rows);
      assert rows' == s.rows[row.id := row];
      if row.id in s.rows {
        assert RowsEvolve(s.rows, rows') <==> RowEvolves(s.rows[row.id], row) by {
          assert rows'[row.id] == row;
        }
      }
    }
  }

  ghost predicate FrozenAt(run: seq<CallStep>, n: nat)
    requires n < |run|
  {
    RowsEvolve(RowsAt(run, n), RowsAt(run, n + 1))
  }

  ghost predicate FrozenThrough(run: seq<CallStep>, m: nat)
    requires m <= |run|
  {
    forall n :: 0 <= n < m ==> FrozenAt(run, n)
  }

  lemma FrozenAtIff(run: seq<CallStep>, n: nat)
    requires n < |run|
    ensures FrozenAt(run, n) <==> (CommittedAt(run, n).Some? ==>
                                   SparesCancelled(After(run, n), CommittedAt(run, n).value))
  {
    StartsBeforeEndAlways(run, n);
    StepFreezesIff(After(run, n), run[n], n);
  }

  /** Step `k` cancels the row that the call of step `n` has already read, and step `n` then stores something else. */
  ghost predicate Overrides(run: seq<CallStep>, k: nat, n: nat)
    requires k < n < |run|
  {
    && CommittedAt(run, k).Some? && CommittedAt(run, k).value.Cancellation?
    && CommittedAt(run, n).Some? && !CommittedAt(run, n).value.NewBooking? && CommittedAt(run, n).value.readAt <= k
    && StoredAt(run, k).id == StoredAt(run, n).id && StoredAt(run, k) != StoredAt(run, n)
  }

  ghost predicate OverridesNothing(run: seq<CallStep>, n: nat)
    requires n < |run|
  {
    forall k :: 0 <= k < n ==> !Overrides(run, k, n)
  }

  /** A commit that changes a frozen row overrides a cancellation committed since it read the row. */
  lemma ThawingOverrides(run: seq<CallStep>, n: nat)
    requires n < |run| && OverridesNothing(run, n)
    ensures FrozenAt(run, n)
  {
    FrozenAtIff(run, n);
    if CommittedAt(run, n).Some? && !SparesCancelled(After(run, n), CommittedAt(run, n).value) {
      var w := CommittedAt(run, n).value;
      var id := w.first.id;
      CommitHasOrigin(run, n);
      var k := RowOrigin(run, w.readAt, n, id);
      RowsStay(run, w.readAt, k, id);
      CommitHasOrigin(run, k);
      assert Overrides(run, k, n);
    }
  }

  lemma {:induction false} CancelledRowStays(run: seq<CallStep>, b: nat, n: nat, id: nat)
    requires b <= n <= |run| && FrozenThrough(run, n) && CancelledAt(run, b, id)
    ensures id in RowsAt(run, n) && RowsAt(run, n)[id] == RowsAt(run, b)[id]
    decreases n
  {
    hide After, Advance;
    if b < n {
      CancelledRowStays(run, b, n - 1, id);
      assert FrozenAt(run, n - 1);
    }
  }

  lemma OverridingThaws(run: seq<CallStep>, k: nat, n: nat)
    requires k < n < |run| && Overrides(run, k, n)
    ensures !FrozenThrough(run, n + 1)
  {
    CommitStores(run, k);
    CommitStores(run, n);
    assert CancelledAt(run, k + 1, StoredAt(run, k).id);
    if FrozenThrough(run, n + 1) {
      CancelledRowStays(run, k + 1, n + 1, StoredAt(run, k).id);
    }
  }

  /**
    No step ever changes a frozen row exactly when no save, of a cancellation or of an update, stores
    something else over a cancellation that was committed since the call read the row.
   */
  lemma FreezingIff(run: seq<CallStep>, m: nat)
    requires m <= |run|
    ensures FrozenThrough(run, m) <==> forall n :: 0 <= n < m ==> OverridesNothing(run, n)
  {
    hide FrozenAt, Overrides, After;
    if forall n :: 0 <= n < m ==> OverridesNothing(run, n) {
      forall n | 0 <= n < m
        ensures FrozenAt(run, n)
      {
        ThawingOverrides(run, n);
      }
    }
    if FrozenThrough(run, m) {
      forall n, k | 0 <= k < n < m
        ensures !Overrides(run, k, n)
      {
        if Overrides(run, k, n) {
          OverridingThaws(run, k, n);
        }
      }
    }
  }

  // ----- Exactly when a booking has at most one cancelled event -----

  ghost predicate EventsOnce(cancelled: seq<CancelledEvent>) {
    forall k, l :: 0 <= k < l < |cancelled| ==> cancelled[k].bookingId != cancelled[l].bookingId
  }

  ghost predicate Announced(cancelled: seq<CancelledEvent>, id: nat) {
    exists k :: 0 <= k < |cancelled| && cancelled[k].bookingId == id
  }

  /** The save finds its row cancelled. */
  predicate HitsCancelled(s: Shared, w: Write) {
    !w.NewBooking? && w.first.id in s.rows && s.rows[w.first.id].status == Cancelled
  }

  ghost predicate NoSaveHits(run: seq<CallStep>, m: nat)
    requires m <= |run|
  {
    forall n :: 0 <= n < m && CommittedAt(run, n).Some? ==> !HitsCancelled(After(run, n), CommittedAt(run, n).value)
  }

  /** Events are about different rows, and about rows that are cancelled. */
  ghost predicate EventsTrue(s: Shared) {
    && EventsOnce(s.cancelled)
    && forall k :: 0 <= k < |s.cancelled| ==>
       s.cancelled[k].bookingId in s.rows && s.rows[s.cancelled[k].bookingId].status == Cancelled
  }

  lemma StepKeepsEventsTrue(s: Shared, step: CallStep, n: nat)
    requires RowsStored(s.rows, s.nextId) && InFlightSound(s) && EventsTrue(s)
    requires Committed(s, step).Some? ==> !HitsCancelled(s, Committed(s, step).value)
    ensures EventsTrue(Advance(s, step, n))
  {
    if Committed(s, step).Some? {
      var w := Committed(s, step).value;
      assert WriteSound(w, s.rows);
      var row := RowOf(s, w);
      assert Advance(s, step, n).rows == s.rows[row.id := row];
    }
  }

  /** If no save finds its row cancelled, each booking has at most one event, and its row is and stays cancelled. */
  lemma {:induction false} SparedRowsHaveOneEvent(run: seq<CallStep>, m: nat)
    requires m <= |run| && NoSaveHits(run, m)
    ensures EventsTrue(After(run, m))
  {
    if m > 0 {
      SparedRowsHaveOneEvent(run, m - 1);
      StartsBeforeEndAlways(run, m - 1);
      assert CommittedAt(run, m - 1).Some? ==> !HitsCancelled(After(run, m - 1), CommittedAt(run, m - 1).value);
      StepKeepsEventsTrue(After(run, m - 1), run[m - 1], m - 1);
    }
  }

  /** A row that is cancelled without an event was created as cancelled, and no save of it is under way. */
  ghost predicate UnannouncedAtRest(s: Shared) {
    forall id :: id in s.rows && s.rows[id].status == Cancelled && !Announced(s.cancelled, id) ==>
      && (forall j :: 0 <= j < |s.drafts| && s.drafts[j].first.id == id ==> s.drafts[j].first.status == Cancelled)
      && (forall j :: 0 <= j < |s.writes| && !s.writes[j].NewBooking? ==> s.writes[j].first.id != id)
  }

  lemma AnnouncedStays(cancelled: seq<CancelledEvent>, e: CancelledEvent, id: nat)
    ensures Announced(cancelled + [e], id) <==> Announced(cancelled, id) || id == e.bookingId
  {
    var more := cancelled + [e];
    assert more[|cancelled|] == e;
    if Announced(cancelled, id) {
      var k :| 0 <= k < |cancelled| && cancelled[k].bookingId == id;
      assert more[k].bookingId == id;
    }
  }

  lemma StepKeepsUnannounced(s: Shared, step: CallStep, n: nat)
    requires RowsStored(s.rows, s.nextId) && InFlightSound(s) && UnannouncedAtRest(s)
    requires step.Commit? ==> step.published
    ensures UnannouncedAtRest(Advance(s, step, n))
  {
    var s' := Advance(s, step, n);
    forall id | id in s'.rows && s'.rows[id].status == Cancelled && !Announced(s'.cancelled, id)
      ensures forall j :: 0 <= j < |s'.drafts| && s'.drafts[j].first.id == id ==> s'.drafts[j].first.status == Cancelled
      ensures forall j :: 0 <= j < |s'.writes| && !s'.writes[j].NewBooking? ==> s'.writes[j].first.id != id
    {
      if Committed(s, step).Some? {
        CommitKeepsUnannounced(s, step, n, id);
      }
    }
  }

  lemma CommitKeepsUnannounced(s: Shared, step: CallStep, n: nat, id: nat)
    requires RowsStored(s.rows, s.nextId) && InFlightSound(s) && UnannouncedAtRest(s)
    requires Committed(s, step).Some? && step.published
    requires var s' := Advance(s, step, n);
             id in s'.rows && s'.rows[id].status == Cancelled && !Announced(s'.cancelled, id)
    ensures forall j :: 0 <= j < |s.drafts| && s.drafts[j].first.id == id ==> s.drafts[j].first.status == Cancelled
    ensures forall j :: 0 <= j < |s.writes| && !s.writes[j].NewBooking? ==> s.writes[j].first.id != id
  {
    var w := Committed(s, step).value;
    assert WriteSound(w, s.rows);
    if w.Cancellation? {
      AnnouncedStays(s.cancelled, CancelledEvent(RowOf(s, w).id, w.reason), id);
    }
    if w.NewBooking? && id == s.nextId {
      forall j | 0 <= j < |s.drafts|
        ensures s.drafts[j].first.id != id
      {
        assert DraftSound(s.drafts[j], s.rows);
      }
      forall j | 0 <= j < |s.writes| && !s.writes[j].NewBooking?
        ensures s.writes[j].first.id != id
      {
        assert WriteSound(s.writes[j], s.rows);
      }
    } else {
      assert id in s.rows && s.rows[id].status == Cancelled && !Announced(s.cancelled, id);
    }
  }

  ghost predicate AllPublished(run: seq<CallStep>, m: nat)
    requires m <= |run|
  {
    forall n :: 0 <= n < m && run[n].Commit? ==> run[n].published
  }

  lemma NextKeepsUnannounced(run: seq<CallStep>, n: nat)
    requires n < |run| && UnannouncedAtRest(After(run, n)) && (run[n].Commit? ==> run[n].published)
    ensures UnannouncedAtRest(After(run, n + 1))
  {
    hide UnannouncedAtRest, Advance, RowsStored, InFlightSound;
    StartsBeforeEndAlways(run, n);
    StepKeepsUnannounced(After(run, n), run[n], n);
  }

  lemma {:induction false} UnannouncedAlwaysAtRest(run: seq<CallStep>, m: nat)
    requires m <= |run| && AllPublished(run, m)
    ensures UnannouncedAtRest(After(run, m))
  {
    if m > 0 {
      hide After, UnannouncedAtRest;
      UnannouncedAlwaysAtRest(run, m - 1);
      NextKeepsUnannounced(run, m - 1);
    }
  }

  lemma NextLogIsLonger(run: seq<CallStep>, n: nat)
    requires n < |run|
    ensures After(run, n).cancelled <= After(run, n + 1).cancelled
  {
  }

  lemma {:induction false} EventsNeverDisappear(run: seq<CallStep>, n: nat, m: nat)
    requires n <= m <= |run|
    ensures After(run, n).cancelled <= After(run, m).cancelled
    decreases m
  {
    hide *;
    if n < m {
      EventsNeverDisappear(run, n, m - 1);
      NextLogIsLonger(run, m - 1);
    }
  }

  /** The row of this booking has been stored as cancelled by step `n`, even if it was revived since. */
  ghost predicate WasCancelled(run: seq<CallStep>, n: nat, id: nat)
    requires n <= |run|
  {
    exists b :: 0 <= b <= n && CancelledAt(run, b, id)
  }

  predicate CancelledAt(run: seq<CallStep>, n: nat, id: nat)
    requires n <= |run|
  {
    id in After(run, n).rows && After(run, n).rows[id].status == Cancelled
  }

  /** No cancellation is saved for a row that has been cancelled before. */
  ghost predicate CancellationsAreFirst(run: seq<CallStep>, m: nat)
    requires m <= |run|
  {
    forall n :: 0 <= n < m && CommittedAt(run, n).Some? && CommittedAt(run, n).value.Cancellation? ==>
      !WasCancelled(run, n, CommittedAt(run, n).value.first.id)
  }

  /** Every event is about a row that has been cancelled. */
  ghost predicate EventsHaveCause(run: seq<CallStep>, m: nat)
    requires m <= |run|
  {
    forall k :: 0 <= k < |After(run, m).cancelled| ==> WasCancelled(run, m, After(run, m).cancelled[k].bookingId)
  }

  lemma NextEventHasCause(run: seq<CallStep>, n: nat)
    requires n < |run| && EventsHaveCause(run, n)
    ensures EventsHaveCause(run, n + 1)
  {
    var log, log' := After(run, n).cancelled, After(run, n + 1).cancelled;
    forall k | 0 <= k < |log'|
      ensures WasCancelled(run, n + 1, log'[k].bookingId)
    {
      if k < |log| {
        assert log'[k] == log[k];
        var b :| 0 <= b <= n && CancelledAt(run, b, log[k].bookingId);
      } else {
        assert CancelledAt(run, n + 1, log'[k].bookingId);
      }
    }
  }

  lemma NextEventIsFirst(run: seq<CallStep>, n: nat)
    requires n < |run| && EventsHaveCause(run, n) && EventsOnce(After(run, n).cancelled)
    requires CommittedAt(run, n).Some? && CommittedAt(run, n).value.Cancellation? ==>
               !WasCancelled(run, n, CommittedAt(run, n).value.first.id)
    ensures EventsOnce(After(run, n + 1).cancelled)
  {
    hide WasCancelled;
  }

  lemma StartHasNoEvents(run: seq<CallStep>)
    ensures EventsHaveCause(run, 0) && EventsOnce(After(run, 0).cancelled)
  {
  }

  lemma {:induction false} FirstCancellationsHaveOneEvent(run: seq<CallStep>, m: nat)
    requires m <= |run| && CancellationsAreFirst(run, m)
    ensures EventsHaveCause(run, m) && EventsOnce(After(run, m).cancelled)
  {
    hide After, EventsHaveCause, EventsOnce, WasCancelled, CommittedAt;
    if m == 0 {
      StartHasNoEvents(run);
    } else {
      FirstCancellationsHaveOneEvent(run, m - 1);
      NextEventHasCause(run, m - 1);
      NextEventIsFirst(run, m - 1);
    }
  }

  /** A row without an event that is cancelled stays so, as no save of it is under way. */
  lemma NextStaysCancelled(run: seq<CallStep>, n: nat, id: nat)
    requires n < |run| && AllPublished(run, n) && CancelledAt(run, n, id) && !Announced(After(run, n).cancelled, id)
    ensures CancelledAt(run, n + 1, id)
  {
    UnannouncedAlwaysAtRest(run, n);
    StartsBeforeEndAlways(run, n);
    hide Announced, CreateProblem, PlacementProblem, RequestProblem, ChangeProblem, ConflictCount;
  }

  lemma AnnouncedForGood(run: seq<CallStep>, n: nat, m: nat, id: nat)
    requires n <= m <= |run| && Announced(After(run, n).cancelled, id)
    ensures Announced(After(run, m).cancelled, id)
  {
    EventsNeverDisappear(run, n, m);
    var early, log := After(run, n).cancelled, After(run, m).cancelled;
    var k :| 0 <= k < |early| && early[k].bookingId == id;
    assert log[k] == early[k];
  }

  lemma {:induction false} CancelledOrAnnounced(run: seq<CallStep>, b: nat, n: nat, id: nat)
    requires b <= n <= |run| && AllPublished(run, n) && CancelledAt(run, b, id)
    ensures CancelledAt(run, n, id) || Announced(After(run, n).cancelled, id)
    decreases n
  {
    hide After, CancelledAt, Announced;
    if b < n {
      CancelledOrAnnounced(run, b, n - 1, id);
      if Announced(After(run, n - 1).cancelled, id) {
        AnnouncedForGood(run, n - 1, n, id);
      } else {
        NextStaysCancelled(run, n - 1, id);
      }
    }
  }

  /** A published cancellation of a row that has been cancelled before gives the booking a second event. */
  lemma LaterCancellationRepeatsEvent(run: seq<CallStep>, n: nat)
    requires n < |run| && AllPublished(run, n + 1) && CommittedAt(run, n).Some?
             && CommittedAt(run, n).value.Cancellation?
    requires WasCancelled(run, n, CommittedAt(run, n).value.first.id)
    ensures !EventsOnce(After(run, n + 1).cancelled)
  {
    var s, w := After(run, n), CommittedAt(run, n).value;
    var b :| 0 <= b <= n && CancelledAt(run, b, w.first.id);
    CancelledOrAnnounced(run, b, n, w.first.id);
    UnannouncedAlwaysAtRest(run, n);
    assert s.writes[run[n].which] == w;
    assert Announced(s.cancelled, w.first.id);
    var k :| 0 <= k < |s.cancelled| && s.cancelled[k].bookingId == w.first.id;
    var log := After(run, n + 1).cancelled;
    assert log[k] == s.cancelled[k] && log[|s.cancelled|].bookingId == w.first.id;
  }

  /**
    When publishing works, each booking has at most one cancelled event exactly when no cancellation is
    saved for a row that has been cancelled before, whether or not an update revived it in between.
   */
  lemma OneEventIff(run: seq<CallStep>, m: nat)
    requires m <= |run| && AllPublished(run, m)
    ensures EventsOnce(After(run, m).cancelled) <==> CancellationsAreFirst(run, m)
  {
    hide After, WasCancelled;
    if CancellationsAreFirst(run, m) {
      FirstCancellationsHaveOneEvent(run, m);
    } else {
      var n :| 0 <= n < m && CommittedAt(run, n).Some? && CommittedAt(run, n).value.Cancellation?
               && WasCancelled(run, n, CommittedAt(run, n).value.first.id);
      LaterCancellationRepeatsEvent(run, n);
      EventsNeverDisappear(run, n + 1, m);
      var early, log := After(run, n + 1).cancelled, After(run, m).cancelled;
      var k, l :| 0 <= k < l < |early| && early[k].bookingId == early[l].bookingId;
      assert log[k] == early[k] && log[l] == early[l];
    }
  }

  // ----- Exactly when published cancellations stay true -----

  /** Every event is about a row that is cancelled at this moment. */
  ghost predicate EventsTrueAt(run: seq<CallStep>, n: nat)
    requires n <= |run|
  {
    forall k :: 0 <= k < |After(run, n).cancelled| ==> CancelledAt(run, n, After(run, n).cancelled[k].bookingId)
  }

  ghost predicate EventsTrueThrough(run: seq<CallStep>, m: nat)
    requires m <= |run|
  {
    forall n :: 0 <= n <= m ==> EventsTrueAt(run, n)
  }

  ghost predicate PublishesAt(run: seq<CallStep>, k: nat, id: nat)
    requires k < |run|
  {
    && CommittedAt(run, k).Some? && CommittedAt(run, k).value.Cancellation?
    && run[k].published && CommittedAt(run, k).value.first.id == id
  }

  /** Step `n` saves an update of a row whose cancellation has been published. */
  ghost predicate Revives(run: seq<CallStep>, n: nat)
    requires n < |run|
  {
    && CommittedAt(run, n).Some? && CommittedAt(run, n).value.Change?
    && exists k :: 0 <= k < n && PublishesAt(run, k, CommittedAt(run, n).value.first.id)
  }

  lemma NewEventIsPublished(run: seq<CallStep>, n: nat, j: nat)
    requires n < |run| && |After(run, n).cancelled| <= j < |After(run, n + 1).cancelled|
    ensures PublishesAt(run, n, After(run, n + 1).cancelled[j].bookingId)
  {
  }

  lemma {:induction false} EventOrigin(run: seq<CallStep>, n: nat, j: nat) returns (k: nat)
    requires n <= |run| && j < |After(run, n).cancelled|
    ensures k < n && PublishesAt(run, k, After(run, n).cancelled[j].bookingId)
  {
    assert n > 0;
    hide After, PublishesAt;
    NextLogIsLonger(run, n - 1);
    if j < |After(run, n - 1).cancelled| {
      k := EventOrigin(run, n - 1, j);
    } else {
      k := n - 1;
      NewEventIsPublished(run, k, j);
    }
  }

  lemma NextEventsTrue(run: seq<CallStep>, n: nat)
    requires n < |run| && EventsTrueAt(run, n) && !Revives(run, n)
    ensures EventsTrueAt(run, n + 1)
  {
    StartsBeforeEndAlways(run, n);
    var log, log' := After(run, n).cancelled, After(run, n + 1).cancelled;
    forall j | 0 <= j < |log'|
      ensures CancelledAt(run, n + 1, log'[j].bookingId)
    {
      if j < |log| {
        assert log'[j] == log[j] && CancelledAt(run, n, log[j].bookingId);
        var k := EventOrigin(run, n, j);
      }
    }
  }

  lemma PublicationIsLogged(run: seq<CallStep>, k: nat, id: nat)
    requires k < |run| && PublishesAt(run, k, id)
    ensures Announced(After(run, k + 1).cancelled, id)
  {
    assert After(run, k + 1).cancelled[|After(run, k).cancelled|].bookingId == id;
  }

  lemma ChangedRowIsPending(run: seq<CallStep>, n: nat)
    requires n < |run| && CommittedAt(run, n).Some? && CommittedAt(run, n).value.Change?
    ensures !CancelledAt(run, n + 1, CommittedAt(run, n).value.first.id)
  {
    CommitHasOrigin(run, n);
    CommitStores(run, n);
  }

  lemma RevivedEventIsFalse(run: seq<CallStep>, n: nat)
    requires n < |run| && Revives(run, n)
    ensures !EventsTrueAt(run, n + 1)
  {
    hide After, PublishesAt, CancelledAt;
    var id := CommittedAt(run, n).value.first.id;
    var k :| 0 <= k < n && PublishesAt(run, k, id);
    PublicationIsLogged(run, k, id);
    AnnouncedForGood(run, k + 1, n + 1, id);
    ChangedRowIsPending(run, n);
  }

  /**
    Published cancellations are true at every moment exactly when no update
    is saved after its row's cancellation was published.
   */
  lemma {:induction false} EventsStayTrueIff(run: seq<CallStep>, m: nat)
    requires m <= |run|
    ensures EventsTrueThrough(run, m) <==> forall n :: 0 <= n < m ==> !Revives(run, n)
    decreases m
  {
    if m == 0 {
      assert EventsTrueAt(run, 0);
    } else {
      hide EventsTrueAt, Revives, After;
      EventsStayTrueIff(run, m - 1);
      if EventsTrueThrough(run, m - 1) {
        if Revives(run, m - 1) {
          RevivedEventIsFalse(run, m - 1);
        } else {
          NextEventsTrue(run, m - 1);
        }
      }
    }
  }
}
