/**
  Which schedules of interleaved booking calls double-book a venue, and the locking that makes every
  schedule safe.
 */
module InterleavedConflicts {
  import opened Common
  import opened Time
  import opened Sweep
  import opened VenueSchedule
  import opened Bookings
  import opened InterleavedBookings
  import opened InterleavedRows

  // ----- Intruders -----

  /** The update stores another place or time than the one it validated, because its row moved between its two reads. */
  predicate Misplaced(w: Write) {
    w.Change? &&
      var row := Updated(w.first, w.u);
      row.venueId != w.validated.venueId || row.startAt != w.validated.startAt || row.endAt != w.validated.endAt
  }

  /** The last step at which the place and time of the write were checked; a misplaced update never checked its own. */
  function CheckedAt(w: Write): nat {
    match w
    case NewBooking(_, clearedAt) => clearedAt
    case Cancellation(_, _, readAt) => readAt
    case Change(_, _, _, _, clearedAt) => if Misplaced(w) then 0 else clearedAt
  }

  /** Step `k` stored another row of the venue that overlaps what step `n` stores, and that row is still there. */
  ghost predicate Intrudes(run: seq<CallStep>, k: nat, n: nat)
    requires k < n < |run|
  {
    && CommittedAt(run, k).Some? && CommittedAt(run, n).Some?
    && var r, row := StoredAt(run, k), StoredAt(run, n);
    && r.id != row.id && r.venueId == row.venueId && Overlaps(Window(r), Window(row))
    && r.id in RowsAt(run, n) && RowsAt(run, n)[r.id] == r
  }

  /** Some commit between the check of the call and its own commit intrudes. */
  ghost predicate Intruded(run: seq<CallStep>, n: nat)
    requires n < |run|
  {
    CommittedAt(run, n).Some? && exists k :: CheckedAt(CommittedAt(run, n).value) <= k < n && Intrudes(run, k, n)
  }

  /** No row overlapping the write was stored when its place and time were last checked. */
  lemma ClearWhenChecked(run: seq<CallStep>, n: nat, id: nat)
    requires n < |run| && CommittedAt(run, n).Some? && CheckedAt(CommittedAt(run, n).value) <= n
    requires NoDoubleBooking(RowsAt(run, CheckedAt(CommittedAt(run, n).value)))
    requires id in RowsAt(run, CheckedAt(CommittedAt(run, n).value)) && id != StoredAt(run, n).id
    requires RowsAt(run, CheckedAt(CommittedAt(run, n).value))[id].venueId == StoredAt(run, n).venueId
    ensures !Overlaps(Window(RowsAt(run, CheckedAt(CommittedAt(run, n).value))[id]), Window(StoredAt(run, n)))
  {
    var w := CommittedAt(run, n).value;
    var rows, row := RowsAt(run, CheckedAt(w)), StoredAt(run, n);
    OriginsAlways(run, n);
    StartsBeforeEndAlways(run, n);
    StartsBeforeEndAlways(run, CheckedAt(w));
    assert w in After(run, n).writes;
    assert WriteOrigin(run, w, n) && WriteSound(w, RowsAt(run, n));
    match w
    case NewBooking(_, _) =>
      ConflictCountMeansTaken(rows, row.venueId, row.startAt, row.endAt, None);
    case Cancellation(_, _, _) =>
    case Change(first, _, _, _, _) =>
      ConflictCountMeansTaken(rows, row.venueId, row.startAt, row.endAt, Some(first.id));
  }

  ghost predicate SafeAt(run: seq<CallStep>, n: nat)
    requires n <= |run|
  {
    NoDoubleBooking(RowsAt(run, n))
  }

  /**
    A commit keeps the table free of double bookings exactly when no
    intruder was stored since its place and time were checked.
   */
  lemma CommitIsSafeIff(run: seq<CallStep>, n: nat)
    requires n < |run| && forall b :: 0 <= b <= n ==> SafeAt(run, b)
    ensures SafeAt(run, n + 1) <==> !Intruded(run, n)
  {
    assert SafeAt(run, n);
    if CommittedAt(run, n).Some? {
      var row := StoredAt(run, n);
      CommitStores(run, n);
      TakenIffIntruded(run, n);
      hide Intruded, Taken, ConflictCount, After, StoredAt;
      StoreKeepsDisjoint(RowsAt(run, n), row);
      ConflictCountMeansTaken(RowsAt(run, n), row.venueId, row.startAt, row.endAt, Some(row.id));
    }
  }

  lemma CheckedBefore(run: seq<CallStep>, n: nat)
    requires n < |run| && CommittedAt(run, n).Some?
    ensures CheckedAt(CommittedAt(run, n).value) <= n
  {
    OriginsAlways(run, n);
    assert WriteOrigin(run, CommittedAt(run, n).value, n);
  }

  lemma TakenIffIntruded(run: seq<CallStep>, n: nat)
    requires n < |run| && CommittedAt(run, n).Some? && forall b :: 0 <= b <= n ==> SafeAt(run, b)
    ensures Taken(RowsAt(run, n), StoredAt(run, n).venueId, Window(StoredAt(run, n)), Some(StoredAt(run, n).id))
            <==> Intruded(run, n)
  {
    var row, rows, since := StoredAt(run, n), RowsAt(run, n), CheckedAt(CommittedAt(run, n).value);
    CheckedBefore(run, n);
    if Taken(rows, row.venueId, Window(row), Some(row.id)) {
      var id :| id in rows && rows[id].venueId == row.venueId && id != row.id
        && Overlaps(Window(rows[id]), Window(row));
      StartsBeforeEndAlways(run, n);
      var k := RowOrigin(run, since, n, id);
      assert SafeAt(run, since);
      if id in RowsAt(run, since) && RowsAt(run, since)[id] == rows[id] {
        ClearWhenChecked(run, n, id);
      } else {
        assert Intrudes(run, k, n);
      }
    }
    if Intruded(run, n) {
      var k :| since <= k < n && Intrudes(run, k, n);
      var r := StoredAt(run, k);
      assert rows[r.id] == r;
    }
  }

  /** Through the first `m` steps no venue is ever double-booked. */
  ghost predicate SafeThrough(run: seq<CallStep>, m: nat)
    requires m <= |run|
  {
    forall n :: 0 <= n <= m ==> SafeAt(run, n)
  }

  ghost predicate UndisturbedThrough(run: seq<CallStep>, m: nat)
    requires m <= |run|
  {
    forall n :: 0 <= n < m ==> !Intruded(run, n)
  }

  /**
    A schedule is free of double bookings throughout exactly when between the last check of each call and
    its own commit no other commit stores an overlapping row of the venue that is still there. For an update
    whose row moved between its two reads, which never checked what it stores, all earlier commits count.
   */
  lemma {:induction false} ScheduleIsSafeIff(run: seq<CallStep>, m: nat)
    requires m <= |run|
    ensures SafeThrough(run, m) <==> UndisturbedThrough(run, m)
    decreases m
  {
    if m == 0 {
      assert SafeAt(run, 0);
    } else {
      ScheduleIsSafeIff(run, m - 1);
      hide Intruded, SafeAt;
      if SafeThrough(run, m - 1) {
        CommitIsSafeIff(run, m - 1);
      }
    }
  }

  // ----- A lock that makes every schedule safe -----

  /**
    The step from which a call would have to hold its locks: its first
    read of the row, or the last check of a new booking.
   */
  function BegunAt(w: Write): nat {
    match w
    case NewBooking(_, clearedAt) => clearedAt
    case Cancellation(_, _, readAt) => readAt
    case Change(_, _, _, readAt, _) => readAt
  }

  /**
    From when the call of step `n` begins to its commit, no other call
    writes its row or stores a row at the venue it writes to.
   */
  ghost predicate LockedAt(run: seq<CallStep>, n: nat)
    requires n < |run|
  {
    CommittedAt(run, n).Some? ==>
      forall k :: BegunAt(CommittedAt(run, n).value) <= k < n && CommittedAt(run, k).Some? ==>
        StoredAt(run, k).id != StoredAt(run, n).id && StoredAt(run, k).venueId != StoredAt(run, n).venueId
  }

  /** While its row is locked, a call finds the row at its commit, and an update at validation, as it first read it. */
  lemma LockedRowIsCurrent(run: seq<CallStep>, n: nat)
    requires n < |run| && LockedAt(run, n) && CommittedAt(run, n).Some? && !CommittedAt(run, n).value.NewBooking?
    ensures var w := CommittedAt(run, n).value;
            && w.first.id in RowsAt(run, n) && RowsAt(run, n)[w.first.id] == w.first
            && (w.Change? ==> w.validated == Updated(w.first, w.u))
  {
    var w := CommittedAt(run, n).value;
    OriginsAlways(run, n);
    assert w in After(run, n).writes && WriteOrigin(run, w, n);
    assert StoredAt(run, n).id == w.first.id;
    UnwrittenRow(run, w.readAt, n, n);
    if w.Change? {
      UnwrittenRow(run, w.readAt, w.clearedAt, n);
    }
  }

  lemma UnwrittenRow(run: seq<CallStep>, b: nat, m: nat, n: nat)
    requires b <= m <= n < |run| && CommittedAt(run, n).Some? && StoredAt(run, n).id in RowsAt(run, b)
    requires forall k :: b <= k < n && CommittedAt(run, k).Some? ==> StoredAt(run, k).id != StoredAt(run, n).id
    ensures StoredAt(run, n).id in RowsAt(run, m)
            && RowsAt(run, m)[StoredAt(run, n).id] == RowsAt(run, b)[StoredAt(run, n).id]
  {
    var id := StoredAt(run, n).id;
    RowsStay(run, b, m, id);
    StartsBeforeEndAlways(run, m);
    var k := RowOrigin(run, b, m, id);
  }

  /**
    A locked commit is not intruded on, has read its row on one day,
    overrides nothing, and finds its row not cancelled.
   */
  lemma LockedCommitIsClean(run: seq<CallStep>, n: nat)
    requires n < |run| && LockedAt(run, n)
    ensures !Intruded(run, n) && ReadsAgreeAt(run, n) && OverridesNothing(run, n)
    ensures CommittedAt(run, n).Some? ==> !HitsCancelled(After(run, n), CommittedAt(run, n).value)
  {
    if CommittedAt(run, n).Some? {
      var w := CommittedAt(run, n).value;
      CommitHasOrigin(run, n);
      if !w.NewBooking? {
        LockedRowIsCurrent(run, n);
      }
      if w.Change? {
        UnwrittenRow(run, w.readAt, w.clearedAt, n);
      }
      hide After, Advance;
      assert BegunAt(w) <= CheckedAt(w);
      forall k | CheckedAt(w) <= k < n
        ensures !Intrudes(run, k, n)
      {
      }
    }
  }

  ghost predicate LockedThrough(run: seq<CallStep>, m: nat)
    requires m <= |run|
  {
    forall n :: 0 <= n < m ==> LockedAt(run, n)
  }

  /**
    Locking the row and the venue from a call's first read, or a new booking's last check, to its commit
    makes every interleaving safe: no double booking, windows of one day, frozen rows, and at most one
    cancelled event per booking.
   */
  lemma LockedSchedulesAreSafe(run: seq<CallStep>, m: nat)
    requires m <= |run| && LockedThrough(run, m)
    ensures SafeThrough(run, m) && OneDayThrough(run, m) && FrozenThrough(run, m) && EventsTrue(After(run, m))
  {
    hide Intruded, ReadsAgreeAt, OverridesNothing, LockedAt, HitsCancelled, After;
    forall n | 0 <= n < m
      ensures !Intruded(run, n) && ReadsAgreeAt(run, n) && OverridesNothing(run, n)
      ensures CommittedAt(run, n).Some? ==> !HitsCancelled(After(run, n), CommittedAt(run, n).value)
    {
      LockedCommitIsClean(run, n);
    }
    ScheduleIsSafeIff(run, m);
    OneDayIff(run, m);
    FreezingIff(run, m);
    SparedRowsHaveOneEvent(run, m);
  }

  // ----- Calls that are not interrupted are the atomic steps -----

  /** The steps of a call. */
  function StepsOf(op: Op): seq<CallStep> {
    match op
    case Create(call) => [ValidateCreate(call), RecheckCreate(0), Commit(0, true)]
    case Cancel(id, reason, published) => [ReadToCancel(id, reason), Commit(0, published)]
    case Update(id, update, now, week) => [ReadToUpdate(id, update, now), ValidateUpdate(0, week), Commit(0, true)]
  }

  function Play(s: Shared, run: seq<CallStep>, n: nat): Shared
    decreases |run|
  {
    if run == [] then s else Play(Advance(s, run[0], n), run[1..], n + 1)
  }

  /** When nothing else is half way, the steps of a call run back to back do what its atomic step does. */
  lemma UninterruptedIsAtomic(t: Table, op: Op, n: nat)
    requires RowsWellFormed(t)
    ensures Play(Shared(t.rows, t.nextId, [], [], [], t.cancelled), StepsOf(op), n)
            == Shared(Apply(t, op).rows, Apply(t, op).nextId, [], [], [], Apply(t, op).cancelled)
  {
    var s := Shared(t.rows, t.nextId, [], [], [], t.cancelled);
    match op
    case Create(call) =>
      PlayThree(s, ValidateCreate(call), RecheckCreate(0), Commit(0, true), n);
      CreateSteps(t, call, n);
    case Cancel(id, reason, published) =>
      PlayTwo(s, ReadToCancel(id, reason), Commit(0, published), n);
      CancelSteps(t, id, reason, published, n);
    case Update(id, update, now, week) =>
      PlayThree(s, ReadToUpdate(id, update, now), ValidateUpdate(0, week), Commit(0, true), n);
      UpdateSteps(t, id, update, now, week, n);
  }

  lemma PlayTwo(s: Shared, step: CallStep, step': CallStep, n: nat)
    ensures Play(s, [step, step'], n) == Advance(Advance(s, step, n), step', n + 1)
  {
    assert [step, step'][1..] == [step'] && [step'][1..] == [];
    assert Play(Advance(s, step, n), [step'], n + 1) == Play(Advance(Advance(s, step, n), step', n + 1), [], n + 2);
  }

  lemma PlayThree(s: Shared, step: CallStep, step': CallStep, step'': CallStep, n: nat)
    ensures Play(s, [step, step', step''], n) == Advance(Advance(Advance(s, step, n), step', n + 1), step'', n + 2)
  {
    assert [step, step', step''][1..] == [step', step''];
    PlayTwo(Advance(s, step, n), step', step'', n + 1);
  }

  lemma CreateSteps(t: Table, call: CreateCall, n: nat)
    ensures var s := Shared(t.rows, t.nextId, [], [], [], t.cancelled);
            Advance(Advance(Advance(s, ValidateCreate(call), n), RecheckCreate(0), n + 1), Commit(0, true), n + 2)
            == Shared(CreateStep(t, call).0.rows, CreateStep(t, call).0.nextId, [], [], [], t.cancelled)
  {
    if CreateProblem(t.rows, call).None? {
      var row := NewRow(call, 0);
      assert Without([row], 0) == [] && Without([NewBooking(row, n + 1)], 0) == [];
      hide Without, ScheduleProblem;
    }
  }

  lemma CancelSteps(t: Table, id: nat, reason: string, published: bool, n: nat)
    requires RowsWellFormed(t)
    ensures var s := Shared(t.rows, t.nextId, [], [], [], t.cancelled);
            Advance(Advance(s, ReadToCancel(id, reason), n), Commit(0, published), n + 1)
            == Shared(CancelStep(t, id, reason, published).0.rows, t.nextId, [], [], [],
                      CancelStep(t, id, reason, published).0.cancelled)
  {
    if id in t.rows {
      assert Without([Cancellation(t.rows[id], reason, n)], 0) == [];
    }
  }

  lemma UpdateSteps(t: Table, id: nat, u: UpdateRequest, now: Instant, week: Option<Week<DayDTO>>, n: nat)
    requires RowsWellFormed(t)
    ensures var s := Shared(t.rows, t.nextId, [], [], [], t.cancelled);
            Advance(Advance(Advance(s, ReadToUpdate(id, u, now), n), ValidateUpdate(0, week), n + 1), Commit(0, true),
                    n + 2)
            == Shared(UpdateStep(t, id, u, now, week).0.rows, t.nextId, [], [], [], t.cancelled)
  {
    if id in t.rows {
      var first := t.rows[id];
      assert Without([Draft(first, u, n)], 0) == [];
      assert Without([Change(first, u, Updated(first, u), n, n + 1)], 0) == [];
    }
  }
}
