/**
  The booking calls without the assumption that each is atomic. Create validates, counts conflicts
  again and inserts; cancel reads a row and saves it; update reads a row, reads it again to validate, and
  saves the first copy. Nothing is locked in between, so any number of calls may be half way at any time.
 */
module InterleavedBookings {
  import opened Common
  import opened Time
  import opened VenueSchedule
  import opened Bookings

  /** An update that has read its row and not validated yet. */
  datatype Draft = Draft(first: Row, u: UpdateRequest, readAt: nat)

  /** What a call is about to write, with the steps at which it read its row and passed its last check. */
  datatype Write =
    | NewBooking(row: Row, clearedAt: nat)
    | Cancellation(first: Row, reason: string, readAt: nat)
    | Change(first: Row, u: UpdateRequest, validated: Row, readAt: nat, clearedAt: nat)

  /** The table and the cancelled topic, and the calls that are half way. */
  datatype Shared = Shared(rows: map<nat, Row>, nextId: nat, candidates: seq<Row>, drafts: seq<Draft>,
                           writes: seq<Write>,
                           cancelled: seq<CancelledEvent>)

  const NOTHING := Shared(map[], 1, [], [], [], [])

  datatype CallStep =
    | ValidateCreate(call: CreateCall)
    | RecheckCreate(which: nat)
    | ReadToCancel(id: nat, reason: string)
    | ReadToUpdate(id: nat, u: UpdateRequest, now: Instant)
    | ValidateUpdate(which: nat, week: Option<Week<DayDTO>>)
    | Commit(which: nat, published: bool)

  /** The row that a write stores: an update stores its first copy of the row, changed. */
  function RowOf(s: Shared, w: Write): Row {
    match w
    case NewBooking(row, _) => row.(id := s.nextId)
    case Cancellation(first, reason, _) => first.(status := Cancelled, reason := reason)
    case Change(first, u, _, _, _) => Updated(first, u)
  }

  function Committed(s: Shared, step: CallStep): Option<Write> {
    if step.Commit? && step.which < |s.writes| then Some(s.writes[step.which]) else None
  }

  /** Step number `n`: checks look at the table as it is; a commit writes without looking. */
  function Advance(s: Shared, step: CallStep, n: nat): Shared {
    match step
    case ValidateCreate(call) =>
      if CreateProblem(s.rows, call).None? then s.(candidates := s.candidates + [NewRow(call, 0)]) else s
    case RecheckCreate(which) =>
      if which >= |s.candidates| then s
      else
        var row, rest := s.candidates[which], s.(candidates := Without(s.candidates, which));
        if ConflictCount(s.rows, row.venueId, row.startAt, row.endAt, None) > 0 then rest
        else rest.(writes := s.writes + [NewBooking(row, n)])
    case ReadToCancel(id, reason) =>
      if id !in s.rows || s.rows[id].status == Cancelled || s.rows[id].status == Completed then s
      else s.(writes := s.writes + [Cancellation(s.rows[id], reason, n)])
    case ReadToUpdate(id, u, now) =>
      if id !in s.rows || RequestProblem(s.rows[id], u, now).Some? then s
      else s.(drafts := s.drafts + [Draft(s.rows[id], u, n)])
    case ValidateUpdate(which, week) =>
      if which >= |s.drafts| then s
      else
        var d, rest := s.drafts[which], s.(drafts := Without(s.drafts, which));
        if d.first.id !in s.rows then rest
        else
          var row := Updated(s.rows[d.first.id], d.u);
          if PlacementProblem(s.rows, row.venueId, row.startAt, row.endAt, week, Some(d.first.id)).Some?
             || ChangeProblem(d.first, d.u).Some?
          then rest
          else rest.(writes := s.writes + [Change(d.first, d.u, row, d.readAt, n)])
    case Commit(which, published) =>
      if which >= |s.writes| then s
      else
        var w, row := s.writes[which], RowOf(s, s.writes[which]);
        s.(rows := s.rows[row.id := row],
           nextId := if w.NewBooking? then s.nextId + 1 else s.nextId,
           writes := Without(s.writes, which),
           cancelled := if w.Cancellation? && published then s.cancelled + [CancelledEvent(row.id, w.reason)]
             else s.cancelled)
  }

  /** The state after the first `n` steps. */
  function After(run: seq<CallStep>, n: nat): Shared
    requires n <= |run|
  {
    if n == 0 then NOTHING else Advance(After(run, n - 1), run[n - 1], n - 1)
  }

  /** What step `n` commits, and the row it thereby stores. */
  function CommittedAt(run: seq<CallStep>, n: nat): Option<Write>
    requires n < |run|
  {
    Committed(After(run, n), run[n])
  }

  function StoredAt(run: seq<CallStep>, n: nat): Row
    requires n < |run| && CommittedAt(run, n).Some?
  {
    RowOf(After(run, n), CommittedAt(run, n).value)
  }

  // ----- What survives any interleaving -----

  /** A copy of a row: it is stored, and differs from it only while that one is pending or cancelled. */
  ghost predicate CopyOf(first: Row, rows: map<nat, Row>) {
    && first.id in rows && first.startAt < first.endAt
    && (rows[first.id] == first || rows[first.id].status == Pending || rows[first.id].status == Cancelled)
  }

  ghost predicate DraftSound(d: Draft, rows: map<nat, Row>) {
    CopyOf(d.first, rows) && Updated(d.first, d.u).startAt < Updated(d.first, d.u).endAt
  }

  ghost predicate WriteSound(w: Write, rows: map<nat, Row>) {
    match w
    case NewBooking(row, _) => row.startAt < row.endAt && SameDay(row.startAt, row.endAt)
    case Cancellation(first, _, _) => CopyOf(first, rows) && first.status != Cancelled && first.status != Completed
    case Change(first, u, validated, _, _) =>
      && DraftSound(Draft(first, u, 0), rows) && first.status == Pending && SameDay(validated.startAt, validated.endAt)
  }

  ghost predicate InFlightSound(s: Shared) {
    && (forall j :: 0 <= j < |s.candidates| ==> s.candidates[j].startAt < s.candidates[j].endAt
                                                && SameDay(s.candidates[j].startAt, s.candidates[j].endAt))
    && (forall j :: 0 <= j < |s.drafts| ==> DraftSound(s.drafts[j], s.rows))
    && (forall j :: 0 <= j < |s.writes| ==> WriteSound(s.writes[j], s.rows))
  }

  lemma CommitKeepsSound(s: Shared, step: CallStep, n: nat)
    requires RowsStored(s.rows, s.nextId) && InFlightSound(s) && Committed(s, step).Some?
    ensures RowsStored(Advance(s, step, n).rows, Advance(s, step, n).nextId) && InFlightSound(Advance(s, step, n))
  {
    var w, s' := Committed(s, step).value, Advance(s, step, n);
    assert WriteSound(w, s.rows);
    var row := RowOf(s, w);
    assert s'.rows == s.rows[row.id := row];
    forall first | CopyOf(first, s.rows)
      ensures CopyOf(first, s'.rows)
    {
    }
    assert forall w' :: w' in s.writes && WriteSound(w', s.rows) ==> WriteSound(w', s'.rows);
  }

  lemma AdvanceKeepsSound(s: Shared, step: CallStep, n: nat)
    requires RowsStored(s.rows, s.nextId) && InFlightSound(s)
    ensures RowsStored(Advance(s, step, n).rows, Advance(s, step, n).nextId) && InFlightSound(Advance(s, step, n))
  {
    if step.Commit? && step.which < |s.writes| {
      CommitKeepsSound(s, step, n);
    }
  }

  /** Whatever the interleaving, every stored row starts before it ends. */
  lemma {:induction false} StartsBeforeEndAlways(run: seq<CallStep>, n: nat)
    requires n <= |run|
    ensures RowsStored(After(run, n).rows, After(run, n).nextId) && InFlightSound(After(run, n))
  {
    if n > 0 {
      hide RowsStored, InFlightSound, Advance;
      StartsBeforeEndAlways(run, n - 1);
      AdvanceKeepsSound(After(run, n - 1), run[n - 1], n - 1);
    }
  }

  function RowsAt(run: seq<CallStep>, n: nat): map<nat, Row>
    requires n <= |run|
  {
    After(run, n).rows
  }

  // ----- Where rows and writes come from -----

  /** A row stored at step `n` was stored at step `b` already, or was written by a commit in between. */
  lemma {:induction false} RowOrigin(run: seq<CallStep>, b: nat, n: nat, id: nat) returns (k: nat)
    requires b <= n <= |run| && id in RowsAt(run, n)
    ensures (id in RowsAt(run, b) && RowsAt(run, b)[id] == RowsAt(run, n)[id])
            || (b <= k < n && CommittedAt(run, k).Some? && StoredAt(run, k) == RowsAt(run, n)[id])
    decreases n
  {
    k := n;
    if b < n {
      if CommittedAt(run, n - 1).Some? && StoredAt(run, n - 1).id == id {
        k := n - 1;
      } else {
        k := RowOrigin(run, b, n - 1, id);
      }
    }
  }

  /** Identifiers do not disappear. */
  lemma {:induction false} RowsStay(run: seq<CallStep>, b: nat, n: nat, id: nat)
    requires b <= n <= |run| && id in RowsAt(run, b)
    ensures id in RowsAt(run, n)
    decreases n
  {
    if b < n {
      RowsStay(run, b, n - 1, id);
    }
  }

  /** The call read this row at this step. */
  ghost predicate ReadFrom(run: seq<CallStep>, first: Row, at: nat, n: nat) {
    at < n <= |run| && first.id in RowsAt(run, at) && RowsAt(run, at)[first.id] == first
  }

  /** What a call that is half way at step `n` read and checked, and when. */
  ghost predicate WriteOrigin(run: seq<CallStep>, w: Write, n: nat)
    requires n <= |run|
  {
    match w
    case NewBooking(row, clearedAt) =>
      clearedAt < n && ConflictCount(RowsAt(run, clearedAt), row.venueId, row.startAt, row.endAt, None) == 0
    case Cancellation(first, _, readAt) => ReadFrom(run, first, readAt, n)
    case Change(first, u, validated, readAt, clearedAt) =>
      && ReadFrom(run, first, readAt, n) && readAt < clearedAt < n
      && first.id in RowsAt(run, clearedAt) && validated == Updated(RowsAt(run, clearedAt)[first.id], u)
      && ConflictCount(RowsAt(run, clearedAt), validated.venueId, validated.startAt, validated.endAt, Some(first.id))
         == 0
  }

  ghost predicate Origins(run: seq<CallStep>, n: nat)
    requires n <= |run|
  {
    var s := After(run, n);
    && (forall j :: 0 <= j < |s.drafts| ==> ReadFrom(run, s.drafts[j].first, s.drafts[j].readAt, n))
    && (forall j :: 0 <= j < |s.writes| ==> WriteOrigin(run, s.writes[j], n))
  }

  lemma OriginsLater(run: seq<CallStep>, w: Write, n: nat)
    requires n < |run| && WriteOrigin(run, w, n)
    ensures WriteOrigin(run, w, n + 1)
  {
  }

  /** What step `n` has read or checked when it adds this write. */
  ghost predicate AddedBy(s: Shared, w: Write, n: nat) {
    match w
    case NewBooking(row, clearedAt) =>
      clearedAt == n && ConflictCount(s.rows, row.venueId, row.startAt, row.endAt, None) == 0
    case Cancellation(first, _, readAt) => readAt == n && first.id in s.rows && s.rows[first.id] == first
    case Change(first, u, validated, readAt, clearedAt) =>
      && clearedAt == n && Draft(first, u, readAt) in s.drafts
      && first.id in s.rows && validated == Updated(s.rows[first.id], u)
      && ConflictCount(s.rows, validated.venueId, validated.startAt, validated.endAt, Some(first.id)) == 0
  }

  lemma WritesAreAdded(s: Shared, step: CallStep, n: nat, w: Write)
    requires RowsStored(s.rows, s.nextId) && w in Advance(s, step, n).writes && w !in s.writes
    ensures AddedBy(s, w, n)
  {
    hide ConflictCount, ScheduleProblem, CreateProblem, RequestProblem, ChangeProblem, SameDay, Without;
    if step.Commit? && step.which < |s.writes| {
      assert w in Without(s.writes, step.which);
      WithoutIsPart(s.writes, step.which, w);
    }
  }

  lemma WithoutIsPart<T>(s: seq<T>, i: nat, x: T)
    requires i < |s| && x in Without(s, i)
    ensures x in s
  {
  }

  /** The write that step `n` adds, if it adds one. */
  lemma NewWriteHasOrigin(run: seq<CallStep>, n: nat, w: Write)
    requires n < |run| && Origins(run, n) && RowsStored(After(run, n).rows, After(run, n).nextId)
    requires w in After(run, n + 1).writes
    ensures WriteOrigin(run, w, n + 1)
  {
    var s := After(run, n);
    if w in s.writes {
      OriginsLater(run, w, n);
    } else {
      WritesAreAdded(s, run[n], n, w);
      if w.Change? {
        var j :| 0 <= j < |s.drafts| && s.drafts[j] == Draft(w.first, w.u, w.readAt);
        assert ReadFrom(run, s.drafts[j].first, s.drafts[j].readAt, n);
      }
    }
  }

  lemma {:induction false} OriginsAlways(run: seq<CallStep>, n: nat)
    requires n <= |run|
    ensures Origins(run, n)
  {
    if n > 0 {
      hide Origins, After;
      OriginsAlways(run, n - 1);
      NextHasOrigins(run, n - 1);
    }
  }

  lemma NextHasOrigins(run: seq<CallStep>, n: nat)
    requires n < |run| && Origins(run, n)
    ensures Origins(run, n + 1)
  {
    StartsBeforeEndAlways(run, n);
    var s' := After(run, n + 1);
    forall j | 0 <= j < |s'.writes|
      ensures WriteOrigin(run, s'.writes[j], n + 1)
    {
      NewWriteHasOrigin(run, n, s'.writes[j]);
    }
    forall j | 0 <= j < |s'.drafts|
      ensures ReadFrom(run, s'.drafts[j].first, s'.drafts[j].readAt, n + 1)
    {
      NewDraftHasOrigin(run, n, s'.drafts[j]);
    }
  }

  lemma DraftsAreAdded(s: Shared, step: CallStep, n: nat, d: Draft)
    requires RowsStored(s.rows, s.nextId) && d in Advance(s, step, n).drafts && d !in s.drafts
    ensures d.readAt == n && d.first.id in s.rows && s.rows[d.first.id] == d.first
  {
    hide ConflictCount, PlacementProblem, CreateProblem, RequestProblem, ChangeProblem, Without;
    if step.ValidateUpdate? && step.which < |s.drafts| {
      assert d in Without(s.drafts, step.which);
      WithoutIsPart(s.drafts, step.which, d);
    }
  }

  /** The draft that step `n` adds, if it adds one. */
  lemma NewDraftHasOrigin(run: seq<CallStep>, n: nat, d: Draft)
    requires n < |run| && Origins(run, n) && RowsStored(After(run, n).rows, After(run, n).nextId)
    requires d in After(run, n + 1).drafts
    ensures ReadFrom(run, d.first, d.readAt, n + 1)
  {
    hide Advance, RowsStored, WriteOrigin;
    var s := After(run, n);
    if d in s.drafts {
      var j :| 0 <= j < |s.drafts| && s.drafts[j] == d;
      assert ReadFrom(run, s.drafts[j].first, s.drafts[j].readAt, n);
    } else {
      DraftsAreAdded(s, run[n], n, d);
    }
  }

  /** What a commit writes is sound, and the call has read and checked it. */
  lemma CommitHasOrigin(run: seq<CallStep>, n: nat)
    requires n < |run| && CommittedAt(run, n).Some?
    ensures RowsStored(After(run, n).rows, After(run, n).nextId)
    ensures WriteSound(CommittedAt(run, n).value, RowsAt(run, n)) && WriteOrigin(run, CommittedAt(run, n).value, n)
  {
    StartsBeforeEndAlways(run, n);
    OriginsAlways(run, n);
    assert CommittedAt(run, n).value in After(run, n).writes;
  }

  lemma CommitStores(run: seq<CallStep>, n: nat)
    requires n < |run| && CommittedAt(run, n).Some?
    ensures RowsAt(run, n + 1) == RowsAt(run, n)[StoredAt(run, n).id := StoredAt(run, n)]
    ensures StoredAt(run, n).startAt < StoredAt(run, n).endAt
    ensures StartBeforeEnd(RowsAt(run, n))
  {
    CommitHasOrigin(run, n);
  }
}
