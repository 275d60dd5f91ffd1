/**
  What the availability sweep means for the booking table: it lists exactly the windows no live
  booking touches, it agrees with the checks of the create call, and it follows bookings and
  cancellations.
 */
module Availability {
  import opened Common
  import opened Time
  import opened ClockText
  import opened VenueSchedule
  import opened Sweep
  import opened Bookings
  import opened OpeningHours

  /** The windows of the venue's bookings that are not cancelled. */
  ghost function Busy(rows: map<nat, Row>, venueId: nat): set<Interval> {
    set id | id in rows && rows[id].venueId == venueId && rows[id].status != Cancelled :: Window(rows[id])
  }

  /** The rows that start on a day; the availability call looks at no others. */
  function RowsOn(rows: map<nat, Row>, date: Instant): map<nat, Row> {
    map id | id in rows && SameDay(rows[id].startAt, date) :: rows[id]
  }

  /** The live windows of the venue that the availability call sees. */
  ghost function BusyOn(rows: map<nat, Row>, venueId: nat, date: Instant): set<Interval> {
    Busy(RowsOn(rows, date), venueId)
  }

  /** The opening hours on a day. */
  function HoursOn(date: Instant, open: Clock, close: Clock): Interval {
    Interval(At(DayOf(date), open.hour, open.minute), At(DayOf(date), close.hour, close.minute))
  }

  ghost predicate OnDate(hours: Interval, date: Instant) {
    SameDay(hours.start, date) && SameDay(hours.end, date)
  }

  lemma ReadHoursAreOnDate(day: DayDTO, date: Instant)
    requires ReadHours(day).Ok?
    ensures var (open, close) := ReadHours(day).value; OnDate(HoursOn(date, open, close), date)
  {
    var (open, close) := ReadHours(day).value;
    AtFields(DayOf(date), open.hour, open.minute);
    AtFields(DayOf(date), close.hour, close.minute);
  }

  // ----- Collecting and clipping -----

  /** A listing of the venue's rows, in any order. */
  ghost predicate IsListing(bookings: seq<Row>, rows: map<nat, Row>, venueId: nat) {
    && (forall k :: 0 <= k < |bookings| ==>
          bookings[k].venueId == venueId && bookings[k].id in rows && rows[bookings[k].id] == bookings[k])
    && (forall id :: id in rows && rows[id].venueId == venueId ==> rows[id] in bookings)
    && (forall k, l :: 0 <= k < l < |bookings| ==> bookings[k].id != bookings[l].id)
  }

  predicate Kept(b: Row, date: Instant, hours: Interval) {
    b.status != Cancelled && SameDay(b.startAt, date) && !(b.endAt < hours.start || b.startAt > hours.end)
  }

  /** The part of a window that lies in the working hours. */
  function Clamp(w: Interval, hours: Interval): Interval {
    Interval(if w.start < hours.start then hours.start else w.start, if w.end > hours.end then hours.end else w.end)
  }

  /** The kept bookings, clipped to the working hours. */
  function ClipAll(bookings: seq<Row>, date: Instant, hours: Interval): seq<Interval> {
    if bookings == [] then []
    else
      var last := bookings[|bookings| - 1];
      ClipAll(bookings[..|bookings| - 1], date, hours)
        + (if Kept(last, date, hours) then [Clamp(Window(last), hours)] else [])
  }

  lemma {:induction false} ClipAllHasKept(bookings: seq<Row>, date: Instant, hours: Interval, k: nat)
    requires k < |bookings| && Kept(bookings[k], date, hours)
    ensures Clamp(Window(bookings[k]), hours) in ClipAll(bookings, date, hours)
  {
    if k < |bookings| - 1 {
      ClipAllHasKept(bookings[..|bookings| - 1], date, hours, k);
    }
  }

  /** The booking behind each clipped interval; different positions come from different bookings. */
  lemma {:induction false} ClipAllOrigin(bookings: seq<Row>, date: Instant, hours: Interval, i: nat) returns (k: nat)
    requires i < |ClipAll(bookings, date, hours)|
    ensures k < |bookings| && Kept(bookings[k], date, hours)
            && ClipAll(bookings, date, hours)[i] == Clamp(Window(bookings[k]), hours)
    ensures |ClipAll(bookings[..k], date, hours)| == i
  {
    var n := |bookings| - 1;
    var earlier := ClipAll(bookings[..n], date, hours);
    if i < |earlier| {
      k := ClipAllOrigin(bookings[..n], date, hours, i);
      assert bookings[..n][..k] == bookings[..k];
    } else {
      k := n;
    }
  }

  /** The filter by start date loses nothing: a booking that touches the working hours starts that day. */
  lemma DateFilterLosesNothing(b: Row, date: Instant, hours: Interval)
    requires b.startAt < b.endAt && SameDay(b.startAt, b.endAt) && OnDate(hours, date)
    requires b.startAt < hours.end && b.endAt > hours.start
    ensures SameDay(b.startAt, date)
  {
  }

  /** The sorted, clipped bookings stand for the live bookings that start on the date. */
  lemma ClippedBookingsRepresentBusy(rows: map<nat, Row>, venueId: nat, bookings: seq<Row>, its: seq<Interval>,
                                     date: Instant, hours: Interval)
    requires IsListing(bookings, rows, venueId)
    requires multiset(its) == multiset(ClipAll(bookings, date, hours))
    ensures Represents(its, hours, BusyOn(rows, venueId, date))
  {
    forall w: Interval | Inside(w, hours) && w.start < w.end
      ensures Free(w, BusyOn(rows, venueId, date)) <==> ClearOf(w, its)
    {
      if Free(w, BusyOn(rows, venueId, date)) {
        FreeIsClear(rows, venueId, bookings, its, date, hours, w);
      }
      if ClearOf(w, its) {
        ClearIsFree(rows, venueId, bookings, its, date, hours, w);
      }
    }
  }

  lemma FreeIsClear(rows: map<nat, Row>, venueId: nat, bookings: seq<Row>, its: seq<Interval>,
                    date: Instant, hours: Interval, w: Interval)
    requires IsListing(bookings, rows, venueId) && Free(w, BusyOn(rows, venueId, date))
    requires multiset(its) == multiset(ClipAll(bookings, date, hours))
    requires Inside(w, hours) && w.start < w.end
    ensures ClearOf(w, its)
  {
    forall i | 0 <= i < |its|
      ensures !Overlaps(its[i], w)
    {
      assert its[i] in multiset(its);
      var j :| 0 <= j < |ClipAll(bookings, date, hours)| && ClipAll(bookings, date, hours)[j] == its[i];
      var k := ClipAllOrigin(bookings, date, hours, j);
      assert bookings[k] == RowsOn(rows, date)[bookings[k].id];
      assert Window(bookings[k]) in BusyOn(rows, venueId, date);
      assert !Overlaps(Window(bookings[k]), w);
    }
  }

  lemma ClearIsFree(rows: map<nat, Row>, venueId: nat, bookings: seq<Row>, its: seq<Interval>,
                    date: Instant, hours: Interval, w: Interval)
    requires IsListing(bookings, rows, venueId) && ClearOf(w, its)
    requires multiset(its) == multiset(ClipAll(bookings, date, hours))
    requires Inside(w, hours) && w.start < w.end
    ensures Free(w, BusyOn(rows, venueId, date))
  {
    forall b | b in BusyOn(rows, venueId, date)
      ensures !Overlaps(b, w)
    {
      var id :| id in RowsOn(rows, date) && rows[id].venueId == venueId && rows[id].status != Cancelled
        && b == Window(rows[id]);
      var row := rows[id];
      if Kept(row, date, hours) {
        var k :| 0 <= k < |bookings| && bookings[k] == row;
        ClipAllHasKept(bookings, date, hours, k);
        assert Clamp(Window(row), hours) in multiset(its);
      }
    }
  }

  lemma ClippedBookingsAreClipped(rows: map<nat, Row>, venueId: nat, bookings: seq<Row>, its: seq<Interval>,
                                  date: Instant, hours: Interval)
    requires StartBeforeEnd(rows) && IsListing(bookings, rows, venueId)
    requires multiset(its) == multiset(ClipAll(bookings, date, hours))
    ensures hours.start <= hours.end ==> Clipped(its, hours.end)
    ensures hours.start > hours.end ==> forall i :: 0 <= i < |its| ==>
            its[i].start <= hours.start && its[i].end <= hours.end
    ensures forall i :: 0 <= i < |its| ==> hours.start <= its[i].start
  {
    forall i | 0 <= i < |its|
      ensures hours.start <= its[i].start && its[i].end <= hours.end
      ensures if hours.start <= hours.end then its[i].start <= its[i].end else its[i].start <= hours.start
    {
      assert its[i] in multiset(its);
      var j :| 0 <= j < |ClipAll(bookings, date, hours)| && ClipAll(bookings, date, hours)[j] == its[i];
      var k := ClipAllOrigin(bookings, date, hours, j);
    }
  }

  /** Sorting and sweeping any listing yields the slot list of the venue's live bookings that start on the date. */
  lemma SweepGivesSlotList(rows: map<nat, Row>, venueId: nat, bookings: seq<Row>, its: seq<Interval>,
                           date: Instant, hours: Interval)
    requires StartBeforeEnd(rows) && IsListing(bookings, rows, venueId)
    requires multiset(its) == multiset(ClipAll(bookings, date, hours)) && SortedByStart(its)
    ensures IsSlotList(LongOnly(Gaps(hours.start, its, hours.end)), hours, BusyOn(rows, venueId, date))
    ensures |LongOnly(Gaps(hours.start, its, hours.end))| <= |its| + 1
  {
    ClippedBookingsAreClipped(rows, venueId, bookings, its, date, hours);
    if hours.start <= hours.end {
      ClippedBookingsRepresentBusy(rows, venueId, bookings, its, date, hours);
      GapsGiveSlotList(its, hours, BusyOn(rows, venueId, date));
    } else {
      NoHoursNoGaps(hours.start, its, hours.end);
    }
  }

  /** A live row of the venue that starts on another day overlaps one of the slots. */
  ghost predicate CarriedIntoSlot(rows: map<nat, Row>, venueId: nat, date: Instant, slots: seq<Interval>) {
    exists id, i :: id in rows && 0 <= i < |slots|
                    && rows[id].venueId == venueId && rows[id].status != Cancelled && !SameDay(rows[id].startAt, date)
                    && Overlaps(Window(rows[id]), slots[i])
  }

  /** What the call sees is what is busy, except for live rows of other days. */
  lemma BusyIsOnDateOr(rows: map<nat, Row>, venueId: nat, date: Instant, b: Interval)
    ensures b in Busy(rows, venueId) <==>
              b in BusyOn(rows, venueId, date)
              || exists id :: id in rows && rows[id].venueId == venueId && rows[id].status != Cancelled
                              && !SameDay(rows[id].startAt, date) && b == Window(rows[id])
  {
    if b in Busy(rows, venueId) {
      var id :| id in rows && rows[id].venueId == venueId && rows[id].status != Cancelled && b == Window(rows[id]);
      if SameDay(rows[id].startAt, date) {
        assert RowsOn(rows, date)[id] == rows[id];
      }
    }
  }

  /**
    The slots that the call answers are the slots of all live bookings exactly when no live booking of the
    venue that starts on another day overlaps one of them.
   */
  lemma AnswerIsCompleteIff(rows: map<nat, Row>, venueId: nat, date: Instant, hours: Interval, slots: seq<Interval>)
    requires IsSlotList(slots, hours, BusyOn(rows, venueId, date))
    ensures IsSlotList(slots, hours, Busy(rows, venueId)) <==> !CarriedIntoSlot(rows, venueId, date, slots)
  {
    var seen, busy := BusyOn(rows, venueId, date), Busy(rows, venueId);
    forall b
      ensures b in seen ==> b in busy
    {
      BusyIsOnDateOr(rows, venueId, date, b);
    }
    if CarriedIntoSlot(rows, venueId, date, slots) {
      var id, i :| id in rows && 0 <= i < |slots|
                   && rows[id].venueId == venueId && rows[id].status != Cancelled && !SameDay(rows[id].startAt, date)
                   && Overlaps(Window(rows[id]), slots[i]);
      assert Window(rows[id]) in busy && !Free(slots[i], busy);
    } else {
      forall i | 0 <= i < |slots|
        ensures Free(slots[i], busy)
      {
        SlotIsFreeOfAll(rows, venueId, date, slots, i);
      }
      assert SlotsAreFree(slots, hours, busy);
      assert Complete(slots, hours, busy) by {
        assert forall w: Interval :: Free(w, busy) ==> Free(w, seen);
      }
    }
  }

  lemma SlotIsFreeOfAll(rows: map<nat, Row>, venueId: nat, date: Instant, slots: seq<Interval>, i: nat)
    requires i < |slots| && Free(slots[i], BusyOn(rows, venueId, date)) && !CarriedIntoSlot(rows, venueId, date, slots)
    ensures Free(slots[i], Busy(rows, venueId))
  {
    forall b | b in Busy(rows, venueId)
      ensures !Overlaps(b, slots[i])
    {
      BusyIsOnDateOr(rows, venueId, date, b);
    }
  }

  /** When every row is a window of one day, the answer for hours of the date misses nothing. */
  lemma OneDayAnswerIsComplete(t: Table, venueId: nat, date: Instant, hours: Interval, slots: seq<Interval>)
    requires RowsWellFormed(t) && OnDate(hours, date) && IsSlotList(slots, hours, BusyOn(t.rows, venueId, date))
    ensures IsSlotList(slots, hours, Busy(t.rows, venueId))
  {
    AnswerIsCompleteIff(t.rows, venueId, date, hours, slots);
    if CarriedIntoSlot(t.rows, venueId, date, slots) {
      var id, i :| id in t.rows && 0 <= i < |slots|
                   && t.rows[id].venueId == venueId && t.rows[id].status != Cancelled
                      && !SameDay(t.rows[id].startAt, date)
                   && Overlaps(Window(t.rows[id]), slots[i]);
      assert Inside(slots[i], hours);
      DateFilterLosesNothing(t.rows[id], date, hours);
    }
  }

  /**
    Neither the order in which the rows are listed nor the order the sort leaves among equal starts
    changes the slots, and there are at most as many as kept bookings plus one.
   */
  lemma SlotsDoNotDependOnOrder(rows: map<nat, Row>, venueId: nat, bookings: seq<Row>, its: seq<Interval>,
                                bookings': seq<Row>, its': seq<Interval>, date: Instant, hours: Interval)
    requires StartBeforeEnd(rows) && IsListing(bookings, rows, venueId) && IsListing(bookings', rows, venueId)
    requires multiset(its) == multiset(ClipAll(bookings, date, hours)) && SortedByStart(its)
    requires multiset(its') == multiset(ClipAll(bookings', date, hours)) && SortedByStart(its')
    ensures LongOnly(Gaps(hours.start, its, hours.end)) == LongOnly(Gaps(hours.start, its', hours.end))
    ensures |LongOnly(Gaps(hours.start, its, hours.end))| <= |ClipAll(bookings, date, hours)| + 1
  {
    SweepGivesSlotList(rows, venueId, bookings, its, date, hours);
    SweepGivesSlotList(rows, venueId, bookings', its', date, hours);
    var slots, slots' := LongOnly(Gaps(hours.start, its, hours.end)), LongOnly(Gaps(hours.start, its', hours.end));
    SlotListIsUnique(slots, slots', hours, BusyOn(rows, venueId, date), BusyOn(rows, venueId, date));
    assert |its| == |multiset(its)| == |ClipAll(bookings, date, hours)|;
  }

  /** Before the filter by length, gap lengths and clipped booking lengths add up to the working day. */
  lemma WorkingDayIsConserved(t: Table, venueId: nat, bookings: seq<Row>, its: seq<Interval>, date: Instant,
                              hours: Interval)
    requires Invariant(t) && IsListing(bookings, t.rows, venueId) && hours.start <= hours.end
    requires multiset(its) == multiset(ClipAll(bookings, date, hours)) && SortedByStart(its)
    ensures TotalLength(Gaps(hours.start, its, hours.end)) + TotalLength(ClipAll(bookings, date, hours))
            == hours.end - hours.start
  {
    var clipped := ClipAll(bookings, date, hours);
    ClippedBookingsAreClipped(t.rows, venueId, bookings, its, date, hours);
    ClippedBookingsAreApart(t, venueId, bookings, date, hours);
    hide ClipAll, IsListing, Invariant, PairwiseApart, Clipped, Gaps, TotalLength;
    ApartSurvivesPermutation(clipped, its);
    SortedApartIsStacked(its, hours.end);
    LengthsAddUp(hours.start, its, hours.end);
    TotalLengthOfPermutation(its, clipped);
  }

  lemma ClippedBookingsAreApart(t: Table, venueId: nat, bookings: seq<Row>, date: Instant, hours: Interval)
    requires Invariant(t) && IsListing(bookings, t.rows, venueId) && hours.start <= hours.end
    ensures PairwiseApart(ClipAll(bookings, date, hours))
  {
    var clipped := ClipAll(bookings, date, hours);
    hide CreatedSound, CancelledSound;
    forall i, j | 0 <= i < j < |clipped|
      ensures Apart(clipped[i], clipped[j])
    {
      var k := ClipAllOrigin(bookings, date, hours, i);
      var l := ClipAllOrigin(bookings, date, hours, j);
      assert k != l;
      assert bookings[k].id != bookings[l].id;
    }
  }

  /**
    An instant of the working hours is in a gap exactly when no live booking of the venue that starts on the
    date contains it, which for windows of one day means no live booking at all.
   */
  lemma InstantIsFreeOrBooked(t: Table, venueId: nat, bookings: seq<Row>, its: seq<Interval>,
                              date: Instant, hours: Interval, at: Instant)
    requires StartBeforeEnd(t.rows) && IsListing(bookings, t.rows, venueId)
    requires multiset(its) == multiset(ClipAll(bookings, date, hours)) && SortedByStart(its)
    requires Contains(hours, at)
    ensures Covers(Gaps(hours.start, its, hours.end), at)
            <==> !exists b :: b in BusyOn(t.rows, venueId, date) && Contains(b, at)
    ensures RowsWellFormed(t) && OnDate(hours, date) ==>
              (Covers(Gaps(hours.start, its, hours.end), at)
               <==> !exists b :: b in Busy(t.rows, venueId) && Contains(b, at))
  {
    InstantIsFreeOfSeen(t.rows, venueId, bookings, its, date, hours, at);
    hide *;
    forall b | Contains(b, at)
      ensures b in BusyOn(t.rows, venueId, date) ==> b in Busy(t.rows, venueId)
      ensures RowsWellFormed(t) && OnDate(hours, date) && b in Busy(t.rows, venueId) ==>
              b in BusyOn(t.rows, venueId, date)
    {
      InstantIsBusyOnDate(t, venueId, date, hours, at, b);
    }
  }

  lemma InstantIsFreeOfSeen(rows: map<nat, Row>, venueId: nat, bookings: seq<Row>, its: seq<Interval>,
                            date: Instant, hours: Interval, at: Instant)
    requires StartBeforeEnd(rows) && IsListing(bookings, rows, venueId)
    requires multiset(its) == multiset(ClipAll(bookings, date, hours)) && SortedByStart(its)
    requires Contains(hours, at)
    ensures Covers(Gaps(hours.start, its, hours.end), at)
            <==> !exists b :: b in BusyOn(rows, venueId, date) && Contains(b, at)
  {
    var w, seen := Interval(at, at + 1), BusyOn(rows, venueId, date);
    ClippedBookingsAreClipped(rows, venueId, bookings, its, date, hours);
    ClippedBookingsRepresentBusy(rows, venueId, bookings, its, date, hours);
    GapsPartitionTheDay(its, hours, at);
    InstantsAreWindows(its, seen, at);
    assert Inside(w, hours) && (Free(w, seen) <==> ClearOf(w, its));
    hide *;
  }

  /** Being clear for the length of one nanosecond is not containing its instant. */
  lemma InstantsAreWindows(its: seq<Interval>, busy: set<Interval>, at: Instant)
    ensures ClearOf(Interval(at, at + 1), its) <==> !Covers(its, at)
    ensures Free(Interval(at, at + 1), busy) <==> !exists b :: b in busy && Contains(b, at)
  {
    var w := Interval(at, at + 1);
    assert forall i :: 0 <= i < |its| ==> (Overlaps(its[i], w) <==> Contains(its[i], at));
    assert forall b :: b in busy ==> (Overlaps(b, w) <==> Contains(b, at));
  }

  lemma InstantIsBusyOnDate(t: Table, venueId: nat, date: Instant, hours: Interval, at: Instant, b: Interval)
    requires Contains(hours, at) && Contains(b, at)
    ensures b in BusyOn(t.rows, venueId, date) ==> b in Busy(t.rows, venueId)
    ensures RowsWellFormed(t) && OnDate(hours, date) && b in Busy(t.rows, venueId) ==>
            b in BusyOn(t.rows, venueId, date)
  {
    BusyIsOnDateOr(t.rows, venueId, date, b);
  }

  // ----- The answer of the availability call -----

  /** The windows of the venue's live bookings that start on the day that begins at `midnight`. */
  ghost function LiveFrom(rows: map<nat, Row>, venueId: nat, midnight: Instant): set<Interval> {
    set id | id in rows && rows[id].venueId == venueId && rows[id].status != Cancelled
             && midnight <= rows[id].startAt < midnight + 86_400_000_000_000
      :: Interval(rows[id].startAt, rows[id].endAt)
  }

  /** What is answered for a day: nothing if it is closed, and else the slot list between its readings. */
  ghost predicate DayAnswer(rows: map<nat, Row>, venueId: nat, midnight: Instant, day: DayDTO,
                            r: Result<seq<Interval>, BookingError>)
  {
    match HoursProblem(day)
    case Some(DayClosed) => r == Ok([])
    case Some(e) => r == Err(e)
    case None =>
      exists open, close ::
        && Opens(day, open, close) && r.Ok?
        && IsSlotList(r.value, Interval(OnClock(midnight, open), OnClock(midnight, close)),
                      LiveFrom(rows, venueId, midnight))
  }

  /** What is answered for a venue and a date, given the venue service's answer. */
  ghost predicate AvailabilityAnswer(rows: map<nat, Row>, venueId: nat, date: Instant, week: Option<Week<DayDTO>>,
                                     r: Result<seq<Interval>, BookingError>)
  {
    match week
    case None => r == Err(VenueUnavailable)
    case Some(w) =>
      exists weekday, midnight ::
        BeginsDay(midnight, weekday, date) && DayAnswer(rows, venueId, midnight, Entry(w, weekday), r)
  }

  lemma LiveFromIsBusyOn(rows: map<nat, Row>, venueId: nat, date: Instant)
    ensures LiveFrom(rows, venueId, DayOf(date) * DAY) == BusyOn(rows, venueId, date)
  {
    var seen := RowsOn(rows, date);
    forall id | id in rows
      ensures SameDay(rows[id].startAt, date) <==>
                DayOf(date) * DAY <= rows[id].startAt < DayOf(date) * DAY + 86_400_000_000_000
    {
    }
    forall b | b in LiveFrom(rows, venueId, DayOf(date) * DAY)
      ensures b in BusyOn(rows, venueId, date)
    {
      var id :| id in rows && rows[id].venueId == venueId && rows[id].status != Cancelled && b == Window(rows[id])
                && DayOf(date) * DAY <= rows[id].startAt < DayOf(date) * DAY + 86_400_000_000_000;
      assert seen[id] == rows[id];
    }
    forall b | b in BusyOn(rows, venueId, date)
      ensures b in LiveFrom(rows, venueId, DayOf(date) * DAY)
    {
      var id :| id in seen && seen[id].venueId == venueId && seen[id].status != Cancelled && b == Window(seen[id]);
      assert seen[id] == rows[id];
    }
  }

  /** The answer, by the hours that the service reads off the day. */
  ghost predicate AnswerByHours(rows: map<nat, Row>, venueId: nat, date: Instant, week: Option<Week<DayDTO>>,
                                r: Result<seq<Interval>, BookingError>)
  {
    match week
    case None => r == Err(VenueUnavailable)
    case Some(w) => DayAnswerByHours(rows, venueId, date, w.Day(WeekdayOf(date)), r)
  }

  ghost predicate DayAnswerByHours(rows: map<nat, Row>, venueId: nat, date: Instant, day: DayDTO,
                                   r: Result<seq<Interval>, BookingError>)
  {
    match ReadHours(day)
    case Err(DayClosed) => r == Ok([])
    case Err(e) => r == Err(e)
    case Ok((open, close)) => r.Ok? && IsSlotList(r.value, HoursOn(date, open, close), BusyOn(rows, venueId, date))
  }

  /** The service reads the right entry of the week, the right clocks, and the right midnight. */
  lemma AnswerMeans(rows: map<nat, Row>, venueId: nat, date: Instant, week: Option<Week<DayDTO>>,
                    r: Result<seq<Interval>, BookingError>)
    ensures AvailabilityAnswer(rows, venueId, date, week, r) <==> AnswerByHours(rows, venueId, date, week, r)
  {
    if week.Some? {
      var weekday, midnight := WeekdayOf(date), DayOf(date) * DAY;
      DayBegins(date);
      EntryIsDay(week.value, weekday);
      DayAnswerMeans(rows, venueId, date, Entry(week.value, weekday), r);
      hide DayAnswer, DayAnswerByHours, BeginsDay, DayOf, WeekdayOf, Entry, Week.Day;
      if AvailabilityAnswer(rows, venueId, date, week, r) {
        var weekday', midnight' :| BeginsDay(midnight', weekday', date)
                                   && DayAnswer(rows, venueId, midnight', Entry(week.value, weekday'), r);
        DayBeginsOnce(midnight', weekday', date);
      }
    }
  }

  lemma DayAnswerMeans(rows: map<nat, Row>, venueId: nat, date: Instant, day: DayDTO,
                       r: Result<seq<Interval>, BookingError>)
    ensures DayAnswer(rows, venueId, DayOf(date) * DAY, day, r) <==> DayAnswerByHours(rows, venueId, date, day, r)
  {
    ReadHoursMeans(day);
    LiveFromIsBusyOn(rows, venueId, date);
    hide ReadHours, IsSlotList, BusyOn, LiveFrom, HoursProblem, Opens, DayOf;
    match ReadHours(day)
    case Err(e) =>
      assert HoursProblem(day) == Some(e);
    case Ok((open, close)) =>
      assert Opens(day, open, close);
      assert HoursOn(date, open, close)
             == Interval(OnClock(DayOf(date) * DAY, open), OnClock(DayOf(date) * DAY, close));
      forall open', close' | Opens(day, open', close')
        ensures open' == open && close' == close
      {
        assert ReadHours(day) == Ok((open', close'));
      }
  }

  /**
    What the call computes from the hours it reads is the answer, and
    complete when every row is a window of one day.
   */
  lemma AnswerIsSound(t: Table, venueId: nat, date: Instant, week: Option<Week<DayDTO>>,
                      r: Result<seq<Interval>, BookingError>)
    requires AnswerByHours(t.rows, venueId, date, week, r)
    ensures AvailabilityAnswer(t.rows, venueId, date, week, r)
    ensures forall hours :: RowsWellFormed(t) && week.Some? && OpenOn(week.value, date, hours) && r.Ok? ==>
              IsSlotList(r.value, hours, Busy(t.rows, venueId))
  {
    AnswerMeans(t.rows, venueId, date, week, r);
    forall hours | RowsWellFormed(t) && week.Some? && OpenOn(week.value, date, hours) && r.Ok?
      ensures IsSlotList(r.value, hours, Busy(t.rows, venueId))
    {
      OpenOnMeans(week.value, date, hours);
      ReadHoursAreOnDate(week.value.Day(WeekdayOf(date)), date);
      OneDayAnswerIsComplete(t, venueId, date, hours, r.value);
    }
  }

  // ----- Venues that passed validation -----

  /**
    For a validated venue the reservation service never meets missing or unreadable hours: a day is
    either closed or has an opening time before its closing time, on whatever date it is asked about.
   */
  lemma ValidatedVenueHasHours(dto: VenueDTO, today: int, v: Venue, i: nat, date: Instant, midnight: Instant,
                               r: Result<seq<Interval>, BookingError>, rows: map<nat, Row>, venueId: nat)
    requires WeekConverted(dto.weekdays, today, Ok(v.weekdays)) && ValidateVenue(v).None?
    requires BeginsDay(midnight, i, date) && AvailabilityAnswer(rows, venueId, date, Some(ToVenueDTO(v).weekdays), r)
    ensures r.Ok?
    ensures if !Entry(dto.weekdays, i).enabled then r.value == []
            else exists open, close ::
                   && Opens(Entry(dto.weekdays, i), open, close)
                   && Entry(v.weekdays, i).startTime == Some(OnClock(today * 86_400_000_000_000, open))
                   && Entry(v.weekdays, i).endTime == Some(OnClock(today * 86_400_000_000_000, close))
                   && OnClock(midnight, open) < OnClock(midnight, close)
                   && IsSlotList(r.value, Interval(OnClock(midnight, open), OnClock(midnight, close)),
                                 LiveFrom(rows, venueId, midnight))
  {
    var answered := Entry(ToVenueDTO(v).weekdays, i);
    ValidatedDayOpens(dto, today, v, i, midnight);
    var weekday', midnight' :| BeginsDay(midnight', weekday', date)
                               && DayAnswer(rows, venueId, midnight', Entry(ToVenueDTO(v).weekdays, weekday'), r);
    DayBeginsOnce(midnight, i, date);
    DayBeginsOnce(midnight', weekday', date);
    assert DayAnswer(rows, venueId, midnight, answered, r);
    ReadHoursMeans(answered);
    hide BeginsDay, Shows, ReadHours, IsSlotList, LiveFrom, WeekConverted, Readable, ToVenueDTO;
    if Entry(dto.weekdays, i).enabled {
      var open, close :| Opens(Entry(dto.weekdays, i), open, close) && Opens(answered, open, close)
                         && Entry(v.weekdays, i).startTime == Some(OnClock(today * 86_400_000_000_000, open))
                         && Entry(v.weekdays, i).endTime == Some(OnClock(today * 86_400_000_000_000, close))
                         && OnClock(midnight, open) < OnClock(midnight, close);
      assert ReadHours(answered) == Ok((open, close));
      var open', close' :| Opens(answered, open', close') && r.Ok?
                           && IsSlotList(r.value, Interval(OnClock(midnight, open'), OnClock(midnight, close')),
                                         LiveFrom(rows, venueId, midnight));
      assert ReadHours(answered) == Ok((open', close'));
    }
  }

  // ----- Availability and the create call -----

  /** Some cancelled row of the venue overlaps the window. */
  ghost predicate BlockedByCancelled(rows: map<nat, Row>, venueId: nat, w: Interval) {
    exists id :: id in rows && rows[id].venueId == venueId && rows[id].status == Cancelled
                 && Overlaps(Window(rows[id]), w)
  }

  /**
    Some row of the venue that the availability call does not see,
    cancelled or of another day, overlaps the window.
   */
  ghost predicate BlockedUnseen(rows: map<nat, Row>, venueId: nat, date: Instant, w: Interval) {
    exists id :: id in rows && rows[id].venueId == venueId
                 && (rows[id].status == Cancelled || !SameDay(rows[id].startAt, date))
                 && Overlaps(Window(rows[id]), w)
  }

  /** The checks of a create call that concern neither the place nor the time of day. */
  predicate CallerMayCreate(c: CreateCall) {
    && c.req.ownerId != 0 && c.req.startAt != ZERO && c.req.endAt != ZERO && c.now <= c.req.startAt
    && c.req.status != Unset && (c.claims.role == ClientRole || c.claims.role == AdminRole) && c.hourPrice.Some?
  }

  function Requested(c: CreateCall): Interval {
    Interval(c.req.startAt, c.req.endAt)
  }

  /** `slots` is what the availability call answers for the venue and day of the request. */
  ghost predicate AnsweredSlots(rows: map<nat, Row>, c: CreateCall, slots: seq<Interval>) {
    AvailabilityAnswer(rows, c.req.venueId, c.req.startAt, c.week, Ok(slots))
  }

  /** The conflict query counts nothing exactly when the window is free and no cancelled row overlaps it. */
  lemma ConflictFreeMeansFree(rows: map<nat, Row>, venueId: nat, w: Interval)
    requires w.start < w.end && StartBeforeEnd(rows)
    ensures ConflictCount(rows, venueId, w.start, w.end, None) == 0
            <==> Free(w, Busy(rows, venueId)) && !BlockedByCancelled(rows, venueId, w)
  {
    ConflictCountMeansTaken(rows, venueId, w.start, w.end, None);
    if Taken(rows, venueId, w, None) {
      var id :| id in rows && rows[id].venueId == venueId && Overlaps(Window(rows[id]), w);
      if rows[id].status != Cancelled {
        assert Window(rows[id]) in Busy(rows, venueId);
      }
    } else {
      forall b | b in Busy(rows, venueId)
        ensures !Overlaps(b, w)
      {
        var id :| id in rows && rows[id].venueId == venueId && rows[id].status != Cancelled && b == Window(rows[id]);
      }
    }
  }

  /** The same, by what the availability call sees. */
  lemma FreeByWhatIsSeen(rows: map<nat, Row>, venueId: nat, date: Instant, w: Interval)
    ensures Free(w, Busy(rows, venueId)) && !BlockedByCancelled(rows, venueId, w)
            <==> Free(w, BusyOn(rows, venueId, date)) && !BlockedUnseen(rows, venueId, date, w)
  {
    forall b
      ensures b in BusyOn(rows, venueId, date) ==> b in Busy(rows, venueId)
      ensures b in Busy(rows, venueId) && !BlockedUnseen(rows, venueId, date, w) && Overlaps(b, w) ==>
              b in BusyOn(rows, venueId, date)
    {
      BusyIsOnDateOr(rows, venueId, date, b);
    }
    if BlockedUnseen(rows, venueId, date, w) {
      var id :| id in rows && rows[id].venueId == venueId
                && (rows[id].status == Cancelled || !SameDay(rows[id].startAt, date))
                && Overlaps(Window(rows[id]), w);
      if rows[id].status != Cancelled {
        assert Window(rows[id]) in Busy(rows, venueId);
      }
    }
  }

  /** By the hours read off the day, a window is placed exactly when it lies within them and no row conflicts. */
  lemma PlacementMeans(rows: map<nat, Row>, venueId: nat, w: Interval, week: Week<DayDTO>, exclude: Option<nat>)
    requires w.start < w.end && ReadHours(week.Day(WeekdayOf(w.start))).Ok?
    ensures var (open, close) := ReadHours(week.Day(WeekdayOf(w.start))).value;
            PlacementProblem(rows, venueId, w.start, w.end, Some(week), exclude).None?
            <==> Inside(w, HoursOn(w.start, open, close)) && ConflictCount(rows, venueId, w.start, w.end, exclude) == 0
  {
    hide ConflictCount;
    var (open, close) := ReadHours(week.Day(WeekdayOf(w.start))).value;
    ReadHoursAreOnDate(week.Day(WeekdayOf(w.start)), w.start);
    if Inside(w, HoursOn(w.start, open, close)) {
      BetweenClockReadings(DayOf(w.start), open.hour, open.minute, close.hour, close.minute, w.end);
    }
  }

  /** The window lies within the working hours of the day of its start. */
  ghost predicate WithinHours(week: Option<Week<DayDTO>>, w: Interval) {
    week.Some? && exists hours :: OpenOn(week.value, w.start, hours) && Inside(w, hours)
  }

  /**
    A window is placed exactly when the venue service answered, the day is open, the window lies between the
    readings of its two texts, and no other row of the venue, live or cancelled, overlaps it.
   */
  lemma PlacedIff(rows: map<nat, Row>, venueId: nat, w: Interval, week: Option<Week<DayDTO>>, exclude: Option<nat>)
    requires w.start < w.end && StartBeforeEnd(rows)
    ensures PlacementProblem(rows, venueId, w.start, w.end, week, exclude).None?
            <==> WithinHours(week, w) && !Taken(rows, venueId, w, exclude)
  {
    if week.Some? {
      var day := week.value.Day(WeekdayOf(w.start));
      forall hours
        ensures OpenOn(week.value, w.start, hours) <==>
                  ReadHours(day).Ok? && hours == HoursOn(w.start, ReadHours(day).value.0, ReadHours(day).value.1)
      {
        OpenOnMeans(week.value, w.start, hours);
      }
      if ReadHours(day).Ok? {
        PlacementMeans(rows, venueId, w, week.value, exclude);
        ConflictCountMeansTaken(rows, venueId, w.start, w.end, exclude);
        var hours := HoursOn(w.start, ReadHours(day).value.0, ReadHours(day).value.1);
        assert OpenOn(week.value, w.start, hours);
      }
      hide ReadHours, OpenOn, Taken, ConflictCount, HoursOn;
    }
  }

  /** Exactly which create calls are accepted. */
  lemma CreateAcceptedIff(rows: map<nat, Row>, c: CreateCall)
    requires StartBeforeEnd(rows)
    ensures CreateProblem(rows, c).None? <==>
              CallerMayCreate(c) && Requested(c).end - Requested(c).start >= 3_600_000_000_000
              && WithinHours(c.week, Requested(c)) && !Taken(rows, c.req.venueId, Requested(c), None)
  {
    if c.req.startAt < c.req.endAt {
      PlacedIff(rows, c.req.venueId, Requested(c), c.week, None);
    }
    hide PlacementProblem, WithinHours, Taken;
  }

  /**
    Whatever the availability call answers for the venue and day of the request, an error included, a create
    call is accepted exactly when the caller may create, the window is at least an hour and lies in an
    answered slot, and no row of the venue that availability skips, cancelled or of another day, overlaps it.
   */
  lemma CreateAgreesWithAvailability(rows: map<nat, Row>, c: CreateCall, r: Result<seq<Interval>, BookingError>)
    requires StartBeforeEnd(rows) && AvailabilityAnswer(rows, c.req.venueId, c.req.startAt, c.week, r)
    ensures CreateProblem(rows, c).None? <==>
              CallerMayCreate(c) && Long(Requested(c)) && r.Ok? && InSomeSlot(Requested(c), r.value)
              && !BlockedUnseen(rows, c.req.venueId, c.req.startAt, Requested(c))
  {
    AnswerMeans(rows, c.req.venueId, c.req.startAt, c.week, r);
    var w := Requested(c);
    if c.week.Some? && Long(w) {
      PlacedByAnswer(rows, c, r);
    }
    hide IsSlotList, InSomeSlot, BlockedUnseen, BusyOn, AvailabilityAnswer, ScheduleProblem, DayAnswerByHours;
  }

  lemma PlacedByAnswer(rows: map<nat, Row>, c: CreateCall, r: Result<seq<Interval>, BookingError>)
    requires StartBeforeEnd(rows) && AnswerByHours(rows, c.req.venueId, c.req.startAt, c.week, r)
    requires c.week.Some? && Long(Requested(c))
    ensures PlacementProblem(rows, c.req.venueId, c.req.startAt, c.req.endAt, c.week, None).None? <==>
              r.Ok? && InSomeSlot(Requested(c), r.value)
              && !BlockedUnseen(rows, c.req.venueId, c.req.startAt, Requested(c))
  {
    var w, day := Requested(c), c.week.value.Day(WeekdayOf(c.req.startAt));
    if ReadHours(day).Ok? {
      var (open, close) := ReadHours(day).value;
      PlacementMeans(rows, c.req.venueId, w, c.week.value, None);
      ConflictFreeMeansFree(rows, c.req.venueId, w);
      FreeByWhatIsSeen(rows, c.req.venueId, w.start, w);
      SlotsAreInHours(r.value, HoursOn(w.start, open, close), BusyOn(rows, c.req.venueId, w.start), w);
      hide IsSlotList, PlacementProblem, InSomeSlot, Free, BlockedByCancelled, BlockedUnseen, ConflictCount, Busy,
        BusyOn, ReadHours;
    }
  }

  /** An answered slot lies within the working hours of the day of the request. */
  lemma SlotsHaveHours(rows: map<nat, Row>, c: CreateCall, slots: seq<Interval>) returns (hours: Interval)
    requires AnsweredSlots(rows, c, slots) && slots != []
    ensures c.week.Some? && OpenOn(c.week.value, c.req.startAt, hours) && OnDate(hours, c.req.startAt)
    ensures IsSlotList(slots, hours, BusyOn(rows, c.req.venueId, c.req.startAt))
  {
    AnswerMeans(rows, c.req.venueId, c.req.startAt, c.week, Ok(slots));
    var day := c.week.value.Day(WeekdayOf(c.req.startAt));
    var (open, close) := ReadHours(day).value;
    hours := HoursOn(c.req.startAt, open, close);
    ReadHoursAreOnDate(day, c.req.startAt);
    OpenOnMeans(c.week.value, c.req.startAt, hours);
  }

  /** Between known working hours the answer is the slot list. */
  lemma SlotsBetweenHours(rows: map<nat, Row>, c: CreateCall, slots: seq<Interval>, hours: Interval)
    requires AnsweredSlots(rows, c, slots) && c.week.Some? && OpenOn(c.week.value, c.req.startAt, hours)
    ensures IsSlotList(slots, hours, BusyOn(rows, c.req.venueId, c.req.startAt))
  {
    AnswerMeans(rows, c.req.venueId, c.req.startAt, c.week, Ok(slots));
    OpenOnMeans(c.week.value, c.req.startAt, hours);
  }

  /** When every row is a window of one day, only cancelled rows can be in the way of a window of an answered slot. */
  lemma OneDayBlockIsCancelled(t: Table, c: CreateCall, slots: seq<Interval>)
    requires RowsWellFormed(t) && AnsweredSlots(t.rows, c, slots) && Long(Requested(c))
             && InSomeSlot(Requested(c), slots)
    ensures BlockedUnseen(t.rows, c.req.venueId, c.req.startAt, Requested(c))
            <==> BlockedByCancelled(t.rows, c.req.venueId, Requested(c))
  {
    var i :| 0 <= i < |slots| && Inside(Requested(c), slots[i]);
    var hours := SlotsHaveHours(t.rows, c, slots);
    assert Inside(slots[i], hours);
    forall id | id in t.rows && Overlaps(Window(t.rows[id]), Requested(c))
      ensures SameDay(t.rows[id].startAt, c.req.startAt)
    {
      DateFilterLosesNothing(t.rows[id], c.req.startAt, hours);
    }
  }

  lemma SlotsAreInHours(slots: seq<Interval>, hours: Interval, busy: set<Interval>, w: Interval)
    requires IsSlotList(slots, hours, busy) && Long(w)
    ensures InSomeSlot(w, slots) <==> Inside(w, hours) && Free(w, busy)
  {
    if InSomeSlot(w, slots) {
      var i :| 0 <= i < |slots| && Inside(w, slots[i]);
      assert Inside(slots[i], hours);
    }
    if Inside(w, hours) {
      SlotListDecidesWindows(slots, hours, busy, w);
    }
  }

  /** The new value is the one asked for, and the old one if none is. */
  predicate Asked<T(==)>(asked: Option<T>, before: T, after: T) {
    asked == Some(after) || (asked == None && after == before)
  }

  /** The checks of an update that concern neither the place nor the time. */
  predicate MayUpdate(r: Row, u: UpdateRequest) {
    && r.status == Pending && u.clientId != Some(0) && u.ownerId != Some(0)
    && u.startAt != Some(ZERO) && u.endAt != Some(ZERO) && (u.price.Some? ==> u.price.value > 0.0)
  }

  /** The venue and window that the update asks for, where it asks for none those of the row. */
  predicate Moves(r: Row, u: UpdateRequest, venueId: nat, w: Interval) {
    Asked(u.venueId, r.venueId, venueId) && Asked(u.startAt, r.startAt, w.start) && Asked(u.endAt, r.endAt, w.end)
  }

  /**
    An update is accepted exactly when it is of a row that may be updated, its new window has not begun and
    lies in the working hours of the new venue, and no other booking there, live or cancelled, overlaps it. No
    shortest length is asked for.
   */
  lemma UpdateAcceptedIff(rows: map<nat, Row>, id: nat, u: UpdateRequest, now: Instant, week: Option<Week<DayDTO>>,
                          venueId: nat, w: Interval)
    requires StartBeforeEnd(rows) && (id in rows ==> Moves(rows[id], u, venueId, w))
    ensures UpdateProblem(rows, id, u, now, week).None? <==>
              id in rows && MayUpdate(rows[id], u) && now <= w.start < w.end
              && WithinHours(week, w) && !Taken(rows, venueId, w, Some(id))
  {
    if id in rows {
      assert Updated(rows[id], u).venueId == venueId && Window(Updated(rows[id], u)) == w;
      if w.start < w.end {
        PlacedIff(rows, venueId, w, week, Some(id));
      }
    }
    hide PlacementProblem, WithinHours, Taken;
  }

  /** An accepted window lies in exactly one slot. */
  lemma AcceptedWindowIsInOneSlot(t: Table, c: CreateCall, slots: seq<Interval>) returns (i: nat)
    requires StartBeforeEnd(t.rows) && AnsweredSlots(t.rows, c, slots) && CreateProblem(t.rows, c).None?
    ensures i < |slots| && Inside(Requested(c), slots[i])
    ensures forall j :: 0 <= j < |slots| && Inside(Requested(c), slots[j]) ==> j == i
  {
    CreateAgreesWithAvailability(t.rows, c, Ok(slots));
    i :| 0 <= i < |slots| && Inside(Requested(c), slots[i]);
    var hours := SlotsHaveHours(t.rows, c, slots);
    hide AvailabilityAnswer, CreateProblem, BusyOn, SlotsAreFree, Complete, OpenOn;
    forall j | 0 <= j < |slots| && Inside(Requested(c), slots[j])
      ensures j == i
    {
      SlotIsUnique(slots, Requested(c), i, j);
    }
  }

  /**
    Availability does not promise that a slot can be booked: cancelling a booking of at least an hour
    within the working hours puts its window into a slot, yet every later create call for that
    window is refused.
   */
  lemma CancelledWindowIsOfferedButRefused(t: Table, id: nat, reason: string, published: bool, c: CreateCall,
                                           slots: seq<Interval>, hours: Interval)
    requires Invariant(t) && CancelStep(t, id, reason, published).1.Ok?
    requires AnsweredSlots(CancelStep(t, id, reason, published).0.rows, c, slots)
    requires c.req.venueId == t.rows[id].venueId && Requested(c) == Window(t.rows[id]) && Long(Requested(c))
    requires c.week.Some? && OpenOn(c.week.value, c.req.startAt, hours) && Inside(Requested(c), hours)
    ensures InSomeSlot(Requested(c), slots)
    ensures CreateProblem(CancelStep(t, id, reason, published).0.rows, c).Some?
  {
    var t' := CancelStep(t, id, reason, published).0;
    CancelKeepsInvariant(t, id, reason, published);
    CancelledWindowIsFree(t, id, reason, published);
    var w := Requested(c);
    assert t'.rows[id].status == Cancelled && Overlaps(Window(t'.rows[id]), w);
    FreeByWhatIsSeen(t'.rows, c.req.venueId, c.req.startAt, w);
    forall b | b in BusyOn(t'.rows, c.req.venueId, c.req.startAt)
      ensures b in Busy(t'.rows, c.req.venueId)
    {
      BusyIsOnDateOr(t'.rows, c.req.venueId, c.req.startAt, b);
    }
    SlotsBetweenHours(t'.rows, c, slots, hours);
    SlotListDecidesWindows(slots, hours, BusyOn(t'.rows, c.req.venueId, c.req.startAt), w);
    CreateAgreesWithAvailability(t'.rows, c, Ok(slots));
  }

  // ----- How bookings and cancellations change availability -----

  /** The live windows of a venue are those of its other rows and, if it is there and live, the row's own. */
  lemma BusyWithRow(rows: map<nat, Row>, row: Row, venueId: nat)
    ensures Busy(rows[row.id := row], venueId)
            == Busy(rows - {row.id}, venueId) + if venueId == row.venueId && row.status != Cancelled then {Window(row)}
              else {}
  {
    var all, others := rows[row.id := row], rows - {row.id};
    var own := if venueId == row.venueId && row.status != Cancelled then {Window(row)} else {};
    forall b | b in Busy(others, venueId) + own
      ensures b in Busy(all, venueId)
    {
      if b in Busy(others, venueId) {
        var id :| id in others && others[id].venueId == venueId && others[id].status != Cancelled
          && b == Window(others[id]);
        assert id in all && all[id] == others[id];
      } else {
        assert row.id in all && all[row.id] == row;
      }
    }
    forall b | b in Busy(all, venueId)
      ensures b in Busy(others, venueId) + own
    {
      var id :| id in all && all[id].venueId == venueId && all[id].status != Cancelled && b == Window(all[id]);
      if id != row.id {
        assert id in others && others[id] == all[id];
      }
    }
  }

  lemma BusyAfterCreate(t: Table, c: CreateCall, venueId: nat)
    requires RowsStored(t.rows, t.nextId) && CreateProblem(t.rows, c).None?
    ensures Busy(CreateStep(t, c).0.rows, venueId)
            == Busy(t.rows, venueId) + if venueId == c.req.venueId && c.req.status != Cancelled then {Requested(c)}
              else {}
  {
    assert t.rows - {t.nextId} == t.rows;
    BusyWithRow(t.rows, NewRow(c, t.nextId), venueId);
  }

  /** The same for what the availability call sees on the day of the booking. */
  lemma BusyOnAfterCreate(t: Table, c: CreateCall)
    requires RowsStored(t.rows, t.nextId) && CreateProblem(t.rows, c).None?
    ensures BusyOn(CreateStep(t, c).0.rows, c.req.venueId, c.req.startAt)
            == BusyOn(t.rows, c.req.venueId, c.req.startAt) + if c.req.status != Cancelled then {Requested(c)} else {}
  {
    var row, seen := NewRow(c, t.nextId), RowsOn(t.rows, c.req.startAt);
    assert RowsOn(t.rows[row.id := row], c.req.startAt) == seen[row.id := row];
    assert seen - {row.id} == seen;
    BusyWithRow(seen, row, c.req.venueId);
  }

  /** What is left of a slot after a window inside it has been taken. */
  function Remainders(slot: Interval, w: Interval): seq<Interval> {
    LongOnly([Interval(slot.start, w.start), Interval(w.end, slot.end)])
  }

  /** The slots with slot `i` replaced by its remainders. */
  function Split(slots: seq<Interval>, i: nat, w: Interval): seq<Interval>
    requires i < |slots|
  {
    slots[..i] + Remainders(slots[i], w) + slots[i + 1..]
  }

  lemma RemaindersFacts(slot: Interval, w: Interval)
    requires Inside(w, slot) && w.start < w.end
    ensures Ordered(Remainders(slot, w))
    ensures forall r :: r in Remainders(slot, w) ==> Inside(r, slot) && Long(r) && !Overlaps(w, r)
    ensures Long(Interval(slot.start, w.start)) ==> Interval(slot.start, w.start) in Remainders(slot, w)
    ensures Long(Interval(w.end, slot.end)) ==> Interval(w.end, slot.end) in Remainders(slot, w)
  {
    var left, right := Interval(slot.start, w.start), Interval(w.end, slot.end);
    assert [left, right][1..] == [right] && [right][1..] == [];
    assert LongOnly([right]) == (if Long(right) then [right] else []) + LongOnly([]);
    assert Remainders(slot, w) == (if Long(left) then [left] else []) + (if Long(right) then [right] else []);
  }

  /** Every part of a split list lies in one of the old slots, and not in the window. */
  lemma SplitElement(slots: seq<Interval>, i: nat, w: Interval, k: nat) returns (j: nat)
    requires Ordered(slots) && (forall m :: 0 <= m < |slots| ==> Long(slots[m]))
    requires i < |slots| && Inside(w, slots[i]) && w.start < w.end
    requires k < |Split(slots, i, w)|
    ensures j < |slots| && Inside(Split(slots, i, w)[k], slots[j])
    ensures Long(Split(slots, i, w)[k]) && !Overlaps(w, Split(slots, i, w)[k])
    ensures j == if k < i then k else if k < i + |Remainders(slots[i], w)| then i else k - |Remainders(slots[i], w)| + 1
  {
    var rest, part := Remainders(slots[i], w), Split(slots, i, w)[k];
    RemaindersFacts(slots[i], w);
    j := if k < i then k else if k < i + |rest| then i else k - |rest| + 1;
    if i <= k < i + |rest| {
      assert part == rest[k - i] && part in rest;
    } else {
      assert part == slots[j];
      assert if j < i then slots[j].end <= slots[i].start else slots[i].end <= slots[j].start;
    }
  }

  lemma SplitIsFree(slots: seq<Interval>, hours: Interval, busy: set<Interval>, i: nat, w: Interval)
    requires IsSlotList(slots, hours, busy) && i < |slots| && Inside(w, slots[i]) && w.start < w.end
    ensures SlotsAreFree(Split(slots, i, w), hours, busy + {w})
  {
    hide Complete, Free;
    var split := Split(slots, i, w);
    forall k | 0 <= k < |split|
      ensures Inside(split[k], hours) && Long(split[k]) && Free(split[k], busy + {w})
    {
      var j := SplitElement(slots, i, w, k);
      assert Inside(slots[j], hours);
      FreeInside(split[k], slots[j], busy);
      FreeOfBoth(split[k], busy, w);
    }
  }

  lemma FreeOfBoth(s: Interval, busy: set<Interval>, w: Interval)
    requires Free(s, busy) && !Overlaps(w, s)
    ensures Free(s, busy + {w})
  {
  }

  lemma SplitIsOrdered(slots: seq<Interval>, i: nat, w: Interval)
    requires Ordered(slots) && (forall m :: 0 <= m < |slots| ==> Long(slots[m]))
    requires i < |slots| && Inside(w, slots[i]) && w.start < w.end
    ensures Ordered(Split(slots, i, w))
  {
    var rest, split := Remainders(slots[i], w), Split(slots, i, w);
    RemaindersFacts(slots[i], w);
    forall k, l | 0 <= k < l < |split|
      ensures split[k].end <= split[l].start
    {
      var k' := SplitElement(slots, i, w, k);
      var l' := SplitElement(slots, i, w, l);
      if k' < l' {
        assert slots[k'].end <= slots[l'].start;
      } else {
        assert split[k] == rest[k - i] && split[l] == rest[l - i];
      }
    }
  }

  lemma SplitIsComplete(slots: seq<Interval>, hours: Interval, busy: set<Interval>, i: nat, w: Interval)
    requires IsSlotList(slots, hours, busy) && i < |slots| && Inside(w, slots[i]) && w.start < w.end
    ensures Complete(Split(slots, i, w), hours, busy + {w})
  {
    forall v: Interval | Inside(v, hours) && Long(v) && Free(v, busy + {w})
      ensures InSomeSlot(v, Split(slots, i, w))
    {
      assert Free(v, busy) && !Overlaps(w, v);
      assert InSomeSlot(v, slots);
      var j :| 0 <= j < |slots| && Inside(v, slots[j]);
      SplitHolds(slots, i, w, v, j);
    }
  }

  /** A window of an old slot that avoids the booked window is still in a part. */
  lemma SplitHolds(slots: seq<Interval>, i: nat, w: Interval, v: Interval, j: nat)
    requires i < |slots| && Inside(w, slots[i]) && w.start < w.end
    requires j < |slots| && Inside(v, slots[j]) && Long(v) && !Overlaps(w, v)
    ensures InSomeSlot(v, Split(slots, i, w))
  {
    var rest, split := Remainders(slots[i], w), Split(slots, i, w);
    if j < i {
      assert split[j] == slots[j];
    } else if j > i {
      assert split[j - 1 + |rest|] == slots[j];
    } else {
      RemaindersFacts(slots[i], w);
      var r := if v.end <= w.start then Interval(slots[i].start, w.start) else Interval(w.end, slots[i].end);
      assert Inside(v, r) && r in rest;
      var k :| 0 <= k < |rest| && rest[k] == r;
      assert split[i + k] == r;
    }
  }

  lemma SplitIsSlotList(slots: seq<Interval>, hours: Interval, busy: set<Interval>, i: nat, w: Interval)
    requires IsSlotList(slots, hours, busy) && i < |slots| && Inside(w, slots[i]) && w.start < w.end
    ensures IsSlotList(Split(slots, i, w), hours, busy + {w})
  {
    hide Split, Free, Complete, Ordered;
    assert Ordered(slots) && forall m :: 0 <= m < |slots| ==> Long(slots[m]);
    SplitIsFree(slots, hours, busy, i, w);
    SplitIsOrdered(slots, i, w);
    SplitIsComplete(slots, hours, busy, i, w);
  }

  /**
    An accepted booking replaces the one slot it lies in by what is left of it on either side, if
    that is at least an hour, and leaves every other slot alone. A row created as cancelled changes nothing.
   */
  lemma BookingSplitsItsSlot(t: Table, c: CreateCall, slots: seq<Interval>, slots': seq<Interval>) returns (i: nat)
    requires RowsStored(t.rows, t.nextId) && CreateProblem(t.rows, c).None?
    requires AnsweredSlots(t.rows, c, slots) && AnsweredSlots(CreateStep(t, c).0.rows, c, slots')
    ensures i < |slots| && Inside(Requested(c), slots[i])
    ensures slots' == if c.req.status == Cancelled then slots else Split(slots, i, Requested(c))
  {
    var w := Requested(c);
    var busy, busy' := BusyOn(t.rows, c.req.venueId, c.req.startAt),
      BusyOn(CreateStep(t, c).0.rows, c.req.venueId, c.req.startAt);
    i := AcceptedWindowIsInOneSlot(t, c, slots);
    var hours := SlotsHaveHours(t.rows, c, slots);
    SlotsBetweenHours(CreateStep(t, c).0.rows, c, slots', hours);
    BusyOnAfterCreate(t, c);
    hide Split, IsSlotList, CreateStep, Busy, BusyOn, ReadHours, PlacementProblem, Week.Day;
    if c.req.status == Cancelled {
      SlotListIsUnique(slots', slots, hours, busy', busy);
    } else {
      SplitIsSlotList(slots, hours, busy, i, w);
      SlotListIsUnique(slots', Split(slots, i, w), hours, busy', busy + {w});
    }
  }

  /** An accepted booking changes no slot of another venue or of another day. */
  lemma BookingLeavesOtherSlots(t: Table, c: CreateCall, venueId: nat, date: Instant, hours: Interval,
                                slots: seq<Interval>, slots': seq<Interval>)
    requires RowsStored(t.rows, t.nextId) && CreateProblem(t.rows, c).None? && OnDate(hours, date)
    requires venueId != c.req.venueId || !SameDay(date, c.req.startAt)
    requires IsSlotList(slots, hours, Busy(t.rows, venueId))
    requires IsSlotList(slots', hours, Busy(CreateStep(t, c).0.rows, venueId))
    ensures slots' == slots
  {
    var busy, busy' := Busy(t.rows, venueId), Busy(CreateStep(t, c).0.rows, venueId);
    BusyAfterCreate(t, c, venueId);
    forall w: Interval | Inside(w, hours) && Long(w)
      ensures Free(w, busy') <==> Free(w, busy)
    {
      if Free(w, busy) && Requested(c) in busy' && Requested(c) !in busy {
        assert !Overlaps(Requested(c), w);
      }
    }
    SlotListIsUnique(slots', slots, hours, busy', busy);
  }

  lemma BusyBeforeCancel(t: Table, id: nat, reason: string, published: bool, venueId: nat)
    requires RowsStored(t.rows, t.nextId) && CancelStep(t, id, reason, published).1.Ok?
    ensures Busy(t.rows, venueId)
            == Busy(CancelStep(t, id, reason, published).0.rows, venueId)
               + if venueId == t.rows[id].venueId then {Window(t.rows[id])} else {}
  {
    var row := t.rows[id];
    assert t.rows[row.id := row] == t.rows;
    BusyWithRow(t.rows, row, venueId);
    BusyWithRow(t.rows, row.(status := Cancelled, reason := reason), venueId);
  }

  /** A cancellation never shrinks availability: every old slot lies in a new one. */
  lemma CancellationNeverShrinks(t: Table, id: nat, reason: string, published: bool, venueId: nat, hours: Interval,
                                 slots: seq<Interval>, slots': seq<Interval>, i: nat)
    requires RowsStored(t.rows, t.nextId)
    requires IsSlotList(slots, hours, Busy(t.rows, venueId)) && i < |slots|
    requires IsSlotList(slots', hours, Busy(CancelStep(t, id, reason, published).0.rows, venueId))
    ensures InSomeSlot(slots[i], slots')
  {
    if CancelStep(t, id, reason, published).1.Ok? {
      BusyBeforeCancel(t, id, reason, published, venueId);
    }
    hide Busy;
    var busy, busy' := Busy(t.rows, venueId), Busy(CancelStep(t, id, reason, published).0.rows, venueId);
    assert busy' <= busy;
    assert Free(slots[i], busy');
  }

  /** The cancelled window overlaps no other live booking, so afterwards it is free. */
  lemma CancelledWindowIsFree(t: Table, id: nat, reason: string, published: bool)
    requires Invariant(t) && CancelStep(t, id, reason, published).1.Ok?
    ensures Free(Window(t.rows[id]), Busy(CancelStep(t, id, reason, published).0.rows, t.rows[id].venueId))
  {
    var rows' := CancelStep(t, id, reason, published).0.rows;
    forall b | b in Busy(rows', t.rows[id].venueId)
      ensures !Overlaps(b, Window(t.rows[id]))
    {
      var other :| other in rows' && rows'[other].venueId == t.rows[id].venueId && rows'[other].status != Cancelled
        && b == Window(rows'[other]);
      assert other != id && rows'[other] == t.rows[other];
    }
  }

  /** A free window that meets a long free window lies in a slot, the one around both. */
  lemma MeetingWindowsShareASlot(slots: seq<Interval>, hours: Interval, busy: set<Interval>, w: Interval, v: Interval)
    requires IsSlotList(slots, hours, busy) && Inside(w, hours) && w.start < w.end && Free(w, busy)
    requires Inside(v, hours) && Long(v) && Free(v, busy) && Overlaps(w, v)
    requires forall b :: b in busy ==> b.start < b.end
    ensures InSomeSlot(w, slots)
  {
    var hull := HullIsFree(busy, w, v);
    assert InSomeSlot(hull, slots);
    var k :| 0 <= k < |slots| && Inside(hull, slots[k]);
    assert Inside(w, slots[k]);
  }

  lemma HullIsFree(busy: set<Interval>, w: Interval, v: Interval) returns (hull: Interval)
    requires Free(w, busy) && Free(v, busy) && Overlaps(w, v) && w.start < w.end && v.start < v.end
    requires forall b :: b in busy ==> b.start < b.end
    ensures Free(hull, busy) && Inside(w, hull) && Inside(v, hull)
    ensures forall hours :: Inside(w, hours) && Inside(v, hours) ==> Inside(hull, hours)
  {
    hull := Interval(if w.start < v.start then w.start else v.start, if w.end > v.end then w.end else v.end);
    forall b | b in busy
      ensures !Overlaps(b, hull)
    {
      assert !Overlaps(b, w) && !Overlaps(b, v);
    }
  }

  /**
    `slots` is `wider` with a window taken out: if the part of the window within the hours lies in a slot
    of `wider`, that slot is split around it, and otherwise nothing changes.
   */
  ghost predicate CarvedFrom(slots: seq<Interval>, wider: seq<Interval>, w: Interval, hours: Interval) {
    var part := Clamp(w, hours);
    if part.start < part.end && InSomeSlot(part, wider)
    then exists i :: 0 <= i < |wider| && Inside(part, wider[i]) && slots == Split(wider, i, part)
    else slots == wider
  }

  /** Making a free window busy carves it out of the slots, also where it reaches beyond the working hours. */
  lemma BusyWindowIsCarved(slots: seq<Interval>, wider: seq<Interval>, hours: Interval, busy: set<Interval>,
                           w: Interval)
    requires IsSlotList(wider, hours, busy) && IsSlotList(slots, hours, busy + {w})
    requires Free(w, busy) && w.start < w.end && forall b :: b in busy ==> b.start < b.end
    ensures CarvedFrom(slots, wider, w, hours)
  {
    var part := Clamp(w, hours);
    if part.start < part.end {
      ClampBlocksTheSame(hours, busy, w);
      if InSomeSlot(part, wider) {
        var i :| 0 <= i < |wider| && Inside(part, wider[i]);
        SplitIsSlotList(wider, hours, busy, i, part);
        SlotListIsUnique(slots, Split(wider, i, part), hours, busy + {w}, busy + {part});
      } else {
        ShortStretchChangesNothing(wider, hours, busy, part);
        assert SameFreedom(hours, busy + {w}, busy);
        SlotListIsUnique(slots, wider, hours, busy + {w}, busy);
      }
    } else {
      OutsideBlocksNothing(hours, busy, w);
      SlotListIsUnique(slots, wider, hours, busy + {w}, busy);
    }
  }

  /** Within the hours, a window blocks what its part within the hours blocks. */
  lemma ClampBlocksTheSame(hours: Interval, busy: set<Interval>, w: Interval)
    requires Free(w, busy) && Clamp(w, hours).start < Clamp(w, hours).end
    ensures Inside(Clamp(w, hours), hours) && Free(Clamp(w, hours), busy)
    ensures SameFreedom(hours, busy + {w}, busy + {Clamp(w, hours)})
  {
    var part := Clamp(w, hours);
    FreeInside(part, w, busy);
    forall v: Interval | Inside(v, hours) && Long(v)
      ensures Free(v, busy + {w}) <==> Free(v, busy + {part})
    {
      assert Overlaps(w, v) <==> Overlaps(part, v);
      assert w in busy + {w} && part in busy + {part};
    }
  }

  lemma OutsideBlocksNothing(hours: Interval, busy: set<Interval>, w: Interval)
    requires w.start < w.end && Clamp(w, hours).start >= Clamp(w, hours).end
    ensures SameFreedom(hours, busy + {w}, busy)
  {
    forall v: Interval | Inside(v, hours) && Long(v)
      ensures Free(v, busy + {w}) <==> Free(v, busy)
    {
      assert !Overlaps(w, v);
    }
  }

  /**
    Exactly what a cancellation does to availability: the slots before it are the slots after it with the
    cancelled window carved out.
   */
  lemma CancellationMergesSlots(t: Table, id: nat, reason: string, published: bool, hours: Interval,
                                slots: seq<Interval>, slots': seq<Interval>)
    requires Invariant(t) && CancelStep(t, id, reason, published).1.Ok?
    requires IsSlotList(slots, hours, Busy(t.rows, t.rows[id].venueId))
    requires IsSlotList(slots', hours, Busy(CancelStep(t, id, reason, published).0.rows, t.rows[id].venueId))
    ensures CarvedFrom(slots, slots', Window(t.rows[id]), hours)
  {
    var busy' := Busy(CancelStep(t, id, reason, published).0.rows, t.rows[id].venueId);
    BusyBeforeCancel(t, id, reason, published, t.rows[id].venueId);
    CancelledWindowIsFree(t, id, reason, published);
    BusyWindowIsPositive(CancelStep(t, id, reason, published).0.rows, t.rows[id].venueId);
    BusyWindowIsCarved(slots, slots', hours, busy', Window(t.rows[id]));
  }

  lemma BusyWindowIsPositive(rows: map<nat, Row>, venueId: nat)
    requires StartBeforeEnd(rows)
    ensures forall b :: b in Busy(rows, venueId) ==> b.start < b.end
  {
  }

  lemma ShortStretchChangesNothing(slots: seq<Interval>, hours: Interval, busy: set<Interval>, w: Interval)
    requires IsSlotList(slots, hours, busy) && Inside(w, hours) && w.start < w.end && Free(w, busy)
             && !InSomeSlot(w, slots)
    requires forall b :: b in busy ==> b.start < b.end
    ensures SameFreedom(hours, busy + {w}, busy)
  {
    forall v: Interval | Inside(v, hours) && Long(v)
      ensures Free(v, busy + {w}) <==> Free(v, busy)
    {
      if Free(v, busy) && Overlaps(w, v) {
        MeetingWindowsShareASlot(slots, hours, busy, w, v);
      }
    }
  }

  /** `slots` is `wider` with the window carved out at the venue it is booked at; elsewhere it is `wider`. */
  ghost predicate CarvedAt(slots: seq<Interval>, wider: seq<Interval>, bookedAt: nat, w: Interval, venueId: nat,
                           hours: Interval)
  {
    if venueId == bookedAt then CarvedFrom(slots, wider, w, hours) else slots == wider
  }

  lemma RowIsCarved(rows: map<nat, Row>, row: Row, venueId: nat, hours: Interval, slots: seq<Interval>,
                    wider: seq<Interval>)
    requires IsSlotList(wider, hours, Busy(rows - {row.id}, venueId))
    requires IsSlotList(slots, hours, Busy(rows[row.id := row], venueId))
    requires row.status != Cancelled && row.startAt < row.endAt && Free(Window(row), Busy(rows - {row.id}, row.venueId))
    requires StartBeforeEnd(rows)
    ensures CarvedAt(slots, wider, row.venueId, Window(row), venueId, hours)
  {
    BusyWithRow(rows, row, venueId);
    BusyWindowIsPositive(rows - {row.id}, venueId);
    var busy := Busy(rows - {row.id}, venueId);
    if venueId == row.venueId {
      BusyWindowIsCarved(slots, wider, hours, busy, Window(row));
    } else {
      SlotListIsUnique(slots, wider, hours, Busy(rows[row.id := row], venueId), busy);
    }
  }

  /**
    Exactly what an accepted update does to availability, at any venue and on any day: with `between` the
    slots there would be without the booking, the old slots are `between` with the old window carved out at
    the old venue, and the new slots are `between` with the new window carved out at the new venue.
   */
  lemma UpdateMovesSlots(t: Table, id: nat, u: UpdateRequest, now: Instant, week: Option<Week<DayDTO>>,
                         newVenueId: nat, w: Interval, venueId: nat, hours: Interval,
                         slots: seq<Interval>, between: seq<Interval>, slots': seq<Interval>)
    requires Invariant(t) && UpdateProblem(t.rows, id, u, now, week).None? && Moves(t.rows[id], u, newVenueId, w)
    requires IsSlotList(slots, hours, Busy(t.rows, venueId))
    requires IsSlotList(between, hours, Busy(t.rows - {id}, venueId))
    requires IsSlotList(slots', hours, Busy(UpdateStep(t, id, u, now, week).0.rows, venueId))
    ensures CarvedAt(slots, between, t.rows[id].venueId, Window(t.rows[id]), venueId, hours)
    ensures CarvedAt(slots', between, newVenueId, w, venueId, hours)
  {
    var stored, changed := t.rows[id], Updated(t.rows[id], u);
    assert changed.venueId == newVenueId && Window(changed) == w;
    StoredWindowIsFree(t, id);
    UpdatedWindowIsFree(t, id, u, now, week, newVenueId, w);
    assert t.rows[id := stored] == t.rows;
    RowIsCarved(t.rows, stored, venueId, hours, slots, between);
    RowIsCarved(t.rows, changed, venueId, hours, slots', between);
  }

  /** Without double bookings a stored window is free of all other rows. */
  lemma StoredWindowIsFree(t: Table, id: nat)
    requires Invariant(t) && id in t.rows
    ensures Free(Window(t.rows[id]), Busy(t.rows - {id}, t.rows[id].venueId))
  {
    var others := t.rows - {id};
    forall b | b in Busy(others, t.rows[id].venueId)
      ensures !Overlaps(b, Window(t.rows[id]))
    {
      var other :| other in others && others[other].venueId == t.rows[id].venueId && others[other].status != Cancelled
        && b == Window(others[other]);
      assert other != id && others[other] == t.rows[other];
    }
  }

  lemma UpdatedWindowIsFree(t: Table, id: nat, u: UpdateRequest, now: Instant, week: Option<Week<DayDTO>>,
                            venueId: nat, w: Interval)
    requires StartBeforeEnd(t.rows) && UpdateProblem(t.rows, id, u, now, week).None? && Moves(t.rows[id], u, venueId, w)
    ensures w.start < w.end && Free(w, Busy(t.rows - {id}, venueId))
  {
    UpdateAcceptedIff(t.rows, id, u, now, week, venueId, w);
    var others := t.rows - {id};
    forall b | b in Busy(others, venueId)
      ensures !Overlaps(b, w)
    {
      var other :| other in others && others[other].venueId == venueId && others[other].status != Cancelled
                   && b == Window(others[other]);
      assert t.rows[other] == others[other];
    }
  }

  /** Cancelling a booking that was just made gives every venue its slots back. */
  lemma CancelUndoesBooking(t: Table, c: CreateCall, reason: string, published: bool, venueId: nat, hours: Interval,
                            slots: seq<Interval>, slots': seq<Interval>)
    requires RowsStored(t.rows, t.nextId) && CreateProblem(t.rows, c).None? && c.req.status != Cancelled
             && c.req.status != Completed
    requires IsSlotList(slots, hours, Busy(t.rows, venueId))
    requires IsSlotList(slots', hours,
                        Busy(CancelStep(CreateStep(t, c).0, t.nextId, reason, published).0.rows, venueId))
    ensures CancelStep(CreateStep(t, c).0, t.nextId, reason, published).1.Ok?
    ensures slots' == slots
  {
    var t' := CreateStep(t, c).0;
    var rows'' := CancelStep(t', t.nextId, reason, published).0.rows;
    forall b | b in Busy(t.rows, venueId)
      ensures b in Busy(rows'', venueId)
    {
      var id :| id in t.rows && t.rows[id].venueId == venueId && t.rows[id].status != Cancelled
        && b == Window(t.rows[id]);
      assert rows''[id] == t.rows[id];
    }
    forall b | b in Busy(rows'', venueId)
      ensures b in Busy(t.rows, venueId)
    {
      var id :| id in rows'' && rows''[id].venueId == venueId && rows''[id].status != Cancelled
        && b == Window(rows''[id]);
      assert id != t.nextId && rows''[id] == t.rows[id];
    }
    assert Busy(rows'', venueId) == Busy(t.rows, venueId);
    SlotListIsUnique(slots', slots, hours, Busy(rows'', venueId), Busy(t.rows, venueId));
  }
}
