/** What interleaved booking calls mean for the availability call and for refunds. */
module InterleavedConsequences {
  import opened Time
  import opened Sweep
  import opened Bookings
  import opened Availability
  import opened InterleavedBookings
  import opened InterleavedRows
  import opened InterleavedFailures
  import L = Ledger
  import C = Consumer

  /**
    Whenever every row is a window of one day, the slots answered for
    hours of a date are those of all live bookings.
   */
  lemma OneDayRowsAreSeen(run: seq<CallStep>, n: nat, venueId: nat, date: Instant, hours: Interval,
                          slots: seq<Interval>)
    requires n <= |run| && OneDayAt(run, n) && OnDate(hours, date)
    requires IsSlotList(slots, hours, BusyOn(RowsAt(run, n), venueId, date))
    ensures IsSlotList(slots, hours, Busy(RowsAt(run, n), venueId))
  {
    StartsBeforeEndAlways(run, n);
    OneDayAnswerIsComplete(Table(RowsAt(run, n), After(run, n).nextId, [], []), venueId, date, hours, slots);
  }

  const TUESDAY := Interval(At(8, 9, 0), At(8, 18, 0))

  /**
    The live booking from Monday to Wednesday covers all of Tuesday,
    which is nevertheless answered as one free slot.
   */
  lemma TornBookingIsNotSeen(bookings: seq<Row>, its: seq<Interval>)
    requires IsListing(bookings, RowsAt(TORN, 9), 1)
    requires multiset(its) == multiset(ClipAll(bookings, At(8, 0, 0), TUESDAY)) && SortedByStart(its)
    ensures LongOnly(Gaps(TUESDAY.start, its, TUESDAY.end)) == [TUESDAY]
    ensures !Free(TUESDAY, Busy(RowsAt(TORN, 9), 1))
  {
    TornUpdateSpansDays();
    assert |TORN| == 9;
    hide *;
    CoveredDayIsOffered(RowsAt(TORN, 9), bookings, its);
  }

  lemma CoveredDayIsOffered(rows: map<nat, Row>, bookings: seq<Row>, its: seq<Interval>)
    requires rows.Keys == {1} && rows[1].venueId == 1 && rows[1].status == Pending
    requires Window(rows[1]) == Interval(At(7, 9, 0), At(9, 12, 0))
    requires IsListing(bookings, rows, 1)
    requires multiset(its) == multiset(ClipAll(bookings, At(8, 0, 0), TUESDAY)) && SortedByStart(its)
    ensures LongOnly(Gaps(TUESDAY.start, its, TUESDAY.end)) == [TUESDAY]
    ensures !Free(TUESDAY, Busy(rows, 1))
  {
    AtFields(7, 9, 0);
    AtFields(8, 0, 0);
    assert RowsOn(rows, At(8, 0, 0)) == map[];
    assert BusyOn(rows, 1, At(8, 0, 0)) == {};
    assert Window(rows[1]) in Busy(rows, 1);
    assert Long(TUESDAY) && Overlaps(Window(rows[1]), TUESDAY);
    hide At, Gaps, LongOnly, IsSlotList, BusyOn, Busy, ClipAll, IsListing;
    SweepGivesSlotList(rows, 1, bookings, its, At(8, 0, 0), TUESDAY);
    EmptyDayIsOneSlot(TUESDAY);
    SlotListIsUnique(LongOnly(Gaps(TUESDAY.start, its, TUESDAY.end)), [TUESDAY], TUESDAY, {}, {});
  }

  lemma EmptyDayIsOneSlot(hours: Interval)
    requires Long(hours)
    ensures IsSlotList([hours], hours, {})
  {
    assert [hours][0] == hours;
  }

  /**
    After the cancellation has been published and the booking revived, a
    consumer refunds the payment of a pending booking.
   */
  lemma RevivedIsRefunded(a: L.Accounts, now: Instant)
    requires L.Balanced(a) && C.HasPaymentToRefund(a, 1)
    ensures Announced(After(REVIVED, 8).cancelled, 1)
    ensures 1 in RowsAt(REVIVED, 8) && RowsAt(REVIVED, 8)[1].status == Pending
    ensures C.Deliver(a, C.Delivery.Cancelled(1, now)) != a
  {
    RevivedAfterCancellation();
    C.HandlingChangesIff(a, C.Delivery.Cancelled(1, now));
  }
}
