/** A venue open every day from 09:00 to 18:00, and create calls for it, from which concrete runs start. */
module SampleVenue {
  import opened Common
  import opened Time
  import opened ClockText
  import opened VenueSchedule
  import opened Bookings

  const OPEN_DAY := DayDTO(true, Some("09:00"), Some("18:00"))
  const OPEN_WEEK := Week(OPEN_DAY, OPEN_DAY, OPEN_DAY, OPEN_DAY, OPEN_DAY, OPEN_DAY, OPEN_DAY)

  /** A client's call for two hours from ten on the given day, at 1000 an hour. */
  function CallOn(day: int): CreateCall {
    CreateCall(CreateRequest(1, 1, At(day, 10, 0), At(day, 12, 0), Pending), Claims(1, ClientRole), 1,
               Some(OPEN_WEEK), Some(1000.0), true)
  }

  lemma OpenHours(i: nat)
    requires i < 7
    ensures ReadHours(OPEN_WEEK.Day(i)) == Ok((Clock(9, 0), Clock(18, 0)))
  {
    assert OPEN_WEEK.Day(i) == OPEN_DAY;
    assert ParseClock("09:00") == Some(Clock(9, 0));
    assert ParseClock("18:00") == Some(Clock(18, 0));
  }

  /** A window within the opening hours of one day that no other row takes is placed. */
  lemma WindowIsPlaced(rows: map<nat, Row>, venueId: nat, day: int, from: nat, to: nat, exclude: Option<nat>)
    requires 9 <= from <= to <= 18
    requires forall id :: id in rows && rows[id].venueId == venueId ==> exclude == Some(id)
    ensures PlacementProblem(rows, venueId, At(day, from, 0), At(day, to, 0), Some(OPEN_WEEK), exclude).None?
  {
    AtFields(day, from, 0);
    AtFields(day, to, 0);
    OpenHours(WeekdayOf(At(day, from, 0)));
    assert ConflictIds(rows, venueId, At(day, from, 0), At(day, to, 0), exclude) == {};
  }

  lemma FirstCallIsAccepted(day: int)
    requires day > 0
    ensures CreateProblem(map[], CallOn(day)).None?
    ensures PriceOf(CallOn(day)) == 2000.0
  {
    WindowIsPlaced(map[], 1, day, 10, 12, None);
    assert (At(day, 12, 0) - At(day, 10, 0)) as real / HOUR as real == 2.0;
  }
}
