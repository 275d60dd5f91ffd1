# Verified model of the Play-Arenas booking and payment services

Play-Arenas books sports venues. Its reservation service keeps a table of bookings, answers which
slots of a venue are free on a day, and publishes created and cancelled events; its payment service
consumes these events, keeps payments and refunds, and its venue service keeps the weekly schedules
the other two rely on. This project models the three in Dafny and proves what they keep over every run.

| file | what it models |
|---|---|
| `Common.dfy` | options, outcomes, weeks, and instants of one time zone |
| `ClockText.dfy` | clock readings as text: the venue service's validator, Go's "15:04" parser and formatter |
| `VenueSchedule.dfy` | weekly schedules, their transfer form, the storage hooks, round trips |
| `Sweep.dfy` | free slots: a specification with at most one solution, and the sweep that computes it |
| `Bookings.dfy` | the booking table, create, cancel and update as atomic steps, runs and their invariants |
| `OpeningHours.dfy` | what a week of opening hours says about a date, by the calendar and by what its texts show |
| `Availability.dfy` | what the sweep means for the table, and how it agrees with the create call |
| `BookingOutcomes.dfy` | what create, cancel and update answer and store: every check, error and field |
| `SampleVenue.dfy` | one venue and create calls for it, from which concrete runs start |
| `InterleavedBookings.dfy` | the same calls split into their unlocked steps, in any interleaving; where every row and every write comes from |
| `InterleavedRows.dfy` | which schedules of these steps keep rows within one day, cancelled rows frozen, and the cancelled topic true and free of repetitions |
| `InterleavedConflicts.dfy` | which schedules double-book a venue, and a lock that makes every schedule safe |
| `InterleavedFailures.dfy` | concrete interleavings that break what atomic calls keep |
| `InterleavedConsequences.dfy` | what these interleavings mean for availability and for refunds |
| `BookingService.dfy` | the reservation service as a class that changes its table in place |
| `Ledger.dfy` | payments and refunds, and the balance between them |
| `Consumer.dfy` | handling of events: redelivery, order, what a cancellation refunds |
| `PaymentService.dfy` | the payment service as a class: repositories, refund transaction, consume loops |
| `EndToEnd.dfy` | both services, both topics and split consumer steps in one transition system |

Modelling decisions:

- Instants are integers counted in nanoseconds from Go's zero time, a Monday midnight; a day is the
  quotient by the length of a day. There is one time zone, and the clock is a parameter.
- `models.Reservation` and `models.ReservationDetails` name one table. The conflict query ignores the
  status of rows while availability skips cancelled ones; agreement is stated with that difference.
- In `Bookings.dfy` and everything built on it each booking call is one atomic step, although the source
  locks nothing between checking and inserting or between reading and saving a row. The
  `Interleaved` files drop that assumption: create is a validation, a second check and an insertion, cancel a
  read and a save, and update a read, a second read that it validates, and a save of the first copy. Validation is one step,
  its call of the venue service between the second read and the conflict count included. They
  prove exactly which interleavings are still safe.
- Payment and refund amounts are 64-bit. The specification functions wrap around as Go does, the class
  methods assign plain results to the 64-bit type, so that Dafny checks that nothing overflows.
  Identifiers and times are unbounded; every duration that atomic calls compute lies within one day.
- What a text, a date, a new row, an update or a payment means is written out a second time, with its own digits,
  nanoseconds and fields, and proved equal to what the code computes, so that no main result rests on a
  function of the model alone.
- Prices are exact reals; rounding to the nearest integer sends halves away from zero, and the
  conversion of a price that does not fit 64 bits is an arbitrary parameter, as Go leaves it open.
- Events may be delivered any number of times, in any order, or never. Checking for an existing payment
  and inserting one are separate steps, and so are reading a payment to refund and refunding it.
- The refund transaction stores the updated payment row, as it intends; the source passes the payment
  where its repository expects a pointer.
- The answers of the venue service are parameters: a week of opening hours and an hour price, each of
  which may be missing.

Properties that do not hold of the code, with the exact condition under which they do:

- A slot offered by availability can be refused: a window of an hour or more in it can be booked exactly
  when the caller may create, it has not begun, and no row of the venue that availability skips, cancelled or
  of another day, overlaps it (`CreateAgreesWithAvailability`, `CancelledWindowIsOfferedButRefused`).
- Availability skips bookings that started on another day. Its answer is the slot list of all live bookings
  exactly when none of those overlaps an answered slot (`AnswerIsCompleteIff`), so always for windows of one
  day (`OneDayAnswerIsComplete`). Interleaved updates can store a booking from Monday to Wednesday, and then
  all of Tuesday is offered as free (`TornBookingIsNotSeen`).
- Booking calls that interleave can double-book a venue (`ConcurrentCreatesDoubleBook`): a schedule is safe
  exactly when between the last check of each call and its own commit no other commit stores an overlapping
  row of the venue (`ScheduleIsSafeIff`).
- An update reads its row twice and saves the first copy, so a stored booking can span days
  (`TornUpdateSpansDays`): every row is a window of one day exactly when each update that gives one edge of
  the window found its row on the same day at both reads (`OneDayIff`). Start before end holds in every
  interleaving (`StartsBeforeEndAlways`).
- A save based on an earlier read can change or revive a cancelled row (`CancelledTwice`,
  `RevivedAfterCancellation`): rows stay frozen exactly when no save, of a cancellation or of an update,
  stores something else over a cancellation committed since it read its row (`FreezingIff`).
- A booking can get two cancelled events (`CancelledTwice`): it gets at most one exactly when no
  cancellation is saved for a row that has been cancelled before (`OneEventIff`).
- Consumers refund the payments of bookings that have a cancelled event. These bookings are cancelled when
  booking calls are atomic (`RefundedBookingIsCancelled`). With interleaved calls a revived booking is refunded
  (`RevivedIsRefunded`), and every event stays true exactly when no update is saved after the cancellation of
  its row was published (`EventsStayTrueIff`).
- No double booking, windows of one day, frozen rows and single events hold of every schedule if each call
  locks its row and its venue until its commit (`LockedSchedulesAreSafe`); complete availability follows from
  the second (`OneDayRowsAreSeen`).
- A cancellation event refunds only the first payment of the booking, so completed payments behind a
  pending one stay paid (`CancellationRefundsAllIff`, `PaidAfterPendingIsNotRefunded`).
- With two or more instances consuming created events a booking can get two pending payments (`OnePendingIff`).
- A refund made by hand between the snapshot and the refund of a cancellation makes the latter fail as a
  whole (`StaleRefundIsAllOrNothing`).
- The stored duration of a booking is not updated with its window: it is right exactly when the new window is
  as long as the stored duration already said (`StoredDurationIsRightIff`).

## Model

| member | source | states |
|---|---|---|
| ClockText.ParsersAgree | venue-service/internal/validation/time.go:14-50 | the validator accepts exactly the texts of the pattern, so its later error branches are dead and its one error is that of the pattern, and it reads the same clock as Go's layout parser, which accepts exactly the same texts |
| ClockText.ReadingIsShown | venue-service/internal/validation/time.go:14-50 | a text is read as a clock exactly when it is the hour in one or two digits, a colon and the minute in two, and the validator puts exactly that clock on the date |
| ClockText.FormatShows | venue-service/internal/transport/dto.go:57-62 | a time is written with two digits each as the hour and minute of its day |
| ClockText.CompareTimesIsClockOrder | venue-service/internal/validation/time.go:54-66 | comparison succeeds exactly on two valid texts and orders them by hour, then minute |
| ClockText.FormatThenParse | venue-service/internal/transport/dto.go:57-62 | a formatted time is read back, by both parsers, to the minute |
| VenueSchedule.FromWeekDTO | venue-service/internal/transport/dto.go:125-157 | the week converts exactly when all seven days do; otherwise the error names the first failing day and its cause |
| VenueSchedule.FromVenueDTO | venue-service/internal/transport/dto.go:161-182 | every field but the schedule survives; the schedule is the converted one |
| VenueSchedule.WeekConvertedIsUnique | venue-service/internal/transport/dto.go:125-157 | the outcome of converting a week is determined |
| VenueSchedule.ValidatedDays | venue-service/internal/models/venue.go:68-109 | a venue passes the hooks exactly when its type is known and every day is either open with opening before closing or closed without times |
| VenueSchedule.VenueProblemMeans | venue-service/internal/models/venue.go:68-109 | an unknown type is refused first; otherwise the error names the first day that is not well formed and what is wrong with it |
| VenueSchedule.DayConversionMeans | venue-service/internal/transport/dto.go:67-92 | a closed day converts to one without times, an open one exactly when both texts show a clock, to these clocks on the date of the conversion; each failure has its own error |
| VenueSchedule.DayTextMeans | venue-service/internal/transport/dto.go:53-64 | a day with times is written as texts that show their times of day, one without is written without |
| VenueSchedule.ScheduleRoundTrip | venue-service/internal/transport/dto.go:53-92 | a valid week converted to texts and back keeps every enabled flag and time of day |
| VenueSchedule.TextRoundTrip | venue-service/internal/transport/dto.go:53-92 | accepted texts converted to a schedule and back are zero-padded, closed days lose their times, and a second pass changes nothing |
| VenueSchedule.ValidatedVenueAnswers | venue-service/internal/models/venue.go:87-106 | a converted and validated venue answers with texts that parse to the hours it was given, opening before closing |
| OpeningHours.ReadHoursMeans | reservation-service/internal/service/booking-service.go:523-542 | hours are read off a day exactly as its two texts show them, and closed, missing, unreadable opening and unreadable closing each give their own error |
| OpeningHours.OpenOnMeans | reservation-service/internal/service/booking-service.go:497-542 | the working hours computed for a date are those of the entry of its weekday, put on its midnight |
| OpeningHours.ValidatedDayOpens | venue-service/internal/models/venue.go:87-106 | for a converted and validated venue the given texts, the stored times and the answered texts all show the same opening and closing, opening first |
| Availability.ValidatedVenueHasHours | reservation-service/internal/service/booking-service.go:523-542 | for such a venue availability never answers an error: closed days give no slots, and open ones the slot list between the times of day that the venue was given |
| Sweep.SlotListIsUnique | reservation-service/internal/service/booking-service.go:586-618 | busy sets that leave the same long windows free have one and the same slot list |
| Sweep.SlotListDecidesWindows | reservation-service/internal/service/booking-service.go:586-618 | a window of an hour or more within working hours lies in a slot exactly when no booking overlaps it |
| Sweep.SlotsAreMaximal | reservation-service/internal/service/booking-service.go:586-618 | slots do not touch, and extending one at either end hits a booking or the end of the working day |
| Sweep.GapsGiveSlotList | reservation-service/internal/service/booking-service.go:581-618 | the long gaps of the sweep are the slot list, at most one more than the intervals |
| Sweep.GapsPartitionTheDay | reservation-service/internal/service/booking-service.go:586-600 | each instant of the day is in a gap or in an interval, never both |
| Sweep.LengthsAddUp | reservation-service/internal/service/booking-service.go:586-600 | gap and interval lengths add up to the day when intervals do not overlap |
| BookingService.Service.GetVenueAvailability | reservation-service/internal/service/booking-service.go:492-619 | the venue service not answering, a closed day, missing times and unreadable times give their own answers; otherwise the answer is the slot list, between the clocks that the texts of the weekday show, of the live bookings that start on the date, which is complete when rows are windows of one day |
| BookingService.Service.FreeSlots | reservation-service/internal/service/booking-service.go:544-618 | collecting, sorting, sweeping and filtering yield the slot list of the live bookings that start on the date |
| BookingService.Service.CollectIntervals | reservation-service/internal/service/booking-service.go:558-579 | the loop yields the kept bookings, clipped to the working hours |
| BookingService.Service.FreeGaps | reservation-service/internal/service/booking-service.go:587-600 | the loop over sorted intervals yields their gaps |
| BookingService.Service.KeepLong | reservation-service/internal/service/booking-service.go:610-616 | the loop keeps exactly the gaps of an hour or more |
| BookingService.SortByStart | reservation-service/internal/service/booking-service.go:581-584 | the result is sorted by start and a rearrangement of the input; nothing is said about ties |
| Availability.SweepGivesSlotList | reservation-service/internal/service/booking-service.go:558-618 | any listing of the venue's rows, windows over several days included, sorted in any way, sweeps to the slot list of its live bookings that start on the date, also when closing precedes opening |
| Availability.AnswerIsCompleteIff | reservation-service/internal/service/booking-service.go:563-565 | the answered slots are those of all live bookings exactly when no live booking of the venue that starts on another day overlaps one of them |
| Availability.OneDayAnswerIsComplete | reservation-service/internal/service/booking-service.go:563-565 | when every row is a window of one day the answer for hours of the date is the slot list of all live bookings |
| Availability.AnswerMeans | reservation-service/internal/service/booking-service.go:492-542 | the answer described by the calendar and the texts is the one computed from the hours read |
| Availability.SlotsDoNotDependOnOrder | reservation-service/internal/service/booking-service.go:558-600 | listing order and ties in the sort change nothing; at most one slot more than kept bookings |
| Availability.DateFilterLosesNothing | reservation-service/internal/service/booking-service.go:563-565 | a one-day booking that touches the working hours starts on the requested date |
| Availability.WorkingDayIsConserved | reservation-service/internal/service/booking-service.go:558-600 | gap lengths and clipped booking lengths add up to the working day |
| Availability.InstantIsFreeOrBooked | reservation-service/internal/service/booking-service.go:558-600 | an instant is in a gap exactly when no live booking of the venue that starts on the date contains it, and, when rows are windows of one day, no live booking at all |
| Availability.CreateAgreesWithAvailability | reservation-service/internal/service/booking-service.go:91-154 | whatever availability answers for the day, closed days and errors included, a create call is accepted exactly when the caller may create, the window is an hour or more inside an answered slot, and no row of the venue that availability skips, cancelled or of another day, overlaps it |
| Availability.PlacedIff | reservation-service/internal/service/booking-service.go:319-424 | a window is placed exactly when the venue service answered, the day is open, the window lies between the clocks its texts show, and no other row of the venue, live or cancelled, overlaps it |
| Availability.CreateAcceptedIff | reservation-service/internal/service/booking-service.go:91-154 | a create call is accepted exactly when the caller may create, the window is an hour or more within the working hours of its day, and no row of the venue overlaps it |
| Availability.OneDayBlockIsCancelled | reservation-service/internal/service/booking-service.go:407-424 | when every row is a window of one day, only cancelled rows can refuse a window of an answered slot |
| Availability.UpdateAcceptedIff | reservation-service/internal/service/booking-service.go:209-264 | an update is accepted exactly when the row is pending and the request in order, and the requested window at the requested venue has not begun, lies within the working hours there, and overlaps no other booking, live or cancelled; no shortest length is asked for |
| Availability.AcceptedWindowIsInOneSlot | reservation-service/internal/service/booking-service.go:319-424 | an accepted window lies in exactly one slot |
| Availability.CancelledWindowIsOfferedButRefused | reservation-service/internal/service/booking-service.go:407-424 | the window of a cancelled booking is offered as free and refused by create |
| Availability.BookingSplitsItsSlot | reservation-service/internal/service/booking-service.go:147-152 | an accepted booking replaces its slot by the remainders of an hour or more and leaves the others; a row created as cancelled changes nothing |
| Availability.BookingLeavesOtherSlots | reservation-service/internal/service/booking-service.go:558-618 | slots of other venues and other days do not change |
| Availability.CancellationNeverShrinks | reservation-service/internal/service/booking-service.go:187-190 | every slot before a cancellation lies in a slot after it |
| Availability.CancellationMergesSlots | reservation-service/internal/service/booking-service.go:187-190 | the slots before a cancellation are those after it with the part of the freed window within the hours, if it lies in a slot, cut out of that slot, and the same otherwise; any hours are allowed |
| Availability.UpdateMovesSlots | reservation-service/internal/service/booking-service.go:209-290 | with the slots there would be without the booking in between, an accepted update gives back the old window at the old venue and cuts out the requested one at the requested venue, for any venue and hours |
| Availability.CancelUndoesBooking | reservation-service/internal/service/booking-service.go:147-190 | cancelling a booking that was just made gives every venue and day its slots back |
| Bookings.ConflictMeansOverlap | reservation-service/internal/service/booking-service.go:411-415 | the three alternatives hold exactly when the half-open windows share an instant |
| Bookings.ConflictCountMeansTaken | reservation-service/internal/service/booking-service.go:407-424 | the count, with or without an excluded row, is positive exactly when another row of the venue overlaps |
| Bookings.StoreKeepsDisjoint | reservation-service/internal/service/booking-service.go:407-424 | storing a row keeps the venue free of double bookings exactly when the query counts no other row |
| Bookings.CreateKeepsInvariant | reservation-service/internal/service/booking-service.go:91-175 | create keeps the table invariant, freezes, and only appends to the logs |
| Bookings.CancelKeepsInvariant | reservation-service/internal/service/booking-service.go:177-207 | so does cancel |
| Bookings.UpdateKeepsInvariant | reservation-service/internal/service/booking-service.go:209-298 | so does update, also when it moves a booking to the venue asked for |
| Bookings.StoredDurationIsRightIff | reservation-service/internal/service/booking-service.go:290-296 | the answer to an update has the new duration; the stored row has it exactly when the new window is as long as its stored duration said before |
| Bookings.RunKeepsInvariant | reservation-service/internal/service/booking-service.go:91-298 | every run keeps the invariant; cancelled and completed rows are frozen, and a row that is not pending changes only by being cancelled |
| Bookings.NeverDoubleBooked | reservation-service/internal/service/booking-service.go:91-298 | from an empty table no run has two overlapping rows of a venue, and every row is a window of one day |
| Bookings.CancellationIsFinal | reservation-service/internal/service/booking-service.go:183-202 | at most one cancelled event per booking, naming a row that is cancelled and never changes again |
| Bookings.UpdatePlacesAsIfRemoved | reservation-service/internal/service/booking-service.go:428-489 | an update is placed exactly as a create call would be in a table without that booking |
| BookingOutcomes.PlacementOutcome | reservation-service/internal/service/booking-service.go:319-424 | placement gives the first error of a fixed list: not one day, no answer of the venue service, closed, times missing, opening unreadable, closing unreadable, outside the hours shown, conflict |
| BookingOutcomes.CreateOutcome | reservation-service/internal/service/booking-service.go:91-175 | create gives the first error of its list of checks and changes nothing, or stores a row with every field as asked and the hour price times the hours, and announces all its fields |
| BookingOutcomes.CancelOutcome | reservation-service/internal/service/booking-service.go:177-207 | cancel fails on unknown, cancelled and completed rows only; otherwise the row becomes cancelled with the reason, the event names both, and nothing else changes |
| BookingOutcomes.UpdateOutcome | reservation-service/internal/service/booking-service.go:209-298 | update gives the first error of its list of checks and changes nothing, or stores each field as asked where it is asked for and as before otherwise; the answer has the new duration |
| BookingOutcomes.UpdatedMeans | reservation-service/internal/service/booking-service.go:266-288 | a row is the one that an update stores exactly when every field is as asked or as before |
| InterleavedBookings.StartsBeforeEndAlways | reservation-service/internal/service/booking-service.go:91-298 | in every interleaving of the steps of calls every stored row, and every row a call is about to store, starts before it ends |
| InterleavedRows.OneDayIff | reservation-service/internal/service/booking-service.go:209-290 | every row of every moment is a window of one day exactly when each committed update that gives one edge of the window found its row on the same day at its first read and at the read it validated |
| InterleavedRows.FreezingIff | reservation-service/internal/service/booking-service.go:177-292 | no step changes a frozen row exactly when no save, of a cancellation or of an update, stores something else over a cancellation of its row committed since the call read the row |
| InterleavedRows.SparedRowsHaveOneEvent | reservation-service/internal/service/booking-service.go:183-202 | if no save finds its row cancelled, each booking has at most one cancelled event, and its row is still cancelled |
| InterleavedRows.OneEventIff | reservation-service/internal/service/booking-service.go:183-202 | when publishing works, each booking has at most one cancelled event exactly when no cancellation is saved for a row that was cancelled at an earlier moment, revived or not |
| InterleavedRows.EventsStayTrueIff | reservation-service/internal/service/booking-service.go:177-292 | at every moment every cancelled event names a cancelled row exactly when no update is saved after a published cancellation of its row |
| InterleavedConflicts.ScheduleIsSafeIff | reservation-service/internal/service/booking-service.go:147-152 | a schedule never double-books exactly when, for each commit, no step since its last check stored another row of the venue that overlaps it and is still there; an update whose row moved between its two reads never checked what it stores, so for it all earlier steps count |
| InterleavedConflicts.LockedSchedulesAreSafe | reservation-service/internal/service/booking-service.go:91-298 | if no other call writes the row, or stores a row at the venue, of a call between its read or last check and its commit, the schedule has no double booking, only windows of one day, frozen rows, and one cancelled event per booking |
| InterleavedConflicts.UninterruptedIsAtomic | reservation-service/internal/service/booking-service.go:91-298 | the steps of a call run back to back do to the rows and the cancelled topic what its atomic step does |
| InterleavedFailures.ConcurrentCreatesDoubleBook | reservation-service/internal/service/booking-service.go:147-152 | after any run that leaves no other create and no other write half way, two calls for one acceptable window that both pass their last check before either inserts double-book it |
| InterleavedFailures.CancelledTwice | reservation-service/internal/service/booking-service.go:177-202 | two cancellations that both read a pending row rewrite the cancelled row and publish two events |
| InterleavedFailures.RevivedAfterCancellation | reservation-service/internal/service/booking-service.go:209-290 | an update that reads a row before it is cancelled and saves it after leaves it pending with its cancelled event published |
| InterleavedFailures.TornUpdateSpansDays | reservation-service/internal/service/booking-service.go:428-452 | an update whose row moves between its two reads stores a booking from Monday nine to Wednesday twelve |
| InterleavedConsequences.OneDayRowsAreSeen | reservation-service/internal/service/booking-service.go:558-618 | at every moment of a run at which rows are windows of one day, the answered slots are those of all live bookings |
| InterleavedConsequences.TornBookingIsNotSeen | reservation-service/internal/service/booking-service.go:563-565 | the booking stored from Monday to Wednesday covers all of Tuesday, and every listing and sort answers Tuesday as one free slot |
| InterleavedConsequences.RevivedIsRefunded | payment-service/internal/transport/kafka/consumer.go:167-188 | after the run that revives a booking, handling its published cancelled event refunds a payment of a booking that is pending |
| BookingService.Service.CreateReservation | reservation-service/internal/service/booking-service.go:91-175 | answer, table and log are those of the create step; the invariant holds and rows only evolve |
| BookingService.Service.ReservationCancel | reservation-service/internal/service/booking-service.go:177-207 | answer, table and log are those of the cancel step; the invariant holds and rows only evolve |
| BookingService.Service.ReservationUpdate | reservation-service/internal/service/booking-service.go:209-298 | answer and table are those of the update step; the invariant holds and rows only evolve |
| BookingService.Service.ValidateReservation | reservation-service/internal/service/booking-service.go:319-361 | the first failing check of day, schedule and conflicts; none means the query counts nothing |
| BookingService.Service.GetVenueBookings | reservation-service/internal/repository/booking-repo.go:66-75 | every row of the venue exactly once, in any order |
| Ledger.RefundOutcome | payment-service/internal/services/refund-service.go:44-91 | a positive refund succeeds exactly on a completed payment with enough left, appends its row with the reason asked for, moves exactly its amount, and keeps the balance; each other case has its own error and changes nothing |
| Ledger.RefundArithmeticIsExact | payment-service/internal/services/refund-service.go:59-77 | neither the subtraction nor the addition overflows 64 bits |
| Ledger.CreatePaymentOutcome | payment-service/internal/services/payment-service.go:67-104 | a payment is created exactly when asked for with a positive amount by card or cash, with every field as asked, in roubles if no currency is given, with the given status and time; each other case has its own error and changes nothing |
| Ledger.CreatePaymentKeepsBalance | payment-service/internal/services/payment-service.go:67-104 | both ways of creating a payment keep the balance |
| Ledger.MoneyIsConserved | payment-service/internal/services/refund-service.go:65-87 | on balanced accounts all refund rows together are what all payments together say was refunded |
| PaymentService.Database.GetPaymentByBookingID | payment-service/internal/repository/payment-repository.go:85-96 | the first payment of the booking by identifier, or none |
| PaymentService.Database.CreateWithStatus | payment-service/internal/services/payment-service.go:67-104 | answer and tables are those of the creation step, the balance holds |
| PaymentService.Database.CreatePayment | payment-service/internal/services/payment-service.go:32-34 | a completed payment with the time it was paid |
| PaymentService.Database.CreatePendingPayment | payment-service/internal/services/payment-service.go:36-38 | a pending payment without one |
| PaymentService.Database.CreateRefund | payment-service/internal/services/refund-service.go:37-97 | answer and tables are those of the refund step, without overflow, and the balance holds |
| PaymentService.Database.OnBookingCreated | payment-service/internal/transport/kafka/consumer.go:97-128 | the loop body does what handling a created event means |
| PaymentService.Database.OnBookingCancelled | payment-service/internal/transport/kafka/consumer.go:162-188 | the loop body does what handling a cancelled event means, without overflow |
| PaymentService.Database.ConsumeBookingCreated | payment-service/internal/transport/kafka/consumer.go:67-130 | the loop handles every readable message in order and skips the others |
| PaymentService.Database.ConsumeBookingCancelled | payment-service/internal/transport/kafka/consumer.go:132-190 | the loop handles every readable message in order and skips the others |
| PaymentService.CreatedInOrder | payment-service/internal/transport/kafka/consumer.go:76-95 | deliveries of consecutive parts of the created topic follow each other |
| PaymentService.OneCreated | payment-service/internal/transport/kafka/consumer.go:76-95 | a readable created message gives one delivery, a failed read and a malformed message none |
| PaymentService.CancelledInOrder | payment-service/internal/transport/kafka/consumer.go:141-160 | deliveries of consecutive parts of the cancelled topic follow each other |
| PaymentService.OneCancelled | payment-service/internal/transport/kafka/consumer.go:141-160 | a readable cancelled message gives one delivery, a failed read and a malformed message none |
| Consumer.RoundIsNearest | payment-service/internal/transport/kafka/consumer.go:102 | rounding gives the nearest integer, and of two equally near ones that away from zero |
| Consumer.HandleCreatedOutcome | payment-service/internal/transport/kafka/consumer.go:97-128 | a created event with a booking, a client, a price that rounds to a positive amount and no payment of the booking appends one pending card payment of it in roubles; any other changes nothing |
| Consumer.CancelledEventOutcome | payment-service/internal/transport/kafka/consumer.go:162-188 | a cancelled event refunds all that is left of the first payment of the booking if it is completed, with one refund row of the fixed reason; otherwise it changes nothing |
| Consumer.HandleCancelledOutcome | payment-service/internal/transport/kafka/consumer.go:162-188 | a cancelled event fully refunds the first payment of the booking if it is completed, and changes nothing otherwise |
| Consumer.RedeliveryChangesNothing | payment-service/internal/transport/kafka/consumer.go:97-188 | handling an event a second time with nothing in between changes nothing, whatever the clock says |
| Consumer.ManyDeliveriesAreOne | payment-service/internal/transport/kafka/consumer.go:97-188 | any number of deliveries of one event in a row, handled at any times, equals the first |
| Consumer.HandlingChangesIff | payment-service/internal/transport/kafka/consumer.go:97-188 | whatever happened before, handling a cancelled event changes the accounts exactly when the booking's first payment is completed, and a created one exactly when its message passes every check and the booking has no payment |
| Consumer.DeliveryIsLocal | payment-service/internal/transport/kafka/consumer.go:97-188 | an event acts on the payments and refunds of its own booking as a step on that booking's view, and on no other booking's |
| Consumer.ViewDependsOnOwnDeliveries | payment-service/internal/transport/kafka/consumer.go:97-188 | after any deliveries a booking's view is that of the deliveries about it alone |
| Consumer.OrderAcrossBookingsIsIrrelevant | payment-service/internal/transport/kafka/consumer.go:97-188 | orders that agree on each booking leave each booking with the same payments and refunds, up to row identifiers |
| Consumer.DeliveriesAloneKeepFirst | payment-service/internal/transport/kafka/consumer.go:97-188 | from empty accounts any deliveries, repeated and reordered, leave a booking exactly the pending payment of the first acceptable created message about it, and no refund |
| Consumer.CancellationRefundsAllIff | payment-service/internal/transport/kafka/consumer.go:167-188 | a cancelled event leaves no completed payment of the booking exactly when every completed one was the first |
| Consumer.PaidAfterPendingIsNotRefunded | payment-service/internal/transport/kafka/consumer.go:173-175 | an acceptable payment made after the event-driven pending one is accepted and stays completed, with nothing refunded, after the cancellation |
| EndToEnd.EveryRunIsSound | payment-service/internal/transport/kafka/consumer.go:97-188 | every interleaving keeps both tables, the balance, and the soundness of requests and snapshots in flight |
| EndToEnd.AccountsAlwaysBalance | payment-service/internal/services/refund-service.go:54-87 | in every run each payment equals the sum of its refunds as far as refunded, is refunded exactly when nothing is left, and a pending one has no refunds |
| EndToEnd.MoneyIsAlwaysConserved | payment-service/internal/services/refund-service.go:44-91 | every run conserves money over the whole table |
| EndToEnd.StaleRefundIsAllOrNothing | payment-service/internal/transport/kafka/consumer.go:167-188 | a refund computed from a snapshot exhausts the payment exactly if nothing was refunded since, and otherwise changes nothing |
| EndToEnd.RefundedBookingIsCancelled | payment-service/internal/transport/kafka/consumer.go:167-188 | when booking calls are atomic, consumers only refund payments of cancelled bookings |
| EndToEnd.OneConsumerOnePending | payment-service/internal/transport/kafka/consumer.go:108-128 | with one consumer each booking has at most one pending payment, in every interleaving with payments by hand |
| EndToEnd.TwoConsumersMayDuplicate | payment-service/internal/transport/kafka/consumer.go:108-128 | with two idle consumers and an event due, two pending payments can follow |
| EndToEnd.OnePendingIff | payment-service/internal/transport/kafka/consumer.go:108-128 | all runs keep one pending payment per booking if and only if there is at most one consumer |
| EndToEnd.EventHasOrigin | reservation-service/internal/service/booking-service.go:132-172 | every published created event goes back to an accepted create call of the run |
| EndToEnd.PendingPaymentProvenance | payment-service/internal/transport/kafka/consumer.go:102-128 | every pending payment traces to such a call: its booking, its caller, and an amount within one half of hour price times hours |

## Left out

- HTTP handlers, routing, authentication, the gateway, the user service and the listing endpoints: plumbing whose claims are single tests.
- The database and the message broker: tables are maps and sequences that never fail, a refund transaction is one step, and event delivery is adversarial.
- The JSON shape of venues: the reservation service expects the schedule one level deeper and another name for the price than the venue service sends; the model takes the decoded schedule and price as given.
- Time zones, the wall clock, and a midnight that passes between the two readings of one schedule: one zone and one date per conversion.
- Binary floating point: prices are exact reals.
- Saturation of `time.Duration` differences at 292 years: differences taken by atomic calls lie within one day, and the interleaved model takes none after a commit.
- The change that filling in the default currency makes to the caller's request object: requests are values.
- The interleaved model takes publishing a cancellation together with the save before it, and keeps no log of created events; two published events of one booking need two saves either way.
- Identifiers that the database skips: payments and refunds are numbered without gaps.
- BookingService.SortByStart: the library's unstable sort is replaced by an insertion sort, of which callers know only that the result is a sorted rearrangement.
- Ledger.RefundOutcome: assumes a positive amount, which the HTTP binding and the consumer enforce and the service does not.
- The price and the one-hour minimum of an updated booking: the update neither recomputes the one nor checks the other, so no invariant is claimed for them.
- The order in which updates of venues reach storage, soft deletion, pagination, filters and logging: they would only add easy members.
