/**
  Both services together. Booking calls publish events; consumers read any published event at any
  time, any number of times, and act in two halves that interleave with each other and with payments
  and refunds made by hand.
 */
module EndToEnd {
  import opened Common
  import opened Time
  import opened Ledger
  import opened Consumer
  import B = Bookings
  import opened BookingOutcomes
  import opened SampleVenue

  /** A refund order waiting to be carried out, with the snapshot it was computed from. */
  datatype Snapshot = Snapshot(bookingId: nat, order: RefundOrder, refundedThen: int)

  /** `checked` holds requests that passed the existence check and are not inserted yet. */
  datatype World = World(table: B.Table, accounts: Accounts, checked: seq<PaymentRequest>, snapshots: seq<Snapshot>)

  const START := World(B.EMPTY_TABLE, Accounts([], []), [], [])

  datatype Step =
    | Reserve(op: B.Op)
    | Pay(req: PaymentRequest, now: Instant)
    | RefundByHand(paymentId: nat, refund: RefundRequest, now: Instant)
    | ReadCreated(event: nat, unspecified: Int64)
    | Insert(which: nat)
    | ReadCancelled(event: nat)
    | CarryOutRefund(which: nat, now: Instant)
    | AbandonInsert(which: nat)
    | AbandonRefund(which: nat)

  function Decode(e: B.CreatedEvent): CreatedMessage {
    CreatedMessage(e.bookingId, e.clientId, e.price)
  }

  /** What the HTTP layer accepts as a refund request. */
  predicate BoundRefund(r: RefundRequest) {
    r.amount > 0 && 5 <= |r.reason| <= 500
  }

  /** One step with `consumers` instances consuming created events; a step that is not possible changes nothing. */
  function Next(w: World, s: Step, consumers: nat): World {
    match s
    case Reserve(op) => w.(table := B.Apply(w.table, op))
    case Pay(req, now) => w.(accounts := CreatePaymentStep(w.accounts, Some(req), Completed, Some(now)).0)
    case RefundByHand(paymentId, req, now) =>
      if BoundRefund(req) then w.(accounts := RefundStep(w.accounts, paymentId, Some(req), now).0) else w
    case ReadCreated(event, unspecified) =>
      if event >= |w.table.created| || |w.checked| >= consumers then w
      else
        var req := CheckCreated(w.accounts, Decode(w.table.created[event]), unspecified);
        if req.None? then w else w.(checked := w.checked + [req.value])
    case Insert(which) =>
      if which >= |w.checked| then w
      else w.(accounts := InsertPending(w.accounts, w.checked[which]), checked := Without(w.checked, which))
    case ReadCancelled(event) =>
      if event >= |w.table.cancelled| then w
      else
        var bookingId := w.table.cancelled[event].bookingId;
        var order := CheckCancelled(w.accounts, bookingId);
        if order.None? then w
        else
          var refundedThen := w.accounts.payments[FirstFor(w.accounts.payments, bookingId)].refundedAmount;
          w.(snapshots := w.snapshots + [Snapshot(bookingId, order.value, refundedThen)])
    case CarryOutRefund(which, now) =>
      if which >= |w.snapshots| then w
      else w.(accounts := CarryOut(w.accounts, w.snapshots[which].order, now), snapshots := Without(w.snapshots, which))
    // A consumer that fails half way loses what it was about to do.
    case AbandonInsert(which) => if which >= |w.checked| then w else w.(checked := Without(w.checked, which))
    case AbandonRefund(which) => if which >= |w.snapshots| then w else w.(snapshots := Without(w.snapshots, which))
  }

  function Reach(steps: seq<Step>, consumers: nat): World {
    if steps == [] then START else Next(Reach(steps[..|steps| - 1], consumers), steps[|steps| - 1], consumers)
  }

  // ----- Invariants of every run -----

  /** The payment was decided on by a published created event. */
  ghost predicate FromEvent(bookingId: nat, userId: nat, amount: int, e: B.CreatedEvent) {
    && e.bookingId == bookingId && e.clientId == userId
    && (INT64_MIN <= Round(e.price) <= INT64_MAX ==> amount == Round(e.price))
  }

  ghost predicate Published(bookingId: nat, userId: nat, amount: int, created: seq<B.CreatedEvent>) {
    exists k :: 0 <= k < |created| && FromEvent(bookingId, userId, amount, created[k])
  }

  /** Every request in flight and every pending payment comes from a published event. */
  ghost predicate PendingPublished(payments: seq<Payment>, checked: seq<PaymentRequest>, created: seq<B.CreatedEvent>) {
    && (forall j :: 0 <= j < |checked| ==>
          checked[j].amount > 0 && Published(checked[j].bookingId, checked[j].userId, checked[j].amount, created))
    && (forall i :: 0 <= i < |payments| && payments[i].status == Pending ==>
          Published(payments[i].bookingId, payments[i].userId, payments[i].amount, created))
  }

  /**
    The snapshot is of an existing, once completed payment of a cancelled
    booking, and at least as much was left then as now.
   */
  ghost predicate SnapshotSound(s: Snapshot, payments: seq<Payment>, cancelled: seq<B.CancelledEvent>) {
    && (exists k :: 0 <= k < |cancelled| && cancelled[k].bookingId == s.bookingId)
    && 1 <= s.order.paymentId <= |payments|
    && var p := payments[s.order.paymentId - 1];
    && p.bookingId == s.bookingId && p.status != Pending
    && s.order.amount == p.amount - s.refundedThen && s.order.amount > 0 && s.refundedThen <= p.refundedAmount
  }

  ghost predicate SnapshotsSound(snapshots: seq<Snapshot>, payments: seq<Payment>, cancelled: seq<B.CancelledEvent>) {
    forall j :: 0 <= j < |snapshots| ==> SnapshotSound(snapshots[j], payments, cancelled)
  }

  ghost predicate Sound(w: World) {
    && B.Invariant(w.table) && Balanced(w.accounts)
    && PendingPublished(w.accounts.payments, w.checked, w.table.created)
    && SnapshotsSound(w.snapshots, w.accounts.payments, w.table.cancelled)
  }

  /** Payments only gain refunds; their owner, booking and amount stay, and none becomes pending. */
  ghost predicate PaymentsEvolve(payments: seq<Payment>, payments': seq<Payment>) {
    && |payments| <= |payments'|
    && forall i :: 0 <= i < |payments| ==>
         && payments'[i].bookingId == payments[i].bookingId && payments'[i].amount == payments[i].amount
         && payments[i].refundedAmount <= payments'[i].refundedAmount
         && (payments'[i].status == Pending <==> payments[i].status == Pending)
         && (payments[i].status == Pending ==> payments'[i] == payments[i])
  }

  lemma SnapshotsSurvive(snapshots: seq<Snapshot>, payments: seq<Payment>, payments': seq<Payment>,
                         cancelled: seq<B.CancelledEvent>, cancelled': seq<B.CancelledEvent>)
    requires SnapshotsSound(snapshots, payments, cancelled)
    requires PaymentsEvolve(payments, payments') && cancelled <= cancelled'
    ensures SnapshotsSound(snapshots, payments', cancelled')
  {
    forall j | 0 <= j < |snapshots|
      ensures SnapshotSound(snapshots[j], payments', cancelled')
    {
      var s := snapshots[j];
      assert SnapshotSound(s, payments, cancelled);
      var k :| 0 <= k < |cancelled| && cancelled[k].bookingId == s.bookingId;
      assert cancelled'[k] == cancelled[k];
    }
  }

  lemma PublishedSurvives(bookingId: nat, userId: nat, amount: int, created: seq<B.CreatedEvent>,
                          created': seq<B.CreatedEvent>)
    requires Published(bookingId, userId, amount, created) && created <= created'
    ensures Published(bookingId, userId, amount, created')
  {
    var k :| 0 <= k < |created| && FromEvent(bookingId, userId, amount, created[k]);
    assert created'[k] == created[k];
  }

  lemma ReserveKeepsSound(w: World, op: B.Op)
    requires Sound(w)
    ensures Sound(w.(table := B.Apply(w.table, op)))
  {
    var t := B.Apply(w.table, op);
    B.ApplyKeepsInvariant(w.table, op);
    SnapshotsSurvive(w.snapshots, w.accounts.payments, w.accounts.payments, w.table.cancelled, t.cancelled);
    forall j | 0 <= j < |w.checked|
      ensures Published(w.checked[j].bookingId, w.checked[j].userId, w.checked[j].amount, t.created)
    {
      PublishedSurvives(w.checked[j].bookingId, w.checked[j].userId, w.checked[j].amount, w.table.created, t.created);
    }
    forall i | 0 <= i < |w.accounts.payments| && w.accounts.payments[i].status == Pending
      ensures Published(w.accounts.payments[i].bookingId, w.accounts.payments[i].userId, w.accounts.payments[i].amount,
                        t.created)
    {
      var p := w.accounts.payments[i];
      PublishedSurvives(p.bookingId, p.userId, p.amount, w.table.created, t.created);
    }
  }

  /** A stored payment is appended; nothing else changes. */
  lemma CreationAppends(a: Accounts, req: PaymentRequest, status: PaymentStatus, paidAt: Option<Instant>)
    ensures var a' := CreatePaymentStep(a, Some(req), status, paidAt).0;
            && PaymentsEvolve(a.payments, a'.payments) && a.payments <= a'.payments
            && (|a'.payments| == |a.payments|
                || (|a'.payments| == |a.payments| + 1
                    && var p := a'.payments[|a.payments|];
                    p.status == status && p.bookingId == req.bookingId && p.userId == req.userId
                      && p.amount == req.amount))
  {
  }

  lemma PayKeepsSound(w: World, req: PaymentRequest, now: Instant)
    requires Sound(w)
    ensures Sound(w.(accounts := CreatePaymentStep(w.accounts, Some(req), Completed, Some(now)).0))
  {
    var a := CreatePaymentStep(w.accounts, Some(req), Completed, Some(now)).0;
    CreatePaymentKeepsBalance(w.accounts, Some(req), Completed, Some(now));
    CreationAppends(w.accounts, req, Completed, Some(now));
    SnapshotsSurvive(w.snapshots, w.accounts.payments, a.payments, w.table.cancelled, w.table.cancelled);
  }

  /** A refund leaves pending payments alone and only adds to what has been refunded. */
  lemma RefundEvolves(a: Accounts, paymentId: nat, req: RefundRequest, now: Instant)
    requires Balanced(a) && req.amount > 0
    ensures Balanced(RefundStep(a, paymentId, Some(req), now).0)
    ensures PaymentsEvolve(a.payments, RefundStep(a, paymentId, Some(req), now).0.payments)
    ensures |RefundStep(a, paymentId, Some(req), now).0.payments| == |a.payments|
  {
    RefundOutcome(a, paymentId, req, now);
  }

  lemma RefundKeepsSound(w: World, paymentId: nat, req: RefundRequest, now: Instant)
    requires Sound(w) && req.amount > 0
    ensures Sound(w.(accounts := RefundStep(w.accounts, paymentId, Some(req), now).0))
  {
    var a := RefundStep(w.accounts, paymentId, Some(req), now).0;
    RefundEvolves(w.accounts, paymentId, req, now);
    SnapshotsSurvive(w.snapshots, w.accounts.payments, a.payments, w.table.cancelled, w.table.cancelled);
  }

  lemma ReadCreatedKeepsSound(w: World, event: nat, unspecified: Int64, consumers: nat)
    requires Sound(w)
    ensures Sound(Next(w, ReadCreated(event, unspecified), consumers))
  {
    if event < |w.table.created| {
      var e := w.table.created[event];
      var req := CheckCreated(w.accounts, Decode(e), unspecified);
      if req.Some? {
        assert FromEvent(req.value.bookingId, req.value.userId, req.value.amount, e);
        assert Published(req.value.bookingId, req.value.userId, req.value.amount, w.table.created);
      }
    }
  }

  lemma InsertKeepsSound(w: World, which: nat, consumers: nat)
    requires Sound(w)
    ensures Sound(Next(w, Insert(which), consumers))
  {
    if which < |w.checked| {
      var req := w.checked[which];
      var a := InsertPending(w.accounts, req);
      CreatePaymentKeepsBalance(w.accounts, Some(req), Pending, None);
      CreationAppends(w.accounts, req, Pending, None);
      SnapshotsSurvive(w.snapshots, w.accounts.payments, a.payments, w.table.cancelled, w.table.cancelled);
      assert forall i :: 0 <= i < |w.accounts.payments| ==> a.payments[i] == w.accounts.payments[i];
      assert PendingPublished(a.payments, Without(w.checked, which), w.table.created);
    }
  }

  lemma ReadCancelledKeepsSound(w: World, event: nat, consumers: nat)
    requires Sound(w)
    ensures Sound(Next(w, ReadCancelled(event), consumers))
  {
    if event < |w.table.cancelled| {
      var bookingId := w.table.cancelled[event].bookingId;
      CheckOrdersTheRest(w.accounts, bookingId);
      var order := CheckCancelled(w.accounts, bookingId);
      if order.Some? {
        var p := w.accounts.payments[FirstFor(w.accounts.payments, bookingId)];
        assert SnapshotSound(Snapshot(bookingId, order.value, p.refundedAmount), w.accounts.payments,
                             w.table.cancelled);
      }
    }
  }

  lemma RefundSnapshotKeepsSound(w: World, which: nat, now: Instant, consumers: nat)
    requires Sound(w)
    ensures Sound(Next(w, CarryOutRefund(which, now), consumers))
  {
    if which < |w.snapshots| {
      var order := w.snapshots[which].order;
      assert SnapshotSound(w.snapshots[which], w.accounts.payments, w.table.cancelled);
      RefundKeepsSound(w, order.paymentId, RefundRequest(order.amount, CANCEL_REASON), now);
      var a := CarryOut(w.accounts, order, now);
      assert SnapshotsSound(Without(w.snapshots, which), a.payments, w.table.cancelled);
    }
  }

  lemma NextKeepsSound(w: World, s: Step, consumers: nat)
    requires Sound(w)
    ensures Sound(Next(w, s, consumers))
  {
    match s
    case Reserve(op) => ReserveKeepsSound(w, op);
    case Pay(req, now) => PayKeepsSound(w, req, now);
    case RefundByHand(paymentId, req, now) =>
      if BoundRefund(req) {
        RefundKeepsSound(w, paymentId, req, now);
      }
    case ReadCreated(event, unspecified) => ReadCreatedKeepsSound(w, event, unspecified, consumers);
    case Insert(which) => InsertKeepsSound(w, which, consumers);
    case ReadCancelled(event) => ReadCancelledKeepsSound(w, event, consumers);
    case CarryOutRefund(which, now) => RefundSnapshotKeepsSound(w, which, now, consumers);
    case AbandonInsert(which) =>
    case AbandonRefund(which) =>
  }

  /** In every run, with any number of consumers, the tables and the accounts stay sound. */
  lemma {:induction false} EveryRunIsSound(steps: seq<Step>, consumers: nat)
    ensures Sound(Reach(steps, consumers))
  {
    if steps != [] {
      EveryRunIsSound(steps[..|steps| - 1], consumers);
      NextKeepsSound(Reach(steps[..|steps| - 1], consumers), steps[|steps| - 1], consumers);
    }
  }

  /**
    In every run each payment's refunds add up, stay within the
    payment, and exhaust it exactly when it is refunded.
   */
  lemma AccountsAlwaysBalance(steps: seq<Step>, consumers: nat, i: nat)
    requires i < |Reach(steps, consumers).accounts.payments|
    ensures var a := Reach(steps, consumers).accounts;
            PaymentBalanced(a.payments[i], RefundTotal(a.refunds, a.payments[i].id))
            && (a.payments[i].status == Pending ==> forall k :: 0 <= k < |a.refunds| ==>
                a.refunds[k].paymentId != a.payments[i].id)
  {
    EveryRunIsSound(steps, consumers);
    PendingHasNoRefunds(Reach(steps, consumers).accounts, i);
  }

  /** In every run the refund rows of the whole table add up to what its payments say has been refunded. */
  lemma MoneyIsAlwaysConserved(steps: seq<Step>, consumers: nat)
    ensures var a := Reach(steps, consumers).accounts; AllRefunded(a.payments) == AllRefunds(a.refunds)
  {
    EveryRunIsSound(steps, consumers);
    MoneyIsConserved(Reach(steps, consumers).accounts);
  }

  lemma PendingHasNoRefunds(a: Accounts, i: nat)
    requires Balanced(a) && i < |a.payments|
    ensures PaymentBalanced(a.payments[i], RefundTotal(a.refunds, a.payments[i].id))
    ensures a.payments[i].status == Pending ==> forall k :: 0 <= k < |a.refunds| ==>
            a.refunds[k].paymentId != a.payments[i].id
  {
    assert a.payments[i].id == i + 1;
    forall k | 0 <= k < |a.refunds| && a.payments[i].status == Pending
      ensures a.refunds[k].paymentId != i + 1
    {
      PositiveRefundsShow(a.refunds, i + 1, k);
    }
  }

  lemma {:induction false} PositiveRefundsShow(refunds: seq<Refund>, paymentId: nat, k: nat)
    requires forall j :: 0 <= j < |refunds| ==> refunds[j].amount > 0
    requires k < |refunds|
    ensures RefundTotal(refunds, paymentId) >= 0
    ensures refunds[k].paymentId == paymentId ==> RefundTotal(refunds, paymentId) > 0
  {
    var n := |refunds| - 1;
    if k < n {
      PositiveRefundsShow(refunds[..n], paymentId, k);
    } else if n > 0 {
      PositiveRefundsShow(refunds[..n], paymentId, 0);
    }
  }

  // ----- Stale snapshots -----

  /**
    In every interleaving, a cancellation refund computed from a snapshot makes the payment exactly
    fully refunded if nothing was refunded since the snapshot, and changes nothing otherwise.
   */
  lemma StaleRefundIsAllOrNothing(steps: seq<Step>, consumers: nat, which: nat, now: Instant)
    requires which < |Reach(steps, consumers).snapshots|
    ensures var w := Reach(steps, consumers);
            var s, w' := w.snapshots[which], Next(w, CarryOutRefund(which, now), consumers);
            && 1 <= s.order.paymentId <= |w.accounts.payments|
            && AllOrNothing(w.accounts, w'.accounts, s.order.paymentId - 1,
                            w.accounts.payments[s.order.paymentId - 1].refundedAmount == s.refundedThen, now)
  {
    EveryRunIsSound(steps, consumers);
    var w := Reach(steps, consumers);
    hide Reach, Balanced, PaymentBalanced, B.Invariant, PendingPublished, AllOrNothing, CarryOut;
    assert SnapshotSound(w.snapshots[which], w.accounts.payments, w.table.cancelled);
    SnapshotRefund(w.accounts, w.snapshots[which], w.table.cancelled, now);
  }

  /**
    If `all`, the payment at position `i` becomes fully refunded, by its refund
    rows too, and no other changes; else nothing changes.
   */
  ghost predicate AllOrNothing(a: Accounts, a': Accounts, i: nat, all: bool, now: Instant)
    requires i < |a.payments|
  {
    if all then a'.payments == a.payments[i := FullyRefunded(a.payments[i], now)]
                && RefundTotal(a'.refunds, a.payments[i].id) == a.payments[i].amount
                && |a'.refunds| == |a.refunds| + 1
    else a' == a
  }

  lemma SnapshotRefund(a: Accounts, s: Snapshot, cancelled: seq<B.CancelledEvent>, now: Instant)
    requires Balanced(a) && SnapshotSound(s, a.payments, cancelled)
    ensures AllOrNothing(a, CarryOut(a, s.order, now), s.order.paymentId - 1,
                         a.payments[s.order.paymentId - 1].refundedAmount == s.refundedThen, now)
  {
    var i := s.order.paymentId - 1;
    var p := a.payments[i];
    assert p.id == i + 1 && PaymentBalanced(p, RefundTotal(a.refunds, i + 1));
    if p.refundedAmount == s.refundedThen {
      OrderForTheRest(a, i, now);
      var r := AfterFullRefund(a, i, now).refunds[|a.refunds|];
      RefundTotalAppend(a.refunds, r, i + 1);
    } else {
      StaleOrderFails(a, i, s.order, now);
    }
  }

  /** An order for more than what is left changes nothing. */
  lemma StaleOrderFails(a: Accounts, i: nat, order: RefundOrder, now: Instant)
    requires Balanced(a) && i < |a.payments| && order.paymentId == i + 1
    requires order.amount > a.payments[i].amount - a.payments[i].refundedAmount && order.amount > 0
    ensures CarryOut(a, order, now) == a
  {
    RefundArithmeticIsExact(a, i + 1, order.amount);
  }

  /** As long as booking calls are atomic, a consumer only ever refunds payments of bookings that are cancelled. */
  lemma RefundedBookingIsCancelled(steps: seq<Step>, consumers: nat, which: nat)
    requires which < |Reach(steps, consumers).snapshots|
    ensures var w := Reach(steps, consumers);
            var id := w.snapshots[which].bookingId;
            && id in w.table.rows && w.table.rows[id].status == B.Cancelled
            && 1 <= w.snapshots[which].order.paymentId <= |w.accounts.payments|
            && w.accounts.payments[w.snapshots[which].order.paymentId - 1].bookingId == id
  {
    EveryRunIsSound(steps, consumers);
    var w := Reach(steps, consumers);
    assert SnapshotSound(w.snapshots[which], w.accounts.payments, w.table.cancelled);
  }

  // ----- One pending payment per booking, with one consumer -----

  ghost predicate OnePendingEach(payments: seq<Payment>) {
    forall i, j :: 0 <= i < j < |payments| && payments[i].status == Pending && payments[j].status == Pending ==>
      payments[i].bookingId != payments[j].bookingId
  }

  ghost predicate NoPendingFor(payments: seq<Payment>, bookingId: nat) {
    forall i :: 0 <= i < |payments| && payments[i].status == Pending ==> payments[i].bookingId != bookingId
  }

  ghost predicate SinglePending(w: World) {
    && |w.checked| <= 1
    && OnePendingEach(w.accounts.payments)
    && (w.checked != [] ==> NoPendingFor(w.accounts.payments, w.checked[0].bookingId))
  }

  lemma PendingUnchanged(payments: seq<Payment>, payments': seq<Payment>, bookingId: nat)
    requires PaymentsEvolve(payments, payments') && OnePendingEach(payments)
    requires forall i :: |payments| <= i < |payments'| ==> payments'[i].status != Pending
    ensures OnePendingEach(payments')
    ensures NoPendingFor(payments, bookingId) ==> NoPendingFor(payments', bookingId)
  {
  }

  lemma InsertionKeepsOnePending(a: Accounts, req: PaymentRequest)
    requires OnePendingEach(a.payments) && NoPendingFor(a.payments, req.bookingId)
    ensures OnePendingEach(InsertPending(a, req).payments)
  {
  }

  lemma NextKeepsSinglePending(w: World, s: Step, consumers: nat)
    requires Sound(w) && SinglePending(w) && consumers <= 1
    ensures SinglePending(Next(w, s, consumers))
  {
    var w' := Next(w, s, consumers);
    var awaited := if w.checked == [] then 0 else w.checked[0].bookingId;
    match s
    case Reserve(_) =>
    case Pay(req, now) =>
      CreationAppends(w.accounts, req, Completed, Some(now));
      PendingUnchanged(w.accounts.payments, w'.accounts.payments, awaited);
    case RefundByHand(paymentId, req, now) =>
      if BoundRefund(req) {
        RefundEvolves(w.accounts, paymentId, req, now);
        PendingUnchanged(w.accounts.payments, w'.accounts.payments, awaited);
      }
    case ReadCreated(event, unspecified) =>
    case Insert(which) =>
      if which < |w.checked| {
        InsertionKeepsOnePending(w.accounts, w.checked[0]);
      }
    case ReadCancelled(_) =>
    case CarryOutRefund(which, now) =>
      if which < |w.snapshots| {
        var order := w.snapshots[which].order;
        assert SnapshotSound(w.snapshots[which], w.accounts.payments, w.table.cancelled);
        RefundEvolves(w.accounts, order.paymentId, RefundRequest(order.amount, CANCEL_REASON), now);
        PendingUnchanged(w.accounts.payments, w'.accounts.payments, awaited);
      }
    case AbandonInsert(_) =>
    case AbandonRefund(_) =>
  }

  lemma {:induction false} OneConsumerOnePending(steps: seq<Step>, consumers: nat)
    requires consumers <= 1
    ensures SinglePending(Reach(steps, consumers))
  {
    if steps != [] {
      OneConsumerOnePending(steps[..|steps| - 1], consumers);
      EveryRunIsSound(steps[..|steps| - 1], consumers);
      NextKeepsSinglePending(Reach(steps[..|steps| - 1], consumers), steps[|steps| - 1], consumers);
    }
  }

  /**
    With two consumers the guarantee is gone: whenever an event is due and both are idle, both may
    check before either inserts, and the booking ends up with two pending payments.
   */
  lemma TwoConsumersMayDuplicate(steps: seq<Step>, consumers: nat, event: nat, unspecified: Int64)
    requires consumers >= 2 && Reach(steps, consumers).checked == []
    requires event < |Reach(steps, consumers).table.created|
    requires var w := Reach(steps, consumers);
             CheckCreated(w.accounts, Decode(w.table.created[event]), unspecified).Some?
    ensures var read := ReadCreated(event, unspecified);
            !OnePendingEach(Reach(steps + [read, read, Insert(0), Insert(0)], consumers).accounts.payments)
  {
    var read, put := ReadCreated(event, unspecified), Insert(0);
    ReachMore(steps, read, consumers);
    ReachMore(steps + [read], read, consumers);
    ReachMore(steps + [read] + [read], put, consumers);
    ReachMore(steps + [read] + [read] + [put], put, consumers);
    assert steps + [read] + [read] + [put] + [put] == steps + [read, read, put, put];
    TwoInsertions(Reach(steps, consumers), consumers, event, unspecified);
  }

  lemma TwoInsertions(w: World, consumers: nat, event: nat, unspecified: Int64)
    requires consumers >= 2 && w.checked == [] && event < |w.table.created|
    requires CheckCreated(w.accounts, Decode(w.table.created[event]), unspecified).Some?
    ensures var read, put := ReadCreated(event, unspecified), Insert(0);
            var w' := Next(Next(Next(Next(w, read, consumers), read, consumers), put, consumers), put, consumers);
            !OnePendingEach(w'.accounts.payments)
  {
    var req := CheckCreated(w.accounts, Decode(w.table.created[event]), unspecified).value;
    var w2 := w.(checked := [req, req]);
    assert Next(Next(w, ReadCreated(event, unspecified), consumers), ReadCreated(event, unspecified), consumers) == w2;
    assert Without([req, req], 0) == [req];
    var payments := InsertPending(InsertPending(w.accounts, req), req).payments;
    assert Next(Next(w2, Insert(0), consumers), Insert(0), consumers).accounts.payments == payments;
    var n := |w.accounts.payments|;
    assert payments[n].bookingId == payments[n + 1].bookingId == req.bookingId;
  }

  /**
    The number of consumers decides: every run keeps at most one pending
    payment per booking if and only if there is at most one.
   */
  lemma OnePendingIff(consumers: nat)
    ensures (forall steps :: OnePendingEach(Reach(steps, consumers).accounts.payments)) <==> consumers <= 1
  {
    if consumers <= 1 {
      forall steps
        ensures OnePendingEach(Reach(steps, consumers).accounts.payments)
      {
        OneConsumerOnePending(steps, consumers);
      }
    } else {
      var first := Reserve(B.Create(CallOn(7)));
      FirstCallIsAccepted(7);
      ReachMore([], first, consumers);
      assert [] + [first] == [first];
      var w := Reach([first], consumers);
      assert |w.table.created| == 1 && w.table.created[0].price == 2000.0 && Round(2000.0) == 2000;
      assert CheckCreated(w.accounts, Decode(w.table.created[0]), 0).Some?;
      TwoConsumersMayDuplicate([first], consumers, 0, 0);
    }
  }

  lemma ReachMore(steps: seq<Step>, s: Step, consumers: nat)
    ensures Reach(steps + [s], consumers) == Next(Reach(steps, consumers), s, consumers)
  {
    assert (steps + [s])[..|steps|] == steps;
  }

  // ----- Where a pending payment comes from -----

  /** Step `k` is a create call that was accepted, stored a row and published the event. */
  ghost predicate Origin(steps: seq<Step>, consumers: nat, k: nat, e: B.CreatedEvent) {
    && k < |steps| && steps[k].Reserve? && steps[k].op.Create?
    && var t, c := Reach(steps[..k], consumers).table, steps[k].op.call;
    && B.CreateProblem(t.rows, c).None? && c.published && c.hourPrice.Some?
    && e == B.EventOf(B.NewRow(c, t.nextId))
  }

  lemma OriginSurvives(steps: seq<Step>, s: Step, consumers: nat, k: nat, e: B.CreatedEvent)
    requires Origin(steps, consumers, k, e)
    ensures Origin(steps + [s], consumers, k, e)
  {
    assert (steps + [s])[..k] == steps[..k];
  }

  /** Every published event goes back to an accepted create call of the run. */
  lemma {:induction false} EventHasOrigin(steps: seq<Step>, consumers: nat, event: nat) returns (k: nat)
    requires event < |Reach(steps, consumers).table.created|
    ensures Origin(steps, consumers, k, Reach(steps, consumers).table.created[event])
  {
    var n := |steps| - 1;
    var before, s := Reach(steps[..n], consumers), steps[n];
    assert steps == steps[..n] + [s];
    if event < |before.table.created| {
      k := EventHasOrigin(steps[..n], consumers, event);
      OriginSurvives(steps[..n], s, consumers, k, before.table.created[event]);
    } else {
      k := n;
    }
  }

  /**
    Every pending payment of every run traces to one accepted, published create call: it is for the
    booking that call stored, on the account of its caller, and, when the price fits 64 bits, within
    one half of the hour price times the hours booked.
   */
  lemma PendingPaymentProvenance(steps: seq<Step>, consumers: nat, i: nat) returns (k: nat)
    requires i < |Reach(steps, consumers).accounts.payments|
    requires Reach(steps, consumers).accounts.payments[i].status == Pending
    ensures k < |steps| && steps[k].Reserve? && steps[k].op.Create?
    ensures Reach(steps, consumers).accounts.payments[i].bookingId in Reach(steps, consumers).table.rows
    ensures PaysFor(Reach(steps, consumers).accounts.payments[i], Reach(steps[..k], consumers).table, steps[k].op.call)
  {
    EveryRunIsSound(steps, consumers);
    hide B.CreateProblem, B.PriceOf, Reach, Round;
    var w := Reach(steps, consumers);
    var p := w.accounts.payments[i];
    assert Published(p.bookingId, p.userId, p.amount, w.table.created);
    var e :| 0 <= e < |w.table.created| && FromEvent(p.bookingId, p.userId, p.amount, w.table.created[e]);
    k := EventHasOrigin(steps, consumers, e);
    EventPaysFor(p, Reach(steps[..k], consumers).table, steps[k].op.call);
  }

  /**
    The payment is what an accepted and published create call on the
    table should cost its caller, to the nearest unit.
   */
  ghost predicate PaysFor(p: Payment, t: B.Table, c: B.CreateCall) {
    && B.CreateProblem(t.rows, c).None? && c.published && c.hourPrice.Some?
    && p.bookingId == t.nextId && p.userId == c.claims.userId
    && var price := c.hourPrice.value * (c.req.endAt - c.req.startAt) as real / 3_600_000_000_000.0;
    INT64_MIN as real - 0.5 < price < INT64_MAX as real + 0.5 ==> -0.5 <= p.amount as real - price <= 0.5
  }

  lemma EventPaysFor(p: Payment, t: B.Table, c: B.CreateCall)
    requires B.CreateProblem(t.rows, c).None? && c.published && c.hourPrice.Some?
    requires FromEvent(p.bookingId, p.userId, p.amount, B.EventOf(B.NewRow(c, t.nextId)))
    ensures PaysFor(p, t, c)
  {
    hide B.CreateProblem;
    PriceMeans(c.hourPrice.value, c.req.startAt, c.req.endAt);
    assert B.PriceOf(c) == c.hourPrice.value * (c.req.endAt - c.req.startAt) as real / 3_600_000_000_000.0;
    hide B.PriceOf, B.Hours;
    RoundIsNearest(B.PriceOf(c));
  }
}
