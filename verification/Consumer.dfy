/**
  The event consumers: what handling a message does to the accounts, why handling it again does
  nothing, and why the order of messages about different bookings does not matter.
 */
module Consumer {
  import opened Common
  import opened Time
  import opened Ledger

  /** The fields the consumer decodes from a created event. */
  datatype CreatedMessage = CreatedMessage(bookingId: nat, clientId: nat, price: real)

  const CANCEL_REASON: string := "отмена бронирования"

  /** Rounding to the nearest integer, halves away from zero. */
  function Round(x: real): int {
    if x >= 0.0 then (x + 0.5).Floor else -((0.5 - x).Floor)
  }

  /** `n` is the integer nearest to `x`; of two that are equally near it is the one away from zero. */
  predicate Nearest(n: int, x: real) {
    && -0.5 <= n as real - x <= 0.5
    && (x >= 0.0 ==> x < n as real + 0.5) && (x <= 0.0 ==> n as real - 0.5 < x)
  }

  /** Rounding gives the nearest integer, and no other is the nearest. */
  lemma RoundIsNearest(x: real)
    ensures -0.5 <= Round(x) as real - x <= 0.5
    ensures forall n :: Nearest(n, x) <==> n == Round(x)
  {
  }

  /** Conversion to 64 bits; Go leaves the result open when the value does not fit. */
  function ToAmount(price: real, unspecified: Int64): Int64 {
    if INT64_MIN <= Round(price) <= INT64_MAX then Round(price) else unspecified
  }

  /** The first half of handling a created event: the request to insert, if there is to be one. */
  function CheckCreated(a: Accounts, m: CreatedMessage, unspecified: Int64): Option<PaymentRequest> {
    var amount := ToAmount(m.price, unspecified);
    if m.bookingId == 0 || m.clientId == 0 || amount <= 0 || FirstFor(a.payments, m.bookingId) < |a.payments| then None
    else Some(PaymentRequest(m.bookingId, m.clientId, amount, "RUB", Card))
  }

  function InsertPending(a: Accounts, req: PaymentRequest): Accounts {
    CreatePaymentStep(a, Some(req), Pending, None).0
  }

  function HandleCreated(a: Accounts, m: CreatedMessage, unspecified: Int64): Accounts {
    match CheckCreated(a, m, unspecified)
    case None => a
    case Some(req) => InsertPending(a, req)
  }

  /** A refund decided on a snapshot of the payment. */
  datatype RefundOrder = RefundOrder(paymentId: nat, amount: Int64)

  /** The first half of handling a cancelled event: the refund to ask for, if there is to be one. */
  function CheckCancelled(a: Accounts, bookingId: nat): Option<RefundOrder> {
    var i := FirstFor(a.payments, bookingId);
    if bookingId == 0 || i == |a.payments| then None
    else
      var payment := a.payments[i];
      var remaining := Wrap64(payment.amount - payment.refundedAmount);
      if payment.status != Completed || remaining <= 0 then None else Some(RefundOrder(payment.id, remaining))
  }

  function CarryOut(a: Accounts, order: RefundOrder, now: Instant): Accounts {
    RefundStep(a, order.paymentId, Some(RefundRequest(order.amount, CANCEL_REASON)), now).0
  }

  function HandleCancelled(a: Accounts, bookingId: nat, now: Instant): Accounts {
    match CheckCancelled(a, bookingId)
    case None => a
    case Some(order) => CarryOut(a, order, now)
  }

  /**
    Handling a created event that names a booking and a client, whose price rounds to a positive amount, and
    whose booking has no payment yet, appends one pending card payment of that amount in roubles; any other
    changes nothing. `n` is the nearest integer to the price, in place of which Go may use anything when it
    does not fit.
   */
  lemma HandleCreatedOutcome(a: Accounts, m: CreatedMessage, unspecified: Int64, n: int)
    requires Nearest(n, m.price)
    ensures var amount, a' := if INT64_MIN <= n <= INT64_MAX then n else unspecified, HandleCreated(a, m, unspecified);
            if m.bookingId != 0 && m.clientId != 0 && amount > 0
               && (forall i :: 0 <= i < |a.payments| ==> a.payments[i].bookingId != m.bookingId)
            then a' == a.(payments := a.payments
                          + [Payment(|a.payments| + 1, m.bookingId, m.clientId, amount, "RUB", Card,
                                                            Pending, 0, None, None)])
            else a' == a
  {
    RoundIsNearest(m.price);
  }

  lemma HandleCreatedKeepsBalance(a: Accounts, m: CreatedMessage, unspecified: Int64)
    requires Balanced(a)
    ensures Balanced(HandleCreated(a, m, unspecified))
  {
    var req := CheckCreated(a, m, unspecified);
    if req.Some? {
      CreatePaymentKeepsBalance(a, req, Pending, None);
    }
  }

  /** The payment after the rest of it has been refunded. */
  function FullyRefunded(p: Payment, now: Instant): Payment {
    p.(refundedAmount := p.amount, status := Refunded, refundedAt := Some(now))
  }

  /** The event finds a completed payment as the first one of the booking. */
  predicate HasPaymentToRefund(a: Accounts, bookingId: nat) {
    var i := FirstFor(a.payments, bookingId);
    bookingId != 0 && i < |a.payments| && a.payments[i].status == Completed
  }

  /** The accounts after the rest of the payment at position `i` has been refunded. */
  function AfterFullRefund(a: Accounts, i: nat, now: Instant): Accounts
    requires i < |a.payments| && INT64_MIN <= a.payments[i].amount - a.payments[i].refundedAmount <= INT64_MAX
  {
    var p := a.payments[i];
    Accounts(a.payments[i := FullyRefunded(p, now)],
             a.refunds + [Refund(|a.refunds| + 1, i + 1, p.amount - p.refundedAmount, CANCEL_REASON, RefundCompleted)])
  }

  /** An order for exactly what is left of a completed payment makes it fully refunded. */
  lemma OrderForTheRest(a: Accounts, i: nat, now: Instant)
    requires Balanced(a) && i < |a.payments| && a.payments[i].status == Completed
    ensures 0 < a.payments[i].amount - a.payments[i].refundedAmount <= INT64_MAX
    ensures CarryOut(a, RefundOrder(i + 1, a.payments[i].amount - a.payments[i].refundedAmount), now)
            == AfterFullRefund(a, i, now)
    ensures Balanced(AfterFullRefund(a, i, now))
  {
    var p := a.payments[i];
    assert p.id == i + 1 && PaymentBalanced(p, RefundTotal(a.refunds, i + 1));
    RefundArithmeticIsExact(a, i + 1, p.amount - p.refundedAmount);
    CarryOutKeepsBalance(a, RefundOrder(i + 1, p.amount - p.refundedAmount), now);
  }

  lemma CarryOutKeepsBalance(a: Accounts, order: RefundOrder, now: Instant)
    requires Balanced(a) && order.amount > 0
    ensures Balanced(CarryOut(a, order, now))
  {
    RefundOutcome(a, order.paymentId, RefundRequest(order.amount, CANCEL_REASON), now);
  }

  /** The first payment of the booking after the event: fully refunded if it was completed, untouched otherwise. */
  lemma HandleCancelledOutcome(a: Accounts, bookingId: nat, now: Instant)
    requires Balanced(a)
    ensures Balanced(HandleCancelled(a, bookingId, now))
    ensures !HasPaymentToRefund(a, bookingId) ==> HandleCancelled(a, bookingId, now) == a
    ensures HasPaymentToRefund(a, bookingId) ==>
              var i := FirstFor(a.payments, bookingId);
              && 0 < a.payments[i].amount - a.payments[i].refundedAmount <= INT64_MAX
              && HandleCancelled(a, bookingId, now) == AfterFullRefund(a, i, now)
  {
    CheckOrdersTheRest(a, bookingId);
    if HasPaymentToRefund(a, bookingId) {
      OrderForTheRest(a, FirstFor(a.payments, bookingId), now);
    }
  }

  /**
    Handling a cancelled event refunds all that is left of the first payment of the booking if that payment is
    completed: it becomes refunded, and one refund row with the fixed reason is appended. Otherwise, and on an
    event without a booking, nothing changes.
   */
  lemma CancelledEventOutcome(a: Accounts, bookingId: nat, now: Instant, i: nat)
    requires Balanced(a) && i <= |a.payments|
    requires forall j :: 0 <= j < i ==> a.payments[j].bookingId != bookingId
    requires i < |a.payments| ==> a.payments[i].bookingId == bookingId
    ensures var a' := HandleCancelled(a, bookingId, now);
            if bookingId == 0 || i == |a.payments| || a.payments[i].status != Completed then a' == a
            else
              var p := a.payments[i];
              && a'.payments == a.payments[i := p.(refundedAmount := p.amount, status := Refunded,
                                                   refundedAt := Some(now))]
              && |a'.refunds| == |a.refunds| + 1 && a.refunds <= a'.refunds
              && var r := a'.refunds[|a.refunds|];
              && r.id == |a.refunds| + 1 && r.paymentId == i + 1 && r.amount == p.amount - p.refundedAmount
              && r.reason == "отмена бронирования" && r.status == RefundCompleted
  {
    assert FirstFor(a.payments, bookingId) == i;
    HandleCancelledOutcome(a, bookingId, now);
  }

  /** The check asks for exactly what is left of the first payment, when that payment is completed. */
  lemma CheckOrdersTheRest(a: Accounts, bookingId: nat)
    requires Balanced(a)
    ensures CheckCancelled(a, bookingId).Some? <==> HasPaymentToRefund(a, bookingId)
    ensures HasPaymentToRefund(a, bookingId) ==>
              var i := FirstFor(a.payments, bookingId);
              && 0 < a.payments[i].amount - a.payments[i].refundedAmount <= INT64_MAX
              && CheckCancelled(a, bookingId)
                 == Some(RefundOrder(i + 1, a.payments[i].amount - a.payments[i].refundedAmount))
  {
    var i := FirstFor(a.payments, bookingId);
    if i < |a.payments| {
      assert PaymentBalanced(a.payments[i], RefundTotal(a.refunds, i + 1)) && a.payments[i].id == i + 1;
      WrapIsExact(a.payments[i].amount - a.payments[i].refundedAmount);
    }
  }

  // ----- Deliveries -----

  datatype Delivery =
    | Created(m: CreatedMessage, unspecified: Int64)
    | Cancelled(id: nat, now: Instant)
  {
    function Booking(): nat {
      match this
      case Created(m, _) => m.bookingId
      case Cancelled(id, _) => id
    }
  }

  function Deliver(a: Accounts, d: Delivery): Accounts {
    match d
    case Created(m, unspecified) => HandleCreated(a, m, unspecified)
    case Cancelled(id, now) => HandleCancelled(a, id, now)
  }

  function DeliverAll(a: Accounts, ds: seq<Delivery>): Accounts
    decreases |ds|
  {
    if ds == [] then a else DeliverAll(Deliver(a, ds[0]), ds[1..])
  }

  lemma DeliverKeepsBalance(a: Accounts, d: Delivery)
    requires Balanced(a)
    ensures Balanced(Deliver(a, d))
  {
    match d
    case Created(m, unspecified) => HandleCreatedKeepsBalance(a, m, unspecified);
    case Cancelled(id, now) => HandleCancelledOutcome(a, id, now);
  }

  /** The same event, possibly handled at another time. */
  predicate SameEvent(d: Delivery, d': Delivery) {
    d' == d || (d.Cancelled? && d'.Cancelled? && d'.id == d.id)
  }

  /** Handling an event again right away changes nothing, even if the clock has moved. */
  lemma RedeliveryChangesNothing(a: Accounts, d: Delivery, d': Delivery)
    requires Balanced(a)
    requires SameEvent(d, d')
    ensures Deliver(Deliver(a, d), d') == Deliver(a, d)
  {
    match d
    case Created(m, unspecified) =>
      var req := CheckCreated(a, m, unspecified);
      if req.Some? {
        FirstForAppend(a.payments, InsertPending(a, req.value).payments[|a.payments|], m.bookingId);
      }
    case Cancelled(id, now) =>
      HandleCancelledOutcome(a, id, now);
      var a' := HandleCancelled(a, id, now);
      HandleCancelledOutcome(a', id, d'.now);
      FirstForSame(a.payments, a'.payments, id);
  }

  /** Any number of deliveries of one event in a row, whenever they are handled, equals the first. */
  lemma {:induction false} ManyDeliveriesAreOne(a: Accounts, ds: seq<Delivery>)
    requires Balanced(a) && ds != [] && forall k :: 0 <= k < |ds| ==> SameEvent(ds[0], ds[k])
    ensures DeliverAll(a, ds) == Deliver(a, ds[0])
    decreases |ds|
  {
    if |ds| > 1 {
      RedeliveryChangesNothing(a, ds[0], ds[1]);
      DeliverKeepsBalance(a, ds[0]);
      assert ds == [ds[0]] + ds[1..] && ds[1..] == [ds[1]] + ds[2..];
      var again := [ds[0]] + ds[2..];
      assert Deliver(Deliver(a, ds[0]), ds[1]) == Deliver(a, ds[0]);
      assert DeliverAll(a, again) == DeliverAll(Deliver(a, ds[0]), ds[2..]) by {
        assert again[1..] == ds[2..];
      }
      forall k | 0 <= k < |again|
        ensures SameEvent(again[0], again[k])
      {
        assert k > 0 ==> again[k] == ds[k + 1];
      }
      ManyDeliveriesAreOne(a, again);
    }
  }

  /**
    Whatever has happened since, handling an event changes the accounts
    exactly when there is something to do at that moment.
   */
  lemma HandlingChangesIff(a: Accounts, d: Delivery)
    requires Balanced(a)
    ensures Deliver(a, d) != a
            <==> if d.Cancelled? then HasPaymentToRefund(a, d.id) else CheckCreated(a, d.m, d.unspecified).Some?
  {
    match d
    case Created(m, unspecified) =>
      var req := CheckCreated(a, m, unspecified);
      if req.Some? {
        assert |InsertPending(a, req.value).payments| == |a.payments| + 1;
      }
    case Cancelled(id, now) =>
      HandleCancelledOutcome(a, id, now);
      if HasPaymentToRefund(a, id) {
        assert |AfterFullRefund(a, FirstFor(a.payments, id), now).refunds| == |a.refunds| + 1;
      }
  }

  lemma {:induction false} FirstForAppend(payments: seq<Payment>, p: Payment, bookingId: nat)
    ensures FirstFor(payments + [p], bookingId)
            == if FirstFor(payments, bookingId) < |payments| then FirstFor(payments, bookingId)
               else if p.bookingId == bookingId then |payments| else |payments| + 1
  {
    var i, longer := FirstFor(payments, bookingId), payments + [p];
    assert forall k :: 0 <= k < |payments| ==> longer[k] == payments[k];
    assert longer[|payments|] == p;
    assert i < |payments| ==> longer[i].bookingId == bookingId;
  }

  /** Updating payments without moving them between bookings does not change which one is first. */
  lemma FirstForSame(payments: seq<Payment>, payments': seq<Payment>, bookingId: nat)
    requires |payments'| == |payments| && forall i :: 0 <= i < |payments| ==>
             payments'[i].bookingId == payments[i].bookingId
    ensures FirstFor(payments', bookingId) == FirstFor(payments, bookingId)
  {
  }

  /**
    After a cancelled event no completed payment of the booking is left to refund exactly when, before
    it, every completed payment of the booking was its first payment. A pending payment that came first
    hides the completed ones.
   */
  lemma CancellationRefundsAllIff(a: Accounts, bookingId: nat, now: Instant)
    requires Balanced(a) && bookingId != 0
    ensures (forall i :: 0 <= i < |a.payments|
                         && a.payments[i].bookingId == bookingId && a.payments[i].status == Completed
                         ==> i == FirstFor(a.payments, bookingId))
            <==> (forall i :: 0 <= i < |HandleCancelled(a, bookingId, now).payments|
                              && HandleCancelled(a, bookingId, now).payments[i].bookingId == bookingId
                              ==> HandleCancelled(a, bookingId, now).payments[i].status != Completed)
  {
    HandleCancelledOutcome(a, bookingId, now);
    var a', first := HandleCancelled(a, bookingId, now), FirstFor(a.payments, bookingId);
    assert |a'.payments| == |a.payments|;
    assert forall i :: 0 <= i < |a.payments| && i != first ==> a'.payments[i] == a.payments[i];
    if first < |a.payments| {
      assert a'.payments[first].status != Completed;
    }
  }

  /** A request that payment creation accepts. */
  predicate Payable(req: PaymentRequest) {
    req.amount > 0 && !req.way.OtherMethod?
  }

  /**
    The usual course: the event-driven pending payment comes first, the client pays, and the payment is
    accepted. The cancellation then changes nothing: the completed payment stays, with nothing refunded.
   */
  lemma PaidAfterPendingIsNotRefunded(a: Accounts, m: CreatedMessage, unspecified: Int64, req: PaymentRequest,
                                      paid: Instant, now: Instant)
    requires Balanced(a) && CheckCreated(a, m, unspecified).Some? && req.bookingId == m.bookingId && Payable(req)
    ensures var (b, result) := CreatePaymentStep(HandleCreated(a, m, unspecified), Some(req), Completed, Some(paid));
            && result.Ok? && HandleCancelled(b, m.bookingId, now) == b
            && |b.payments| == |a.payments| + 2 && b.payments[|a.payments| + 1] == result.value
            && result.value.bookingId == m.bookingId && result.value.status == Completed
            && result.value.amount == req.amount && result.value.refundedAmount == 0
  {
    var pending := HandleCreated(a, m, unspecified);
    var (b, result) := CreatePaymentStep(pending, Some(req), Completed, Some(paid));
    HandleCreatedKeepsBalance(a, m, unspecified);
    CreatePaymentKeepsBalance(pending, Some(req), Completed, Some(paid));
    FirstForAppend(a.payments, pending.payments[|a.payments|], m.bookingId);
    FirstForAppend(pending.payments, result.value, m.bookingId);
    HandleCancelledOutcome(b, m.bookingId, now);
  }

  // ----- What a booking sees of the accounts -----

  /** A payment with its refunds, without row identifiers. */
  datatype PaymentView = PaymentView(userId: nat, amount: int, currency: string, way: PaymentMethod,
                                     status: PaymentStatus,
                                     refundedAmount: int, paidAt: Option<Instant>, refundedAt: Option<Instant>,
                                     refunds: seq<(int, string)>)

  function RefundsOf(refunds: seq<Refund>, paymentId: nat): seq<(int, string)> {
    if refunds == [] then []
    else
      var last := refunds[|refunds| - 1];
      RefundsOf(refunds[..|refunds| - 1], paymentId) + if last.paymentId == paymentId then [(last.amount, last.reason)]
        else []
  }

  function ViewOf(p: Payment, refunds: seq<Refund>): PaymentView {
    PaymentView(p.userId, p.amount, p.currency, p.way, p.status, p.refundedAmount, p.paidAt, p.refundedAt,
                RefundsOf(refunds, p.id))
  }

  /** The payments of a booking in order, each with its refunds. */
  function ViewFrom(payments: seq<Payment>, refunds: seq<Refund>, bookingId: nat): seq<PaymentView> {
    if payments == [] then []
    else (if payments[0].bookingId == bookingId then [ViewOf(payments[0], refunds)] else [])
         + ViewFrom(payments[1..], refunds, bookingId)
  }

  function View(a: Accounts, bookingId: nat): seq<PaymentView> {
    ViewFrom(a.payments, a.refunds, bookingId)
  }

  /** What an event does to the view of its booking. */
  function ViewStep(v: seq<PaymentView>, d: Delivery): seq<PaymentView> {
    match d
    case Created(m, unspecified) =>
      var amount := ToAmount(m.price, unspecified);
      if m.bookingId == 0 || m.clientId == 0 || amount <= 0 || v != [] then v
      else [PaymentView(m.clientId, amount, "RUB", Card, Pending, 0, None, None, [])]
    case Cancelled(id, now) =>
      if id == 0 || v == [] || v[0].status != Completed then v
      else [v[0].(refundedAmount := v[0].amount, status := Refunded, refundedAt := Some(now),
                  refunds := v[0].refunds + [(v[0].amount - v[0].refundedAmount, CANCEL_REASON)])] + v[1..]
  }

  lemma RefundsOfAppend(refunds: seq<Refund>, r: Refund, paymentId: nat)
    ensures RefundsOf(refunds + [r], paymentId)
            == if r.paymentId == paymentId then RefundsOf(refunds, paymentId) + [(r.amount, r.reason)]
              else RefundsOf(refunds, paymentId)
  {
    assert (refunds + [r])[..|refunds|] == refunds;
  }

  lemma {:induction false} NoRefundsInView(refunds: seq<Refund>, paymentId: nat)
    requires forall k :: 0 <= k < |refunds| ==> refunds[k].paymentId < paymentId
    ensures RefundsOf(refunds, paymentId) == []
  {
    if refunds != [] {
      NoRefundsInView(refunds[..|refunds| - 1], paymentId);
    }
  }

  lemma {:induction false} ViewAppend(payments: seq<Payment>, p: Payment, refunds: seq<Refund>, bookingId: nat)
    ensures ViewFrom(payments + [p], refunds, bookingId)
            == ViewFrom(payments, refunds, bookingId) + if p.bookingId == bookingId then [ViewOf(p, refunds)] else []
  {
    hide ViewOf;
    if payments == [] {
      assert payments + [p] == [p];
      assert ViewFrom([p], refunds, bookingId)
          == (if p.bookingId == bookingId then [ViewOf(p, refunds)] else []) + ViewFrom([], refunds, bookingId);
    } else {
      ViewAppend(payments[1..], p, refunds, bookingId);
      assert (payments + [p])[1..] == payments[1..] + [p];
    }
  }

  lemma ViewOfIgnoresOthersRefund(p: Payment, refunds: seq<Refund>, r: Refund)
    requires p.id != r.paymentId
    ensures ViewOf(p, refunds + [r]) == ViewOf(p, refunds)
  {
    RefundsOfAppend(refunds, r, p.id);
  }

  /** A refund of some other payment does not show. */
  lemma {:induction false} ViewIgnoresOthersRefund(payments: seq<Payment>, refunds: seq<Refund>, r: Refund,
                                                   bookingId: nat)
    requires forall i :: 0 <= i < |payments| ==> payments[i].id != r.paymentId
    ensures ViewFrom(payments, refunds + [r], bookingId) == ViewFrom(payments, refunds, bookingId)
  {
    hide ViewOf;
    if payments != [] {
      ViewOfIgnoresOthersRefund(payments[0], refunds, r);
      ViewIgnoresOthersRefund(payments[1..], refunds, r, bookingId);
    }
  }

  /** Refunding the first payment of booking `own` changes the head of its view and no other view. */
  lemma {:induction false} ViewOfRefundedFirst(payments: seq<Payment>, refunds: seq<Refund>, i: nat, p: Payment,
                                               r: Refund,
                                               own: nat, bookingId: nat)
    requires i == FirstFor(payments, own) < |payments|
    requires p.id == payments[i].id == r.paymentId && p.bookingId == own
    requires forall j :: 0 <= j < |payments| && j != i ==> payments[j].id != r.paymentId
    ensures var v := ViewFrom(payments, refunds, bookingId);
            ViewFrom(payments[i := p], refunds + [r], bookingId)
            == if bookingId == own then (if v == [] then [] else [ViewOf(p, refunds + [r])] + v[1..]) else v
    ensures ViewFrom(payments, refunds, own) != []
            && ViewFrom(payments, refunds, own)[0] == ViewOf(payments[i], refunds)
  {
    hide ViewOf;
    var rest := payments[1..];
    if i == 0 {
      ViewIgnoresOthersRefund(rest, refunds, r, bookingId);
      assert payments[0 := p][1..] == rest;
    } else {
      ViewOfIgnoresOthersRefund(payments[0], refunds, r);
      ViewOfRefundedFirst(rest, refunds, i - 1, p, r, own, bookingId);
      assert payments[i := p][1..] == rest[i - 1 := p];
    }
  }

  lemma {:induction false} EmptyViewMeansNone(payments: seq<Payment>, refunds: seq<Refund>, bookingId: nat)
    ensures ViewFrom(payments, refunds, bookingId) == [] <==> FirstFor(payments, bookingId) == |payments|
    ensures FirstFor(payments, bookingId) < |payments| ==>
              ViewFrom(payments, refunds, bookingId)[0] == ViewOf(payments[FirstFor(payments, bookingId)], refunds)
  {
    if payments != [] {
      EmptyViewMeansNone(payments[1..], refunds, bookingId);
    }
  }

  lemma CreatedIsLocal(a: Accounts, d: Delivery, bookingId: nat)
    requires Balanced(a) && d.Created?
    ensures View(Deliver(a, d), bookingId)
            == if bookingId == d.Booking() then ViewStep(View(a, bookingId), d) else View(a, bookingId)
  {
    EmptyViewMeansNone(a.payments, a.refunds, d.m.bookingId);
    var req := CheckCreated(a, d.m, d.unspecified);
    if req.Some? {
      var p := InsertPending(a, req.value).payments[|a.payments|];
      NoRefundsInView(a.refunds, p.id);
      ViewAppend(a.payments, p, a.refunds, bookingId);
    }
  }

  lemma CancelledIsLocal(a: Accounts, d: Delivery, bookingId: nat)
    requires Balanced(a) && d.Cancelled?
    ensures View(Deliver(a, d), bookingId)
            == if bookingId == d.Booking() then ViewStep(View(a, bookingId), d) else View(a, bookingId)
  {
    EmptyViewMeansNone(a.payments, a.refunds, d.id);
    HandleCancelledOutcome(a, d.id, d.now);
    if HasPaymentToRefund(a, d.id) {
      FullRefundIsLocal(a, d, bookingId);
    }
  }

  lemma FullRefundIsLocal(a: Accounts, d: Delivery, bookingId: nat)
    requires d.Cancelled? && HasPaymentToRefund(a, d.id)
    requires forall i :: 0 <= i < |a.payments| ==> a.payments[i].id == i + 1
    requires var p := a.payments[FirstFor(a.payments, d.id)]; 0 < p.amount - p.refundedAmount <= INT64_MAX
    ensures View(AfterFullRefund(a, FirstFor(a.payments, d.id), d.now), bookingId)
            == if bookingId == d.id then ViewStep(View(a, bookingId), d) else View(a, bookingId)
  {
    hide ViewFrom, RefundsOf, FirstFor;
    var i := FirstFor(a.payments, d.id);
    var p := a.payments[i];
    var r := Refund(|a.refunds| + 1, i + 1, p.amount - p.refundedAmount, CANCEL_REASON, RefundCompleted);
    RefundsOfAppend(a.refunds, r, i + 1);
    ViewOfRefundedFirst(a.payments, a.refunds, i, FullyRefunded(p, d.now), r, d.id, bookingId);
  }

  /** An event acts on the view of its own booking, as `ViewStep` says, and on no other. */
  lemma DeliveryIsLocal(a: Accounts, d: Delivery, bookingId: nat)
    requires Balanced(a)
    ensures View(Deliver(a, d), bookingId)
            == if bookingId == d.Booking() then ViewStep(View(a, bookingId), d) else View(a, bookingId)
  {
    match d
    case Created(_, _) => CreatedIsLocal(a, d, bookingId);
    case Cancelled(_, _) => CancelledIsLocal(a, d, bookingId);
  }

  /** The deliveries about one booking, in order. */
  function About(ds: seq<Delivery>, bookingId: nat): seq<Delivery> {
    if ds == [] then []
    else (if ds[0].Booking() == bookingId then [ds[0]] else []) + About(ds[1..], bookingId)
  }

  function ViewRun(v: seq<PaymentView>, ds: seq<Delivery>): seq<PaymentView>
    decreases |ds|
  {
    if ds == [] then v else ViewRun(ViewStep(v, ds[0]), ds[1..])
  }

  /** After any deliveries, what a booking sees depends only on the deliveries about it. */
  lemma {:induction false} ViewDependsOnOwnDeliveries(a: Accounts, ds: seq<Delivery>, bookingId: nat)
    requires Balanced(a)
    ensures Balanced(DeliverAll(a, ds))
    ensures View(DeliverAll(a, ds), bookingId) == ViewRun(View(a, bookingId), About(ds, bookingId))
    decreases |ds|
  {
    if ds != [] {
      DeliverKeepsBalance(a, ds[0]);
      DeliveryIsLocal(a, ds[0], bookingId);
      ViewDependsOnOwnDeliveries(Deliver(a, ds[0]), ds[1..], bookingId);
      var own := About(ds[1..], bookingId);
      if ds[0].Booking() == bookingId {
        assert About(ds, bookingId)[1..] == own;
      } else {
        assert About(ds, bookingId) == own;
      }
    }
  }

  /** Two delivery orders that agree on each booking leave each booking with the same payments and refunds. */
  lemma OrderAcrossBookingsIsIrrelevant(a: Accounts, ds: seq<Delivery>, ds': seq<Delivery>, bookingId: nat)
    requires Balanced(a) && About(ds, bookingId) == About(ds', bookingId)
    ensures View(DeliverAll(a, ds), bookingId) == View(DeliverAll(a, ds'), bookingId)
  {
    ViewDependsOnOwnDeliveries(a, ds, bookingId);
    ViewDependsOnOwnDeliveries(a, ds', bookingId);
  }

  /** The pending payment that the first acceptable created message opens, if there is one. */
  function FirstPending(ds: seq<Delivery>): seq<PaymentView> {
    if ds == [] then []
    else if ViewStep([], ds[0]) != [] then ViewStep([], ds[0])
    else FirstPending(ds[1..])
  }

  lemma {:induction false} PendingViewStays(v: seq<PaymentView>, ds: seq<Delivery>)
    requires |v| == 1 && v[0].status == Pending
    ensures ViewRun(v, ds) == v
    decreases |ds|
  {
    if ds != [] {
      PendingViewStays(v, ds[1..]);
    }
  }

  lemma {:induction false} ViewRunFromNothing(ds: seq<Delivery>)
    ensures ViewRun([], ds) == FirstPending(ds)
    decreases |ds|
  {
    if ds != [] {
      var v := ViewStep([], ds[0]);
      if v != [] {
        PendingViewStays(v, ds[1..]);
      } else {
        ViewRunFromNothing(ds[1..]);
      }
    }
  }

  /**
    Deliveries alone, however often repeated and in whatever order, give each booking at most one payment:
    the pending one of the first acceptable created message about it. They never refund anything.
   */
  lemma DeliveriesAloneKeepFirst(ds: seq<Delivery>, bookingId: nat)
    ensures View(DeliverAll(Accounts([], []), ds), bookingId) == FirstPending(About(ds, bookingId))
  {
    ViewDependsOnOwnDeliveries(Accounts([], []), ds, bookingId);
    ViewRunFromNothing(About(ds, bookingId));
  }
}
