/**
  The payment service: the two tables it changes in place, payment creation, the refund transaction,
  and the consume loops of the two topics. Amounts are 64-bit: every assignment below is checked to fit.
 */
module PaymentService {
  import opened Common
  import opened Time
  import opened Ledger
  import opened Consumer

  /** What a read from a topic may yield. */
  datatype Incoming<+T> = Unreadable | Malformed | Message(m: T)

  /** A created message together with the result of converting its price, should it not fit 64 bits. */
  datatype CreatedInput = CreatedInput(m: CreatedMessage, unspecified: Int64)

  /** A cancelled message and the time at which it is handled. */
  datatype CancelledInput = CancelledInput(bookingId: nat, now: Instant)

  function CreatedDeliveries(incoming: seq<Incoming<CreatedInput>>): seq<Delivery> {
    if incoming == [] then []
    else (if incoming[0].Message? then [Created(incoming[0].m.m, incoming[0].m.unspecified)] else [])
         + CreatedDeliveries(incoming[1..])
  }

  function CancelledDeliveries(incoming: seq<Incoming<CancelledInput>>): seq<Delivery> {
    if incoming == [] then []
    else (if incoming[0].Message? then [Cancelled(incoming[0].m.bookingId, incoming[0].m.now)] else [])
         + CancelledDeliveries(incoming[1..])
  }

  /** The deliveries of the parts of a topic follow each other; a readable message gives one, any other none. */
  lemma {:induction false} CreatedInOrder(first: seq<Incoming<CreatedInput>>, second: seq<Incoming<CreatedInput>>)
    ensures CreatedDeliveries(first + second) == CreatedDeliveries(first) + CreatedDeliveries(second)
  {
    if first == [] {
      assert first + second == second;
    } else {
      CreatedInOrder(first[1..], second);
      assert (first + second)[1..] == first[1..] + second && (first + second)[0] == first[0];
      var head := if first[0].Message? then [Created(first[0].m.m, first[0].m.unspecified)] else [];
      assert CreatedDeliveries(first + second) == head + CreatedDeliveries(first[1..] + second);
      assert CreatedDeliveries(first) == head + CreatedDeliveries(first[1..]);
      hide CreatedDeliveries;
    }
  }

  lemma {:induction false} CancelledInOrder(first: seq<Incoming<CancelledInput>>, second: seq<Incoming<CancelledInput>>)
    ensures CancelledDeliveries(first + second) == CancelledDeliveries(first) + CancelledDeliveries(second)
  {
    if first == [] {
      assert first + second == second;
    } else {
      CancelledInOrder(first[1..], second);
      assert (first + second)[1..] == first[1..] + second && (first + second)[0] == first[0];
      var head := if first[0].Message? then [Cancelled(first[0].m.bookingId, first[0].m.now)] else [];
      assert CancelledDeliveries(first + second) == head + CancelledDeliveries(first[1..] + second);
      assert CancelledDeliveries(first) == head + CancelledDeliveries(first[1..]);
      hide CancelledDeliveries;
    }
  }

  /** A readable message gives its delivery, and nothing else does. */
  lemma OneCreated(x: CreatedInput)
    ensures CreatedDeliveries([Message(x)]) == [Created(x.m, x.unspecified)]
    ensures CreatedDeliveries([Unreadable]) == [] == CreatedDeliveries([Malformed])
  {
    assert CreatedDeliveries([Message(x)][1..]) == [];
  }

  lemma OneCancelled(x: CancelledInput)
    ensures CancelledDeliveries([Message(x)]) == [Cancelled(x.bookingId, x.now)]
    ensures CancelledDeliveries([Unreadable]) == [] == CancelledDeliveries([Malformed])
  {
    assert CancelledDeliveries([Message(x)][1..]) == [];
  }

  class Database {
    var payments: seq<Payment>
    var refunds: seq<Refund>

    ghost function State(): Accounts
      reads this
    {
      Accounts(payments, refunds)
    }

    ghost predicate Valid()
      reads this
    {
      Balanced(State())
    }

    constructor ()
      ensures Valid() && State() == Accounts([], [])
    {
      payments, refunds := [], [];
    }

    // ----- Repositories -----

    method InsertPayment(p: Payment) returns (stored: Payment)
      modifies this`payments
      ensures stored == p.(id := |old(payments)| + 1) && payments == old(payments) + [stored]
    {
      stored := p.(id := |payments| + 1);
      payments := payments + [stored];
    }

    method InsertRefund(r: Refund) returns (stored: Refund)
      modifies this`refunds
      ensures stored == r.(id := |old(refunds)| + 1) && refunds == old(refunds) + [stored]
    {
      stored := r.(id := |refunds| + 1);
      refunds := refunds + [stored];
    }

    method UpdatePayment(p: Payment)
      requires 1 <= p.id <= |payments|
      modifies this`payments
      ensures payments == old(payments)[p.id - 1 := p]
    {
      payments := payments[p.id - 1 := p];
    }

    /** The payment of the booking with the smallest identifier. */
    method GetPaymentByBookingID(bookingId: nat) returns (found: Option<Payment>)
      ensures var i := FirstFor(payments, bookingId);
              found == if i < |payments| then Some(payments[i]) else None
    {
      for n := 0 to |payments|
        invariant forall j :: 0 <= j < n ==> payments[j].bookingId != bookingId
      {
        if payments[n].bookingId == bookingId {
          return Some(payments[n]);
        }
      }
      found := None;
    }

    // ----- Payments -----

    method CreateWithStatus(req: Option<PaymentRequest>, status: PaymentStatus, setPaidAt: bool, now: Instant)
      returns (r: Result<Payment, PaymentError>)
      requires Valid() && status == (if setPaidAt then PaymentStatus.Completed else PaymentStatus.Pending)
      modifies this
      ensures (State(), r) == CreatePaymentStep(old(State()), req, status, if setPaidAt then Some(now) else None)
      ensures Valid()
    {
      CreatePaymentKeepsBalance(State(), req, status, if setPaidAt then Some(now) else None);
      if req.None? {
        return Err(EmptyRequest);
      }
      var request := req.value;
      if request.amount <= 0 {
        return Err(InvalidAmount);
      }
      if request.currency == "" {
        request := request.(currency := "RUB");
      }
      if request.way.OtherMethod? {
        return Err(InvalidMethod);
      }
      var payment := Payment(0, request.bookingId, request.userId, request.amount, request.currency, request.way,
                             status, 0, None, None);
      if setPaidAt {
        payment := payment.(paidAt := Some(now));
      }
      payment := InsertPayment(payment);
      r := Ok(payment);
    }

    method CreatePayment(req: Option<PaymentRequest>, now: Instant) returns (r: Result<Payment, PaymentError>)
      requires Valid()
      modifies this
      ensures (State(), r) == CreatePaymentStep(old(State()), req, PaymentStatus.Completed, Some(now)) && Valid()
    {
      r := CreateWithStatus(req, PaymentStatus.Completed, true, now);
    }

    method CreatePendingPayment(req: Option<PaymentRequest>) returns (r: Result<Payment, PaymentError>)
      requires Valid()
      modifies this
      ensures (State(), r) == CreatePaymentStep(old(State()), req, PaymentStatus.Pending, None) && Valid()
    {
      r := CreateWithStatus(req, PaymentStatus.Pending, false, ZERO);
    }

    // ----- Refunds -----

    /** Callers ask for a positive amount. */
    method CreateRefund(paymentId: nat, req: Option<RefundRequest>, now: Instant)
      returns (r: Result<Refund, PaymentError>)
      requires Valid() && (req.Some? ==> req.value.amount > 0)
      modifies this
      ensures (State(), r) == RefundStep(old(State()), paymentId, req, now)
      ensures Valid()
    {
      if req.None? {
        return Err(EmptyRequest);
      }
      RefundOutcome(State(), paymentId, req.value, now);
      if !(1 <= paymentId <= |payments|) {
        return Err(PaymentError.NotFound);
      }
      var payment := payments[paymentId - 1];
      RefundArithmeticIsExact(State(), paymentId, req.value.amount);
      if payment.status != PaymentStatus.Completed {
        return Err(NotComplete);
      }
      var available: Int64 := payment.amount - payment.refundedAmount;
      if req.value.amount > available {
        return Err(RefundExceeds);
      }
      var refund := InsertRefund(Refund(0, paymentId, req.value.amount, req.value.reason, RefundCompleted));
      var total: Int64 := payment.refundedAmount + req.value.amount;
      payment := payment.(refundedAmount := total);
      if payment.refundedAmount >= payment.amount {
        payment := payment.(status := PaymentStatus.Refunded);
        payment := payment.(refundedAt := Some(now));
      }
      UpdatePayment(payment);
      r := Ok(refund);
    }

    // ----- Consumers -----

    method OnBookingCreated(m: CreatedMessage, unspecified: Int64)
      requires Valid()
      modifies this
      ensures State() == HandleCreated(old(State()), m, unspecified) && Valid()
    {
      if m.bookingId == 0 || m.clientId == 0 {
        return;
      }
      var amount := ToAmount(m.price, unspecified);
      if amount <= 0 {
        return;
      }
      var existing := GetPaymentByBookingID(m.bookingId);
      if existing.Some? {
        return;
      }
      var created := CreatePendingPayment(Some(PaymentRequest(m.bookingId, m.clientId, amount, "RUB", Card)));
    }

    method OnBookingCancelled(bookingId: nat, now: Instant)
      requires Valid()
      modifies this
      ensures State() == HandleCancelled(old(State()), bookingId, now) && Valid()
    {
      CheckOrdersTheRest(State(), bookingId);
      hide RefundStep, CheckCancelled, PaymentBalanced;
      if bookingId == 0 {
        return;
      }
      var found := GetPaymentByBookingID(bookingId);
      if found.None? {
        return;
      }
      var payment := found.value;
      assert payment.id == FirstFor(payments, bookingId) + 1;
      hide Balanced;
      if payment.status != PaymentStatus.Completed {
        return;
      }
      var remaining: Int64 := payment.amount - payment.refundedAmount;
      if remaining <= 0 {
        return;
      }
      var refunded := CreateRefund(payment.id, Some(RefundRequest(remaining, CANCEL_REASON)), now);
    }

    /** Reads that fail and messages that do not parse are skipped. */
    method ConsumeBookingCreated(incoming: seq<Incoming<CreatedInput>>)
      requires Valid()
      modifies this
      ensures State() == DeliverAll(old(State()), CreatedDeliveries(incoming)) && Valid()
    {
      for n := 0 to |incoming|
        invariant Valid()
        invariant DeliverAll(State(), CreatedDeliveries(incoming[n..]))
                  == DeliverAll(old(State()), CreatedDeliveries(incoming))
      {
        assert incoming[n..][1..] == incoming[n + 1..];
        if incoming[n].Message? {
          var input := incoming[n].m;
          assert CreatedDeliveries(incoming[n..])[1..] == CreatedDeliveries(incoming[n + 1..]);
          OnBookingCreated(input.m, input.unspecified);
        } else {
          assert CreatedDeliveries(incoming[n..]) == CreatedDeliveries(incoming[n + 1..]);
        }
      }
    }

    method ConsumeBookingCancelled(incoming: seq<Incoming<CancelledInput>>)
      requires Valid()
      modifies this
      ensures State() == DeliverAll(old(State()), CancelledDeliveries(incoming)) && Valid()
    {
      for n := 0 to |incoming|
        invariant Valid()
        invariant DeliverAll(State(), CancelledDeliveries(incoming[n..]))
                  == DeliverAll(old(State()), CancelledDeliveries(incoming))
      {
        assert incoming[n..][1..] == incoming[n + 1..];
        if incoming[n].Message? {
          assert CancelledDeliveries(incoming[n..])[1..] == CancelledDeliveries(incoming[n + 1..]);
          OnBookingCancelled(incoming[n].m.bookingId, incoming[n].m.now);
        } else {
          assert CancelledDeliveries(incoming[n..]) == CancelledDeliveries(incoming[n + 1..]);
        }
      }
    }
  }
}
