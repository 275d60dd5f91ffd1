/**
  The payment tables: payments and refunds in order of their identifiers, the two ways to create a
  payment, the row-locked refund transaction, and the balance that every one of them keeps.
 */
module Ledger {
  import opened Common
  import opened Time

  const INT64_MIN: int := -0x8000_0000_0000_0000
  const INT64_MAX: int := 0x7fff_ffff_ffff_ffff

  type Int64 = x: int | INT64_MIN <= x <= INT64_MAX

  /** Two's complement wrap-around. */
  function Wrap64(x: int): Int64 {
    (x - INT64_MIN) % 0x1_0000_0000_0000_0000 + INT64_MIN
  }

  lemma WrapIsExact(x: int)
    requires INT64_MIN <= x <= INT64_MAX
    ensures Wrap64(x) == x
  {
  }

  datatype PaymentStatus = Pending | Completed | Refunded | Failed

  datatype PaymentMethod = Card | Cash | OtherMethod(text: string)

  datatype Payment = Payment(id: nat, bookingId: nat, userId: nat, amount: Int64, currency: string, way: PaymentMethod,
                             status: PaymentStatus, refundedAmount: Int64, paidAt: Option<Instant>,
                               refundedAt: Option<Instant>)

  datatype RefundStatus = RefundPending | RefundCompleted | RefundFailed

  datatype Refund = Refund(id: nat, paymentId: nat, amount: Int64, reason: string, status: RefundStatus)

  /** Identifiers count from 1: payment `id` is at position `id - 1`, and likewise for refunds. */
  datatype Accounts = Accounts(payments: seq<Payment>, refunds: seq<Refund>)

  datatype PaymentRequest = PaymentRequest(bookingId: nat, userId: nat, amount: Int64, currency: string,
                                           way: PaymentMethod)

  datatype RefundRequest = RefundRequest(amount: Int64, reason: string)

  datatype PaymentError = EmptyRequest | InvalidAmount | InvalidMethod | NotFound | NotComplete | RefundExceeds

  /** A payment is stored as completed with the time it was paid, or as pending without. */
  function CreatePaymentStep(a: Accounts, req: Option<PaymentRequest>, status: PaymentStatus, paidAt: Option<Instant>)
    : (Accounts, Result<Payment, PaymentError>)
  {
    match req
    case None => (a, Err(EmptyRequest))
    case Some(r) =>
      if r.amount <= 0 then (a, Err(InvalidAmount))
      else if r.way.OtherMethod? then (a, Err(InvalidMethod))
      else
        var payment := Payment(|a.payments| + 1, r.bookingId, r.userId, r.amount,
                               if r.currency == "" then "RUB" else r.currency,
                               r.way, status, 0, paidAt, None);
        (a.(payments := a.payments + [payment]), Ok(payment))
  }

  /** The refund transaction on the locked row of the payment. */
  function RefundStep(a: Accounts, paymentId: nat, req: Option<RefundRequest>, now: Instant)
    : (Accounts, Result<Refund, PaymentError>)
  {
    match req
    case None => (a, Err(EmptyRequest))
    case Some(r) =>
      if !(1 <= paymentId <= |a.payments|) then (a, Err(NotFound))
      else
        var payment := a.payments[paymentId - 1];
        if payment.status != Completed then (a, Err(NotComplete))
        else if r.amount > Wrap64(payment.amount - payment.refundedAmount) then (a, Err(RefundExceeds))
        else
          var refund := Refund(|a.refunds| + 1, paymentId, r.amount, r.reason, RefundCompleted);
          var total := Wrap64(payment.refundedAmount + r.amount);
          var paid := payment.(refundedAmount := total);
          var payment' := if total >= payment.amount then paid.(status := Refunded, refundedAt := Some(now)) else paid;
          (Accounts(a.payments[paymentId - 1 := payment'], a.refunds + [refund]), Ok(refund))
  }

  // ----- The balance -----

  /** What the refund rows of a payment add up to. */
  function RefundTotal(refunds: seq<Refund>, paymentId: nat): int {
    if refunds == [] then 0
    else
      var last := refunds[|refunds| - 1];
      RefundTotal(refunds[..|refunds| - 1], paymentId) + if last.paymentId == paymentId then last.amount else 0
  }

  ghost predicate PaymentBalanced(p: Payment, total: int) {
    && p.refundedAmount == total && 0 <= total <= p.amount && 0 < p.amount
    && (p.status == Refunded <==> total == p.amount)
    && (p.refundedAt.Some? <==> p.status == Refunded)
    && (p.status == Pending ==> total == 0)
    && (p.paidAt.Some? <==> p.status != Pending)
    && p.status != Failed
  }

  ghost predicate RefundsSound(a: Accounts) {
    forall k :: 0 <= k < |a.refunds| ==>
      && a.refunds[k].id == k + 1 && 1 <= a.refunds[k].paymentId <= |a.payments|
      && a.refunds[k].amount > 0 && a.refunds[k].status == RefundCompleted
  }

  /** Every payment's refunded amount is the sum of its refund rows and never exceeds the payment. */
  ghost predicate Balanced(a: Accounts) {
    && (forall i :: 0 <= i < |a.payments| ==>
          a.payments[i].id == i + 1 && PaymentBalanced(a.payments[i], RefundTotal(a.refunds, i + 1)))
    && RefundsSound(a)
  }

  lemma RefundTotalAppend(refunds: seq<Refund>, r: Refund, paymentId: nat)
    ensures RefundTotal(refunds + [r], paymentId)
            == RefundTotal(refunds, paymentId) + if r.paymentId == paymentId then r.amount else 0
  {
    assert (refunds + [r])[..|refunds|] == refunds;
  }

  /** No refund names a payment that does not exist yet. */
  lemma {:induction false} NoRefundsYet(refunds: seq<Refund>, paymentId: nat)
    requires forall k :: 0 <= k < |refunds| ==> refunds[k].paymentId < paymentId
    ensures RefundTotal(refunds, paymentId) == 0
  {
    if refunds != [] {
      NoRefundsYet(refunds[..|refunds| - 1], paymentId);
    }
  }

  /** On balanced accounts neither the subtraction nor the addition of a refund can overflow. */
  lemma RefundArithmeticIsExact(a: Accounts, paymentId: nat, amount: Int64)
    requires Balanced(a) && 1 <= paymentId <= |a.payments| && 0 < amount
    ensures var p := a.payments[paymentId - 1];
            && Wrap64(p.amount - p.refundedAmount) == p.amount - p.refundedAmount
            && (amount <= p.amount - p.refundedAmount ==>
                Wrap64(p.refundedAmount + amount) == p.refundedAmount + amount)
  {
    assert PaymentBalanced(a.payments[paymentId - 1], RefundTotal(a.refunds, paymentId));
  }

  /** The payment asked for, in roubles unless another currency is given, with nothing refunded. */
  predicate AsRequested(p: Payment, id: nat, r: PaymentRequest, status: PaymentStatus, paidAt: Option<Instant>) {
    && p.id == id && p.bookingId == r.bookingId && p.userId == r.userId && p.amount == r.amount && p.way == r.way
    && (r.currency != "" ==> p.currency == r.currency) && (r.currency == "" ==> p.currency == "RUB")
    && p.status == status && p.refundedAmount == 0 && p.paidAt == paidAt && p.refundedAt == None
  }

  /**
    A payment is created exactly when it is asked for with a positive amount by card or cash: one payment is
    appended under the next identifier. Each other case has its own error and changes nothing.
   */
  lemma CreatePaymentOutcome(a: Accounts, req: Option<PaymentRequest>, status: PaymentStatus, paidAt: Option<Instant>)
    ensures var (a', result) := CreatePaymentStep(a, req, status, paidAt);
            && (result == Err(EmptyRequest) <==> req == None)
            && (result == Err(InvalidAmount) <==> req.Some? && req.value.amount <= 0)
            && (result == Err(InvalidMethod) <==> req.Some? && req.value.amount > 0 && req.value.way !in {Card, Cash})
            && (result.Ok? <==> req.Some? && req.value.amount > 0 && req.value.way in {Card, Cash})
            && (result.Err? ==> a' == a)
            && (result.Ok? ==> a'.payments == a.payments + [result.value] && a'.refunds == a.refunds
                               && AsRequested(result.value, |a.payments| + 1, req.value, status, paidAt))
  {
  }

  lemma CreatePaymentKeepsBalance(a: Accounts, req: Option<PaymentRequest>, status: PaymentStatus,
                                  paidAt: Option<Instant>)
    requires Balanced(a) && (status == Pending || status == Completed) && (paidAt.Some? <==> status == Completed)
    ensures Balanced(CreatePaymentStep(a, req, status, paidAt).0)
  {
    NoRefundsYet(a.refunds, |a.payments| + 1);
  }

  /** The payment is completed and at least the amount is left of it. */
  predicate Refundable(a: Accounts, paymentId: nat, amount: Int64) {
    && 1 <= paymentId <= |a.payments| && a.payments[paymentId - 1].status == Completed
    && amount <= a.payments[paymentId - 1].amount - a.payments[paymentId - 1].refundedAmount
  }

  /** Exactly the amount has moved, on exactly this payment, which is refunded when nothing is left of it. */
  ghost predicate Moved(a: Accounts, a': Accounts, paymentId: nat, amount: Int64, refund: Refund, now: Instant)
    requires 1 <= paymentId <= |a.payments|
  {
    && refund.paymentId == paymentId && refund.amount == amount && a'.refunds == a.refunds + [refund]
    && |a'.payments| == |a.payments|
    && (forall i :: 0 <= i < |a.payments| && i != paymentId - 1 ==> a'.payments[i] == a.payments[i])
    && var p, p' := a.payments[paymentId - 1], a'.payments[paymentId - 1];
    && p'.refundedAmount == p.refundedAmount + amount
    && p'.status == (if p'.refundedAmount == p.amount then Refunded else Completed)
    && p'.refundedAt == (if p'.refundedAmount == p.amount then Some(now) else None)
    && p' == p.(refundedAmount := p'.refundedAmount, status := p'.status, refundedAt := p'.refundedAt)
  }

  /**
    A positive refund succeeds exactly when the payment allows it: its row, with the reason asked for, is
    appended under the next identifier and exactly its amount moves. Each other case has its own error and
    changes nothing.
   */
  lemma RefundOutcome(a: Accounts, paymentId: nat, r: RefundRequest, now: Instant)
    requires Balanced(a) && r.amount > 0
    ensures RefundStep(a, paymentId, None, now) == (a, Err(EmptyRequest))
    ensures var (a', result) := RefundStep(a, paymentId, Some(r), now);
            && (result.Ok? <==> Refundable(a, paymentId, r.amount))
            && (result.Err? ==> a' == a)
            && (result.Ok? ==> Moved(a, a', paymentId, r.amount, result.value, now))
            && Balanced(a')
    ensures var result := RefundStep(a, paymentId, Some(r), now).1;
            && (result.Ok? ==> result.value == Refund(|a.refunds| + 1, paymentId, r.amount, r.reason, RefundCompleted))
            && (result == Err(NotFound) <==> !(1 <= paymentId <= |a.payments|))
            && (result == Err(NotComplete) <==>
                  1 <= paymentId <= |a.payments| && a.payments[paymentId - 1].status != Completed)
            && (result == Err(RefundExceeds) <==>
                  && 1 <= paymentId <= |a.payments| && a.payments[paymentId - 1].status == Completed
                  && r.amount > a.payments[paymentId - 1].amount - a.payments[paymentId - 1].refundedAmount)
  {
    if 1 <= paymentId <= |a.payments| {
      assert PaymentBalanced(a.payments[paymentId - 1], RefundTotal(a.refunds, paymentId));
      RefundArithmeticIsExact(a, paymentId, r.amount);
      var (a', result) := RefundStep(a, paymentId, Some(r), now);
      if result.Ok? {
        MoveKeepsBalance(a, a', paymentId, r.amount, result.value, now);
      }
    }
  }

  lemma MoveKeepsBalance(a: Accounts, a': Accounts, paymentId: nat, amount: Int64, refund: Refund, now: Instant)
    requires Balanced(a) && amount > 0 && Refundable(a, paymentId, amount)
    requires Moved(a, a', paymentId, amount, refund, now) && refund.id == |a.refunds| + 1
             && refund.status == RefundCompleted
    ensures Balanced(a')
  {
    forall i | 0 <= i < |a'.payments|
      ensures a'.payments[i].id == i + 1 && PaymentBalanced(a'.payments[i], RefundTotal(a'.refunds, i + 1))
    {
      RefundTotalAppend(a.refunds, refund, i + 1);
      assert PaymentBalanced(a.payments[i], RefundTotal(a.refunds, i + 1));
    }
  }

  /** Position of the first payment of a booking, or the number of payments when it has none. */
  function FirstFor(payments: seq<Payment>, bookingId: nat): (i: nat)
    ensures i <= |payments|
    ensures i < |payments| ==> payments[i].bookingId == bookingId
    ensures forall j :: 0 <= j < i ==> payments[j].bookingId != bookingId
  {
    if payments == [] then 0
    else if payments[0].bookingId == bookingId then 0
    else 1 + FirstFor(payments[1..], bookingId)
  }

  // ----- Money over all payments -----

  function AllRefunds(refunds: seq<Refund>): int {
    if refunds == [] then 0 else AllRefunds(refunds[..|refunds| - 1]) + refunds[|refunds| - 1].amount
  }

  function AllRefunded(payments: seq<Payment>): int {
    if payments == [] then 0 else AllRefunded(payments[..|payments| - 1]) + payments[|payments| - 1].refundedAmount
  }

  /** Refund totals of the payments 1 to `n`. */
  function TotalsUpTo(refunds: seq<Refund>, n: nat): int {
    if n == 0 then 0 else TotalsUpTo(refunds, n - 1) + RefundTotal(refunds, n)
  }

  lemma {:induction false} TotalsOfNone(n: nat)
    ensures TotalsUpTo([], n) == 0
  {
    if n > 0 {
      TotalsOfNone(n - 1);
    }
  }

  lemma {:induction false} TotalsAppend(refunds: seq<Refund>, r: Refund, n: nat)
    ensures TotalsUpTo(refunds + [r], n) == TotalsUpTo(refunds, n) + if 1 <= r.paymentId <= n then r.amount else 0
  {
    if n > 0 {
      TotalsAppend(refunds, r, n - 1);
      RefundTotalAppend(refunds, r, n);
    }
  }

  lemma {:induction false} TotalsAreAllRefunds(refunds: seq<Refund>, n: nat)
    requires forall k :: 0 <= k < |refunds| ==> 1 <= refunds[k].paymentId <= n
    ensures TotalsUpTo(refunds, n) == AllRefunds(refunds)
  {
    if refunds == [] {
      TotalsOfNone(n);
    } else {
      var m := |refunds| - 1;
      TotalsAreAllRefunds(refunds[..m], n);
      assert refunds == refunds[..m] + [refunds[m]];
      TotalsAppend(refunds[..m], refunds[m], n);
    }
  }

  lemma {:induction false} RefundedIsTotals(a: Accounts, n: nat)
    requires Balanced(a) && n <= |a.payments|
    ensures AllRefunded(a.payments[..n]) == TotalsUpTo(a.refunds, n)
  {
    if n > 0 {
      RefundedIsTotals(a, n - 1);
      assert a.payments[..n][..n - 1] == a.payments[..n - 1];
      assert PaymentBalanced(a.payments[n - 1], RefundTotal(a.refunds, n));
    }
  }

  /**
    All refund rows together are exactly what all payments say has been
    refunded: no refund is lost or counted twice.
   */
  lemma MoneyIsConserved(a: Accounts)
    requires Balanced(a)
    ensures AllRefunded(a.payments) == AllRefunds(a.refunds)
  {
    RefundedIsTotals(a, |a.payments|);
    assert a.payments[..|a.payments|] == a.payments;
    TotalsAreAllRefunds(a.refunds, |a.payments|);
  }
}
