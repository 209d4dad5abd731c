/** The escrow order lifecycle: a seller creates an order, the buyer uploads a proof of transfer,
    an admin verifies it, the goods are delivered or confirmed received, and the funds are released
    to the seller. Cancellation is immediate before any proof exists and goes through an admin
    review afterwards. The five tables are maps from row ids to rows; each route handler is one
    atomic step that answers with an HTTP status code. */
module Escrow {
  import opened Base
  import opened Strings

  /** A row id handed out by the database. Ids start at 1, so a stored id is never falsy. */
  type Id = x: nat | x >= 1 witness 1

  /** The id of a signed-in user. */
  type UserId = x: nat | x >= 1 witness 1

  datatype OrderStatus =
    | AwaitingPayment | Paid | Processing | Shipped | Delivered | Completed | Cancelled
    | Verification

  /** The status name stored in the `orders` table. */
  function StatusName(s: OrderStatus): string
  {
    match s
    case AwaitingPayment => "awaiting_payment"
    case Paid => "paid"
    case Processing => "processing"
    case Shipped => "shipped"
    case Delivered => "delivered"
    case Completed => "completed"
    case Cancelled => "cancelled"
    case Verification => "verification"
  }

  /** The `validStatuses` list of `PATCH /orders/:id/status`: every status but `verification`. */
  function ParseStatus(name: string): (s: Option<OrderStatus>)
    ensures s.Some? ==> StatusName(s.value) == name && s.value != Verification
  {
    if name == "awaiting_payment" then Some(AwaitingPayment)
    else if name == "paid" then Some(Paid)
    else if name == "processing" then Some(Processing)
    else if name == "shipped" then Some(Shipped)
    else if name == "delivered" then Some(Delivered)
    else if name == "completed" then Some(Completed)
    else if name == "cancelled" then Some(Cancelled)
    else None
  }

  /** Exactly the seven names other than `verification` can be set by hand. */
  lemma ParseStatusNames(s: OrderStatus)
    ensures ParseStatus(StatusName(s)) == (if s == Verification then None else Some(s))
  {
  }

  datatype PaymentStatus = PaymentPending | AwaitingVerification | PaymentPaid | PaymentRejected

  /** The review state shared by payment proofs and cancellation requests. */
  datatype Review = Pending | Approved | Rejected

  datatype ReleaseStatus = ReleasePending | ReleaseCompleted

  datatype Order = Order(
    sellerId: UserId, buyerId: Option<UserId>, orderNumber: string, title: string,
    description: string, productPrice: int, platformFee: int, totalAmount: int,
    status: OrderStatus, bankAccountId: Option<Id>,
    cancelledAt: Option<nat>, cancellationReason: Option<string>, cancelledBy: Option<UserId>,
    deliveredAt: Option<nat>)

  datatype Payment = Payment(orderId: Id, bankAccountId: Option<Id>, amount: int, status: PaymentStatus)

  datatype Proof = Proof(
    paymentId: Id, orderId: Id, amount: Option<int>, proofUrl: Option<string>, note: string,
    status: Review)

  datatype CancelRequest = CancelRequest(
    orderId: Id, requestedBy: UserId, reason: string, status: Review,
    reviewedBy: Option<UserId>, reviewedAt: Option<nat>, adminNotes: Option<string>)

  datatype FundRelease = FundRelease(
    orderId: Id, sellerId: UserId, amount: int, status: ReleaseStatus,
    transferredAt: Option<nat>, transferredBy: Option<UserId>,
    transferProof: Option<string>, transferNote: Option<string>)

  /** `MIN_PRODUCT_PRICE`, in rupiah. */
  const MinProductPrice := 10000

  /** The amounts of `POST /orders`: with `product_price`, `platform_fee` and `total_amount` all
      present they are taken as given; with only `total_amount` the fee is the legacy 2.5%
      (supplied here as `legacyFee`) and the price is what is left. */
  function OrderAmounts(productPrice: Option<int>, platformFee: Option<int>, totalAmount: Option<int>,
                        legacyFee: int): (r: Option<(int, int, int)>)
    ensures r.None? <==> totalAmount.None?
    ensures r.Some? && productPrice.Some? && platformFee.Some? ==>
      r.value == (productPrice.value, platformFee.value, totalAmount.value)
    ensures r.Some? && (productPrice.None? || platformFee.None?) ==>
      r.value.2 == totalAmount.value && r.value.1 == legacyFee && r.value.0 + r.value.1 == r.value.2
  {
    if productPrice.Some? && platformFee.Some? && totalAmount.Some? then
      Some((productPrice.value, platformFee.value, totalAmount.value))
    else if totalAmount.Some? then
      Some((totalAmount.value - legacyFee, legacyFee, totalAmount.value))
    else None
  }

  /** `!reason || reason.trim().length < 10` rejects the reason: white space around it does not
      count towards the ten characters. */
  function ReasonAccepted(reason: Option<string>): (ok: bool)
    ensures ok ==> reason.Some? && |reason.value| >= 10
    ensures reason.Some? && (forall k :: 0 <= k < |reason.value| ==> IsJsWhitespace(reason.value[k])) ==> !ok
    ensures (reason.Some? && |reason.value| >= 10 && !IsJsWhitespace(reason.value[0])
             && !IsJsWhitespace(reason.value[|reason.value| - 1])) ==> ok
  {
    reason.Some? && |Trim(reason.value)| >= 10
  }

  /** The `action` field of an admin decision: `approve` or `reject`. */
  function ParseAction(action: Option<string>): (approve: Option<bool>)
    ensures approve.Some? <==> action == Some("approve") || action == Some("reject")
    ensures approve == Some(true) <==> action == Some("approve")
  {
    if action == Some("approve") then Some(true)
    else if action == Some("reject") then Some(false)
    else None
  }

  /** `x || null` for an optional string: both a missing and an empty string become `null`. */
  function OrNull(s: Option<string>): (r: Option<string>)
    ensures r.Some? <==> s.Some? && s.value != ""
    ensures r.Some? ==> r == s
  {
    if s.Some? && s.value != "" then s else None
  }

  /** An id taken from a request body and tested with `!id` or `id || null`: a missing id and the
      id 0 both count as absent. */
  function GivenId(id: Option<nat>): (r: Option<Id>)
    ensures r.Some? <==> id.Some? && id.value != 0
    ensures r.Some? ==> r.value == id.value
  {
    if id.Some? && id.value != 0 then Some(id.value) else None
  }

  /** Every row id of the table was handed out before `next`. */
  ghost predicate IdsBelow<T>(table: map<Id, T>, next: Id)
  {
    forall id :: id in table ==> id < next
  }

  /** Every payment belongs to an existing order and is for that order's total. */
  ghost predicate PaymentsBelong(orders: map<Id, Order>, payments: map<Id, Payment>)
  {
    forall id :: id in payments ==>
      payments[id].orderId in orders && payments[id].amount == orders[payments[id].orderId].totalAmount
  }

  /** Every cancellation request belongs to an existing order and was filed by its seller. */
  ghost predicate RequestsBelong(orders: map<Id, Order>, requests: map<Id, CancelRequest>)
  {
    forall id :: id in requests ==>
      requests[id].orderId in orders && requests[id].requestedBy == orders[requests[id].orderId].sellerId
  }

  /** Every fund release belongs to an existing order and pays that order's total to its seller. */
  ghost predicate ReleasesBelong(orders: map<Id, Order>, releases: map<Id, FundRelease>)
  {
    forall id :: id in releases ==>
      releases[id].orderId in orders
      && releases[id].sellerId == orders[releases[id].orderId].sellerId
      && releases[id].amount == orders[releases[id].orderId].totalAmount
  }

  class Store {
    var orders: map<Id, Order>
    var payments: map<Id, Payment>
    var proofs: map<Id, Proof>
    var requests: map<Id, CancelRequest>
    var releases: map<Id, FundRelease>
    /** The next row id handed out; the database's own id generator. */
    var nextId: Id

    /** Every row id was handed out, every payment, cancellation request and fund release belongs
        to an existing order, requests come from the order's seller, and payments and releases
        carry the order's total and (for releases) its seller. */
    ghost predicate Valid()
      reads this
    {
      IdsBelow(orders, nextId) && IdsBelow(payments, nextId) && IdsBelow(proofs, nextId)
      && IdsBelow(requests, nextId) && IdsBelow(releases, nextId)
      && PaymentsBelong(orders, payments) && RequestsBelong(orders, requests) && ReleasesBelong(orders, releases)
    }

    /** Some payment proof names the order. */
    predicate HasProof(orderId: Id)
      reads this
    {
      exists id :: id in proofs && proofs[id].orderId == orderId
    }

    constructor ()
      ensures Valid()
      ensures orders == map[] && payments == map[] && proofs == map[] && requests == map[] && releases == map[]
      ensures nextId == 1
    {
      orders, payments, proofs, requests, releases := map[], map[], map[], map[], map[];
      nextId := 1;
    }

    // ---- single-row writes, each keeping `Valid()`

    method ReplaceOrder(id: Id, order: Order)
      requires Valid() && id in orders
      requires order.sellerId == orders[id].sellerId && order.totalAmount == orders[id].totalAmount
      modifies this
      ensures Valid()
      ensures orders == old(orders)[id := order]
      ensures payments == old(payments) && proofs == old(proofs) && requests == old(requests)
      ensures releases == old(releases) && nextId == old(nextId)
    {
      orders := orders[id := order];
    }

    method ReplacePayment(id: Id, payment: Payment)
      requires Valid() && id in payments
      requires payment.orderId == payments[id].orderId && payment.amount == payments[id].amount
      modifies this
      ensures Valid()
      ensures payments == old(payments)[id := payment]
      ensures orders == old(orders) && proofs == old(proofs) && requests == old(requests)
      ensures releases == old(releases) && nextId == old(nextId)
    {
      payments := payments[id := payment];
    }

    method ReplaceProof(id: Id, proof: Proof)
      requires Valid() && id in proofs
      modifies this
      ensures Valid()
      ensures proofs == old(proofs)[id := proof]
      ensures orders == old(orders) && payments == old(payments) && requests == old(requests)
      ensures releases == old(releases) && nextId == old(nextId)
    {
      proofs := proofs[id := proof];
    }

    method ReplaceRequest(id: Id, request: CancelRequest)
      requires Valid() && id in requests
      requires request.orderId == requests[id].orderId && request.requestedBy == requests[id].requestedBy
      modifies this
      ensures Valid()
      ensures requests == old(requests)[id := request]
      ensures orders == old(orders) && payments == old(payments) && proofs == old(proofs)
      ensures releases == old(releases) && nextId == old(nextId)
    {
      requests := requests[id := request];
    }

    method ReplaceRelease(id: Id, release: FundRelease)
      requires Valid() && id in releases
      requires release.orderId == releases[id].orderId && release.sellerId == releases[id].sellerId
      requires release.amount == releases[id].amount
      modifies this
      ensures Valid()
      ensures releases == old(releases)[id := release]
      ensures orders == old(orders) && payments == old(payments) && proofs == old(proofs)
      ensures requests == old(requests) && nextId == old(nextId)
    {
      releases := releases[id := release];
    }

    /** A new order and its payment, under the next two ids. */
    method AddOrder(order: Order, payment: Payment) returns (id: Id)
      requires Valid() && payment.orderId == nextId && payment.amount == order.totalAmount
      modifies this
      ensures Valid()
      ensures id == old(nextId) && nextId == old(nextId) + 2
      ensures orders == old(orders)[id := order] && payments == old(payments)[id + 1 := payment]
      ensures proofs == old(proofs) && requests == old(requests) && releases == old(releases)
    {
      id := nextId;
      orders := orders[id := order];
      payments := payments[id + 1 := payment];
      nextId := nextId + 2;
    }

    method AddProof(proof: Proof) returns (id: Id)
      requires Valid()
      modifies this
      ensures Valid()
      ensures id == old(nextId) && nextId == old(nextId) + 1
      ensures proofs == old(proofs)[id := proof]
      ensures orders == old(orders) && payments == old(payments) && requests == old(requests)
      ensures releases == old(releases)
    {
      id := nextId;
      proofs := proofs[id := proof];
      nextId := nextId + 1;
    }

    method AddRequest(request: CancelRequest) returns (id: Id)
      requires Valid() && request.orderId in orders && request.requestedBy == orders[request.orderId].sellerId
      modifies this
      ensures Valid()
      ensures id == old(nextId) && nextId == old(nextId) + 1
      ensures requests == old(requests)[id := request]
      ensures orders == old(orders) && payments == old(payments) && proofs == old(proofs)
      ensures releases == old(releases)
    {
      id := nextId;
      requests := requests[id := request];
      nextId := nextId + 1;
    }

    method AddRelease(release: FundRelease) returns (id: Id)
      requires Valid() && release.orderId in orders
      requires release.sellerId == orders[release.orderId].sellerId
      requires release.amount == orders[release.orderId].totalAmount
      modifies this
      ensures Valid()
      ensures id == old(nextId) && nextId == old(nextId) + 1
      ensures releases == old(releases)[id := release]
      ensures orders == old(orders) && payments == old(payments) && proofs == old(proofs)
      ensures requests == old(requests)
    {
      id := nextId;
      releases := releases[id := release];
      nextId := nextId + 1;
    }

    /** `POST /orders`. `recentOrder` says whether the seller created an order less than two
        minutes ago. On success one order in `awaiting_payment` and one `pending` payment for its
        total are added. */
    method CreateOrder(caller: UserId, title: Option<string>, description: Option<string>,
                       productPrice: Option<int>, platformFee: Option<int>, totalAmount: Option<int>,
                       legacyFee: int, bankAccountId: Option<nat>, recentOrder: bool, orderNumber: string)
      returns (code: nat, orderId: Option<Id>)
      requires Valid()
      modifies this
      ensures Valid()
      ensures code != 201 ==> unchanged(this) && orderId.None?
      ensures title.None? || title.value == "" ==> code == 400
      ensures title.Some? && title.value != "" && totalAmount.None? ==> code == 400
      ensures title.Some? && title.value != "" && totalAmount.Some? ==>
        var amounts := OrderAmounts(productPrice, platformFee, totalAmount, legacyFee).value;
        (amounts.0 < MinProductPrice ==> code == 400)
        && (amounts.0 >= MinProductPrice && recentOrder ==> code == 429)
        && (amounts.0 >= MinProductPrice && !recentOrder ==>
              code == 201 && orderId == Some(old(nextId)) && nextId == old(nextId) + 2
              && orders == old(orders)[old(nextId) := Order(
                   caller, None, orderNumber, title.value,
                   if description.Some? then description.value else "",
                   amounts.0, amounts.1, amounts.2, AwaitingPayment, GivenId(bankAccountId),
                   None, None, None, None)]
              && payments == old(payments)[old(nextId) + 1 := Payment(old(nextId), GivenId(bankAccountId), amounts.2, PaymentPending)]
              && proofs == old(proofs) && requests == old(requests) && releases == old(releases))
    {
      orderId := None;
      if title.None? || title.value == "" {
        return 400, None;
      }
      var amounts := OrderAmounts(productPrice, platformFee, totalAmount, legacyFee);
      if amounts.None? {
        return 400, None;
      }
      var (price, fee, total) := amounts.value;
      if price < MinProductPrice {
        return 400, None;
      }
      if recentOrder {
        return 429, None;
      }
      var order := Order(caller, None, orderNumber, title.value,
                         if description.Some? then description.value else "",
                         price, fee, total, AwaitingPayment, GivenId(bankAccountId), None, None, None, None);
      var id := AddOrder(order, Payment(nextId, GivenId(bankAccountId), total, PaymentPending));
      return 201, Some(id);
    }

    /** `PATCH /orders/:id/status`: any of the seven listed statuses, from any status, with no
        further check. A missing order makes `.single()` fail. */
    method SetStatus(orderId: Id, status: string) returns (code: nat)
      requires Valid()
      modifies this
      ensures Valid()
      ensures ParseStatus(status).None? ==> code == 400 && unchanged(this)
      ensures ParseStatus(status).Some? && orderId !in old(orders) ==> code == 500 && unchanged(this)
      ensures ParseStatus(status).Some? && orderId in old(orders) ==>
        code == 200
        && orders == old(orders)[orderId := old(orders)[orderId].(status := ParseStatus(status).value)]
        && payments == old(payments) && proofs == old(proofs) && requests == old(requests)
        && releases == old(releases) && nextId == old(nextId)
    {
      var s := ParseStatus(status);
      if s.None? {
        return 400;
      }
      if orderId !in orders {
        return 500;
      }
      ReplaceOrder(orderId, orders[orderId].(status := s.value));
      return 200;
    }

    /** `POST /orders/:id/cancel` by the seller. Without a payment proof the order is cancelled at
        once; with one, a `pending` cancellation request is filed and the order is left alone.
        Nothing checks for a request already pending. */
    method Cancel(orderId: Id, caller: UserId, reason: Option<string>, now: nat)
      returns (code: nat, cancelledImmediately: Option<bool>)
      requires Valid()
      modifies this
      ensures Valid()
      ensures code != 200 ==> unchanged(this) && cancelledImmediately.None?
      ensures !ReasonAccepted(reason) ==> code == 400
      ensures ReasonAccepted(reason) && orderId !in old(orders) ==> code == 404
      ensures ReasonAccepted(reason) && orderId in old(orders) ==>
        var o := old(orders)[orderId];
        (o.sellerId != caller ==> code == 403)
        && (o.sellerId == caller && (o.cancelledAt.Some? || o.status == Completed || o.status == Delivered) ==> code == 400)
        && (o.sellerId == caller && o.cancelledAt.None? && o.status != Completed && o.status != Delivered ==>
              code == 200
              && (old(HasProof(orderId)) ==>
                    cancelledImmediately == Some(false)
                    && requests == old(requests)[old(nextId) := CancelRequest(orderId, caller, reason.value, Pending, None, None, None)]
                    && nextId == old(nextId) + 1
                    && orders == old(orders))
              && (!old(HasProof(orderId)) ==>
                    cancelledImmediately == Some(true)
                    && orders == old(orders)[orderId := o.(status := Cancelled, cancelledAt := Some(now),
                                                            cancellationReason := reason, cancelledBy := Some(caller))]
                    && requests == old(requests) && nextId == old(nextId))
              && payments == old(payments) && proofs == old(proofs) && releases == old(releases))
    {
      if !ReasonAccepted(reason) {
        return 400, None;
      }
      if orderId !in orders {
        return 404, None;
      }
      var o := orders[orderId];
      if o.sellerId != caller {
        return 403, None;
      }
      if o.cancelledAt.Some? {
        return 400, None;
      }
      if o.status == Completed || o.status == Delivered {
        return 400, None;
      }
      if !HasProof(orderId) {
        ReplaceOrder(orderId, o.(status := Cancelled, cancelledAt := Some(now),
                                 cancellationReason := reason, cancelledBy := Some(caller)));
        return 200, Some(true);
      }
      var _ := AddRequest(CancelRequest(orderId, caller, reason.value, Pending, None, None, None));
      return 200, Some(false);
    }

    /** `POST /orders/:id/confirm-received` by the buyer: the order becomes `completed` and one
        `pending` fund release for its total is created for its seller. */
    method ConfirmReceived(orderId: Id, caller: UserId) returns (code: nat)
      requires Valid()
      modifies this
      ensures Valid()
      ensures code != 200 ==> unchanged(this)
      ensures orderId !in old(orders) ==> code == 404
      ensures orderId in old(orders) ==>
        var o := old(orders)[orderId];
        (o.buyerId != Some(caller) ==> code == 403)
        && (o.buyerId == Some(caller) && o.status !in {Paid, Shipped, Delivered} ==> code == 400)
        && (o.buyerId == Some(caller) && o.status in {Paid, Shipped, Delivered} ==>
              code == 200
              && orders == old(orders)[orderId := o.(status := Completed)]
              && releases == old(releases)[old(nextId) := FundRelease(orderId, o.sellerId, o.totalAmount, ReleasePending, None, None, None, None)]
              && nextId == old(nextId) + 1
              && payments == old(payments) && proofs == old(proofs) && requests == old(requests))
    {
      if orderId !in orders {
        return 404;
      }
      var o := orders[orderId];
      if o.buyerId != Some(caller) {
        return 403;
      }
      if o.status !in {Paid, Shipped, Delivered} {
        return 400;
      }
      ReplaceOrder(orderId, o.(status := Completed));
      var _ := AddRelease(FundRelease(orderId, o.sellerId, o.totalAmount, ReleasePending, None, None, None, None));
      return 200;
    }

    /** `POST /payment-proofs`, open to guests. The proof is stored `pending`; the order, whatever
        its status, goes to `verification` and takes the caller as buyer when there is one; the
        payment goes to `awaiting_verification`. Updates of rows that do not exist change nothing. */
    method SubmitProof(caller: Option<UserId>, paymentId: Option<nat>, orderId: Option<nat>,
                       amount: Option<int>, proofUrl: Option<string>, note: Option<string>)
      returns (code: nat, proofId: Option<Id>)
      requires Valid()
      modifies this
      ensures Valid()
      ensures GivenId(paymentId).None? || GivenId(orderId).None? ==> code == 400 && unchanged(this) && proofId.None?
      ensures GivenId(paymentId).Some? && GivenId(orderId).Some? ==>
        code == 201 && proofId == Some(old(nextId)) && nextId == old(nextId) + 1
        && proofs == old(proofs)[old(nextId) := Proof(GivenId(paymentId).value, GivenId(orderId).value,
                                                      if amount == Some(0) then None else amount,
                                                      OrNull(proofUrl),
                                                      if note.Some? then note.value else "", Pending)]
        && (GivenId(orderId).value in old(orders) ==>
              var o := old(orders)[GivenId(orderId).value];
              orders == old(orders)[GivenId(orderId).value := o.(status := Verification,
                                                        buyerId := if caller.Some? then caller else o.buyerId)])
        && (GivenId(orderId).value !in old(orders) ==> orders == old(orders))
        && (GivenId(paymentId).value in old(payments) ==>
              payments == old(payments)[GivenId(paymentId).value := old(payments)[GivenId(paymentId).value].(status := AwaitingVerification)])
        && (GivenId(paymentId).value !in old(payments) ==> payments == old(payments))
        && requests == old(requests) && releases == old(releases)
    {
      if GivenId(paymentId).None? || GivenId(orderId).None? {
        return 400, None;
      }
      var id := AddProof(Proof(GivenId(paymentId).value, GivenId(orderId).value,
                               if amount == Some(0) then None else amount,
                               OrNull(proofUrl),
                               if note.Some? then note.value else "", Pending));
      if GivenId(orderId).value in orders {
        var o := orders[GivenId(orderId).value];
        ReplaceOrder(GivenId(orderId).value, o.(status := Verification,
                                       buyerId := if caller.Some? then caller else o.buyerId));
      }
      if GivenId(paymentId).value in payments {
        ReplacePayment(GivenId(paymentId).value, payments[GivenId(paymentId).value].(status := AwaitingVerification));
      }
      return 201, Some(id);
    }

    /** `PATCH /admin/payment-proofs/:id`. Approving makes the proof `approved`, its order `paid`
        and its payment `paid`; rejecting makes the proof `rejected`, the order `awaiting_payment`
        and the payment `rejected`. The proof's own status is not checked. */
    method DecideProof(proofId: Id, action: Option<string>) returns (code: nat)
      requires Valid()
      modifies this
      ensures Valid()
      ensures code != 200 ==> unchanged(this)
      ensures ParseAction(action).None? ==> code == 400
      ensures ParseAction(action).Some? && proofId !in old(proofs) ==> code == 404
      ensures ParseAction(action).Some? && proofId in old(proofs) ==>
        var approve, p := ParseAction(action).value, old(proofs)[proofId];
        code == 200
        && proofs == old(proofs)[proofId := p.(status := if approve then Approved else Rejected)]
        && (p.orderId in old(orders) ==>
              orders == old(orders)[p.orderId := old(orders)[p.orderId].(status := if approve then Paid else AwaitingPayment)])
        && (p.orderId !in old(orders) ==> orders == old(orders))
        && (p.paymentId in old(payments) ==>
              payments == old(payments)[p.paymentId := old(payments)[p.paymentId].(status := if approve then PaymentPaid else PaymentRejected)])
        && (p.paymentId !in old(payments) ==> payments == old(payments))
        && requests == old(requests) && releases == old(releases) && nextId == old(nextId)
    {
      var approve := ParseAction(action);
      if approve.None? {
        return 400;
      }
      if proofId !in proofs {
        return 404;
      }
      var p := proofs[proofId];
      ReplaceProof(proofId, p.(status := if approve.value then Approved else Rejected));
      if p.orderId in orders {
        ReplaceOrder(p.orderId, orders[p.orderId].(status := if approve.value then Paid else AwaitingPayment));
      }
      if p.paymentId in payments {
        ReplacePayment(p.paymentId, payments[p.paymentId].(status := if approve.value then PaymentPaid else PaymentRejected));
      }
      return 200;
    }

    /** `PATCH /admin/cancellation-requests/:id`, only for a `pending` request. Approving also
        cancels the order with the request's reason and requester; rejecting changes the request
        alone. */
    method DecideCancellation(requestId: Id, admin: UserId, action: Option<string>,
                              adminNotes: Option<string>, now: nat)
      returns (code: nat, orderCancelled: Option<bool>)
      requires Valid()
      modifies this
      ensures Valid()
      ensures code != 200 ==> unchanged(this) && orderCancelled.None?
      ensures ParseAction(action).None? ==> code == 400
      ensures ParseAction(action).Some? && requestId !in old(requests) ==> code == 404
      ensures ParseAction(action).Some? && requestId in old(requests) && old(requests)[requestId].status != Pending ==> code == 400
      ensures ParseAction(action).Some? && requestId in old(requests) && old(requests)[requestId].status == Pending ==>
        var approve, r := ParseAction(action).value, old(requests)[requestId];
        code == 200 && orderCancelled == Some(approve)
        && requests == old(requests)[requestId := r.(status := if approve then Approved else Rejected,
                                                     reviewedBy := Some(admin), reviewedAt := Some(now),
                                                     adminNotes := OrNull(adminNotes))]
        && (approve ==>
              orders == old(orders)[r.orderId := old(orders)[r.orderId].(
                          status := Cancelled, cancelledAt := Some(now),
                          cancellationReason := Some(r.reason), cancelledBy := Some(r.requestedBy))])
        && (!approve ==> orders == old(orders))
        && payments == old(payments) && proofs == old(proofs) && releases == old(releases)
        && nextId == old(nextId)
    {
      var approve := ParseAction(action);
      if approve.None? {
        return 400, None;
      }
      if requestId !in requests {
        return 404, None;
      }
      var r := requests[requestId];
      if r.status != Pending {
        return 400, None;
      }
      ReplaceRequest(requestId, r.(status := if approve.value then Approved else Rejected,
                                   reviewedBy := Some(admin), reviewedAt := Some(now),
                                   adminNotes := OrNull(adminNotes)));
      if approve.value {
        ReplaceOrder(r.orderId, orders[r.orderId].(
                       status := Cancelled, cancelledAt := Some(now),
                       cancellationReason := Some(r.reason), cancelledBy := Some(r.requestedBy)));
      }
      return 200, Some(approve.value);
    }

    /** `PATCH /admin/orders/:id/deliver`: a `paid` or `shipped` order becomes `delivered` and one
        `pending` fund release for its total is created for its seller. */
    method Deliver(orderId: Id, now: nat) returns (code: nat)
      requires Valid()
      modifies this
      ensures Valid()
      ensures code != 200 ==> unchanged(this)
      ensures orderId !in old(orders) ==> code == 404
      ensures orderId in old(orders) ==>
        var o := old(orders)[orderId];
        (o.status != Paid && o.status != Shipped ==> code == 400)
        && (o.status == Paid || o.status == Shipped ==>
              code == 200
              && orders == old(orders)[orderId := o.(status := Delivered, deliveredAt := Some(now))]
              && releases == old(releases)[old(nextId) := FundRelease(orderId, o.sellerId, o.totalAmount, ReleasePending, None, None, None, None)]
              && nextId == old(nextId) + 1
              && payments == old(payments) && proofs == old(proofs) && requests == old(requests))
    {
      if orderId !in orders {
        return 404;
      }
      var o := orders[orderId];
      if o.status != Paid && o.status != Shipped {
        return 400;
      }
      ReplaceOrder(orderId, o.(status := Delivered, deliveredAt := Some(now)));
      var _ := AddRelease(FundRelease(orderId, o.sellerId, o.totalAmount, ReleasePending, None, None, None, None));
      return 200;
    }

    /** `PATCH /admin/fund-releases/:id`: the release becomes `completed` and its order `completed`,
        whatever state either was in before. A missing release makes `.single()` fail. A transfer
        proof or note absent from the body (`None`) is `undefined`, which the update leaves out, so
        the column keeps its value. */
    method CompleteRelease(releaseId: Id, admin: UserId, transferProof: Option<string>,
                           transferNote: Option<string>, now: nat)
      returns (code: nat)
      requires Valid()
      modifies this
      ensures Valid()
      ensures releaseId !in old(releases) ==> code == 500 && unchanged(this)
      ensures releaseId in old(releases) ==>
        var f := old(releases)[releaseId];
        code == 200
        && releases == old(releases)[releaseId := f.(status := ReleaseCompleted, transferredAt := Some(now),
                                                     transferredBy := Some(admin),
                                                     transferProof := if transferProof.Some? then transferProof else f.transferProof,
                                                     transferNote := if transferNote.Some? then transferNote else f.transferNote)]
        && orders == old(orders)[f.orderId := old(orders)[f.orderId].(status := Completed)]
        && payments == old(payments) && proofs == old(proofs) && requests == old(requests)
        && nextId == old(nextId)
    {
      if releaseId !in releases {
        return 500;
      }
      var f := releases[releaseId];
      ReplaceRelease(releaseId, f.(status := ReleaseCompleted, transferredAt := Some(now),
                                   transferredBy := Some(admin),
                                   transferProof := if transferProof.Some? then transferProof else f.transferProof,
                                   transferNote := if transferNote.Some? then transferNote else f.transferNote));
      // `if (data.order_id)` always holds: the release's order id is a row id, never 0.
      ReplaceOrder(f.orderId, orders[f.orderId].(status := Completed));
      return 200;
    }
  }

  /** A new store holding one order of Rp 50.000 plus a Rp 1.250 fee, with its payment. */
  method NewOrder(seller: UserId) returns (store: Store)
    ensures fresh(store) && store.Valid()
    ensures 1 in store.orders && store.orders[1].status == AwaitingPayment && store.orders[1].cancelledAt.None?
    ensures store.orders[1].sellerId == seller && store.orders[1].totalAmount == 51250
    ensures 2 in store.payments && store.proofs == map[]
  {
    store := new Store();
    var code, orderId := store.CreateOrder(seller, Some("Sepatu"), None, Some(50000), Some(1250), Some(51250),
                                           0, None, false, "ORD-20250305-00042");
    assert code == 201 && orderId == Some(1);
  }

  /** ... whose proof, uploaded by `buyer`, the admin has approved. */
  method PaidOrder(seller: UserId, buyer: UserId) returns (store: Store)
    ensures fresh(store) && store.Valid()
    ensures 1 in store.orders && store.orders[1].status == Paid && store.orders[1].buyerId == Some(buyer)
    ensures store.orders[1].sellerId == seller && store.orders[1].totalAmount == 51250
  {
    store := NewOrder(seller);
    var proofCode, proofId := store.SubmitProof(Some(buyer), Some(2), Some(1), Some(51250), None, None);
    assert proofCode == 201 && proofId.Some? && proofId.value in store.proofs;
    var decided := store.DecideProof(proofId.value, Some("approve"));
  }

  /** A paid order delivered by the admin and then confirmed by the buyer. Confirmation accepts a
      `delivered` order, so the order ends `completed` with two pending fund releases for its
      total. */
  method DeliverThenConfirm(seller: UserId, buyer: UserId)
    returns (firstId: Id, secondId: Id, first: FundRelease, second: FundRelease, status: OrderStatus)
    ensures firstId != secondId && first == second
    ensures first == FundRelease(1, seller, 51250, ReleasePending, None, None, None, None)
    ensures status == Completed
  {
    var store := PaidOrder(seller, buyer);
    firstId := store.nextId;
    var delivered := store.Deliver(1, 1);
    assert delivered == 200 && store.orders[1].status == Delivered;
    secondId := store.nextId;
    var confirmed := store.ConfirmReceived(1, buyer);
    assert confirmed == 200;
    first, second := store.releases[firstId], store.releases[secondId];
    status := store.orders[1].status;
  }

  /** A seller cancels an unpaid order at once; a proof uploaded afterwards still moves the
      cancelled order to `verification`, since proof submission checks no status. */
  method CancelThenSubmitProof(seller: UserId, buyer: UserId)
    returns (status: OrderStatus, cancelledAt: Option<nat>, buyerId: Option<UserId>)
    ensures status == Verification && cancelledAt == Some(7) && buyerId == Some(buyer)
  {
    var store := NewOrder(seller);
    var reason := ExampleReason();
    var cancelCode, immediately := store.Cancel(1, seller, Some(reason), 7);
    assert cancelCode == 200 && immediately == Some(true);
    var proofCode, proofId := store.SubmitProof(Some(buyer), Some(2), Some(1), None, None, None);
    status, cancelledAt, buyerId := store.orders[1].status, store.orders[1].cancelledAt, store.orders[1].buyerId;
  }

  /** A cancellation reason of more than ten characters with no white space around it. */
  function ExampleReason(): (reason: string)
    ensures ReasonAccepted(Some(reason))
  {
    var reason := "Stok barang habis";
    assert !IsJsWhitespace(reason[0]) && !IsJsWhitespace(reason[|reason| - 1]);
    assert Trim(reason) == reason;
    reason
  }
}
