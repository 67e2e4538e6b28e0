// Payment verification and payment status: backend/controllers/payment.controller.js.
//
// The HMAC-SHA256 of section 2 of RFC 2104, keyed with the merchant secret and hex
// encoded, is the parameter `sign`: nothing here depends on how it is computed, only on
// the text it is applied to. The clock is the parameter `now`.

module PaymentController {
  import opened Js
  import opened Models
  import BookingController

  /** The body of POST /api/payments/verify; an absent field is None. */
  datatype VerifyRequest = VerifyRequest(orderId: Option<string>, paymentId: Option<string>,
                                         signature: Option<string>)

  /** All three fields are present and non-empty (line 12 tests each for truthiness). */
  predicate HasAllFields(req: VerifyRequest)
  {
    BookingController.Truthy(req.orderId) && BookingController.Truthy(req.paymentId)
    && BookingController.Truthy(req.signature)
  }

  /** The text that is signed: the order id, a bar, the payment id. */
  function SignedText(orderId: string, paymentId: string): (r: string)
    ensures |r| == |orderId| + 1 + |paymentId|
    ensures r[..|orderId|] == orderId && r[|orderId|] == '|' && r[|orderId| + 1..] == paymentId
  {
    orderId + "|" + paymentId
  }

  /** An order id without a bar can be read back from the signed text, so two different
      (order, payment) pairs never sign the same text. Razorpay order ids have no bar. */
  lemma SignedTextInjective(o1: string, p1: string, o2: string, p2: string)
    requires '|' !in o1 && '|' !in o2
    requires SignedText(o1, p1) == SignedText(o2, p2)
    ensures o1 == o2 && p1 == p2
  {
    var t := SignedText(o1, p1);
    assert t[..|o1|] == o1 && t[..|o2|] == o2;
  }

  /** `Booking.findOne({razorpayOrderId})`: the oldest booking carrying that order id. */
  function FindByOrder(bookings: map<Id, Booking>, orderId: string): (r: Option<Id>)
    ensures r.None? <==> forall i :: i in bookings ==> bookings[i].razorpayOrderId != Some(orderId)
    ensures r.Some? ==> (r.value in bookings && bookings[r.value].razorpayOrderId == Some(orderId)
      && forall i :: i in bookings && bookings[i].razorpayOrderId == Some(orderId) ==> r.value <= i)
  {
    var ids := set i | i in bookings && bookings[i].razorpayOrderId == Some(orderId);
    assert forall i :: i in bookings && bookings[i].razorpayOrderId == Some(orderId) ==> i in ids;
    if ids == {} then None else Some(MinOf(ids))
  }

  /** Lines 39-41: the booking cancelled at `now` because its payment did not verify. */
  function Rejected(b: Booking, now: int): Booking
  {
    b.(status := Cancelled, cancelledAt := Some(now), cancellationReason := Some("Payment verification failed"))
  }

  /** Lines 48-53: the booking confirmed with its advance paid under that payment id. */
  function Paid(b: Booking, paymentId: string): Booking
  {
    b.(razorpayPaymentId := Some(paymentId), paymentId := Some(paymentId), isAdvancePaid := true,
       status := Confirmed)
  }

  /** POST /api/payments/verify. The signature is compared by plain string equality; the
      booking's current status is never looked at. */
  function VerifyPayment(st: Store, req: VerifyRequest, sign: string -> string, now: int): (r: Reply)
  {
    if !HasAllFields(req) then Reply(BadRequest("Payment verification failed: Missing parameters"), st)
    else
      match FindByOrder(st.bookings, req.orderId.value)
      case None => Reply(NotFound("Booking not found"), st)
      case Some(id) =>
        var b := st.bookings[id];
        if sign(SignedText(req.orderId.value, req.paymentId.value)) != req.signature.value then
          var st1 := BookingController.ReleaseSlot(st, b.slotId);
          Reply(BadRequest("Payment verification failed"), st1.(bookings := st1.bookings[id := Rejected(b, now)]))
        else
          Reply(Ok, st.(bookings := st.bookings[id := Paid(b, req.paymentId.value)]))
  }

  /** The signature check passes: the signed text of the request's ids, as `sign` computes it,
      equals the signature sent. */
  predicate SignatureMatches(req: VerifyRequest, sign: string -> string)
    requires HasAllFields(req)
  {
    sign(SignedText(req.orderId.value, req.paymentId.value)) == req.signature.value
  }

  /** The refusals that write nothing: a missing field is a 400, an unknown order id a 404. */
  lemma VerifyRefusals(st: Store, req: VerifyRequest, sign: string -> string, now: int)
    ensures var r := VerifyPayment(st, req, sign, now);
      && (!HasAllFields(req) ==>
            r == Reply(BadRequest("Payment verification failed: Missing parameters"), st))
      && (HasAllFields(req) && (forall i :: i in st.bookings ==> st.bookings[i].razorpayOrderId != req.orderId) ==>
            r == Reply(NotFound("Booking not found"), st))
  {
  }

  /** Verification succeeds exactly when every field is there, some booking carries the
      order id and the signature matches. */
  lemma VerifyOkIff(st: Store, req: VerifyRequest, sign: string -> string, now: int)
    ensures VerifyPayment(st, req, sign, now).outcome == Ok <==>
      (HasAllFields(req) && (exists i :: i in st.bookings && st.bookings[i].razorpayOrderId == req.orderId)
       && SignatureMatches(req, sign))
  {
    if HasAllFields(req) && exists i :: i in st.bookings && st.bookings[i].razorpayOrderId == req.orderId {
      assert FindByOrder(st.bookings, req.orderId.value).Some?;
    }
  }

  /** A matching signature: the oldest booking with that order id is confirmed with its
      advance paid and both payment id fields set; no slot and no other booking changes. */
  lemma VerifyMatch(st: Store, req: VerifyRequest, sign: string -> string, now: int, id: Id)
    requires HasAllFields(req) && SignatureMatches(req, sign)
    requires FindByOrder(st.bookings, req.orderId.value) == Some(id)
    ensures var r := VerifyPayment(st, req, sign, now);
      && r.outcome == Ok
      && r.store.slots == st.slots && r.store.turfs == st.turfs && r.store.users == st.users
      && r.store.nextId == st.nextId
      && r.store.bookings.Keys == st.bookings.Keys
      && (forall j :: j in st.bookings && j != id ==> r.store.bookings[j] == st.bookings[j])
      && r.store.bookings[id].status == Confirmed && r.store.bookings[id].isAdvancePaid
      && r.store.bookings[id].razorpayPaymentId == req.paymentId
      && r.store.bookings[id].paymentId == req.paymentId
      && r.store.bookings[id].razorpayOrderId == req.orderId
      && r.store.bookings[id].totalAmount == st.bookings[id].totalAmount
      && r.store.bookings[id].slotId == st.bookings[id].slotId
  {
  }

  /** A signature that does not match: the booking is cancelled with reason 'Payment
      verification failed', its primary slot (if it still exists) is freed with isBlocked
      left alone, and every other slot, a multi-slot booking's later ones included, is
      untouched. */
  lemma VerifyMismatch(st: Store, req: VerifyRequest, sign: string -> string, now: int, id: Id)
    requires HasAllFields(req) && !SignatureMatches(req, sign)
    requires FindByOrder(st.bookings, req.orderId.value) == Some(id)
    ensures var r := VerifyPayment(st, req, sign, now);
      var b := st.bookings[id];
      && r.outcome == BadRequest("Payment verification failed")
      && r.store.turfs == st.turfs && r.store.users == st.users && r.store.nextId == st.nextId
      && r.store.bookings == st.bookings[id := Rejected(b, now)]
      && r.store.bookings[id].status == Cancelled && r.store.bookings[id].cancelledAt == Some(now)
      && r.store.bookings[id].cancellationReason == Some("Payment verification failed")
      && r.store.bookings[id].refundStatus == b.refundStatus
      && r.store.slots.Keys == st.slots.Keys
      && (forall s :: s in st.slots && s != b.slotId ==> r.store.slots[s] == st.slots[s])
      && (b.slotId in st.slots ==> (!r.store.slots[b.slotId].isBooked
            && r.store.slots[b.slotId].bookingId.None?
            && r.store.slots[b.slotId].isBlocked == st.slots[b.slotId].isBlocked))
  {
  }

  /** No status guard: a matching call re-confirms a cancelled booking. */
  lemma VerifyReconfirmsCancelled(st: Store, req: VerifyRequest, sign: string -> string, now: int, id: Id)
    requires HasAllFields(req) && SignatureMatches(req, sign)
    requires FindByOrder(st.bookings, req.orderId.value) == Some(id)
    requires st.bookings[id].status == Cancelled
    ensures VerifyPayment(st, req, sign, now).store.bookings[id].status == Confirmed
  {
    VerifyMatch(st, req, sign, now, id);
  }

  /** No status guard: a mismatching call cancels a confirmed booking, and frees its primary
      slot. */
  lemma VerifyCancelsConfirmed(st: Store, req: VerifyRequest, sign: string -> string, now: int, id: Id)
    requires HasAllFields(req) && !SignatureMatches(req, sign)
    requires FindByOrder(st.bookings, req.orderId.value) == Some(id)
    requires st.bookings[id].status == Confirmed && st.bookings[id].slotId in st.slots
    ensures VerifyPayment(st, req, sign, now).store.bookings[id].status == Cancelled
    ensures !VerifyPayment(st, req, sign, now).store.slots[st.bookings[id].slotId].isBooked
  {
    VerifyMismatch(st, req, sign, now, id);
  }

  /** Verification keeps the invariant: it only edits one booking's payment and status
      fields and at most frees one slot. */
  lemma VerifyKeepsInv(st: Store, req: VerifyRequest, sign: string -> string, now: int)
    requires Inv(st)
    ensures Inv(VerifyPayment(st, req, sign, now).store)
  {
    if HasAllFields(req) && FindByOrder(st.bookings, req.orderId.value).Some? {
      var id := FindByOrder(st.bookings, req.orderId.value).value;
      var b := st.bookings[id];
      if !SignatureMatches(req, sign) {
        BookingController.ReleaseKeepsInv(st, b.slotId);
        var st1 := BookingController.ReleaseSlot(st, b.slotId);
        assert BookingValid(Rejected(b, now));
        assert Inv(st1.(bookings := st1.bookings[id := Rejected(b, now)]));
      } else {
        assert BookingValid(Paid(b, req.paymentId.value));
      }
    }
  }

  // ---------------------------------------------------------------------------
  // getPaymentStatus

  /** The answer of GET /api/payments/status/:bookingId: the booking's status, its Razorpay
      payment id and its total amount, or a refusal. */
  datatype StatusReply = Report(status: BookingStatus, paymentId: Option<string>, amount: real)
                       | Refused(outcome: Outcome)

  /** Who may see a payment: the booking's user or an admin. */
  predicate CanSeePayment(actor: Actor, b: Booking)
  {
    b.userId == actor.id || actor.role == Admin
  }

  /** GET /api/payments/status/:bookingId. The user is populated before the check, so a
      booking whose user is gone has a null userId and the check throws. */
  function GetPaymentStatus(st: Store, actor: Actor, id: Id): (r: StatusReply)
    ensures id !in st.bookings ==> r == Refused(NotFound("Booking not found"))
    ensures r.Report? <==> (id in st.bookings && st.bookings[id].userId in st.users
                            && CanSeePayment(actor, st.bookings[id]))
    ensures r.Report? ==> (r.status == st.bookings[id].status
      && r.paymentId == st.bookings[id].razorpayPaymentId && r.amount == st.bookings[id].totalAmount)
    ensures r == Refused(Forbidden("Not authorized")) <==>
      (id in st.bookings && st.bookings[id].userId in st.users && !CanSeePayment(actor, st.bookings[id]))
  {
    if id !in st.bookings then Refused(NotFound("Booking not found"))
    else
      var b := st.bookings[id];
      if b.userId !in st.users then Refused(Thrown)
      else if b.userId != actor.id && actor.role != Admin then Refused(Forbidden("Not authorized"))
      else Report(b.status, b.razorpayPaymentId, b.totalAmount)
  }

  /** Whoever may see a payment may also read its booking; the converse fails for the turf
      owner, who may read the booking but not its payment. */
  lemma PaymentStatusImpliesView(st: Store, actor: Actor, id: Id)
    requires GetPaymentStatus(st, actor, id).Report?
    requires st.bookings[id].turfId in st.turfs
    ensures BookingController.GetBooking(st, actor, id) == Ok
  {
  }

  /** The turf owner, not the booking's user and not an admin, may read the booking but is
      refused its payment status. */
  lemma OwnerSeesBookingNotPayment(st: Store, actor: Actor, id: Id)
    requires id in st.bookings && st.bookings[id].userId in st.users && st.bookings[id].turfId in st.turfs
    requires st.turfs[st.bookings[id].turfId].owner == actor.id
    requires st.bookings[id].userId != actor.id && actor.role != Admin
    ensures BookingController.GetBooking(st, actor, id) == Ok
    ensures GetPaymentStatus(st, actor, id) == Refused(Forbidden("Not authorized"))
  {
  }
}
