/** The checkout page (frontend/src/pages/Checkout.jsx): the amounts it shows before payment
    and the booking request it sends, with the navigation state from the turf page as
    input. */
module Checkout {
  import opened Js
  import opened TimeOfDay
  import opened Models
  import BookingController
  import TurfDetail

  /** `turf?.pricePerHour || 0`: a missing turf or price, and a zero price, count as 0. */
  function PriceOrZero(price: Option<real>): real
  {
    if price.None? then 0.0 else price.value
  }

  /** `bookingData.duration || 1`: zero and NaN (None) are falsy and become 1. */
  function DurationOrOne(duration: Option<real>): (d: real)
    ensures d != 0.0
  {
    if duration.None? || duration.value == 0.0 then 1.0 else duration.value
  }

  /** The amounts on the page: total = price x duration, advance = Math.round(total x 0.25),
      remaining = total - advance. */
  function Displayed(state: TurfDetail.NavState): BookingController.Price
  {
    var total := PriceOrZero(state.price) * DurationOrOne(state.duration);
    var advance := Round(total * 0.25) as real;
    BookingController.Price(total, advance, total - advance)
  }

  /** The advance and the remainder shown add up to the total shown, and for a price that is
      not negative the advance lies between 0 and the total. They are the backend's charge for
      the same price and duration. */
  lemma DisplayedSplit(state: TurfDetail.NavState)
    ensures Displayed(state).advance + Displayed(state).remaining == Displayed(state).total
    ensures PriceOrZero(state.price) >= 0.0 && DurationOrOne(state.duration) > 0.0 ==>
      0.0 <= Displayed(state).advance <= Displayed(state).total
    ensures Displayed(state) == BookingController.PriceOf(PriceOrZero(state.price), DurationOrOne(state.duration))
  {
  }

  /** The body of POST /bookings: `time` is the start time falling back to the legacy time,
      and the duration defaults to 1. */
  function RequestOf(turfId: Id, state: TurfDetail.NavState): (req: BookingController.BookingRequest)
  {
    BookingController.BookingRequest(
      Some(turfId), state.date,
      if state.startTime != "" then state.startTime else state.time,
      state.startTime, state.endTime, DurationOrOne(state.duration))
  }

  /** The request always carries a duration, and its time is the start time whenever one is
      set; with both start and end times the backend takes the range form and computes the
      duration from them, ignoring the one sent. */
  lemma RequestShape(turfId: Id, state: TurfDetail.NavState)
    ensures RequestOf(turfId, state).duration != 0.0
    ensures state.startTime != "" ==> RequestOf(turfId, state).time == state.startTime
    ensures state.startTime == "" ==> RequestOf(turfId, state).time == state.time
    ensures state.startTime != "" && state.endTime != "" ==>
      BookingController.PlanOf(RequestOf(turfId, state)) ==
        Some(BookingController.Plan(state.startTime, Some(state.endTime),
                                    BookingController.RangeHours(state.startTime, state.endTime)))
    ensures state.time != "" ==> BookingController.PlanOf(RequestOf(turfId, state)).Some?
  {
  }

  /** Booking two slot keys picked on the turf page, checkout shows exactly what the
      backend charges: the request is a range from the start to the end key whose duration
      is the duration the page displayed, so total, advance and remaining all agree. */
  lemma DisplayedIsCharged(turfId: Id, date: string, a: nat, b: nat, price: real)
    requires a < 6000 && b < 6000 && date != ""
    requires TurfDetail.Coherent(TurfDetail.Selection(Some(Key(a)), Some(Key(b))))
    ensures var sel := TurfDetail.Selection(Some(Key(a)), Some(Key(b)));
      var act := TurfDetail.HandleBook(true, date, sel, Some(price));
      && act.GoToCheckout?
      && var req := RequestOf(turfId, act.state);
      && BookingController.PlanOf(req) == Some(BookingController.Plan(Key(a), Some(Key(b)), Some((b as real - a as real) / 60.0)))
      && Displayed(act.state) == BookingController.PriceOf(price, (b as real - a as real) / 60.0)
  {
    TurfDetail.KeySelectionDuration(a, b);
    assert |Key(a)| > 0 && |Key(b)| > 0;
    ChargedFor(turfId, date, Key(a), Key(b), a, b, price);
  }

  /** A selection whose duration is (b - a) / 60 hours, b after a, goes to checkout with a
      range request for those hours, and the page shows the backend's charge for them. */
  lemma ChargedFor(turfId: Id, date: string, start: string, end: string, a: nat, b: nat, price: real)
    requires date != "" && start != "" && end != "" && a < b
    requires TurfDetail.Duration(TurfDetail.Selection(Some(start), Some(end))) == Some((b as real - a as real) / 60.0)
    ensures var sel := TurfDetail.Selection(Some(start), Some(end));
      var act := TurfDetail.HandleBook(true, date, sel, Some(price));
      && act.GoToCheckout?
      && var req := RequestOf(turfId, act.state);
      && BookingController.PlanOf(req) == Some(BookingController.Plan(start, Some(end), Some((b as real - a as real) / 60.0)))
      && Displayed(act.state) == BookingController.PriceOf(price, (b as real - a as real) / 60.0)
  {
    ChargedAt(turfId, date, start, end, (b as real - a as real) / 60.0, price);
  }

  /** ChargedFor for a selection of any positive duration h. */
  lemma ChargedAt(turfId: Id, date: string, start: string, end: string, h: real, price: real)
    requires date != "" && start != "" && end != "" && h > 0.0
    requires TurfDetail.Duration(TurfDetail.Selection(Some(start), Some(end))) == Some(h)
    ensures var sel := TurfDetail.Selection(Some(start), Some(end));
      var act := TurfDetail.HandleBook(true, date, sel, Some(price));
      && act.GoToCheckout?
      && var req := RequestOf(turfId, act.state);
      && BookingController.PlanOf(req) == Some(BookingController.Plan(start, Some(end), Some(h)))
      && Displayed(act.state) == BookingController.PriceOf(price, h)
  {
    var sel := TurfDetail.Selection(Some(start), Some(end));
    var state := TurfDetail.NavState(Some(price), date, start, start, end, Some(h));
    assert TurfDetail.HandleBook(true, date, sel, Some(price)) == TurfDetail.GoToCheckout(state);
    RequestShape(turfId, state);
    DisplayedSplit(state);
    assert DurationOrOne(state.duration) == h;
  }

  /** A half-hour selection passes the turf page's guard and is sent as a 0.5-hour range
      claiming one key, which the booking schema's one-hour minimum then rejects (see
      BookingController.HalfHourLeavesOrphanSlot). */
  lemma HalfHourReachesBackend(turfId: Id, date: string, a: nat, price: real)
    requires a + 30 < 6000 && date != ""
    ensures var sel := TurfDetail.Selection(Some(Key(a)), Some(Key(a + 30)));
      var act := TurfDetail.HandleBook(true, date, sel, Some(price));
      && act.GoToCheckout?
      && var req := RequestOf(turfId, act.state);
      && BookingController.PlanOf(req).Some? && BookingController.PlanOf(req).value.duration == Some(0.5)
      && BookingController.Keys(BookingController.PlanOf(req).value) == [Key(a)]
  {
    KeyOrder(a, a + 30);
    DisplayedIsCharged(turfId, date, a, a + 30, price);
    var act := TurfDetail.HandleBook(true, date, TurfDetail.Selection(Some(Key(a)), Some(Key(a + 30))), Some(price));
    KeyRoundTrip(a);
    KeyRoundTrip(a + 30);
    BookingController.HalfHourPlan(RequestOf(turfId, act.state), a);
  }
}
