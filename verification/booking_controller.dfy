/** The booking controller (backend/controllers/booking.controller.js): creating a booking
    over a range of 30-minute slots, cancelling it, and who may look at it.

    Every operation is a function from the database and the request to a reply and the
    database the request leaves behind. Nothing is rolled back: an exception part-way through
    createBooking keeps the slot documents created before it. The Razorpay order call is the
    parameter `order` (from the advance in paise to the order id, None when the call fails),
    and the wall clock is the parameter `now`. */
module BookingController {
  import opened Js
  import opened TimeOfDay
  import opened DateUtils
  import opened Models

  // ---------------------------------------------------------------------------
  // Request shape

  /** The JSON body of a booking request. An empty string or a zero duration is a field the
      client left out (all are falsy in JavaScript). */
  datatype BookingRequest = BookingRequest(turfId: Option<Id>, date: string, time: string,
                                           startTime: string, endTime: string, duration: real)

  /** The booking's first time, its end time (None for the legacy single-time form) and its
      duration in hours (None for NaN). */
  datatype Plan = Plan(start: string, end: Option<string>, duration: Option<real>)

  /** `(endMinutes - startMinutes) / 60`, NaN when either time does not parse. */
  function RangeHours(start: string, end: string): (r: Option<real>)
    ensures r.Some? <==> MinutesReal(start).Some? && MinutesReal(end).Some?
    ensures r.Some? ==> r.value * 60.0 == MinutesReal(end).value - MinutesReal(start).value
  {
    HoursBetween(MinutesReal(start), MinutesReal(end))
  }

  /** Hours from minute count a to minute count b, NaN when either is. */
  function HoursBetween(a: Option<real>, b: Option<real>): Option<real>
  {
    if a.Some? && b.Some? then Some((b.value - a.value) / 60.0) else None
  }

  /** Between two times of whole minutes a and b the range is (b - a) / 60 hours. */
  lemma RangeHoursWhole(start: string, end: string, a: nat, b: nat, h: real)
    requires Minutes(start) == Some(a) && Minutes(end) == Some(b) && h * 60.0 == (b - a) as real
    ensures RangeHours(start, end) == Some(h)
  {
    assert MinutesReal(start) == Some(a as real) by {
      WholeMinutes(start);
    }
    assert MinutesReal(end) == Some(b as real) by {
      WholeMinutes(end);
    }
    RangeHoursOf(start, end, a as real, b as real, h);
  }

  lemma RangeHoursOf(start: string, end: string, x: real, y: real, h: real)
    requires MinutesReal(start) == Some(x) && MinutesReal(end) == Some(y) && h * 60.0 == y - x
    ensures RangeHours(start, end) == Some(h)
  {
    HoursBetweenOf(x, y, h);
  }

  lemma HoursBetweenOf(x: real, y: real, h: real)
    requires h * 60.0 == y - x
    ensures HoursBetween(Some(x), Some(y)) == Some(h)
  {
  }

  /** Which of the two request forms is used: both startTime and endTime win; otherwise time
      with a duration is the legacy form; otherwise neither form is present. */
  function PlanOf(req: BookingRequest): (r: Option<Plan>)
    ensures r.None? <==> (req.startTime == "" || req.endTime == "") && (req.time == "" || req.duration == 0.0)
    ensures r.Some? && req.startTime != "" && req.endTime != "" ==>
      r.value.start == req.startTime && r.value.end == Some(req.endTime)
      && r.value.duration == RangeHours(req.startTime, req.endTime)
    ensures r.Some? && (req.startTime == "" || req.endTime == "") ==>
      r.value.start == req.time && r.value.end.None? && r.value.duration == Some(req.duration)
    ensures r.Some? ==> r.value.start != ""
  {
    if req.startTime != "" && req.endTime != "" then
      Some(Plan(req.startTime, Some(req.endTime), RangeHours(req.startTime, req.endTime)))
    else if req.time != "" && req.duration != 0.0 then
      Some(Plan(req.time, None, Some(req.duration)))
    else None
  }

  /** `!turfId || !date || !bookingStartTime || !bookingDuration`; NaN and 0 are both falsy. */
  predicate MissingFields(req: BookingRequest, p: Plan)
  {
    req.turfId.None? || req.date == "" || p.start == "" || p.duration.None? || p.duration.value == 0.0
  }

  const ShapeMessage: string := "Please provide either (startTime and endTime) or (time and duration)"
  const RequiredMessage: string := "Please provide all required fields"

  function TakenMessage(time: string): string
  {
    "Time range not available. Slot " + time + " is already booked or blocked."
  }

  // ---------------------------------------------------------------------------
  // Pricing

  datatype Price = Price(total: real, advance: real, remaining: real)

  /** total = price per hour x hours; the advance is 25% of it rounded by Math.round (the
      product with 0.25 is exact in binary floating point), the remainder is the rest. */
  function PriceOf(pricePerHour: real, hours: real): (p: Price)
    ensures p.total == pricePerHour * hours
    ensures p.advance == Round(p.total / 4.0) as real
    ensures p.advance + p.remaining == p.total
    ensures p.total >= 0.0 ==> 0.0 <= p.advance <= p.total
  {
    var total := pricePerHour * hours;
    var advance := Round(total * 0.25) as real;
    AdvanceWithinTotal(total);
    Price(total, advance, total - advance)
  }

  /** A non-negative total is never exceeded by its rounded quarter. */
  lemma AdvanceWithinTotal(total: real)
    ensures total >= 0.0 ==> 0.0 <= Round(total / 4.0) as real <= total
  {
    var a := Round(total / 4.0);
    if total >= 0.0 && a >= 1 {
      assert a as real <= total / 4.0 + 0.5;
    }
  }

  // ---------------------------------------------------------------------------
  // Slot keys

  /** generateTimeSlotsInRange(start, end). */
  function RangeKeys(start: string, end: string): seq<string>
  {
    HalfHourKeys(start, end)
  }

  /** The keys a booking claims: the range's 30-minute keys, or for the legacy form just the
      given time, whatever the duration. */
  function Keys(p: Plan): seq<string>
  {
    if p.end.Some? then RangeKeys(p.start, p.end.value) else [p.start]
  }

  /** The range keys are a..end in 30-minute steps, zero-padded, strictly increasing as
      strings, and each one reads back as its minute; a reversed or empty range has none. */
  lemma RangeKeysShape(start: string, end: string, a: nat, b: nat)
    requires Minutes(start) == Some(a) && Minutes(end) == Some(b)
    ensures |RangeKeys(start, end)| == SlotCount(a, b)
    ensures b <= a ==> RangeKeys(start, end) == []
    ensures forall i :: 0 <= i < |RangeKeys(start, end)| ==>
      RangeKeys(start, end)[i] == Key(a + 30 * i) && a + 30 * i < b
      && Minutes(RangeKeys(start, end)[i]) == Some(a + 30 * i)
    ensures b <= 1440 ==> forall i, j :: 0 <= i < j < |RangeKeys(start, end)| ==>
      LexLess(RangeKeys(start, end)[i], RangeKeys(start, end)[j])
  {
    var ks := RangeKeys(start, end);
    HalfHourKeysWhole(start, end, a, b);
    Every30Shape(a, b, Key);
    forall i | 0 <= i < |ks|
      ensures Minutes(ks[i]) == Some(a + 30 * i)
    {
      KeysFromReadBack(a, b, i);
    }
    if b <= 1440 {
      forall i, j | 0 <= i < j < |ks|
        ensures LexLess(ks[i], ks[j])
      {
        KeysFromSorted(a, b, i, j);
      }
    }
  }

  // ---------------------------------------------------------------------------
  // Availability

  /** A slot the day query returns (that turf, that day, one of the keys) which is booked or
      blocked. */
  predicate Unavailable(s: Slot, turfId: Id, day: DayRange, keys: seq<string>)
  {
    s.time in keys && Matches(s, turfId, day, s.time) && Taken(s)
  }

  /** `unavailableSlots[0].time`: the time of the first booked or blocked slot the day query
      returns, in insertion (id) order; None when every slot found is free. */
  function FirstTaken(slots: map<Id, Slot>, turfId: Id, day: DayRange, keys: seq<string>): (r: Option<string>)
    ensures r.None? <==> forall k, i :: k in keys && i in slots && Matches(slots[i], turfId, day, k) ==> !Taken(slots[i])
    ensures r.Some? ==> (r.value in keys
      && exists i :: i in slots && Matches(slots[i], turfId, day, r.value) && Taken(slots[i])
           && forall j :: j in slots && Unavailable(slots[j], turfId, day, keys) ==> i <= j)
  {
    var ids := set i | i in slots && Unavailable(slots[i], turfId, day, keys);
    assert forall i :: i in slots && Unavailable(slots[i], turfId, day, keys) ==> i in ids;
    if ids == {} then None
    else
      var i := MinOf(ids);
      assert Matches(slots[i], turfId, day, slots[i].time);
      Some(slots[i].time)
  }

  /** The slot reported does not depend on the order in which the keys were requested, only
      on which keys they are. */
  lemma FirstTakenIgnoresKeyOrder(slots: map<Id, Slot>, turfId: Id, day: DayRange, k1: seq<string>, k2: seq<string>)
    requires forall k :: k in k1 <==> k in k2
    ensures FirstTaken(slots, turfId, day, k1) == FirstTaken(slots, turfId, day, k2)
  {
    var ids1 := set i | i in slots && Unavailable(slots[i], turfId, day, k1);
    var ids2 := set i | i in slots && Unavailable(slots[i], turfId, day, k2);
    assert ids1 == ids2;
  }

  // ---------------------------------------------------------------------------
  // Claiming slots

  /** The slot documents gathered for the keys, the database after the slots created on the
      way, and whether the loop finished (false when a `Slot.create` threw). */
  datatype Claimed = Claimed(store: Store, ids: seq<Id>, ok: bool)

  /** The loop at lines 113-125: for each key, the slot the day query had already found (the
      snapshot `found`), or else a newly created free slot at the booking date. */
  function Claim(st: Store, found: map<Id, Slot>, turfId: Id, day: DayRange, keys: seq<string>): (r: Claimed)
    ensures r.store.turfs == st.turfs && r.store.bookings == st.bookings && r.store.users == st.users
    ensures st.nextId <= r.store.nextId
    ensures |r.ids| <= |keys|
    decreases |keys|
  {
    if keys == [] then Claimed(st, [], true)
    else
      match Lookup(found, turfId, day, keys[0])
      case Some(id) =>
        var rest := Claim(st, found, turfId, day, keys[1..]);
        Claimed(rest.store, [id] + rest.ids, rest.ok)
      case None =>
        match InsertSlot(st, turfId, day.start, keys[0])
        case None => Claimed(st, [], false)
        case Some(st1) =>
          var rest := Claim(st1, found, turfId, day, keys[1..]);
          Claimed(rest.store, [st.nextId] + rest.ids, rest.ok)
  }

  /** Ids below the counter stay so while claiming. */
  lemma {:induction false} ClaimBelow(st: Store, found: map<Id, Slot>, turfId: Id, day: DayRange,
                                      keys: seq<string>, i: Id)
    requires forall x :: x in st.slots ==> x < st.nextId
    requires i in Claim(st, found, turfId, day, keys).store.slots
    ensures i < Claim(st, found, turfId, day, keys).store.nextId
    decreases |keys|
  {
    if keys != [] && Lookup(found, turfId, day, keys[0]).Some? {
      ClaimBelow(st, found, turfId, day, keys[1..], i);
    } else if keys != [] && InsertSlot(st, turfId, day.start, keys[0]).Some? {
      ClaimBelow(InsertSlot(st, turfId, day.start, keys[0]).value, found, turfId, day, keys[1..], i);
    }
  }

  /** Claiming never changes a slot that already existed. */
  lemma {:induction false} ClaimKeepsSlot(st: Store, found: map<Id, Slot>, turfId: Id, day: DayRange,
                                          keys: seq<string>, i: Id)
    requires forall x :: x in st.slots ==> x < st.nextId
    requires i in st.slots
    ensures i in Claim(st, found, turfId, day, keys).store.slots
    ensures Claim(st, found, turfId, day, keys).store.slots[i] == st.slots[i]
    decreases |keys|
  {
    if keys != [] && Lookup(found, turfId, day, keys[0]).Some? {
      ClaimKeepsSlot(st, found, turfId, day, keys[1..], i);
    } else if keys != [] && InsertSlot(st, turfId, day.start, keys[0]).Some? {
      ClaimKeepsSlot(InsertSlot(st, turfId, day.start, keys[0]).value, found, turfId, day, keys[1..], i);
    }
  }

  /** A slot that claiming created has a fresh id and is a free slot of that turf at the
      booking date. */
  lemma {:induction false} ClaimNewSlot(st: Store, found: map<Id, Slot>, turfId: Id, day: DayRange,
                                        keys: seq<string>, i: Id)
    requires forall x :: x in st.slots ==> x < st.nextId
    requires i in Claim(st, found, turfId, day, keys).store.slots && i !in st.slots
    ensures st.nextId <= i
    ensures var s := Claim(st, found, turfId, day, keys).store.slots[i];
      s.turfId == turfId && s.date == day.start && !Taken(s) && s.bookingId.None?
    decreases |keys|
  {
    if keys != [] && Lookup(found, turfId, day, keys[0]).Some? {
      ClaimNewSlot(st, found, turfId, day, keys[1..], i);
    } else if keys != [] && InsertSlot(st, turfId, day.start, keys[0]).Some? {
      var st1 := InsertSlot(st, turfId, day.start, keys[0]).value;
      if i == st.nextId {
        ClaimKeepsSlot(st1, found, turfId, day, keys[1..], i);
      } else {
        ClaimNewSlot(st1, found, turfId, day, keys[1..], i);
      }
    }
  }

  /** A loop that ran to the end claimed one slot per key. */
  lemma {:induction false} ClaimCount(st: Store, found: map<Id, Slot>, turfId: Id, day: DayRange,
                                      keys: seq<string>)
    ensures Claim(st, found, turfId, day, keys).ok ==> |Claim(st, found, turfId, day, keys).ids| == |keys|
    decreases |keys|
  {
    if keys != [] && Lookup(found, turfId, day, keys[0]).Some? {
      ClaimCount(st, found, turfId, day, keys[1..]);
    } else if keys != [] && InsertSlot(st, turfId, day.start, keys[0]).Some? {
      ClaimCount(InsertSlot(st, turfId, day.start, keys[0]).value, found, turfId, day, keys[1..]);
    }
  }

  /** The j-th claimed slot answers the j-th key: it is on that turf and day with that time,
      and if it existed before, it is one the query had found. */
  lemma {:induction false} ClaimAt(st: Store, found: map<Id, Slot>, turfId: Id, day: DayRange,
                                   keys: seq<string>, j: nat)
    requires forall i :: i in found ==> i in st.slots && st.slots[i] == found[i]
    requires forall x :: x in st.slots ==> x < st.nextId
    requires day.start < day.end
    requires j < |Claim(st, found, turfId, day, keys).ids|
    ensures var r := Claim(st, found, turfId, day, keys);
      && r.ids[j] in r.store.slots && Matches(r.store.slots[r.ids[j]], turfId, day, keys[j])
      && (r.ids[j] in st.slots ==> r.ids[j] in found)
    decreases |keys|
  {
    var r := Claim(st, found, turfId, day, keys);
    match Lookup(found, turfId, day, keys[0])
    case Some(id) =>
      var rest := Claim(st, found, turfId, day, keys[1..]);
      assert r.ids == [id] + rest.ids;
      if j == 0 {
        ClaimKeepsSlot(st, found, turfId, day, keys[1..], id);
      } else {
        ClaimAt(st, found, turfId, day, keys[1..], j - 1);
        assert r.ids[j] == rest.ids[j - 1] && keys[j] == keys[1..][j - 1];
      }
    case None =>
      var st1 := InsertSlot(st, turfId, day.start, keys[0]).value;
      var rest := Claim(st1, found, turfId, day, keys[1..]);
      assert r.ids == [st.nextId] + rest.ids;
      if j == 0 {
        ClaimKeepsSlot(st1, found, turfId, day, keys[1..], st.nextId);
      } else {
        ClaimAt(st1, found, turfId, day, keys[1..], j - 1);
        assert r.ids[j] == rest.ids[j - 1] && keys[j] == keys[1..][j - 1];
      }
  }

  /** Claiming keeps the invariant: the only writes are inserts of valid slots at the
      booking's UTC midnight. */
  lemma {:induction false} ClaimKeepsInv(st: Store, found: map<Id, Slot>, turfId: Id, day: DayRange, keys: seq<string>)
    requires Inv(st) && day.start % MsPerDay == 0
    ensures Inv(Claim(st, found, turfId, day, keys).store)
    decreases |keys|
  {
    if keys != [] && Lookup(found, turfId, day, keys[0]).Some? {
      ClaimKeepsInv(st, found, turfId, day, keys[1..]);
    } else if keys != [] && InsertSlot(st, turfId, day.start, keys[0]).Some? {
      var st1 := InsertSlot(st, turfId, day.start, keys[0]).value;
      InsertSlotKeepsInv(st, turfId, day.start, keys[0]);
      ClaimKeepsInv(st1, found, turfId, day, keys[1..]);
    }
  }

  /** Lines 171-175: every claimed slot is marked booked by the new booking. */
  function MarkBooked(slots: map<Id, Slot>, ids: seq<Id>, bookingId: Id): (r: map<Id, Slot>)
    ensures r.Keys == slots.Keys
    ensures forall i :: i in slots ==> (r[i].turfId == slots[i].turfId && r[i].date == slots[i].date
      && r[i].time == slots[i].time && r[i].isBlocked == slots[i].isBlocked)
    ensures forall i :: i in slots && i in ids ==> r[i] == slots[i].(isBooked := true, bookingId := Some(bookingId))
    ensures forall i :: i in slots && i !in ids ==> r[i] == slots[i]
  {
    map i | i in slots :: if i in ids then slots[i].(isBooked := true, bookingId := Some(bookingId)) else slots[i]
  }

  // ---------------------------------------------------------------------------
  // createBooking

  /** POST /api/bookings. */
  function CreateBooking(st: Store, actor: Actor, req: BookingRequest, order: real -> Option<string>): (r: Reply)
  {
    var plan := PlanOf(req);
    if plan.None? then Reply(BadRequest(ShapeMessage), st)
    else if MissingFields(req, plan.value) then Reply(BadRequest(RequiredMessage), st)
    else if req.turfId.value !in st.turfs then Reply(NotFound("Turf not found"), st)
    else
      var turf := st.turfs[req.turfId.value];
      if !turf.isActive || !turf.isApproved then Reply(BadRequest("Turf is not available for booking"), st)
      else
        var price := PriceOf(turf.pricePerHour, plan.value.duration.value);
        var keys := Keys(plan.value);
        var day := DateRange(req.date);
        // An Invalid Date throws at toISOString (line 87) or in the query's cast.
        if day.None? then Reply(Thrown, st)
        else
          var taken := FirstTaken(st.slots, req.turfId.value, day.value, keys);
          if taken.Some? then Reply(BadRequest(TakenMessage(taken.value)), st)
          else Reserve(st, actor, req.turfId.value, plan.value, day.value, price, keys, order)
  }

  /** Lines 113-178, once every requested slot is known to be free. */
  function Reserve(st: Store, actor: Actor, turfId: Id, p: Plan, day: DayRange, price: Price,
                   keys: seq<string>, order: real -> Option<string>): (r: Reply)
    requires p.duration.Some?
  {
    var cl := Claim(st, st.slots, turfId, day, keys);
    if !cl.ok then Reply(Thrown, cl.store)
    // `createdSlots[0]` is undefined when there are no keys: `slot._id` throws (line 138).
    else if |cl.ids| == 0 then Reply(Thrown, cl.store)
    else
      match order(price.advance * 100.0)
      case None => Reply(Thrown, cl.store)
      case Some(orderId) =>
        var fields := BookingFields(actor.id, turfId, cl.ids[0], day.start, p.start, Some(p.start),
                                    p.end, p.duration.value, price.total, price.advance,
                                    price.remaining, Some(orderId));
        match CreateBookingDoc(fields)
        case None => Reply(Thrown, cl.store)
        case Some(b) =>
          var id := cl.store.nextId;
          var st2 := cl.store.(bookings := cl.store.bookings[id := b], nextId := id + 1);
          Reply(Created(id), st2.(slots := MarkBooked(st2.slots, cl.ids, id)))
  }

  /** The request reached the availability check: its form is known, its fields are
      present, its turf is bookable and its date is valid. */
  predicate PassesGuards(st: Store, req: BookingRequest)
  {
    && PlanOf(req).Some? && !MissingFields(req, PlanOf(req).value)
    && req.turfId.value in st.turfs
    && st.turfs[req.turfId.value].isActive && st.turfs[req.turfId.value].isApproved
    && DateRange(req.date).Some?
  }

  /** The early rejections: the wrong request form or a missing field is a 400, an unknown
      turf a 404, an inactive or unapproved turf a 400, an invalid date an exception; none of
      them writes anything. */
  lemma CreateBookingGuards(st: Store, actor: Actor, req: BookingRequest, order: real -> Option<string>)
    ensures var r := CreateBooking(st, actor, req, order);
      && (PlanOf(req).None? ==> r == Reply(BadRequest(ShapeMessage), st))
      && (PlanOf(req).Some? && MissingFields(req, PlanOf(req).value) ==> r == Reply(BadRequest(RequiredMessage), st))
      && (PlanOf(req).Some? && !MissingFields(req, PlanOf(req).value) && req.turfId.value !in st.turfs ==>
            r == Reply(NotFound("Turf not found"), st))
      && (PlanOf(req).Some? && !MissingFields(req, PlanOf(req).value) && req.turfId.value in st.turfs
          && (!st.turfs[req.turfId.value].isActive || !st.turfs[req.turfId.value].isApproved) ==>
            r == Reply(BadRequest("Turf is not available for booking"), st))
      && (!PassesGuards(st, req) ==> r.store == st && !r.outcome.Created?)
  {
  }

  /** A booked or blocked slot on any requested key, that turf and that day refuses the whole
      request with a 400 naming a taken key, and nothing is written. */
  lemma TakenSlotRefuses(st: Store, actor: Actor, req: BookingRequest, order: real -> Option<string>,
                         k: string, i: Id)
    requires PassesGuards(st, req)
    requires k in Keys(PlanOf(req).value) && i in st.slots && Taken(st.slots[i])
    requires Matches(st.slots[i], req.turfId.value, DateRange(req.date).value, k)
    ensures CreateBooking(st, actor, req, order).store == st
    ensures exists t :: (t in Keys(PlanOf(req).value)
      && CreateBooking(st, actor, req, order).outcome == BadRequest(TakenMessage(t)))
  {
  }

  /** A range whose end is before its start has a negative, truthy duration and no keys, so
      `createdSlots[0]._id` throws before any write. */
  lemma ReversedRangeThrows(st: Store, actor: Actor, req: BookingRequest, order: real -> Option<string>,
                            a: nat, b: nat)
    requires req.startTime != "" && req.endTime != ""
    requires Minutes(req.startTime) == Some(a) && Minutes(req.endTime) == Some(b) && b < a
    requires PassesGuards(st, req)
    ensures CreateBooking(st, actor, req, order) == Reply(Thrown, st)
  {
    var p := PlanOf(req).value;
    RangeKeysShape(req.startTime, req.endTime, a, b);
    assert Keys(p) == [];
  }

  /** The legacy form claims only its one time, whatever the duration. */
  lemma LegacyClaimsOneKey(req: BookingRequest)
    requires req.startTime == "" || req.endTime == ""
    requires PlanOf(req).Some?
    ensures Keys(PlanOf(req).value) == [req.time]
  {
  }

  /** Past the guards and the availability check, createBooking is Reserve. */
  lemma ReachesReserve(st: Store, actor: Actor, req: BookingRequest, order: real -> Option<string>)
    requires PassesGuards(st, req)
    requires FirstTaken(st.slots, req.turfId.value, DateRange(req.date).value, Keys(PlanOf(req).value)).None?
    ensures CreateBooking(st, actor, req, order)
      == Reserve(st, actor, req.turfId.value, PlanOf(req).value, DateRange(req.date).value,
                 PriceOf(st.turfs[req.turfId.value].pricePerHour, PlanOf(req).value.duration.value),
                 Keys(PlanOf(req).value), order)
  {
  }

  /** A booking is only ever created past the guards and the availability check. */
  lemma CreatedPassedChecks(st: Store, actor: Actor, req: BookingRequest, order: real -> Option<string>)
    requires CreateBooking(st, actor, req, order).outcome.Created?
    ensures PassesGuards(st, req)
    ensures FirstTaken(st.slots, req.turfId.value, DateRange(req.date).value, Keys(PlanOf(req).value)).None?
  {
  }

  /** A single fresh key whose booking then fails validation: the slot is created and kept,
      the reply is an exception. */
  lemma ReserveOrphan(st: Store, actor: Actor, turfId: Id, p: Plan, day: DayRange, price: Price,
                      k: string, order: real -> Option<string>)
    requires p.duration.Some? && p.duration.value < 1.0
    requires Lookup(st.slots, turfId, day, k).None? && InsertSlot(st, turfId, day.start, k).Some?
    requires order(price.advance * 100.0).Some?
    ensures Reserve(st, actor, turfId, p, day, price, [k], order)
      == Reply(Thrown, InsertSlot(st, turfId, day.start, k).value)
  {
    var st1 := InsertSlot(st, turfId, day.start, k).value;
    assert [k][1..] == [];
    assert Claim(st1, st.slots, turfId, day, []) == Claimed(st1, [], true);
    assert Claim(st, st.slots, turfId, day, [k]) == Claimed(st1, [st.nextId], true);
  }

  /** A half-hour range request: duration 0.5 hours and the single key of its start. */
  lemma HalfHourPlan(req: BookingRequest, a: nat)
    requires req.startTime != "" && req.endTime != ""
    requires Minutes(req.startTime) == Some(a) && Minutes(req.endTime) == Some(a + 30)
    ensures PlanOf(req).Some? && PlanOf(req).value.duration == Some(0.5)
    ensures Keys(PlanOf(req).value) == [Key(a)]
  {
    RangeHoursWhole(req.startTime, req.endTime, a, a + 30, 0.5);
    HalfHourKey(req.startTime, req.endTime, a);
  }

  lemma HalfHourKey(start: string, end: string, a: nat)
    requires Minutes(start) == Some(a) && Minutes(end) == Some(a + 30)
    ensures RangeKeys(start, end) == [Key(a)]
  {
    RangeKeysShape(start, end, a, a + 30);
    assert SlotCount(a, a + 30) == 1;
  }

  /** With no slot of that turf, day and time, the key can be inserted. */
  lemma FreeKeyInserts(st: Store, turfId: Id, day: DayRange, a: nat)
    requires a < 1440 && day.start < day.end
    requires Lookup(st.slots, turfId, day, Key(a)).None?
    ensures InsertSlot(st, turfId, day.start, Key(a)).Some?
    ensures FirstTaken(st.slots, turfId, day, [Key(a)]).None?
  {
    KeyValidIffWithinDay(a);
    forall i | i in st.slots
      ensures !SameCell(st.slots[i], Slot(turfId, day.start, Key(a), false, false, None))
    {
      assert !Matches(st.slots[i], turfId, day, Key(a));
    }
  }

  /** A reply that throws after creating one slot: nothing is booked, the slot with the
      next id at the given time is the only change, and it is not taken. */
  predicate OrphanReply(r: Reply, st: Store, time: string)
  {
    && r.outcome == Thrown && r.store.bookings == st.bookings
    && st.nextId in r.store.slots && !Taken(r.store.slots[st.nextId])
    && r.store.slots[st.nextId].time == time
    && r.store.slots == st.slots[st.nextId := r.store.slots[st.nextId]]
  }

  /** An insert whose reply then throws leaves exactly the orphan slot behind. */
  lemma OrphanSlot(r: Reply, st: Store, turfId: Id, date: int, time: string)
    requires InsertSlot(st, turfId, date, time).Some?
    requires r == Reply(Thrown, InsertSlot(st, turfId, date, time).value)
    ensures OrphanReply(r, st, time)
  {
  }

  /** A half-hour range passes the controller's own checks but fails `min: 1` at
      Booking.create: the reply is an exception, no booking is stored, and the slot created
      for the free key stays behind, unbooked. */
  lemma HalfHourLeavesOrphanSlot(st: Store, actor: Actor, req: BookingRequest, order: real -> Option<string>,
                                 a: nat, price: Price)
    requires req.startTime != "" && req.endTime != ""
    requires Minutes(req.startTime) == Some(a) && Minutes(req.endTime) == Some(a + 30) && a + 30 < 1440
    requires PassesGuards(st, req)
    requires Lookup(st.slots, req.turfId.value, DateRange(req.date).value, Key(a)).None?
    requires price == PriceOf(st.turfs[req.turfId.value].pricePerHour, 0.5)
    requires order(price.advance * 100.0).Some?
    ensures InsertSlot(st, req.turfId.value, DateRange(req.date).value.start, Key(a)).Some?
    ensures CreateBooking(st, actor, req, order)
      == Reply(Thrown, InsertSlot(st, req.turfId.value, DateRange(req.date).value.start, Key(a)).value)
    ensures OrphanReply(CreateBooking(st, actor, req, order), st, Key(a))
  {
    var day := DateRange(req.date).value;
    var t := req.turfId.value;
    HalfHourPlan(req, a);
    var p := PlanOf(req).value;
    assert PriceOf(st.turfs[t].pricePerHour, p.duration.value) == price;
    FreeKeyInserts(st, t, day, a);
    ReachesReserve(st, actor, req, order);
    ReserveOrphan(st, actor, t, p, day, price, Key(a), order);
    OrphanSlot(CreateBooking(st, actor, req, order), st, t, day.start, Key(a));
  }

  /** The database a successful Reserve leaves: the claimed slots marked booked by the new
      booking, whose id is the next one and whose primary slot is the first claimed. */
  lemma ReserveUnfold(st: Store, actor: Actor, turfId: Id, p: Plan, day: DayRange, price: Price,
                      keys: seq<string>, order: real -> Option<string>)
    requires p.duration.Some?
    requires Reserve(st, actor, turfId, p, day, price, keys, order).outcome.Created?
    ensures var r := Reserve(st, actor, turfId, p, day, price, keys, order);
      var cl := Claim(st, st.slots, turfId, day, keys);
      var id := r.outcome.id;
      && cl.ok && |cl.ids| > 0 && id == cl.store.nextId
      && id in r.store.bookings && r.store.bookings == cl.store.bookings[id := r.store.bookings[id]]
      && r.store.slots == MarkBooked(cl.store.slots, cl.ids, id)
      && r.store.turfs == st.turfs && r.store.users == st.users && r.store.nextId == id + 1
      && BookingValid(r.store.bookings[id])
      && r.store.bookings[id].status == Pending && !r.store.bookings[id].isAdvancePaid
      && r.store.bookings[id].slotId == cl.ids[0] && r.store.bookings[id].userId == actor.id
      && r.store.bookings[id].turfId == turfId && r.store.bookings[id].date == day.start
    ensures var r := Reserve(st, actor, turfId, p, day, price, keys, order);
      var b := r.store.bookings[r.outcome.id];
      && b.time == p.start && b.startTime == Some(p.start) && b.endTime == p.end
      && b.duration == p.duration.value
      && b.totalAmount == price.total && b.advanceAmount == price.advance
      && b.remainingAmount == price.remaining
      && order(price.advance * 100.0).Some? && b.razorpayOrderId == order(price.advance * 100.0)
  {
  }

  /** Recording the booking and marking its slots keeps the invariant: marking touches
      neither a slot's cell nor its time, and the booking passed validation. */
  lemma MarkedKeepsInv(st: Store, ids: seq<Id>, b: Booking)
    requires Inv(st) && BookingValid(b)
    ensures Inv(Store(st.turfs, MarkBooked(st.slots, ids, st.nextId), st.bookings[st.nextId := b],
                      st.users, st.nextId + 1))
  {
    var m := MarkBooked(st.slots, ids, st.nextId);
    forall i, j | i in m && j in m && i != j
      ensures !SameCell(m[i], m[j])
    {
      assert !SameCell(st.slots[i], st.slots[j]);
    }
  }

  /** A successful Reserve keeps the invariant. */
  lemma ReserveKeepsInv(st: Store, actor: Actor, turfId: Id, p: Plan, day: DayRange, price: Price,
                        keys: seq<string>, order: real -> Option<string>)
    requires Inv(st) && day.start % MsPerDay == 0 && p.duration.Some?
    requires Reserve(st, actor, turfId, p, day, price, keys, order).outcome.Created?
    ensures Inv(Reserve(st, actor, turfId, p, day, price, keys, order).store)
  {
    var r := Reserve(st, actor, turfId, p, day, price, keys, order);
    var cl := Claim(st, st.slots, turfId, day, keys);
    ReserveUnfold(st, actor, turfId, p, day, price, keys, order);
    ClaimKeepsInv(st, st.slots, turfId, day, keys);
    MarkedKeepsInv(cl.store, cl.ids, r.store.bookings[r.outcome.id]);
    assert r.store == Store(cl.store.turfs, MarkBooked(cl.store.slots, cl.ids, cl.store.nextId),
                            cl.store.bookings[cl.store.nextId := r.store.bookings[r.outcome.id]],
                            cl.store.users, cl.store.nextId + 1);
  }

  /** After a successful Reserve each key has exactly one slot of that turf and day, booked by
      the new booking, and the primary slot answers the first key. */
  lemma ReserveBooksEachKey(st: Store, actor: Actor, turfId: Id, p: Plan, day: DayRange, price: Price,
                            keys: seq<string>, order: real -> Option<string>)
    requires Inv(st) && day.start % MsPerDay == 0 && day.end == day.start + MsPerDay && p.duration.Some?
    requires Reserve(st, actor, turfId, p, day, price, keys, order).outcome.Created?
    ensures |keys| > 0
    ensures var r := Reserve(st, actor, turfId, p, day, price, keys, order);
      r.store.bookings[r.outcome.id].slotId in r.store.slots
      && Matches(r.store.slots[r.store.bookings[r.outcome.id].slotId], turfId, day, keys[0])
    ensures var r := Reserve(st, actor, turfId, p, day, price, keys, order);
      forall j :: 0 <= j < |keys| ==> OnlyBookedSlot(r.store, turfId, day, keys[j], r.outcome.id)
  {
    ReserveUnfold(st, actor, turfId, p, day, price, keys, order);
    ClaimCount(st, st.slots, turfId, day, keys);
    ClaimAt(st, st.slots, turfId, day, keys, 0);
    forall j | 0 <= j < |keys|
      ensures OnlyBookedSlot(Reserve(st, actor, turfId, p, day, price, keys, order).store, turfId, day, keys[j],
                             Reserve(st, actor, turfId, p, day, price, keys, order).outcome.id)
    {
      ReserveBooksKey(st, actor, turfId, p, day, price, keys, order, j);
    }
  }

  /** The j-th key's slot after a successful Reserve. */
  lemma ReserveBooksKey(st: Store, actor: Actor, turfId: Id, p: Plan, day: DayRange, price: Price,
                        keys: seq<string>, order: real -> Option<string>, j: nat)
    requires Inv(st) && day.start % MsPerDay == 0 && day.end == day.start + MsPerDay && p.duration.Some?
    requires Reserve(st, actor, turfId, p, day, price, keys, order).outcome.Created?
    requires j < |keys|
    ensures var r := Reserve(st, actor, turfId, p, day, price, keys, order);
      OnlyBookedSlot(r.store, turfId, day, keys[j], r.outcome.id)
  {
    var r := Reserve(st, actor, turfId, p, day, price, keys, order);
    var cl := Claim(st, st.slots, turfId, day, keys);
    ReserveUnfold(st, actor, turfId, p, day, price, keys, order);
    ClaimCount(st, st.slots, turfId, day, keys);
    ClaimKeepsInv(st, st.slots, turfId, day, keys);
    ClaimAt(st, st.slots, turfId, day, keys, j);
    var s := cl.ids[j];
    forall i | i in r.store.slots && Matches(r.store.slots[i], turfId, day, keys[j])
      ensures i == s
    {
      assert Matches(cl.store.slots[i], turfId, day, keys[j]);
      AtMostOneMatch(cl.store, turfId, day, keys[j], i, s);
    }
    assert s in cl.ids;
  }

  /** Exactly one slot of the turf answers the day query for that time, and it is booked by
      the given booking. */
  ghost predicate OnlyBookedSlot(st: Store, turfId: Id, day: DayRange, time: string, bookingId: Id)
  {
    exists s :: s in st.slots
      && (forall i :: i in st.slots && Matches(st.slots[i], turfId, day, time) <==> i == s)
      && st.slots[s].isBooked && st.slots[s].bookingId == Some(bookingId)
  }

  /** A successful Reserve leaves every slot that no requested key of that turf and day
      matches exactly as it was. */
  lemma ReserveLeavesOthers(st: Store, actor: Actor, turfId: Id, p: Plan, day: DayRange, price: Price,
                            keys: seq<string>, order: real -> Option<string>, i: Id)
    requires Inv(st) && day.start < day.end && p.duration.Some?
    requires Reserve(st, actor, turfId, p, day, price, keys, order).outcome.Created?
    requires i in st.slots && forall k :: k in keys ==> !Matches(st.slots[i], turfId, day, k)
    ensures i in Reserve(st, actor, turfId, p, day, price, keys, order).store.slots
    ensures Reserve(st, actor, turfId, p, day, price, keys, order).store.slots[i] == st.slots[i]
  {
    var cl := Claim(st, st.slots, turfId, day, keys);
    ReserveUnfold(st, actor, turfId, p, day, price, keys, order);
    ClaimKeepsSlot(st, st.slots, turfId, day, keys, i);
    forall j | 0 <= j < |cl.ids|
      ensures cl.ids[j] != i
    {
      ClaimAt(st, st.slots, turfId, day, keys, j);
      assert keys[j] in keys;
    }
  }

  /** The money and order fields a booking made for plan p at the given hourly price
      carries: the plan's start, end and duration; the price times the duration as the
      total; Math.round of a quarter of the total as the advance; the rest as the remainder;
      and the id of the Razorpay order for the advance in paise. */
  predicate Charged(b: Booking, pricePerHour: real, p: Plan, order: real -> Option<string>)
    requires p.duration.Some?
  {
    && b.time == p.start && b.endTime == p.end && b.duration == p.duration.value
    && b.totalAmount == pricePerHour * p.duration.value
    && b.advanceAmount == Round(b.totalAmount / 4.0) as real
    && b.advanceAmount + b.remainingAmount == b.totalAmount
    && b.razorpayOrderId.Some? && b.razorpayOrderId == order(b.advanceAmount * 100.0)
  }

  /** The booking a 201 stores carries what lines 51-54 computed and lines 131-132 ordered
      (Charged). */
  lemma CreatedBookingCharges(st: Store, actor: Actor, req: BookingRequest, order: real -> Option<string>)
    requires CreateBooking(st, actor, req, order).outcome.Created?
    ensures PassesGuards(st, req)
    ensures var r := CreateBooking(st, actor, req, order);
      && r.outcome.id in r.store.bookings
      && Charged(r.store.bookings[r.outcome.id], st.turfs[req.turfId.value].pricePerHour, PlanOf(req).value, order)
  {
    CreatedPassedChecks(st, actor, req, order);
    ReachesReserve(st, actor, req, order);
    var p := PlanOf(req).value;
    var price := st.turfs[req.turfId.value].pricePerHour;
    ReserveCharges(st, actor, req.turfId.value, p, DateRange(req.date).value, price, Keys(p), order,
                   CreateBooking(st, actor, req, order));
  }

  /** CreatedBookingCharges at the level of the slot loop and Booking.create. */
  lemma ReserveCharges(st: Store, actor: Actor, turfId: Id, p: Plan, day: DayRange, pricePerHour: real,
                       keys: seq<string>, order: real -> Option<string>, r: Reply)
    requires p.duration.Some?
    requires r == Reserve(st, actor, turfId, p, day, PriceOf(pricePerHour, p.duration.value), keys, order)
    requires r.outcome.Created?
    ensures r.outcome.id in r.store.bookings && Charged(r.store.bookings[r.outcome.id], pricePerHour, p, order)
  {
    ReserveUnfold(st, actor, turfId, p, day, PriceOf(pricePerHour, p.duration.value), keys, order);
  }

  /** On success: the booking is new, pending and unpaid; every requested key of that turf
      and day has exactly one slot, booked by it; the primary slot is the first key's;
      slots for other keys, days or turfs keep their state; turfs and users are untouched;
      and the invariant still holds. */
  lemma CreateBookingSucceeds(st: Store, actor: Actor, req: BookingRequest, order: real -> Option<string>)
    requires Inv(st)
    requires CreateBooking(st, actor, req, order).outcome.Created?
    ensures PassesGuards(st, req)
    ensures var r := CreateBooking(st, actor, req, order);
      var id := r.outcome.id;
      && Inv(r.store)
      && id !in st.bookings && id in r.store.bookings
      && r.store.bookings == st.bookings[id := r.store.bookings[id]]
      && r.store.bookings[id].status == Pending && !r.store.bookings[id].isAdvancePaid
      && r.store.bookings[id].userId == actor.id && r.store.bookings[id].turfId == req.turfId.value
      && r.store.bookings[id].date == DateRange(req.date).value.start
      && r.store.turfs == st.turfs && r.store.users == st.users
    ensures var r := CreateBooking(st, actor, req, order);
      Charged(r.store.bookings[r.outcome.id], st.turfs[req.turfId.value].pricePerHour, PlanOf(req).value, order)
    ensures var r := CreateBooking(st, actor, req, order);
      var keys := Keys(PlanOf(req).value);
      && |keys| > 0
      && (forall j :: 0 <= j < |keys| ==>
            OnlyBookedSlot(r.store, req.turfId.value, DateRange(req.date).value, keys[j], r.outcome.id))
      && r.store.bookings[r.outcome.id].slotId in r.store.slots
      && Matches(r.store.slots[r.store.bookings[r.outcome.id].slotId], req.turfId.value,
                 DateRange(req.date).value, keys[0])
    ensures var r := CreateBooking(st, actor, req, order);
      forall i :: i in st.slots
        && (forall k :: k in Keys(PlanOf(req).value) ==> !Matches(st.slots[i], req.turfId.value, DateRange(req.date).value, k))
        ==> i in r.store.slots && r.store.slots[i] == st.slots[i]
  {
    CreatedBookingCharges(st, actor, req, order);
    CreatedPassedChecks(st, actor, req, order);
    ReachesReserve(st, actor, req, order);
    var p := PlanOf(req).value;
    var day := DateRange(req.date).value;
    var t := req.turfId.value;
    var price := PriceOf(st.turfs[t].pricePerHour, p.duration.value);
    var keys := Keys(p);
    assert day.start % MsPerDay == 0 && day.end == day.start + MsPerDay;
    ReserveUnfold(st, actor, t, p, day, price, keys, order);
    ReserveKeepsInv(st, actor, t, p, day, price, keys, order);
    ReserveBooksEachKey(st, actor, t, p, day, price, keys, order);
    forall i | i in st.slots && (forall k :: k in keys ==> !Matches(st.slots[i], t, day, k))
      ensures i in Reserve(st, actor, t, p, day, price, keys, order).store.slots
      ensures Reserve(st, actor, t, p, day, price, keys, order).store.slots[i] == st.slots[i]
    {
      ReserveLeavesOthers(st, actor, t, p, day, price, keys, order, i);
    }
    assert st.nextId <= Claim(st, st.slots, t, day, keys).store.nextId;
  }

  // ---------------------------------------------------------------------------
  // getBooking

  /** GET /api/bookings/:id: 404 for an unknown booking; the booking's user, the owner of its
      turf and admins may read it, anyone else gets 403. The populated user and turf are
      dereferenced, so a booking whose user or turf is gone throws. */
  function GetBooking(st: Store, actor: Actor, id: Id): (o: Outcome)
    ensures id !in st.bookings ==> o == NotFound("Booking not found")
    ensures o == Ok ==> id in st.bookings && CanView(st, actor, st.bookings[id])
    ensures o.Forbidden? ==> id in st.bookings && !CanView(st, actor, st.bookings[id])
    ensures id in st.bookings && st.bookings[id].userId in st.users && st.bookings[id].turfId in st.turfs ==>
      (o == Ok <==> CanView(st, actor, st.bookings[id]))
  {
    if id !in st.bookings then NotFound("Booking not found")
    else
      var b := st.bookings[id];
      if b.userId !in st.users then Thrown
      else if b.userId == actor.id then Ok
      else if b.turfId !in st.turfs then Thrown
      else if st.turfs[b.turfId].owner == actor.id || actor.role == Admin then Ok
      else Forbidden("Not authorized")
  }

  /** Who may read a booking: its user, the owner of its turf, or an admin. */
  predicate CanView(st: Store, actor: Actor, b: Booking)
  {
    b.userId == actor.id || (b.turfId in st.turfs && st.turfs[b.turfId].owner == actor.id)
    || actor.role == Admin
  }

  // ---------------------------------------------------------------------------
  // cancelBooking

  /** Who may cancel a booking: its user or an admin. Unlike reading, the turf owner may not. */
  predicate CanCancel(actor: Actor, b: Booking)
  {
    b.userId == actor.id || actor.role == Admin
  }

  /** A string field that is set and non-empty (truthy in JavaScript). */
  predicate Truthy(s: Option<string>) { s.Some? && s.value != "" }

  /** PUT /api/bookings/:id/cancel with body `{reason}` ("" when absent). The refund branch
      tests the status after it has just been set to cancelled, so it never fires. Only the
      primary slot (the booking's slotId) is released; isBlocked is left alone. */
  function CancelBooking(st: Store, actor: Actor, id: Id, reason: string, now: int): (r: Reply)
  {
    if id !in st.bookings then Reply(NotFound("Booking not found"), st)
    else
      var b := st.bookings[id];
      if !CanCancel(actor, b) then Reply(Forbidden("Not authorized to cancel this booking"), st)
      else if b.status == Cancelled then Reply(BadRequest("Booking is already cancelled"), st)
      else if b.status == Completed then Reply(BadRequest("Cannot cancel completed booking"), st)
      else
        var b1 := CancelledBooking(b, reason, now);
        var b2 := if Truthy(b1.razorpayPaymentId) && b1.status == Confirmed
                  then b1.(refundStatus := RefundPending, refundAmount := b1.totalAmount) else b1;
        var st1 := st.(bookings := st.bookings[id := b2]);
        Reply(Ok, ReleaseSlot(st1, b.slotId))
  }

  /** Lines 269-271: the booking marked cancelled at `now`, the reason defaulting to
      'Cancelled by user'. */
  function CancelledBooking(b: Booking, reason: string, now: int): Booking
  {
    b.(status := Cancelled, cancelledAt := Some(now),
       cancellationReason := Some(if reason == "" then "Cancelled by user" else reason))
  }

  /** `slot.isBooked = false; slot.bookingId = null` on the slot with that id, if it exists. */
  function ReleaseSlot(st: Store, slotId: Id): (r: Store)
    ensures r.turfs == st.turfs && r.bookings == st.bookings && r.users == st.users && r.nextId == st.nextId
    ensures r.slots.Keys == st.slots.Keys
    ensures forall i :: i in st.slots && i != slotId ==> r.slots[i] == st.slots[i]
    ensures slotId in st.slots ==>
      r.slots[slotId] == st.slots[slotId].(isBooked := false, bookingId := None)
  {
    if slotId in st.slots then
      st.(slots := st.slots[slotId := st.slots[slotId].(isBooked := false, bookingId := None)])
    else st
  }

  /** Releasing a slot only touches booking flags, so no two slots come to share a cell. */
  lemma {:induction false} ReleaseKeepsInv(st: Store, slotId: Id)
    requires Inv(st)
    ensures Inv(ReleaseSlot(st, slotId))
  {
    var m := ReleaseSlot(st, slotId).slots;
    forall i, j | i in m && j in m && i != j
      ensures !SameCell(m[i], m[j])
    {
      assert !SameCell(st.slots[i], st.slots[j]);
    }
  }

  /** The refusals of cancel: unknown booking 404, neither its user nor an admin 403 (the
      turf owner included), already cancelled or completed 400; none writes anything. */
  lemma CancelRefusals(st: Store, actor: Actor, id: Id, reason: string, now: int)
    ensures var r := CancelBooking(st, actor, id, reason, now);
      && (id !in st.bookings ==> r == Reply(NotFound("Booking not found"), st))
      && (id in st.bookings && !CanCancel(actor, st.bookings[id]) ==>
            r == Reply(Forbidden("Not authorized to cancel this booking"), st))
      && (id in st.bookings && CanCancel(actor, st.bookings[id]) && st.bookings[id].status == Cancelled ==>
            r == Reply(BadRequest("Booking is already cancelled"), st))
      && (id in st.bookings && CanCancel(actor, st.bookings[id]) && st.bookings[id].status == Completed ==>
            r == Reply(BadRequest("Cannot cancel completed booking"), st))
      && (r.outcome != Ok ==> r.store == st)
  {
  }

  /** What a successful cancel writes: the booking cancelled (the refund branch cannot fire,
      since it tests a status just set to cancelled), then the primary slot released. */
  lemma CancelUnfold(st: Store, actor: Actor, id: Id, reason: string, now: int)
    requires CancelBooking(st, actor, id, reason, now).outcome == Ok
    ensures id in st.bookings && CanCancel(actor, st.bookings[id])
    ensures st.bookings[id].status == Pending || st.bookings[id].status == Confirmed
    ensures CancelBooking(st, actor, id, reason, now).store
      == ReleaseSlot(st.(bookings := st.bookings[id := CancelledBooking(st.bookings[id], reason, now)]),
                     st.bookings[id].slotId)
  {
  }

  /** A successful cancel, on the booking: it becomes cancelled at `now`, with the given
      reason or 'Cancelled by user'; its refund fields and everything else about it are
      unchanged, and so is every other booking. */
  lemma CancelEffect(st: Store, actor: Actor, id: Id, reason: string, now: int)
    requires CancelBooking(st, actor, id, reason, now).outcome == Ok
    ensures id in st.bookings && CanCancel(actor, st.bookings[id])
    ensures st.bookings[id].status == Pending || st.bookings[id].status == Confirmed
    ensures var r := CancelBooking(st, actor, id, reason, now);
      var b := st.bookings[id];
      && r.store.bookings == st.bookings[id := CancelledBooking(b, reason, now)]
      && r.store.bookings[id].status == Cancelled && r.store.bookings[id].cancelledAt == Some(now)
      && r.store.bookings[id].cancellationReason == Some(if reason == "" then "Cancelled by user" else reason)
      && r.store.bookings[id].refundStatus == b.refundStatus
      && r.store.bookings[id].refundAmount == b.refundAmount
      && r.store.turfs == st.turfs && r.store.nextId == st.nextId
  {
    CancelUnfold(st, actor, id, reason, now);
  }

  /** A successful cancel, on the slots: only the booking's primary slot is freed (bookingId
      cleared, isBlocked kept), and every other slot keeps its state. */
  lemma CancelSlotEffect(st: Store, actor: Actor, id: Id, reason: string, now: int)
    requires CancelBooking(st, actor, id, reason, now).outcome == Ok
    ensures id in st.bookings
    ensures var r := CancelBooking(st, actor, id, reason, now);
      var b := st.bookings[id];
      && r.store.slots.Keys == st.slots.Keys
      && (forall i :: i in st.slots && i != b.slotId ==> r.store.slots[i] == st.slots[i])
      && (b.slotId in st.slots ==> (!r.store.slots[b.slotId].isBooked
            && r.store.slots[b.slotId].bookingId.None?
            && r.store.slots[b.slotId].isBlocked == st.slots[b.slotId].isBlocked))
  {
    CancelUnfold(st, actor, id, reason, now);
  }

  /** Cancelling keeps the invariant: the cancelled booking still passes its validators and
      releasing a slot leaves every cell where it was. */
  lemma CancelKeepsInv(st: Store, actor: Actor, id: Id, reason: string, now: int)
    requires Inv(st)
    ensures Inv(CancelBooking(st, actor, id, reason, now).store)
  {
    if CancelBooking(st, actor, id, reason, now).outcome == Ok {
      CancelUnfold(st, actor, id, reason, now);
      CancelledKeepsInv(st, id, reason, now);
      ReleaseKeepsInv(st.(bookings := st.bookings[id := CancelledBooking(st.bookings[id], reason, now)]),
                      st.bookings[id].slotId);
    }
  }

  lemma CancelledKeepsInv(st: Store, id: Id, reason: string, now: int)
    requires Inv(st) && id in st.bookings
    ensures Inv(st.(bookings := st.bookings[id := CancelledBooking(st.bookings[id], reason, now)]))
  {
  }

  /** After a cancel, the booking's other range slots stay booked by it: only the primary
      slot is released, so a multi-slot booking leaves its later slots held. */
  lemma CancelKeepsRangeSlots(st: Store, actor: Actor, id: Id, reason: string, now: int, s: Id)
    requires CancelBooking(st, actor, id, reason, now).outcome == Ok
    requires s in st.slots && s != st.bookings[id].slotId && st.slots[s].bookingId == Some(id)
    ensures CancelBooking(st, actor, id, reason, now).store.slots[s].bookingId == Some(id)
    ensures CancelBooking(st, actor, id, reason, now).store.slots[s].isBooked == st.slots[s].isBooked
  {
    CancelSlotEffect(st, actor, id, reason, now);
  }
}
