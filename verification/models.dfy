/** The three Mongoose collections of the backend (Slot, Booking, Turf) and the user roles the
    controllers consult, as immutable records kept in maps keyed by document id.

    A schema is a predicate over records plus a constructor that applies the schema defaults
    and runs its validators: `Model.create(fields)` either yields the stored document or throws
    a validation error (None). Document ids (ObjectIds) are natural numbers drawn from one
    counter, so a freshly created document never collides with an existing one. */
module Models {
  import opened Js
  import opened TimeOfDay
  import opened DateUtils

  type Id = nat

  // ---------------------------------------------------------------------------
  // Users

  /** The `role` of a user document: 'user', 'owner' or 'admin'. */
  datatype Role = Member | Owner | Admin

  /** `req.user` as the authentication middleware leaves it. */
  datatype Actor = Actor(id: Id, role: Role)

  // ---------------------------------------------------------------------------
  // Slot (backend/models/Slot.model.js)

  /** One bookable 30-minute cell of a turf's day. `date` is an instant in milliseconds. */
  datatype Slot = Slot(turfId: Id, date: int, time: string, isBooked: bool, isBlocked: bool,
                       bookingId: Option<Id>)

  /** The schema's validators: `time` is required and must match the HH:MM pattern. */
  predicate SlotValid(s: Slot)
  {
    MatchesTimePattern(s.time)
  }

  /** `Slot.create({turfId, date, time, isBooked: false})`: the validated document with the
      schema defaults (not blocked, no booking), or a validation error. */
  function CreateSlotDoc(turfId: Id, date: int, time: string): (r: Option<Slot>)
    ensures r.Some? <==> MatchesTimePattern(time)
    ensures r.Some? ==> (SlotValid(r.value) && r.value.turfId == turfId && r.value.date == date
      && r.value.time == time)
    ensures r.Some? ==> !r.value.isBooked && !r.value.isBlocked && r.value.bookingId.None?
  {
    var s := Slot(turfId, date, time, false, false, None);
    if SlotValid(s) then Some(s) else None
  }

  /** Two slots collide on the unique index (turfId, date, time). */
  predicate SameCell(a: Slot, b: Slot)
  {
    a.turfId == b.turfId && a.date == b.date && a.time == b.time
  }

  // ---------------------------------------------------------------------------
  // Booking (backend/models/Booking.model.js)

  datatype BookingStatus = Pending | Confirmed | Cancelled | Completed
  datatype RefundStatus = NoRefund | RefundPending | RefundProcessed

  /** The string stored for a status. */
  function StatusName(s: BookingStatus): string
  {
    match s
    case Pending => "pending"
    case Confirmed => "confirmed"
    case Cancelled => "cancelled"
    case Completed => "completed"
  }

  /** The `enum` validator of `status`: the strings it accepts are exactly the four names. */
  function ParseStatus(s: string): (r: Option<BookingStatus>)
    ensures forall b: BookingStatus :: r == Some(b) <==> StatusName(b) == s
  {
    if s == "pending" then Some(Pending)
    else if s == "confirmed" then Some(Confirmed)
    else if s == "cancelled" then Some(Cancelled)
    else if s == "completed" then Some(Completed)
    else None
  }

  function RefundName(s: RefundStatus): string
  {
    match s
    case NoRefund => "none"
    case RefundPending => "pending"
    case RefundProcessed => "processed"
  }

  /** The `enum` validator of `refundStatus`. */
  function ParseRefund(s: string): (r: Option<RefundStatus>)
    ensures forall b: RefundStatus :: r == Some(b) <==> RefundName(b) == s
  {
    if s == "none" then Some(NoRefund)
    else if s == "pending" then Some(RefundPending)
    else if s == "processed" then Some(RefundProcessed)
    else None
  }

  /** A booking document. Nullable fields are Options; amounts and durations are reals. A
      legacy single-time booking has no startTime/endTime. */
  datatype Booking = Booking(
    userId: Id, turfId: Id, slotId: Id, date: int, time: string,
    startTime: Option<string>, endTime: Option<string>, duration: real,
    totalAmount: real, advanceAmount: real, remainingAmount: real,
    isAdvancePaid: bool, isFullAmountPaid: bool,
    paymentId: Option<string>, razorpayOrderId: Option<string>, razorpayPaymentId: Option<string>,
    status: BookingStatus, cancelledAt: Option<int>, cancellationReason: Option<string>,
    refundAmount: real, refundStatus: RefundStatus)

  /** The schema's validators: `time` is a required string (so not empty) and `duration` has
      minimum 1. The other required fields are always present in this typed record. */
  predicate BookingValid(b: Booking)
  {
    b.time != "" && b.duration >= 1.0
  }

  /** What the booking controller hands to `Booking.create`; every other field is left to
      its schema default. */
  datatype BookingFields = BookingFields(
    userId: Id, turfId: Id, slotId: Id, date: int, time: string,
    startTime: Option<string>, endTime: Option<string>, duration: real,
    totalAmount: real, advanceAmount: real, remainingAmount: real,
    razorpayOrderId: Option<string>)

  /** `Booking.create(fields)`: fails validation exactly when the time is empty or the
      duration is below one hour; otherwise the given fields are kept and the rest take their
      defaults (pending, nothing paid, no payment ids, no cancellation, no refund). */
  function CreateBookingDoc(f: BookingFields): (r: Option<Booking>)
    ensures r.Some? <==> f.time != "" && f.duration >= 1.0
    ensures r.Some? ==> BookingValid(r.value)
    ensures r.Some? ==> (r.value.userId == f.userId && r.value.turfId == f.turfId
      && r.value.slotId == f.slotId && r.value.date == f.date && r.value.time == f.time
      && r.value.startTime == f.startTime && r.value.endTime == f.endTime
      && r.value.duration == f.duration && r.value.totalAmount == f.totalAmount
      && r.value.advanceAmount == f.advanceAmount && r.value.remainingAmount == f.remainingAmount
      && r.value.razorpayOrderId == f.razorpayOrderId)
    ensures r.Some? ==> (r.value.status == Pending && !r.value.isAdvancePaid
      && !r.value.isFullAmountPaid && r.value.paymentId.None? && r.value.razorpayPaymentId.None?
      && r.value.cancelledAt.None? && r.value.cancellationReason.None?
      && r.value.refundAmount == 0.0 && r.value.refundStatus == NoRefund)
  {
    var b := Booking(f.userId, f.turfId, f.slotId, f.date, f.time, f.startTime, f.endTime,
                     f.duration, f.totalAmount, f.advanceAmount, f.remainingAmount,
                     false, false, None, f.razorpayOrderId, None,
                     Pending, None, None, 0.0, NoRefund);
    if BookingValid(b) then Some(b) else None
  }

  // ---------------------------------------------------------------------------
  // Turf (backend/models/Turf.model.js)

  datatype Location = Location(address: string, city: string, state: string, pincode: string,
                               lat: real, lng: real)
  datatype Hours = Hours(open: string, close: string)

  datatype Turf = Turf(
    name: string, description: string, sportType: string, location: Location,
    pricePerHour: real, images: seq<string>, amenities: seq<string>, rules: seq<string>,
    owner: Id, isActive: bool, isApproved: bool, rating: real, totalReviews: real,
    hours: Hours)

  /** The seven sports a turf may offer. */
  const SportTypes: seq<string> :=
    ["football", "cricket", "badminton", "tennis", "basketball", "volleyball", "multi-sport"]

  /** The schema's validators: required strings are non-empty (the name after trimming),
      the sport is one of the seven, the price is not negative, the rating is within 0..5,
      and every image URL is present. */
  predicate TurfValid(t: Turf)
  {
    && t.name != "" && t.description != ""
    && t.sportType in SportTypes
    && t.location.address != "" && t.location.city != "" && t.location.state != ""
    && t.location.pincode != ""
    && t.pricePerHour >= 0.0
    && (forall i :: 0 <= i < |t.images| ==> t.images[i] != "")
    && 0.0 <= t.rating <= 5.0
  }

  /** The fields a turf is created from; None is a field the request left out (or a number
      that is NaN). */
  datatype TurfFields = TurfFields(
    name: Option<string>, description: Option<string>, sportType: Option<string>,
    address: string, city: string, state: string, pincode: string, lat: real, lng: real,
    pricePerHour: Option<real>, images: seq<string>, amenities: seq<string>,
    rules: seq<string>, owner: Id, isActive: Option<bool>, isApproved: Option<bool>,
    open: Option<string>, close: Option<string>)

  /** The default of a field the request left out. */
  function OrElse<T>(o: Option<T>, d: T): (r: T)
    ensures o.Some? ==> r == o.value
    ensures o.None? ==> r == d
  {
    if o.Some? then o.value else d
  }

  /** `Turf.create(fields)`: the name is trimmed; missing flags and hours take their defaults
      (active, not approved, 06:00 to 22:00); rating and review count start at 0; a missing
      required field or a failing validator is a validation error. */
  function CreateTurfDoc(f: TurfFields): (r: Option<Turf>)
    ensures r.Some? ==> TurfValid(r.value)
    ensures r.Some? <==> (f.name.Some? && f.description.Some? && f.sportType.Some?
      && f.pricePerHour.Some? && TurfValid(TurfOfFields(f)))
    ensures r.Some? ==> (r.value.name == Trim(f.name.value) && r.value.owner == f.owner
      && r.value.pricePerHour == f.pricePerHour.value)
    ensures r.Some? ==> (r.value.isActive == OrElse(f.isActive, true)
      && r.value.isApproved == OrElse(f.isApproved, false)
      && r.value.hours == Hours(OrElse(f.open, "06:00"), OrElse(f.close, "22:00"))
      && r.value.rating == 0.0)
  {
    if f.name.None? || f.description.None? || f.sportType.None? || f.pricePerHour.None? then None
    else
      var t := TurfOfFields(f);
      if TurfValid(t) then Some(t) else None
  }

  /** The document `Turf.create` would store before validation (missing fields read as ""
      or 0, which the validators then reject). */
  function TurfOfFields(f: TurfFields): Turf
  {
    Turf(Trim(OrElse(f.name, "")), OrElse(f.description, ""), OrElse(f.sportType, ""),
         Location(f.address, f.city, f.state, f.pincode, f.lat, f.lng),
         OrElse(f.pricePerHour, 0.0), f.images, f.amenities, f.rules, f.owner,
         OrElse(f.isActive, true), OrElse(f.isApproved, false), 0.0, 0.0,
         Hours(OrElse(f.open, "06:00"), OrElse(f.close, "22:00")))
  }

  /** A turf created from fields that leave out the flags and the hours is active, not yet
      approved, open 06:00 to 22:00 and unrated. */
  lemma TurfDefaults(f: TurfFields)
    requires CreateTurfDoc(f).Some?
    requires f.isActive.None? && f.isApproved.None? && f.open.None? && f.close.None?
    ensures CreateTurfDoc(f).value.isActive && !CreateTurfDoc(f).value.isApproved
    ensures CreateTurfDoc(f).value.hours == Hours("06:00", "22:00")
    ensures CreateTurfDoc(f).value.rating == 0.0
  {
  }

  // ---------------------------------------------------------------------------
  // The database

  /** All collections, plus the counter that hands out fresh document ids. */
  datatype Store = Store(turfs: map<Id, Turf>, slots: map<Id, Slot>, bookings: map<Id, Booking>,
                         users: map<Id, Role>, nextId: Id)

  /** A controller's reply: 200, 201 with the new document's id, 400, 403 or 404 with the
      message the controller sends, or an exception forwarded to the error handler. */
  datatype Outcome = Ok | Created(id: Id) | BadRequest(message: string) | Forbidden(message: string)
                   | NotFound(message: string) | Thrown

  /** A reply together with the database as the request leaves it. */
  datatype Reply = Reply(outcome: Outcome, store: Store)

  /** The facts every request relies on and preserves:
      - ids handed out so far are below the counter;
      - slots are stored at UTC midnights and carry valid times;
      - the unique index on (turfId, date, time) holds;
      - every stored booking passed its schema's validators. */
  predicate Inv(st: Store)
  {
    && (forall i :: i in st.slots ==> i < st.nextId)
    && (forall i :: i in st.bookings ==> i < st.nextId)
    && (forall i :: i in st.turfs ==> i < st.nextId)
    && (forall i :: i in st.slots ==> st.slots[i].date % MsPerDay == 0 && SlotValid(st.slots[i]))
    && SlotsUnique(st.slots)
    && (forall i :: i in st.bookings ==> BookingValid(st.bookings[i]))
  }

  predicate SlotsUnique(slots: map<Id, Slot>)
  {
    forall i, j :: i in slots && j in slots && i != j ==> !SameCell(slots[i], slots[j])
  }

  /** `Slot.create` against the database: a validation error or a duplicate of the unique
      index throws (None); otherwise the new slot gets the next id. */
  function InsertSlot(st: Store, turfId: Id, date: int, time: string): (r: Option<Store>)
    ensures r.Some? <==> (MatchesTimePattern(time)
      && !exists i :: i in st.slots && SameCell(st.slots[i], Slot(turfId, date, time, false, false, None)))
    ensures r.Some? ==> (r.value == st.(slots := st.slots[st.nextId := Slot(turfId, date, time, false, false, None)],
                                       nextId := st.nextId + 1))
  {
    var doc := CreateSlotDoc(turfId, date, time);
    if doc.None? then None
    else if exists i :: i in st.slots && SameCell(st.slots[i], doc.value) then None
    else Some(st.(slots := st.slots[st.nextId := doc.value], nextId := st.nextId + 1))
  }

  /** Inserting a slot keeps the invariant, provided its date is a UTC midnight; in
      particular the unique index can never be violated by a successful insert. */
  lemma InsertSlotKeepsInv(st: Store, turfId: Id, date: int, time: string)
    requires Inv(st) && date % MsPerDay == 0
    requires InsertSlot(st, turfId, date, time).Some?
    ensures Inv(InsertSlot(st, turfId, date, time).value)
  {
    var st' := InsertSlot(st, turfId, date, time).value;
    var n := st.nextId;
    forall i, j | i in st'.slots && j in st'.slots && i != j
      ensures !SameCell(st'.slots[i], st'.slots[j])
    {
      if i != n && j != n {
        assert st'.slots[i] == st.slots[i] && st'.slots[j] == st.slots[j];
      }
    }
  }

  /** The slot index compares exact strings: '9:00' and '09:00' are both accepted times, yet
      slots carrying them are different cells of the unique index. */
  lemma PaddedAndUnpaddedAreDistinct(turfId: Id, date: int)
    ensures SlotValid(Slot(turfId, date, "9:00", false, false, None))
    ensures SlotValid(Slot(turfId, date, "09:00", false, false, None))
    ensures !SameCell(Slot(turfId, date, "9:00", false, false, None),
                      Slot(turfId, date, "09:00", false, false, None))
  {
    TimePatternMeaning("9:00");
    TimePatternMeaning("09:00");
  }

  // ---------------------------------------------------------------------------
  // Queries

  /** Mongo returns documents in insertion order, which is the order of their ids; the
      first match of a query is therefore the least matching id. */
  function MinOf(s: set<Id>): (m: Id)
    requires s != {}
    ensures m in s && forall x :: x in s ==> m <= x
  {
    HasMin(s);
    var m :| m in s && forall x :: x in s ==> m <= x; m
  }

  lemma HasMin(s: set<Id>)
    requires s != {}
    ensures exists m :: m in s && forall x :: x in s ==> m <= x
  {
    var y :| y in s;
    MinAbove(s, 0, y);
  }

  /** Counting up from a lower bound k of s reaches its least element. */
  lemma {:induction false} MinAbove(s: set<Id>, k: nat, y: Id)
    requires y in s && forall x :: x in s ==> k <= x
    ensures exists m :: m in s && forall x :: x in s ==> m <= x
    decreases y - k
  {
    if k !in s {
      assert k != y;
      MinAbove(s, k + 1, y);
    }
  }

  /** The slot query `{turfId, date: {$gte: start, $lt: end}, time}`. */
  predicate Matches(s: Slot, turfId: Id, day: DayRange, time: string)
  {
    s.turfId == turfId && day.start <= s.date < day.end && s.time == time
  }

  /** A slot that cannot be booked: already booked, or blocked by the owner. */
  predicate Taken(s: Slot) { s.isBooked || s.isBlocked }

  /** `slots.find(s => s.time === time)` over the result of the day query: the first slot of
      the turf on that day with that time, if any. The query returns documents in insertion
      order, so the slot found is the matching one with the least id. */
  function Lookup(slots: map<Id, Slot>, turfId: Id, day: DayRange, time: string): (r: Option<Id>)
    ensures r.None? <==> !exists i :: i in slots && Matches(slots[i], turfId, day, time)
    ensures r.Some? ==> r.value in slots && Matches(slots[r.value], turfId, day, time)
    ensures r.Some? ==> forall i :: i in slots && Matches(slots[i], turfId, day, time) ==> r.value <= i
  {
    var ids := set i | i in slots && Matches(slots[i], turfId, day, time);
    assert forall i :: i in slots && Matches(slots[i], turfId, day, time) ==> i in ids;
    if ids == {} then None else Some(MinOf(ids))
  }

  /** Within a one-day range that starts at a UTC midnight, the only midnight is its start,
      so a slot the day query matches sits exactly at that start. */
  lemma MidnightInDay(d: int, start: int)
    requires d % MsPerDay == 0 && start % MsPerDay == 0
    requires start <= d < start + MsPerDay
    ensures d == start
  {
    assert d == (d / MsPerDay) * MsPerDay && start == (start / MsPerDay) * MsPerDay;
    assert d / MsPerDay == start / MsPerDay;
  }

  /** Under the invariant, a one-day query for a given time matches at most one slot of the
      turf: the unique index made a day-range question. */
  lemma AtMostOneMatch(st: Store, turfId: Id, day: DayRange, time: string, i: Id, j: Id)
    requires Inv(st)
    requires day.start % MsPerDay == 0 && day.end == day.start + MsPerDay
    requires i in st.slots && Matches(st.slots[i], turfId, day, time)
    requires j in st.slots && Matches(st.slots[j], turfId, day, time)
    ensures i == j
  {
    MidnightInDay(st.slots[i].date, day.start);
    MidnightInDay(st.slots[j].date, day.start);
    assert SameCell(st.slots[i], st.slots[j]);
  }
}
