/** The turf endpoints (backend/controllers/turf.controller.js): the listing filter without
    its regular-expression parts, turf creation from the body the upload and form-data
    middleware leave, the owner-or-admin checks of update and delete, and the availability
    grid a turf page draws its time buttons from. */
module TurfController {
  import opened Js
  import opened TimeOfDay
  import opened DateUtils
  import opened Models
  import opened FormData
  import BookingController

  // ---------------------------------------------------------------------------
  // getTurfs

  /** The query-string parameters the filter reads; "" is a parameter that was not given
      (both are falsy). */
  datatype TurfQuery = TurfQuery(sportType: string, minPrice: string, maxPrice: string,
                                 includePending: string)

  /** One price bound: no bound when the parameter is empty, otherwise its Number(). None is a
      bound that is NaN, which Mongoose refuses to cast into the number filter, so the query
      throws. */
  function PriceBound(s: string): (r: Option<Option<real>>)
  {
    if s == "" then Some(None)
    else match ToNumber(s)
      case None => None
      case Some(v) => Some(Some(v))
  }

  /** Lines 12-25 without the city and search regular expressions: active; approved unless
      includePending is exactly 'true'; the sport when one is asked for; the price within the
      given bounds, both inclusive. */
  predicate Listed(t: Turf, q: TurfQuery, lo: Option<real>, hi: Option<real>)
  {
    && t.isActive
    && (q.includePending != "true" ==> t.isApproved)
    && (q.sportType != "" ==> t.sportType == q.sportType)
    && (lo.Some? ==> lo.value <= t.pricePerHour)
    && (hi.Some? ==> t.pricePerHour <= hi.value)
  }

  /** The ids below n whose turf passes keep, highest id first. */
  function Newest(turfs: map<Id, Turf>, n: nat, keep: Turf -> bool): (r: seq<Id>)
    ensures forall i :: 0 <= i < |r| ==> r[i] < n && r[i] in turfs && keep(turfs[r[i]])
    ensures forall i, j :: 0 <= i < j < |r| ==> r[i] > r[j]
    ensures forall id :: id < n && id in turfs && keep(turfs[id]) ==> id in r
  {
    if n == 0 then []
    else
      var rest := Newest(turfs, n - 1, keep);
      if n - 1 in turfs && keep(turfs[n - 1]) then [n - 1] + rest else rest
  }

  /** GET /api/turfs: the listed turfs, newest first (`sort({createdAt: -1})`; ids grow with
      creation time). None is a price bound that is not a number. */
  function GetTurfs(st: Store, q: TurfQuery): (r: Option<seq<Id>>)
  {
    Listing(st, q, PriceBound(q.minPrice), PriceBound(q.maxPrice))
  }

  /** The listing for the price bounds lo and hi, None when either throws. */
  function Listing(st: Store, q: TurfQuery, lo: Option<Option<real>>, hi: Option<Option<real>>): Option<seq<Id>>
  {
    if lo.None? || hi.None? then None
    else Some(Newest(st.turfs, st.nextId, t => Listed(t, q, lo.value, hi.value)))
  }

  /** The listing throws exactly when a given price bound is not a number; otherwise it holds
      exactly the stored turfs that pass the filter, each once, newest first. */
  lemma GetTurfsListsExactly(st: Store, q: TurfQuery, id: Id)
    requires Inv(st)
    ensures GetTurfs(st, q).None? <==>
      (q.minPrice != "" && ToNumber(q.minPrice).None?) || (q.maxPrice != "" && ToNumber(q.maxPrice).None?)
    ensures GetTurfs(st, q).Some? ==>
      (id in GetTurfs(st, q).value <==>
        id in st.turfs && Listed(st.turfs[id], q, PriceBound(q.minPrice).value, PriceBound(q.maxPrice).value))
    ensures GetTurfs(st, q).Some? ==>
      forall i, j :: 0 <= i < j < |GetTurfs(st, q).value| ==> GetTurfs(st, q).value[i] > GetTurfs(st, q).value[j]
  {
  }

  /** What the price parameters mean for a turf that passes the other filters: an omitted
      bound admits every price and a given one is inclusive. */
  lemma PriceRange(t: Turf, q: TurfQuery)
    requires PriceBound(q.minPrice).Some? && PriceBound(q.maxPrice).Some?
    requires t.isActive && (q.includePending != "true" ==> t.isApproved)
    requires q.sportType != "" ==> t.sportType == q.sportType
    ensures Listed(t, q, PriceBound(q.minPrice).value, PriceBound(q.maxPrice).value) <==>
      && (q.minPrice == "" || ToNumber(q.minPrice).value <= t.pricePerHour)
      && (q.maxPrice == "" || t.pricePerHour <= ToNumber(q.maxPrice).value)
  {
  }

  /** An inactive turf is never listed, and an active unapproved one is listed only when
      includePending is exactly 'true' ('TRUE', '1' or 'yes' do not count). */
  lemma PendingVisibility(t: Turf, q: TurfQuery, lo: Option<real>, hi: Option<real>)
    ensures !t.isActive ==> !Listed(t, q, lo, hi)
    ensures t.isActive && !t.isApproved ==> (Listed(t, q, lo, hi) ==> q.includePending == "true")
    ensures !Listed(t, q.(includePending := "TRUE"), lo, hi) || t.isApproved
  {
  }

  // ---------------------------------------------------------------------------
  // createTurf

  /** How Mongoose casts one body value into a schema path: the value was left out, it casts
      to a value, or it has a shape the path refuses (an array or object for a string path),
      which makes `Turf.create` throw. */
  datatype Cast<T> = Missing | Value(value: T) | Refused

  /** A value cast to a string path: a string is kept; an array or an object is refused. */
  function StringOf(v: Field): (r: Cast<string>)
    ensures r.Refused? <==> !v.Text?
  {
    match v
    case Text(s) => Value(s)
    case _ => Refused
  }

  /** A string path. */
  function StringAt(body: Body, k: string): Cast<string>
  {
    if k !in body then Missing else StringOf(body[k])
  }

  /** An array-of-strings path: a single string is cast to a one-element array. */
  function ListAt(body: Body, k: string): Cast<seq<string>>
  {
    if k !in body then Missing
    else match body[k]
      case Text(s) => Value([s])
      case Texts(ss) => Value(ss)
      case _ => Refused
  }

  /** `Number(body[k])`: NaN when the field is missing. */
  function NumberAt(body: Body, k: string): Option<real>
  {
    if k !in body then None else NumberOf(body[k])
  }

  /** Lines 95-101: `Number(c) || 0` for each coordinate (NaN and 0 both become 0); the four
      strings are cast to the schema's string paths, which refuse an array. */
  function LocationOfPlace(p: FormLocation): (l: Cast<Location>)
    ensures l.Refused? <==> !(p.address.Text? && p.city.Text? && p.state.Text? && p.pincode.Text?)
    ensures l.Value? ==> l.value.address == p.address.text && l.value.lat == OrElse(p.lat, 0.0)
  {
    if p.address.Text? && p.city.Text? && p.state.Text? && p.pincode.Text? then
      Value(Location(p.address.text, p.city.text, p.state.text, p.pincode.text,
                     OrElse(p.lat, 0.0), OrElse(p.lng, 0.0)))
    else Refused
  }

  /** Lines 103-109: an `operatingHours` object is kept, anything else (missing or a string)
      is replaced by 06:00 to 22:00; an array is an object that Mongoose then refuses, and so
      is an hours object holding an array. */
  function HoursAt(body: Body): (r: Cast<Hours>)
  {
    if "operatingHours" !in body then Value(Hours("06:00", "22:00"))
    else match body["operatingHours"]
      case Text(_) => Value(Hours("06:00", "22:00"))
      case Clock(o, c) =>
        if o.Text? && c.Text? then Value(Hours(o.text, c.text)) else Refused
      case _ => Refused
  }

  /** The location guard of line 91: present and an object (a string is refused; an array is
      an object and passes). */
  predicate LocationObject(body: Body)
  {
    "location" in body && !body["location"].Text?
  }

  /** The image guard of line 118: `images` is a non-empty array. */
  predicate HasImages(body: Body)
  {
    "images" in body && body["images"].Texts? && |body["images"].texts| > 0
  }

  function OptionOf<T>(c: Cast<T>): Option<T>
  {
    if c.Value? then Some(c.value) else None
  }

  /** Lines 111-125: the fields handed to `Turf.create`: the body, with the owner set to the
      caller, the price passed through Number(), and both flags forced on. None when some
      value has a shape its path refuses. */
  function TurfFieldsOf(body: Body, actor: Actor): (r: Option<TurfFields>)
    requires LocationObject(body)
  {
    if Refuses(body) then None
    else Some(FieldsFrom(body, actor, LocationOfPlace(body["location"].place).value, HoursAt(body).value))
  }

  /** Some value of the body has a shape its schema path refuses. */
  predicate Refuses(body: Body)
    requires LocationObject(body)
  {
    || !body["location"].Place? || LocationOfPlace(body["location"].place).Refused?
    || StringAt(body, "name").Refused? || StringAt(body, "description").Refused?
    || StringAt(body, "sportType").Refused? || ListAt(body, "amenities").Refused?
    || ListAt(body, "rules").Refused? || HoursAt(body).Refused?
  }

  /** The fields of a body none of whose values is refused, with its location and hours
      already cast. */
  function FieldsFrom(body: Body, actor: Actor, loc: Location, hours: Hours): TurfFields
  {
    TurfFields(OptionOf(StringAt(body, "name")), OptionOf(StringAt(body, "description")),
               OptionOf(StringAt(body, "sportType")),
               loc.address, loc.city, loc.state, loc.pincode, loc.lat, loc.lng,
               NumberAt(body, "pricePerHour"),
               if HasImages(body) then body["images"].texts else [],
               OrElse(OptionOf(ListAt(body, "amenities")), []),
               OrElse(OptionOf(ListAt(body, "rules")), []),
               actor.id, Some(true), Some(true), Some(hours.open), Some(hours.close))
  }

  /** POST /api/turfs with the body the upload middleware (which sets `images`) and
      parseFormData leave. */
  function CreateTurf(st: Store, actor: Actor, body: Body): (r: Reply)
  {
    if !LocationObject(body) then Reply(BadRequest("Location is required"), st)
    else if !HasImages(body) then Reply(BadRequest("At least one image is required"), st)
    else match TurfFieldsOf(body, actor)
      case None => Reply(Thrown, st)
      case Some(f) =>
        match CreateTurfDoc(f)
        case None => Reply(Thrown, st)
        case Some(t) => Reply(Created(st.nextId), st.(turfs := st.turfs[st.nextId := t], nextId := st.nextId + 1))
  }

  /** The two guards: no location object is a 400, and so is a missing or empty image list;
      neither writes anything. */
  lemma CreateTurfGuards(st: Store, actor: Actor, body: Body)
    ensures !LocationObject(body) ==> CreateTurf(st, actor, body) == Reply(BadRequest("Location is required"), st)
    ensures LocationObject(body) && !HasImages(body) ==>
      CreateTurf(st, actor, body) == Reply(BadRequest("At least one image is required"), st)
    ensures !CreateTurf(st, actor, body).outcome.Created? ==> CreateTurf(st, actor, body).store == st
  {
  }

  /** A created turf is stored under the next id, owned by the caller, approved and active
      whatever the body said, valid for its schema, with the location strings of the body,
      coordinates that fall back to 0, the body's hours or 06:00 to 22:00, and the uploaded
      images; nothing else is written. */
  lemma CreatedTurf(st: Store, actor: Actor, body: Body)
    requires CreateTurf(st, actor, body).outcome.Created?
    ensures var r := CreateTurf(st, actor, body);
      && r.outcome.id == st.nextId && r.store.nextId == st.nextId + 1
      && r.store == st.(turfs := st.turfs[st.nextId := r.store.turfs[st.nextId]], nextId := st.nextId + 1)
    ensures var t := CreateTurf(st, actor, body).store.turfs[st.nextId];
      && t.isApproved && t.isActive && t.owner == actor.id && TurfValid(t)
      && HasImages(body) && t.images == body["images"].texts
      && body["location"].Place?
      && LocationOfPlace(body["location"].place) == Value(t.location)
      && t.location.address == body["location"].place.address.text
      && t.location.lat == (if body["location"].place.lat.Some? then body["location"].place.lat.value else 0.0)
      && t.hours == (if "operatingHours" in body && body["operatingHours"].Clock?
                     then Hours(body["operatingHours"].open.text, body["operatingHours"].close.text)
                     else Hours("06:00", "22:00"))
      && NumberAt(body, "pricePerHour") == Some(t.pricePerHour)
  {
    HoursAtValue(body);
  }

  /** The hours a body casts to: an hours object's two strings, or 06:00 to 22:00. */
  lemma HoursAtValue(body: Body)
    requires HoursAt(body).Value?
    ensures HoursAt(body).value == if "operatingHours" in body && body["operatingHours"].Clock?
                                   then Hours(body["operatingHours"].open.text, body["operatingHours"].close.text)
                                   else Hours("06:00", "22:00")
  {
  }

  /** A repeated opening-time field (multer gives an array) is truthy, so the middleware
      rebuilds the hours around the array, and the schema's string path then refuses it. */
  lemma RepeatedOpenRefused(st: Store, actor: Actor, body: Body, ss: seq<string>)
    requires "operatingHours[open]" in body && body["operatingHours[open]"] == Texts(ss)
    requires ParseFormData(body).Some?
    ensures var r := ParseFormData(body).value;
      && HoursAt(r).Refused?
      && (LocationObject(r) && HasImages(r) ==> CreateTurf(st, actor, r) == Reply(Thrown, st))
  {
    ParseHours(body);
  }

  /** Likewise a repeated address: the location is rebuilt around the array, which its
      string path refuses. */
  lemma RepeatedAddressRefused(st: Store, actor: Actor, body: Body, ss: seq<string>)
    requires "location[address]" in body && body["location[address]"] == Texts(ss)
    requires ParseFormData(body).Some?
    ensures var r := ParseFormData(body).value;
      && "location" in r && r["location"].Place? && LocationOfPlace(r["location"].place).Refused?
      && (HasImages(r) ==> CreateTurf(st, actor, r) == Reply(Thrown, st))
  {
    ParseLocation(body);
  }

  /** Creating a turf keeps the store invariant. */
  lemma CreateTurfKeepsInv(st: Store, actor: Actor, body: Body)
    requires Inv(st)
    ensures Inv(CreateTurf(st, actor, body).store)
  {
    CreateTurfGuards(st, actor, body);
    if CreateTurf(st, actor, body).outcome.Created? {
      CreatedTurf(st, actor, body);
      NewTurfKeepsInv(st, CreateTurf(st, actor, body).store.turfs[st.nextId]);
    }
  }

  lemma NewTurfKeepsInv(st: Store, t: Turf)
    requires Inv(st)
    ensures Inv(st.(turfs := st.turfs[st.nextId := t], nextId := st.nextId + 1))
  {
  }

  // ---------------------------------------------------------------------------
  // updateTurf / deleteTurf

  /** Lines 158 and 188: the turf's owner or an admin. */
  predicate CanManage(actor: Actor, t: Turf)
  {
    t.owner == actor.id || actor.role == Admin
  }

  /** The paths an update body sets; None is a path the body leaves alone. */
  datatype TurfPatch = TurfPatch(
    name: Option<string>, description: Option<string>, sportType: Option<string>,
    location: Option<Location>, pricePerHour: Option<real>, images: Option<seq<string>>,
    amenities: Option<seq<string>>, rules: Option<seq<string>>, owner: Option<Id>,
    isActive: Option<bool>, isApproved: Option<bool>, rating: Option<real>, hours: Option<Hours>)

  /** `$set` of the given paths (the name through its trim setter). */
  function Apply(t: Turf, p: TurfPatch): Turf
  {
    t.(name := if p.name.Some? then Trim(p.name.value) else t.name,
       description := OrElse(p.description, t.description),
       sportType := OrElse(p.sportType, t.sportType),
       location := OrElse(p.location, t.location),
       pricePerHour := OrElse(p.pricePerHour, t.pricePerHour),
       images := OrElse(p.images, t.images),
       amenities := OrElse(p.amenities, t.amenities),
       rules := OrElse(p.rules, t.rules),
       owner := OrElse(p.owner, t.owner),
       isActive := OrElse(p.isActive, t.isActive),
       isApproved := OrElse(p.isApproved, t.isApproved),
       rating := OrElse(p.rating, t.rating),
       hours := OrElse(p.hours, t.hours))
  }

  /** `runValidators: true` on an update runs the validators of the paths it sets only. */
  predicate PatchValid(p: TurfPatch)
  {
    && (p.name.Some? ==> Trim(p.name.value) != "")
    && (p.description.Some? ==> p.description.value != "")
    && (p.sportType.Some? ==> p.sportType.value in SportTypes)
    && (p.location.Some? ==> (p.location.value.address != "" && p.location.value.city != ""
                              && p.location.value.state != "" && p.location.value.pincode != ""))
    && (p.pricePerHour.Some? ==> p.pricePerHour.value >= 0.0)
    && (p.images.Some? ==> forall i :: 0 <= i < |p.images.value| ==> p.images.value[i] != "")
    && (p.rating.Some? ==> 0.0 <= p.rating.value <= 5.0)
  }

  /** PUT /api/turfs/:id. */
  function UpdateTurf(st: Store, actor: Actor, id: Id, p: TurfPatch): (r: Reply)
  {
    if id !in st.turfs then Reply(NotFound("Turf not found"), st)
    else if !CanManage(actor, st.turfs[id]) then Reply(Forbidden("Not authorized to update this turf"), st)
    else if !PatchValid(p) then Reply(Thrown, st)
    else Reply(Ok, st.(turfs := st.turfs[id := Apply(st.turfs[id], p)]))
  }

  /** DELETE /api/turfs/:id: removes the turf document only. */
  function DeleteTurf(st: Store, actor: Actor, id: Id): (r: Reply)
  {
    if id !in st.turfs then Reply(NotFound("Turf not found"), st)
    else if !CanManage(actor, st.turfs[id]) then Reply(Forbidden("Not authorized to delete this turf"), st)
    else Reply(Ok, st.(turfs := st.turfs - {id}))
  }

  /** Both endpoints answer 404 for an unknown turf and 403 unless the caller owns the turf or
      is an admin, and neither refusal writes anything. */
  lemma ManageRefusals(st: Store, actor: Actor, id: Id, p: TurfPatch)
    ensures id !in st.turfs ==> UpdateTurf(st, actor, id, p) == Reply(NotFound("Turf not found"), st)
    ensures id !in st.turfs ==> DeleteTurf(st, actor, id) == Reply(NotFound("Turf not found"), st)
    ensures id in st.turfs && !CanManage(actor, st.turfs[id]) ==>
      UpdateTurf(st, actor, id, p) == Reply(Forbidden("Not authorized to update this turf"), st)
    ensures id in st.turfs && !CanManage(actor, st.turfs[id]) ==>
      DeleteTurf(st, actor, id) == Reply(Forbidden("Not authorized to delete this turf"), st)
    ensures UpdateTurf(st, actor, id, p).outcome == Ok <==>
      id in st.turfs && CanManage(actor, st.turfs[id]) && PatchValid(p)
    ensures DeleteTurf(st, actor, id).outcome == Ok <==> id in st.turfs && CanManage(actor, st.turfs[id])
  {
  }

  /** An accepted update changes only that turf, and of it only the paths the body sets; a
      turf that satisfied its schema still does. */
  lemma UpdateEffect(st: Store, actor: Actor, id: Id, p: TurfPatch)
    requires UpdateTurf(st, actor, id, p).outcome == Ok
    ensures var r := UpdateTurf(st, actor, id, p).store;
      && r == st.(turfs := r.turfs) && r.turfs.Keys == st.turfs.Keys
      && (forall k :: k in st.turfs && k != id ==> r.turfs[k] == st.turfs[k])
      && (p.isApproved.None? ==> r.turfs[id].isApproved == st.turfs[id].isApproved)
      && (p.owner.None? ==> r.turfs[id].owner == st.turfs[id].owner)
      && (p.pricePerHour.None? ==> r.turfs[id].pricePerHour == st.turfs[id].pricePerHour)
      && (p.hours.None? ==> r.turfs[id].hours == st.turfs[id].hours)
      && (TurfValid(st.turfs[id]) ==> TurfValid(r.turfs[id]))
  {
  }

  /** The update body is not filtered: an owner may approve their own turf, which only an
      admin is meant to do (admin approveTurf). */
  lemma OwnerCanSelfApprove(st: Store, actor: Actor, id: Id)
    requires id in st.turfs && st.turfs[id].owner == actor.id && actor.role != Admin
    ensures var p := TurfPatch(None, None, None, None, None, None, None, None, None, None, Some(true), None, None);
      && UpdateTurf(st, actor, id, p).outcome == Ok
      && UpdateTurf(st, actor, id, p).store.turfs[id].isApproved
  {
  }

  /** Deleting removes exactly that turf and nothing else: its slots and bookings stay and
      keep pointing at it. */
  lemma DeleteEffect(st: Store, actor: Actor, id: Id)
    requires DeleteTurf(st, actor, id).outcome == Ok
    ensures var r := DeleteTurf(st, actor, id).store;
      && r.turfs.Keys == st.turfs.Keys - {id}
      && (forall k :: k in r.turfs ==> r.turfs[k] == st.turfs[k])
      && r.slots == st.slots && r.bookings == st.bookings && r.users == st.users && r.nextId == st.nextId
  {
  }

  /** After its turf is deleted, a booking of it can no longer be read by the turf's owner:
      getBooking dereferences the missing turf and throws. */
  lemma DeletedTurfBookingThrows(st: Store, actor: Actor, turfId: Id, bookingId: Id)
    requires DeleteTurf(st, actor, turfId).outcome == Ok
    requires bookingId in st.bookings && st.bookings[bookingId].turfId == turfId
    requires st.bookings[bookingId].userId in st.users && st.bookings[bookingId].userId != actor.id
    ensures BookingController.GetBooking(DeleteTurf(st, actor, turfId).store, actor, bookingId) == Thrown
  {
  }

  /** Update and delete keep the store invariant. */
  lemma ManageKeepsInv(st: Store, actor: Actor, id: Id, p: TurfPatch)
    requires Inv(st)
    ensures Inv(UpdateTurf(st, actor, id, p).store) && Inv(DeleteTurf(st, actor, id).store)
  {
  }

  // ---------------------------------------------------------------------------
  // getAvailableSlots

  /** One button of the grid; slotId is null when no slot record exists for that time. */
  datatype GridEntry = GridEntry(time: string, isBooked: bool, isBlocked: bool, slotId: Option<Id>)

  datatype SlotsReply = Grid(entries: seq<GridEntry>) | SlotsRefused(outcome: Outcome)

  /** Lines 247-254: the first slot of the day with exactly that time, its flags copied. */
  function EntryFor(slots: map<Id, Slot>, turfId: Id, day: DayRange, time: string): GridEntry
  {
    match Lookup(slots, turfId, day, time)
    case None => GridEntry(time, false, false, None)
    case Some(i) => GridEntry(time, slots[i].isBooked, slots[i].isBlocked, Some(i))
  }

  /** The grid over a sequence of times. */
  function GridOf(slots: map<Id, Slot>, turfId: Id, day: DayRange, times: seq<string>): seq<GridEntry>
  {
    seq(|times|, i requires 0 <= i < |times| => EntryFor(slots, turfId, day, times[i]))
  }

  /** Lines 235-246: the 30-minute keys from opening (inclusive) to closing (exclusive). */
  function GridTimes(h: Hours): seq<string>
  {
    HalfHourKeys(h.open, h.close)
  }

  /** GET /api/turfs/:id/slots?date=… */
  function GetAvailableSlots(st: Store, turfId: Id, date: string): (r: SlotsReply)
  {
    if date == "" then SlotsRefused(BadRequest("Please provide a date"))
    else if turfId !in st.turfs then SlotsRefused(NotFound("Turf not found"))
    else match DateRange(date)
      // An Invalid Date cannot be cast into the slot query.
      case None => SlotsRefused(Thrown)
      case Some(day) => Grid(GridOf(st.slots, turfId, day, GridTimes(st.turfs[turfId].hours)))
  }

  /** Lines 243-255 as the loop they are: minutes runs from opening in steps of 30 while it
      is below closing, each step formatting its time and looking its slot up. It builds the
      same grid as GridOf over KeysFrom. */
  method BuildGrid(slots: map<Id, Slot>, turfId: Id, day: DayRange, open: nat, close: int)
    returns (entries: seq<GridEntry>)
    ensures entries == GridOf(slots, turfId, day, KeysFrom(open, close))
  {
    entries := [];
    var minutes := open;
    ghost var done: seq<string> := [];
    while minutes < close
      invariant KeysFrom(open, close) == done + KeysFrom(minutes, close)
      invariant |entries| == |done|
      invariant forall i :: 0 <= i < |done| ==> entries[i] == EntryFor(slots, turfId, day, done[i])
      decreases close - minutes
    {
      // `${pad(Math.floor(minutes / 60))}:${pad(minutes % 60)}`
      var time := Key(minutes);
      KeysFromStep(minutes, close);
      assert done + KeysFrom(minutes, close) == (done + [time]) + KeysFrom(minutes + 30, close);
      entries := entries + [EntryFor(slots, turfId, day, time)];
      done := done + [time];
      minutes := minutes + 30;
    }
    KeysFromStep(minutes, close);
    assert done == KeysFrom(open, close);
    GridOfEntries(slots, turfId, day, done, entries);
  }

  /** One turn of the loop: the keys from m are m's key followed by the keys from m + 30;
      there are none once m reaches the end. */
  lemma KeysFromStep(m: nat, end: int)
    ensures m < end ==> KeysFrom(m, end) == [Key(m)] + KeysFrom(m + 30, end)
    ensures end <= m ==> KeysFrom(m, end) == []
  {
  }

  /** A sequence whose entries are the grid entries of the times is the grid. */
  lemma GridOfEntries(slots: map<Id, Slot>, turfId: Id, day: DayRange, times: seq<string>, entries: seq<GridEntry>)
    requires |entries| == |times|
    requires forall i :: 0 <= i < |times| ==> entries[i] == EntryFor(slots, turfId, day, times[i])
    ensures entries == GridOf(slots, turfId, day, times)
  {
  }

  /** A missing date is a 400 and an unknown turf a 404; the endpoint only reads. */
  lemma SlotsRefusals(st: Store, turfId: Id, date: string)
    ensures date == "" ==> GetAvailableSlots(st, turfId, date) == SlotsRefused(BadRequest("Please provide a date"))
    ensures date != "" && turfId !in st.turfs ==>
      GetAvailableSlots(st, turfId, date) == SlotsRefused(NotFound("Turf not found"))
    ensures GetAvailableSlots(st, turfId, date).Grid? <==>
      date != "" && turfId in st.turfs && DateRange(date).Some?
  {
  }

  /** The grid has one entry per 30-minute step from opening to closing,
      ceil((close - open) / 30) of them, at open, open + 30, … strictly below closing, each
      written as a zero-padded key that reads back to its minute; the keys are strictly
      increasing, as minutes and (within a day) as strings. */
  lemma GridShape(h: Hours, o: nat, c: nat, i: int, j: int)
    requires Minutes(h.open) == Some(o) && Minutes(h.close) == Some(c)
    ensures |GridTimes(h)| == SlotCount(o, c)
    ensures 0 <= i < |GridTimes(h)| ==>
      GridTimes(h)[i] == Key(o + 30 * i) && o + 30 * i < c && Minutes(GridTimes(h)[i]) == Some(o + 30 * i)
    ensures 0 <= i < j < |GridTimes(h)| && c <= 1440 ==> LexLess(GridTimes(h)[i], GridTimes(h)[j])
  {
    HalfHourKeysWhole(h.open, h.close, o, c);
    Every30Shape(o, c, Key);
    if 0 <= i < |GridTimes(h)| {
      KeysFromReadBack(o, c, i);
    }
    if 0 <= i < j < |GridTimes(h)| && c <= 1440 {
      KeysFromSorted(o, c, i, j);
    }
  }

  /** A grid entry reports its time; with no slot record for it, it is free with a null
      slotId; otherwise it names a slot of that turf, day and time and copies its flags. */
  lemma GridEntryMeaning(slots: map<Id, Slot>, turfId: Id, day: DayRange, times: seq<string>, i: int)
    requires 0 <= i < |times|
    ensures var g := GridOf(slots, turfId, day, times);
      && |g| == |times| && g[i].time == times[i]
      && ((!exists s :: s in slots && Matches(slots[s], turfId, day, times[i])) <==> g[i].slotId.None?)
      && (g[i].slotId.None? ==> !g[i].isBooked && !g[i].isBlocked)
      && (g[i].slotId.Some? ==>
            && g[i].slotId.value in slots && Matches(slots[g[i].slotId.value], turfId, day, times[i])
            && g[i].isBooked == slots[g[i].slotId.value].isBooked
            && g[i].isBlocked == slots[g[i].slotId.value].isBlocked)
  {
  }

  /** A slot record whose time is not one of the grid's times (an unpadded '9:00', a time
      outside opening hours, an off-step '06:15') never shows up in the grid. */
  lemma OffGridAbsent(slots: map<Id, Slot>, turfId: Id, day: DayRange, times: seq<string>, s: Id, i: int)
    requires s in slots && slots[s].time !in times && 0 <= i < |times|
    ensures GridOf(slots, turfId, day, times)[i].slotId != Some(s)
  {
    assert times[i] in times;
  }

  /** The grid and the booking check agree: on a store that keeps its invariant, and for a
      day range of one day from a UTC midnight, a time is shown free exactly when
      createBooking's availability check for that single time passes. */
  lemma GridAgreesWithBooking(st: Store, turfId: Id, day: DayRange, times: seq<string>, i: int)
    requires Inv(st) && day.start % MsPerDay == 0 && day.end == day.start + MsPerDay
    requires 0 <= i < |times|
    ensures var g := GridOf(st.slots, turfId, day, times)[i];
      (!g.isBooked && !g.isBlocked) <==> BookingController.FirstTaken(st.slots, turfId, day, [times[i]]).None?
  {
    var g := GridOf(st.slots, turfId, day, times)[i];
    var k := times[i];
    var r := BookingController.FirstTaken(st.slots, turfId, day, [k]);
    if r.Some? {
      var s :| s in st.slots && Matches(st.slots[s], turfId, day, r.value) && Taken(st.slots[s]);
      assert r.value == k;
      var l := Lookup(st.slots, turfId, day, k);
      AtMostOneMatch(st, turfId, day, k, s, l.value);
    } else if g.slotId.Some? {
      assert k in [k];
    }
  }
}
