# Turf booking ledger in Dafny

This project models the core of a turf-booking web application. An Express and Mongoose
backend keeps turfs, 30-minute slots and bookings. Users reserve a range of slots, pay a 25%
advance through Razorpay, and may cancel. Owners list turfs through a multipart form. An
admin approves turfs, deletes users and reads aggregate analytics. A React frontend shows a
turf's day grid, builds the booking request, shows the amounts at checkout and lists an
owner's bookings by day.

The database is an immutable `Store`: maps from ids to slots, turfs, bookings and user
roles, plus a counter that hands out fresh ids (insertion order stands for ObjectId and
`createdAt` order). Every endpoint is a pure function from the store and the request to a
`Reply`: an `Outcome` (200, 201 with the new id, 400, 403, 404, or `Thrown` for an
exception passed to `next`) and the store as the request leaves it. The writes made before
an exception stay, because the code has no transaction. `Models.Inv` is the invariant the
endpoints keep:

- every slot passes its schema;
- slots are unique on `(turfId, date, time)`;
- slot dates are UTC midnights;
- every booking passes its validators;
- ids stay below the counter.

Modules follow the source files:

- `Js`: the JavaScript built-ins the code relies on: `split`, `padStart`, `Number` on
  strings, string `<`, `trim`, `filter` and `Math.round`.
- `TimeOfDay`: `HH:MM` keys and the slot time pattern.
- `DateUtils`: `dateUtils.js` over ECMA-262's day arithmetic.
- `Models`: the three schemas, the store and the slot index.
- `BookingController`, `PaymentController`, `TurfController` and `AdminController`: the
  backend controllers.
- `FormData`: the `parseFormData` middleware.
- `AddTurf`, `TurfDetail`, `Checkout` and `OwnerDashboard`: the frontend pages.

Quirks the model reproduces, each proved as a lemma:

- Cancel and a failed payment verification free only the booking's primary slot.
- The refund branch of cancel can never run.
- A reversed range throws after the guards and before any write.
- The legacy `time + duration` form claims one key whatever its duration.
- Verification has no status guard.
- The turf owner may read a booking but may not see its payment.
- A half-hour selection passes every check on the turf page and in the controller. It is
  then rejected by the booking schema's `min: 1` on `duration`, and the slot created for it
  stays behind unbooked.

Money and durations are `real` (JavaScript doubles without rounding error). `Math.round(x)`
is `Floor(x + 1/2)`. `Number()` on a string follows StringToNumber (section 7.1.4.1.1 of
ECMA-262). Surrounding white space is trimmed and the empty string is 0. A decimal may carry
a sign, a fraction part and an exponent; `0x`, `0o` and `0b` take digits of their base.
Anything else is NaN, written `None`. `Number()` on an array reads the array joined with
commas. The
HMAC signer, the Razorpay order call and the clock are parameters: `sign`, `order` and `now`.

## Model

| member | source | states |
|---|---|---|
| TimeOfDay.KeyRoundTrip | backend/controllers/booking.controller.js:59-67 | reading a formatted key with `split(':').map(Number)` gives back the minute it was made from |
| TimeOfDay.KeyInjective | backend/controllers/booking.controller.js:64-68 | distinct minutes format to distinct keys |
| TimeOfDay.Pad2IsPadStart | backend/controllers/booking.controller.js:67 | the two-digit field is `toString().padStart(2, '0')` |
| TimeOfDay.Pad2Facts | backend/controllers/booking.controller.js:67 | a padded field is all digits, has no colon, reads back as its number, and is exactly two characters below 100 |
| TimeOfDay.KeySplits | backend/controllers/booking.controller.js:59-61 | a key splits at ':' into its padded hour and padded minute |
| TimeOfDay.FieldOrder | frontend/src/pages/TurfDetail.jsx:103 | two `hh:mm` strings with two-digit fields compare with `<` as their (hour, minute) pairs |
| TimeOfDay.KeyOrder | frontend/src/pages/TurfDetail.jsx:103-115 | below 100 hours, string `<` on keys holds exactly when the minutes are in order |
| TimeOfDay.Every30Shape | backend/controllers/booking.controller.js:64-68 | the 30-minute loop runs ceil((end - start) / 30) times, or not at all when end is not after start, and its i-th step formats start + 30 i below end |
| TimeOfDay.KeysFromAt | backend/controllers/turf.controller.js:243-246 | entry i of the key enumeration is the key of start + 30 i, which lies below the end |
| TimeOfDay.KeysFromReadBack | backend/controllers/booking.controller.js:57-70 | every enumerated key reads back as its minute |
| TimeOfDay.KeysFromDistinct | backend/controllers/booking.controller.js:57-70 | the enumerated keys are pairwise distinct |
| TimeOfDay.KeysFromSorted | backend/controllers/turf.controller.js:243-246 | with an end within 100 hours, the enumerated keys strictly increase as strings |
| TimeOfDay.KeysOfIncreasing | backend/controllers/booking.controller.js:64-67 | keys of increasing minutes differ, and below 100 hours they increase as strings |
| TimeOfDay.TimePatternMeaning | backend/models/Slot.model.js:16 | the time pattern accepts exactly a one- or two-digit hour 0-23, a colon and two-digit minutes 00-59 |
| TimeOfDay.PatternIsClockTime | backend/models/Slot.model.js:16 | a string the pattern accepts is such a clock time |
| TimeOfDay.ClockTimeMatchesPattern | backend/models/Slot.model.js:16 | every such clock time is accepted |
| TimeOfDay.KeyValidIffWithinDay | backend/models/Slot.model.js:16 | a formatted key passes the validator exactly when its minute is below 1440, so '24:00' is refused |
| TimeOfDay.PaddedHourSameMinute | backend/models/Slot.model.js:16 | '9:00' and '09:00' are both accepted and read as the same minute, yet they are different strings |
| TimeOfDay.NoHour24 | backend/models/Slot.model.js:16 | '24:00' is refused |
| TimeOfDay.Pad2Number | backend/controllers/booking.controller.js:67 | `Number()` reads a padded field back as the number it pads |
| TimeOfDay.HalfHourKeysMeaning | backend/controllers/turf.controller.js:237-246 | with a whole start minute a and any end e, the loop's i-th key is that of a + 30 i, each below e, and the first step not below e ends the loop |
| TimeOfDay.HalfHourKeysWhole | backend/controllers/booking.controller.js:57-70 | with a whole end minute b as well, the loop gives the keys of a, a + 30, ... below b |
| Js.SplitJoin | backend/controllers/booking.controller.js:22 | `split` is the inverse of joining with the separator: the parts contain no separator and join back to the string |
| Js.SplitFieldCount | backend/controllers/booking.controller.js:22 | `split` gives more than one piece exactly when the separator occurs in the string |
| Js.ToNumberIgnoresSpace | backend/controllers/booking.controller.js:22 | white space around a string does not change what `Number()` reads |
| Js.ToNumberOfDigits | backend/controllers/booking.controller.js:22 | a run of decimal digits, the empty run included, reads as the number it denotes |
| Js.PlainNumeral | backend/controllers/booking.controller.js:22 | a trimmed string with neither a sign nor a radix prefix reads as an unsigned decimal |
| Js.RadixNumeral | backend/controllers/booking.controller.js:22 | `0x`, `0o` or `0b` followed by digits of that base reads them in that base; any other character after the prefix is NaN |
| Js.SignedNumeral | backend/controllers/booking.controller.js:22 | a leading '+' keeps a decimal's value and a leading '-' negates it |
| Js.FractionNumeral | backend/controllers/booking.controller.js:22 | `a.b`, with one side possibly empty, reads as a + b / 10^|b|, so '5.' is 5 and '.5' is 0.5 |
| Js.FractionValue | backend/controllers/booking.controller.js:22 | the fraction `a.b` times 10^|b| is the number the digits of ab denote |
| Js.DigitsAppend | backend/controllers/booking.controller.js:22 | the digits of a followed by those of b denote a times 10^|b| plus b |
| Js.ScientificNumeral | backend/controllers/booking.controller.js:22 | `men` is m x 10^n and `me-n` is m / 10^n |
| Js.ScaledValues | backend/controllers/booking.controller.js:22 | scaling by a power of ten multiplies by it, and scaling by a negative power divides by it |
| Js.Truncate | backend/utils/dateUtils.js:6 | `Date.UTC` drops the fraction of its arguments toward zero: the result lies within one of the number, on the side of 0 |
| Js.NatToStringValue | backend/controllers/booking.controller.js:67 | a number's decimal numeral reads back as the number |
| Js.ToNatOfPadded | backend/controllers/booking.controller.js:67 | a left-zero-padded numeral reads back as its number |
| Js.LexLessTotal | frontend/src/pages/TurfDetail.jsx:103 | for two distinct strings of equal length, exactly one is `<` the other |
| Js.LexLessDigits | frontend/src/pages/TurfDetail.jsx:103 | on digit strings of equal length, string `<` is numeric `<` |
| Js.TrimIdempotent | frontend/src/pages/AddTurf.jsx:92-95 | trimming a trimmed string changes nothing |
| Js.Trim | frontend/src/pages/AddTurf.jsx:92 | the trimmed string is empty exactly when the input is all white space, and otherwise neither starts nor ends with white space |
| Js.FilterMembers | backend/middleware/parseFormData.js:53 | `filter` keeps exactly the elements that pass the test |
| Js.FilterConcat | backend/middleware/parseFormData.js:53 | `filter` distributes over concatenation, so it keeps the relative order |
| Js.Round | backend/controllers/booking.controller.js:53 | `Math.round(x)` is the integer n with n - 1/2 <= x < n + 1/2 (halves round up) |
| DateUtils.DayFromYearFormula | backend/utils/dateUtils.js:6 | the year-by-year day count equals ECMA-262's closed form with its leap-day corrections |
| DateUtils.LeapCount | backend/utils/dateUtils.js:6 | a year has 366 days exactly when it is divisible by 4, less the centuries not divisible by 400 |
| DateUtils.YearOf | backend/utils/dateUtils.js:6 | the year of a day number contains that day |
| DateUtils.YearOfUnique | backend/utils/dateUtils.js:6 | only one year contains a given day |
| DateUtils.MonthOf | backend/utils/dateUtils.js:5-6 | the month of a day of the year is the one whose cumulative-day bounds contain it |
| DateUtils.MonthOfUnique | backend/utils/dateUtils.js:5-6 | only one month contains a given day of the year |
| DateUtils.CumDaysTable | backend/utils/dateUtils.js:5-6 | the months of a year add up to 365 days, or 366 in a leap year |
| DateUtils.CivilOf | backend/utils/dateUtils.js:15 | the calendar date of a day number is a valid date whose day number is that day |
| DateUtils.CivilOfDayOf | backend/utils/dateUtils.js:5-6 | a valid date maps to a day number and back unchanged |
| DateUtils.DayOfInjective | backend/utils/dateUtils.js:5-6 | distinct valid dates have distinct day numbers |
| DateUtils.MakeDayOf | backend/utils/dateUtils.js:5-6 | for months 1-12, the month - 1 offset of `Date.UTC` gives that month: January to December |
| DateUtils.NextDateIsNextDay | backend/utils/dateUtils.js:15 | the calendar date after a valid date is the next day number |
| DateUtils.TimeClip | backend/utils/dateUtils.js:6 | an instant beyond 8.64e15 ms either side of the epoch is NaN, any other is kept |
| DateUtils.DateUtc | backend/utils/dateUtils.js:6 | `Date.UTC` of a year, month and date is a UTC midnight within the time range, or NaN; years 0-99 are taken as 1900-1999 |
| DateUtils.NormalizeDate | backend/utils/dateUtils.js:3-8 | normalizeDate gives a multiple of 86 400 000 ms (a UTC midnight) within the time range, or NaN |
| DateUtils.NormalizeValidDate | backend/utils/dateUtils.js:3-8 | for a valid date from year 100 on, the digit string `Y-M-D` normalises to that date's UTC midnight |
| DateUtils.NormalizeFields | backend/utils/dateUtils.js:3-8 | a string of three digit fields `Y-M-D` denotes Date.UTC(Y, M - 1, D) |
| DateUtils.NormalizeNumbers | backend/utils/dateUtils.js:3-8 | any three numeric fields are read with `Number()` and truncated toward zero, so '2025-01-05.5' and ' 2025-+1-5' are 5 January 2025 |
| DateUtils.TwoDigitYears | backend/utils/dateUtils.js:6 | a year below 100 is read in the twentieth century: '0024-01-01' is 1 January 1924 |
| DateUtils.NextMidnight | backend/utils/dateUtils.js:14-15 | advancing a UTC midnight's day of month by one lands on the next midnight |
| DateUtils.NextDayEnd | backend/utils/dateUtils.js:14-15 | `setUTCDate(getUTCDate() + 1)` on a midnight gives the next midnight, or NaN past the end of time |
| DateUtils.DateRange | backend/utils/dateUtils.js:12-17 | the range exists exactly when the date normalises and its next midnight is in range; it starts at normalizeDate and ends exactly one day later |
| DateUtils.InRangeIffSameDay | backend/utils/dateUtils.js:13-16 | an instant lies in [start, end) exactly when its UTC day is the date's day; normalizeDate itself lies in the range |
| DateUtils.DistinctDatesDisjoint | backend/utils/dateUtils.js:12-17 | distinct valid dates (from year 100 on) have disjoint ranges |
| DateUtils.RangesAdjacent | backend/utils/dateUtils.js:12-17 | the end of a date's range is the start of the next date's range |
| Models.CreateSlotDoc | backend/models/Slot.model.js:13-30 | a slot document is created exactly when its time matches the pattern, and starts neither booked nor blocked, with a null booking id |
| Models.ParseStatus | backend/models/Booking.model.js:74-78 | the status validator accepts exactly the four names pending, confirmed, cancelled and completed |
| Models.ParseRefund | backend/models/Booking.model.js:91-95 | the refund status validator accepts exactly none, pending and processed |
| Models.CreateBookingDoc | backend/models/Booking.model.js:4-95 | a booking is created exactly when its time is non-empty and its duration is at least 1; it starts pending, unpaid, not refunded, with null payment ids and the given fields |
| Models.CreateTurfDoc | backend/models/Turf.model.js:3-93 | a turf is created exactly when name, description, sport and price are present and the document passes the schema's validators; the name is trimmed, missing flags and hours take their defaults, and the rating starts at 0 |
| Models.TurfDefaults | backend/models/Turf.model.js:66-93 | a turf created without flags and hours is active, not approved, rated 0, open 06:00 to 22:00 |
| Models.InsertSlot | backend/models/Slot.model.js:16-36 | `Slot.create` succeeds exactly when the time is valid and no slot shares its (turf, date, time) cell; it then adds the default slot under the next id |
| Models.InsertSlotKeepsInv | backend/models/Slot.model.js:36 | inserting a slot at a UTC midnight keeps the store invariant, including at most one slot per cell |
| Models.PaddedAndUnpaddedAreDistinct | backend/models/Slot.model.js:16-36 | '9:00' and '09:00' slots of one turf and day both validate yet occupy different index cells |
| Models.Lookup | backend/controllers/booking.controller.js:115 | `find` over the day query returns a matching slot when one exists and nothing otherwise; the slot returned is the matching one with the least id, as the query returns documents in insertion order |
| Models.AtMostOneMatch | backend/models/Slot.model.js:36 | under the invariant, a one-day query for a time matches at most one slot |
| Models.MidnightInDay | backend/utils/dateUtils.js:12-17 | a one-day range starting at a midnight holds no other midnight |
| BookingController.PlanOf | backend/controllers/booking.controller.js:17-34 | both startTime and endTime select the range form with duration (end - start) / 60; otherwise time and duration select the legacy form with no end; otherwise there is no plan |
| BookingController.RangeHours | backend/controllers/booking.controller.js:22-26 | the range duration is defined exactly when both times read as numbers, and then 60 times it is the end's minutes less the start's |
| BookingController.RangeHoursWhole | backend/controllers/booking.controller.js:22-26 | between times of whole minutes a and b the duration is (b - a) / 60 hours |
| BookingController.CreateBookingGuards | backend/controllers/booking.controller.js:17-49 | the wrong request form and a missing field are 400, an unknown turf is 404, an inactive or unapproved turf is 400, and none of them writes |
| BookingController.PriceOf | backend/controllers/booking.controller.js:51-54 | advance + remaining = total = price x hours, and the advance is Math.round of a quarter of the total |
| BookingController.AdvanceWithinTotal | backend/controllers/booking.controller.js:53-54 | for a total >= 0 the advance lies between 0 and the total |
| BookingController.RangeKeysShape | backend/controllers/booking.controller.js:57-70 | the range keys are start, start + 30, ... strictly below end, zero-padded, ceil((end - start) / 30) of them, strictly increasing |
| BookingController.LegacyClaimsOneKey | backend/controllers/booking.controller.js:72-74 | the legacy form claims only its one time, whatever the duration |
| BookingController.FirstTaken | backend/controllers/booking.controller.js:91-106 | nothing exactly when every slot on that turf and day at a requested time is free; otherwise the requested time of a booked or blocked slot, the one with the least id (insertion order) among them |
| BookingController.FirstTakenIgnoresKeyOrder | backend/controllers/booking.controller.js:91-106 | the time reported depends only on which times were requested, not on their order |
| BookingController.TakenSlotRefuses | backend/controllers/booking.controller.js:91-108 | a booked or blocked slot on any requested key refuses the whole request with 400 and writes nothing |
| BookingController.ReversedRangeThrows | backend/controllers/booking.controller.js:128-138 | a range ending before it starts has no keys, so reading the first slot throws, before any write |
| BookingController.Claim | backend/controllers/booking.controller.js:113-125 | the slot loop writes only slots, never lowers the id counter, and gathers at most one slot id per key |
| BookingController.ClaimAt | backend/controllers/booking.controller.js:113-125 | the j-th gathered slot is on that turf and day with the j-th key as its time |
| BookingController.ClaimKeepsSlot | backend/controllers/booking.controller.js:113-125 | gathering never changes a slot that already existed |
| BookingController.ClaimNewSlot | backend/controllers/booking.controller.js:116-122 | a created slot has a fresh id and is a free slot of that turf at the day's start |
| BookingController.ClaimCount | backend/controllers/booking.controller.js:113-125 | a loop that ran to the end gathered exactly one slot per key |
| BookingController.ClaimKeepsInv | backend/controllers/booking.controller.js:113-125 | gathering keeps the store invariant |
| BookingController.MarkBooked | backend/controllers/booking.controller.js:171-175 | marking sets every listed slot booked by the booking and leaves every other slot alone |
| BookingController.ReachesReserve | backend/controllers/booking.controller.js:37-113 | past the guards and the availability check, createBooking continues with the slot loop at the computed plan, day, price and keys |
| BookingController.CreatedPassedChecks | backend/controllers/booking.controller.js:37-108 | a booking is created only after the guards and the availability check pass |
| BookingController.ReserveUnfold | backend/controllers/booking.controller.js:128-175 | on success the new booking is pending, unpaid, under the next id, with the first gathered slot as its primary slot, the plan's times and duration, the computed total, advance and remainder, and the id of the order created for the advance in paise; and its slots are marked |
| BookingController.ReserveBooksEachKey | backend/controllers/booking.controller.js:113-175 | after a success each requested key has exactly one slot of that turf and day, booked by the new booking |
| BookingController.ReserveBooksKey | backend/controllers/booking.controller.js:113-175 | the j-th key's slot after a success is booked by the new booking |
| BookingController.ReserveLeavesOthers | backend/controllers/booking.controller.js:113-175 | a success leaves every slot that answers no requested key of that turf and day unchanged |
| BookingController.ReserveKeepsInv | backend/controllers/booking.controller.js:113-175 | a successful reservation keeps the store invariant |
| BookingController.MarkedKeepsInv | backend/controllers/booking.controller.js:169-175 | recording the booking and marking its slots keeps the invariant |
| BookingController.CreateBookingSucceeds | backend/controllers/booking.controller.js:10-191 | on a 201 the booking is new, pending and unpaid, carries the turf's price times the duration as its total, Math.round of a quarter as its advance and the rest as its remainder, every requested key's slot is booked by it, its primary slot is the first key's, and other slots are unchanged |
| BookingController.CreatedBookingCharges | backend/controllers/booking.controller.js:51-54 | the booking a 201 stores has the plan's duration, total = price per hour x duration, advance = Math.round(total / 4), advance + remaining = total, and the id of the Razorpay order created for advance x 100 |
| BookingController.ReserveCharges | backend/controllers/booking.controller.js:131-165 | the same of the booking Reserve stores for the price computed from the plan's duration |
| BookingController.ReserveOrphan | backend/controllers/booking.controller.js:113-167 | a single fresh key whose booking fails validation leaves the created slot in place and throws |
| BookingController.HalfHourPlan | backend/controllers/booking.controller.js:17-26 | a half-hour range has duration 0.5 and claims only its start key |
| BookingController.FreeKeyInserts | backend/controllers/booking.controller.js:116-122 | with no slot in that cell the key can be created, and the availability check finds nothing taken |
| BookingController.OrphanSlot | backend/controllers/booking.controller.js:116-122 | an insert followed by an exception leaves one new untaken slot with the key as its time, and no booking |
| BookingController.HalfHourLeavesOrphanSlot | backend/models/Booking.model.js:35-39 | a half-hour range passes the controller's checks, then fails `min: 1` at Booking.create: the reply is an exception, no booking is stored, and the slot created for the key stays unbooked |
| BookingController.GetBooking | backend/controllers/booking.controller.js:216-232 | 404 for an unknown booking; when its user and turf exist, the reply is 200 exactly when the caller is its user, its turf's owner or an admin, and 403 is given only to callers who may not view |
| BookingController.CancelRefusals | backend/controllers/booking.controller.js:251-266 | cancel is 404 for an unknown booking, 403 unless the caller is its user or an admin (not the turf owner), and 400 when it is cancelled or completed; none of these writes |
| BookingController.CancelUnfold | backend/controllers/booking.controller.js:269-288 | a successful cancel stores the cancelled booking and then releases its primary slot |
| BookingController.CancelEffect | backend/controllers/booking.controller.js:269-280 | the booking becomes cancelled at now with the reason or 'Cancelled by user', and its refund fields never change (the refund test at line 274 runs after the status was set) |
| BookingController.CancelSlotEffect | backend/controllers/booking.controller.js:283-288 | only the primary slot is freed (not booked, null booking id, blocked flag kept); every other slot is unchanged |
| BookingController.CancelKeepsRangeSlots | backend/controllers/booking.controller.js:283-288 | the booking's other range slots stay booked by the cancelled booking |
| BookingController.CancelKeepsInv | backend/controllers/booking.controller.js:246-298 | cancelling keeps the store invariant |
| BookingController.ReleaseSlot | backend/controllers/booking.controller.js:283-288 | releasing frees the slot with that id if it exists and changes nothing else |
| BookingController.ReleaseKeepsInv | backend/controllers/booking.controller.js:283-288 | releasing a slot keeps the store invariant |
| PaymentController.SignedText | backend/controllers/payment.controller.js:24 | the signed text is the order id, a bar and the payment id |
| PaymentController.SignedTextInjective | backend/controllers/payment.controller.js:24-30 | for order ids without a bar, equal signed texts mean equal id pairs |
| PaymentController.FindByOrder | backend/controllers/payment.controller.js:17 | finds the oldest booking carrying the order id, and nothing when none does |
| PaymentController.VerifyRefusals | backend/controllers/payment.controller.js:12-21 | a missing field is 400 and an unknown order id is 404, and neither writes |
| PaymentController.VerifyOkIff | backend/controllers/payment.controller.js:12-54 | verification succeeds exactly when every field is there, a booking carries the order id and the HMAC of `orderId|paymentId` equals the signature |
| PaymentController.VerifyMatch | backend/controllers/payment.controller.js:48-54 | on a match both payment ids are set, the advance is paid, the status is confirmed, and no slot changes |
| PaymentController.VerifyMismatch | backend/controllers/payment.controller.js:30-45 | on a mismatch the booking is cancelled at now with reason 'Payment verification failed', only the primary slot is freed, and the reply is 400 |
| PaymentController.VerifyReconfirmsCancelled | backend/controllers/payment.controller.js:17-54 | with no status guard, a matching call confirms a cancelled booking again |
| PaymentController.VerifyCancelsConfirmed | backend/controllers/payment.controller.js:17-45 | with no status guard, a mismatching call cancels a confirmed booking and frees its primary slot |
| PaymentController.VerifyKeepsInv | backend/controllers/payment.controller.js:8-64 | verification keeps the store invariant |
| PaymentController.GetPaymentStatus | backend/controllers/payment.controller.js:69-96 | 404 for an unknown booking, 403 unless the caller is its user or an admin, otherwise its status, payment id and total |
| PaymentController.PaymentStatusImpliesView | backend/controllers/payment.controller.js:80 | whoever may see a payment may also read its booking |
| PaymentController.OwnerSeesBookingNotPayment | backend/controllers/booking.controller.js:228-231 | the turf owner may read a booking of their turf but is refused its payment status |
| TurfController.GetTurfsListsExactly | backend/controllers/turf.controller.js:12-43 | the listing throws exactly when a price bound is not a number; otherwise it holds exactly the turfs that pass the filter, newest first |
| TurfController.Newest | backend/controllers/turf.controller.js:41-43 | the ids below the bound whose turf passes, each once, highest first |
| TurfController.PendingVisibility | backend/controllers/turf.controller.js:12-18 | an inactive turf is never listed; an active unapproved one only when includePending is exactly 'true' ('TRUE' does not count) |
| TurfController.PriceRange | backend/controllers/turf.controller.js:21-25 | for a turf that passes the status and sport filters, the price test is an inclusive range in which either bound may be omitted |
| TurfController.CreateTurfGuards | backend/controllers/turf.controller.js:91-120 | no location object is a 400, a missing or empty image list is a 400, and neither writes |
| TurfController.CreatedTurf | backend/controllers/turf.controller.js:95-127 | a created turf is stored under the next id and nothing else changes; it is owned by the caller, approved, active and valid, carries the sent images and price, the location strings the body holds (each a string, since an array is refused) with latitude defaulting to 0, and the hours object's two strings or 06:00-22:00 |
| TurfController.StringOf | backend/controllers/turf.controller.js:127 | a string path keeps a string and refuses an array or an object |
| TurfController.LocationOfPlace | backend/controllers/turf.controller.js:95-101 | the location casts exactly when its four strings are strings; it then keeps the address, and a NaN or missing latitude becomes 0 |
| TurfController.RepeatedOpenRefused | backend/middleware/parseFormData.js:32-36 | a repeated opening-time field is truthy, the hours are rebuilt around the array, and Turf.create then throws |
| TurfController.RepeatedAddressRefused | backend/middleware/parseFormData.js:11-13 | a repeated address field is truthy, the location is rebuilt around the array, its cast is refused, and Turf.create then throws |
| TurfController.CreateTurfKeepsInv | backend/controllers/turf.controller.js:88-144 | creating a turf keeps the store invariant |
| TurfController.ManageRefusals | backend/controllers/turf.controller.js:151-165 | update and delete give 404 for an unknown turf and 403 unless the caller owns it or is an admin; delete then succeeds, and update succeeds exactly when the patch passes the validators |
| TurfController.UpdateEffect | backend/controllers/turf.controller.js:162-165 | an accepted update changes only that turf, and only the paths the body sets |
| TurfController.OwnerCanSelfApprove | backend/controllers/turf.controller.js:162 | the update body is not filtered: an owner may set isApproved on their own turf |
| TurfController.DeleteEffect | backend/controllers/turf.controller.js:192 | delete removes exactly that turf; its slots and bookings stay |
| TurfController.DeletedTurfBookingThrows | backend/controllers/booking.controller.js:218-229 | after its turf is deleted, reading one of its bookings as a non-user throws |
| TurfController.ManageKeepsInv | backend/controllers/turf.controller.js:149-201 | update and delete keep the store invariant |
| TurfController.SlotsRefusals | backend/controllers/turf.controller.js:211-221 | a missing date is 400 and an unknown turf 404; a grid is returned exactly when the date is given, the turf exists and the date parses |
| TurfController.BuildGrid | backend/controllers/turf.controller.js:243-255 | the loop builds, per 30-minute step from opening to closing, the grid entry of that time |
| TurfController.GridShape | backend/controllers/turf.controller.js:237-246 | the grid has ceil((close - open) / 30) entries, open + 30 i in order, strictly increasing |
| TurfController.GridEntryMeaning | backend/controllers/turf.controller.js:247-254 | an entry reports its time; with no record for it, it is free with a null slot id; otherwise the record's flags and id are copied |
| TurfController.OffGridAbsent | backend/controllers/turf.controller.js:243-255 | a slot record whose time is not a grid time never appears in the output |
| TurfController.GridAgreesWithBooking | backend/controllers/turf.controller.js:247-254 | on a store that keeps the invariant, an entry is free exactly when the booking check finds that time free |
| FormData.Pick | backend/middleware/parseFormData.js:13-16 | a field takes its bracket spelling when that is truthy (any array or object is), then its dot spelling when that is truthy, then the default; an empty string only comes from an empty default |
| FormData.Coordinate | backend/middleware/parseFormData.js:18-19 | a coordinate is `Number()` of the first truthy of its bracket and dot spellings, or 0 when neither is |
| FormData.NumberOfList | backend/middleware/parseFormData.js:18-19 | `Number()` of an array reads it joined with commas: the empty array is 0 and a one-element array is its element |
| FormData.RebuildLocation | backend/middleware/parseFormData.js:12-28 | sets `location` to the picked fields and removes every `location[` and `location.` key |
| FormData.RebuildHours | backend/middleware/parseFormData.js:33-43 | sets `operatingHours` to the picked values (defaults 06:00 and 22:00), whatever their shape, and removes every flat hours key |
| FormData.RebuildLocationFrame | backend/middleware/parseFormData.js:24-28 | rebuilding the location keeps every other field |
| FormData.RebuildHoursFrame | backend/middleware/parseFormData.js:39-43 | rebuilding the hours keeps every other field |
| FormData.KeepNonBlank | backend/middleware/parseFormData.js:53 | the filter's result is no longer than its input and holds no blank entry |
| FormData.KeepNonBlankMembers | backend/middleware/parseFormData.js:53 | an entry is kept exactly when it occurs and is not blank |
| FormData.KeepNonBlankAppend | backend/middleware/parseFormData.js:53 | the filter distributes over concatenation, so kept entries keep their order |
| FormData.KeepNonBlankFixed | backend/middleware/parseFormData.js:53 | a list without blank entries passes unchanged |
| FormData.NormalizeList | backend/middleware/parseFormData.js:48-62 | an object in a list field makes the middleware throw; otherwise the body keeps exactly its field names |
| FormData.NormalizeEffect | backend/middleware/parseFormData.js:48-53 | a single string becomes a one-element list (empty if blank) and a list loses exactly its blank entries |
| FormData.NormalizeFrame | backend/middleware/parseFormData.js:48-62 | normalising a list keeps every other field |
| FormData.TriggersImplyNested | backend/middleware/parseFormData.js:7-11 | either trigger names a key with '[' or '.', so the check of line 7 never decides on its own |
| FormData.PrefixesExclusive | backend/middleware/parseFormData.js:25-40 | no name carries both the location and the hours prefix |
| FormData.StepsFrame | backend/middleware/parseFormData.js:9-45 | the two rebuild steps keep any field that is neither a location nor an hours field |
| FormData.LocationStepKeepsHours | backend/middleware/parseFormData.js:11-32 | the location step keeps the hours fields, so the hours step sees the request's |
| FormData.ParseLocation | backend/middleware/parseFormData.js:11-28 | when its trigger holds (a truthy bracket address or dot city, arrays included) the location is rebuilt from the request's fields, and then no location key remains |
| FormData.ParseLocationUntouched | backend/middleware/parseFormData.js:11 | when neither trigger field is truthy, the location fields pass through unchanged |
| FormData.ParseHours | backend/middleware/parseFormData.js:32-43 | when either opening-time field is truthy, arrays included, `operatingHours` holds the picked values and no flat hours key remains |
| FormData.TriggerFieldCleared | backend/middleware/parseFormData.js:11-43 | after the middleware no trigger field is truthy: it was removed by its rebuild, or was falsy from the start |
| FormData.SingleAmenity | backend/middleware/parseFormData.js:48-53 | a single amenity string becomes a one-element list, or an empty list if it is blank |
| FormData.SingleRule | backend/middleware/parseFormData.js:56-61 | a single rule string becomes a one-element list, or an empty list if it is blank |
| FormData.AmenityList | backend/middleware/parseFormData.js:48-53 | amenities sent as a list come out as that list without its blank entries, in order and untrimmed |
| FormData.RuleList | backend/middleware/parseFormData.js:56-62 | rules come out exactly as amenities do |
| FormData.ParseSettles | backend/middleware/parseFormData.js:7-62 | every body the middleware accepts comes out with both triggers off and both list fields settled |
| FormData.SettledFixed | backend/middleware/parseFormData.js:7-62 | a settled body passes through the middleware unchanged |
| FormData.ParseIdempotent | backend/middleware/parseFormData.js:7-62 | running the middleware twice gives the same body as running it once |
| AddTurf.AddItem | frontend/src/pages/AddTurf.jsx:91-99 | a non-blank input is appended trimmed and the input cleared; a blank input changes nothing |
| AddTurf.AddAmenity | frontend/src/pages/AddTurf.jsx:91-99 | addAmenity appends the trimmed input exactly when it is not blank, then clears it, and touches nothing else |
| AddTurf.RemoveAmenity | frontend/src/pages/AddTurf.jsx:101-106 | removeAmenity(i) drops exactly element i, keeps the rest in order, and touches nothing else |
| AddTurf.AddRule | frontend/src/pages/AddTurf.jsx:108-116 | addRule behaves as addAmenity on the rules |
| AddTurf.RemoveRule | frontend/src/pages/AddTurf.jsx:118-123 | removeRule behaves as removeAmenity on the rules |
| AddTurf.WithoutIndexIsSplice | frontend/src/pages/AddTurf.jsx:104 | filtering out index i is the splice before i followed by after i; an index out of range changes nothing |
| AddTurf.EditorInvPreserved | frontend/src/pages/AddTurf.jsx:10-123 | the form starts with clean lists (trimmed, non-blank entries) and every add or remove keeps them clean |
| AddTurf.AddThenRemove | frontend/src/pages/AddTurf.jsx:91-106 | adding an amenity and removing the last entry gives the list back |
| AddTurf.FixedValue | frontend/src/pages/AddTurf.jsx:44-59 | each single-valued field reaches the server as the one string sent under its name |
| AddTurf.Each | frontend/src/pages/AddTurf.jsx:62-69 | a list is sent as one entry per element under its name, in order |
| AddTurf.Multer | frontend/src/pages/AddTurf.jsx:41-76 | the server body has exactly the names that were sent |
| AddTurf.LocationDotsUnsent | frontend/src/pages/AddTurf.jsx:50-55 | no dot spelling of a location field, and no `location` field, is sent |
| AddTurf.LocationSent | frontend/src/pages/AddTurf.jsx:50-55 | the location fields arrive under their bracket names, with blank coordinates as '0' |
| AddTurf.HoursSent | frontend/src/pages/AddTurf.jsx:58-59 | the hours arrive under `operatingHours[open]` and `operatingHours[close]` only |
| AddTurf.ListField | frontend/src/pages/AddTurf.jsx:62-69 | a list arrives as nothing when empty, a string when it has one element, and the list otherwise |
| AddTurf.EncodingParses | frontend/src/pages/AddTurf.jsx:41-69 | the encoded body never makes the middleware throw |
| AddTurf.SubmitRoundTrip | frontend/src/pages/AddTurf.jsx:41-69 | submitting a form with an address and decoding it gives back the location strings, the coordinates' numbers, the hours and the non-blank lists in order |
| AddTurf.ListDecodes | frontend/src/pages/AddTurf.jsx:62-69 | a list field after the middleware is absent when empty and otherwise the list without its blank entries |
| AddTurf.BlankAddressDropsLocation | frontend/src/pages/AddTurf.jsx:50 | a form with an empty address does not trigger the rebuild, so the request reaches the controller without a location object |
| AdminController.ApproveEffect | backend/controllers/admin.controller.js:44-64 | approveTurf is 404 for an unknown turf; otherwise it sets isApproved to the given value and changes nothing else |
| AdminController.ApprovalControlsListing | backend/controllers/admin.controller.js:53 | an approved active turf is listed, and one rejected or left unset is not, unless pending turfs are included |
| AdminController.DeleteUserEffect | backend/controllers/admin.controller.js:140-161 | deleteUser is 404 for an unknown user and 400 for an admin, writing nothing; otherwise it removes exactly that user |
| AdminController.DeletedUserBookingThrows | backend/controllers/booking.controller.js:218-228 | a booking whose user was deleted throws when read |
| AdminController.TurfCounts | backend/controllers/admin.controller.js:92-119 | the turf total is the number of turfs, and pending is the count of turfs that are not both active and approved, so it is never negative |
| AdminController.BookingCounts | backend/controllers/admin.controller.js:94-108 | confirmed + cancelled <= total; a status has a group exactly when it has a booking; the group counts add up to the total |
| AdminController.StatusCountsSum | backend/controllers/admin.controller.js:106-108 | the four status counts add up to the number of bookings |
| AdminController.RevenueMeaning | backend/controllers/admin.controller.js:99-103 | revenue is the sum of totals over confirmed bookings only, 0 when there are none, and >= 0 when amounts are |
| AdminController.CountSplit | backend/controllers/admin.controller.js:91-96 | a count and the count of its negation add up to the length |
| AdminController.InOrderCounts | backend/controllers/admin.controller.js:91-94 | listing a collection in id order yields one document per stored id |
| AdminController.AnalyticsTotals | backend/controllers/admin.controller.js:89-135 | on a store that keeps the invariant the analytics totals are the numbers of users, turfs and bookings |
| TurfDetail.GenerateTimeSlots | frontend/src/pages/TurfDetail.jsx:52-66 | 37 entries: for i < 36 the key of 05:00 + 30 i with its 12-hour label, and a final entry repeating 22:30 |
| TurfDetail.OfferedAreGridKeys | frontend/src/pages/TurfDetail.jsx:52-66 | the 36 distinct times offered are the backend's keys from 05:00 up to 23:00 |
| TurfDetail.GridKeysAscend | frontend/src/pages/TurfDetail.jsx:52-66 | the offered keys strictly increase as strings |
| TurfDetail.LabelHours | frontend/src/pages/TurfDetail.jsx:56-59 | hours 1-11 keep their number with AM, 12 is 12 PM, 13-23 become h - 12 PM, and the 12-hour hour lies in 1-12 |
| TurfDetail.ChoiceIsKey | frontend/src/pages/TurfDetail.jsx:56-59 | a generated time string is the backend key of that hour and minute |
| TurfDetail.Find | frontend/src/pages/TurfDetail.jsx:71 | finds the first grid entry with that time, and nothing when none has it |
| TurfDetail.AvailableMeaning | frontend/src/pages/TurfDetail.jsx:70-73 | a time is available exactly when it has no entry or its entry is neither booked nor blocked |
| TurfDetail.InRangeInclusive | frontend/src/pages/TurfDetail.jsx:80-84 | the range test includes both ends, unlike the backend's keys, which stop before the end |
| TurfDetail.ClickCoherent | frontend/src/pages/TurfDetail.jsx:86-125 | after any click, a set end means a set start before it |
| TurfDetail.ClickEffects | frontend/src/pages/TurfDetail.jsx:87-100 | an unavailable time changes nothing; clicking the start clears both; clicking the end clears only the end; other clicks start or extend the range as the code orders them |
| TurfDetail.RangeOverBookedTime | frontend/src/pages/TurfDetail.jsx:86-125 | only the clicked times are checked, so a selected range may contain a booked time |
| TurfDetail.HandleBookGuard | frontend/src/pages/TurfDetail.jsx:136-163 | the page goes to checkout exactly when the user is logged in, a date, a start and an end are set, and the duration is not a non-positive number; the state then carries the start as both time and startTime, the end, and the duration |
| TurfDetail.KeySelectionDuration | frontend/src/pages/TurfDetail.jsx:127-134 | for two keys in order, the duration is (end - start) / 60 hours and positive |
| TurfDetail.KeysHours | frontend/src/pages/TurfDetail.jsx:127-134 | between the keys of minutes a and b the duration is (b - a) / 60 hours |
| Checkout.DurationOrOne | frontend/src/pages/Checkout.jsx:107 | a zero or missing duration becomes 1, so the multiplier is never 0 |
| Checkout.DisplayedSplit | frontend/src/pages/Checkout.jsx:107-109 | advance + remaining = total, the advance lies in [0, total] for non-negative inputs, and the amounts equal the backend's charge for the same price and duration |
| Checkout.RequestShape | frontend/src/pages/Checkout.jsx:41-48 | time is the start time falling back to time, a duration is always sent, and with both ends the backend takes the range form |
| Checkout.DisplayedIsCharged | frontend/src/pages/Checkout.jsx:41-109 | for two selected keys the request's plan is that range with the displayed duration, so the displayed amounts are what the backend charges |
| Checkout.ChargedAt | frontend/src/pages/Checkout.jsx:41-109 | a selection of any positive duration h goes to checkout with a range request of h hours, and the page shows the backend's charge for h hours |
| Checkout.ChargedFor | frontend/src/pages/Checkout.jsx:41-109 | likewise for a selection of (b - a) / 60 hours with a < b |
| Checkout.HalfHourReachesBackend | frontend/src/pages/Checkout.jsx:41-48 | a half-hour selection is sent as a 0.5-hour range claiming one key |
| OwnerDashboard.FormatEmpty | frontend/src/pages/OwnerDashboard.jsx:9 | an empty or missing time formats as '' |
| OwnerDashboard.FormatTime12Hour | frontend/src/pages/OwnerDashboard.jsx:8-18 | '' for a missing or empty time; otherwise the page throws exactly when the time has no ':', since the minutes field is then undefined |
| OwnerDashboard.HourAloneThrows | frontend/src/pages/OwnerDashboard.jsx:12-15 | an hour with no minutes field, such as '14', makes `minutes.toString()` throw |
| OwnerDashboard.HourTable | frontend/src/pages/OwnerDashboard.jsx:12-14 | hour 0 is 12, hours 1-12 are unchanged, 13-23 become h - 12 |
| OwnerDashboard.FormatDigits | frontend/src/pages/OwnerDashboard.jsx:12-17 | `H:M` (plus any seconds) shows the 12-hour hour unpadded, the minutes padded, then AM below 12 and PM from 12 |
| OwnerDashboard.AgreesWithTurfPage | frontend/src/pages/OwnerDashboard.jsx:8-18 | for every key, with or without seconds, the output equals the turf page's label |
| OwnerDashboard.ShownMeaning | frontend/src/pages/OwnerDashboard.jsx:197-200 | the shown bookings are exactly those whose UTC day prints as the picked date, in their order |
| OwnerDashboard.IsoDayInjective | frontend/src/pages/OwnerDashboard.jsx:198 | two days print the same only if they are the same day |
| OwnerDashboard.IsoDayReadsBack | frontend/src/pages/OwnerDashboard.jsx:198 | a printed day from year 100 on normalises back to that day's midnight |
| OwnerDashboard.ShownIffInDayRange | frontend/src/pages/OwnerDashboard.jsx:197-200 | a booking is shown for a date exactly when the backend's range for that date contains its instant |

## Left out

- Express plumbing, routes, response bodies and messages. The `protect` and `authorize` middleware is not part of this model: the caller is an `Actor` parameter.
- Mongoose query execution, `populate`, `sort` and indexes other than the slot uniqueness index. Stores are maps, and insertion order stands for `createdAt`.
- Concurrency. The availability check and the writes of createBooking are not atomic in the source; the model handles one request at a time.
- HMAC-SHA256 is the uninterpreted parameter `sign`, the Razorpay order call is the parameter `order`, and the clock is the parameter `now`.
- Image upload, Cloudinary and multer's bracket-key expansion. multer is modelled as grouping equal names (one value a string, several an array).
- Floating point. Money and durations are exact reals.
- The city and search regular expressions of getTurfs, because they are user-supplied patterns.
- getMyBookings, getOwnerBookings, getTurf, getMyTurfs, getAllBookings and the admin user and turf lists. They are plain queries with no logic of their own.
- React rendering, navigation, toasts and local storage.
- TurfController.UpdateTurf: update validators run only on the paths a body sets; the model checks those paths and ignores casting errors of other body fields.
- TurfController.CreatedTurf: a rating or review count in the body is not modelled; they take their defaults.
- AdminController.ApproveEffect: the body's `isApproved` is modelled as an optional boolean, so a string or number is not cast; an absent value stores false.
- TurfDetail.ClickEffects: clicks are on times from the generated list (non-empty strings), as the page offers no others.
- OwnerDashboard.ShownIffInDayRange: holds for four-digit years from 100 on and instants inside the time range; other years print with a sign and six digits.
- Js.ToNumber: values are exact reals, so rounding to the nearest double is not modelled, and the Infinity spellings, which no real can hold, read as NaN.
- TimeOfDay.HalfHourKeys: a start time whose fields read as a negative or fractional minute count gives no keys, where the source would loop from that number; the range keys of createBooking and the availability grid share this.
- OwnerDashboard.FormatTime12Hour: a field that reads as a fraction or a negative number is shown as NaN, and such an hour takes AM, instead of the number's own printing.
- Js.Round: only the reals the model uses; JavaScript's negative zero is not modelled.
