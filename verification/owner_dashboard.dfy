/** The owner's dashboard (frontend/src/pages/OwnerDashboard.jsx): the 12-hour rendering of
    stored times and the filter that shows the bookings of one calendar day. */
module OwnerDashboard {
  import opened Js
  import opened TimeOfDay
  import opened DateUtils
  import opened Models
  import TurfDetail

  // ---------------------------------------------------------------------------
  // formatTime12Hour

  /** `hours === 0 ? 12 : hours > 12 ? hours - 12 : hours`, NaN (None) staying NaN. */
  function Hour12(hours: Option<nat>): Option<nat>
  {
    if hours == Some(0) then Some(12)
    else if hours.Some? && hours.value > 12 then Some(hours.value - 12)
    else hours
  }

  /** A number as a template literal shows it; NaN shows as "NaN". */
  function Show(n: Option<nat>): string
  {
    if n.None? then "NaN" else NatToString(n.value)
  }

  /** `toString().padStart(2, '0')`; "NaN" is already longer than two. */
  function ShowPadded(n: Option<nat>): string
  {
    if n.None? then "NaN" else Pad2(n.value)
  }

  /** formatTime12Hour(time24): '' for a missing or empty time; otherwise the first two
      ':'-separated fields read with Number, the hour in 12-hour form and unpadded, the
      minutes padded to two digits, then AM or PM (NaN compares false, so it gets AM). A
      time without a ':' has no minutes field, and `minutes.toString()` on undefined throws
      (None). */
  function FormatTime12Hour(time24: Option<string>): (r: Option<string>)
    ensures time24.None? || time24.value == "" ==> r == Some("")
    ensures time24.Some? && time24.value != "" ==> (r.None? <==> ':' !in time24.value)
  {
    if time24.None? || time24.value == "" then Some("")
    else
      var parts := Split(time24.value, ':');
      SplitFieldCount(time24.value, ':');
      if |parts| < 2 then None
      else
        var hours := ToNat(parts[0]);
        var minutes := ToNat(parts[1]);
        var ampm := if hours.Some? && hours.value >= 12 then "PM" else "AM";
        Some(Show(Hour12(hours)) + ":" + ShowPadded(minutes) + " " + ampm)
  }

  /** The output for a time whose hour and minute fields read as h and m. */
  function Formatted(h: nat, m: nat): string
  {
    NatToString(Hour12(Some(h)).value) + ":" + Pad2(m) + " " + (if h >= 12 then "PM" else "AM")
  }

  lemma FormatEmpty()
    ensures FormatTime12Hour(None) == Some("") && FormatTime12Hour(Some("")) == Some("")
  {
  }

  /** An hour with no minutes field makes the page throw, however the hour reads. */
  lemma HourAloneThrows(hs: string)
    requires AllDigits(hs) && hs != ""
    ensures FormatTime12Hour(Some(hs)).None?
  {
    DigitsHaveNoSeparator(hs, ':');
  }

  /** Midnight is 12 AM, morning hours keep their number, noon is 12 PM and afternoon
      hours count again from 1. */
  lemma HourTable(h: nat)
    requires h <= 23
    ensures h == 0 ==> Hour12(Some(h)) == Some(12)
    ensures 1 <= h <= 12 ==> Hour12(Some(h)) == Some(h)
    ensures 13 <= h ==> Hour12(Some(h)) == Some(h - 12)
  {
  }

  /** A time whose first two fields read as h and m formats as Formatted(h, m). */
  lemma FormatFields(s: string, h: nat, m: nat, v: Option<string>)
    requires s != "" && |Split(s, ':')| >= 2
    requires ToNat(Split(s, ':')[0]) == Some(h) && ToNat(Split(s, ':')[1]) == Some(m)
    requires v == Some(Formatted(h, m))
    ensures FormatTime12Hour(Some(s)) == v
  {
  }

  /** A time `H:M`, optionally followed by `:S...`, shows as the 12-hour form of hour H,
      unpadded, and minute M padded to two digits; anything after the minutes is ignored. */
  lemma FormatDigits(hs: string, ms: string, tail: string)
    requires AllDigits(hs) && AllDigits(ms)
    requires tail == "" || tail[0] == ':'
    ensures FormatTime12Hour(Some(hs + ":" + ms + tail)) == Some(Formatted(DigitsValue(hs), DigitsValue(ms)))
  {
    var s := hs + ":" + ms + tail;
    LeadingFields(hs, ms, tail);
    ToNumberOfDigits(hs);
    ToNumberOfDigits(ms);
    FormatFields(s, DigitsValue(hs), DigitsValue(ms), Some(Formatted(DigitsValue(hs), DigitsValue(ms))));
  }

  /** The first two ':'-fields of `H:M` or `H:M:...` with digit runs H and M are H and M. */
  lemma LeadingFields(hs: string, ms: string, tail: string)
    requires AllDigits(hs) && AllDigits(ms)
    requires tail == "" || tail[0] == ':'
    ensures |Split(hs + ":" + ms + tail, ':')| >= 2
    ensures Split(hs + ":" + ms + tail, ':')[0] == hs && Split(hs + ":" + ms + tail, ':')[1] == ms
  {
    var s := hs + ":" + ms + tail;
    DigitsHaveNoSeparator(hs, ':');
    DigitsHaveNoSeparator(ms, ':');
    if tail == "" {
      assert s == hs + [':'] + ms;
      SplitTwo(hs, ':', ms);
    } else {
      assert s == hs + [':'] + (ms + [':'] + tail[1..]);
      SplitAfter(hs, ':', ms + [':'] + tail[1..]);
      SplitAfter(ms, ':', tail[1..]);
    }
  }

  /** The dashboard's 12-hour form agrees with the labels of the turf page's time list for
      every slot key, and seconds after the minutes change nothing. */
  lemma AgreesWithTurfPage(h: nat, m: nat, seconds: string)
    requires m < 60
    ensures FormatTime12Hour(Some(Key(60 * h + m))) == Some(TurfDetail.Label(h, m))
    ensures FormatTime12Hour(Some(Key(60 * h + m) + ":" + seconds)) == Some(TurfDetail.Label(h, m))
  {
    KeyLabel(h, m, "", Key(60 * h + m));
    KeyLabel(h, m, ":" + seconds, Key(60 * h + m) + ":" + seconds);
  }

  lemma KeyLabel(h: nat, m: nat, tail: string, s: string)
    requires m < 60 && (tail == "" || tail[0] == ':') && s == Key(60 * h + m) + tail
    ensures FormatTime12Hour(Some(s)) == Some(TurfDetail.Label(h, m))
  {
    TurfDetail.HourMinute(h, m);
    Pad2Facts(h);
    Pad2Facts(m);
    assert s == Pad2(h) + ":" + Pad2(m) + tail;
    FormatDigits(Pad2(h), Pad2(m), tail);
  }

  // ---------------------------------------------------------------------------
  // Date filter

  /** `n.toString().padStart(width, '0')` */
  function Pad(n: nat, width: nat): string
  {
    PadStart(NatToString(n), width, '0')
  }

  lemma PadDigits(n: nat, width: nat)
    ensures AllDigits(Pad(n, width)) && DigitsValue(Pad(n, width)) == n
    ensures |Pad(n, width)| >= width
  {
    PaddedDigits(n, width);
  }

  /** The year as toISOString writes it: four digits for 0-9999, otherwise a sign and six. */
  function IsoYear(y: int): string
  {
    if 0 <= y <= 9999 then Pad(y, 4)
    else if y < 0 then "-" + Pad(-y, 6)
    else "+" + Pad(y, 6)
  }

  /** `toISOString().split('T')[0]` of an instant on this calendar day: `YYYY-MM-DD`. */
  function IsoDay(c: CivilDate): string
    requires ValidDate(c)
  {
    IsoYear(c.year) + "-" + Pad(c.month, 2) + "-" + Pad(c.day, 2)
  }

  /** The booking's UTC calendar day, as the dashboard prints it, is the picked date. */
  predicate OnDay(b: Booking, selectedDate: string)
  {
    IsoDay(UtcDate(b.date)) == selectedDate
  }

  /** `bookings.filter(b => new Date(b.date).toISOString().split('T')[0] === selectedDate)` */
  function Shown(bookings: seq<Booking>, selectedDate: string): seq<Booking>
  {
    Filter(bookings, (b: Booking) => OnDay(b, selectedDate))
  }

  /** The bookings shown are exactly those of the picked day, in their order: the filter
      distributes over concatenation. */
  lemma ShownMeaning(bookings: seq<Booking>, more: seq<Booking>, selectedDate: string)
    ensures forall b :: b in Shown(bookings, selectedDate) <==> b in bookings && OnDay(b, selectedDate)
    ensures Shown(bookings + more, selectedDate) == Shown(bookings, selectedDate) + Shown(more, selectedDate)
  {
    FilterMembers(bookings, (b: Booking) => OnDay(b, selectedDate));
    FilterConcat(bookings, more, (b: Booking) => OnDay(b, selectedDate));
  }

  /** The three fields of a four-digit-year date split apart and read back. */
  lemma IsoDayFields(c: CivilDate)
    requires ValidDate(c) && 0 <= c.year <= 9999
    ensures Split(IsoDay(c), '-') == [Pad(c.year, 4), Pad(c.month, 2), Pad(c.day, 2)]
  {
    PadDigits(c.year, 4);
    PadDigits(c.month, 2);
    PadDigits(c.day, 2);
    DigitsHaveNoSeparator(Pad(c.year, 4), '-');
    DigitsHaveNoSeparator(Pad(c.month, 2), '-');
    DigitsHaveNoSeparator(Pad(c.day, 2), '-');
    SplitThree(Pad(c.year, 4), '-', Pad(c.month, 2), Pad(c.day, 2));
  }

  /** Two calendar days print the same only if they are the same day (when one has a
      four-digit year). */
  lemma IsoDayInjective(c1: CivilDate, c2: CivilDate)
    requires ValidDate(c1) && ValidDate(c2) && 0 <= c2.year <= 9999
    requires IsoDay(c1) == IsoDay(c2)
    ensures c1 == c2
  {
    IsoDayLeadingDigit(c1);
    IsoDayLeadingDigit(c2);
    IsoDayFields(c1);
    IsoDayFields(c2);
    SameDigits(c1.year, c2.year, 4);
    SameDigits(c1.month, c2.month, 2);
    SameDigits(c1.day, c2.day, 2);
  }

  /** A printed day starts with a digit exactly when its year has four digits. */
  lemma IsoDayLeadingDigit(c: CivilDate)
    requires ValidDate(c)
    ensures IsDigit(IsoDay(c)[0]) <==> 0 <= c.year <= 9999
  {
    var y := IsoYear(c.year);
    assert IsoDay(c)[0] == y[0];
    if 0 <= c.year <= 9999 {
      PadDigits(c.year, 4);
    }
  }

  /** Equal padded numerals denote equal numbers. */
  lemma SameDigits(a: nat, b: nat, width: nat)
    requires Pad(a, width) == Pad(b, width)
    ensures a == b
  {
    PadDigits(a, width);
    PadDigits(b, width);
  }

  /** A four-digit-year date from year 100 on prints as a string the backend reads back as
      that day's UTC midnight. */
  lemma IsoDayReadsBack(c: CivilDate)
    requires ValidDate(c) && 100 <= c.year <= 9999 && -MaxTime <= DayOf(c) * MsPerDay <= MaxTime
    ensures NormalizeDate(IsoDay(c)) == Some(DayOf(c) * MsPerDay)
  {
    PadDigits(c.year, 4);
    PadDigits(c.month, 2);
    PadDigits(c.day, 2);
    NormalizeValidDate(Pad(c.year, 4), Pad(c.month, 2), Pad(c.day, 2), c);
  }

  /** An instant falls on a calendar day exactly when its day number is that day's. */
  lemma UtcDateIff(c: CivilDate, t: int)
    requires ValidDate(c)
    ensures UtcDate(t) == c <==> t / MsPerDay == DayOf(c)
  {
    CivilOfDayOf(c);
  }

  /** The dashboard shows a booking for a picked date exactly when the backend's range for
      that date contains the booking's instant: the frontend filter and the backend's
      day-range query agree. */
  lemma ShownIffInDayRange(c: CivilDate, t: int)
    requires ValidDate(c) && 100 <= c.year <= 9999
    requires -MaxTime <= DayOf(c) * MsPerDay && DayOf(c) * MsPerDay + MsPerDay <= MaxTime
    ensures DateRange(IsoDay(c)).Some?
    ensures IsoDay(UtcDate(t)) == IsoDay(c) <==>
      DateRange(IsoDay(c)).value.start <= t < DateRange(IsoDay(c)).value.end
  {
    var s := IsoDay(c);
    var d := DayOf(c);
    IsoDayReadsBack(c);
    assert NormalizeDate(s).value / MsPerDay == d;
    InRangeIffSameDay(s, t);
    UtcDateIff(c, t);
    if IsoDay(UtcDate(t)) == s {
      IsoDayInjective(UtcDate(t), c);
    }
  }
}
