/** Calendar dates as the backend stores them: a `YYYY-MM-DD` string (RFC 3339 section 5.6,
    full-date) is turned into the millisecond instant of its UTC midnight with `Date.UTC`
    (ECMA-262 section 21.4.3.4), and a day is queried as the half-open range from that
    instant to the same instant one calendar day later (`setUTCDate(getUTCDate() + 1)`).

    Instants are integers (milliseconds from 1970-01-01T00:00Z); NaN, the Invalid Date, is
    None. The day arithmetic is that of ECMA-262 section 21.4.1: DayFromYear, the month
    tables behind MonthFromTime and DateFromTime, MakeDay and TimeClip. Divisions by a
    positive constant are floors, which is what Dafny's `/` and `%` compute. */
module DateUtils {
  import opened Js

  /** msPerDay */
  const MsPerDay: int := 86400000

  /** The largest magnitude TimeClip admits: 100 000 000 days. */
  const MaxTime: int := 8640000000000000

  // ---------------------------------------------------------------------------
  // Years

  predicate IsLeap(y: int) { y % 4 == 0 && (y % 100 != 0 || y % 400 == 0) }

  function DaysInYear(y: int): int { if IsLeap(y) then 366 else 365 }

  /** The day number of January 1 of year y: the lengths of the years from 1970 up to y,
      or minus those from y up to 1970. DayFromYearFormula shows it is ECMA-262's closed
      form `365 (y - 1970) + floor((y - 1969) / 4) - floor((y - 1901) / 100)
      + floor((y - 1601) / 400)`. */
  function DayFromYear(y: int): int
    decreases if y >= 1970 then y - 1970 else 1970 - y
  {
    if y == 1970 then 0
    else if y > 1970 then DayFromYear(y - 1) + DaysInYear(y - 1)
    else DayFromYear(y + 1) - DaysInYear(y)
  }

  /** Consecutive years are DaysInYear apart. */
  lemma DayFromYearStep(y: int)
    ensures DayFromYear(y + 1) == DayFromYear(y) + DaysInYear(y)
  {
  }

  /** ECMA-262's closed form of DayFromYear. */
  function DayFromYearClosed(y: int): int
  {
    365 * (y - 1970) + (y - 1969) / 4 - (y - 1901) / 100 + (y - 1601) / 400
  }

  lemma ClosedStep(y: int)
    ensures DayFromYearClosed(y + 1) == DayFromYearClosed(y) + DaysInYear(y)
  {
    LeapDaysStep(y);
    LeapCount(y);
    assert DayFromYearClosed(y + 1)
      == 365 * (y - 1969) + (y - 1968) / 4 - (y - 1900) / 100 + (y - 1600) / 400;
  }

  /** Gregorian leap years by inclusion and exclusion: every fourth year, less every
      hundredth, plus every four-hundredth. */
  lemma LeapCount(y: int)
    ensures DaysInYear(y) == 365 + (if y % 4 == 0 then 1 else 0) - (if y % 100 == 0 then 1 else 0)
                                 + (if y % 400 == 0 then 1 else 0)
  {
    if y % 100 == 0 {
      assert y == 4 * (25 * (y / 100));
    }
    if y % 400 == 0 {
      assert y == 100 * (4 * (y / 400));
    }
  }

  /** The closed form counts exactly the leap days. */
  lemma {:induction false} DayFromYearFormula(y: int)
    ensures DayFromYear(y) == DayFromYearClosed(y)
    decreases if y >= 1970 then y - 1970 else 1970 - y
  {
    if y > 1970 {
      DayFromYearFormula(y - 1);
      ClosedStep(y - 1);
    } else if y < 1970 {
      DayFromYearFormula(y + 1);
      ClosedStep(y);
    }
  }

  lemma LeapDaysStep(y: int)
    ensures (y - 1968) / 4 == (y - 1969) / 4 + (if y % 4 == 0 then 1 else 0)
    ensures (y - 1900) / 100 == (y - 1901) / 100 + (if y % 100 == 0 then 1 else 0)
    ensures (y - 1600) / 400 == (y - 1601) / 400 + (if y % 400 == 0 then 1 else 0)
  {
    FloorStep(y, 4, 492);
    FloorStep(y, 100, 19);
    FloorStep(y, 400, 4);
  }

  /** (y - k c) / k exceeds (y - k c - 1) / k by one exactly when k divides y. */
  lemma FloorStep(y: int, k: int, c: int)
    requires k > 0
    ensures (y - k * c) / k == (y - k * c - 1) / k + (if y % k == 0 then 1 else 0)
  {
    var q, r := y / k, y % k;
    assert y - k * c == k * (q - c) + r;
    assert (y - k * c) / k == q - c by { DivOfMul(q - c, r, k); }
    if r == 0 {
      assert y - k * c - 1 == k * (q - c - 1) + (k - 1);
      DivOfMul(q - c - 1, k - 1, k);
    } else {
      assert y - k * c - 1 == k * (q - c) + (r - 1);
      DivOfMul(q - c, r - 1, k);
    }
  }

  /** Floor division undoes multiplication by a positive k plus a remainder below k. */
  lemma DivOfMul(q: int, r: int, k: int)
    requires k > 0 && 0 <= r < k
    ensures (k * q + r) / k == q
  {
    var n := k * q + r;
    var d, m := n / k, n % k;
    assert k * (q - d) == m - r;
    if q - d >= 1 {
      MulAtLeast(k, q - d);
    } else if d - q >= 1 {
      MulAtLeast(k, d - q);
    }
  }

  lemma {:induction false} MulAtLeast(k: int, x: int)
    requires k > 0 && x >= 1
    ensures k * x >= k
    decreases x
  {
    if x > 1 {
      MulAtLeast(k, x - 1);
      assert k * x == k * (x - 1) + k;
    }
  }

  /** DayFromYear is strictly increasing. */
  lemma {:induction false} DayFromYearMonotone(a: int, b: int)
    requires a < b
    ensures DayFromYear(a + 1) <= DayFromYear(b)
    ensures DayFromYear(a) < DayFromYear(b)
    decreases b - a
  {
    DayFromYearStep(a);
    if a + 1 < b {
      DayFromYearMonotone(a + 1, b);
    }
  }

  /** The year (YearFromTime) of day number d: searched upward from 1970 for days after the
      epoch and downward from 1969 for days before it. */
  function YearOf(d: int): (y: int)
    ensures DayFromYear(y) <= d < DayFromYear(y + 1)
  {
    if d >= 0 then YearUp(d, 1970) else YearDown(d, 1969)
  }

  function YearUp(d: int, y: int): (r: int)
    requires DayFromYear(y) <= d
    ensures DayFromYear(r) <= d < DayFromYear(r + 1)
    decreases d - DayFromYear(y)
  {
    DayFromYearStep(y);
    if d < DayFromYear(y + 1) then y else YearUp(d, y + 1)
  }

  function YearDown(d: int, y: int): (r: int)
    requires d < DayFromYear(y + 1)
    ensures DayFromYear(r) <= d < DayFromYear(r + 1)
    decreases DayFromYear(y + 1) - d
  {
    DayFromYearStep(y);
    if DayFromYear(y) <= d then y else YearDown(d, y - 1)
  }

  /** Only one year contains a given day. */
  lemma YearOfUnique(d: int, y: int)
    requires DayFromYear(y) <= d < DayFromYear(y + 1)
    ensures YearOf(d) == y
  {
    var r := YearOf(d);
    if r < y { DayFromYearMonotone(r, y); }
    if y < r { DayFromYearMonotone(y, r); }
  }

  // ---------------------------------------------------------------------------
  // Months

  /** Days in month m (0 = January) of a year that is or is not a leap year. */
  function DaysInMonth(m: int, leap: bool): int
    requires 0 <= m < 12
  {
    if m == 1 then (if leap then 29 else 28)
    else if m == 3 || m == 5 || m == 8 || m == 10 then 30
    else 31
  }

  /** Days of the year before the first of month m; CumDays(12) is the length of the year. */
  function CumDays(m: int, leap: bool): (r: int)
    requires 0 <= m <= 12
    ensures r >= 28 * m
  {
    if m == 0 then 0 else CumDays(m - 1, leap) + DaysInMonth(m - 1, leap)
  }

  /** The months fill the year; the table is the one of MonthFromTime: 0, 31, 59 (60 in a
      leap year), 90, ... */
  lemma CumDaysTable(leap: bool)
    ensures CumDays(12, leap) == if leap then 366 else 365
  {
    var l := if leap then 1 else 0;
    assert CumDays(1, leap) == 31;
    assert CumDays(2, leap) == 59 + l;
    assert CumDays(3, leap) == 90 + l;
    assert CumDays(4, leap) == 120 + l;
    assert CumDays(5, leap) == 151 + l;
    assert CumDays(6, leap) == 181 + l;
    assert CumDays(7, leap) == 212 + l;
    assert CumDays(8, leap) == 243 + l;
    assert CumDays(9, leap) == 273 + l;
    assert CumDays(10, leap) == 304 + l;
    assert CumDays(11, leap) == 334 + l;
  }

  lemma CumDaysStep(m: int, leap: bool)
    requires 0 <= m < 12
    ensures CumDays(m + 1, leap) == CumDays(m, leap) + DaysInMonth(m, leap)
    ensures CumDays(12, leap) == if leap then 366 else 365
  {
    CumDaysTable(leap);
  }

  lemma {:induction false} CumDaysMonotone(a: int, b: int, leap: bool)
    requires 0 <= a < b <= 12
    ensures CumDays(a + 1, leap) <= CumDays(b, leap)
    decreases b - a
  {
    if a + 1 < b {
      CumDaysStep(a + 1, leap);
      CumDaysMonotone(a + 1, b, leap);
    }
  }

  /** The month (MonthFromTime) containing day `off` of the year, 0-based. */
  function MonthOf(off: int, leap: bool): (m: int)
    requires 0 <= off < CumDays(12, leap)
    ensures 0 <= m < 12 && CumDays(m, leap) <= off < CumDays(m + 1, leap)
  {
    MonthFrom(off, leap, 0)
  }

  function MonthFrom(off: int, leap: bool, m: int): (r: int)
    requires 0 <= m < 12 && CumDays(m, leap) <= off < CumDays(12, leap)
    ensures m <= r < 12 && CumDays(r, leap) <= off < CumDays(r + 1, leap)
    decreases 12 - m
  {
    if off < CumDays(m + 1, leap) then m else MonthFrom(off, leap, m + 1)
  }

  lemma MonthOfUnique(off: int, leap: bool, m: int)
    requires 0 <= m < 12 && CumDays(m, leap) <= off < CumDays(m + 1, leap) <= CumDays(12, leap)
    ensures MonthOf(off, leap) == m
  {
    var r := MonthOf(off, leap);
    if r < m { CumDaysMonotone(r, m, leap); }
    if m < r { CumDaysMonotone(m, r, leap); }
  }

  // ---------------------------------------------------------------------------
  // Civil dates and day numbers

  /** A calendar date as written in a full-date string: month 1-12, day of month from 1. */
  datatype CivilDate = CivilDate(year: int, month: int, day: int)

  predicate ValidDate(c: CivilDate)
  {
    1 <= c.month <= 12 && 1 <= c.day <= DaysInMonth(c.month - 1, IsLeap(c.year))
  }

  /** The day number of a calendar date: the days before its year, before its month within
      the year, and before it within the month. */
  function DayOf(c: CivilDate): int
    requires 1 <= c.month <= 12
  {
    DayFromYear(c.year) + CumDays(c.month - 1, IsLeap(c.year)) + c.day - 1
  }

  /** The year, month and date (YearFromTime, MonthFromTime + 1, DateFromTime) of day d. */
  function CivilOf(d: int): (c: CivilDate)
    ensures ValidDate(c) && DayOf(c) == d
  {
    var y := YearOf(d);
    var leap := IsLeap(y);
    var off := d - DayFromYear(y);
    assert 0 <= off < CumDays(12, leap) by {
      DayFromYearStep(y);
      CumDaysTable(leap);
    }
    var m := MonthOf(off, leap);
    CivilParts(d, y, off, m);
    CivilDate(y, m + 1, off - CumDays(m, leap) + 1)
  }

  /** The day of the year falls in month m: the date that month and offset name is valid
      and is day d. */
  lemma CivilParts(d: int, y: int, off: int, m: int)
    requires off == d - DayFromYear(y)
    requires 0 <= m < 12 && CumDays(m, IsLeap(y)) <= off < CumDays(m + 1, IsLeap(y))
    ensures ValidDate(CivilDate(y, m + 1, off - CumDays(m, IsLeap(y)) + 1))
    ensures DayOf(CivilDate(y, m + 1, off - CumDays(m, IsLeap(y)) + 1)) == d
  {
    CumDaysStep(m, IsLeap(y));
  }

  /** MakeDay(year, month, date): the day number of the given date, where `month` is 0-based
      and may lie outside 0-11 (it then carries into the year) and `date` may exceed the
      length of the month (it then runs on into the following months). */
  function MakeDay(year: int, month: int, date: int): int
  {
    var ym := year + month / 12;
    var mn := month % 12;
    DayFromYear(ym) + CumDays(mn, IsLeap(ym)) + date - 1
  }

  /** For a month index 0-11, MakeDay is the day number of that date of that year. */
  lemma MakeDayOf(c: CivilDate)
    requires 1 <= c.month <= 12
    ensures MakeDay(c.year, c.month - 1, c.day) == DayOf(c)
  {
    assert (c.month - 1) / 12 == 0 && (c.month - 1) % 12 == c.month - 1;
  }

  /** A valid date falls within its own year. */
  lemma DayOfWithinYear(c: CivilDate)
    requires ValidDate(c)
    ensures CumDays(c.month - 1, IsLeap(c.year)) + c.day - 1 < CumDays(c.month, IsLeap(c.year))
    ensures CumDays(c.month, IsLeap(c.year)) <= CumDays(12, IsLeap(c.year))
    ensures DayFromYear(c.year) <= DayOf(c) < DayFromYear(c.year + 1)
  {
    var y, m0 := c.year, c.month - 1;
    var leap := IsLeap(y);
    CumDaysStep(m0, leap);
    CumDaysMonotone(m0, 12, leap);
    DayFromYearStep(y);
  }

  /** Day numbers and valid calendar dates are in one-to-one correspondence. */
  lemma CivilOfDayOf(c: CivilDate)
    requires ValidDate(c)
    ensures CivilOf(DayOf(c)) == c
  {
    SameDayNumber(CivilOf(DayOf(c)), c);
  }

  /** Two valid dates with the same day number are the same date. */
  lemma SameDayNumber(a: CivilDate, b: CivilDate)
    requires ValidDate(a) && ValidDate(b) && DayOf(a) == DayOf(b)
    ensures a == b
  {
    SameYear(a, b);
    SameMonth(a, b);
  }

  lemma SameYear(a: CivilDate, b: CivilDate)
    requires ValidDate(a) && ValidDate(b) && DayOf(a) == DayOf(b)
    ensures a.year == b.year
  {
    DayOfWithinYear(a);
    DayOfWithinYear(b);
    YearOfUnique(DayOf(a), a.year);
    YearOfUnique(DayOf(a), b.year);
  }

  lemma SameMonth(a: CivilDate, b: CivilDate)
    requires ValidDate(a) && ValidDate(b) && DayOf(a) == DayOf(b) && a.year == b.year
    ensures a.month == b.month
  {
    var leap := IsLeap(a.year);
    var off := DayOf(a) - DayFromYear(a.year);
    DayInMonth(a);
    DayInMonth(b);
    OneMonth(off, leap, a.month - 1, b.month - 1);
  }

  /** A valid date's day of the year lies within its month. */
  lemma DayInMonth(c: CivilDate)
    requires ValidDate(c)
    ensures CumDays(c.month - 1, IsLeap(c.year)) <= DayOf(c) - DayFromYear(c.year) < CumDays(c.month, IsLeap(c.year))
    ensures CumDays(c.month, IsLeap(c.year)) <= CumDays(12, IsLeap(c.year))
  {
    var leap := IsLeap(c.year);
    CumDaysStep(c.month - 1, leap);
    CumDaysMonotone(c.month - 1, 12, leap);
  }

  lemma OneMonth(off: int, leap: bool, m: int, n: int)
    requires 0 <= m < 12 && CumDays(m, leap) <= off < CumDays(m + 1, leap) <= CumDays(12, leap)
    requires 0 <= n < 12 && CumDays(n, leap) <= off < CumDays(n + 1, leap) <= CumDays(12, leap)
    ensures m == n
  {
    MonthOfUnique(off, leap, m);
    MonthOfUnique(off, leap, n);
  }

  /** Distinct valid dates have distinct day numbers. */
  lemma DayOfInjective(a: CivilDate, b: CivilDate)
    requires ValidDate(a) && ValidDate(b) && a != b
    ensures DayOf(a) != DayOf(b)
  {
    CivilOfDayOf(a);
    CivilOfDayOf(b);
  }

  /** The calendar date after c. */
  function NextDate(c: CivilDate): (n: CivilDate)
    requires ValidDate(c)
    ensures ValidDate(n)
  {
    if c.day < DaysInMonth(c.month - 1, IsLeap(c.year)) then CivilDate(c.year, c.month, c.day + 1)
    else if c.month < 12 then CivilDate(c.year, c.month + 1, 1)
    else CivilDate(c.year + 1, 1, 1)
  }

  /** The following date is the following day number. */
  lemma NextDateIsNextDay(c: CivilDate)
    requires ValidDate(c)
    ensures DayOf(NextDate(c)) == DayOf(c) + 1
  {
    if c.day == DaysInMonth(c.month - 1, IsLeap(c.year)) {
      if c.month < 12 {
        CumDaysStep(c.month - 1, IsLeap(c.year));
      } else {
        CumDaysStep(11, IsLeap(c.year));
        DayFromYearStep(c.year);
      }
    }
  }

  // ---------------------------------------------------------------------------
  // Date.UTC, normalizeDate, getDateRange

  /** TimeClip: instants beyond 8.64e15 ms either side of the epoch are NaN. */
  function TimeClip(t: int): (r: Option<int>)
    ensures r.Some? <==> -MaxTime <= t <= MaxTime
    ensures r.Some? ==> r.value == t
  {
    if -MaxTime <= t <= MaxTime then Some(t) else None
  }

  /** Date.UTC(year, month, date, 0, 0, 0, 0) with integer arguments; years 0 to 99 are
      read as 1900 to 1999. */
  function DateUtc(year: int, month: int, date: int): (r: Option<int>)
    ensures r.Some? ==> r.value % MsPerDay == 0 && -MaxTime <= r.value <= MaxTime
    ensures r.Some? ==> r.value / MsPerDay == MakeDay(if 0 <= year <= 99 then 1900 + year else year, month, date)
  {
    var yr := if 0 <= year <= 99 then 1900 + year else year;
    TimeClip(MakeDay(yr, month, date) * MsPerDay)
  }

  /** normalizeDate(s): `s.split('-').map(Number)` destructured into year, month and day, then
      `Date.UTC(year, month - 1, day)`, which truncates each argument toward zero. Fewer than
      three fields, or a field Number() refuses, gives NaN; fields after the third are
      ignored. */
  function NormalizeDate(s: string): (r: Option<int>)
    ensures r.Some? ==> r.value % MsPerDay == 0 && -MaxTime <= r.value <= MaxTime
  {
    var p := Split(s, '-');
    if |p| < 3 then None
    else
      var y, m, d := ToNumber(p[0]), ToNumber(p[1]), ToNumber(p[2]);
      if y.None? || m.None? || d.None? then None
      else DateUtc(Truncate(y.value), Truncate(m.value - 1.0), Truncate(d.value))
  }

  /** The UTC calendar date of an instant (YearFromTime, MonthFromTime, DateFromTime of
      Day(t) = floor(t / msPerDay)). */
  function UtcDate(t: int): CivilDate { CivilOf(t / MsPerDay) }

  /** `new Date(t).setUTCDate(date)`: same year, month and time of day, with the day of month
      replaced (and allowed to run on into the next month); NaN stays NaN. */
  function SetUtcDate(t: Option<int>, date: int): Option<int>
  {
    if t.None? then None else SetDate(t.value, UtcDate(t.value), date)
  }

  /** The instant t, whose calendar date is c, moved to another day of the same month. */
  function SetDate(t: int, c: CivilDate, date: int): Option<int>
  {
    TimeClip(MakeDay(c.year, c.month - 1, date) * MsPerDay + t % MsPerDay)
  }

  datatype DayRange = DayRange(start: int, end: int)

  /** Advancing the day of month of a UTC midnight by one gives the next midnight. */
  lemma NextMidnight(t: int)
    requires t % MsPerDay == 0
    ensures MakeDay(UtcDate(t).year, UtcDate(t).month - 1, UtcDate(t).day + 1) * MsPerDay
      + t % MsPerDay == t + MsPerDay
  {
    var c := UtcDate(t);
    MakeDayOf(CivilDate(c.year, c.month, c.day + 1));
    assert t == (t / MsPerDay) * MsPerDay;
  }

  /** getDateRange(s): start is normalizeDate(s), end is a copy advanced by one calendar day.
      A NaN bound makes the range unusable in a query, which is None here. */
  function DateRange(s: string): (r: Option<DayRange>)
    ensures r.Some? <==> NormalizeDate(s).Some? && NormalizeDate(s).value + MsPerDay <= MaxTime
    ensures r.Some? ==> r.value.start == NormalizeDate(s).value
    ensures r.Some? ==> r.value.end - r.value.start == MsPerDay
  {
    var start := NormalizeDate(s);
    if start.None? then None
    else
      var end := SetUtcDate(start, UtcDate(start.value).day + 1);
      NextDayEnd(start.value);
      if end.None? then None else Some(DayRange(start.value, end.value))
  }

  /** Advancing a UTC midnight by one day of month gives the next midnight, or NaN when
      that lies past the end of time. */
  lemma NextDayEnd(t: int)
    requires t % MsPerDay == 0
    ensures var end := SetUtcDate(Some(t), UtcDate(t).day + 1);
      && (end.Some? <==> -MaxTime <= t + MsPerDay <= MaxTime)
      && (end.Some? ==> end.value == t + MsPerDay)
  {
    NextMidnight(t);
  }

  /** An instant lies in the range of s exactly when its UTC calendar day is the day s
      normalises to; in particular normalizeDate(s) lies in [start, end). */
  lemma InRangeIffSameDay(s: string, t: int)
    requires DateRange(s).Some?
    ensures DateRange(s).value.start <= t < DateRange(s).value.end
      <==> t / MsPerDay == NormalizeDate(s).value / MsPerDay
    ensures DateRange(s).value.start <= NormalizeDate(s).value < DateRange(s).value.end
  {
    var r := DateRange(s).value;
    assert r.start % MsPerDay == 0;
    assert r.start == (r.start / MsPerDay) * MsPerDay;
  }

  // ---------------------------------------------------------------------------
  // Reading full-date strings

  /** A string with three numeric fields denotes Date.UTC of the fields truncated toward
      zero, the month less one: so '2025-01-05.5' is 5 January 2025 and ' 2025-+1-5' is the
      same day. */
  lemma NormalizeNumbers(s: string, ys: string, ms: string, ds: string, y: real, m: real, d: real)
    requires Split(s, '-') == [ys, ms, ds]
    requires ToNumber(ys) == Some(y) && ToNumber(ms) == Some(m) && ToNumber(ds) == Some(d)
    ensures NormalizeDate(s) == DateUtc(Truncate(y), Truncate(m - 1.0), Truncate(d))
  {
    var p := Split(s, '-');
    assert |p| == 3 && p[0] == ys && p[1] == ms && p[2] == ds;
  }

  /** A date string `Y-M-D` with digit fields denotes Date.UTC(Y, M - 1, D). */
  lemma NormalizeFields(ys: string, ms: string, ds: string, y: nat, m: nat, d: nat)
    requires AllDigits(ys) && AllDigits(ms) && AllDigits(ds)
    requires DigitsValue(ys) == y && DigitsValue(ms) == m && DigitsValue(ds) == d
    ensures NormalizeDate(ys + "-" + ms + "-" + ds) == DateUtc(y, m - 1, d)
  {
    var s := ys + "-" + ms + "-" + ds;
    assert Split(s, '-') == [ys, ms, ds] by {
      DigitsHaveNoSeparator(ys, '-');
      DigitsHaveNoSeparator(ms, '-');
      DigitsHaveNoSeparator(ds, '-');
      SplitThree(ys, '-', ms, ds);
    }
    ToNumberOfDigits(ys);
    ToNumberOfDigits(ms);
    ToNumberOfDigits(ds);
    NormalizeNumbers(s, ys, ms, ds, y as real, m as real, d as real);
    TruncateWhole(y);
    TruncateWhole(m - 1);
    TruncateWhole(d);
    assert m as real - 1.0 == (m - 1) as real;
  }

  /** For a valid date from year 100 onwards within the time range, the digit string
      `Y-M-D` normalises to the UTC midnight of that very date: month field M is month M of
      the year (January for 1), so reading the instant back gives Y, M and D again. */
  lemma NormalizeValidDate(ys: string, ms: string, ds: string, c: CivilDate)
    requires AllDigits(ys) && AllDigits(ms) && AllDigits(ds)
    requires DigitsValue(ys) == c.year && DigitsValue(ms) == c.month && DigitsValue(ds) == c.day
    requires ValidDate(c) && c.year >= 100 && -MaxTime <= DayOf(c) * MsPerDay <= MaxTime
    ensures NormalizeDate(ys + "-" + ms + "-" + ds) == Some(DayOf(c) * MsPerDay)
    ensures UtcDate(DayOf(c) * MsPerDay) == c
  {
    NormalizeValidDay(ys, ms, ds, c, DayOf(c) * MsPerDay);
    UtcDateOfDay(c);
  }

  lemma NormalizeValidDay(ys: string, ms: string, ds: string, c: CivilDate, t: int)
    requires AllDigits(ys) && AllDigits(ms) && AllDigits(ds)
    requires DigitsValue(ys) == c.year && DigitsValue(ms) == c.month && DigitsValue(ds) == c.day
    requires ValidDate(c) && c.year >= 100 && t == DayOf(c) * MsPerDay && -MaxTime <= t <= MaxTime
    ensures NormalizeDate(ys + "-" + ms + "-" + ds) == Some(t)
  {
    DateUtcOfDay(c, t);
    NormalizeFieldsTo(ys, ms, ds, c.year, c.month, c.day, Some(t));
  }

  lemma NormalizeFieldsTo(ys: string, ms: string, ds: string, y: nat, m: nat, d: nat, v: Option<int>)
    requires AllDigits(ys) && AllDigits(ms) && AllDigits(ds)
    requires DigitsValue(ys) == y && DigitsValue(ms) == m && DigitsValue(ds) == d
    requires v == DateUtc(y, m - 1, d)
    ensures NormalizeDate(ys + "-" + ms + "-" + ds) == v
  {
    NormalizeFields(ys, ms, ds, y, m, d);
  }

  /** Date.UTC of a valid date from year 100 on is the UTC midnight of its day number. */
  lemma DateUtcOfDay(c: CivilDate, t: int)
    requires ValidDate(c) && c.year >= 100 && t == DayOf(c) * MsPerDay && -MaxTime <= t <= MaxTime
    ensures DateUtc(c.year, c.month - 1, c.day) == Some(t)
  {
    MakeDayOf(c);
  }

  /** The UTC midnight of a valid date reads back as that date. */
  lemma UtcDateOfDay(c: CivilDate)
    requires ValidDate(c)
    ensures UtcDate(DayOf(c) * MsPerDay) == c
  {
    assert DayOf(c) * MsPerDay / MsPerDay == DayOf(c);
    CivilOfDayOf(c);
  }

  /** Two-digit years are read in the twentieth century: '0024-01-01' is 1 January 1924. */
  lemma TwoDigitYears(ys: string, ms: string, ds: string, y: nat, m: nat, d: nat)
    requires AllDigits(ys) && AllDigits(ms) && AllDigits(ds)
    requires DigitsValue(ys) == y && DigitsValue(ms) == m && DigitsValue(ds) == d && y <= 99
    ensures NormalizeDate(ys + "-" + ms + "-" + ds) == DateUtc(1900 + y, m - 1, d)
  {
    NormalizeFields(ys, ms, ds, y, m, d);
  }

  /** Distinct valid dates (read as written, from year 100 on) give disjoint ranges. */
  lemma DistinctDatesDisjoint(a: string, b: string, t: int)
    requires DateRange(a).Some? && DateRange(b).Some?
    requires UtcDate(NormalizeDate(a).value) != UtcDate(NormalizeDate(b).value)
    ensures !(DateRange(a).value.start <= t < DateRange(a).value.end
              && DateRange(b).value.start <= t < DateRange(b).value.end)
  {
    InRangeIffSameDay(a, t);
    InRangeIffSameDay(b, t);
  }

  /** The end of the range of a date is the start of the range of the next date. */
  lemma RangesAdjacent(a: string, b: string)
    requires DateRange(a).Some? && DateRange(b).Some?
    requires UtcDate(NormalizeDate(b).value) == NextDate(UtcDate(NormalizeDate(a).value))
    ensures DateRange(a).value.end == DateRange(b).value.start
  {
    var ta, tb := NormalizeDate(a).value, NormalizeDate(b).value;
    NextDateIsNextDay(UtcDate(ta));
    assert ta == (ta / MsPerDay) * MsPerDay && tb == (tb / MsPerDay) * MsPerDay;
  }
}
