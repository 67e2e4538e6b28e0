/** The booking panel of the turf page (frontend/src/pages/TurfDetail.jsx): the fixed list of
    half-hour times offered, their availability as read from the backend's grid, the
    start/end selection driven by clicks, and the guard in front of the checkout page. */
module TurfDetail {
  import opened Js
  import opened TimeOfDay
  import BookingController
  import TurfController

  // ---------------------------------------------------------------------------
  // generateTimeSlots

  /** `hour > 12 ? hour - 12 : hour === 0 ? 12 : hour` */
  function Hour12(hour: nat): nat
  {
    if hour > 12 then hour - 12 else if hour == 0 then 12 else hour
  }

  function Meridiem(hour: nat): string
  {
    if hour >= 12 then "PM" else "AM"
  }

  /** The 12-hour label: unpadded hour, zero-padded minutes, AM or PM. */
  function Label(hour: nat, minute: nat): string
  {
    NatToString(Hour12(hour)) + ":" + Pad2(minute) + " " + Meridiem(hour)
  }

  /** The label's hour and half of day: morning hours keep their number, noon is 12 PM and
      the afternoon counts again from 1. */
  lemma LabelHours(hour: nat)
    requires 1 <= hour <= 23
    ensures 1 <= hour <= 11 ==> Hour12(hour) == hour && Meridiem(hour) == "AM"
    ensures hour == 12 ==> Hour12(hour) == 12 && Meridiem(hour) == "PM"
    ensures 13 <= hour ==> Hour12(hour) == hour - 12 && Meridiem(hour) == "PM"
    ensures 1 <= Hour12(hour) <= 12
  {
  }

  datatype TimeChoice = TimeChoice(time24: string, time12: string)

  function Choice(hour: nat, minute: nat): TimeChoice
  {
    TimeChoice(Pad2(hour) + ":" + Pad2(minute), Label(hour, minute))
  }

  /** Minute m of hour h (m < 60) is minute 60 h + m of the day. */
  lemma HourMinute(h: nat, m: nat)
    requires m < 60
    ensures (60 * h + m) / 60 == h && (60 * h + m) % 60 == m
  {
  }

  /** Entry i of the loops, i < 36, is minute 300 + 30 i: hour 5 + i / 2, minute 30 (i % 2). */
  lemma EntryMinute(i: nat)
    ensures 60 * (5 + i / 2) + 30 * (i % 2) == 300 + 30 * i
  {
  }

  /** A choice's 24-hour time is the slot key of its minute of the day. */
  lemma ChoiceIsKey(hour: nat, minute: nat)
    requires minute < 60
    ensures Choice(hour, minute).time24 == Key(60 * hour + minute)
    ensures Choice(hour, minute).time12 == Label((60 * hour + minute) / 60, (60 * hour + minute) % 60)
  {
    HourMinute(hour, minute);
  }

  /** The appended entry spells the same time and label as the last generated one. */
  lemma LastChoice()
    ensures Choice(22, 30) == TimeChoice("22:30", "10:30 PM")
  {
    assert NatToString(22) == "22" && NatToString(30) == "30" && NatToString(10) == "10";
  }

  /** Entry i of the loops carries the key of 05:00 + 30 i and that minute's label. */
  lemma EntryIsKey(i: nat)
    ensures Choice(5 + i / 2, 30 * (i % 2)).time24 == Key(300 + 30 * i)
    ensures Choice(5 + i / 2, 30 * (i % 2)).time12 == Label((300 + 30 * i) / 60, (300 + 30 * i) % 60)
  {
    var h, m := 5 + i / 2, 30 * (i % 2);
    EntryMinute(i);
    ChoiceIsKey(h, m);
    assert 60 * h + m == 300 + 30 * i;
  }

  /** The times 05:00 + 30 i offered are exactly the backend's grid keys for operating hours
      05:00-23:00 (o = 300 and c = 1380 minutes), in the same order. */
  lemma OfferedAreGridKeys(o: nat, c: nat)
    requires o == 300 && c == 1380
    ensures |KeysFrom(o, c)| == 36
    ensures forall i :: 0 <= i < 36 ==> KeysFrom(o, c)[i] == Key(300 + 30 * i)
  {
    Every30Shape(o, c, Key);
  }

  /** generateTimeSlots: for each hour 5 to 22 the times :00 and :30, then '22:30' pushed
      once more. The result has 37 entries; the first 36 are the backend's grid keys for
      hours 05:00-23:00 in order, with their labels, and the last repeats the one before. */
  method GenerateTimeSlots() returns (times: seq<TimeChoice>)
    ensures |times| == 37
    ensures forall i :: 0 <= i < 36 ==>
      times[i].time24 == Key(300 + 30 * i)
      && times[i].time12 == Label((300 + 30 * i) / 60, (300 + 30 * i) % 60)
    ensures times[36] == times[35] == TimeChoice("22:30", "10:30 PM")
  {
    times := [];
    var hour := 5;
    while hour < 23
      invariant 5 <= hour <= 23 && times == HoursBefore(hour)
    {
      var minute := 0;
      while minute < 60
        invariant minute == 0 || minute == 30 || minute == 60
        invariant minute == 0 ==> times == HoursBefore(hour)
        invariant minute == 30 ==> times == HoursBefore(hour) + [Choice(hour, 0)]
        invariant minute == 60 ==> times == HoursBefore(hour) + [Choice(hour, 0), Choice(hour, 30)]
      {
        times := times + [Choice(hour, minute)];
        minute := minute + 30;
      }
      hour := hour + 1;
    }
    HoursBeforeShape(hour);
    PairsAreEntries(times);
    times := times + [TimeChoice("22:30", "10:30 PM")];
    LastChoice();
  }

  /** The entries the loops have pushed before reaching `hour`. */
  function HoursBefore(hour: nat): seq<TimeChoice>
  {
    if hour <= 5 then [] else HoursBefore(hour - 1) + [Choice(hour - 1, 0), Choice(hour - 1, 30)]
  }

  lemma {:induction false} HoursBeforeShape(hour: nat)
    requires hour >= 5
    ensures |HoursBefore(hour)| == 2 * (hour - 5)
    ensures forall k :: 0 <= k < hour - 5 ==>
      HoursBefore(hour)[2 * k] == Choice(5 + k, 0) && HoursBefore(hour)[2 * k + 1] == Choice(5 + k, 30)
  {
    if hour > 5 {
      HoursBeforeShape(hour - 1);
      var r := HoursBefore(hour);
      forall k | 0 <= k < hour - 5
        ensures r[2 * k] == Choice(5 + k, 0) && r[2 * k + 1] == Choice(5 + k, 30)
      {
        if k < hour - 6 {
          assert r[2 * k] == HoursBefore(hour - 1)[2 * k];
          assert r[2 * k + 1] == HoursBefore(hour - 1)[2 * k + 1];
        } else {
          assert 5 + k == hour - 1;
        }
      }
    }
  }

  /** The loops' pairs (hour 5 + k at :00 and :30) read entry by entry. */
  lemma PairsAreEntries(times: seq<TimeChoice>)
    requires |times| == 36
    requires forall k :: 0 <= k < 18 ==> times[2 * k] == Choice(5 + k, 0) && times[2 * k + 1] == Choice(5 + k, 30)
    ensures forall i :: 0 <= i < 36 ==>
      times[i].time24 == Key(300 + 30 * i)
      && times[i].time12 == Label((300 + 30 * i) / 60, (300 + 30 * i) % 60)
    ensures times[35] == Choice(22, 30)
  {
    forall i | 0 <= i < 36
      ensures times[i].time24 == Key(300 + 30 * i)
      && times[i].time12 == Label((300 + 30 * i) / 60, (300 + 30 * i) % 60)
    {
      var k := i / 2;
      assert i == 2 * k || i == 2 * k + 1;
      assert times[i] == Choice(5 + i / 2, 30 * (i % 2));
      EntryIsKey(i);
    }
    assert times[2 * 17 + 1] == Choice(5 + 17, 30);
  }

  /** The offered times ascend strictly as strings, up to the repeated last entry. */
  lemma GridKeysAscend(i: int, j: int)
    requires 0 <= i < j < 36
    ensures LexLess(Key(300 + 30 * i), Key(300 + 30 * j))
  {
    KeyOrder(300 + 30 * i, 300 + 30 * j);
  }

  // ---------------------------------------------------------------------------
  // Availability

  /** `slots.find(s => s.time === time24)`: the first grid entry for the time. */
  function Find(slots: seq<TurfController.GridEntry>, time: string): (r: Option<TurfController.GridEntry>)
    ensures r.None? <==> forall i :: 0 <= i < |slots| ==> slots[i].time != time
    ensures r.Some? ==> exists i :: 0 <= i < |slots| && slots[i] == r.value && r.value.time == time
                                   && (forall k :: 0 <= k < i ==> slots[k].time != time)
  {
    if slots == [] then None
    else if slots[0].time == time then Some(slots[0])
    else
      var r := Find(slots[1..], time);
      assert forall i :: 0 < i < |slots| ==> slots[i] == slots[1..][i - 1];
      r
  }

  /** isTimeSlotAvailable: no entry for the time, or its entry is neither booked nor
      blocked. */
  predicate Available(slots: seq<TurfController.GridEntry>, time: string)
  {
    var e := Find(slots, time);
    e.None? || (!e.value.isBooked && !e.value.isBlocked)
  }

  /** On a grid with one entry per time (which the backend's grid is), a time is available
      exactly when every entry for it is free. */
  lemma AvailableMeaning(slots: seq<TurfController.GridEntry>, time: string)
    requires forall i, j :: 0 <= i < j < |slots| ==> slots[i].time != slots[j].time
    ensures Available(slots, time) <==>
      forall i :: 0 <= i < |slots| && slots[i].time == time ==> !slots[i].isBooked && !slots[i].isBlocked
  {
  }

  // ---------------------------------------------------------------------------
  // Selection

  /** The selected start and end times; None is null. */
  datatype Selection = Selection(start: Option<string>, end: Option<string>)

  const NoSelection: Selection := Selection(None, None)

  /** An end time is only ever chosen after, and strictly later than, a start time. */
  predicate Coherent(s: Selection)
  {
    s.end.Some? ==> s.start.Some? && LexLess(s.start.value, s.end.value)
  }

  /** handleTimeClick(time24). Times compare with JavaScript's string `<`; `t <= start` is
      `!(start < t)`. */
  function Click(sel: Selection, slots: seq<TurfController.GridEntry>, t: string): (r: Selection)
  {
    if !Available(slots, t) then sel
    else if sel.start == Some(t) then NoSelection
    else if sel.end == Some(t) then sel.(end := None)
    else if sel.start.Some? && LexLess(t, sel.start.value) then Selection(Some(t), None)
    else if sel.start.None? then Selection(Some(t), None)
    else if sel.end.None? then
      (if !LexLess(sel.start.value, t) then sel else sel.(end := Some(t)))
    else Selection(Some(t), None)
  }

  /** Whatever the state before, after any click an end time is set only together with an
      earlier start time. */
  lemma ClickCoherent(sel: Selection, slots: seq<TurfController.GridEntry>, t: string)
    requires Coherent(sel)
    ensures Coherent(Click(sel, slots, t))
  {
  }

  /** Clicking an unavailable time changes nothing; clicking the start clears both times;
      clicking the end clears only the end; otherwise the click starts a new selection or
      (with only a start, and a later time) completes it. */
  lemma ClickEffects(sel: Selection, slots: seq<TurfController.GridEntry>, t: string)
    ensures !Available(slots, t) ==> Click(sel, slots, t) == sel
    ensures Available(slots, t) && sel.start == Some(t) ==> Click(sel, slots, t) == NoSelection
    ensures Available(slots, t) && sel.start != Some(t) && sel.end == Some(t) ==>
      Click(sel, slots, t) == Selection(sel.start, None)
    ensures Available(slots, t) && sel.start.Some? && sel.end.None? && LexLess(sel.start.value, t) ==>
      Click(sel, slots, t) == Selection(sel.start, Some(t))
    ensures Click(sel, slots, t).end.Some? && Click(sel, slots, t).end != sel.end ==>
      Click(sel, slots, t) == Selection(sel.start, Some(t)) && Available(slots, t)
  {
    var r := Click(sel, slots, t);
    if !Available(slots, t) || sel.start == Some(t) || sel.end == Some(t) {
      LexLessIrreflexive(t);
    } else if sel.start.Some? && LexLess(t, sel.start.value) {
      LexLessAsymmetric(t, sel.start.value);
    } else if sel.start.None? {
      assert r.end.None?;
    } else if sel.end.None? {
    } else {
      assert r.end.None?;
    }
  }

  /** isTimeInRange: false unless both times are set, and inclusive of both. */
  predicate InRange(sel: Selection, t: string)
  {
    sel.start.Some? && sel.end.Some? && !LexLess(t, sel.start.value) && !LexLess(sel.end.value, t)
  }

  /** On slot keys the highlighted range is every minute from the start to the end, both
      included, whereas the backend books the keys from the start up to but excluding the
      end: the end time is highlighted but not booked. */
  lemma InRangeInclusive(a: nat, b: nat, m: nat)
    requires a < 6000 && b < 6000 && m < 6000
    ensures InRange(Selection(Some(Key(a)), Some(Key(b))), Key(m)) <==> a <= m <= b
    ensures Key(b) !in BookingController.RangeKeys(Key(a), Key(b))
  {
    KeyOrder(m, a);
    KeyOrder(b, m);
    KeyRoundTrip(a);
    KeyRoundTrip(b);
    BookingController.RangeKeysShape(Key(a), Key(b), a, b);
    var ks := BookingController.RangeKeys(Key(a), Key(b));
    forall i | 0 <= i < |ks| ensures ks[i] != Key(b) {
      KeyInjective(a + 30 * i, b);
    }
  }

  /** Only the clicked times are checked: from nothing, clicking 05:00 and then 07:00
      selects a range around a booked 06:00. */
  lemma RangeOverBookedTime()
    ensures var slots := [TurfController.GridEntry("06:00", true, false, Some(0))];
      var sel := Click(Click(NoSelection, slots, "05:00"), slots, "07:00");
      && sel == Selection(Some("05:00"), Some("07:00"))
      && InRange(sel, "06:00") && !Available(slots, "06:00")
  {
    var slots := [TurfController.GridEntry("06:00", true, false, Some(0))];
    assert Find(slots, "05:00").None? && Find(slots, "07:00").None?;
    assert LexLess("05:00", "07:00") && !LexLess("07:00", "05:00");
    assert LexLess("05:00", "06:00") && LexLess("06:00", "07:00");
  }

  // ---------------------------------------------------------------------------
  // calculateDuration and handleBook

  /** calculateDuration: 0 unless both times are set, else the hours between them (None is
      NaN, for a time that does not read as hours and minutes). */
  function Duration(sel: Selection): Option<real>
  {
    if sel.start.None? || sel.end.None? then Some(0.0)
    else BookingController.RangeHours(sel.start.value, sel.end.value)
  }

  /** What the checkout page receives as navigation state. `price` is the loaded turf's
      price per hour, None when the turf did not load. */
  datatype NavState = NavState(price: Option<real>, date: string, time: string, startTime: string,
                               endTime: string, duration: Option<real>)

  datatype BookAction = LoginFirst | IncompleteSelection | InvalidRange | GoToCheckout(state: NavState)

  /** handleBook: log in first; a date and both times are needed; a duration of zero or less
      is refused (a NaN duration is not, since `NaN <= 0` is false). */
  function HandleBook(authenticated: bool, date: string, sel: Selection, price: Option<real>): (a: BookAction)
  {
    if !authenticated then LoginFirst
    else if date == "" || sel.start.None? || sel.end.None? then IncompleteSelection
    else CheckRange(date, sel, price, Duration(sel))
  }

  /** The duration check of handleBook, for a complete selection whose duration is d. */
  function CheckRange(date: string, sel: Selection, price: Option<real>, d: Option<real>): BookAction
    requires sel.start.Some? && sel.end.Some?
  {
    if d.Some? && d.value <= 0.0 then InvalidRange
    else GoToCheckout(NavState(price, date, sel.start.value, sel.start.value, sel.end.value, d))
  }

  /** The page proceeds exactly when the user is logged in, a date and both times are chosen
      and the duration is not zero or negative; the state carries the start as the legacy
      time too. */
  lemma HandleBookGuard(authenticated: bool, date: string, sel: Selection, price: Option<real>)
    ensures HandleBook(authenticated, date, sel, price).GoToCheckout? <==>
      authenticated && date != "" && sel.start.Some? && sel.end.Some?
      && !(Duration(sel).Some? && Duration(sel).value <= 0.0)
    ensures HandleBook(authenticated, date, sel, price).GoToCheckout? ==>
      var s := HandleBook(authenticated, date, sel, price).state;
      s.time == s.startTime == sel.start.value && s.endTime == sel.end.value && s.duration == Duration(sel)
  {
  }

  /** For a coherent selection of slot keys the duration is the positive number of hours
      between them, so the invalid-range refusal cannot fire for times picked from the list. */
  lemma KeySelectionDuration(a: nat, b: nat)
    requires a < 6000 && b < 6000
    requires Coherent(Selection(Some(Key(a)), Some(Key(b))))
    ensures a < b
    ensures Duration(Selection(Some(Key(a)), Some(Key(b)))) == Some((b as real - a as real) / 60.0)
    ensures Duration(Selection(Some(Key(a)), Some(Key(b)))).value > 0.0
  {
    KeyOrder(a, b);
    KeysHours(a, b);
  }

  /** Between the keys of minutes a and b lie (b - a) / 60 hours. */
  lemma KeysHours(a: nat, b: nat)
    ensures Duration(Selection(Some(Key(a)), Some(Key(b)))) == Some((b as real - a as real) / 60.0)
  {
    KeyRoundTrip(a);
    KeyRoundTrip(b);
    DurationOfMinutes(Key(a), Key(b), a, b);
  }

  /** Between times of whole minutes a and b lie (b - a) / 60 hours. */
  lemma DurationOfMinutes(start: string, end: string, a: nat, b: nat)
    requires Minutes(start) == Some(a) && Minutes(end) == Some(b)
    ensures Duration(Selection(Some(start), Some(end))) == Some((b as real - a as real) / 60.0)
  {
    BookingController.RangeHoursWhole(start, end, a, b, (b as real - a as real) / 60.0);
  }
}
