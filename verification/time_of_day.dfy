/** Times of day as the booking code handles them: `HH:MM` strings turned into minutes since
    midnight with `split(':').map(Number)`, and 30-minute keys formatted back with
    `toString().padStart(2, '0')`. The same arithmetic appears in the booking controller
    (generateTimeSlotsInRange), the availability grid of the turf controller, and the
    frontend's duration computation. */
module TimeOfDay {
  import opened Js

  /** `h * 60 + m` where `[h, m] = s.split(':').map(Number)`. None stands for NaN: a missing
      minutes field or a field Number() refuses. Fields after the second are ignored. */
  function MinutesReal(s: string): Option<real>
  {
    MinutesOfParts(Split(s, ':'))
  }

  /** The fields after `split(':')`: fewer than two is NaN (an `undefined` minute). */
  function MinutesOfParts(parts: seq<string>): Option<real>
  {
    if |parts| < 2 then None else HourMinutes(ToNumber(parts[0]), ToNumber(parts[1]))
  }

  /** `h * 60 + m`, NaN when either is. */
  function HourMinutes(h: Option<real>, m: Option<real>): Option<real>
  {
    if h.Some? && m.Some? then Some(h.value * 60.0 + m.value) else None
  }

  /** The minute count of s when that is a whole non-negative number, the only minute values
      the slot keys are followed for; None for NaN and for every other number. */
  function Minutes(s: string): Option<nat>
  {
    match MinutesReal(s)
    case Some(v) => AsNat(v)
    case None => None
  }

  /** A whole minute count is also the number the fields add up to. */
  lemma WholeMinutes(s: string)
    ensures Minutes(s).Some? ==> MinutesReal(s) == Some(Minutes(s).value as real)
    ensures MinutesReal(s).None? ==> Minutes(s).None?
  {
  }

  /** `n.toString().padStart(2, '0')`: a zero in front of a one-digit numeral (Pad2IsPadStart). */
  function Pad2(n: nat): string
  {
    if n < 10 then ['0'] + NatToString(n) else NatToString(n)
  }

  lemma Pad2IsPadStart(n: nat)
    ensures Pad2(n) == PadStart(NatToString(n), 2, '0')
  {
    NatToStringValue(n);
    var p := PadStart(NatToString(n), 2, '0');
    if n < 10 {
      assert p == [p[0]] + p[1..];
    }
  }

  /** The slot key of a minute of the day: zero-padded hour (`Math.floor(m / 60)`), ':',
      zero-padded minute (`m % 60`). */
  function Key(m: nat): string { Pad2(m / 60) + ":" + Pad2(m % 60) }

  lemma Pad2Facts(n: nat)
    ensures AllDigits(Pad2(n)) && ':' !in Pad2(n)
    ensures DigitsValue(Pad2(n)) == n
    ensures |Pad2(n)| >= 2 && (|Pad2(n)| == 2 <==> n < 100)
  {
    var s := NatToString(n);
    NatToStringValue(n);
    if n < 10 {
      LeadingZeros(1, s);
      assert Repeat('0', 1) == ['0'];
    }
    DigitsHaveNoSeparator(Pad2(n), ':');
  }

  /** Number() reads a padded field back as the number it pads. */
  lemma Pad2Number(n: nat)
    ensures ToNumber(Pad2(n)) == Some(n as real) && ToNat(Pad2(n)) == Some(n)
  {
    Pad2Facts(n);
    ToNumberOfDigits(Pad2(n));
  }

  lemma KeySplits(m: nat)
    ensures Split(Key(m), ':') == [Pad2(m / 60), Pad2(m % 60)]
  {
    Pad2Facts(m / 60);
    Pad2Facts(m % 60);
    assert Key(m) == Pad2(m / 60) + [':'] + Pad2(m % 60);
    SplitTwo(Pad2(m / 60), ':', Pad2(m % 60));
  }

  lemma MinutesOfFields(k: string, h: string, m: string, hv: nat, mv: nat, v: nat)
    requires Split(k, ':') == [h, m] && ToNumber(h) == Some(hv as real) && ToNumber(m) == Some(mv as real)
    requires v == hv * 60 + mv
    ensures Minutes(k) == Some(v)
  {
    assert MinutesReal(k) == HourMinutes(Some(hv as real), Some(mv as real));
    WholeSum(hv, mv);
  }

  lemma WholeSum(hv: nat, mv: nat)
    ensures match HourMinutes(Some(hv as real), Some(mv as real))
            case Some(v) => AsNat(v) == Some(hv * 60 + mv)
            case None => false
  {
    assert hv as real * 60.0 + mv as real == (hv * 60 + mv) as real;
    AsNatOfNat(hv * 60 + mv);
  }

  /** Reading a key back gives the minute it was made from. */
  lemma KeyRoundTrip(m: nat)
    ensures Minutes(Key(m)) == Some(m)
  {
    KeyFields(m);
    MinutesOfFields(Key(m), Pad2(m / 60), Pad2(m % 60), m / 60, m % 60, m);
  }

  lemma KeyFields(m: nat)
    ensures Split(Key(m), ':') == [Pad2(m / 60), Pad2(m % 60)]
    ensures ToNumber(Pad2(m / 60)) == Some((m / 60) as real)
    ensures ToNumber(Pad2(m % 60)) == Some((m % 60) as real)
    ensures (m / 60) * 60 + m % 60 == m
  {
    KeySplits(m);
    Pad2Number(m / 60);
    Pad2Number(m % 60);
  }

  /** Distinct minutes give distinct keys. */
  lemma KeyInjective(a: nat, b: nat)
    requires a != b
    ensures Key(a) != Key(b)
  {
    KeyRoundTrip(a);
    KeyRoundTrip(b);
  }

  lemma ColonThenDigits(ma: string, mb: string)
    requires |ma| == |mb| && AllDigits(ma) && AllDigits(mb)
    ensures LexLess(":" + ma, ":" + mb) <==> DigitsValue(ma) < DigitsValue(mb)
  {
    LexLessAppend(":", ma, ":", mb);
    LexLessIrreflexive(":");
    LexLessDigits(ma, mb);
  }

  /** Two `hh:mm` strings with two-digit fields compare as their (hour, minute) pairs. */
  lemma FieldOrder(ha: string, ma: string, hb: string, mb: string)
    requires |ha| == |hb| && |ma| == |mb|
    requires AllDigits(ha) && AllDigits(hb) && AllDigits(ma) && AllDigits(mb)
    ensures LexLess(ha + ":" + ma, hb + ":" + mb) <==>
      DigitsValue(ha) < DigitsValue(hb) || (ha == hb && DigitsValue(ma) < DigitsValue(mb))
  {
    var ta, tb := ":" + ma, ":" + mb;
    assert ha + ":" + ma == ha + ta;
    assert hb + ":" + mb == hb + tb;
    LexLessAppend(ha, ta, hb, tb);
    ColonThenDigits(ma, mb);
    LexLessDigits(ha, hb);
  }

  /** Minutes order like their (hour, minute-of-hour) pairs. */
  lemma DivModOrder(a: nat, b: nat)
    ensures a < b <==> a / 60 < b / 60 || (a / 60 == b / 60 && a % 60 < b % 60)
  {
    assert a == 60 * (a / 60) + a % 60 && b == 60 * (b / 60) + b % 60;
  }

  /** For keys with two-digit hours (every minute below 100 hours), comparing the strings
      with JavaScript's `<` is comparing the minutes. */
  lemma KeyOrder(a: nat, b: nat)
    requires a < 6000 && b < 6000
    ensures LexLess(Key(a), Key(b)) <==> a < b
  {
    Pad2Facts(a / 60); Pad2Facts(a % 60); Pad2Facts(b / 60); Pad2Facts(b % 60);
    FieldOrder(Pad2(a / 60), Pad2(a % 60), Pad2(b / 60), Pad2(b % 60));
    DivModOrder(a, b);
  }

  // ---------------------------------------------------------------------------
  // 30-minute enumeration

  /** The loop `for (minutes = m; minutes < end; minutes += 30) push(format(minutes))`, with
      the formatting step as a parameter so that the shape of the loop is stated once. */
  function Every30(m: nat, end: int, format: nat -> string): seq<string>
    decreases end - m
  {
    if m < end then [format(m)] + Every30(m + 30, end, format) else []
  }

  /** ceil((end - start) / 30) when end is after start, and 0 otherwise. */
  function SlotCount(start: int, end: int): nat
  {
    if end <= start then 0 else (end - start + 29) / 30
  }

  /** The loop runs ceil((end - start) / 30) times, the i-th step formatting start + 30 i,
      which is strictly below end. */
  lemma {:induction false} Every30Shape(start: nat, end: int, format: nat -> string)
    ensures |Every30(start, end, format)| == SlotCount(start, end)
    ensures forall i :: 0 <= i < |Every30(start, end, format)| ==>
      Every30(start, end, format)[i] == format(start + 30 * i) && start + 30 * i < end
    decreases end - start
  {
    if start < end {
      Every30Shape(start + 30, end, format);
      var ks := Every30(start, end, format);
      forall i | 0 <= i < |ks| ensures ks[i] == format(start + 30 * i) && start + 30 * i < end {
        if i > 0 {
          assert ks[i] == Every30(start + 30, end, format)[i - 1];
        }
      }
    }
  }

  /** The slot keys from minute `m` (inclusive) to `end` (exclusive) in 30-minute steps. */
  function KeysFrom(m: nat, end: int): seq<string>
  {
    Every30(m, end, Key)
  }

  /** The least integer at or above x. */
  function Ceil(x: real): (r: int)
    ensures x <= r as real < x + 1.0
  {
    -((-x).Floor)
  }

  /** The loop `for (minutes = startMinutes; minutes < endMinutes; minutes += 30)` pushing the
      key of each minute, as generateTimeSlotsInRange and the availability grid run it. With
      either time NaN the loop test is false at once and there are no keys. The start is
      followed when it is a whole non-negative minute count; the end may be any number. */
  function HalfHourKeys(start: string, end: string): (r: seq<string>)
    ensures MinutesReal(start).None? || MinutesReal(end).None? ==> r == []
  {
    WholeMinutes(start);
    match Minutes(start)
    case None => []
    case Some(a) =>
      match MinutesReal(end)
      case None => []
      case Some(e) => KeysFrom(a, Ceil(e))
  }

  /** The keys are those of start, start + 30, … for exactly the minutes below the end: the
      loop stops at the first step that is not below it. */
  lemma HalfHourKeysMeaning(start: string, end: string, a: nat, e: real)
    requires Minutes(start) == Some(a) && MinutesReal(end) == Some(e)
    ensures forall i :: 0 <= i < |HalfHourKeys(start, end)| ==>
      HalfHourKeys(start, end)[i] == Key(a + 30 * i) && (a + 30 * i) as real < e
    ensures (a + 30 * |HalfHourKeys(start, end)|) as real >= e
  {
    var ks := HalfHourKeys(start, end);
    var c := Ceil(e);
    assert ks == KeysFrom(a, c);
    Every30Shape(a, c, Key);
    forall i | 0 <= i < |ks| ensures ks[i] == Key(a + 30 * i) && (a + 30 * i) as real < e {
      KeysFromAt(a, c, i);
    }
    var n := |ks|;
    assert n == SlotCount(a, c);
    assert a + 30 * n >= c;
  }

  /** With a whole end minute b the keys are those of the minutes a, a + 30, … below b. */
  lemma HalfHourKeysWhole(start: string, end: string, a: nat, b: nat)
    requires Minutes(start) == Some(a) && Minutes(end) == Some(b)
    ensures HalfHourKeys(start, end) == KeysFrom(a, b)
  {
    WholeMinutes(end);
    assert Ceil(b as real) == b;
  }

  lemma KeysFromAt(start: nat, end: int, i: int)
    requires 0 <= i < |KeysFrom(start, end)|
    ensures KeysFrom(start, end)[i] == Key(start + 30 * i) && start + 30 * i < end
  {
    Every30Shape(start, end, Key);
  }

  /** Keys of increasing minutes are distinct, and increasing as strings below 100 hours. */
  lemma KeysOfIncreasing(a: nat, b: nat)
    requires a < b
    ensures Key(a) != Key(b)
    ensures b < 6000 ==> LexLess(Key(a), Key(b))
  {
    KeyInjective(a, b);
    if b < 6000 {
      KeyOrder(a, b);
    }
  }

  /** Key i of the enumeration reads back as start + 30 i. */
  lemma KeysFromReadBack(start: nat, end: int, i: int)
    requires 0 <= i < |KeysFrom(start, end)|
    ensures Minutes(KeysFrom(start, end)[i]) == Some(start + 30 * i)
  {
    KeysFromAt(start, end, i);
    ReadsBack(KeysFrom(start, end)[i], start + 30 * i);
  }

  lemma ReadsBack(x: string, m: nat)
    requires x == Key(m)
    ensures Minutes(x) == Some(m)
  {
    KeyRoundTrip(m);
  }

  /** The keys are pairwise distinct. */
  lemma KeysFromDistinct(start: nat, end: int, i: int, j: int)
    requires 0 <= i < j < |KeysFrom(start, end)|
    ensures KeysFrom(start, end)[i] != KeysFrom(start, end)[j]
  {
    KeysFromReadBack(start, end, i);
    KeysFromReadBack(start, end, j);
  }

  /** When end lies within 100 hours the keys are strictly increasing as strings. */
  lemma KeysFromSorted(start: nat, end: int, i: int, j: int)
    requires 0 <= i < j < |KeysFrom(start, end)| && end <= 6000
    ensures LexLess(KeysFrom(start, end)[i], KeysFrom(start, end)[j])
  {
    KeysFromAt(start, end, i);
    KeysFromAt(start, end, j);
    KeyOrder(start + 30 * i, start + 30 * j);
  }

  // ---------------------------------------------------------------------------
  // The Slot.time validator /^([0-1]?[0-9]|2[0-3]):[0-5][0-9]$/

  /** `[0-1]?[0-9]|2[0-3]` */
  predicate HourPart(h: string)
  {
    (|h| == 1 && IsDigit(h[0]))
    || (|h| == 2 && '0' <= h[0] <= '1' && IsDigit(h[1]))
    || (|h| == 2 && h[0] == '2' && '0' <= h[1] <= '3')
  }

  /** `[0-5][0-9]` */
  predicate MinutePart(m: string)
  {
    |m| == 2 && '0' <= m[0] <= '5' && IsDigit(m[1])
  }

  /** The whole pattern, anchored at both ends: the hour alternative takes one or two
      characters, so the colon is at index 1 or 2. */
  predicate MatchesTimePattern(s: string)
  {
    (|s| == 4 && HourPart(s[..1]) && s[1] == ':' && MinutePart(s[2..]))
    || (|s| == 5 && HourPart(s[..2]) && s[2] == ':' && MinutePart(s[3..]))
  }

  /** A clock time: an hour 0-23 written with one or two digits, a colon, and minutes 00-59
      written with exactly two digits. */
  predicate ClockTime(s: string)
  {
    var p := Split(s, ':');
    && |p| == 2
    && 1 <= |p[0]| <= 2 && AllDigits(p[0]) && DigitsValue(p[0]) <= 23
    && |p[1]| == 2 && AllDigits(p[1]) && DigitsValue(p[1]) <= 59
  }

  lemma TwoDigits(s: string)
    requires |s| == 2 && AllDigits(s)
    ensures DigitsValue(s) == 10 * DigitValue(s[0]) + DigitValue(s[1])
  {
    var p := s[..1];
    assert p[..0] == "" && p[0] == s[0];
    assert DigitsValue(p) == DigitValue(s[0]);
  }

  lemma OneDigit(s: string)
    requires |s| == 1 && AllDigits(s)
    ensures DigitsValue(s) == DigitValue(s[0])
  {
    assert s[..0] == "";
  }

  /** An hour field of k digits, a colon and a two-digit minute field. */
  lemma ClockFields(s: string, k: nat)
    requires 1 <= k <= 2 && |s| == k + 3 && s[k] == ':'
    requires AllDigits(s[..k]) && AllDigits(s[k + 1..]) && |s[k + 1..]| == 2
    ensures Split(s, ':') == [s[..k], s[k + 1..]]
  {
    var h, m := s[..k], s[k + 1..];
    assert s == h + [':'] + m;
    DigitsHaveNoSeparator(h, ':');
    DigitsHaveNoSeparator(m, ':');
    SplitTwo(h, ':', m);
  }

  lemma PatternIsClockTime(s: string)
    requires MatchesTimePattern(s)
    ensures ClockTime(s)
  {
    var k := if |s| == 4 then 1 else 2;
    ClockFields(s, k);
    TwoDigits(s[k + 1..]);
    if k == 1 { OneDigit(s[..k]); } else { TwoDigits(s[..k]); }
  }

  lemma ClockTimeMatchesPattern(s: string)
    requires ClockTime(s)
    ensures MatchesTimePattern(s)
  {
    var p := Split(s, ':');
    SplitJoin(s, ':');
    JoinTwo(p, ':');
    var k := |p[0]|;
    assert s[..k] == p[0] && s[k] == ':' && s[k + 1..] == p[1];
    TwoDigits(p[1]);
    if k == 2 { TwoDigits(p[0]); } else { OneDigit(p[0]); }
  }

  /** The validator accepts exactly the clock times. */
  lemma TimePatternMeaning(s: string)
    ensures MatchesTimePattern(s) <==> ClockTime(s)
  {
    if MatchesTimePattern(s) { PatternIsClockTime(s); }
    if ClockTime(s) { ClockTimeMatchesPattern(s); }
  }

  /** A formatted key passes the validator exactly when its minute lies within the day:
      every key below 24:00 is accepted and '24:00' and later are refused. */
  lemma KeyValidIffWithinDay(m: nat)
    ensures MatchesTimePattern(Key(m)) <==> m < 1440
  {
    TimePatternMeaning(Key(m));
    KeySplits(m);
    Pad2Facts(m / 60);
    Pad2Facts(m % 60);
  }

  /** A one-digit hour and the same hour with a leading zero ('9:00' and '09:00') are both
      accepted and denote the same minute, yet they are different strings and so different
      index keys. */
  lemma PaddedHourSameMinute(s: string)
    requires MatchesTimePattern(s) && |s| == 4
    ensures MatchesTimePattern("0" + s) && "0" + s != s
    ensures Minutes("0" + s) == Minutes(s) && Minutes(s).Some?
  {
    var t := "0" + s;
    assert |t| != |s|;
    assert s[..1] == [s[0]] && t[..2] == ['0', s[0]] && t[2] == ':' && t[3..] == s[2..];
    var h, m := DigitsValue(s[..1]), DigitsValue(s[2..]);
    assert DigitsValue(t[..2]) == h by {
      LeadingZeros(1, s[..1]);
      assert Repeat('0', 1) + s[..1] == t[..2];
    }
    HourFieldMinutes(s, 1, h, m);
    HourFieldMinutes(t, 2, h, m);
  }

  lemma HourFieldMinutes(s: string, k: nat, h: nat, m: nat)
    requires 1 <= k <= 2 && |s| == k + 3 && s[k] == ':'
    requires AllDigits(s[..k]) && AllDigits(s[k + 1..])
    requires DigitsValue(s[..k]) == h && DigitsValue(s[k + 1..]) == m
    ensures Minutes(s) == Some(h * 60 + m)
  {
    ClockFields(s, k);
    ToNumberOfDigits(s[..k]);
    ToNumberOfDigits(s[k + 1..]);
    MinutesOfFields(s, s[..k], s[k + 1..], h, m, h * 60 + m);
  }

  /** '24:00' is refused. */
  lemma NoHour24()
    ensures !MatchesTimePattern("24:00")
  {
    assert "24:00"[..2] == "24";
  }
}
