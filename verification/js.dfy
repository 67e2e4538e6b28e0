/** The JavaScript built-ins the turf-booking code leans on, written out so that the rest
    of the model can say exactly what the code computes:
    - Number() on strings (StringToNumber, ECMA-262 section 7.1.4.1.1), None standing
      for NaN, and ToIntegerOrInfinity on its finite results;
    - Number.prototype.toString and String.prototype.padStart on non-negative integers;
    - String.prototype.split on a single character;
    - the `<` relation on strings (IsLessThan, ECMA-262 section 7.2.13);
    - String.prototype.trim (ECMA-262 section 22.1.3.32);
    - Array.prototype.filter;
    - Math.round (ECMA-262 section 21.3.2.28). */
module Js {

  datatype Option<+T> = None | Some(value: T)

  // ---------------------------------------------------------------------------
  // Decimal digits

  predicate IsDigit(c: char) { '0' <= c <= '9' }

  predicate AllDigits(s: string) { forall i :: 0 <= i < |s| ==> IsDigit(s[i]) }

  function DigitValue(c: char): nat
    requires IsDigit(c)
  {
    c as int - '0' as int
  }

  function DigitChar(d: nat): (c: char)
    requires d < 10
    ensures IsDigit(c) && DigitValue(c) == d
  {
    ('0' as int + d) as char
  }

  function Pow10(k: nat): (r: nat)
    ensures r >= 1
  {
    if k == 0 then 1 else 10 * Pow10(k - 1)
  }

  /** The number a string of decimal digits denotes, most significant digit first. */
  function DigitsValue(s: string): nat
    requires AllDigits(s)
  {
    if |s| == 0 then 0 else DigitsValue(s[..|s| - 1]) * 10 + DigitValue(s[|s| - 1])
  }

  /** Number.prototype.toString() of a non-negative integer: its shortest decimal numeral. */
  function NatToString(n: nat): (r: string)
    ensures AllDigits(r) && 1 <= |r|
  {
    if n < 10 then [DigitChar(n)] else NatToString(n / 10) + [DigitChar(n % 10)]
  }

  /** The numeral denotes n, and has one digit below 10 and at most two below 100. */
  lemma {:induction false} NatToStringValue(n: nat)
    ensures DigitsValue(NatToString(n)) == n
    ensures |NatToString(n)| == 1 <==> n < 10
    ensures |NatToString(n)| <= 2 <==> n < 100
  {
    if n >= 10 {
      NatToStringValue(n / 10);
      var r := NatToString(n);
      assert r[..|r| - 1] == NatToString(n / 10);
    }
  }

  /** String.prototype.padStart(width, fill). */
  function PadStart(s: string, width: nat, fill: char): (r: string)
    ensures |r| == if |s| >= width then |s| else width
    ensures r[|r| - |s|..] == s
    ensures forall i :: 0 <= i < |r| - |s| ==> r[i] == fill
  {
    if |s| >= width then s else Repeat(fill, width - |s|) + s
  }

  function Repeat(c: char, k: nat): (r: string)
    ensures |r| == k && forall i :: 0 <= i < k ==> r[i] == c
  {
    seq(k, _ => c)
  }

  /** Leading zeros do not change the value of a digit string. */
  lemma {:induction false} LeadingZeros(k: nat, s: string)
    requires AllDigits(s)
    ensures AllDigits(Repeat('0', k) + s)
    ensures DigitsValue(Repeat('0', k) + s) == DigitsValue(s)
    decreases |s|, k
  {
    var z := Repeat('0', k);
    if |s| == 0 {
      assert z + s == z;
      if k > 0 {
        assert z[..k - 1] == Repeat('0', k - 1);
        LeadingZeros(k - 1, "");
        assert Repeat('0', k - 1) + "" == Repeat('0', k - 1);
      }
    } else {
      var t := z + s;
      assert t[..|t| - 1] == z + s[..|s| - 1];
      LeadingZeros(k, s[..|s| - 1]);
    }
  }

  // ---------------------------------------------------------------------------
  // Number() on strings: StringToNumber (ECMA-262 section 7.1.4.1.1)

  /** Number(s). The string is trimmed of white space; the empty string is 0; otherwise it
      must be a whole StringNumericLiteral: a binary, octal or hexadecimal integer with its
      `0b`, `0o` or `0x` prefix (either case, no sign), or a decimal with an optional sign,
      digits with an optional fraction part, and an optional exponent. Anything else is NaN,
      written None. Values are exact reals: rounding to a double is not modelled, and the
      spellings of Infinity, which no real can hold, are None as well. */
  function ToNumber(s: string): Option<real>
  {
    Numeral(Trim(s))
  }

  /** StringNumericLiteral, on a string already trimmed. */
  function Numeral(t: string): Option<real>
  {
    if t == "" then Some(0.0)
    else if RadixBase(t) > 0 then Radix(t[2..], RadixBase(t))
    else if t[0] == '+' then UnsignedDecimal(t[1..])
    else if t[0] == '-' then Negate(UnsignedDecimal(t[1..]))
    else UnsignedDecimal(t)
  }

  /** 16, 8 or 2 when t starts with `0x`, `0o` or `0b` (either case) and has digits after
      it; 0 otherwise. */
  function RadixBase(t: string): nat
  {
    if |t| <= 2 || t[0] != '0' then 0
    else if t[1] == 'x' || t[1] == 'X' then 16
    else if t[1] == 'o' || t[1] == 'O' then 8
    else if t[1] == 'b' || t[1] == 'B' then 2
    else 0
  }

  function Negate(v: Option<real>): Option<real>
  {
    if v.Some? then Some(-v.value) else None
  }

  /** The value of c as a digit of the given base (2, 8 or 16), if it is one. */
  function RadixDigit(c: char, base: nat): Option<nat>
  {
    var v := if '0' <= c <= '9' then c as int - '0' as int
             else if 'a' <= c <= 'f' then c as int - 'a' as int + 10
             else if 'A' <= c <= 'F' then c as int - 'A' as int + 10
             else base;
    if 0 <= v < base then Some(v) else None
  }

  /** A non-empty run of digits of the base, most significant first. */
  function Radix(s: string, base: nat): Option<real>
  {
    if |s| == 0 then None
    else match RadixValue(s, base)
      case Some(v) => Some(v as real)
      case None => None
  }

  function RadixValue(s: string, base: nat): Option<nat>
  {
    if |s| == 0 then Some(0)
    else match (RadixValue(s[..|s| - 1], base), RadixDigit(s[|s| - 1], base))
      case (Some(a), Some(d)) => Some(Mul(a, base) + d)
      case _ => None
  }

  /** a * k as repeated addition, so that the value of a numeral stays linear in its digits. */
  function Mul(a: nat, k: nat): (r: nat)
  {
    if k == 0 then 0 else a + Mul(a, k - 1)
  }

  lemma {:induction false} MulIsProduct(a: nat, k: nat)
    ensures Mul(a, k) == a * k
  {
    if k > 0 {
      MulIsProduct(a, k - 1);
    }
  }

  /** The first 'e' or 'E' of s, or |s| when there is none. */
  function ExponentMark(s: string): (i: nat)
    ensures i <= |s|
    ensures forall j :: 0 <= j < i ==> s[j] != 'e' && s[j] != 'E'
    ensures i < |s| ==> s[i] == 'e' || s[i] == 'E'
  {
    if |s| == 0 || s[0] == 'e' || s[0] == 'E' then 0 else 1 + ExponentMark(s[1..])
  }

  /** StrUnsignedDecimalLiteral other than Infinity: a mantissa, then optionally 'e' or 'E'
      and a signed integer exponent. */
  function UnsignedDecimal(s: string): Option<real>
  {
    var i := ExponentMark(s);
    if i == |s| then Mantissa(s)
    else
      var m := Mantissa(s[..i]);
      var e := SignedInteger(s[i + 1..]);
      if m.Some? && e.Some? then Some(Scaled(m.value, e.value)) else None
  }

  /** `digits`, `digits.`, `.digits` or `digits.digits`, with at least one digit. */
  function Mantissa(s: string): Option<real>
  {
    var parts := Split(s, '.');
    if |parts| == 1 && |s| > 0 && AllDigits(s) then Some(DigitsValue(s) as real)
    else if |parts| == 2 && |parts[0]| + |parts[1]| > 0 && AllDigits(parts[0]) && AllDigits(parts[1]) then
      Some(Fraction(parts[0], parts[1]))
    else None
  }

  /** The value of `a.b` for runs of digits a and b: the number the digits of ab denote, with
      the point moved |b| places left (FractionValue). */
  function Fraction(a: string, b: string): real
    requires AllDigits(a) && AllDigits(b)
  {
    DigitsConcat(a, b);
    Scaled(DigitsValue(a + b) as real, -(|b| as int))
  }

  /** An exponent: digits with an optional sign. */
  function SignedInteger(s: string): Option<int>
  {
    if |s| > 1 && (s[0] == '+' || s[0] == '-') && AllDigits(s[1..]) then
      var v: int := DigitsValue(s[1..]);
      Some(if s[0] == '-' then -v else v)
    else if |s| > 0 && AllDigits(s) then Some(DigitsValue(s))
    else None
  }

  /** m times 10 to the power e, exactly: the decimal point moved e places. */
  function Scaled(m: real, e: int): real
    decreases if e < 0 then -e else e
  {
    if e == 0 then m
    else if e > 0 then Scaled(m * 10.0, e - 1)
    else Scaled(m / 10.0, e + 1)
  }

  /** ToIntegerOrInfinity on a finite number (ECMA-262 section 7.1.5): the fraction is
      dropped, rounding toward zero. */
  function Truncate(x: real): (r: int)
    ensures x >= 0.0 ==> 0.0 <= r as real <= x < r as real + 1.0
    ensures x < 0.0 ==> r as real - 1.0 < x <= r as real <= 0.0
  {
    if x >= 0.0 then x.Floor else -((-x).Floor)
  }

  lemma TruncateWhole(n: int)
    ensures Truncate(n as real) == n
  {
  }

  /** A number that is a whole non-negative count, as that count. */
  function AsNat(v: real): (r: Option<nat>)
    ensures r.Some? <==> 0.0 <= v && v == v.Floor as real
    ensures r.Some? ==> r.value as real == v
  {
    if 0.0 <= v && v.Floor as real == v then Some(v.Floor) else None
  }

  lemma AsNatOfNat(n: nat)
    ensures AsNat(n as real) == Some(n)
  {
  }

  /** Number(s) when that is a whole non-negative number; None both for NaN and for any other
      number. */
  function ToNat(s: string): Option<nat>
  {
    match ToNumber(s)
    case Some(v) => AsNat(v)
    case None => None
  }

  /** A run of decimal digits, the empty run included, is read as the number it denotes. */
  lemma ToNumberOfDigits(s: string)
    requires AllDigits(s)
    ensures ToNumber(s) == Some(DigitsValue(s) as real)
    ensures ToNat(s) == Some(DigitsValue(s))
  {
    if s != "" {
      assert IsDigit(s[0]) && IsDigit(s[|s| - 1]);
      if |s| > 2 {
        assert IsDigit(s[1]);
      }
      PlainNumeral(s);
      DecimalOfDigits(s);
    }
  }

  /** A trimmed numeral with neither a sign nor a radix prefix is an unsigned decimal. */
  lemma PlainNumeral(s: string)
    requires s != "" && !IsWhite(s[0]) && !IsWhite(s[|s| - 1])
    requires s[0] != '+' && s[0] != '-' && RadixBase(s) == 0
    ensures ToNumber(s) == UnsignedDecimal(s)
  {
    TrimOfTrimmed(s);
  }

  lemma DecimalOfDigits(s: string)
    requires s != "" && AllDigits(s)
    ensures UnsignedDecimal(s) == Some(DigitsValue(s) as real)
  {
    ExponentMarkOfDigits(s);
    MantissaOfDigits(s);
  }

  lemma {:induction false} ExponentMarkOfDigits(s: string)
    requires AllDigits(s)
    ensures ExponentMark(s) == |s|
  {
    if |s| > 0 {
      assert IsDigit(s[0]);
      ExponentMarkOfDigits(s[1..]);
    }
  }

  lemma ToNatOfPadded(n: nat, width: nat)
    ensures ToNat(PadStart(NatToString(n), width, '0')) == Some(n)
  {
    PaddedDigits(n, width);
    ToNumberOfDigits(PadStart(NatToString(n), width, '0'));
  }

  lemma PaddedDigits(n: nat, width: nat)
    ensures AllDigits(PadStart(NatToString(n), width, '0'))
    ensures DigitsValue(PadStart(NatToString(n), width, '0')) == n
  {
    var s := NatToString(n);
    var p := PadStart(s, width, '0');
    NatToStringValue(n);
    LeadingZeros(|p| - |s|, s);
    assert p == Repeat('0', |p| - |s|) + s;
  }

  /** White space around a numeral does not change it. */
  lemma ToNumberIgnoresSpace(s: string)
    ensures ToNumber(s) == ToNumber(Trim(s))
  {
    TrimIdempotent(s);
  }

  /** `0x`, `0o` or `0b` followed by digits of that base reads them in that base, most
      significant first; with any other character after the prefix the string is not a
      number. */
  lemma RadixNumeral(p: char, h: string, base: nat)
    requires (p == 'x' && base == 16) || (p == 'o' && base == 8) || (p == 'b' && base == 2)
    requires h != "" && !IsWhite(h[|h| - 1])
    ensures (forall i :: 0 <= i < |h| ==> RadixDigit(h[i], base).Some?) <==> ToNumber(['0', p] + h).Some?
    ensures ToNumber(['0', p] + h).Some? ==> ToNumber(['0', p] + h).value == RadixValue(h, base).value as real
  {
    var t := ['0', p] + h;
    assert ToNumber(t) == Radix(h, base) by {
      assert ToNumber(t) == Numeral(t) by {
        assert t[|t| - 1] == h[|h| - 1] && t[0] == '0';
        TrimOfTrimmed(t);
      }
      RadixPrefix(p, h, base);
      assert t[2..] == h;
    }
    RadixDefined(h, base);
  }

  lemma RadixPrefix(p: char, h: string, base: nat)
    requires (p == 'x' && base == 16) || (p == 'o' && base == 8) || (p == 'b' && base == 2)
    requires h != ""
    ensures RadixBase(['0', p] + h) == base
  {
    var t := ['0', p] + h;
    assert |t| > 2 && t[0] == '0' && t[1] == p;
  }

  lemma {:induction false} RadixDefined(h: string, base: nat)
    ensures RadixValue(h, base).Some? <==> forall i :: 0 <= i < |h| ==> RadixDigit(h[i], base).Some?
  {
    if |h| > 0 {
      var init := h[..|h| - 1];
      RadixDefined(init, base);
      assert forall i :: 0 <= i < |init| ==> init[i] == h[i];
    }
  }

  /** A leading '+' keeps a decimal numeral's value and a leading '-' negates it. */
  lemma SignedNumeral(t: string)
    requires t != "" && !IsWhite(t[|t| - 1])
    ensures ToNumber("+" + t) == UnsignedDecimal(t)
    ensures ToNumber("-" + t) == Negate(UnsignedDecimal(t))
  {
    SignedPart('+', t);
    SignedPart('-', t);
  }

  lemma SignedPart(sign: char, t: string)
    requires sign == '+' || sign == '-'
    requires t != "" && !IsWhite(t[|t| - 1])
    ensures Trim([sign] + t) == [sign] + t && Numeral([sign] + t) == (if sign == '+' then UnsignedDecimal(t) else Negate(UnsignedDecimal(t)))
  {
    var s := [sign] + t;
    assert s[0] == sign && s[|s| - 1] == t[|t| - 1] && s[1..] == t;
    TrimOfTrimmed(s);
  }

  /** `a.b` with either side possibly empty, but not both, is a + b / 10^|b|: so "5." is 5
      and ".5" is 0.5. */
  lemma FractionNumeral(a: string, b: string)
    requires AllDigits(a) && AllDigits(b) && |a| + |b| > 0
    ensures ToNumber(a + "." + b) == Some(Fraction(a, b))
  {
    var s := a + "." + b;
    assert s[|s| - 1] == if b == "" then '.' else b[|b| - 1];
    assert s[0] == if a == "" then '.' else a[0];
    if |s| > 2 {
      assert s[1] == if |a| > 1 then a[1] else if |a| == 1 then '.' else b[0];
    }
    PlainNumeral(s);
    FractionDecimal(a, b);
  }

  lemma FractionDecimal(a: string, b: string)
    requires AllDigits(a) && AllDigits(b) && |a| + |b| > 0
    ensures UnsignedDecimal(a + "." + b) == Some(Fraction(a, b))
  {
    var s := a + "." + b;
    assert s == a + ("." + b) && ("." + b)[1..] == b && ("." + b)[0] == '.';
    ExponentMarkOfDigits(b);
    ExponentMarkSkips(a, "." + b);
    assert UnsignedDecimal(s) == Mantissa(s);
    FractionMantissa(a, b);
  }

  lemma FractionMantissa(a: string, b: string)
    requires AllDigits(a) && AllDigits(b) && |a| + |b| > 0
    ensures Mantissa(a + "." + b) == Some(Fraction(a, b))
  {
    DigitsHaveNoSeparator(a, '.');
    DigitsHaveNoSeparator(b, '.');
    SplitTwo(a, '.', b);
    assert a + "." + b == a + ['.'] + b;
    MantissaOfParts(a + "." + b, a, b);
  }

  lemma MantissaOfParts(s: string, a: string, b: string)
    requires Split(s, '.') == [a, b] && AllDigits(a) && AllDigits(b) && |a| + |b| > 0
    ensures Mantissa(s) == Some(Fraction(a, b))
  {
  }

  /** The digits of a followed by those of b denote a shifted |b| places left, plus b. */
  lemma {:induction false} DigitsAppend(a: string, b: string)
    requires AllDigits(a) && AllDigits(b)
    ensures AllDigits(a + b) && DigitsValue(a + b) == DigitsValue(a) * Pow10(|b|) + DigitsValue(b)
    decreases |b|
  {
    DigitsConcat(a, b);
    if |b| == 0 {
      assert a + b == a;
    } else {
      var init := b[..|b| - 1];
      DigitsAppend(a, init);
      assert (a + b)[..|a + b| - 1] == a + init;
      assert (a + b)[|a + b| - 1] == b[|b| - 1];
      ShiftStep(DigitsValue(a), Pow10(|init|), DigitsValue(init), DigitValue(b[|b| - 1]));
    }
  }

  lemma ShiftStep(x: nat, p: nat, y: nat, d: nat)
    ensures (x * p + y) * 10 + d == x * (10 * p) + (y * 10 + d)
  {
  }

  /** Moving the point of `a.b` back |b| places right gives the number the digits of ab
      denote, which by DigitsAppend is a * 10^|b| + b: so `a.b` is a + b / 10^|b|. */
  lemma FractionValue(a: string, b: string)
    requires AllDigits(a) && AllDigits(b)
    ensures AllDigits(a + b) && Fraction(a, b) * Pow10(|b|) as real == DigitsValue(a + b) as real
  {
    DigitsConcat(a, b);
    ScaledValues(DigitsValue(a + b) as real, |b|);
  }

  lemma DigitsConcat(a: string, b: string)
    requires AllDigits(a) && AllDigits(b)
    ensures AllDigits(a + b)
  {
    assert forall i :: 0 <= i < |a + b| ==> (a + b)[i] == if i < |a| then a[i] else b[i - |a|];
  }

  /** `me` followed by n or by -n, with m and n runs of digits, is m times 10^n or 10^-n. */
  lemma ScientificNumeral(m: string, n: string)
    requires m != "" && AllDigits(m) && n != "" && AllDigits(n)
    ensures ToNumber(m + "e" + n) == Some(Scaled(DigitsValue(m) as real, DigitsValue(n)))
    ensures ToNumber(m + "e-" + n) == Some(Scaled(DigitsValue(m) as real, -(DigitsValue(n) as int)))
  {
    PositiveExponent(m, n);
    NegativeExponent(m, n, -(DigitsValue(n) as int));
  }

  lemma PositiveExponent(m: string, n: string)
    requires m != "" && AllDigits(m) && n != "" && AllDigits(n)
    ensures ToNumber(m + "e" + n) == Some(Scaled(DigitsValue(m) as real, DigitsValue(n)))
  {
    assert m + "e" + n == m + ("e" + n);
    assert "e"[1..] + n == n;
    assert SignedInteger(n) == Some(DigitsValue(n)) by { assert IsDigit(n[0]); }
    ExponentPart(m, "e", n, DigitsValue(n));
  }

  lemma NegativeExponent(m: string, n: string, x: int)
    requires m != "" && AllDigits(m) && n != "" && AllDigits(n) && x == -(DigitsValue(n) as int)
    ensures ToNumber(m + "e-" + n) == Some(Scaled(DigitsValue(m) as real, x))
  {
    assert m + "e-" + n == m + ("e-" + n);
    assert "e-"[1..] + n == "-" + n;
    assert SignedInteger("-" + n) == Some(x) by {
      assert ("-" + n)[1..] == n && ("-" + n)[0] == '-';
    }
    ExponentPart(m, "e-", n, x);
  }

  lemma ExponentPart(m: string, mark: string, n: string, x: int)
    requires m != "" && AllDigits(m) && n != "" && AllDigits(n)
    requires |mark| > 0 && mark[0] == 'e' && SignedInteger(mark[1..] + n) == Some(x)
    ensures ToNumber(m + (mark + n)) == Some(Scaled(DigitsValue(m) as real, x))
  {
    ExponentRest(mark, n);
    ScientificPart(m, mark + n, x);
  }

  lemma ExponentRest(mark: string, n: string)
    requires n != "" && AllDigits(n) && |mark| > 0 && mark[0] == 'e'
    ensures var rest := mark + n; |rest| > 1 && rest[0] == 'e' && rest[1..] == mark[1..] + n && IsDigit(rest[|rest| - 1])
  {
    var rest := mark + n;
    assert rest[|rest| - 1] == n[|n| - 1];
  }

  /** Scaled by a non-negative power multiplies by it, and by a negative one divides by it:
      multiplying back gives the number scaled. */
  lemma ScaledValues(m: real, v: nat)
    ensures Scaled(m, v) == m * Pow10(v) as real
    ensures Scaled(m, -(v as int)) * Pow10(v) as real == m
  {
    ScaledUp(m, v);
    ScaledDown(m, v);
  }

  lemma {:induction false} ScaledUp(m: real, v: nat)
    ensures Scaled(m, v) == m * Pow10(v) as real
    decreases v
  {
    if v > 0 {
      ScaledUp(m * 10.0, v - 1);
      var p := Pow10(v - 1) as real;
      assert Pow10(v) as real == 10.0 * p;
      assert (m * 10.0) * p == m * (10.0 * p);
    }
  }

  lemma {:induction false} ScaledDown(m: real, v: nat)
    ensures Scaled(m, -(v as int)) * Pow10(v) as real == m
    decreases v
  {
    if v > 0 {
      ScaledDown(m / 10.0, v - 1);
      var p := Pow10(v - 1) as real;
      var x := Scaled(m, -(v as int));
      assert x == Scaled(m / 10.0, -((v - 1) as int));
      assert x * p == m / 10.0;
      assert Pow10(v) as real == 10.0 * p;
      assert x * (10.0 * p) == 10.0 * (x * p);
    }
  }

  lemma ScientificPart(m: string, rest: string, x: int)
    requires m != "" && AllDigits(m) && |rest| > 1 && rest[0] == 'e' && IsDigit(rest[|rest| - 1])
    requires SignedInteger(rest[1..]) == Some(x)
    ensures ToNumber(m + rest) == Some(Scaled(DigitsValue(m) as real, x))
  {
    var s := m + rest;
    assert IsDigit(s[0]) && s[|s| - 1] == rest[|rest| - 1];
    assert s[1] == if |m| > 1 then m[1] else 'e';
    PlainNumeral(s);
    ExponentDecimal(m, rest, x);
  }

  lemma ExponentDecimal(m: string, rest: string, x: int)
    requires m != "" && AllDigits(m) && |rest| > 1 && rest[0] == 'e'
    requires SignedInteger(rest[1..]) == Some(x)
    ensures UnsignedDecimal(m + rest) == Some(Scaled(DigitsValue(m) as real, x))
  {
    var s := m + rest;
    var i := ExponentMark(s);
    assert i == |m| < |s| by { ExponentMarkSkips(m, rest); }
    assert Mantissa(s[..i]) == Some(DigitsValue(m) as real) by {
      assert s[..i] == m;
      MantissaOfDigits(m);
    }
    assert SignedInteger(s[i + 1..]) == Some(x) by { assert s[i + 1..] == rest[1..]; }
    DecimalWithExponent(s, i, DigitsValue(m) as real, x);
  }

  lemma DecimalWithExponent(s: string, i: nat, mv: real, x: int)
    requires i == ExponentMark(s) < |s|
    requires Mantissa(s[..i]) == Some(mv) && SignedInteger(s[i + 1..]) == Some(x)
    ensures UnsignedDecimal(s) == Some(Scaled(mv, x))
  {
  }

  lemma MantissaOfDigits(m: string)
    requires m != "" && AllDigits(m)
    ensures Mantissa(m) == Some(DigitsValue(m) as real)
  {
    DigitsHaveNoSeparator(m, '.');
    SplitNoSeparator(m, '.');
  }

  lemma {:induction false} ExponentMarkSkips(a: string, b: string)
    requires AllDigits(a)
    ensures ExponentMark(a + b) == |a| + ExponentMark(b)
  {
    if |a| > 0 {
      assert IsDigit(a[0]) && (a + b)[0] == a[0];
      assert (a + b)[1..] == a[1..] + b;
      ExponentMarkSkips(a[1..], b);
      assert ExponentMark(a + b) == 1 + ExponentMark((a + b)[1..]);
    } else {
      assert a + b == b;
    }
  }

  // ---------------------------------------------------------------------------
  // String.prototype.split on one separator character

  function Join(parts: seq<string>, sep: char): string
  {
    if |parts| == 0 then ""
    else if |parts| == 1 then parts[0]
    else parts[0] + [sep] + Join(parts[1..], sep)
  }

  /** s.split(sep): the maximal separator-free pieces, which joined back give s (SplitJoin). */
  function Split(s: string, sep: char): (parts: seq<string>)
    ensures |parts| >= 1
    ensures forall i :: 0 <= i < |parts| ==> sep !in parts[i]
  {
    if |s| == 0 then [""]
    else
      var rest := Split(s[1..], sep);
      if s[0] == sep then [""] + rest
      else [[s[0]] + rest[0]] + rest[1..]
  }

  lemma {:induction false} SplitJoin(s: string, sep: char)
    ensures Join(Split(s, sep), sep) == s
    decreases |s|
  {
    if |s| > 0 {
      SplitJoin(s[1..], sep);
      var rest := Split(s[1..], sep);
      var parts := Split(s, sep);
      assert s == [s[0]] + s[1..];
      if s[0] != sep {
        assert parts[1..] == rest[1..];
      }
    }
  }

  lemma {:induction false} SplitNoSeparator(s: string, sep: char)
    requires sep !in s
    ensures Split(s, sep) == [s]
  {
    if |s| > 0 {
      assert sep !in s[1..] by {
        forall i | 0 <= i < |s[1..]| ensures s[1..][i] != sep { assert s[1..][i] == s[i + 1]; }
      }
      SplitNoSeparator(s[1..], sep);
      assert [s[0]] + s[1..] == s;
    }
  }

  /** s.split(sep) has more than one piece exactly when sep occurs in s. */
  lemma {:induction false} SplitFieldCount(s: string, sep: char)
    ensures |Split(s, sep)| >= 2 <==> sep in s
  {
    if |s| > 0 {
      SplitFieldCount(s[1..], sep);
      assert s == [s[0]] + s[1..];
      assert sep in s <==> s[0] == sep || sep in s[1..];
    }
  }

  /** Splitting `a + sep + b` with a separator-free `a` yields `a` followed by the pieces of `b`. */
  lemma {:induction false} SplitAfter(a: string, sep: char, b: string)
    requires sep !in a
    ensures Split(a + [sep] + b, sep) == [a] + Split(b, sep)
  {
    var s := a + [sep] + b;
    if |a| == 0 {
      assert s[1..] == b;
    } else {
      assert s[1..] == a[1..] + [sep] + b;
      assert sep !in a[1..] by {
        forall i | 0 <= i < |a[1..]| ensures a[1..][i] != sep { assert a[1..][i] == a[i + 1]; }
      }
      SplitAfter(a[1..], sep, b);
      assert [a[0]] + a[1..] == a;
    }
  }

  lemma JoinTwo(parts: seq<string>, sep: char)
    requires |parts| == 2
    ensures Join(parts, sep) == parts[0] + [sep] + parts[1]
  {
    assert parts[1..] == [parts[1]];
  }

  lemma SplitTwo(a: string, sep: char, b: string)
    requires sep !in a && sep !in b
    ensures Split(a + [sep] + b, sep) == [a, b]
  {
    SplitAfter(a, sep, b);
    SplitNoSeparator(b, sep);
  }

  lemma SplitThree(a: string, sep: char, b: string, c: string)
    requires sep !in a && sep !in b && sep !in c
    ensures Split(a + [sep] + b + [sep] + c, sep) == [a, b, c]
  {
    assert a + [sep] + b + [sep] + c == a + [sep] + (b + [sep] + c);
    SplitAfter(a, sep, b + [sep] + c);
    SplitTwo(b, sep, c);
  }

  lemma DigitsHaveNoSeparator(s: string, sep: char)
    requires AllDigits(s) && !IsDigit(sep)
    ensures sep !in s
  {
  }

  // ---------------------------------------------------------------------------
  // The `<` relation on strings

  /** `a < b` on JavaScript strings: a proper prefix is smaller, otherwise the first
      differing character decides. */
  predicate LexLess(a: string, b: string)
  {
    if |b| == 0 then false
    else if |a| == 0 then true
    else if a[0] != b[0] then a[0] < b[0]
    else LexLess(a[1..], b[1..])
  }

  lemma {:induction false} LexLessIrreflexive(a: string)
    ensures !LexLess(a, a)
  {
    if |a| > 0 { LexLessIrreflexive(a[1..]); }
  }

  /** No two strings are each smaller than the other. */
  lemma {:induction false} LexLessAsymmetric(a: string, b: string)
    ensures !(LexLess(a, b) && LexLess(b, a))
  {
    if |a| > 0 && |b| > 0 && a[0] == b[0] { LexLessAsymmetric(a[1..], b[1..]); }
  }

  /** Of two distinct strings of the same length, exactly one is smaller. */
  lemma {:induction false} LexLessTotal(a: string, b: string)
    requires |a| == |b| && a != b
    ensures LexLess(a, b) != LexLess(b, a)
  {
    if a[0] == b[0] {
      assert a == [a[0]] + a[1..] && b == [b[0]] + b[1..];
      LexLessTotal(a[1..], b[1..]);
    }
  }

  /** Comparing two strings that start with equally long prefixes: the prefixes decide
      unless they are equal. */
  lemma {:induction false} LexLessAppend(p: string, x: string, q: string, y: string)
    requires |p| == |q|
    ensures LexLess(p + x, q + y) <==> LexLess(p, q) || (p == q && LexLess(x, y))
  {
    if |p| == 0 {
      assert p + x == x && q + y == y;
    } else {
      assert (p + x)[1..] == p[1..] + x && (q + y)[1..] == q[1..] + y;
      LexLessAppend(p[1..], x, q[1..], y);
      if p[0] == q[0] {
        assert p == [p[0]] + p[1..] && q == [q[0]] + q[1..];
        assert p == q <==> p[1..] == q[1..];
      }
    }
  }

  /** On digit strings of one length, string order is numeric order. */
  lemma {:induction false} LexLessDigits(a: string, b: string)
    requires AllDigits(a) && AllDigits(b) && |a| == |b|
    ensures LexLess(a, b) <==> DigitsValue(a) < DigitsValue(b)
    decreases |a|
  {
    if |a| > 0 {
      var n := |a| - 1;
      var a', b' := a[..n], b[..n];
      assert a == a' + [a[n]] && b == b' + [b[n]];
      LexLessAppend(a', [a[n]], b', [b[n]]);
      LexLessDigits(a', b');
      LexLessDigits(b', a');
      if a' != b' {
        LexLessTotal(a', b');
      }
    }
  }

  // ---------------------------------------------------------------------------
  // String.prototype.trim

  /** WhiteSpace and LineTerminator code points (ECMA-262 sections 12.2 and 12.3), the
      characters trim removes. */
  predicate IsWhite(c: char)
  {
    c == '\t' || c == '\n' || c == '\U{000B}' || c == '\U{000C}' || c == '\r' || c == ' '
    || c == '\U{00A0}' || c == '\U{1680}' || ('\U{2000}' <= c <= '\U{200A}')
    || c == '\U{2028}' || c == '\U{2029}' || c == '\U{202F}' || c == '\U{205F}'
    || c == '\U{3000}' || c == '\U{FEFF}'
  }

  predicate AllWhite(s: string) { forall i :: 0 <= i < |s| ==> IsWhite(s[i]) }

  function TrimStart(s: string): (r: string)
    ensures |r| <= |s| && r == s[|s| - |r|..]
    ensures r == "" <==> AllWhite(s)
    ensures r != "" ==> !IsWhite(r[0])
  {
    if |s| > 0 && IsWhite(s[0]) then
      var r := TrimStart(s[1..]);
      assert AllWhite(s) <==> AllWhite(s[1..]) by {
        if AllWhite(s[1..]) {
          forall i | 0 <= i < |s| ensures IsWhite(s[i]) { if i > 0 { assert s[i] == s[1..][i - 1]; } }
        }
      }
      r
    else s
  }

  function TrimEnd(s: string): (r: string)
    ensures |r| <= |s| && r == s[..|r|]
    ensures r == "" <==> AllWhite(s)
    ensures r != "" ==> !IsWhite(r[|r| - 1])
  {
    if |s| > 0 && IsWhite(s[|s| - 1]) then
      var r := TrimEnd(s[..|s| - 1]);
      assert AllWhite(s) <==> AllWhite(s[..|s| - 1]) by {
        if AllWhite(s[..|s| - 1]) {
          forall i | 0 <= i < |s| ensures IsWhite(s[i]) { if i < |s| - 1 { assert s[i] == s[..|s| - 1][i]; } }
        }
      }
      r
    else s
  }

  /** s.trim(): s without its leading and trailing white space. It is empty exactly when s is
      all white space, and otherwise neither starts nor ends with white space. */
  function Trim(s: string): (r: string)
    ensures r == "" <==> AllWhite(s)
    ensures r != "" ==> !IsWhite(r[0]) && !IsWhite(r[|r| - 1])
  {
    var t := TrimStart(s);
    TrimEndKeepsFirst(t);
    TrimEnd(t)
  }

  lemma TrimEndKeepsFirst(t: string)
    requires t == "" || !IsWhite(t[0])
    ensures t != "" ==> TrimEnd(t) != "" && TrimEnd(t)[0] == t[0]
  {
    if t != "" {
      assert !AllWhite(t);
    }
  }

  /** `!s.trim()`: the string is empty or white space only. */
  predicate IsBlank(s: string) { Trim(s) == "" }

  lemma {:induction false} TrimOfTrimmed(s: string)
    requires s == "" || (!IsWhite(s[0]) && !IsWhite(s[|s| - 1]))
    ensures Trim(s) == s
  {
  }

  lemma TrimIdempotent(s: string)
    ensures Trim(Trim(s)) == Trim(s)
  {
    TrimOfTrimmed(Trim(s));
  }

  // ---------------------------------------------------------------------------
  // Array.prototype.filter

  function Filter<T>(xs: seq<T>, keep: T -> bool): (r: seq<T>)
    ensures |r| <= |xs|
  {
    if xs == [] then [] else (if keep(xs[0]) then [xs[0]] else []) + Filter(xs[1..], keep)
  }

  /** The kept elements are exactly the elements that pass. */
  lemma {:induction false} FilterMembers<T>(xs: seq<T>, keep: T -> bool)
    ensures forall x :: x in Filter(xs, keep) <==> x in xs && keep(x)
  {
    if xs != [] {
      FilterMembers(xs[1..], keep);
      assert forall x :: x in xs <==> x == xs[0] || x in xs[1..];
    }
  }

  /** Filtering keeps the order: it distributes over concatenation. */
  lemma {:induction false} FilterConcat<T>(a: seq<T>, b: seq<T>, keep: T -> bool)
    ensures Filter(a + b, keep) == Filter(a, keep) + Filter(b, keep)
  {
    if a != [] {
      assert (a + b)[0] == a[0];
      assert (a + b)[1..] == a[1..] + b;
      FilterConcat(a[1..], b, keep);
      var head := if keep(a[0]) then [a[0]] else [];
      assert Filter(a + b, keep) == head + (Filter(a[1..], keep) + Filter(b, keep));
    } else {
      assert a + b == b;
    }
  }

  // ---------------------------------------------------------------------------
  // Math.round

  /** Math.round: the integer nearest to x, halves going toward +infinity. */
  function Round(x: real): (r: int)
    ensures x - 1.0 / 2.0 < r as real <= x + 1.0 / 2.0
  {
    (x + 0.5).Floor
  }
}
