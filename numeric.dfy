/**
 * PHP's numeric-string grammar (`is_numeric` on a string, PHP 8 rules) and the
 * `(int)` conversion of the integer numerals it accepts.
 *
 * A numeric string is: optional whitespace, an optional sign, digits with an
 * optional decimal point (at least one digit in all, and a digit right after a
 * leading point), an optional exponent `e`/`E` with optional sign and at least
 * one digit, and optional trailing whitespace.
 */
module PhpNumeric {
  import opened PhpStrings
  import opened PhpValues

  /**
   * The whitespace allowed around a number: space, and tab, newline, vertical
   * tab, form feed and carriage return (the codes 9 to 13).
   */
  predicate IsNumericSpace(c: char) {
    c == ' ' || '\t' <= c <= '\r'
  }

  predicate AllNumericSpace(s: string) {
    forall i :: 0 <= i < |s| ==> IsNumericSpace(s[i])
  }

  /** `s` cut after its opening run of numeric whitespace. */
  function SplitSpace(s: string): (r: (string, string))
    ensures r.0 + r.1 == s
    ensures AllNumericSpace(r.0)
    ensures r.1 == [] || !IsNumericSpace(r.1[0])
  {
    if s != [] && IsNumericSpace(s[0]) then
      var t := SplitSpace(s[1..]);
      var run := [s[0]] + t.0;
      assert s == [s[0]] + s[1..];
      assert forall i :: 1 <= i < |run| ==> run[i] == t.0[i - 1];
      (run, t.1)
    else ([], s)
  }

  /** `s` cut after its opening run of decimal digits. */
  function SplitDigits(s: string): (r: (string, string))
    ensures r.0 + r.1 == s
    ensures AllDigits(r.0)
    ensures r.1 == [] || !IsDigit(r.1[0])
  {
    if s != [] && IsDigit(s[0]) then
      var t := SplitDigits(s[1..]);
      var run := [s[0]] + t.0;
      assert s == [s[0]] + s[1..];
      assert AllDigits(run) by {
        forall i | 0 <= i < |run| ensures IsDigit(run[i]) {
          if i > 0 { assert run[i] == t.0[i - 1]; }
        }
      }
      (run, t.1)
    else ([], s)
  }

  /** The run of whitespace is found exactly where it ends. */
  lemma {:induction false} SplitSpaceOf(x: string, y: string)
    requires AllNumericSpace(x)
    requires y == [] || !IsNumericSpace(y[0])
    ensures SplitSpace(x + y) == (x, y)
  {
    if x == [] {
      assert x + y == y;
    } else {
      assert (x + y)[0] == x[0];
      assert (x + y)[1..] == x[1..] + y;
      SplitSpaceOf(x[1..], y);
      assert [x[0]] + x[1..] == x;
    }
  }

  /** The run of digits is found exactly where it ends. */
  lemma {:induction false} SplitDigitsOf(x: string, y: string)
    requires AllDigits(x)
    requires y == [] || !IsDigit(y[0])
    ensures SplitDigits(x + y) == (x, y)
  {
    if x == [] {
      assert x + y == y;
    } else {
      assert (x + y)[0] == x[0];
      assert (x + y)[1..] == x[1..] + y;
      SplitDigitsOf(x[1..], y);
      assert [x[0]] + x[1..] == x;
    }
  }

  /** The parts of a numeric string, left to right. */
  datatype Numeral = Numeral(
    lead: string,       // leading whitespace
    sign: string,       // "", "+" or "-"
    whole: string,      // digits before the decimal point
    point: bool,        // whether a decimal point is written
    fraction: string,   // digits after the decimal point
    exponent: string,   // "" or e/E, an optional sign and digits
    trail: string)      // trailing whitespace

  /** "" or `e`/`E`, an optional sign and at least one digit. */
  predicate ValidExponent(e: string) {
    e == [] ||
    (|e| >= 2 && (e[0] == 'e' || e[0] == 'E') &&
     var start := if e[1] == '+' || e[1] == '-' then 2 else 1;
     start < |e| && AllDigits(e[start..]))
  }

  predicate WellFormed(n: Numeral) {
    && AllNumericSpace(n.lead)
    && AllNumericSpace(n.trail)
    && (n.sign == "" || n.sign == "+" || n.sign == "-")
    && AllDigits(n.whole)
    && AllDigits(n.fraction)
    && (n.point || n.fraction == "")
    && (n.whole != "" || n.fraction != "")
    && ValidExponent(n.exponent)
  }

  /** The decimal point and fraction as written. */
  function PointPart(n: Numeral): string {
    if n.point then "." + n.fraction else ""
  }

  /** The text of a numeral. */
  function Render(n: Numeral): string {
    n.lead + (n.sign + (n.whole + (PointPart(n) + (n.exponent + n.trail))))
  }

  /** `s` cut after the exponent that opens it; nothing is cut off when none does. */
  function SplitExponent(s: string): (r: (string, string))
    ensures r.0 + r.1 == s
    ensures ValidExponent(r.0)
  {
    if s != [] && (s[0] == 'e' || s[0] == 'E') then
      var head := if |s| > 1 && (s[1] == '+' || s[1] == '-') then 2 else 1;
      var t := SplitDigits(s[head..]);
      if t.0 != [] then
        var e := s[..head] + t.0;
        assert e[head..] == t.0 && e[0] == s[0] && e[1] == s[1];
        assert head == 1 ==> e[1] == t.0[0];
        assert head == (if e[1] == '+' || e[1] == '-' then 2 else 1);
        assert s == s[..head] + s[head..];
        (e, t.1)
      else ([], s)
    else ([], s)
  }

  /** A valid exponent followed by something that cannot continue it is cut off whole. */
  lemma SplitExponentOf(e: string, t: string)
    requires ValidExponent(e)
    requires t == [] || (!IsDigit(t[0]) && t[0] != 'e' && t[0] != 'E')
    ensures SplitExponent(e + t) == (e, t)
  {
    var s := e + t;
    if e == [] {
      assert s == t;
    } else {
      var head := if e[1] == '+' || e[1] == '-' then 2 else 1;
      assert s[0] == e[0] && s[1] == e[1];
      assert s[head..] == e[head..] + t;
      assert s[..head] + e[head..] == e;
      SplitDigitsOf(e[head..], t);
    }
  }

  /** The scanner PHP runs over a string to decide whether it is numeric. */
  function ScanNumeral(s: string): Option<Numeral> {
    var sp := SplitSpace(s);
    ScanMantissa(sp.0, sp.1)
  }

  /** The sign that opens `s`, if any. */
  function SignOf(s: string): (sign: string)
    ensures sign == "" || sign == "+" || sign == "-"
    ensures |sign| <= |s| && s == sign + s[|sign|..]
  {
    if s != [] && (s[0] == '+' || s[0] == '-') then s[..1] else ""
  }

  /** After the leading whitespace: the sign, the digits and the decimal point. */
  function ScanMantissa(lead: string, rest: string): (r: Option<Numeral>)
    ensures r.Some? ==> r.value.lead == lead && AllDigits(r.value.whole) && AllDigits(r.value.fraction)
    ensures r.Some? ==> r.value.sign == "" || r.value.sign == "+" || r.value.sign == "-"
    ensures r.Some? ==> (r.value.point || r.value.fraction == "") && (r.value.whole != "" || r.value.fraction != "")
    ensures r.Some? ==> ValidExponent(r.value.exponent) && AllNumericSpace(r.value.trail)
  {
    var sign := SignOf(rest);
    var w := SplitDigits(rest[|sign|..]);
    var point := w.1 != [] && w.1[0] == '.';
    var f := if point then SplitDigits(w.1[1..]) else ([], w.1);
    if w.0 == [] && f.0 == [] then None
    else ScanTail(Numeral(lead, sign, w.0, point, f.0, "", ""), f.1)
  }

  /** After the mantissa: an optional exponent, then nothing but whitespace. */
  function ScanTail(n: Numeral, rest: string): (r: Option<Numeral>)
    ensures r.Some? ==> r.value == n.(exponent := r.value.exponent, trail := r.value.trail)
    ensures r.Some? ==> ValidExponent(r.value.exponent) && AllNumericSpace(r.value.trail)
    ensures r.Some? ==> rest == r.value.exponent + r.value.trail
  {
    var x := SplitExponent(rest);
    if AllNumericSpace(x.1) then Some(n.(exponent := x.0, trail := x.1)) else None
  }

  /** The parts the mantissa scan returns spell what it scanned. */
  lemma ScanMantissaSpells(lead: string, rest: string)
    requires ScanMantissa(lead, rest).Some?
    ensures var n := ScanMantissa(lead, rest).value;
      rest == n.sign + (n.whole + (PointPart(n) + (n.exponent + n.trail)))
  {
    var sign := SignOf(rest);
    var w := SplitDigits(rest[|sign|..]);
    var point := w.1 != [] && w.1[0] == '.';
    var f := if point then SplitDigits(w.1[1..]) else ([], w.1);
    var m := Numeral(lead, sign, w.0, point, f.0, "", "");
    assert ScanMantissa(lead, rest) == ScanTail(m, f.1);
    var n := ScanTail(m, f.1).value;
    PointSpells(w.1);
    assert w.1 == PointPart(n) + (n.exponent + n.trail);
  }

  /** An optional point and the digits after it, followed by what remains, spell the text they were cut from. */
  lemma PointSpells(s: string)
    ensures var point := s != [] && s[0] == '.';
      var f := if point then SplitDigits(s[1..]) else ([], s);
      s == (if point then "." + f.0 else "") + f.1
  {
    if s != [] && s[0] == '.' {
      assert s == [s[0]] + s[1..];
    }
  }

  /** PHP `is_numeric` on a string. */
  predicate IsNumeric(s: string) {
    ScanNumeral(s).Some?
  }

  /** What the scanner accepts is a well-formed numeral, and its parts spell the input. */
  lemma ScanSound(s: string)
    requires IsNumeric(s)
    ensures WellFormed(ScanNumeral(s).value) && Render(ScanNumeral(s).value) == s
  {
    var sp := SplitSpace(s);
    ScanMantissaSpells(sp.0, sp.1);
  }

  /** The tail scan reads back a valid exponent and the whitespace after it. */
  lemma ScanTailOf(n: Numeral)
    requires ValidExponent(n.exponent) && AllNumericSpace(n.trail)
    ensures ScanTail(n.(exponent := "", trail := ""), n.exponent + n.trail) == Some(n)
  {
    assert n.trail != [] ==> IsNumericSpace(n.trail[0]);
    SplitExponentOf(n.exponent, n.trail);
  }

  /** What follows the whole digits: the point and fraction, the exponent, the trailing whitespace. */
  function AfterWhole(n: Numeral): string {
    PointPart(n) + (n.exponent + n.trail)
  }

  /** The text after the leading whitespace. */
  function AfterLead(n: Numeral): string {
    n.sign + (n.whole + AfterWhole(n))
  }

  /** The sign is read back, and what follows it is the whole digits onwards. */
  lemma SignOfNumeral(n: Numeral)
    requires WellFormed(n)
    ensures SignOf(AfterLead(n)) == n.sign
    ensures AfterLead(n)[|n.sign|..] == n.whole + AfterWhole(n)
  {
    var r1 := AfterLead(n);
    if n.sign == "" {
      assert r1 == n.whole + AfterWhole(n);
      assert r1 != [] && r1[0] != '+' && r1[0] != '-' by {
        if n.whole != "" { assert r1[0] == n.whole[0]; } else { assert r1[0] == '.'; }
      }
    } else {
      assert r1[..1] == n.sign;
    }
  }

  /** An exponent or trailing whitespace starts with neither a digit nor a point. */
  lemma TailStart(e: string, t: string)
    requires ValidExponent(e) && AllNumericSpace(t)
    ensures e + t == [] || (!IsDigit((e + t)[0]) && (e + t)[0] != '.')
  {
    if e != [] {
      assert (e + t)[0] == e[0];
    } else {
      assert e + t == t;
    }
  }

  /** The point and the fraction are read back, and the exponent onwards is left. */
  lemma PointOfNumeral(n: Numeral)
    requires AllDigits(n.fraction) && (n.point || n.fraction == "")
    requires ValidExponent(n.exponent) && AllNumericSpace(n.trail)
    ensures var r3 := AfterWhole(n);
      (r3 != [] && r3[0] == '.') == n.point &&
      (if n.point then SplitDigits(r3[1..]) else ([], r3)) == (n.fraction, n.exponent + n.trail)
    ensures AfterWhole(n) == [] || !IsDigit(AfterWhole(n)[0])
  {
    var r4 := n.exponent + n.trail;
    var r3 := AfterWhole(n);
    TailStart(n.exponent, n.trail);
    if n.point {
      assert r3[0] == '.' && r3[1..] == n.fraction + r4;
      SplitDigitsOf(n.fraction, r4);
    } else {
      assert r3 == r4;
    }
  }

  /** The mantissa scan reads back every part after the leading whitespace. */
  lemma ScanMantissaOf(n: Numeral)
    requires WellFormed(n)
    ensures ScanMantissa(n.lead, AfterLead(n)) == Some(n)
  {
    SignOfNumeral(n);
    PointOfNumeral(n);
    SplitDigitsOf(n.whole, AfterWhole(n));
    ScanTailOf(n);
    assert n.(exponent := "", trail := "") == Numeral(n.lead, n.sign, n.whole, n.point, n.fraction, "", "");
  }

  /** Every well-formed numeral is read back part for part: the scanner inverts `Render`. */
  lemma ScanComplete(n: Numeral)
    requires WellFormed(n)
    ensures ScanNumeral(Render(n)) == Some(n)
  {
    var r1 := AfterLead(n);
    // The number proper starts with a sign, a digit or a point.
    assert r1 != [] && !IsNumericSpace(r1[0]) by {
      if n.sign != "" { assert r1[0] == n.sign[0]; }
      else if n.whole != "" { assert r1[0] == n.whole[0]; }
      else { assert r1[0] == '.'; }
    }
    SplitSpaceOf(n.lead, r1);
    ScanMantissaOf(n);
  }

  /** The numeric strings are exactly the texts of well-formed numerals. */
  lemma NumericGrammar(s: string)
    ensures IsNumeric(s) <==> exists n :: WellFormed(n) && Render(n) == s
  {
    if IsNumeric(s) {
      ScanSound(s);
    }
    if exists n :: WellFormed(n) && Render(n) == s {
      var n :| WellFormed(n) && Render(n) == s;
      ScanComplete(n);
    }
  }

  /** In a numeric string a `.` is always the decimal point, so `str_contains($s, '.')` tells floats from ints. */
  lemma DotIsDecimalPoint(s: string)
    requires IsNumeric(s)
    ensures '.' in s <==> ScanNumeral(s).value.point
  {
    ScanSound(s);
    DotInRender(ScanNumeral(s).value);
  }

  /** An exponent holds no `.`. */
  lemma NoDotInExponent(e: string)
    requires ValidExponent(e)
    ensures '.' !in e
  {
    if e != [] {
      var start := if e[1] == '+' || e[1] == '-' then 2 else 1;
      forall k | 0 <= k < |e| ensures e[k] != '.' {
        if k >= start { assert e[k] == e[start..][k - start]; }
      }
    }
  }

  /** The text of a numeral holds a `.` exactly when it has a decimal point. */
  lemma DotInRender(n: Numeral)
    requires WellFormed(n)
    ensures '.' in Render(n) <==> n.point
  {
    NoDotInExponent(n.exponent);
    assert '.' !in n.lead && '.' !in n.sign && '.' !in n.whole && '.' !in n.fraction && '.' !in n.trail;
    assert '.' in PointPart(n) <==> n.point by {
      if n.point { assert PointPart(n)[0] == '.'; }
    }
  }

  predicate IsAsciiLetter(c: char) {
    'a' <= c <= 'z' || 'A' <= c <= 'Z'
  }

  /** A numeric string is not empty and opens with whitespace, a sign, a digit or a point, never a letter. */
  lemma NumericStartsWithNoLetter(s: string)
    requires IsNumeric(s)
    ensures s != [] && !IsAsciiLetter(s[0])
  {
    ScanSound(s);
    RenderStartsWithNoLetter(ScanNumeral(s).value);
  }

  /** The text of a well-formed numeral opens with whitespace, a sign, a digit or a point. */
  lemma RenderStartsWithNoLetter(n: Numeral)
    requires WellFormed(n)
    ensures Render(n) != [] && !IsAsciiLetter(Render(n)[0])
  {
    var s := Render(n);
    if n.lead != [] {
      assert s[0] == n.lead[0];
    } else if n.sign != [] {
      assert s == n.sign + (n.whole + AfterWhole(n));
      assert s[0] == n.sign[0];
    } else if n.whole != [] {
      assert s == n.whole + AfterWhole(n);
      assert s[0] == n.whole[0];
    } else {
      assert s == PointPart(n) + (n.exponent + n.trail);
      assert s[0] == PointPart(n)[0];
    }
  }

  const PhpIntMax: int := 0x7FFF_FFFF_FFFF_FFFF
  const PhpIntMin: int := -0x8000_0000_0000_0000

  /** The range of a 64-bit PHP `int`. */
  predicate IsPhpInt(n: int) {
    PhpIntMin <= n <= PhpIntMax
  }

  /** The signed value of the digits of an integer numeral. */
  function SignedWhole(n: Numeral): int
    requires AllDigits(n.whole)
  {
    if n.sign == "-" then -(DecimalValue(n.whole) as int) else DecimalValue(n.whole)
  }

  /** The numeral PHP writes for an integer. */
  function IntNumeral(i: int): Numeral {
    Numeral("", if i < 0 then "-" else "", NatToDigits(if i < 0 then -i else i), false, "", "", "")
  }

  /** PHP's string form of any integer is numeric, reads back as that numeral, and has no `.`. */
  lemma IntToStringIsNumeral(i: int)
    ensures ScanNumeral(IntToString(i)) == Some(IntNumeral(i))
    ensures '.' !in IntToString(i)
    ensures SignedWhole(IntNumeral(i)) == i
  {
    var n := IntNumeral(i);
    IntNumeralRenders(i);
    ScanComplete(n);
    DotInRender(n);
    NatDigitsRoundTrip(if i < 0 then -i else i);
  }

  /** The numeral of an integer is well formed and its text is PHP's string form of the integer. */
  lemma IntNumeralRenders(i: int)
    ensures WellFormed(IntNumeral(i)) && Render(IntNumeral(i)) == IntToString(i)
  {
    var n := IntNumeral(i);
    assert PointPart(n) == "";
    assert Render(n) == n.sign + n.whole;
  }
}
