/**
 * The `yyyy-MM-dd` text form of a date: what `parseISO` reads from a
 * record's `date` field and what `format(date, 'yyyy-MM-dd')` writes as
 * the key of the date index.
 */
module IsoDates {
  import opened Options
  import opened CalendarDates

  predicate IsDigit(c: char) {
    '0' <= c <= '9'
  }

  predicate AllDigits(s: string) {
    forall i :: 0 <= i < |s| ==> IsDigit(s[i])
  }

  function DigitChar(n: int): (c: char)
    requires 0 <= n < 10
    ensures IsDigit(c)
  {
    ('0' as int + n) as char
  }

  function DigitValue(c: char): (n: int)
    requires IsDigit(c)
    ensures 0 <= n < 10 && DigitChar(n) == c
  {
    c as int - '0' as int
  }

  /** The number a string of decimal digits denotes. */
  function DigitsValue(s: string): nat
    requires AllDigits(s)
  {
    if s == [] then 0 else DigitsValue(s[..|s| - 1]) * 10 + DigitValue(s[|s| - 1])
  }

  function Pow10(w: nat): (p: nat)
    ensures p >= 1
  {
    if w == 0 then 1 else 10 * Pow10(w - 1)
  }

  /**
   * date-fns' `addLeadingZeros(n, width)` for n >= 0: the decimal digits
   * of `n`, left-padded with zeros to at least `width` characters.
   */
  function PadDigits(n: nat, width: nat): (s: string)
    ensures |s| >= 1 && |s| >= width
    ensures AllDigits(s)
    decreases n + width
  {
    if n < 10 && width <= 1 then [DigitChar(n)]
    else PadDigits(n / 10, if width == 0 then 0 else width - 1) + [DigitChar(n % 10)]
  }

  /** Padded digits denote the number they were made from. */
  lemma {:induction false} PadDigitsValue(n: nat, width: nat)
    ensures DigitsValue(PadDigits(n, width)) == n
    decreases n + width
  {
    var s := PadDigits(n, width);
    if n < 10 && width <= 1 {
    } else {
      PadDigitsValue(n / 10, if width == 0 then 0 else width - 1);
      assert s[..|s| - 1] == PadDigits(n / 10, if width == 0 then 0 else width - 1);
    }
  }

  /** A number below 10^width takes exactly `width` characters. */
  lemma {:induction false} PadDigitsWidth(n: nat, width: nat)
    requires width >= 1 && n < Pow10(width)
    ensures |PadDigits(n, width)| == width
    decreases width
  {
    if n < 10 && width <= 1 {
    } else {
      PadDigitsWidth(n / 10, width - 1);
    }
  }

  /** Padding the value of a digit string to its own length gives it back. */
  lemma {:induction false} DigitsRoundTrip(s: string)
    requires |s| >= 1 && AllDigits(s)
    ensures PadDigits(DigitsValue(s), |s|) == s
    decreases |s|
  {
    var init, last := s[..|s| - 1], DigitValue(s[|s| - 1]);
    var v := DigitsValue(s);
    assert v == DigitsValue(init) * 10 + last;
    DivModUnique(v, 10, DigitsValue(init), last);
    if |s| == 1 {
      assert init == [];
      assert s == [s[0]];
    } else {
      DigitsRoundTrip(init);
      assert s == init + [s[|s| - 1]];
    }
  }

  /** The year as the `yyyy` token writes it: 1 BC (year 0) is written 0001. */
  function EraYear(y: int): (e: nat)
    ensures e >= 1
    ensures y >= 1 ==> e == y
  {
    if y > 0 then y else 1 - y
  }

  /** `format(d, 'yyyy-MM-dd')`. */
  function FormatKey(d: Date): (s: string)
    requires ValidDate(d)
    ensures EraYear(d.year) <= 9999 ==>
              |s| == 10 && s[4] == '-' && s[7] == '-'
              && AllDigits(s[..4]) && AllDigits(s[5..7]) && AllDigits(s[8..])
  {
    var a, b, c := PadDigits(EraYear(d.year), 4), PadDigits(d.month0 + 1, 2), PadDigits(d.day, 2);
    Pow10Widths();
    PadDigitsWidth(d.month0 + 1, 2);
    PadDigitsWidth(d.day, 2);
    var s := a + "-" + b + "-" + c;
    if EraYear(d.year) <= 9999 then
      PadDigitsWidth(EraYear(d.year), 4);
      DashedParts(a, b, c);
      s
    else s
  }

  /**
   * `parseISO` on a calendar date `yyyy-MM-dd`: an Invalid Date (None)
   * unless the month is 01..12 and the day exists in that month.
   */
  function ParseIsoDate(s: string): (r: Option<Date>)
    ensures r.Some? ==> ValidDate(r.value) && 0 <= r.value.year <= 9999
  {
    if |s| == 10 && s[4] == '-' && s[7] == '-'
       && AllDigits(s[..4]) && AllDigits(s[5..7]) && AllDigits(s[8..])
    then
      var y, m, d := DigitsValue(s[..4]), DigitsValue(s[5..7]), DigitsValue(s[8..]);
      PadDigitsBound(s[..4]);
      if 1 <= m <= 12 && 1 <= d <= DaysInMonth(y, m - 1) then Some(Date(y, m - 1, d)) else None
    else None
  }

  lemma {:induction false} PadDigitsBound(s: string)
    requires AllDigits(s)
    ensures DigitsValue(s) < Pow10(|s|)
    decreases |s|
  {
    if s != [] {
      PadDigitsBound(s[..|s| - 1]);
    }
  }

  /** Parsing a formatted date gives the date back, for years 0001 to 9999. */
  lemma {:induction false} ParseFormatKey(d: Date)
    requires ValidDate(d) && 1 <= d.year <= 9999
    ensures ParseIsoDate(FormatKey(d)) == Some(d)
  {
    var s := FormatKey(d);
    FormatKeyFields(d);
    PadDigitsValue(d.year, 4);
    PadDigitsValue(d.month0 + 1, 2);
    PadDigitsValue(d.day, 2);
    assert DigitsValue(s[..4]) == d.year && DigitsValue(s[5..7]) == d.month0 + 1 && DigitsValue(s[8..]) == d.day;
  }

  /** The fields of a formatted date are its padded year, month and day. */
  lemma FormatKeyFields(d: Date)
    requires ValidDate(d) && 1 <= d.year <= 9999
    ensures var s := FormatKey(d);
            && |s| == 10 && s[4] == '-' && s[7] == '-'
            && s[..4] == PadDigits(d.year, 4)
            && s[5..7] == PadDigits(d.month0 + 1, 2)
            && s[8..] == PadDigits(d.day, 2)
  {
    var a, b, c := PadDigits(EraYear(d.year), 4), PadDigits(d.month0 + 1, 2), PadDigits(d.day, 2);
    Pow10Widths();
    PadDigitsWidth(d.year, 4);
    PadDigitsWidth(d.month0 + 1, 2);
    PadDigitsWidth(d.day, 2);
    DashedParts(a, b, c);
  }

  /** The three fields of `yyyy-MM-dd` sit at positions 0-3, 5-6 and 8-9. */
  lemma DashedParts(a: string, b: string, c: string)
    requires |a| == 4 && |b| == 2 && |c| == 2
    ensures var s := a + "-" + b + "-" + c;
            |s| == 10 && s[4] == '-' && s[7] == '-' && s[..4] == a && s[5..7] == b && s[8..] == c
  {
  }

  lemma Pow10Widths()
    ensures Pow10(2) == 100 && Pow10(4) == 10000
  {
    assert Pow10(1) == 10;
    assert Pow10(3) == 1000;
  }

  /** Formatting a parsed date gives the text back, except for year 0000. */
  lemma {:induction false} FormatParsedKey(s: string)
    requires ParseIsoDate(s).Some? && ParseIsoDate(s).value.year != 0
    ensures FormatKey(ParseIsoDate(s).value) == s
  {
    var d := ParseIsoDate(s).value;
    DigitsRoundTrip(s[..4]);
    DigitsRoundTrip(s[5..7]);
    DigitsRoundTrip(s[8..]);
    assert s == s[..4] + "-" + s[5..7] + "-" + s[8..];
  }

  /** Distinct dates of years 0001 to 9999 have distinct keys. */
  lemma FormatKeyInjective(a: Date, b: Date)
    requires ValidDate(a) && 1 <= a.year <= 9999
    requires ValidDate(b) && 1 <= b.year <= 9999
    requires FormatKey(a) == FormatKey(b)
    ensures a == b
  {
    ParseFormatKey(a);
    ParseFormatKey(b);
  }

  /** The `yyyy` token writes year 0 as 0001, so the two years share keys. */
  lemma YearZeroSharesKeys(m0: int, day: int)
    requires ValidDate(Date(1, m0, day))
    ensures ValidDate(Date(0, m0, day))
    ensures FormatKey(Date(0, m0, day)) == FormatKey(Date(1, m0, day))
  {
    assert IsLeapYear(0) && !IsLeapYear(1);
    assert DaysInMonth(1, m0) <= DaysInMonth(0, m0);
    assert EraYear(0) == EraYear(1) == 1;
  }
}
