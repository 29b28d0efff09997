/**
 * Calendar arithmetic on (year, month, day) triples, in the proleptic
 * Gregorian calendar that JavaScript's Date uses for local dates.
 *
 * The month is 0-based (January = 0), as `getMonth` returns it, and the
 * weekday follows `getDay`: 0 is Sunday, 6 is Saturday.  Times of day are
 * not modelled: every Date here stands for local midnight of its day.
 */
module CalendarDates {

  /** A calendar date; `month0` is 0-based. */
  datatype Date = Date(year: int, month0: int, day: int)

  predicate IsLeapYear(y: int) {
    y % 4 == 0 && (y % 100 != 0 || y % 400 == 0)
  }

  /** Length of month `m0` of year `y`; February has 29 days in leap years. */
  function DaysInMonth(y: int, m0: int): (n: int)
    requires 0 <= m0 < 12
    ensures 28 <= n <= 31
    ensures n == 29 <==> m0 == 1 && IsLeapYear(y)
    ensures n == 28 <==> m0 == 1 && !IsLeapYear(y)
  {
    if m0 == 1 then (if IsLeapYear(y) then 29 else 28)
    else if m0 == 3 || m0 == 5 || m0 == 8 || m0 == 10 then 30
    else 31
  }

  /** A date that exists: what `isNaN(d.getTime())` is false for. */
  predicate ValidDate(d: Date) {
    0 <= d.month0 < 12 && 1 <= d.day <= DaysInMonth(d.year, d.month0)
  }

  /** Days from 0001-01-01 to January 1 of year `y` (negative before year 1). */
  function DaysBeforeYear(y: int): int {
    var p := y - 1;
    365 * p + p / 4 - p / 100 + p / 400
  }

  /** Days of year `y` before month `m0` begins. */
  function DaysBeforeMonth(y: int, m0: int): int
    requires 0 <= m0 <= 12
  {
    if m0 == 0 then 0 else DaysBeforeMonth(y, m0 - 1) + DaysInMonth(y, m0 - 1)
  }

  /** Days elapsed from 0001-01-01, which was a Monday, to `d`. */
  function DayNumber(d: Date): int
    requires 0 <= d.month0 < 12
  {
    DaysBeforeYear(d.year) + DaysBeforeMonth(d.year, d.month0) + d.day - 1
  }

  /** `getDay`: 0 = Sunday, 1 = Monday, ..., 6 = Saturday. */
  function Weekday(d: Date): (w: int)
    requires 0 <= d.month0 < 12
    ensures 0 <= w < 7
  {
    (DayNumber(d) + 1) % 7
  }

  /** ISO 8601 weekday: 1 = Monday, ..., 7 = Sunday. */
  function IsoWeekday(d: Date): (w: int)
    requires 0 <= d.month0 < 12
    ensures 1 <= w <= 7
    ensures w % 7 == Weekday(d)
  {
    if Weekday(d) == 0 then 7 else Weekday(d)
  }

  /** Anchors of the weekday function against the real calendar. */
  lemma KnownWeekdays()
    ensures Weekday(Date(2025, 0, 1)) == 3   // Wednesday, 1 January 2025
    ensures Weekday(Date(2025, 1, 1)) == 6   // Saturday, 1 February 2025
    ensures Weekday(Date(2000, 1, 29)) == 2  // Tuesday, 29 February 2000
  {
  }

  /** Months counted from January of year 0; consecutive months differ by one. */
  function MonthIndex(y: int, m0: int): int {
    y * 12 + m0
  }

  /** The year and 0-based month of month number `t` (the inverse of MonthIndex). */
  function YearOfMonthIndex(t: int): int {
    t / 12
  }

  function Month0OfMonthIndex(t: int): (m0: int)
    ensures 0 <= m0 < 12
  {
    t % 12
  }

  lemma MonthIndexRoundTrip(t: int)
    ensures MonthIndex(YearOfMonthIndex(t), Month0OfMonthIndex(t)) == t
  {
  }

  lemma {:induction false} MonthIndexInjective(y: int, m0: int)
    requires 0 <= m0 < 12
    ensures YearOfMonthIndex(MonthIndex(y, m0)) == y
    ensures Month0OfMonthIndex(MonthIndex(y, m0)) == m0
  {
    var t := MonthIndex(y, m0);
    assert t == 12 * y + m0;
    DivModUnique(t, 12, y, m0);
  }

  /** Euclidean division has a unique quotient and remainder. */
  lemma {:induction false} DivModUnique(t: int, k: int, q: int, r: int)
    requires k > 0 && 0 <= r < k && t == k * q + r
    ensures t / k == q && t % k == r
  {
    var q', r' := t / k, t % k;
    assert k * q' + r' == k * q + r;
    if q' > q {
      MulMonotone(k, q + 1, q');
    } else if q' < q {
      MulMonotone(k, q' + 1, q);
    }
  }

  lemma MulMonotone(k: int, a: int, b: int)
    requires k > 0 && a <= b
    ensures k * a <= k * b
  {
    assert k * b - k * a == k * (b - a);
  }

  /** `startOfMonth`: the first day of the same month. */
  function StartOfMonth(d: Date): (r: Date)
    requires ValidDate(d)
    ensures ValidDate(r) && r.day == 1
    ensures MonthIndex(r.year, r.month0) == MonthIndex(d.year, d.month0)
  {
    Date(d.year, d.month0, 1)
  }

  /**
   * `add(d, { months: 1 })`: the same day of the next month, clamped to
   * that month's last day (31 January becomes 28 or 29 February).
   */
  function AddOneMonth(d: Date): (r: Date)
    requires ValidDate(d)
    ensures ValidDate(r)
    ensures MonthIndex(r.year, r.month0) == MonthIndex(d.year, d.month0) + 1
    ensures r.day <= d.day
    ensures r.day == d.day <==> d.day <= DaysInMonth(r.year, r.month0)
    ensures d.day > DaysInMonth(r.year, r.month0) ==> r.day == DaysInMonth(r.year, r.month0)
  {
    var y := if d.month0 == 11 then d.year + 1 else d.year;
    var m0 := if d.month0 == 11 then 0 else d.month0 + 1;
    Date(y, m0, if d.day <= DaysInMonth(y, m0) then d.day else DaysInMonth(y, m0))
  }

  /** `setMonth(d, m0)`: the same year and day in month `m0`, clamped. */
  function SetMonth(d: Date, m0: int): (r: Date)
    requires ValidDate(d) && 0 <= m0 < 12
    ensures ValidDate(r)
    ensures r.year == d.year && r.month0 == m0
    ensures r.day <= d.day
    ensures r.day == d.day <==> d.day <= DaysInMonth(d.year, m0)
    ensures d.day > DaysInMonth(d.year, m0) ==> r.day == DaysInMonth(d.year, m0)
  {
    Date(d.year, m0, if d.day <= DaysInMonth(d.year, m0) then d.day else DaysInMonth(d.year, m0))
  }

  /**
   * `new Date(year, month0)`: the first of that month, except that the
   * Date constructor reads a year from 0 to 99 as 1900 to 1999.
   */
  function NewDate(year: int, m0: int): (r: Date)
    requires 0 <= m0 < 12
    ensures ValidDate(r) && r.day == 1 && r.month0 == m0
    ensures r.year == year <==> !(0 <= year <= 99)
    ensures 0 <= year <= 99 ==> r.year == 1900 + year
  {
    Date(if 0 <= year <= 99 then 1900 + year else year, m0, 1)
  }

  // ---- Day numbers ------------------------------------------------------

  /** Consecutive days of a month have consecutive day numbers. */
  lemma DayNumberInMonth(y: int, m0: int, d: int)
    requires 0 <= m0 < 12
    ensures DayNumber(Date(y, m0, d)) == DayNumber(Date(y, m0, 1)) + d - 1
  {
  }

  /** For k > 0, floor(y / k) grows by one exactly when k divides y. */
  lemma {:induction false} FloorStep(y: int, k: int)
    requires k > 0
    ensures y / k - (y - 1) / k == if y % k == 0 then 1 else 0
  {
    var q, r := y / k, y % k;
    assert y == k * q + r && 0 <= r < k;
    if r == 0 {
      DivModUnique(y - 1, k, q - 1, k - 1);
    } else {
      DivModUnique(y - 1, k, q, r - 1);
    }
  }

  /** A year has 366 days when it is a leap year and 365 otherwise. */
  lemma {:induction false} YearLength(y: int)
    ensures DaysBeforeYear(y + 1) == DaysBeforeYear(y) + (if IsLeapYear(y) then 366 else 365)
  {
    FloorStep(y, 4);
    FloorStep(y, 100);
    FloorStep(y, 400);
    if y % 400 == 0 {
      DivModUnique(y, 100, 4 * (y / 400), 0);
      DivModUnique(y, 4, 100 * (y / 400), 0);
    } else if y % 100 == 0 {
      DivModUnique(y, 4, 25 * (y / 100), 0);
    }
  }

  /** The twelve months of a year add up to the year's length. */
  lemma {:induction false} MonthsFillYear(y: int)
    ensures DaysBeforeMonth(y, 12) == if IsLeapYear(y) then 366 else 365
  {
    var feb := DaysInMonth(y, 1);
    assert DaysBeforeMonth(y, 1) == 31;
    assert DaysBeforeMonth(y, 2) == 31 + feb;
    assert DaysBeforeMonth(y, 3) == 31 + feb + 31;
    assert DaysBeforeMonth(y, 4) == 31 + feb + 61;
    assert DaysBeforeMonth(y, 5) == 31 + feb + 92;
    assert DaysBeforeMonth(y, 6) == 31 + feb + 122;
    assert DaysBeforeMonth(y, 7) == 31 + feb + 153;
    assert DaysBeforeMonth(y, 8) == 31 + feb + 184;
    assert DaysBeforeMonth(y, 9) == 31 + feb + 214;
    assert DaysBeforeMonth(y, 10) == 31 + feb + 245;
    assert DaysBeforeMonth(y, 11) == 31 + feb + 275;
  }

  /** The first day of the next month follows the last day of this one. */
  lemma {:induction false} NextMonthDayNumber(y: int, m0: int)
    requires 0 <= m0 < 12
    ensures var t := MonthIndex(y, m0) + 1;
            DayNumber(Date(YearOfMonthIndex(t), Month0OfMonthIndex(t), 1))
              == DayNumber(Date(y, m0, 1)) + DaysInMonth(y, m0)
  {
    var t := MonthIndex(y, m0) + 1;
    if m0 == 11 {
      MonthIndexInjective(y + 1, 0);
      assert t == MonthIndex(y + 1, 0);
      YearLength(y);
      MonthsFillYear(y);
    } else {
      MonthIndexInjective(y, m0 + 1);
      assert t == MonthIndex(y, m0 + 1);
    }
  }

  /** Weekdays advance by the length of a month from one first day to the next. */
  lemma {:induction false} NextMonthWeekday(y: int, m0: int)
    requires 0 <= m0 < 12
    ensures var t := MonthIndex(y, m0) + 1;
            Weekday(Date(YearOfMonthIndex(t), Month0OfMonthIndex(t), 1))
              == (Weekday(Date(y, m0, 1)) + DaysInMonth(y, m0)) % 7
  {
    NextMonthDayNumber(y, m0);
    var n := DayNumber(Date(y, m0, 1));
    ModAddMod(n + 1, DaysInMonth(y, m0));
  }

  /** ((a % 7) + b) % 7 == (a + b) % 7 for Euclidean remainder. */
  lemma {:induction false} ModAddMod(a: int, b: int)
    ensures ((a % 7) + b) % 7 == (a + b) % 7
  {
    var q := a / 7;
    assert a == 7 * q + a % 7;
    DivModUnique(a + b, 7, q + ((a % 7) + b) / 7, ((a % 7) + b) % 7);
  }

  /** Weekday of day `d` from the weekday of the month's first day. */
  lemma {:induction false} WeekdayInMonth(y: int, m0: int, d: int)
    requires 0 <= m0 < 12
    ensures Weekday(Date(y, m0, d)) == (Weekday(Date(y, m0, 1)) + d - 1) % 7
  {
    DayNumberInMonth(y, m0, d);
    ModAddMod(DayNumber(Date(y, m0, 1)) + 1, d - 1);
  }
}
