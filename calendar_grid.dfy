/**
 * The calendar grid: `generateCalendarData` turns a first month and a month
 * count into months of Monday-first cells, each day carrying the record the
 * date index holds for it.
 */
module CalendarGrid {
  import opened Options
  import opened CalendarDates
  import opened IsoDates
  import opened StreamIndex

  /** A day cell (`Day`); `isToday` reads the wall clock and is not modelled. */
  datatype Day = Day(date: Date, isCurrentMonth: bool, stream: Option<StreamRecord>)

  /** A month of the grid: its year, 0-based month, and cells (None is a blank). */
  datatype Month = Month(year: int, month: int, days: seq<Option<Day>>)

  /**
   * Blank cells before the first day so that columns run Monday to Sunday:
   * `getDay(first) == 0 ? 6 : getDay(first) - 1`, that is the ISO weekday
   * of the first day minus one.
   */
  function LeadingBlanks(y: int, m0: int): (b: int)
    requires 0 <= m0 < 12
    ensures 0 <= b <= 6
    ensures b == IsoWeekday(Date(y, m0, 1)) - 1
  {
    var w := Weekday(Date(y, m0, 1));
    if w == 0 then 6 else w - 1
  }

  /** The cell of day `d`: that date, in the current month, with its record. */
  function DayCell(index: map<string, StreamRecord>, y: int, m0: int, d: int): Day
    requires 0 <= m0 < 12 && 1 <= d <= DaysInMonth(y, m0)
  {
    Day(Date(y, m0, d), true, Lookup(index, Date(y, m0, d)))
  }

  /** `Array(n).fill(null)`. */
  function Blanks(n: nat): (s: seq<Option<Day>>)
    ensures |s| == n
    ensures forall i :: 0 <= i < n ==> s[i].None?
  {
    if n == 0 then [] else [None] + Blanks(n - 1)
  }

  /** `eachDayOfInterval(start, end).map(...)`: one cell per day, in order. */
  function MonthDays(index: map<string, StreamRecord>, y: int, m0: int): (s: seq<Option<Day>>)
    requires 0 <= m0 < 12
    ensures |s| == DaysInMonth(y, m0)
  {
    seq(DaysInMonth(y, m0), i requires 0 <= i < DaysInMonth(y, m0) => Some(DayCell(index, y, m0, i + 1)))
  }

  /** Blanks, then one cell per day of the month in order. */
  function MonthCells(index: map<string, StreamRecord>, y: int, m0: int): seq<Option<Day>>
    requires 0 <= m0 < 12
  {
    Blanks(LeadingBlanks(y, m0)) + MonthDays(index, y, m0)
  }

  /** The grid month for month number `t` (see MonthIndex). */
  function MonthAt(index: map<string, StreamRecord>, t: int): Month {
    var y, m0 := YearOfMonthIndex(t), Month0OfMonthIndex(t);
    Month(y, m0, MonthCells(index, y, m0))
  }

  /**
   * What `generateCalendarData(start, n)` returns: for i in 0..n-1 the month
   * `start` advanced by i months, and nothing when n <= 0.
   */
  function CalendarSpec(index: map<string, StreamRecord>, start: Date, n: int): seq<Month>
    requires ValidDate(start)
  {
    seq(if n < 0 then 0 else n, i => MonthAt(index, MonthIndex(start.year, start.month0) + i))
  }

  /**
   * The month pushed for `currentDate` (the object literal in the loop):
   * blanks up to the first day's Monday-first column, then the days of
   * the month, each looked up in the date index.
   */
  method BuildMonth(streamsByDate: map<string, StreamRecord>, currentDate: Date) returns (m: Month)
    requires ValidDate(currentDate)
    ensures m == MonthAt(streamsByDate, MonthIndex(currentDate.year, currentDate.month0))
    ensures m.year == currentDate.year && m.month == currentDate.month0
  {
    var start := StartOfMonth(currentDate);
    var dayOfWeek := Weekday(start);
    dayOfWeek := if dayOfWeek == 0 then 6 else dayOfWeek - 1;
    var emptyDays := Blanks(dayOfWeek);
    var y, m0 := currentDate.year, currentDate.month0;
    var n := DaysInMonth(y, m0);
    var cells := seq(n, k requires 0 <= k < n =>
      Some(Day(Date(y, m0, k + 1), true, Lookup(streamsByDate, Date(y, m0, k + 1)))));
    assert dayOfWeek == LeadingBlanks(y, m0);
    DaysAreMonthDays(streamsByDate, y, m0, cells);
    m := Month(y, m0, emptyDays + cells);
    MonthAtOwnIndex(streamsByDate, y, m0);
  }

  /** Cells holding days 1, 2, ... of the month in order are its MonthDays. */
  lemma DaysAreMonthDays(index: map<string, StreamRecord>, y: int, m0: int, cells: seq<Option<Day>>)
    requires 0 <= m0 < 12 && |cells| == DaysInMonth(y, m0)
    requires forall k :: 0 <= k < |cells| ==>
               cells[k] == Some(Day(Date(y, m0, k + 1), true, Lookup(index, Date(y, m0, k + 1))))
    ensures cells == MonthDays(index, y, m0)
  {
    var days := MonthDays(index, y, m0);
    forall k | 0 <= k < |cells| ensures cells[k] == days[k] {
    }
  }

  /** The month at the month number of (y, m0) is month m0 of year y. */
  lemma MonthAtOwnIndex(index: map<string, StreamRecord>, y: int, m0: int)
    requires 0 <= m0 < 12
    ensures MonthAt(index, MonthIndex(y, m0)) == Month(y, m0, MonthCells(index, y, m0))
  {
    MonthIndexInjective(y, m0);
  }

  /** `generateCalendarData`: push one month per iteration, then step a month ahead. */
  method GenerateCalendarData(streamsByDate: map<string, StreamRecord>, startDate: Date, monthsToShow: int)
    returns (months: seq<Month>)
    requires ValidDate(startDate)
    ensures months == CalendarSpec(streamsByDate, startDate, monthsToShow)
    ensures |months| == if monthsToShow < 0 then 0 else monthsToShow
    ensures forall i :: 0 <= i < |months| ==>
              0 <= months[i].month < 12
              && MonthIndex(months[i].year, months[i].month) == MonthIndex(startDate.year, startDate.month0) + i
  {
    months := [];
    var currentDate := startDate;
    ghost var t0 := MonthIndex(startDate.year, startDate.month0);
    var i := 0;
    while i < monthsToShow
      invariant 0 <= i <= (if monthsToShow < 0 then 0 else monthsToShow)
      invariant ValidDate(currentDate)
      invariant MonthIndex(currentDate.year, currentDate.month0) == t0 + i
      invariant months == CalendarSpec(streamsByDate, startDate, i)
    {
      var month := BuildMonth(streamsByDate, currentDate);
      CalendarSpecSnoc(streamsByDate, startDate, i);
      months := months + [month];
      currentDate := AddOneMonth(currentDate);
      i := i + 1;
    }
    assert CalendarSpec(streamsByDate, startDate, i) == CalendarSpec(streamsByDate, startDate, monthsToShow);
    CalendarMonthsConsecutive(streamsByDate, startDate, monthsToShow);
  }

  /** Month `i` of the calendar is the month `i` months after the start. */
  lemma CalendarSpecAt(index: map<string, StreamRecord>, start: Date, n: int, i: int)
    requires ValidDate(start) && 0 <= i < n
    ensures |CalendarSpec(index, start, n)| == n
    ensures CalendarSpec(index, start, n)[i] == MonthAt(index, MonthIndex(start.year, start.month0) + i)
  {
  }

  /** One more month appends the next month to the calendar. */
  lemma CalendarSpecSnoc(index: map<string, StreamRecord>, start: Date, i: nat)
    requires ValidDate(start)
    ensures CalendarSpec(index, start, i + 1)
            == CalendarSpec(index, start, i) + [MonthAt(index, MonthIndex(start.year, start.month0) + i)]
  {
  }

  // ---- Properties of one month ------------------------------------------

  /** `days` with its leading nulls removed. */
  function StripLeadingBlanks(cells: seq<Option<Day>>): (r: seq<Option<Day>>)
    ensures |r| <= |cells|
    ensures r == [] || r[0].Some?
  {
    if cells != [] && cells[0].None? then StripLeadingBlanks(cells[1..]) else cells
  }

  /** Stripping removes a prefix of blanks and nothing else. */
  lemma {:induction false} StripDropsOnlyBlanks(cells: seq<Option<Day>>)
    ensures var r := StripLeadingBlanks(cells);
            && r == cells[|cells| - |r|..]
            && forall k :: 0 <= k < |cells| - |r| ==> cells[k].None?
  {
    if cells != [] && cells[0].None? {
      StripDropsOnlyBlanks(cells[1..]);
      var r := StripLeadingBlanks(cells);
      assert r == StripLeadingBlanks(cells[1..]);
      forall k | 0 < k < |cells| - |r| ensures cells[k].None? {
        assert cells[k] == cells[1..][k - 1];
      }
    }
  }

  lemma {:induction false} StripBlanksPrefix(n: nat, rest: seq<Option<Day>>)
    requires rest == [] || rest[0].Some?
    ensures StripLeadingBlanks(Blanks(n) + rest) == rest
  {
    if n > 0 {
      assert (Blanks(n) + rest)[1..] == Blanks(n - 1) + rest;
      StripBlanksPrefix(n - 1, rest);
    } else {
      assert Blanks(n) + rest == rest;
    }
  }

  /**
   * Stripping the leading blanks of a month leaves exactly the days 1 to
   * DaysInMonth of that month, in ascending order, each in the current
   * month and carrying the index's record for its date; the number of
   * blanks stripped is the Monday-first offset, between 0 and 6.
   */
  lemma {:induction false} StrippedMonthIsItsDays(index: map<string, StreamRecord>, y: int, m0: int)
    requires 0 <= m0 < 12
    ensures var cells := MonthCells(index, y, m0);
            var days := StripLeadingBlanks(cells);
            && |days| == DaysInMonth(y, m0)
            && |cells| - |days| == IsoWeekday(Date(y, m0, 1)) - 1
            && forall k :: 0 <= k < |days| ==>
                 days[k].Some? && days[k].value.date == Date(y, m0, k + 1)
                 && days[k].value.isCurrentMonth
                 && days[k].value.stream == Lookup(index, Date(y, m0, k + 1))
  {
    var b, days := LeadingBlanks(y, m0), MonthDays(index, y, m0);
    StripBlanksPrefix(b, days);
    assert |MonthCells(index, y, m0)| == b + |days|;
    forall k | 0 <= k < |days|
      ensures days[k] == Some(DayCell(index, y, m0, k + 1))
    {
    }
  }

  /** The days of a month are consecutive calendar days: no gap, no repeat. */
  lemma MonthDaysConsecutive(index: map<string, StreamRecord>, y: int, m0: int, k: int)
    requires 0 <= m0 < 12 && 0 <= k < DaysInMonth(y, m0) - 1
    ensures var days := MonthDays(index, y, m0);
            days[k].Some? && days[k + 1].Some?
            && DayNumber(days[k + 1].value.date) == DayNumber(days[k].value.date) + 1
  {
  }

  /**
   * Every day sits in the column of its weekday: with seven columns starting
   * on Monday, the cell holding day `d` is in column ISO-weekday(d) - 1.
   */
  lemma {:induction false} DayInItsWeekdayColumn(index: map<string, StreamRecord>, y: int, m0: int, d: int)
    requires 0 <= m0 < 12 && 1 <= d <= DaysInMonth(y, m0)
    ensures var cells := MonthCells(index, y, m0);
            var p := LeadingBlanks(y, m0) + d - 1;
            && p < |cells|
            && cells[p] == Some(DayCell(index, y, m0, d))
            && p % 7 == IsoWeekday(Date(y, m0, d)) - 1
  {
    MonthCellOfDay(index, y, m0, d);
    DayColumn(y, m0, d);
  }

  /** The Monday-first column of day `d`, counted from the month's blanks. */
  lemma DayColumn(y: int, m0: int, d: int)
    requires 0 <= m0 < 12 && 1 <= d
    ensures (LeadingBlanks(y, m0) + d - 1) % 7 == IsoWeekday(Date(y, m0, d)) - 1
  {
    var w1, wd := Weekday(Date(y, m0, 1)), Weekday(Date(y, m0, d));
    WeekdayInMonth(y, m0, d);
    MondayFirstColumn(w1, d);
    assert LeadingBlanks(y, m0) == (if w1 == 0 then 6 else w1 - 1);
    assert IsoWeekday(Date(y, m0, d)) - 1 == (if wd == 0 then 6 else wd - 1);
  }

  /** Day `d` is the cell right after the blanks and the `d - 1` days before it. */
  lemma MonthCellOfDay(index: map<string, StreamRecord>, y: int, m0: int, d: int)
    requires 0 <= m0 < 12 && 1 <= d <= DaysInMonth(y, m0)
    ensures var cells := MonthCells(index, y, m0);
            var p := LeadingBlanks(y, m0) + d - 1;
            && p < |cells|
            && cells[p] == Some(DayCell(index, y, m0, d))
  {
    var b := LeadingBlanks(y, m0);
    assert MonthCells(index, y, m0)[b + d - 1] == MonthDays(index, y, m0)[d - 1];
  }

  /**
   * Column arithmetic: when the month starts on weekday `w1` (0 = Sunday),
   * day `d` sits `d - 1` cells after the first day's Monday-first column and
   * lands in the Monday-first column of its own weekday.
   */
  lemma MondayFirstColumn(w1: int, d: int)
    requires 0 <= w1 < 7 && 1 <= d
    ensures var wd := (w1 + d - 1) % 7;
            ((if w1 == 0 then 6 else w1 - 1) + d - 1) % 7 == (if wd == 0 then 6 else wd - 1)
  {
    var wd := (w1 + d - 1) % 7;
    assert (if w1 == 0 then 6 else w1 - 1) == (w1 + 6) % 7;
    ModAddMod(w1 + 6, d - 1);
    ModAddMod(w1 + d - 1, 6);
  }

  /**
   * The next month's grid picks up the weekday where this month ended: its
   * blank count is this month's blanks plus its length, modulo 7.
   */
  lemma {:induction false} NextMonthContinuesWeek(y: int, m0: int)
    requires 0 <= m0 < 12
    ensures var t := MonthIndex(y, m0) + 1;
            LeadingBlanks(YearOfMonthIndex(t), Month0OfMonthIndex(t))
              == (LeadingBlanks(y, m0) + DaysInMonth(y, m0)) % 7
  {
    var t := MonthIndex(y, m0) + 1;
    var y2, m2 := YearOfMonthIndex(t), Month0OfMonthIndex(t);
    NextMonthWeekday(y, m0);
    var w, w2 := Weekday(Date(y, m0, 1)), Weekday(Date(y2, m2, 1));
    MondayFirstColumn(w, DaysInMonth(y, m0) + 1);
    assert LeadingBlanks(y, m0) == (if w == 0 then 6 else w - 1);
    assert LeadingBlanks(y2, m2) == (if w2 == 0 then 6 else w2 - 1);
  }

  // ---- Properties of the whole calendar ---------------------------------

  /**
   * The calendar has max(n, 0) months; month `i` is `start` advanced by `i`
   * months (December wraps to January of the next year), so consecutive
   * months differ by exactly one and no month appears twice.
   */
  lemma {:induction false} CalendarMonthsConsecutive(index: map<string, StreamRecord>, start: Date, n: int)
    requires ValidDate(start)
    ensures var cal := CalendarSpec(index, start, n);
            && |cal| == (if n < 0 then 0 else n)
            && (forall i :: 0 <= i < |cal| ==>
                  0 <= cal[i].month < 12
                  && MonthIndex(cal[i].year, cal[i].month) == MonthIndex(start.year, start.month0) + i
                  && cal[i].days == MonthCells(index, cal[i].year, cal[i].month))
            && (forall i, j :: 0 <= i < j < |cal| ==>
                  (cal[i].year, cal[i].month) != (cal[j].year, cal[j].month))
  {
    var cal := CalendarSpec(index, start, n);
    var t0 := MonthIndex(start.year, start.month0);
    forall i | 0 <= i < |cal|
      ensures 0 <= cal[i].month < 12 && MonthIndex(cal[i].year, cal[i].month) == t0 + i
      ensures cal[i].days == MonthCells(index, cal[i].year, cal[i].month)
    {
      assert cal[i] == MonthAt(index, t0 + i);
      MonthIndexRoundTrip(t0 + i);
    }
    forall i, j | 0 <= i < j < |cal|
      ensures (cal[i].year, cal[i].month) != (cal[j].year, cal[j].month)
    {
      assert MonthIndex(cal[i].year, cal[i].month) != MonthIndex(cal[j].year, cal[j].month);
    }
  }

  /**
   * Every date whose month lies in the calendar's range appears exactly
   * where the grid puts it: in month MonthIndex(e) - MonthIndex(start), at
   * position blanks + day - 1, with the index's record for that date.
   */
  lemma {:induction false} CalendarShowsEveryDate(index: map<string, StreamRecord>, start: Date, n: int, e: Date)
    requires ValidDate(start) && ValidDate(e)
    requires MonthIndex(start.year, start.month0) <= MonthIndex(e.year, e.month0)
             < MonthIndex(start.year, start.month0) + n
    ensures var cal := CalendarSpec(index, start, n);
            var i := MonthIndex(e.year, e.month0) - MonthIndex(start.year, start.month0);
            var p := LeadingBlanks(e.year, e.month0) + e.day - 1;
            && 0 <= i < |cal|
            && cal[i].year == e.year && cal[i].month == e.month0
            && p < |cal[i].days|
            && cal[i].days[p] == Some(Day(e, true, Lookup(index, e)))
  {
    var i := MonthIndex(e.year, e.month0) - MonthIndex(start.year, start.month0);
    CalendarMonthOf(index, start, n, e);
    DateCellOfMonth(index, e);
  }

  /** The calendar month holding `e` is `e`'s own month. */
  lemma CalendarMonthOf(index: map<string, StreamRecord>, start: Date, n: int, e: Date)
    requires ValidDate(start) && ValidDate(e)
    requires MonthIndex(start.year, start.month0) <= MonthIndex(e.year, e.month0)
             < MonthIndex(start.year, start.month0) + n
    ensures var i := MonthIndex(e.year, e.month0) - MonthIndex(start.year, start.month0);
            0 <= i < |CalendarSpec(index, start, n)|
            && CalendarSpec(index, start, n)[i] == Month(e.year, e.month0, MonthCells(index, e.year, e.month0))
  {
    CalendarSpecAtMonth(index, start, n, MonthIndex(e.year, e.month0));
    MonthAtOwnIndex(index, e.year, e.month0);
  }

  /** The calendar's entry for month number `t` is MonthAt(t). */
  lemma CalendarSpecAtMonth(index: map<string, StreamRecord>, start: Date, n: int, t: int)
    requires ValidDate(start)
    requires MonthIndex(start.year, start.month0) <= t < MonthIndex(start.year, start.month0) + n
    ensures 0 <= t - MonthIndex(start.year, start.month0) < |CalendarSpec(index, start, n)|
    ensures CalendarSpec(index, start, n)[t - MonthIndex(start.year, start.month0)] == MonthAt(index, t)
  {
    var t0 := MonthIndex(start.year, start.month0);
    var i := t - t0;
    CalendarSpecAt(index, start, n, i);
    assert t0 + i == t;
  }

  /** In its month's cells, date `e` sits after the blanks and the days before it. */
  lemma DateCellOfMonth(index: map<string, StreamRecord>, e: Date)
    requires ValidDate(e)
    ensures var cells := MonthCells(index, e.year, e.month0);
            var p := LeadingBlanks(e.year, e.month0) + e.day - 1;
            p < |cells| && cells[p] == Some(Day(e, true, Lookup(index, e)))
  {
    MonthCellOfDay(index, e.year, e.month0, e.day);
    assert e == Date(e.year, e.month0, e.day);
  }
}
