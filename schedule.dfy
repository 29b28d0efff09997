/**
 * The schedule page: the effect that builds the calendar once the page is
 * mounted, the lists behind the year and month quick-jump selectors, and
 * the handlers of those selectors.
 */
module Schedule {
  import opened Options
  import opened CalendarDates
  import opened IsoDates
  import opened StreamIndex
  import opened CalendarGrid
  import opened SortedDistinct

  /**
   * The effect's month count `(yE - yS) * 12 + mE - mS + 1`: the months from
   * the start month to the end month, both included.
   */
  function MonthsToShow(startDate: Date, endDate: Date): (n: int)
    ensures n == MonthIndex(endDate.year, endDate.month0) - MonthIndex(startDate.year, startDate.month0) + 1
  {
    (endDate.year - startDate.year) * 12 + endDate.month0 - startDate.month0 + 1
  }

  /** The effect's guards pass: the data is non-empty and its first and last dates parse. */
  predicate CanBuildCalendar(data: seq<StreamRecord>) {
    |data| > 0 && RecordDate(data[0]).Some? && RecordDate(data[|data| - 1]).Some?
  }

  /** The months the effect stores when its guards pass, and none otherwise. */
  function ScheduleMonths(data: seq<StreamRecord>, streamsByDate: map<string, StreamRecord>): seq<Month> {
    if !CanBuildCalendar(data) then []
    else
      var first, last := RecordDate(data[0]).value, RecordDate(data[|data| - 1]).value;
      var startDate := StartOfMonth(first);
      CalendarSpec(streamsByDate, startDate, MonthsToShow(startDate, last))
  }

  /** The years of the months, in grid order. */
  function Years(months: seq<Month>): (ys: seq<int>)
    ensures |ys| == |months|
    ensures forall i :: 0 <= i < |months| ==> ys[i] == months[i].year
  {
    seq(|months|, i requires 0 <= i < |months| => months[i].year)
  }

  /** `uniqueYears`: each year of the grid once, ascending. */
  function UniqueYears(months: seq<Month>): (ys: seq<int>)
    ensures StrictlyIncreasing(ys)
    ensures forall y :: y in ys <==> exists i :: 0 <= i < |months| && months[i].year == y
  {
    var r := Sorted(Years(months));
    assert forall y :: y in r <==> y in Elements(r);
    r
  }

  /** `months.filter(m => m.year === year).map(m => m.month)`. */
  function MonthsOfYear(months: seq<Month>, year: int): (ms: seq<int>)
    ensures forall m :: m in ms <==> exists i :: 0 <= i < |months| && months[i].year == year && months[i].month == m
  {
    if months == [] then []
    else
      var rest := MonthsOfYear(months[1..], year);
      assert forall i :: 0 < i < |months| ==> months[i] == months[1..][i - 1];
      assert forall i :: 0 <= i < |months[1..]| ==> months[1..][i] == months[i + 1];
      if months[0].year == year then [months[0].month] + rest else rest
  }

  /** `monthsInYear(year)`: each month shown for `year` once, ascending. */
  function MonthsInYear(months: seq<Month>, year: int): (ms: seq<int>)
    ensures StrictlyIncreasing(ms)
    ensures forall m :: m in ms <==> exists i :: 0 <= i < |months| && months[i].year == year && months[i].month == m
  {
    var r := Sorted(MonthsOfYear(months, year));
    assert forall m :: m in r <==> m in Elements(r);
    r
  }

  /** `months.find(m => m.year === year)`: the first month of that year, if any. */
  function FindMonthOfYear(months: seq<Month>, year: int): (r: Option<Month>)
    ensures r.None? <==> forall i :: 0 <= i < |months| ==> months[i].year != year
    ensures r.Some? ==> exists i :: 0 <= i < |months| && months[i] == r.value && r.value.year == year
                                    && forall j :: 0 <= j < i ==> months[j].year != year
  {
    if months == [] then None
    else if months[0].year == year then Some(months[0])
    else
      var r := FindMonthOfYear(months[1..], year);
      assert forall i :: 0 < i < |months| ==> months[i] == months[1..][i - 1];
      if r.Some? then
        var i :| 0 <= i < |months[1..]| && months[1..][i] == r.value && r.value.year == year
                 && forall j :: 0 <= j < i ==> months[1..][j].year != year;
        assert months[i + 1] == r.value;
        assert forall j :: 0 <= j < i + 1 ==> months[j].year != year by {
          forall j | 0 < j < i + 1 ensures months[j].year != year {
            assert months[j] == months[1..][j - 1];
          }
        }
        r
      else r
  }

  /** The page's state: the generated months, the date the selectors show, the loading flag. */
  class SchedulePage {
    var months: seq<Month>
    var visibleDate: Date
    var loading: bool

    ghost predicate Valid()
      reads this
    {
      ValidDate(visibleDate) && forall i :: 0 <= i < |months| ==> 0 <= months[i].month < 12
    }

    /** The initial state; `today` stands for `new Date()`. */
    constructor(today: Date)
      requires ValidDate(today)
      ensures Valid()
      ensures months == [] && visibleDate == today && loading
    {
      months := [];
      visibleDate := today;
      loading := true;
    }

    /**
     * The mount effect.  Empty data, or a first or last date that does not
     * parse, only ends loading; otherwise the months from the first record's
     * month to the last record's month are generated and the selectors show
     * the first record's date.
     */
    method LoadSchedule(scheduleData: seq<StreamRecord>, streamsByDate: map<string, StreamRecord>)
      requires Valid()
      modifies this
      ensures Valid() && !loading
      ensures !CanBuildCalendar(scheduleData) ==> months == old(months) && visibleDate == old(visibleDate)
      ensures CanBuildCalendar(scheduleData) ==>
                months == ScheduleMonths(scheduleData, streamsByDate)
                && visibleDate == RecordDate(scheduleData[0]).value
    {
      if |scheduleData| == 0 {
        loading := false;
        return;
      }
      var scheduleStartDate := ParseIsoDate(scheduleData[0].date);
      var endDate := ParseIsoDate(scheduleData[|scheduleData| - 1].date);
      if scheduleStartDate.None? || endDate.None? {
        loading := false;
        return;
      }
      var startDate := StartOfMonth(scheduleStartDate.value);
      var monthsToShow := MonthsToShow(startDate, endDate.value);
      var generatedMonths := GenerateCalendarData(streamsByDate, startDate, monthsToShow);
      months := generatedMonths;
      visibleDate := scheduleStartDate.value;
      loading := false;
    }

    /**
     * The year selector: jump to the first month shown for `year`, dated the
     * first of that month; nothing happens when the year has no month.
     */
    method HandleYearChange(year: int)
      requires Valid()
      modifies this
      ensures Valid() && months == old(months) && loading == old(loading)
      ensures FindMonthOfYear(months, year).None? ==> visibleDate == old(visibleDate)
      ensures FindMonthOfYear(months, year).Some? ==>
                visibleDate == NewDate(year, FindMonthOfYear(months, year).value.month)
    {
      var firstMonthOfYearWithStreams := FindMonthOfYear(months, year);
      if firstMonthOfYearWithStreams.Some? {
        visibleDate := NewDate(year, firstMonthOfYearWithStreams.value.month);
      }
    }

    /** The month selector: the same year and day in month `month`, clamped. */
    method HandleMonthChange(month: int)
      requires Valid() && 0 <= month < 12
      modifies this
      ensures Valid() && months == old(months) && loading == old(loading)
      ensures visibleDate == SetMonth(old(visibleDate), month)
    {
      visibleDate := SetMonth(visibleDate, month);
    }
  }

  // ---- What the loaded calendar shows ------------------------------------

  /**
   * The guards let the data through and the last record's month is not
   * before the first's (the records may be in any order in between, and the
   * last may be earlier within the same month): the calendar runs from the
   * first record's month to the last record's month.
   */
  lemma {:induction false} ScheduleSpansRecords(data: seq<StreamRecord>, streamsByDate: map<string, StreamRecord>)
    requires CanBuildCalendar(data)
    requires MonthIndex(RecordDate(data[0]).value.year, RecordDate(data[0]).value.month0)
             <= MonthIndex(RecordDate(data[|data| - 1]).value.year, RecordDate(data[|data| - 1]).value.month0)
    ensures var ms := ScheduleMonths(data, streamsByDate);
            var first, last := RecordDate(data[0]).value, RecordDate(data[|data| - 1]).value;
            && |ms| == MonthIndex(last.year, last.month0) - MonthIndex(first.year, first.month0) + 1
            && ms[0].year == first.year && ms[0].month == first.month0
            && ms[|ms| - 1].year == last.year && ms[|ms| - 1].month == last.month0
            && Consecutive(ms, MonthIndex(first.year, first.month0))
  {
    var first, last := RecordDate(data[0]).value, RecordDate(data[|data| - 1]).value;
    var startDate := StartOfMonth(first);
    var n := MonthsToShow(startDate, last);
    CalendarMonthsConsecutive(streamsByDate, startDate, n);
    var ms := CalendarSpec(streamsByDate, startDate, n);
    MonthIndexInjective(first.year, first.month0);
    MonthIndexInjective(last.year, last.month0);
    assert MonthIndex(ms[0].year, ms[0].month) == MonthIndex(first.year, first.month0);
    assert MonthIndex(ms[n - 1].year, ms[n - 1].month) == MonthIndex(last.year, last.month0);
    MonthIndexInjective(ms[0].year, ms[0].month);
    MonthIndexInjective(ms[n - 1].year, ms[n - 1].month);
  }

  /** A last record dated in an earlier month than the first gives no months. */
  lemma ReversedRangeGivesNoMonths(data: seq<StreamRecord>, streamsByDate: map<string, StreamRecord>)
    requires CanBuildCalendar(data)
    requires MonthIndex(RecordDate(data[|data| - 1]).value.year, RecordDate(data[|data| - 1]).value.month0)
             < MonthIndex(RecordDate(data[0]).value.year, RecordDate(data[0]).value.month0)
    ensures ScheduleMonths(data, streamsByDate) == []
  {
  }

  /**
   * Once the date index has been built from the same data (so the module
   * loaded), the effect's invalid-date guard cannot fire: only empty data
   * leaves the page without a calendar.
   */
  lemma IndexedDataPassesGuards(data: seq<StreamRecord>)
    requires BuildIndex(data).Some?
    ensures CanBuildCalendar(data) <==> |data| > 0
  {
  }

  /** Every record's date parses, and none lies in year 0000. */
  ghost predicate DatesParsed(data: seq<StreamRecord>) {
    forall i :: 0 <= i < |data| ==> RecordDate(data[i]).Some? && RecordDate(data[i]).value.year != 0
  }

  /**
   * Every day from the first record's month to the last record's month is
   * in the calendar, after its month's blanks and the days before it, and
   * carries what the index holds for it (by LookupByDate: the LAST record
   * dated that day, or no record when none is).
   */
  lemma {:induction false} DayCarriesItsRecord(data: seq<StreamRecord>, index: map<string, StreamRecord>, e: Date)
    requires CanBuildCalendar(data) && ValidDate(e)
    requires MonthIndex(RecordDate(data[0]).value.year, RecordDate(data[0]).value.month0)
             <= MonthIndex(e.year, e.month0)
             <= MonthIndex(RecordDate(data[|data| - 1]).value.year, RecordDate(data[|data| - 1]).value.month0)
    ensures var ms := ScheduleMonths(data, index);
            var i := MonthIndex(e.year, e.month0) - MonthIndex(RecordDate(data[0]).value.year, RecordDate(data[0]).value.month0);
            var p := LeadingBlanks(e.year, e.month0) + e.day - 1;
            && 0 <= i < |ms| && 0 <= p < |ms[i].days|
            && ms[i].days[p] == Some(Day(e, true, Lookup(index, e)))
  {
    ScheduleMonthsOfBuiltData(data, index);
    CalendarDayCell(index, RecordDate(data[0]).value, RecordDate(data[|data| - 1]).value, e);
  }

  /** The calendar from `first`'s month to `last`'s month shows `e` with its record. */
  lemma {:induction false} CalendarDayCell(index: map<string, StreamRecord>, first: Date, last: Date, e: Date)
    requires ValidDate(first) && ValidDate(e)
    requires MonthIndex(first.year, first.month0) <= MonthIndex(e.year, e.month0) <= MonthIndex(last.year, last.month0)
    ensures var ms := CalendarSpec(index, StartOfMonth(first), MonthsToShow(StartOfMonth(first), last));
            var i := MonthIndex(e.year, e.month0) - MonthIndex(first.year, first.month0);
            var p := LeadingBlanks(e.year, e.month0) + e.day - 1;
            && 0 <= i < |ms| && 0 <= p < |ms[i].days|
            && ms[i].days[p] == Some(Day(e, true, Lookup(index, e)))
  {
    var startDate := StartOfMonth(first);
    var n := MonthsToShow(startDate, last);
    assert startDate.year == first.year && startDate.month0 == first.month0;
    CalendarShowsEveryDate(index, startDate, n, e);
  }

  /**
   * The whole page: for schedule data whose dates all parse outside year
   * 0000, the index built from that data and the calendar the effect
   * builds with it show every day from the first record's month to the
   * last record's month carrying the LAST record dated that day, or no
   * record when none is.
   */
  lemma DayShowsLastRecord(data: seq<StreamRecord>, e: Date)
    requires |data| > 0 && DatesParsed(data) && ValidDate(e)
    requires MonthIndex(RecordDate(data[0]).value.year, RecordDate(data[0]).value.month0)
             <= MonthIndex(e.year, e.month0)
             <= MonthIndex(RecordDate(data[|data| - 1]).value.year, RecordDate(data[|data| - 1]).value.month0)
    ensures BuildIndex(data).Some?
    ensures var ms := ScheduleMonths(data, BuildIndex(data).value);
            var i := MonthIndex(e.year, e.month0) - MonthIndex(RecordDate(data[0]).value.year, RecordDate(data[0]).value.month0);
            var p := LeadingBlanks(e.year, e.month0) + e.day - 1;
            && 0 <= i < |ms| && 0 <= p < |ms[i].days|
            && ms[i].days[p].Some? && ms[i].days[p].value.date == e
            && (ms[i].days[p].value.stream.None? <==> forall k :: 0 <= k < |data| ==> RecordDate(data[k]) != Some(e))
            && (ms[i].days[p].value.stream.Some? ==>
                  exists k :: 0 <= k < |data| && RecordDate(data[k]) == Some(e)
                              && ms[i].days[p].value.stream == Some(data[k])
                              && forall k' :: k < k' < |data| ==> RecordDate(data[k']) != Some(e))
  {
    DateInRecordYears(data, e);
    LookupByDate(data, e);
    DayCarriesItsRecord(data, BuildIndex(data).value, e);
  }

  /** With the guards passed, the effect stores the calendar from the first record's month. */
  lemma ScheduleMonthsOfBuiltData(data: seq<StreamRecord>, index: map<string, StreamRecord>)
    requires CanBuildCalendar(data)
    ensures var first, last := RecordDate(data[0]).value, RecordDate(data[|data| - 1]).value;
            ScheduleMonths(data, index) == CalendarSpec(index, StartOfMonth(first), MonthsToShow(StartOfMonth(first), last))
  {
  }

  /** A date within the records' months lies in a year between 0001 and 9999. */
  lemma DateInRecordYears(data: seq<StreamRecord>, e: Date)
    requires |data| > 0 && DatesParsed(data)
    requires ValidDate(e)
    requires MonthIndex(RecordDate(data[0]).value.year, RecordDate(data[0]).value.month0)
             <= MonthIndex(e.year, e.month0)
             <= MonthIndex(RecordDate(data[|data| - 1]).value.year, RecordDate(data[|data| - 1]).value.month0)
    ensures 1 <= e.year <= 9999
  {
    var first, last := RecordDate(data[0]).value, RecordDate(data[|data| - 1]).value;
    assert 1 <= first.year && last.year <= 9999;
    MonthIndexMonotoneYear(first.year, first.month0, e.year, e.month0);
    MonthIndexMonotoneYear(e.year, e.month0, last.year, last.month0);
  }

  /**
   * For data whose dates all parse outside year 0000, looking a date up
   * finds the last record dated that day, and nothing when none is.
   */
  lemma LookupByDate(data: seq<StreamRecord>, e: Date)
    requires forall i :: 0 <= i < |data| ==> RecordDate(data[i]).Some? && RecordDate(data[i]).value.year != 0
    requires ValidDate(e) && 1 <= e.year <= 9999
    ensures BuildIndex(data).Some?
    ensures Lookup(BuildIndex(data).value, e).None? <==>
              forall k :: 0 <= k < |data| ==> RecordDate(data[k]) != Some(e)
    ensures Lookup(BuildIndex(data).value, e).Some? ==>
              exists k :: 0 <= k < |data| && RecordDate(data[k]) == Some(e)
                          && Lookup(BuildIndex(data).value, e) == Some(data[k])
                          && forall k' :: k < k' < |data| ==> RecordDate(data[k']) != Some(e)
  {
    forall k | 0 <= k < |data| ensures RecordKey(data[k]).Some? {
      assert RecordDate(data[k]).Some?;
    }
    LookupFindsLastRecord(data, e);
    forall k | 0 <= k < |data|
      ensures RecordKey(data[k]) == Some(FormatKey(e)) <==> RecordDate(data[k]) == Some(e)
    {
      RecordKeyMatchesDate(data[k], e);
    }
    if Lookup(BuildIndex(data).value, e).Some? {
      var k :| IsLastRecordWithKey(data, k, FormatKey(e)) && Lookup(BuildIndex(data).value, e) == Some(data[k]);
      assert RecordDate(data[k]) == Some(e);
    }
  }

  /** Month numbers order years. */
  lemma MonthIndexMonotoneYear(y1: int, m1: int, y2: int, m2: int)
    requires 0 <= m1 < 12 && 0 <= m2 < 12
    requires MonthIndex(y1, m1) <= MonthIndex(y2, m2)
    ensures y1 <= y2
  {
  }

  // ---- The quick-jump selectors over a generated calendar ------------------

  /** `ms[i]` is month number `t0 + i`: how the calendar's months follow one another. */
  ghost predicate Consecutive(ms: seq<Month>, t0: int) {
    forall i :: 0 <= i < |ms| ==> 0 <= ms[i].month < 12 && MonthIndex(ms[i].year, ms[i].month) == t0 + i
  }

  /** The integers `lo` to `hi`, both included, ascending. */
  function Range(lo: int, hi: int): (r: seq<int>)
    ensures |r| == if hi < lo then 0 else hi - lo + 1
    ensures forall i :: 0 <= i < |r| ==> r[i] == lo + i
  {
    seq(if hi < lo then 0 else hi - lo + 1, i => lo + i)
  }

  lemma RangeSorted(lo: int, hi: int)
    ensures StrictlyIncreasing(Range(lo, hi))
    ensures forall x :: x in Elements(Range(lo, hi)) <==> lo <= x <= hi
  {
    var r := Range(lo, hi);
    forall x | lo <= x <= hi ensures x in Elements(r) {
      assert r[x - lo] == x;
    }
  }

  /** Within consecutive months the years never decrease. */
  lemma ConsecutiveYearsAscend(ms: seq<Month>, t0: int, i: int, j: int)
    requires Consecutive(ms, t0) && 0 <= i <= j < |ms|
    ensures ms[i].year <= ms[j].year
  {
    MonthIndexMonotoneYear(ms[i].year, ms[i].month, ms[j].year, ms[j].month);
  }

  /**
   * Some month of year `y` is shown exactly when `y` lies between the first
   * and the last month's years; the first such month is the first month of
   * the calendar in its own year and January in every later year.
   */
  lemma {:induction false} FirstShownMonthOfYear(ms: seq<Month>, t0: int, y: int)
    requires Consecutive(ms, t0) && |ms| > 0
    ensures (exists i :: 0 <= i < |ms| && ms[i].year == y) <==> ms[0].year <= y <= ms[|ms| - 1].year
    ensures ms[0].year <= y <= ms[|ms| - 1].year ==>
              var i := if y == ms[0].year then 0 else MonthIndex(y, 0) - t0;
              && 0 <= i < |ms| && ms[i].year == y
              && ms[i].month == (if y == ms[0].year then ms[0].month else 0)
              && forall j :: 0 <= j < i ==> ms[j].year != y
  {
    var a, b := ms[0].year, ms[|ms| - 1].year;
    forall i | 0 <= i < |ms| ensures a <= ms[i].year <= b {
      ConsecutiveYearsAscend(ms, t0, 0, i);
      ConsecutiveYearsAscend(ms, t0, i, |ms| - 1);
    }
    if a < y <= b {
      var i := MonthIndex(y, 0) - t0;
      assert t0 == MonthIndex(a, ms[0].month);
      MonthIndexMonotoneYear(y, 0, b, ms[|ms| - 1].month);
      assert 0 < i < |ms|;
      MonthIndexInjective(y, 0);
      MonthIndexInjective(ms[i].year, ms[i].month);
      assert ms[i].year == y && ms[i].month == 0;
      forall j | 0 <= j < i ensures ms[j].year != y {
        ConsecutiveYearsAscend(ms, t0, j, i - 1);
        assert MonthIndex(ms[i - 1].year, ms[i - 1].month) == MonthIndex(y, 0) - 1;
        MonthIndexInjective(ms[i - 1].year, ms[i - 1].month);
        MonthIndexInjective(y - 1, 11);
      }
    }
  }

  /** The year selector lists each year from the first month's to the last month's. */
  lemma {:induction false} UniqueYearsOfConsecutive(ms: seq<Month>, t0: int)
    requires Consecutive(ms, t0) && |ms| > 0
    ensures UniqueYears(ms) == Range(ms[0].year, ms[|ms| - 1].year)
  {
    var a, b := ms[0].year, ms[|ms| - 1].year;
    RangeSorted(a, b);
    forall y ensures y in Elements(UniqueYears(ms)) <==> y in Elements(Range(a, b)) {
      FirstShownMonthOfYear(ms, t0, y);
    }
    StrictlyIncreasingUnique(UniqueYears(ms), Range(a, b));
  }

  /**
   * Choosing a year moves the selectors to the first month shown in that
   * year: the calendar's first month in the first year, January later on;
   * a year outside the calendar is not found.
   */
  lemma {:induction false} YearJumpTarget(ms: seq<Month>, t0: int, y: int)
    requires Consecutive(ms, t0) && |ms| > 0
    ensures FindMonthOfYear(ms, y).Some? <==> ms[0].year <= y <= ms[|ms| - 1].year
    ensures FindMonthOfYear(ms, y).Some? ==>
              FindMonthOfYear(ms, y).value.year == y
              && FindMonthOfYear(ms, y).value.month == (if y == ms[0].year then ms[0].month else 0)
  {
    FirstShownMonthOfYear(ms, t0, y);
    var r := FindMonthOfYear(ms, y);
    if r.Some? {
      var k :| 0 <= k < |ms| && ms[k] == r.value && r.value.year == y
               && forall j :: 0 <= j < k ==> ms[j].year != y;
      var i := if y == ms[0].year then 0 else MonthIndex(y, 0) - t0;
      // Both k and i are the first month of year y.
      assert !(i < k) && !(k < i);
    }
  }

  /**
   * The month selector for year `y` lists the calendar's months of that
   * year in order: from the first month (or January) to the last month
   * (or December).
   */
  lemma {:induction false} MonthsInYearOfConsecutive(ms: seq<Month>, t0: int, y: int)
    requires Consecutive(ms, t0) && |ms| > 0
    requires ms[0].year <= y <= ms[|ms| - 1].year
    ensures MonthsInYear(ms, y) ==
              Range(if y == ms[0].year then ms[0].month else 0,
                    if y == ms[|ms| - 1].year then ms[|ms| - 1].month else 11)
  {
    var lo := if y == ms[0].year then ms[0].month else 0;
    var hi := if y == ms[|ms| - 1].year then ms[|ms| - 1].month else 11;
    RangeSorted(lo, hi);
    forall m ensures m in Elements(MonthsInYear(ms, y)) <==> lo <= m <= hi {
      MonthOfYearShown(ms, t0, y, m);
    }
    StrictlyIncreasingUnique(MonthsInYear(ms, y), Range(lo, hi));
  }

  lemma MonthOfYearShown(ms: seq<Month>, t0: int, y: int, m: int)
    requires Consecutive(ms, t0) && |ms| > 0
    requires ms[0].year <= y <= ms[|ms| - 1].year
    ensures (exists i :: 0 <= i < |ms| && ms[i].year == y && ms[i].month == m) <==>
              ((if y == ms[0].year then ms[0].month else 0) <= m
               && m <= (if y == ms[|ms| - 1].year then ms[|ms| - 1].month else 11))
  {
    var a, b := ms[0].year, ms[|ms| - 1].year;
    var lo := if y == a then ms[0].month else 0;
    var hi := if y == b then ms[|ms| - 1].month else 11;
    var last := |ms| - 1;
    if exists i :: 0 <= i < |ms| && ms[i].year == y && ms[i].month == m {
      var i :| 0 <= i < |ms| && ms[i].year == y && ms[i].month == m;
      assert MonthIndex(a, ms[0].month) <= MonthIndex(y, m) <= MonthIndex(b, ms[last].month);
    }
    if lo <= m <= hi {
      var i := MonthIndex(y, m) - t0;
      assert t0 == MonthIndex(a, ms[0].month);
      assert MonthIndex(b, ms[last].month) == t0 + last;
      assert 0 <= i < |ms|;
      MonthIndexInjective(y, m);
      MonthIndexInjective(ms[i].year, ms[i].month);
    }
  }
}
