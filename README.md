# Schedule calendar of olesha-analytics, modelled in Dafny

The schedule page of the olesha-analytics site (`src/app/schedule/page.tsx`)
shows a multi-year calendar of predicted streams. It loads a static list of
stream records and indexes them by their `yyyy-MM-dd` date (`streamsByDate`).
When the page mounts, it builds one grid month per calendar month, from the
first record's month to the last record's month (`generateCalendarData`).
Each grid month starts with blank cells, so that its columns run Monday to
Sunday, and then holds one cell per day carrying the record indexed for that
date. Year and month selectors jump inside the calendar. Each day tile is
coloured by its predicted audience and shows the first four games of its
record.

The model has eight modules:

- `Options`: the Option type.
- `CalendarDates`: dates as (year, 0-based month, day) in the proleptic
  Gregorian calendar, and the date-fns operations the page uses: the
  weekday, `startOfMonth`, `add(…, {months: 1})`, `setMonth`, and the
  `new Date(year, month)` constructor.
- `IsoDates`: `parseISO` on `yyyy-MM-dd` text and `format(d, 'yyyy-MM-dd')`.
- `StreamIndex`: the record type and the date index, which a JavaScript `Map`
  builds from entries (a later entry replaces an earlier one).
- `CalendarGrid`: `generateCalendarData` as a method with a loop. Its result
  is tied to the pure specification `CalendarSpec`, and the grid's properties
  are proved about that specification.
- `Labels`: `getViewerColor`, `capitalize`, and the game label of a tile
  (`split(',')`, `trim`, `join(', ')`, truncation to four games).
- `SortedDistinct`: the `[...new Set(xs)].sort()` idiom.
- `Schedule`: the page state as a class. `LoadSchedule` is the mount effect;
  `HandleYearChange` and `HandleMonthChange` are the selector handlers. The
  module also holds the year and month lists of the selectors and the
  lemmas about the loaded calendar.

Three behaviours of the code are worth stating on their own:

- The guard at line 237 logs an invalid date, but for the data the index
  was built from it never fires. A record whose date does not parse makes
  `format` throw while `streamsByDate` is built (lines 79-81), so the page
  never renders. `BuildIndex` is `None` in that case, and
  `IndexedDataPassesGuards` shows that once the index exists, only empty
  data trips the effect's guards.
- When two records share a date, the `Map` keeps the last one
  (`LookupFindsLastRecord`, `DayShowsLastRecord`).
- The effect reads only the first and the last record (lines 233-235).
  Records in between may be in any order, and the calendar still runs from
  the first record's month to the last record's month. When the last
  record lies in an earlier month than the first, the month count is not
  positive and the calendar is empty, with no error logged
  (`ReversedRangeGivesNoMonths`).

## Model

| member | source | states |
|---|---|---|
| StreamIndex.RecordKey | src/app/schedule/page.tsx:80 | a record has a key exactly when its date parses; outside year 0000 the key is the record's own date text |
| StreamIndex.KeyedEntries | src/app/schedule/page.tsx:80 | one `[key, record]` entry per record, in list order |
| StreamIndex.BuildIndex | src/app/schedule/page.tsx:79-81 | the index exists exactly when every record's date parses |
| StreamIndex.Lookup | src/app/schedule/page.tsx:115 | a date finds a record exactly when its formatted key is in the index, and then it finds the record stored under that key |
| StreamIndex.MapFromEntries | src/app/schedule/page.tsx:79 | `new Map(entries)` holds every entry's key, and the last entry's value under its key |
| StreamIndex.MapFromEntriesKeys | src/app/schedule/page.tsx:79-81 | the map built from the entries holds exactly the keys of the entries |
| StreamIndex.MapFromEntriesLastWins | src/app/schedule/page.tsx:79-81 | under each key the map holds the value of the last entry with that key |
| StreamIndex.LookupFindsLastRecord | src/app/schedule/page.tsx:79-81 | looking a date up finds nothing when no record has its key, and otherwise finds the last record with that key |
| StreamIndex.RecordKeyMatchesDate | src/app/schedule/page.tsx:80 | for years 0001 to 9999, a record's key equals a date's key exactly when the record's date is that date |
| IsoDates.ParseIsoDate | src/app/schedule/page.tsx:233 | a parsed date is a valid calendar date with a year from 0000 to 9999 |
| IsoDates.EraYear | src/app/schedule/page.tsx:80 | the year the `yyyy` token writes is at least 1 and equals the year from year 1 on |
| IsoDates.PadDigitsValue | src/app/schedule/page.tsx:80 | a zero-padded number's digits denote that number |
| IsoDates.PadDigitsWidth | src/app/schedule/page.tsx:80 | a number below 10^width pads to exactly `width` digits |
| IsoDates.DigitsRoundTrip | src/app/schedule/page.tsx:80 | padding the value of a digit string to its own width gives that string back |
| IsoDates.PadDigits | src/app/schedule/page.tsx:110 | the zero-padded decimal digits of a number are digits only, at least as many as the width |
| IsoDates.FormatKey | src/app/schedule/page.tsx:110 | for years whose written year has at most four digits, the key has the `yyyy-MM-dd` shape: ten characters, dashes at positions 4 and 7, digits elsewhere |
| IsoDates.ParseFormatKey | src/app/schedule/page.tsx:110 | parsing the key of a date in years 0001 to 9999 gives the date back |
| IsoDates.FormatParsedKey | src/app/schedule/page.tsx:80 | formatting a parsed date gives the original text back, except in year 0000 |
| IsoDates.FormatKeyInjective | src/app/schedule/page.tsx:110 | distinct dates in years 0001 to 9999 have distinct keys |
| IsoDates.YearZeroSharesKeys | src/app/schedule/page.tsx:80 | a date in year 0000 formats to the same key as the same day of year 0001 |
| CalendarDates.DaysInMonth | src/app/schedule/page.tsx:97-98 | a month has 28 to 31 days, 29 only for a leap February and 28 only for a common February |
| CalendarDates.Weekday | src/app/schedule/page.tsx:100 | `getDay` lies between 0 (Sunday) and 6 |
| CalendarDates.IsoWeekday | src/app/schedule/page.tsx:101 | the ISO weekday lies between 1 and 7 and agrees with `getDay` modulo 7 |
| CalendarDates.KnownWeekdays | src/app/schedule/page.tsx:100 | the weekday function gives the real weekdays of 1 January 2025, 1 February 2025 and 29 February 2000 |
| CalendarDates.MonthIndexInjective | src/app/schedule/page.tsx:105-106 | the month number of (year, month) determines the year and the month |
| CalendarDates.StartOfMonth | src/app/schedule/page.tsx:96 | the start of the month is a valid first day in the same month |
| CalendarDates.AddOneMonth | src/app/schedule/page.tsx:120 | adding a month moves to the next month number and keeps the day when it fits; otherwise the day becomes the new month's last day |
| CalendarDates.SetMonth | src/app/schedule/page.tsx:268 | setting the month keeps the year, and keeps the day when it fits; otherwise the day becomes the month's last day |
| CalendarDates.NewDate | src/app/schedule/page.tsx:258 | `new Date(year, month)` is the first day of that month, in year 1900 + year when the year is from 0 to 99 |
| CalendarDates.YearLength | src/app/schedule/page.tsx:98 | a leap year has 366 days and any other year 365 |
| CalendarDates.MonthsFillYear | src/app/schedule/page.tsx:98 | the twelve month lengths add up to the year's length |
| CalendarDates.NextMonthWeekday | src/app/schedule/page.tsx:120 | the next month's first weekday is this month's first weekday plus its length, modulo 7 |
| CalendarDates.WeekdayInMonth | src/app/schedule/page.tsx:100 | day `d`'s weekday is the first day's weekday plus `d - 1`, modulo 7 |
| CalendarGrid.LeadingBlanks | src/app/schedule/page.tsx:100-102 | the blank count is between 0 and 6 and equals the ISO weekday of the first day minus one |
| CalendarGrid.Blanks | src/app/schedule/page.tsx:102 | `Array(n).fill(null)` has n cells, all blank |
| CalendarGrid.MonthDays | src/app/schedule/page.tsx:109-117 | a month has one day cell per day of the month |
| CalendarGrid.BuildMonth | src/app/schedule/page.tsx:96-119 | the pushed month is the grid month of the current date's month, with that year and month |
| CalendarGrid.GenerateCalendarData | src/app/schedule/page.tsx:91-123 | the loop returns `CalendarSpec`: max(n, 0) months, where month i is the start month advanced by i months |
| CalendarGrid.StripLeadingBlanks | src/app/schedule/page.tsx:102-108 | stripping leaves no leading blank and never lengthens the cells |
| CalendarGrid.StripDropsOnlyBlanks | src/app/schedule/page.tsx:102-108 | stripping removes a prefix made only of blanks and keeps the rest as it is |
| CalendarGrid.StrippedMonthIsItsDays | src/app/schedule/page.tsx:102-118 | stripping the leading blanks leaves days 1 to DaysInMonth in order, each in the current month and carrying the indexed record; the blanks number ISO weekday minus one |
| CalendarGrid.MonthDaysConsecutive | src/app/schedule/page.tsx:98 | consecutive cells of a month are consecutive calendar days |
| CalendarGrid.DayInItsWeekdayColumn | src/app/schedule/page.tsx:100-102 | in the Monday-first grid, day d sits after the blanks and the days before it, in column ISO weekday minus one |
| CalendarGrid.NextMonthContinuesWeek | src/app/schedule/page.tsx:120 | the next month's blank count is this month's blanks plus its length, modulo 7 |
| CalendarGrid.CalendarMonthsConsecutive | src/app/schedule/page.tsx:95-121 | the calendar has max(n, 0) months that follow one another without gap or repeat, each holding its own month's cells |
| CalendarGrid.CalendarShowsEveryDate | src/app/schedule/page.tsx:91-123 | every date in the calendar's month range appears in its own month, after the blanks, with the indexed record for that date |
| Schedule.MonthsToShow | src/app/schedule/page.tsx:243 | the month count is the number of months from the start month to the end month, both included |
| Schedule.Years | src/app/schedule/page.tsx:251 | the years of the months, one per month, in order |
| Schedule.UniqueYears | src/app/schedule/page.tsx:251 | the year list is strictly ascending and holds exactly the years of the months |
| Schedule.MonthsOfYear | src/app/schedule/page.tsx:252 | the filtered list holds exactly the months shown for that year |
| Schedule.MonthsInYear | src/app/schedule/page.tsx:252 | the month list is strictly ascending and holds exactly the months shown for that year |
| Schedule.FindMonthOfYear | src/app/schedule/page.tsx:256 | nothing is found exactly when no month has that year; otherwise the first month of that year is found |
| Schedule.SchedulePage.constructor | src/app/schedule/page.tsx:220-224 | the page starts loading, with no months and today's date |
| Schedule.SchedulePage.LoadSchedule | src/app/schedule/page.tsx:226-249 | loading always ends; failed guards leave months and date alone; otherwise the months are the calendar from the first to the last record's month and the date is the first record's |
| Schedule.SchedulePage.HandleYearChange | src/app/schedule/page.tsx:254-262 | a year with a month moves the date to the first of its first month; any other year changes nothing |
| Schedule.SchedulePage.HandleMonthChange | src/app/schedule/page.tsx:264-269 | the date moves to the chosen month of the same year, with its day clamped; months and loading are kept |
| Schedule.ScheduleSpansRecords | src/app/schedule/page.tsx:233-244 | for data whose first record's month is no later than the last's, the calendar runs from the first record's month to the last record's month without gaps |
| Schedule.ReversedRangeGivesNoMonths | src/app/schedule/page.tsx:243-244 | a last record in an earlier month than the first gives no months |
| Schedule.IndexedDataPassesGuards | src/app/schedule/page.tsx:237 | once the index is built from the data, the guards fail exactly on empty data |
| Schedule.DayCarriesItsRecord | src/app/schedule/page.tsx:233-244 | every day between the first and the last record's month has its cell in the calendar, carrying the indexed record for that day |
| Schedule.DayShowsLastRecord | src/app/schedule/page.tsx:79-123 | for data whose dates all parse outside year 0000, every day from the first to the last record's month shows the last record dated that day, and no record when none is |
| Schedule.CalendarDayCell | src/app/schedule/page.tsx:244 | the calendar from one date's month to another's shows every day in between with its indexed record |
| Schedule.DateInRecordYears | src/app/schedule/page.tsx:243 | for parsed data outside year 0000, a date within the records' months lies in years 0001 to 9999 |
| Schedule.LookupByDate | src/app/schedule/page.tsx:115 | for data parsed outside year 0000, a date finds nothing when no record is dated that day, and otherwise the last record dated that day |
| Schedule.RangeSorted | src/app/schedule/page.tsx:251 | that range is strictly ascending and holds exactly lo to hi |
| Schedule.ConsecutiveYearsAscend | src/app/schedule/page.tsx:251 | along consecutive months the years never decrease |
| Schedule.FirstShownMonthOfYear | src/app/schedule/page.tsx:256 | a year is shown exactly when it lies between the first and the last month's years; its first month is the calendar's first month in the first year and January later on |
| Schedule.UniqueYearsOfConsecutive | src/app/schedule/page.tsx:251 | the year selector of a generated calendar lists every year from the first to the last month's, ascending |
| Schedule.YearJumpTarget | src/app/schedule/page.tsx:256-258 | choosing a year finds a month exactly for the calendar's years: its first month in the first year, January after that |
| Schedule.MonthsInYearOfConsecutive | src/app/schedule/page.tsx:252 | the month selector lists the year's months from the first month (or January) to the last month (or December), ascending |
| Schedule.MonthOfYearShown | src/app/schedule/page.tsx:252 | month m of a year in range is shown exactly when it lies between that year's first and last shown month |
| SortedDistinct.Insert | src/app/schedule/page.tsx:251 | inserting into a strictly ascending list keeps it strictly ascending and adds exactly that element |
| SortedDistinct.Sorted | src/app/schedule/page.tsx:251 | `[...new Set(xs)].sort()` is strictly ascending and has exactly the elements of xs |
| SortedDistinct.StrictlyIncreasingUnique | src/app/schedule/page.tsx:251 | two strictly ascending lists with the same elements are equal |
| Labels.GetViewerColor | src/app/schedule/page.tsx:83-89 | red above 2200, orange above 2000, yellow above 1800, lime above 1600, green otherwise, each band an if-and-only-if |
| Labels.ColorClasses | src/app/schedule/page.tsx:84-88 | each colour's class string starts with the background class of that colour |
| Labels.ColorClassesDistinct | src/app/schedule/page.tsx:84-88 | different colours give different class strings |
| Labels.ViewerColorMonotone | src/app/schedule/page.tsx:83-89 | more predicted viewers never give a cooler colour |
| Labels.ToUpperChar | src/app/schedule/page.tsx:131 | a–z become A–Z, а–я become А–Я, ё becomes Ё, and every other character is unchanged |
| Labels.Capitalize | src/app/schedule/page.tsx:131 | the first character is upper-cased, the rest is unchanged, and the empty string stays empty |
| Labels.CapitalizeIdempotent | src/app/schedule/page.tsx:131 | capitalising twice is capitalising once |
| Labels.Split | src/app/schedule/page.tsx:366 | splitting gives at least one piece and no piece contains the separator |
| Labels.Join | src/app/schedule/page.tsx:367 | the joined text is as long as the parts plus one separator between each pair of neighbours |
| Labels.JoinSplit | src/app/schedule/page.tsx:366 | joining the pieces of a split with the separator gives the string back |
| Labels.SplitJoinPadded | src/app/schedule/page.tsx:367 | splitting a join gives the pieces back, each after the first preceded by the separator's padding |
| Labels.TrimStartIndex | src/app/schedule/page.tsx:366 | the first position from i that is not white space, with only white space before it |
| Labels.TrimEndIndex | src/app/schedule/page.tsx:366 | the end of the slice once white space at its end is dropped |
| Labels.Trim | src/app/schedule/page.tsx:366 | `trim` gives a slice that neither starts nor ends with white space, with only white space around it, and leaves a trimmed string alone |
| Labels.TrimDropsPadding | src/app/schedule/page.tsx:366 | white space in front of a trimmed string is removed |
| Labels.GameParts | src/app/schedule/page.tsx:366 | one game per comma-separated piece: that piece with white space dropped from both ends, so each game is trimmed and free of commas |
| Labels.ReadBackJoin | src/app/schedule/page.tsx:367 | reading a ", "-joined list of trimmed, comma-free names back as game parts gives the names |
| Labels.GameLabel | src/app/schedule/page.tsx:367 | with more than four games, the label ends with an ellipsis |
| Labels.GameLabelShowsFirstGames | src/app/schedule/page.tsx:366-367 | the label ends with an ellipsis when games were dropped, and reading it back gives the first min(4, n) games in order |

## Left out

- `isToday` (lines 114, 352) reads the wall clock, so the day cell has no `isToday` field. The `today` argument of the page constructor stands in for `new Date()`.
- Times of day and time zones are not modelled. Every date stands for local midnight, which is what `parseISO` of a date-only string and `startOfMonth` give.
- `parseISO` is modelled only for the date-only form `yyyy-MM-dd`, the form the data file uses. Other forms, such as week dates, ordinal dates, times, or six-digit years, are read as invalid.
- The schedule file is a parameter (a sequence of records), so the `!scheduleData` test of an undefined import is not modelled. `duration_hours` is a float used only for display and is not a field of the record.
- `Labels.ToUpperChar`: upper-cases only Latin a–z, Cyrillic а–я and ё, the letters of the weekday names. Full Unicode `toUpperCase`, whose results can be longer than one character, is not modelled.
- `Labels.Trim`: the white-space set is ECMAScript's white space and line terminators, with the Unicode Zs category written out as of current Unicode.
- Rendering is not modelled. This covers the details panel, the Russian month and day names from `format` with the `ru` locale, `toFixed`, the sticky header and intro toggle, the Tailwind class strings beyond `Labels.ColorClasses`, and `console.error`.
- Scrolling to the chosen month (`scrollIntoView`, lines 259 and 267) is a DOM effect and is not modelled. The handlers model only the state change.
- `Schedule.SchedulePage.HandleYearChange`: takes the year as a number. `parseInt` of the selector's text is not modelled, because the selector offers only the years of `uniqueYears`.
- `Schedule.SchedulePage.HandleMonthChange`: requires a month from 0 to 11, the values the month selector offers. The roll-over `setMonth` performs for other values is not modelled.
- `Schedule.SchedulePage`: `selectedDay` and `showIntro` are UI state outside the model. The `Day | null` selection only drives the details panel.
- The year 0000 sorts below year 0001, but both format to the key `0001-…` (`IsoDates.YearZeroSharesKeys`). So `Schedule.LookupByDate` and `StreamIndex.RecordKeyMatchesDate` exclude year 0000 from the date-equals-key statements.
