/**
 * Calendar primitives of the vacation planner: leap years, month tables,
 * year lists, weekday classification and the fixed holiday list
 * (src/lib/dateUtils.ts), plus the day arithmetic that JavaScript's `Date`
 * performs implicitly (`setDate`, `setMonth`, millisecond differences).
 *
 * A JavaScript date at midnight is modelled as a calendar triple; a date
 * with a time of day (`new Date()`) is an `Instant`. Day numbers count days
 * from 1970-01-01, the epoch of `Date.getTime()`.
 */
module Calendar {
  import opened Wrappers

  // ---------------------------------------------------------------------------
  // Leap years and month lengths
  // ---------------------------------------------------------------------------

  /** The Gregorian rule of `isLeapYear`. */
  predicate IsLeapYear(year: int) {
    (year % 4 == 0 && year % 100 != 0) || year % 400 == 0
  }

  /** The simplified rule the two table helpers use for February. */
  predicate IsLeapYearDiv4(year: int) {
    year % 4 == 0
  }

  /** Length of `month` (1..12) in `year` under the Gregorian rule. */
  function DaysInMonth(year: int, month: int): (n: int)
    ensures 28 <= n <= 31
  {
    if month == 2 then (if IsLeapYear(year) then 29 else 28)
    else if month == 4 || month == 6 || month == 9 || month == 11 then 30
    else 31
  }

  function YearLength(year: int): (n: int)
  {
    if IsLeapYear(year) then 366 else 365
  }

  // ---------------------------------------------------------------------------
  // Dates
  // ---------------------------------------------------------------------------

  datatype CalendarDate = CalendarDate(year: int, month: int, day: int)

  /** A real calendar day: month 1..12, day within that month's length. */
  type Date = d: CalendarDate | 1 <= d.month <= 12 && 1 <= d.day <= DaysInMonth(d.year, d.month)
    witness CalendarDate(1970, 1, 1)

  /** JavaScript's `a < b` on two dates at midnight: lexicographic order. */
  predicate Before(a: Date, b: Date) {
    a.year < b.year
    || (a.year == b.year && a.month < b.month)
    || (a.year == b.year && a.month == b.month && a.day < b.day)
  }

  /** `a <= b` on two dates at midnight. */
  predicate NotAfter(a: Date, b: Date) {
    !Before(b, a)
  }

  /** Months since January of year 0; two dates in the same month share it. */
  function MonthIndex(d: Date): int {
    d.year * 12 + d.month - 1
  }

  /** The date order is the order of (month index, day). */
  lemma BeforeByMonthIndex(a: Date, b: Date)
    ensures Before(a, b) <==> MonthIndex(a) < MonthIndex(b) || (MonthIndex(a) == MonthIndex(b) && a.day < b.day)
  {
    if a.year < b.year {
      assert a.year * 12 + 12 <= b.year * 12;
    } else if a.year > b.year {
      assert b.year * 12 + 12 <= a.year * 12;
    }
  }

  lemma BeforeTransitive(a: Date, b: Date, c: Date)
    requires Before(a, b) && Before(b, c)
    ensures Before(a, c)
  {
  }

  /** `Before` is a strict total order on valid dates. */
  lemma BeforeTotal(a: Date, b: Date)
    ensures a == b || Before(a, b) || Before(b, a)
  {
  }

  // ---------------------------------------------------------------------------
  // Day numbers
  // ---------------------------------------------------------------------------

  /** Days from 1 January of `year` to the first day of `month` (1..13). */
  function DaysBeforeMonth(year: int, month: int): int
    requires 1 <= month <= 13
  {
    [0, 31, 59, 90, 120, 151, 181, 212, 243, 273, 304, 334, 365][month - 1]
    + (if month > 2 && IsLeapYear(year) then 1 else 0)
  }

  lemma DaysBeforeNextMonth(year: int, month: int)
    requires 1 <= month <= 12
    ensures DaysBeforeMonth(year, month + 1) == DaysBeforeMonth(year, month) + DaysInMonth(year, month)
    ensures DaysBeforeMonth(year, 13) == YearLength(year)
  {
  }

  lemma DaysBeforeMonthMonotone(year: int, m1: int, m2: int)
    requires 1 <= m1 <= m2 <= 13
    ensures DaysBeforeMonth(year, m1) <= DaysBeforeMonth(year, m2)
    decreases m2 - m1
  {
    if m1 < m2 {
      DaysBeforeNextMonth(year, m1);
      DaysBeforeMonthMonotone(year, m1 + 1, m2);
    }
  }

  /** Days from 1970-01-01 to 1 January of `year` (negative before 1970). */
  function DaysBeforeYear(year: int): int
    decreases if year >= 1970 then year - 1970 else 1970 - year
  {
    if year == 1970 then 0
    else if year > 1970 then DaysBeforeYear(year - 1) + YearLength(year - 1)
    else DaysBeforeYear(year + 1) - YearLength(year)
  }

  lemma DaysBeforeNextYear(year: int)
    ensures DaysBeforeYear(year + 1) == DaysBeforeYear(year) + YearLength(year)
  {
  }

  lemma {:induction false} DaysBeforeYearMonotone(y1: int, y2: int)
    requires y1 <= y2
    ensures DaysBeforeYear(y1) + (y2 - y1) * 365 <= DaysBeforeYear(y2)
    decreases y2 - y1
  {
    if y1 < y2 {
      DaysBeforeNextYear(y1);
      DaysBeforeYearMonotone(y1 + 1, y2);
    }
  }

  /** The day number of `d`: `getTime()` of its midnight divided by 86 400 000. */
  function DayNumber(d: Date): int {
    DaysBeforeYear(d.year) + DaysBeforeMonth(d.year, d.month) + d.day - 1
  }

  /** A date's day number lies inside its own year. */
  lemma DayNumberWithinYear(d: Date)
    ensures DaysBeforeYear(d.year) <= DayNumber(d) < DaysBeforeYear(d.year + 1)
  {
    DaysBeforeNextMonth(d.year, d.month);
    DaysBeforeMonthMonotone(d.year, d.month + 1, 13);
    DaysBeforeNextYear(d.year);
  }

  /** Day numbers follow the date order. */
  lemma DayNumberStrictlyMonotone(a: Date, b: Date)
    requires Before(a, b)
    ensures DayNumber(a) < DayNumber(b)
  {
    if a.year < b.year {
      DayNumberWithinYear(a);
      DayNumberWithinYear(b);
      DaysBeforeYearMonotone(a.year + 1, b.year);
    } else if a.month < b.month {
      DaysBeforeNextMonth(a.year, a.month);
      DaysBeforeMonthMonotone(a.year, a.month + 1, b.month);
    }
  }

  /** Distinct dates have distinct day numbers. */
  lemma DayNumberInjective(a: Date, b: Date)
    requires DayNumber(a) == DayNumber(b)
    ensures a == b
  {
    BeforeTotal(a, b);
    if Before(a, b) {
      DayNumberStrictlyMonotone(a, b);
    } else if Before(b, a) {
      DayNumberStrictlyMonotone(b, a);
    }
  }

  /** Comparing dates is comparing their day numbers. */
  lemma BeforeIffDayNumber(a: Date, b: Date)
    ensures Before(a, b) <==> DayNumber(a) < DayNumber(b)
  {
    BeforeTotal(a, b);
    if Before(a, b) {
      DayNumberStrictlyMonotone(a, b);
    } else if Before(b, a) {
      DayNumberStrictlyMonotone(b, a);
    }
  }

  /** The following calendar day. */
  function NextDay(d: Date): (r: Date)
    ensures DayNumber(r) == DayNumber(d) + 1
  {
    DaysBeforeNextMonth(d.year, d.month);
    DaysBeforeNextYear(d.year);
    if d.day < DaysInMonth(d.year, d.month) then CalendarDate(d.year, d.month, d.day + 1)
    else if d.month < 12 then CalendarDate(d.year, d.month + 1, 1)
    else CalendarDate(d.year + 1, 1, 1)
  }

  /** The preceding calendar day. */
  function PrevDay(d: Date): (r: Date)
    ensures DayNumber(r) == DayNumber(d) - 1
  {
    if d.day > 1 then CalendarDate(d.year, d.month, d.day - 1)
    else if d.month > 1 then
      DaysBeforeNextMonth(d.year, d.month - 1);
      CalendarDate(d.year, d.month - 1, DaysInMonth(d.year, d.month - 1))
    else
      DaysBeforeNextMonth(d.year - 1, 12);
      DaysBeforeNextYear(d.year - 1);
      CalendarDate(d.year - 1, 12, 31)
  }

  /** `d.setDate(d.getDate() + k)`: the date `k` days after (or before) `d`. */
  function AddDays(d: Date, k: int): (r: Date)
    ensures DayNumber(r) == DayNumber(d) + k
    decreases if k >= 0 then k else -k
  {
    if k == 0 then d
    else if k > 0 then AddDays(NextDay(d), k - 1)
    else AddDays(PrevDay(d), k + 1)
  }

  /** Adding days composes. */
  lemma AddDaysAdd(d: Date, j: int, k: int)
    ensures AddDays(AddDays(d, j), k) == AddDays(d, j + k)
  {
    DayNumberInjective(AddDays(AddDays(d, j), k), AddDays(d, j + k));
  }

  /** Every date is reached from any other by adding the difference of their day numbers. */
  lemma AddDaysReaches(a: Date, b: Date)
    ensures AddDays(a, DayNumber(b) - DayNumber(a)) == b
  {
    DayNumberInjective(AddDays(a, DayNumber(b) - DayNumber(a)), b);
  }

  // ---------------------------------------------------------------------------
  // Month arithmetic (`setMonth`)
  // ---------------------------------------------------------------------------

  /**
   * `d.setMonth(d.getMonth() + k)`: the month moves by `k` (carrying into the
   * year), and a day beyond the target month's length overflows into the
   * following month, as JavaScript normalises `new Date(2025, 1, 31)` to
   * 3 March.
   */
  function AddMonths(d: Date, k: int): (r: Date)
    ensures d.day <= 28 ==> MonthIndex(r) == MonthIndex(d) + k && r.day == d.day
    ensures d.day > DaysInMonth(d.year + (d.month - 1 + k) / 12, (d.month - 1 + k) % 12 + 1)
            ==> MonthIndex(r) == MonthIndex(d) + k + 1 && r.day <= 3
    ensures MonthIndex(d) + k <= MonthIndex(r) <= MonthIndex(d) + k + 1
  {
    var m0 := d.month - 1 + k;
    var y := d.year + m0 / 12;
    var m := m0 % 12 + 1;
    var len := DaysInMonth(y, m);
    // December has 31 days, so an overflow never crosses into the next year.
    if d.day <= len then CalendarDate(y, m, d.day)
    else CalendarDate(y, m + 1, d.day - len)
  }

  /**
   * `setMonth` normalises as MakeDay of ECMA-262 does: the
   * result lies `day - 1` days after the first of the target month, so a day
   * that fits is kept and one that does not runs on into the next month.
   */
  lemma AddMonthsNormalises(d: Date, k: int)
    ensures var ty, tm := d.year + (d.month - 1 + k) / 12, (d.month - 1 + k) % 12 + 1;
      DayNumber(AddMonths(d, k)) == DayNumber(CalendarDate(ty, tm, 1)) + d.day - 1
    ensures var ty, tm := d.year + (d.month - 1 + k) / 12, (d.month - 1 + k) % 12 + 1;
      d.day <= DaysInMonth(ty, tm) ==> AddMonths(d, k) == CalendarDate(ty, tm, d.day)
  {
  }

  /** Moving forward by at least one month lands strictly later. */
  lemma AddMonthsIsLater(d: Date, k: int)
    requires k >= 1
    ensures Before(d, AddMonths(d, k))
  {
    BeforeByMonthIndex(d, AddMonths(d, k));
  }

  // ---------------------------------------------------------------------------
  // Instants (a date with a time of day)
  // ---------------------------------------------------------------------------

  type Millis = m: int | 0 <= m < 86_400_000

  /** A JavaScript `Date` with a time of day, such as `new Date()`. */
  datatype Instant = Instant(date: Date, msOfDay: Millis)

  /** The instant of a date string's midnight (`new Date("2025-05-15")`). */
  function Midnight(d: Date): Instant {
    Instant(d, 0)
  }

  /** JavaScript's `a < b` on two instants. */
  predicate InstantBefore(a: Instant, b: Instant) {
    Before(a.date, b.date) || (a.date == b.date && a.msOfDay < b.msOfDay)
  }

  // ---------------------------------------------------------------------------
  // Month table, year list, weekdays, holidays (dateUtils.ts)
  // ---------------------------------------------------------------------------

  datatype MonthInfo = MonthInfo(month: int, monthName: string, monthShortName: string, daysInMonth: int)

  const MonthNames: seq<string> := [
    "Январь", "Февраль", "Март", "Апрель", "Май", "Июнь",
    "Июль", "Август", "Сентябрь", "Октябрь", "Ноябрь", "Декабрь"
  ]

  const MonthShortNames: seq<string> := [
    "янв", "фев", "мар", "апр", "май", "июн", "июл", "авг", "сен", "окт", "ноя", "дек"
  ]

  /** Month lengths of a common year; February is adjusted per year. */
  const CommonMonthLengths: seq<int> := [31, 28, 31, 30, 31, 30, 31, 31, 30, 31, 30, 31]

  /** `getMonthsWithDays`: the twelve months of `year`, February by the Gregorian rule. */
  function MonthsWithDays(year: int): (r: seq<MonthInfo>)
    ensures |r| == 12
    ensures forall i :: 0 <= i < 12 ==> r[i].month == i + 1 && r[i].monthName == MonthNames[i]
    ensures forall i :: 0 <= i < 12 && i != 1 ==> r[i].daysInMonth == CommonMonthLengths[i]
    ensures r[1].daysInMonth == (if IsLeapYear(year) then 29 else 28)
  {
    seq(12, i requires 0 <= i < 12 =>
      MonthInfo(i + 1, MonthNames[i], MonthShortNames[i], if i == 1 then (if IsLeapYear(year) then 29 else 28) else CommonMonthLengths[i]))
  }

  function TotalDays(ms: seq<MonthInfo>): int {
    if |ms| == 0 then 0 else ms[0].daysInMonth + TotalDays(ms[1..])
  }

  /** The month table describes the whole year: its lengths add up to 365 or 366. */
  lemma MonthsWithDaysCoverYear(year: int)
    ensures TotalDays(MonthsWithDays(year)) == YearLength(year)
    ensures forall i :: 0 <= i < 12 ==> MonthsWithDays(year)[i].daysInMonth == DaysInMonth(year, i + 1)
  {
    var ms := MonthsWithDays(year);
    assert ms[12..] == [];
    assert TotalDays(ms[11..]) == 31 by { assert ms[11..][1..] == ms[12..]; }
    assert TotalDays(ms[10..]) == 61 by { assert ms[10..][1..] == ms[11..]; }
    assert TotalDays(ms[9..]) == 92 by { assert ms[9..][1..] == ms[10..]; }
    assert TotalDays(ms[8..]) == 122 by { assert ms[8..][1..] == ms[9..]; }
    assert TotalDays(ms[7..]) == 153 by { assert ms[7..][1..] == ms[8..]; }
    assert TotalDays(ms[6..]) == 184 by { assert ms[6..][1..] == ms[7..]; }
    assert TotalDays(ms[5..]) == 214 by { assert ms[5..][1..] == ms[6..]; }
    assert TotalDays(ms[4..]) == 245 by { assert ms[4..][1..] == ms[5..]; }
    assert TotalDays(ms[3..]) == 275 by { assert ms[3..][1..] == ms[4..]; }
    assert TotalDays(ms[2..]) == 306 by { assert ms[2..][1..] == ms[3..]; }
    assert TotalDays(ms[1..]) == 306 + ms[1].daysInMonth by { assert ms[1..][1..] == ms[2..]; }
    assert ms[0..] == ms;
    assert TotalDays(ms[0..]) == 337 + ms[1].daysInMonth by { assert ms[0..][1..] == ms[1..]; }
  }

  /** `getYearsList(currentYear, count = 3)`: `count` consecutive years from `currentYear`. */
  function YearsList(currentYear: int, count: Option<int>): (r: seq<int>)
    ensures |r| == MaxInt(0, count.GetOr(3))
    ensures forall i :: 0 <= i < |r| ==> r[i] == currentYear + i
  {
    var n := MaxInt(0, count.GetOr(3));
    seq(n, i => currentYear + i)
  }

  /** `getDay()`: 0 is Sunday, 6 is Saturday; 1970-01-01 was a Thursday. */
  function DayOfWeek(d: Date): (w: int)
    ensures 0 <= w < 7
  {
    (DayNumber(d) + 4) % 7
  }

  /** The weekday advances by one each day and wraps after Saturday. */
  lemma DayOfWeekNextDay(d: Date)
    ensures DayOfWeek(NextDay(d)) == (DayOfWeek(d) + 1) % 7
  {
    var next := NextDay(d);
    ShiftByDay(DayNumber(d) + 4, DayNumber(next) + 4);
  }

  lemma ShiftByDay(x: int, y: int)
    requires y == x + 1
    ensures y % 7 == (x % 7 + 1) % 7
  {
  }

  /** `isWeekend`: Saturday or Sunday. */
  predicate IsWeekend(d: Date) {
    var w := DayOfWeek(d);
    w == 0 || w == 6
  }

  /** The weekend pattern repeats every seven days. */
  lemma WeekendIsWeekly(d: Date)
    ensures IsWeekend(AddDays(d, 7)) == IsWeekend(d)
  {
    var later := AddDays(d, 7);
    ShiftByWeek(DayNumber(d) + 4, DayNumber(later) + 4);
    assert DayOfWeek(later) == DayOfWeek(d);
  }

  lemma ShiftByWeek(x: int, y: int)
    requires y == x + 7
    ensures y % 7 == x % 7
  {
  }

  datatype DayType = Weekend | Weekday | Holiday

  /** `getDayType`: the holiday branch is commented out in the source, so it never answers `Holiday`. */
  function GetDayType(d: Date): (t: DayType)
    ensures t != Holiday
    ensures t == Weekend <==> IsWeekend(d)
  {
    if IsWeekend(d) then Weekend else Weekday
  }

  /**
   * The full year the `Date(year, month, day)` constructor uses: a year from
   * 0 to 99 stands for 1900 to 1999 (the `Date ( ...values )` constructor,
   * ECMA-262 section 21.4.2.1).
   */
  function MakeFullYear(year: int): int {
    if 0 <= year <= 99 then 1900 + year else year
  }

  /** A two-digit year asks for the holidays of the twentieth century. */
  lemma HolidaysOfTwoDigitYear()
    ensures Holidays(50)[0] == CalendarDate(1950, 1, 1)
    ensures Holidays(2025)[0] == CalendarDate(2025, 1, 1)
  {
  }

  /** `getHolidays`: the thirteen fixed public holidays of `year`, as calendar days. */
  function Holidays(year: int): (r: seq<Date>)
    ensures |r| == 13
    ensures !(0 <= year <= 99) ==> forall i :: 0 <= i < 13 ==> r[i].year == year
    ensures 0 <= year <= 99 ==> forall i :: 0 <= i < 13 ==> r[i].year == 1900 + year
    ensures r[0].month == 1 && r[0].day == 1
    ensures forall i :: 0 <= i < 12 ==> Before(r[i], r[i + 1])
  {
    var y := MakeFullYear(year);
    [ CalendarDate(y, 1, 1), CalendarDate(y, 1, 2), CalendarDate(y, 1, 3),
      CalendarDate(y, 1, 4), CalendarDate(y, 1, 5), CalendarDate(y, 1, 6),
      CalendarDate(y, 1, 7), CalendarDate(y, 2, 23), CalendarDate(y, 3, 8),
      CalendarDate(y, 5, 1), CalendarDate(y, 5, 9), CalendarDate(y, 6, 12),
      CalendarDate(y, 11, 4) ]
  }

  // ---------------------------------------------------------------------------
  // The two leap-year rules
  // ---------------------------------------------------------------------------

  /** The rules differ exactly on century years not divisible by 400. */
  lemma LeapRulesDifferOnlyOnCenturies(year: int)
    ensures IsLeapYear(year) != IsLeapYearDiv4(year) <==> year % 100 == 0 && year % 400 != 0
  {
    if year % 100 == 0 {
      assert year % 4 == 0 by {
        assert year == 100 * (year / 100);
        assert year == 4 * (25 * (year / 100));
      }
    }
    if year % 400 == 0 {
      assert year % 4 == 0 by {
        assert year == 4 * (100 * (year / 400));
      }
    }
  }

  /** Between 1901 and 2099 the simplified rule is exact; 1900 and 2100 break it, 2000 does not. */
  lemma LeapRulesAgreeThisCentury(year: int)
    requires 1901 <= year <= 2099
    ensures IsLeapYear(year) == IsLeapYearDiv4(year)
  {
    LeapRulesDifferOnlyOnCenturies(year);
    if year % 100 == 0 {
      assert year == 2000;
    }
  }

  lemma LeapYearExamples()
    ensures IsLeapYear(2000) && IsLeapYearDiv4(2000)
    ensures !IsLeapYear(1900) && IsLeapYearDiv4(1900)
    ensures !IsLeapYear(2100) && IsLeapYearDiv4(2100)
    ensures IsLeapYear(2024) && !IsLeapYear(2025)
  {
  }
}
