/**
 * The month table and the visible month range of the vacation grid
 * (src/components/EmployeeTable.tsx and its successor
 * src/components/employees/EmployeeTable.tsx, which repeat the same helper
 * and handlers). Both copies of `getMonthsWithDays` decide February by
 * `year % 4 === 0`, not by the Gregorian rule of src/lib/dateUtils.ts.
 */
module MonthRange {
  import opened Wrappers
  import opened Calendar

  datatype TableMonth = TableMonth(month: int, monthName: string, daysInMonth: int)

  /** The grid's `getMonthsWithDays(year)`. */
  function TableMonthsWithDays(year: int): (r: seq<TableMonth>)
    ensures |r| == 12
    ensures forall i :: 0 <= i < 12 ==> r[i].month == i + 1 && r[i].monthName == MonthNames[i]
    ensures forall i :: 0 <= i < 12 && i != 1 ==> r[i].daysInMonth == CommonMonthLengths[i]
    ensures r[1].daysInMonth == (if year % 4 == 0 then 29 else 28)
  {
    seq(12, i requires 0 <= i < 12 =>
      TableMonth(i + 1, MonthNames[i], if i == 1 then (if IsLeapYearDiv4(year) then 29 else 28) else CommonMonthLengths[i]))
  }

  /**
   * The grid's table agrees month by month with the Gregorian one of
   * `MonthsWithDays` except in century years not divisible by 400, where
   * the grid shows a 29th of February that does not exist.
   */
  lemma TableMonthsAgreeWithCalendar(year: int)
    ensures !(year % 100 == 0 && year % 400 != 0) ==>
      forall i :: 0 <= i < 12 ==> TableMonthsWithDays(year)[i].daysInMonth == MonthsWithDays(year)[i].daysInMonth
    ensures year % 100 == 0 && year % 400 != 0 ==>
      TableMonthsWithDays(year)[1].daysInMonth == 29 && MonthsWithDays(year)[1].daysInMonth == 28
  {
    LeapRulesDifferOnlyOnCenturies(year);
  }

  lemma TableMonths2100()
    ensures TableMonthsWithDays(2100)[1].daysInMonth == 29 && DaysInMonth(2100, 2) == 28
  {
    TableMonthsAgreeWithCalendar(2100);
  }

  /** `yearMonths.filter(m => m.month >= startMonth && m.month <= endMonth)`. */
  function VisibleMonths(ms: seq<TableMonth>, startMonth: int, endMonth: int): (r: seq<TableMonth>)
    ensures |r| <= |ms|
    ensures forall i :: 0 <= i < |r| ==> startMonth <= r[i].month <= endMonth && r[i] in ms
    ensures forall m :: m in ms && startMonth <= m.month <= endMonth ==> m in r
  {
    if |ms| == 0 then []
    else
      var rest := VisibleMonths(ms[1..], startMonth, endMonth);
      if startMonth <= ms[0].month <= endMonth then [ms[0]] + rest else rest
  }

  /** The filter keeps the original order: it distributes over concatenation. */
  lemma {:induction false} VisibleMonthsConcat(a: seq<TableMonth>, b: seq<TableMonth>, s: int, e: int)
    ensures VisibleMonths(a + b, s, e) == VisibleMonths(a, s, e) + VisibleMonths(b, s, e)
  {
    if |a| > 0 {
      assert (a + b)[1..] == a[1..] + b;
      VisibleMonthsConcat(a[1..], b, s, e);
    } else {
      assert a + b == b;
    }
  }

  /** The visible part of the table suffix that starts at index `k`. */
  lemma {:induction false} VisibleSuffix(ms: seq<TableMonth>, k: nat, s: int, e: int)
    requires k <= |ms| && forall i :: 0 <= i < |ms| ==> ms[i].month == i + 1
    ensures var r := VisibleMonths(ms[k..], s, e);
      && |r| == MaxInt(0, MinInt(e, |ms|) - MaxInt(s, k + 1) + 1)
      && forall i :: 0 <= i < |r| ==> r[i].month == MaxInt(s, k + 1) + i
    decreases |ms| - k
  {
    if k < |ms| {
      VisibleSuffix(ms, k + 1, s, e);
      assert ms[k..][1..] == ms[k + 1..];
    }
  }

  /**
   * On the twelve-month table the visible months are exactly the months
   * from `startMonth` to `endMonth` that exist, in calendar order.
   */
  lemma VisibleMonthsOfTable(year: int, startMonth: int, endMonth: int)
    ensures var r := VisibleMonths(TableMonthsWithDays(year), startMonth, endMonth);
      && |r| == MaxInt(0, MinInt(endMonth, 12) - MaxInt(startMonth, 1) + 1)
      && forall i :: 0 <= i < |r| ==> r[i].month == MaxInt(startMonth, 1) + i
  {
    var ms := TableMonthsWithDays(year);
    VisibleSuffix(ms, 0, startMonth, endMonth);
    assert ms[0..] == ms;
  }

  // ---------------------------------------------------------------------------
  // The start / end selectors
  // ---------------------------------------------------------------------------

  /** The `startMonth` / `endMonth` state pair; the initial range is January to December. */
  datatype Range = Range(startMonth: int, endMonth: int)

  const InitialRange := Range(1, 12)

  /** Both ends are months and the range shows at least two of them. */
  predicate ValidRange(r: Range) {
    1 <= r.startMonth < r.endMonth <= 12
  }

  /** A selector offers the twelve months of the table. */
  predicate IsMonthOption(m: int) {
    1 <= m <= 12
  }

  /** The start selector's `onChange`, as written. */
  function SetStartAsWritten(r: Range, newStart: int): (r': Range)
    ensures r'.startMonth == newStart
    ensures r'.endMonth - r'.startMonth >= 1
    ensures r.endMonth - newStart >= 1 ==> r'.endMonth == r.endMonth
  {
    if r.endMonth - newStart < 1 then Range(newStart, newStart + 1) else Range(newStart, r.endMonth)
  }

  /** The end selector's `onChange`, as written. */
  function SetEndAsWritten(r: Range, newEnd: int): (r': Range)
    ensures r'.endMonth == newEnd
    ensures r'.endMonth - r'.startMonth >= 1
    ensures newEnd - r.startMonth >= 1 ==> r'.startMonth == r.startMonth
  {
    if newEnd - r.startMonth < 1 then Range(newEnd - 1, newEnd) else Range(r.startMonth, newEnd)
  }

  /**
   * The handlers as written leave the month range: picking December as the
   * start gives end month 13 and picking January as the end gives start
   * month 0, and either way the grid shows a single month although the
   * handlers mean to keep at least two.
   */
  lemma AsWrittenShowsOneMonth(year: int)
    ensures SetStartAsWritten(InitialRange, 12) == Range(12, 13)
    ensures |VisibleMonths(TableMonthsWithDays(year), 12, 13)| == 1
    ensures SetEndAsWritten(InitialRange, 1) == Range(0, 1)
    ensures |VisibleMonths(TableMonthsWithDays(year), 0, 1)| == 1
  {
    VisibleMonthsOfTable(year, 12, 13);
    VisibleMonthsOfTable(year, 0, 1);
  }

  /** The start selector with December mapped to a November–December range. */
  function SetStart(r: Range, newStart: int): (r': Range)
    requires ValidRange(r) && IsMonthOption(newStart)
    ensures ValidRange(r')
    ensures r'.startMonth == MinInt(newStart, 11)
    ensures newStart <= 11 ==> r' == SetStartAsWritten(r, newStart)
  {
    var s := MinInt(newStart, 11);
    if r.endMonth - s < 1 then Range(s, s + 1) else Range(s, r.endMonth)
  }

  /** The end selector with January mapped to a January–February range. */
  function SetEnd(r: Range, newEnd: int): (r': Range)
    requires ValidRange(r) && IsMonthOption(newEnd)
    ensures ValidRange(r')
    ensures r'.endMonth == MaxInt(newEnd, 2)
    ensures newEnd >= 2 ==> r' == SetEndAsWritten(r, newEnd)
  {
    var e := MaxInt(newEnd, 2);
    if e - r.startMonth < 1 then Range(e - 1, e) else Range(r.startMonth, e)
  }

  /** Every valid range shows at least two months of the table. */
  lemma ValidRangeShowsTwoMonths(year: int, r: Range)
    requires ValidRange(r)
    ensures |VisibleMonths(TableMonthsWithDays(year), r.startMonth, r.endMonth)| >= 2
  {
    VisibleMonthsOfTable(year, r.startMonth, r.endMonth);
  }

  /** A choice made in one of the two selectors. */
  datatype RangeEvent = StartChosen(month: int) | EndChosen(month: int)

  predicate IsOptionEvent(ev: RangeEvent) {
    IsMonthOption(ev.month)
  }

  /** The range after a run of selector changes, with the corrected handlers. */
  function ApplyEvents(r: Range, evs: seq<RangeEvent>): (r': Range)
    requires ValidRange(r)
    requires forall i :: 0 <= i < |evs| ==> IsOptionEvent(evs[i])
    ensures ValidRange(r')
    decreases |evs|
  {
    if |evs| == 0 then r
    else
      assert IsOptionEvent(evs[0]);
      var next := match evs[0]
        case StartChosen(m) => SetStart(r, m)
        case EndChosen(m) => SetEnd(r, m);
      ApplyEvents(next, evs[1..])
  }

  /** Whatever the user picks, the corrected grid shows at least two months. */
  lemma CorrectedHandlersKeepTwoMonths(year: int, evs: seq<RangeEvent>)
    requires forall i :: 0 <= i < |evs| ==> IsOptionEvent(evs[i])
    ensures var r := ApplyEvents(InitialRange, evs);
      |VisibleMonths(TableMonthsWithDays(year), r.startMonth, r.endMonth)| >= 2
  {
    ValidRangeShowsTwoMonths(year, ApplyEvents(InitialRange, evs));
  }
}
