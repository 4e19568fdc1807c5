/**
 * Vacation entitlement as of a reference instant `now` (the source's
 * `new Date()`, made a parameter here).
 *
 * - Exact mode (`calculateVacationDays`, src/lib/calculations.ts): steps a
 *   date month by month from the hire date while it is not after `now`, and
 *   adds one twelfth of the yearly rate of the position covering each step.
 * - Simple mode, two fields (`calculateVacationDaysSimple`,
 *   src/lib/calculations.ts): whole months worked times the current
 *   position's monthly rate.
 * - Simple mode, five fields (`calculateVacationDaysSimple`,
 *   src/lib/utils/calculations.ts): the same base days plus additional days
 *   accrued per day worked.
 */
module Accrual {
  import opened Wrappers
  import opened Calendar
  import opened Positions

  /** `VacationCalculation` of src/types/index.ts. */
  datatype VacationCalculation = VacationCalculation(earnedDays: real, availableDays: real)

  /** `VacationCalculation` of src/types/vacation.ts. */
  datatype VacationSummary = VacationSummary(
    earnedDays: real,
    availableDays: real,
    additionalDays: real,
    availableAdditionalDays: real,
    totalAvailableDays: real)

  /** The rate used when no position covers `now`. */
  const DefaultDaysPerYear: real := 28.0

  /** `currentDate < hireDate`, with the hire date read as its midnight. */
  predicate NotYetHired(e: Employee, now: Instant) {
    InstantBefore(now, Midnight(e.hireDate))
  }

  lemma NotYetHiredIsDateBefore(e: Employee, now: Instant)
    ensures NotYetHired(e, now) <==> Before(now.date, e.hireDate)
  {
  }

  // ---------------------------------------------------------------------------
  // Months and days worked
  // ---------------------------------------------------------------------------

  /**
   * `calculateMonthsWorked`: difference of month indices, one less when the
   * end's day of month is smaller than the start's, never negative.
   */
  function MonthsWorked(start: Date, end: Date): (n: nat)
    ensures Before(end, start) ==> n == 0
  {
    BeforeByMonthIndex(end, start);
    var months := (end.year - start.year) * 12 - (start.month - 1) + (end.month - 1);
    var adjusted := if end.day < start.day then months - 1 else months;
    MaxInt(0, adjusted)
  }

  /**
   * For a start day that `setMonth` never overflows, the months worked are
   * the number of whole months that fit: `start + n months <= end` and
   * `start + (n + 1) months > end`.
   */
  lemma MonthsWorkedIsWholeMonths(start: Date, end: Date)
    requires start.day <= 28 && NotAfter(start, end)
    ensures NotAfter(AddMonths(start, MonthsWorked(start, end)), end)
    ensures Before(end, AddMonths(start, MonthsWorked(start, end) + 1))
  {
    var n := MonthsWorked(start, end);
    BeforeByMonthIndex(start, end);
    BeforeByMonthIndex(end, start);
    BeforeByMonthIndex(end, AddMonths(start, n + 1));
    BeforeByMonthIndex(end, AddMonths(start, n));
  }

  /**
   * `calculateDaysWorked`: both instants truncated to midnight, the
   * inclusive day count, never negative.
   */
  function DaysWorked(start: Date, end: Date): (n: nat)
    ensures NotAfter(start, end) ==> n >= 1 && AddDays(start, n - 1) == end
    ensures Before(end, start) ==> n == 0
  {
    BeforeIffDayNumber(end, start);
    AddDaysReaches(start, end);
    MaxInt(0, DayNumber(end) - DayNumber(start) + 1)
  }

  // ---------------------------------------------------------------------------
  // Exact mode
  // ---------------------------------------------------------------------------

  /** Step `i + 1` falls one `setMonth` after step `i`. */
  predicate IsMonthAfter(steps: seq<Date>, i: nat)
    requires i + 1 < |steps|
  {
    steps[i + 1] == AddMonths(steps[i], 1)
  }

  /** The dates `currentMonth` takes in the loop of `calculateVacationDays`. */
  function MonthSteps(step: Date, now: Instant): (steps: seq<Date>)
    ensures |steps| > 0 <==> NotAfter(step, now.date)
    ensures |steps| > 0 ==> steps[0] == step && Before(now.date, AddMonths(steps[|steps| - 1], 1))
    decreases MonthIndex(now.date) - MonthIndex(step)
  {
    if InstantBefore(now, Midnight(step)) then []
    else
      BeforeByMonthIndex(now.date, step);
      AddMonthsIsLater(step, 1);
      [step] + MonthSteps(AddMonths(step, 1), now)
  }

  /** Step `i` is not after `now`, and the step after it falls one `setMonth` later. */
  lemma {:induction false} MonthStepAt(step: Date, now: Instant, i: nat)
    requires i < |MonthSteps(step, now)|
    ensures var steps := MonthSteps(step, now);
      NotAfter(steps[i], now.date) && (i + 1 < |steps| ==> IsMonthAfter(steps, i))
    decreases i
  {
    var steps := MonthSteps(step, now);
    BeforeByMonthIndex(now.date, step);
    AddMonthsIsLater(step, 1);
    var next := AddMonths(step, 1);
    var rest := MonthSteps(next, now);
    assert steps == [step] + rest;
    if i > 0 {
      MonthStepAt(next, now, i - 1);
      assert steps[i] == rest[i - 1];
    }
  }

  /** No step is after `now`, and each step falls one `setMonth` after the previous one. */
  lemma MonthStepsChain(step: Date, now: Instant)
    ensures var steps := MonthSteps(step, now);
      forall i :: 0 <= i < |steps| ==> NotAfter(steps[i], now.date) && (i + 1 < |steps| ==> IsMonthAfter(steps, i))
  {
    var steps := MonthSteps(step, now);
    forall i | 0 <= i < |steps| ensures NotAfter(steps[i], now.date) && (i + 1 < |steps| ==> IsMonthAfter(steps, i)) {
      MonthStepAt(step, now, i);
    }
  }

  /** One step's contribution: a twelfth of the covering position's rate, or 0. */
  function MonthlyAccrual(ps: seq<PositionChange>, step: Date): real {
    match FindPosition(ps, Midnight(step))
    case Some(p) => p.vacationDaysPerYear / 12.0
    case None => 0.0
  }

  /** The days accrued over a sequence of month steps. */
  function AccruedOver(ps: seq<PositionChange>, steps: seq<Date>): real {
    if |steps| == 0 then 0.0 else MonthlyAccrual(ps, steps[0]) + AccruedOver(ps, steps[1..])
  }

  /**
   * `calculateVacationDays`: zero before the hire date; otherwise the
   * accrual over every month step from the hire date up to `now`, and the
   * unused remainder floored at zero.
   */
  method CalculateVacationDays(e: Employee, now: Instant) returns (r: VacationCalculation)
    ensures NotYetHired(e, now) ==> r == VacationCalculation(0.0, 0.0)
    ensures !NotYetHired(e, now) ==>
      && r.earnedDays == AccruedOver(e.positionChanges, MonthSteps(e.hireDate, now))
      && r.availableDays == Max(0.0, r.earnedDays - e.usedVacationDays)
    ensures r.availableDays >= 0.0
  {
    if InstantBefore(now, Midnight(e.hireDate)) {
      return VacationCalculation(0.0, 0.0);
    }
    var total := 0.0;
    var currentMonth := e.hireDate;
    while !InstantBefore(now, Midnight(currentMonth))
      invariant total + AccruedOver(e.positionChanges, MonthSteps(currentMonth, now))
                == AccruedOver(e.positionChanges, MonthSteps(e.hireDate, now))
      decreases MonthIndex(now.date) - MonthIndex(currentMonth)
    {
      BeforeByMonthIndex(now.date, currentMonth);
      AddMonthsIsLater(currentMonth, 1);
      var relevant := FindRelevantPosition(e.positionChanges, Midnight(currentMonth));
      if relevant.Some? {
        total := total + relevant.value.vacationDaysPerYear / 12.0;
      }
      currentMonth := AddMonths(currentMonth, 1);
    }
    var available := Max(0.0, total - e.usedVacationDays);
    return VacationCalculation(total, available);
  }

  /** One more share adds `x` to the product. */
  lemma ScaleSucc(n: nat, x: real)
    ensures ((n + 1) as real) * x == (n as real) * x + x
  {
  }

  /** `n` shares of `x`, added one at a time as the month loop does. */
  function Shares(n: nat, x: real): real {
    if n == 0 then 0.0 else Shares(n - 1, x) + x
  }

  /** `n * x` as the source computes it, equal to `n` shares added one at a time. */
  function Times(n: nat, x: real): (r: real)
    ensures r == Shares(n, x)
  {
    SharesIsProduct(n, x);
    (n as real) * x
  }

  /** Adding `n` equal shares is multiplying by `n`. */
  lemma {:induction false} SharesIsProduct(n: nat, x: real)
    ensures Shares(n, x) == (n as real) * x
  {
    if n > 0 {
      SharesIsProduct(n - 1, x);
      ScaleSucc(n - 1, x);
    }
  }

  lemma MonthlyAccrualBounds(ps: seq<PositionChange>, step: Date, max: real)
    requires max >= 0.0
    requires forall i :: 0 <= i < |ps| ==> 0.0 <= ps[i].vacationDaysPerYear <= max
    ensures 0.0 <= MonthlyAccrual(ps, step) <= max / 12.0
  {
    var found := FindPosition(ps, Midnight(step));
    if found.Some? {
      var i :| 0 <= i < |ps| && ps[i] == found.value;
    }
  }

  /** With rates between 0 and `max`, each step adds at most one share of `max/12`. */
  lemma {:induction false} AccruedOverBelowShares(ps: seq<PositionChange>, steps: seq<Date>, max: real)
    requires max >= 0.0
    requires forall i :: 0 <= i < |ps| ==> 0.0 <= ps[i].vacationDaysPerYear <= max
    ensures 0.0 <= AccruedOver(ps, steps) <= Shares(|steps|, max / 12.0)
  {
    if |steps| > 0 {
      AccruedOverBelowShares(ps, steps[1..], max);
      MonthlyAccrualBounds(ps, steps[0], max);
    }
  }

  /** With rates between 0 and `max`, the accrual is non-negative and at most `max/12` per step. */
  lemma AccruedOverBounds(ps: seq<PositionChange>, steps: seq<Date>, max: real)
    requires max >= 0.0
    requires forall i :: 0 <= i < |ps| ==> 0.0 <= ps[i].vacationDaysPerYear <= max
    ensures 0.0 <= AccruedOver(ps, steps) <= (|steps| as real) * (max / 12.0)
  {
    AccruedOverBelowShares(ps, steps, max);
    SharesIsProduct(|steps|, max / 12.0);
  }

  /** When one position covers every step, each step adds exactly its monthly rate. */
  lemma {:induction false} AccruedOverConstant(ps: seq<PositionChange>, steps: seq<Date>, p: PositionChange)
    requires forall i :: 0 <= i < |steps| ==> FindPosition(ps, Midnight(steps[i])) == Some(p)
    ensures AccruedOver(ps, steps) == Shares(|steps|, p.vacationDaysPerYear / 12.0)
  {
    if |steps| > 0 {
      AccruedOverConstant(ps, steps[1..], p);
    }
  }

  /** For a hire day up to the 28th, the loop runs once per whole month worked, plus the hire day itself. */
  lemma {:induction false} MonthStepsCount(step: Date, now: Instant)
    requires step.day <= 28 && NotAfter(step, now.date)
    ensures |MonthSteps(step, now)| == MonthsWorked(step, now.date) + 1
    decreases MonthIndex(now.date) - MonthIndex(step)
  {
    var next := AddMonths(step, 1);
    BeforeByMonthIndex(step, now.date);
    BeforeByMonthIndex(now.date, step);
    BeforeByMonthIndex(now.date, next);
    assert MonthSteps(step, now) == [step] + MonthSteps(next, now);
    if NotAfter(next, now.date) {
      MonthStepsCount(next, now);
    }
  }

  // ---------------------------------------------------------------------------
  // Simple mode
  // ---------------------------------------------------------------------------

  /** The yearly base rate of simple mode: the current position's, or 28. */
  function SimpleYearlyRate(e: Employee, now: Instant): real {
    match CurrentPosition(e, now)
    case Some(p) => p.vacationDaysPerYear
    case None => DefaultDaysPerYear
  }

  /** `calculateVacationDaysSimple` of src/lib/calculations.ts. */
  function CalculateVacationDaysSimple(e: Employee, now: Instant): (r: VacationCalculation)
    ensures NotYetHired(e, now) ==> r == VacationCalculation(0.0, 0.0)
    ensures r.availableDays >= 0.0
    ensures e.usedVacationDays >= 0.0 && r.earnedDays >= 0.0 ==> r.availableDays <= r.earnedDays
    ensures !NotYetHired(e, now) ==>
      r.earnedDays == Shares(MonthsWorked(e.hireDate, now.date), SimpleYearlyRate(e, now) / 12.0)
    ensures !NotYetHired(e, now) ==> r.availableDays == Max(0.0, r.earnedDays - e.usedVacationDays)
  {
    if InstantBefore(now, Midnight(e.hireDate)) then VacationCalculation(0.0, 0.0)
    else
      var monthsWorked := MonthsWorked(e.hireDate, now.date);
      var earned := Times(monthsWorked, SimpleYearlyRate(e, now) / 12.0);
      VacationCalculation(earned, Max(0.0, earned - e.usedVacationDays))
  }

  /** The additional-days rate: the current position's own value, else its title's, else 0. */
  function AdditionalYearlyRate(current: Option<PositionChange>): (rate: real)
    ensures current.None? ==> rate == 0.0
    ensures current.Some? && current.value.additionalDaysPerYear.Some? && current.value.additionalDaysPerYear.value != 0.0
            ==> rate == current.value.additionalDaysPerYear.value
    ensures current.Some? && (current.value.additionalDaysPerYear.None? || current.value.additionalDaysPerYear.value == 0.0)
            ==> rate == AdditionalDaysByPosition(current.value.position) as real
  {
    match current
    case None => 0.0
    case Some(p) =>
      if p.additionalDaysPerYear.Some? && p.additionalDaysPerYear.value != 0.0 then p.additionalDaysPerYear.value
      else AdditionalDaysByPosition(p.position) as real
  }

  /** `calculateVacationDaysSimple` of src/lib/utils/calculations.ts. */
  function CalculateVacationSummary(e: Employee, now: Instant): (r: VacationSummary)
    ensures NotYetHired(e, now) ==> r == VacationSummary(0.0, 0.0, 0.0, 0.0, 0.0)
    ensures r.availableDays >= 0.0 && r.availableAdditionalDays >= 0.0
    ensures r.totalAvailableDays == r.availableDays + r.availableAdditionalDays
    ensures !NotYetHired(e, now) ==>
      && r.earnedDays == Shares(MonthsWorked(e.hireDate, now.date), SimpleYearlyRate(e, now) / 12.0)
      && r.availableDays == Max(0.0, r.earnedDays - e.usedVacationDays)
      && r.additionalDays == Shares(DaysWorked(e.hireDate, now.date), AdditionalYearlyRate(CurrentPosition(e, now)) / 365.0)
      && r.availableAdditionalDays == Max(0.0, r.additionalDays - e.usedAdditionalDays.GetOr(0.0))
  {
    if InstantBefore(now, Midnight(e.hireDate)) then VacationSummary(0.0, 0.0, 0.0, 0.0, 0.0)
    else
      var monthsWorked := MonthsWorked(e.hireDate, now.date);
      var current := CurrentPosition(e, now);
      var earned := Times(monthsWorked, SimpleYearlyRate(e, now) / 12.0);
      var daysWorked := DaysWorked(e.hireDate, now.date);
      var additional := Times(daysWorked, AdditionalYearlyRate(current) / 365.0);
      var available := Max(0.0, earned - e.usedVacationDays);
      var availableAdditional := Max(0.0, additional - e.usedAdditionalDays.GetOr(0.0));
      VacationSummary(earned, available, additional, availableAdditional, available + availableAdditional)
  }

  /** The two revisions of the simple calculator agree on the base-day fields. */
  lemma SummaryExtendsSimple(e: Employee, now: Instant)
    ensures CalculateVacationSummary(e, now).earnedDays == CalculateVacationDaysSimple(e, now).earnedDays
    ensures CalculateVacationSummary(e, now).availableDays == CalculateVacationDaysSimple(e, now).availableDays
  {
  }

  /** The additional days are accrued per day worked, a 365th of the yearly rate each day. */
  lemma SummaryAdditionalDays(e: Employee, now: Instant)
    requires NotAfter(e.hireDate, now.date)
    ensures var r := CalculateVacationSummary(e, now);
      && r.additionalDays == Shares(DaysWorked(e.hireDate, now.date), AdditionalYearlyRate(CurrentPosition(e, now)) / 365.0)
      && r.availableAdditionalDays == Max(0.0, r.additionalDays - e.usedAdditionalDays.GetOr(0.0))
  {
  }

  // ---------------------------------------------------------------------------
  // The two modes compared
  // ---------------------------------------------------------------------------

  /**
   * For an employee with one open-ended position held since hiring and a
   * hire day up to the 28th, exact mode earns exactly one month's rate more
   * than simple mode: its loop also counts the step on the hire date itself.
   */
  lemma ExactExceedsSimpleByOneMonth(e: Employee, now: Instant, p: PositionChange)
    requires e.positionChanges == [p] && p.toDate.None? && NotAfter(p.fromDate, e.hireDate)
    requires e.hireDate.day <= 28 && !NotYetHired(e, now)
    ensures AccruedOver(e.positionChanges, MonthSteps(e.hireDate, now))
            == CalculateVacationDaysSimple(e, now).earnedDays + p.vacationDaysPerYear / 12.0
  {
    SingleOpenPositionExactEarned(e, now, p);
    SingleOpenPositionSimpleEarned(e, now, p);
  }

  /** Exact mode under a single open position: one share per whole month worked, plus the hire-date step. */
  lemma SingleOpenPositionExactEarned(e: Employee, now: Instant, p: PositionChange)
    requires e.positionChanges == [p] && p.toDate.None? && NotAfter(p.fromDate, e.hireDate)
    requires e.hireDate.day <= 28 && !NotYetHired(e, now)
    ensures AccruedOver(e.positionChanges, MonthSteps(e.hireDate, now))
            == Shares(MonthsWorked(e.hireDate, now.date), p.vacationDaysPerYear / 12.0) + p.vacationDaysPerYear / 12.0
  {
    SingleOpenPositionCoversSteps(e, now, p);
    AccruedOverConstant(e.positionChanges, MonthSteps(e.hireDate, now), p);
    MonthStepsCount(e.hireDate, now);
  }

  /** Simple mode under a single open position: one share per whole month worked. */
  lemma SingleOpenPositionSimpleEarned(e: Employee, now: Instant, p: PositionChange)
    requires e.positionChanges == [p] && p.toDate.None? && NotAfter(p.fromDate, e.hireDate)
    requires !NotYetHired(e, now)
    ensures CalculateVacationDaysSimple(e, now).earnedDays
            == Shares(MonthsWorked(e.hireDate, now.date), p.vacationDaysPerYear / 12.0)
  {
    SingleOpenPositionIsCurrent(e, now, p);
  }

  /** A single open position held since hiring is the current one at any instant after hiring. */
  lemma SingleOpenPositionIsCurrent(e: Employee, now: Instant, p: PositionChange)
    requires e.positionChanges == [p] && p.toDate.None? && NotAfter(p.fromDate, e.hireDate)
    requires !NotYetHired(e, now)
    ensures SimpleYearlyRate(e, now) == p.vacationDaysPerYear
  {
    OpenIntervalCoversFromStart(p, now);
  }

  /** A single open position held since hiring governs every month step. */
  lemma SingleOpenPositionCoversSteps(e: Employee, now: Instant, p: PositionChange)
    requires e.positionChanges == [p] && p.toDate.None? && NotAfter(p.fromDate, e.hireDate)
    ensures forall i :: 0 <= i < |MonthSteps(e.hireDate, now)| ==>
      FindPosition(e.positionChanges, Midnight(MonthSteps(e.hireDate, now)[i])) == Some(p)
  {
    var steps := MonthSteps(e.hireDate, now);
    forall i | 0 <= i < |steps| ensures FindPosition(e.positionChanges, Midnight(steps[i])) == Some(p) {
      StepsNotBeforeStart(e.hireDate, now, i);
      OpenIntervalCoversFromStart(p, Midnight(steps[i]));
    }
  }

  /** Every month step lies on or after the first one. */
  lemma {:induction false} StepsNotBeforeStart(step: Date, now: Instant, i: nat)
    requires i < |MonthSteps(step, now)|
    ensures NotAfter(step, MonthSteps(step, now)[i])
    decreases i
  {
    var steps := MonthSteps(step, now);
    if i > 0 {
      MonthStepAt(step, now, i - 1);
      StepsNotBeforeStart(step, now, i - 1);
      AddMonthsIsLater(steps[i - 1], 1);
      assert IsMonthAfter(steps, i - 1);
    }
  }

  /**
   * Ten years to the day with one 28-day position: simple mode earns 280
   * days, and exact mode one month's share more.
   */
  lemma TenYearsWithOnePosition(e: Employee, now: Instant, p: PositionChange)
    requires e.hireDate == CalendarDate(2015, 5, 15) && now.date == CalendarDate(2025, 5, 15)
    requires e.positionChanges == [p] && p.toDate.None? && p.fromDate == e.hireDate && p.vacationDaysPerYear == 28.0
    ensures CalculateVacationDaysSimple(e, now).earnedDays == 280.0
    ensures AccruedOver(e.positionChanges, MonthSteps(e.hireDate, now)) == 280.0 + 28.0 / 12.0
  {
    assert MonthsWorked(e.hireDate, now.date) == 120;
    SingleOpenPositionSimpleEarned(e, now, p);
    assert Times(120, 28.0 / 12.0) == 280.0;
    ExactExceedsSimpleByOneMonth(e, now, p);
  }
}
