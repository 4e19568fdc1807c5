/**
 * The drag selection of vacation days in the grid of
 * src/components/employees/EmployeeTable.tsx, written as a pure reducer over
 * the three pieces of React state (`selectionStart`, `selectionEnd`,
 * `selectedDatesByEmployee`). The current year (`new Date().getFullYear()`)
 * is a parameter; popovers and rendering are not modelled.
 */
module DragSelection {
  import opened Wrappers
  import opened Calendar
  import opened Positions
  import opened Accrual

  /** `EmployeeWithVacation` of src/types/vacation.ts: a record and its computed summary. */
  datatype EmployeeWithVacation = EmployeeWithVacation(employee: Employee, vacation: VacationSummary)

  datatype Allowance = Allowance(available: real, additional: real)

  /** `positionChanges?.at(-1)?.additionalDaysPerYear ?? 0`. */
  function LastAdditionalDays(ps: seq<PositionChange>): real {
    if |ps| == 0 then 0.0 else ps[|ps| - 1].additionalDaysPerYear.GetOr(0.0)
  }

  /**
   * `calculateAvailableDays(employee, date)`: the computed balances, plus one
   * more year's allotment when the date lies in a later year than the
   * current one.
   */
  function CalculateAvailableDays(ev: EmployeeWithVacation, date: Date, currentYear: int): (r: Allowance)
    ensures date.year <= currentYear ==>
      r == Allowance(ev.vacation.availableDays, ev.vacation.availableAdditionalDays)
  {
    var available := ev.vacation.availableDays;
    var additional := ev.vacation.availableAdditionalDays;
    if date.year > currentYear then
      Allowance(available + ev.employee.vacationDaysPerYear, additional + LastAdditionalDays(ev.employee.positionChanges))
    else Allowance(available, additional)
  }

  /** How many days one employee may select for a date: `available + additional`. */
  function Limit(ev: EmployeeWithVacation, date: Date, currentYear: int): real {
    var a := CalculateAvailableDays(ev, date, currentYear);
    a.available + a.additional
  }

  /**
   * Within the current year and earlier the limit is the computed balance;
   * any later year adds exactly one yearly allotment, the same for every
   * later date.
   */
  lemma FutureYearAddsOneAllotment(ev: EmployeeWithVacation, d1: Date, d2: Date, currentYear: int)
    requires d1.year <= currentYear < d2.year
    ensures Limit(ev, d1, currentYear) == ev.vacation.availableDays + ev.vacation.availableAdditionalDays
    ensures Limit(ev, d2, currentYear) - Limit(ev, d1, currentYear)
            == ev.employee.vacationDaysPerYear + LastAdditionalDays(ev.employee.positionChanges)
  {
  }

  // ---------------------------------------------------------------------------
  // Spans of days
  // ---------------------------------------------------------------------------

  /** `start < end ? 1 : -1`. */
  function Direction(a: Date, b: Date): int {
    if Before(a, b) then 1 else -1
  }

  /**
   * The `range` the mouse-enter handler builds: `dayCount` dates stepping
   * one day at a time from `a` in the direction of `b`.
   */
  function Span(a: Date, b: Date): (r: seq<Date>)
    ensures |r| == Abs(DayNumber(b) - DayNumber(a)) + 1
    ensures r[0] == a && r[|r| - 1] == b
    ensures forall i :: 0 <= i < |r| ==> DayNumber(r[i]) == DayNumber(a) + (if Before(a, b) then i else -i)
  {
    var n := Abs(DayNumber(b) - DayNumber(a)) + 1;
    SpanEnds(a, b);
    seq(n, i requires 0 <= i < n => SpanDay(a, b, i))
  }

  /** The `i`-th day of the span: `start` moved by `i * increment` days. */
  function SpanDay(a: Date, b: Date, i: int): (d: Date)
    ensures DayNumber(d) == DayNumber(a) + (if Before(a, b) then i else -i)
  {
    AddDays(a, Offset(i, Direction(a, b)))
  }

  /** `i * increment` for an increment of plus or minus one. */
  function Offset(i: int, inc: int): (k: int)
    requires inc == 1 || inc == -1
    ensures k == if inc == 1 then i else -i
  {
    i * inc
  }

  /** The span's first day is `a` and its last day is `b`. */
  lemma SpanEnds(a: Date, b: Date)
    ensures SpanDay(a, b, 0) == a
    ensures SpanDay(a, b, Abs(DayNumber(b) - DayNumber(a))) == b
  {
    BeforeIffDayNumber(a, b);
    DayNumberInjective(SpanDay(a, b, 0), a);
    DayNumberInjective(SpanDay(a, b, Abs(DayNumber(b) - DayNumber(a))), b);
  }

  /** Day `i` of the span from `b` to `a` is day `n - i` of the span from `a` to `b`. */
  lemma SpanDayReverse(a: Date, b: Date, i: int)
    requires 0 <= i <= Abs(DayNumber(b) - DayNumber(a))
    ensures SpanDay(b, a, i) == SpanDay(a, b, Abs(DayNumber(b) - DayNumber(a)) - i)
  {
    BeforeIffDayNumber(a, b);
    BeforeIffDayNumber(b, a);
    DayNumberInjective(SpanDay(b, a, i), SpanDay(a, b, Abs(DayNumber(b) - DayNumber(a)) - i));
  }

  lemma SpanSingle(d: Date)
    ensures Span(d, d) == [d]
  {
  }

  /** Dragging back from `b` to `a` covers the same days in the opposite order. */
  lemma SpanReverse(a: Date, b: Date)
    ensures |Span(b, a)| == |Span(a, b)|
    ensures forall i :: 0 <= i < |Span(a, b)| ==> Span(b, a)[i] == Span(a, b)[|Span(a, b)| - 1 - i]
  {
    var f := Span(a, b);
    var g := Span(b, a);
    var n := Abs(DayNumber(b) - DayNumber(a));
    assert Abs(DayNumber(a) - DayNumber(b)) == n;
    assert |f| == n + 1 && |g| == n + 1;
    forall i | 0 <= i <= n ensures g[i] == f[n - i] {
      SpanDayReverse(a, b, i);
      SpanAt(b, a, i);
      SpanAt(a, b, n - i);
    }
  }

  lemma SpanAt(a: Date, b: Date, i: int)
    requires 0 <= i <= Abs(DayNumber(b) - DayNumber(a))
    ensures Span(a, b)[i] == SpanDay(a, b, i)
  {
  }

  /** The days of a span are pairwise different. */
  lemma SpanDistinct(a: Date, b: Date)
    ensures forall i, j :: 0 <= i < j < |Span(a, b)| ==> Span(a, b)[i] != Span(a, b)[j]
  {
    var r := Span(a, b);
    forall i, j | 0 <= i < j < |r| ensures r[i] != r[j] {
      assert DayNumber(r[i]) != DayNumber(r[j]) by {
        if Before(a, b) {
          assert DayNumber(r[j]) - DayNumber(r[i]) == j - i;
        } else {
          assert DayNumber(r[i]) - DayNumber(r[j]) == j - i;
        }
      }
    }
  }

  // ---------------------------------------------------------------------------
  // The reducer
  // ---------------------------------------------------------------------------

  datatype Anchor = Anchor(employeeId: int, date: Date)

  datatype Selection = Selection(start: Option<Anchor>, end: Option<Anchor>, selected: map<int, seq<Date>>)

  const NoSelection := Selection(None, None, map[])

  /** `selectedDatesByEmployee[id] || []`. */
  function SelectedOf(s: Selection, id: int): seq<Date> {
    if id in s.selected then s.selected[id] else []
  }

  /** `handleMouseDown`: start a new drag unless the employee's selection already fills the limit. */
  function MouseDown(s: Selection, ev: EmployeeWithVacation, date: Date, currentYear: int): (r: Selection)
    ensures (|SelectedOf(s, ev.employee.id)| as real) >= Limit(ev, date, currentYear) ==> r == s
    ensures (|SelectedOf(s, ev.employee.id)| as real) < Limit(ev, date, currentYear) ==>
      && r.start == r.end == Some(Anchor(ev.employee.id, date))
      && SelectedOf(r, ev.employee.id) == [date]
      && r.selected.Keys == s.selected.Keys + {ev.employee.id}
      && forall k :: k != ev.employee.id ==> SelectedOf(r, k) == SelectedOf(s, k)
  {
    var id := ev.employee.id;
    if (|SelectedOf(s, id)| as real) < Limit(ev, date, currentYear) then
      var anchor := Anchor(id, date);
      Selection(Some(anchor), Some(anchor), s.selected[id := [date]])
    else s
  }

  /**
   * `handleMouseEnter`: while dragging over the same employee, replace the
   * selection with the span from the drag's start to the hovered date,
   * unless that span is longer than the limit.
   */
  function MouseEnter(s: Selection, ev: EmployeeWithVacation, date: Date, currentYear: int): (r: Selection)
    ensures s.start.None? || s.start.value.employeeId != ev.employee.id ==> r == s
    ensures r.start == s.start
    ensures r != s ==>
      && s.start.Some? && r.end == Some(Anchor(ev.employee.id, date))
      && SelectedOf(r, ev.employee.id) == Span(s.start.value.date, date)
      && (|SelectedOf(r, ev.employee.id)| as real) <= Limit(ev, date, currentYear)
      && forall k :: k != ev.employee.id ==> SelectedOf(r, k) == SelectedOf(s, k)
  {
    var id := ev.employee.id;
    if s.start.None? || s.start.value.employeeId != id then s
    else
      var start := s.start.value.date;
      var dayCount := Abs(DayNumber(date) - DayNumber(start)) + 1;
      if (dayCount as real) > Limit(ev, date, currentYear) then s
      else Selection(s.start, Some(Anchor(id, date)), s.selected[id := Span(start, date)])
  }

  /** Mouse-enter during a drag over the same employee is refused exactly when the span exceeds the limit. */
  lemma MouseEnterRefusesLongSpans(s: Selection, ev: EmployeeWithVacation, date: Date, currentYear: int)
    requires s.start.Some? && s.start.value.employeeId == ev.employee.id
    ensures var n := Abs(DayNumber(date) - DayNumber(s.start.value.date)) + 1;
      && ((n as real) > Limit(ev, date, currentYear) ==> MouseEnter(s, ev, date, currentYear) == s)
      && ((n as real) <= Limit(ev, date, currentYear) ==>
            && SelectedOf(MouseEnter(s, ev, date, currentYear), ev.employee.id) == Span(s.start.value.date, date)
            && MouseEnter(s, ev, date, currentYear).end == Some(Anchor(ev.employee.id, date)))
  {
  }

  /** `handleMouseUp`: the drag ends; the selected days stay. */
  function MouseUp(s: Selection): (r: Selection)
    ensures r.start.None? && r.end.None?
    ensures forall k :: SelectedOf(r, k) == SelectedOf(s, k)
  {
    Selection(None, None, s.selected)
  }

  datatype Event =
    | Down(ev: EmployeeWithVacation, date: Date)
    | Enter(ev: EmployeeWithVacation, date: Date)
    | Up

  function Step(s: Selection, e: Event, currentYear: int): Selection {
    match e
    case Down(ev, date) => MouseDown(s, ev, date, currentYear)
    case Enter(ev, date) => MouseEnter(s, ev, date, currentYear)
    case Up => MouseUp(s)
  }

  function Run(s: Selection, es: seq<Event>, currentYear: int): Selection
    decreases |es|
  {
    if |es| == 0 then s else Run(Step(s, es[0], currentYear), es[1..], currentYear)
  }

  /**
   * The state the handlers keep: a drag has both ends or neither, both on
   * one employee, and that employee's selection is the span between them.
   */
  predicate WellFormed(s: Selection) {
    && (s.start.Some? <==> s.end.Some?)
    && (s.start.Some? ==>
          && s.end.value.employeeId == s.start.value.employeeId
          && SelectedOf(s, s.start.value.employeeId) == Span(s.start.value.date, s.end.value.date))
  }

  lemma StepPreservesWellFormed(s: Selection, e: Event, currentYear: int)
    requires WellFormed(s)
    ensures WellFormed(Step(s, e, currentYear))
  {
    match e
    case Down(ev, date) => SpanSingle(date);
    case Enter(ev, date) =>
    case Up =>
  }

  /** From any well-formed state, every run of mouse events keeps the selection well formed. */
  lemma {:induction false} RunPreservesWellFormed(s: Selection, es: seq<Event>, currentYear: int)
    requires WellFormed(s)
    ensures WellFormed(Run(s, es, currentYear))
    decreases |es|
  {
    if |es| > 0 {
      StepPreservesWellFormed(s, es[0], currentYear);
      RunPreservesWellFormed(Step(s, es[0], currentYear), es[1..], currentYear);
    }
  }

  // ---------------------------------------------------------------------------
  // Days that cannot be chosen
  // ---------------------------------------------------------------------------

  /** `date < hireDate`. */
  predicate IsBeforeHire(date: Date, hire: Date) {
    Before(date, hire)
  }

  /** `date >= hireDate && date < probationEnd`, the end being six `setMonth` months after hiring. */
  predicate IsProbation(date: Date, hire: Date) {
    NotAfter(hire, date) && Before(date, AddMonths(hire, 6))
  }

  /** The cell's click guard: `!isBeforeHire && !isProbation`. */
  predicate ClickAllowed(date: Date, hire: Date) {
    !IsBeforeHire(date, hire) && !IsProbation(date, hire)
  }

  /**
   * The two locks never overlap; the hire day itself is on probation; and a
   * click is allowed exactly from the end of probation on.
   */
  lemma ProbationLocks(date: Date, hire: Date)
    ensures !(IsBeforeHire(date, hire) && IsProbation(date, hire))
    ensures IsProbation(hire, hire)
    ensures ClickAllowed(date, hire) <==> NotAfter(AddMonths(hire, 6), date)
  {
    AddMonthsIsLater(hire, 6);
    BeforeTotal(date, hire);
    BeforeTotal(date, AddMonths(hire, 6));
    if Before(date, hire) {
      BeforeTransitive(date, hire, AddMonths(hire, 6));
    }
    if Before(AddMonths(hire, 6), date) {
      BeforeTransitive(hire, AddMonths(hire, 6), date);
    }
  }

  /**
   * Only the click handler checks the locks: a mouse-down on a day before
   * hiring or in probation still starts a drag and selects that day.
   */
  lemma MouseDownIgnoresLocks(s: Selection, ev: EmployeeWithVacation, date: Date, currentYear: int)
    requires IsBeforeHire(date, ev.employee.hireDate) || IsProbation(date, ev.employee.hireDate)
    requires (|SelectedOf(s, ev.employee.id)| as real) < Limit(ev, date, currentYear)
    ensures !ClickAllowed(date, ev.employee.hireDate)
    ensures SelectedOf(MouseDown(s, ev, date, currentYear), ev.employee.id) == [date]
  {
  }

  /**
   * A selection that already fills the limit blocks every new mouse-down
   * for that employee, even on a day whose shorter selection would fit.
   */
  lemma FullSelectionBlocksMouseDown(s: Selection, ev: EmployeeWithVacation, date: Date, currentYear: int)
    requires (|SelectedOf(s, ev.employee.id)| as real) >= Limit(ev, date, currentYear)
    ensures Run(s, [Down(ev, date), Up], currentYear) == MouseUp(s)
  {
    assert [Down(ev, date), Up][1..] == [Up];
    assert [Up][1..] == [];
  }
}
