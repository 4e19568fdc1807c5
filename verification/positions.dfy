/**
 * Employees and their position histories (src/types/vacation.ts,
 * src/types/index.ts), the title table of additional days
 * (src/lib/common.ts, duplicated in src/lib/database.ts), and the
 * first-match lookup of the position that governs an instant
 * (`findRelevantPosition` / `findCurrentPosition`).
 */
module Positions {
  import opened Wrappers
  import opened Calendar

  /**
   * One interval of an employee's history. `toDate == None` is the open
   * interval of the current job; `additionalDaysPerYear == None` is a record
   * that does not carry the field (the older `src/types/index.ts` shape).
   */
  datatype PositionChange = PositionChange(
    fromDate: Date,
    toDate: Option<Date>,
    position: string,
    vacationDaysPerYear: real,
    additionalDaysPerYear: Option<real>)

  datatype Employee = Employee(
    id: int,
    name: string,
    position: string,
    hireDate: Date,
    vacationDaysPerYear: real,
    usedVacationDays: real,
    usedAdditionalDays: Option<real>,
    positionChanges: seq<PositionChange>)

  // ---------------------------------------------------------------------------
  // Additional days by title
  // ---------------------------------------------------------------------------

  /** `ADDITIONAL_DAYS_BY_POSITION`: additional vacation days per year by job title. */
  const AdditionalDaysTable: map<string, int> := map[
    "Начальник отдела" := 10,
    "Заместитель начальника отдела" := 9,
    "Консультант" := 8,
    "Главный специалист" := 8,
    "Старший специалист" := 7,
    "Ведущий специалист" := 6,
    "Специалист 1 категории" := 5,
    "Специалист" := 0
  ]

  /** `getAdditionalDaysByPosition`: the table value, or 0 for a title it does not list. */
  function AdditionalDaysByPosition(title: string): (r: int)
    ensures 0 <= r <= 10
    ensures title !in AdditionalDaysTable ==> r == 0
  {
    if title in AdditionalDaysTable then AdditionalDaysTable[title] else 0
  }

  /** The listed titles and their values; "Специалист" is listed with 0, the unknown-title value. */
  lemma AdditionalDaysByPositionValues()
    ensures AdditionalDaysByPosition("Начальник отдела") == 10
    ensures AdditionalDaysByPosition("Заместитель начальника отдела") == 9
    ensures AdditionalDaysByPosition("Консультант") == 8
    ensures AdditionalDaysByPosition("Главный специалист") == 8
    ensures AdditionalDaysByPosition("Старший специалист") == 7
    ensures AdditionalDaysByPosition("Ведущий специалист") == 6
    ensures AdditionalDaysByPosition("Специалист 1 категории") == 5
    ensures AdditionalDaysByPosition("Специалист") == 0 == AdditionalDaysByPosition("Стажёр")
  {
  }

  // ---------------------------------------------------------------------------
  // Which interval governs an instant
  // ---------------------------------------------------------------------------

  /**
   * `instant >= new Date(fromDate) && instant <= positionEnd`, where the end
   * is the midnight that starts `toDate` and a missing end is unbounded. An
   * instant later on the `toDate` day itself is already outside.
   */
  predicate Covers(p: PositionChange, t: Instant) {
    && !InstantBefore(t, Midnight(p.fromDate))
    && (p.toDate.None? || !InstantBefore(Midnight(p.toDate.value), t))
  }

  /** An interval whose end precedes its start (the fourth seed record) covers nothing. */
  lemma InvertedIntervalCoversNothing(p: PositionChange, t: Instant)
    requires p.toDate.Some? && Before(p.toDate.value, p.fromDate)
    ensures !Covers(p, t)
  {
    if Covers(p, t) {
      BeforeTotal(t.date, p.toDate.value);
      BeforeTotal(t.date, p.fromDate);
    }
  }

  /** An open interval covers every instant from its start on. */
  lemma OpenIntervalCoversFromStart(p: PositionChange, t: Instant)
    requires p.toDate.None? && NotAfter(p.fromDate, t.date)
    ensures Covers(p, t)
  {
  }

  /**
   * `employee.positionChanges.find(...)`: the first interval, in stored
   * order, that covers `t`. Overlapping intervals are resolved in favour of
   * the earlier record.
   */
  function FindPosition(ps: seq<PositionChange>, t: Instant): (r: Option<PositionChange>)
    ensures r.None? <==> forall i :: 0 <= i < |ps| ==> !Covers(ps[i], t)
    ensures r.Some? ==> exists i :: 0 <= i < |ps| && ps[i] == r.value && Covers(ps[i], t)
                                   && forall j :: 0 <= j < i ==> !Covers(ps[j], t)
  {
    if |ps| == 0 then None
    else if Covers(ps[0], t) then Some(ps[0])
    else
      var r := FindPosition(ps[1..], t);
      assert r.Some? ==> exists i :: 0 < i < |ps| && ps[i] == r.value && Covers(ps[i], t)
                                     && forall j :: 0 <= j < i ==> !Covers(ps[j], t) by {
        if r.Some? {
          var k :| 0 <= k < |ps| - 1 && ps[1..][k] == r.value && Covers(ps[1..][k], t)
                   && forall j :: 0 <= j < k ==> !Covers(ps[1..][j], t);
          assert forall j :: 1 <= j < k + 1 ==> !Covers(ps[j], t) by {
            forall j | 1 <= j < k + 1 ensures !Covers(ps[j], t) {
              assert ps[j] == ps[1..][j - 1];
            }
          }
        }
      }
      r
  }

  /**
   * `findRelevantPosition(employee, date)`, the `for ... of` loop of the
   * exact calculator: the same first match as `FindPosition`.
   */
  method FindRelevantPosition(ps: seq<PositionChange>, t: Instant) returns (r: Option<PositionChange>)
    ensures r.None? <==> forall i :: 0 <= i < |ps| ==> !Covers(ps[i], t)
    ensures r.Some? ==> exists i :: 0 <= i < |ps| && ps[i] == r.value && Covers(ps[i], t)
                                   && forall j :: 0 <= j < i ==> !Covers(ps[j], t)
  {
    var i := 0;
    while i < |ps|
      invariant 0 <= i <= |ps|
      invariant forall j :: 0 <= j < i ==> !Covers(ps[j], t)
    {
      if Covers(ps[i], t) {
        return Some(ps[i]);
      }
      i := i + 1;
    }
    return None;
  }

  /** The position that covers `now` (`findCurrentPosition`). */
  function CurrentPosition(e: Employee, now: Instant): Option<PositionChange> {
    FindPosition(e.positionChanges, now)
  }

  // ---------------------------------------------------------------------------
  // The seed history of employee 1
  // ---------------------------------------------------------------------------

  /** The five position records of the first seed employee. */
  const SeedHistory: seq<PositionChange> := [
    PositionChange(CalendarDate(2015, 5, 15), Some(CalendarDate(2017, 1, 31)), "Ведущий специалист", 28.0, Some(6.0)),
    PositionChange(CalendarDate(2017, 2, 1), Some(CalendarDate(2017, 11, 12)), "Старший специалист", 28.0, Some(7.0)),
    PositionChange(CalendarDate(2017, 11, 13), Some(CalendarDate(2022, 11, 12)), "Главный специалист", 28.0, Some(8.0)),
    PositionChange(CalendarDate(2022, 11, 13), Some(CalendarDate(2022, 3, 2)), "Консультант", 28.0, Some(8.0)),
    PositionChange(CalendarDate(2022, 3, 3), None, "Заместитель начальника отдела", 28.0, Some(9.0))
  ]

  /**
   * In the seed history the inverted "Консультант" record never applies, and
   * between 2022-03-03 and 2022-11-12 the earlier "Главный специалист"
   * record wins over the overlapping open one.
   */
  lemma SeedHistoryLookup(t: Instant)
    requires NotAfter(CalendarDate(2022, 3, 3), t.date) && Before(t.date, CalendarDate(2022, 11, 12))
    ensures FindPosition(SeedHistory, t) == Some(SeedHistory[2])
    ensures forall u :: !Covers(SeedHistory[3], u)
  {
    forall u ensures !Covers(SeedHistory[3], u) {
      InvertedIntervalCoversNothing(SeedHistory[3], u);
    }
    assert !Covers(SeedHistory[0], t) && !Covers(SeedHistory[1], t) && Covers(SeedHistory[2], t);
  }
}
