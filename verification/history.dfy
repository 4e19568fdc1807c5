/**
 * The position-history helpers of src/app/employees/page.tsx: the choice
 * of a Russian plural form, the "N лет M месяцев" duration label of a past
 * position, and the date-range label. `toLocaleDateString('ru-RU')` is a
 * parameter.
 */
module PositionHistory {
  import opened Wrappers
  import opened Calendar
  import opened Text

  // ---------------------------------------------------------------------------
  // Plural forms
  // ---------------------------------------------------------------------------

  /** `getRussianWord`'s index into the three forms. */
  function RussianPluralIndex(n: nat): (k: int)
    ensures 0 <= k <= 2
    ensures 5 <= n % 100 <= 19 ==> k == 2
  {
    var cases := [2, 0, 1, 1, 1, 2];
    if n % 100 > 4 && n % 100 < 20 then 2 else cases[if n % 10 < 5 then n % 10 else 5]
  }

  /**
   * The integer plural categories of Russian in the Unicode CLDR plural
   * rules (UTS #35 Part 3, section 5): "one" for i%10 = 1 and i%100 != 11,
   * "few" for i%10 in 2..4 and i%100 not in 12..14, "many" otherwise.
   */
  datatype PluralCategory = One | Few | Many

  function CldrRussianCategory(n: nat): PluralCategory {
    if n % 10 == 1 && n % 100 != 11 then One
    else if 2 <= n % 10 <= 4 && !(12 <= n % 100 <= 14) then Few
    else Many
  }

  /** The position of each category in a `[one, few, many]` triple of words. */
  function CategoryIndex(c: PluralCategory): int {
    match c
    case One => 0
    case Few => 1
    case Many => 2
  }

  lemma LastDigitOfLastTwo(n: nat)
    ensures (n % 100) % 10 == n % 10
  {
    var q := n / 100;
    var r := n % 100;
    assert r == 10 * (r / 10) + r % 10;
    assert n == 10 * (10 * q + r / 10) + r % 10;
    ModTenUnique(n, 10 * q + r / 10, r % 10);
  }

  lemma ModTenUnique(n: int, a: int, b: int)
    requires n == 10 * a + b && 0 <= b < 10
    ensures n % 10 == b
  {
  }

  /** The source's table picks the CLDR category for every non-negative integer. */
  lemma RussianPluralMatchesCldr(n: nat)
    ensures RussianPluralIndex(n) == CategoryIndex(CldrRussianCategory(n))
  {
    LastDigitOfLastTwo(n);
  }

  lemma RussianPluralExamples()
    ensures RussianWord(1, YearWords) == "год" && RussianWord(3, YearWords) == "года"
    ensures RussianWord(11, YearWords) == "лет" && RussianWord(21, YearWords) == "год"
    ensures RussianWord(5, MonthWords) == "месяцев" && RussianWord(22, MonthWords) == "месяца"
  {
  }

  const YearWords: seq<string> := ["год", "года", "лет"]
  const MonthWords: seq<string> := ["месяц", "месяца", "месяцев"]

  /** `getRussianWord(n, words)`. */
  function RussianWord(n: nat, words: seq<string>): string
    requires |words| == 3
  {
    words[RussianPluralIndex(n)]
  }

  // ---------------------------------------------------------------------------
  // Duration labels
  // ---------------------------------------------------------------------------

  function YearsPart(n: nat): string {
    NatToString(n) + " " + RussianWord(n, YearWords)
  }

  function MonthsPart(n: nat): string {
    NatToString(n) + " " + RussianWord(n, MonthWords)
  }

  /** The label body: the years part if positive, the months part if positive, trimmed. */
  function RenderDuration(years: int, months: int): string {
    var y := if years > 0 then IntToString(years) + " " + RussianWord(years, YearWords) + " " else "";
    var m := if months > 0 then IntToString(months) + " " + RussianWord(months, MonthWords) else "";
    Trim(y + m)
  }

  lemma PartsAreClean(n: nat)
    ensures var y := YearsPart(n); |y| > 0 && !IsSpace(y[0]) && !IsSpace(y[|y| - 1])
    ensures var m := MonthsPart(n); |m| > 0 && !IsSpace(m[0]) && !IsSpace(m[|m| - 1])
  {
    var k := RussianPluralIndex(n);
    assert !IsSpace(YearWords[k][|YearWords[k]| - 1]) && !IsSpace(MonthWords[k][|MonthWords[k]| - 1]);
  }

  /**
   * Which parts a label shows: the years part exactly when the year
   * difference is positive, the months part exactly when the month
   * difference is positive, one blank between them, nothing else.
   */
  lemma RenderDurationShape(years: int, months: int)
    ensures years > 0 && months > 0 ==> RenderDuration(years, months) == YearsPart(years) + " " + MonthsPart(months)
    ensures years > 0 && months <= 0 ==> RenderDuration(years, months) == YearsPart(years)
    ensures years <= 0 && months > 0 ==> RenderDuration(years, months) == MonthsPart(months)
    ensures years <= 0 && months <= 0 ==> RenderDuration(years, months) == ""
  {
    if years > 0 {
      PartsAreClean(years);
      if months > 0 {
        PartsAreClean(months);
        var s := YearsPart(years) + " " + MonthsPart(months);
        assert IntToString(years) + " " + RussianWord(years, YearWords) + " " + MonthsPart(months) == s;
        TrimClean(s);
      } else {
        assert IntToString(years) + " " + RussianWord(years, YearWords) + " " + "" == YearsPart(years) + " ";
        TrimTrailingBlank(YearsPart(years));
      }
    } else if months > 0 {
      PartsAreClean(months);
      assert "" + (IntToString(months) + " " + RussianWord(months, MonthWords)) == MonthsPart(months);
      TrimClean(MonthsPart(months));
    }
  }

  /**
   * `calculateDuration(from, to)` as written: the differences of the year
   * fields and of the month fields, each shown only when positive, so a
   * negative month difference is dropped rather than borrowed from the
   * years.
   */
  function CalculateDuration(from: Date, to: Option<Date>): (r: string)
    ensures to.None? ==> r == "по настоящее время"
    ensures to.Some? ==>
      var years, months := to.value.year - from.year, to.value.month - from.month;
      && (years > 0 && months > 0 ==> r == YearsPart(years) + " " + MonthsPart(months))
      && (years > 0 && months <= 0 ==> r == YearsPart(years))
      && (years <= 0 && months > 0 ==> r == MonthsPart(months))
      && (years <= 0 && months <= 0 ==> r == "")
  {
    if to.None? then "по настоящее время"
    else
      RenderDurationShape(to.value.year - from.year, to.value.month - from.month);
      RenderDuration(to.value.year - from.year, to.value.month - from.month)
  }

  /** The whole months between the two month fields. */
  function MonthsBetween(from: Date, to: Date): int {
    (to.year - from.year) * 12 + (to.month - from.month)
  }

  /** The label with the month difference borrowed from the years: whole years, then the remaining months. */
  function CalculateDurationCorrected(from: Date, to: Option<Date>): (r: string)
    ensures to.None? ==> r == "по настоящее время"
  {
    if to.None? then "по настоящее время"
    else
      var total := MonthsBetween(from, to.value);
      if total <= 0 then "" else RenderDuration(total / 12, total % 12)
  }

  lemma DivModTwelve(total: int, y: int, m: int)
    requires total == y * 12 + m && 0 <= m < 12
    ensures total / 12 == y && total % 12 == m
  {
  }

  /** Whenever no borrowing is needed the corrected label is the label as written. */
  lemma CorrectedDurationAgrees(from: Date, to: Date)
    requires to.year >= from.year && to.month >= from.month
    ensures CalculateDurationCorrected(from, Some(to)) == CalculateDuration(from, Some(to))
  {
    var total := MonthsBetween(from, to);
    DivModTwelve(total, to.year - from.year, to.month - from.month);
    RenderDurationShape(to.year - from.year, to.month - from.month);
  }

  /** With a negative month difference the corrected label moves one year into twelve months. */
  lemma CorrectedDurationBorrows(from: Date, to: Date)
    requires to.year > from.year && to.month < from.month
    ensures CalculateDurationCorrected(from, Some(to))
            == RenderDuration(to.year - from.year - 1, to.month - from.month + 12)
  {
    var total := MonthsBetween(from, to);
    DivModTwelve(total, to.year - from.year - 1, to.month - from.month + 12);
  }

  /**
   * As written, any span of under a year that crosses a year boundary reads
   * "1 год" (November 2020 to February 2021, say, which is three months).
   */
  lemma AsWrittenDurationDropsMonths(from: Date, to: Date)
    requires to.year == from.year + 1 && to.month < from.month
    ensures 0 < MonthsBetween(from, to) < 12
    ensures CalculateDuration(from, Some(to)) == "1 год"
  {
    RenderDurationShape(1, to.month - from.month);
    assert YearsPart(1) == "1 год";
  }

  /** The corrected label of a span of under a year names its months only. */
  lemma CorrectedDurationUnderAYear(from: Date, to: Date)
    requires 0 < MonthsBetween(from, to) < 12
    ensures CalculateDurationCorrected(from, Some(to)) == MonthsPart(MonthsBetween(from, to))
  {
    var total := MonthsBetween(from, to);
    DivModTwelve(total, 0, total);
    RenderDurationShape(0, total);
  }

  // ---------------------------------------------------------------------------
  // Date-range labels
  // ---------------------------------------------------------------------------

  /** `formatDateRange(from, to)`: an open range ends in "н.в." (до настоящего времени). */
  function FormatDateRange(from: Date, to: Option<Date>, format: Date -> string): (r: string)
    ensures |r| >= |format(from)| + 3 && r[..|format(from)| + 3] == format(from) + " - "
    ensures to.None? ==> r[|format(from)| + 3..] == "н.в."
    ensures to.Some? ==> r[|format(from)| + 3..] == format(to.value)
  {
    format(from) + " - " + (if to.Some? then format(to.value) else "н.в.")
  }
}
