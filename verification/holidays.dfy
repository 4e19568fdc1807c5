/**
 * Public-holiday membership (src/hooks/useHolidaysCheck.ts and the
 * hard-coded list of src/lib/database.ts). A date is a holiday when its
 * `${year}-MM-DD` string appears in a list of strings. The year is not
 * padded, so this is the ISO 8601 extended complete form (ISO 8601:2004,
 * section 4.1.2.2) only for four-digit years.
 */
module HolidayCheck {
  import opened Wrappers
  import opened Calendar
  import opened Text

  /** The `${year}-${MM}-${DD}` string the source builds from a date. */
  function FormatIsoDate(d: Date): (s: string)
    ensures |s| >= 7 && s[|s| - 6] == '-' && s[|s| - 3] == '-'
  {
    IntToString(d.year) + "-" + PadStart2(IntToString(d.month)) + "-" + PadStart2(IntToString(d.day))
  }

  /** The canonical year numeral `String(year)` prints: optional minus, no leading zero, no `-0`. */
  function ParseYear(s: string): Option<int> {
    if |s| > 0 && s[0] == '-' then
      if IsCanonicalNumeral(s[1..]) && s[1] != '0' then
        var magnitude: int := ParseNat(s[1..]);
        Some(-magnitude)
      else None
    else if IsCanonicalNumeral(s) then Some(ParseNat(s))
    else None
  }

  /**
   * The inverse of `FormatIsoDate`: accepts exactly the strings the source
   * can produce, and reads them as a calendar date.
   */
  function ParseIsoDate(s: string): Option<Date> {
    if |s| < 7 || s[|s| - 6] != '-' || s[|s| - 3] != '-' then None
    else ReadIsoParts(s[..|s| - 6], s[|s| - 5..|s| - 3], s[|s| - 2..])
  }

  /** Reads the year, month and day fields of a date string. */
  function ReadIsoParts(yearPart: string, mm: string, dd: string): Option<Date> {
    var year := ParseYear(yearPart);
    if year.None? || !AllDigits(mm) || !AllDigits(dd) then None
    else
      var month := ParseNat(mm);
      var day := ParseNat(dd);
      if 1 <= month <= 12 && 1 <= day <= DaysInMonth(year.value, month)
      then Some(CalendarDate(year.value, month, day))
      else None
  }

  /** How a date string splits into its fields. */
  lemma SplitIsoString(y: string, mm: string, dd: string)
    requires |mm| == 2 && |dd| == 2
    ensures var s := y + "-" + mm + "-" + dd;
      && |s| == |y| + 6 && s[|s| - 6] == '-' && s[|s| - 3] == '-'
      && s[..|s| - 6] == y && s[|s| - 5..|s| - 3] == mm && s[|s| - 2..] == dd
  {
  }

  lemma JoinIsoString(s: string)
    requires |s| >= 7 && s[|s| - 6] == '-' && s[|s| - 3] == '-'
    ensures s == s[..|s| - 6] + "-" + s[|s| - 5..|s| - 3] + "-" + s[|s| - 2..]
  {
  }

  lemma ParseYearOfIntToString(y: int)
    ensures ParseYear(IntToString(y)) == Some(y)
  {
    if y < 0 {
      ParseYearOfNegative(-y);
    } else {
      ParseNatToString(y);
      assert ParseYear(NatToString(y)) == Some(y);
    }
  }

  lemma ParseYearOfNegative(n: int)
    requires n >= 1
    ensures ParseYear("-" + NatToString(n)) == Some(-n)
  {
    var s := "-" + NatToString(n);
    assert s[1..] == NatToString(n);
    NatToStringLeadingDigit(n);
    ParseNatToString(n);
  }

  lemma IntToStringOfParseYear(s: string)
    requires ParseYear(s).Some?
    ensures IntToString(ParseYear(s).value) == s
  {
    if |s| > 0 && s[0] == '-' {
      NatToStringParse(s[1..]);
      CanonicalNumeralPositive(s[1..]);
      assert s == "-" + s[1..];
    } else {
      NatToStringParse(s);
    }
  }

  /** Two-digit padding of a day or month, read back. */
  lemma PaddedRoundTrip(n: int)
    requires 1 <= n <= 31
    ensures |PadStart2(IntToString(n))| == 2 && AllDigits(PadStart2(IntToString(n)))
    ensures ParseNat(PadStart2(IntToString(n))) == n
  {
    var s := NatToString(n);
    var p := PadStart2(s);
    ParseNatToString(n);
    if n < 10 {
      assert p == ['0', s[0]];
      ParseNatTwoDigits(p);
      assert ParseNat(s) == DigitValue(s[0]) by { assert s[..0] == []; }
    }
  }

  lemma PaddedFromDigits(p: string)
    requires |p| == 2 && AllDigits(p) && 1 <= ParseNat(p)
    ensures PadStart2(IntToString(ParseNat(p))) == p
  {
    var n := ParseNat(p);
    ParseNatTwoDigits(p);
    if p[0] == '0' {
      assert n == DigitValue(p[1]);
      assert NatToString(n) == [p[1]];
    } else {
      NatToStringParse(p);
    }
  }

  /** Every date's string reads back as that date. */
  lemma ParseFormatIsoDate(d: Date)
    ensures ParseIsoDate(FormatIsoDate(d)) == Some(d)
  {
    var y := IntToString(d.year);
    var mm := PadStart2(IntToString(d.month));
    var dd := PadStart2(IntToString(d.day));
    PaddedRoundTrip(d.month);
    PaddedRoundTrip(d.day);
    var s := y + "-" + mm + "-" + dd;
    assert FormatIsoDate(d) == s;
    SplitIsoString(y, mm, dd);
    assert ParseIsoDate(s) == ReadIsoParts(y, mm, dd);
    ReadIsoPartsOfDate(d);
  }

  lemma ReadIsoPartsOfDate(d: Date)
    ensures ReadIsoParts(IntToString(d.year), PadStart2(IntToString(d.month)), PadStart2(IntToString(d.day))) == Some(d)
  {
    PaddedRoundTrip(d.month);
    PaddedRoundTrip(d.day);
    ParseYearOfIntToString(d.year);
  }

  /** A string that reads as a date is exactly that date's string. */
  lemma FormatParseIsoDate(s: string)
    requires ParseIsoDate(s).Some?
    ensures FormatIsoDate(ParseIsoDate(s).value) == s
  {
    var mm := s[|s| - 5..|s| - 3];
    var dd := s[|s| - 2..];
    var yp := s[..|s| - 6];
    assert ParseIsoDate(s) == ReadIsoParts(yp, mm, dd);
    var d := ParseIsoDate(s).value;
    IntToStringOfParseYear(yp);
    PaddedFromDigits(mm);
    PaddedFromDigits(dd);
    JoinIsoString(s);
  }

  /** Different dates never share a string, so a list entry names one date. */
  lemma FormatIsoDateInjective(a: Date, b: Date)
    requires FormatIsoDate(a) == FormatIsoDate(b)
    ensures a == b
  {
    ParseFormatIsoDate(a);
    ParseFormatIsoDate(b);
  }

  /**
   * `isPublicHoliday(date, holidays)`: only the calendar day of the instant
   * is formatted, so the time of day plays no part.
   */
  predicate IsPublicHoliday(t: Instant, holidays: seq<string>) {
    FormatIsoDate(t.date) in holidays
  }

  /** A day is a holiday exactly when some list entry reads as that day. */
  lemma IsPublicHolidayIff(t: Instant, holidays: seq<string>)
    ensures IsPublicHoliday(t, holidays) <==> exists i :: 0 <= i < |holidays| && ParseIsoDate(holidays[i]) == Some(t.date)
  {
    ParseFormatIsoDate(t.date);
    if i :| 0 <= i < |holidays| && ParseIsoDate(holidays[i]) == Some(t.date) {
      FormatParseIsoDate(holidays[i]);
    }
  }

  /**
   * `useHolidaysCheck().isPublicHoliday`: the fetched list, or `[]` while it
   * is loading or failed, checked with `IsPublicHoliday`.
   */
  function CheckHoliday(fetched: Option<seq<string>>, t: Instant): (r: bool)
    ensures fetched.None? ==> !r
    ensures r <==> IsPublicHoliday(t, fetched.GetOr([]))
  {
    var holidays := fetched.GetOr([]);
    IsPublicHoliday(t, holidays)
  }

  /** `PUBLIC_HOLIDAYS` of the in-memory database (2025-01-08 is listed twice). */
  const PublicHolidays: seq<string> := [
    "2025-01-01", "2025-01-02", "2025-01-03", "2025-01-04", "2025-01-05",
    "2025-01-06", "2025-01-07", "2025-01-08", "2025-01-08", "2025-02-23",
    "2025-03-08", "2025-05-01", "2025-05-09", "2025-06-12", "2025-11-04"
  ]

  /** The database's own `isPublicHoliday(date)` over its fixed list. */
  predicate DbIsPublicHoliday(t: Instant) {
    IsPublicHoliday(t, PublicHolidays)
  }

  lemma PublicHolidaysYearFields()
    ensures forall j :: 0 <= j < |PublicHolidays| ==>
      |PublicHolidays[j]| == 10 && PublicHolidays[j][..|PublicHolidays[j]| - 6] == "2025"
  {
  }

  /** A three-digit year is written as it is, without padding: not an ISO 8601 date. */
  lemma FormatIsoDateOfShortYear()
    ensures FormatIsoDate(CalendarDate(999, 1, 1)) == "999-01-01"
  {
    assert NatToString(9) == "9";
    assert NatToString(99) == "99";
    assert NatToString(999) == "999";
    assert NatToString(1) == "1";
  }

  lemma IntToString2025()
    ensures IntToString(2025) == "2025"
  {
    assert NatToString(2) == "2";
    assert NatToString(20) == "20";
    assert NatToString(202) == "202";
  }

  /** The fixed list names 2025 days only, so no other year has a holiday. */
  lemma DbHolidaysOnlyIn2025(t: Instant)
    requires t.date.year != 2025
    ensures !DbIsPublicHoliday(t)
  {
    if DbIsPublicHoliday(t) {
      var d := t.date;
      var y := IntToString(d.year);
      var mm := PadStart2(IntToString(d.month));
      var dd := PadStart2(IntToString(d.day));
      PaddedRoundTrip(d.month);
      PaddedRoundTrip(d.day);
      var s := y + "-" + mm + "-" + dd;
      assert FormatIsoDate(d) == s;
      SplitIsoString(y, mm, dd);
      var i :| 0 <= i < |PublicHolidays| && PublicHolidays[i] == s;
      PublicHolidaysYearFields();
      assert y == "2025";
      IntToString2025();
      ParseYearOfIntToString(d.year);
      ParseYearOfIntToString(2025);
    }
  }
}
