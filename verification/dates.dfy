/** Calendar dates: the `YYYY-MM-DD` text a usage date is entered and stored
    as (the extended calendar-date format of section 4.1.2.2 of ISO 8601:2004)
    and the `yyyyMMdd` basic format used in file names and request ids. */
module Dates {
  import opened Wrappers
  import opened Text

  datatype Date = Date(year: nat, month: nat, day: nat)

  /** Gregorian leap years. */
  predicate IsLeapYear(y: nat) {
    (y % 4 == 0 && y % 100 != 0) || y % 400 == 0
  }

  function DaysInMonth(y: nat, m: nat): (n: nat)
    requires 1 <= m <= 12
    ensures 28 <= n <= 31
  {
    if m == 2 then (if IsLeapYear(y) then 29 else 28)
    else if m == 4 || m == 6 || m == 9 || m == 11 then 30
    else 31
  }

  /** A day that exists, in a year with four digits. */
  predicate ValidDate(d: Date) {
    && d.year <= 9999
    && 1 <= d.month <= 12
    && 1 <= d.day <= DaysInMonth(d.year, d.month)
  }

  /** `format(date, 'yyyy')`. */
  function YearText(d: Date): string {
    PadNat(d.year, 4)
  }

  /** `format(date, 'MM')`. */
  function MonthText(d: Date): string {
    PadNat(d.month, 2)
  }

  function DayText(d: Date): string {
    PadNat(d.day, 2)
  }

  /** The field widths of a valid date are exact. */
  lemma ValidDateWidths(d: Date)
    requires ValidDate(d)
    ensures |YearText(d)| == 4 && |MonthText(d)| == 2 && |DayText(d)| == 2
  {
    assert Pow10(4) == 10000 && Pow10(2) == 100;
    NatToStringLength(d.year, 4);
    NatToStringLength(d.month, 2);
    NatToStringLength(d.day, 2);
  }

  /** `format(date, 'yyyy-MM-dd')`. */
  function FormatExtended(d: Date): (r: string)
    requires ValidDate(d)
    ensures |r| == 10 && r[4] == '-' && r[7] == '-'
  {
    ValidDateWidths(d);
    YearText(d) + "-" + MonthText(d) + "-" + DayText(d)
  }

  /** An extended date starts and ends with a digit, so `trim()` keeps it. */
  lemma FormatExtendedTrimmed(d: Date)
    requires ValidDate(d)
    ensures Trim(FormatExtended(d)) == FormatExtended(d)
  {
    var s := FormatExtended(d);
    ValidDateWidths(d);
    assert s[0] == YearText(d)[0];
    assert s[9] == DayText(d)[1];
    assert IsDigit(s[0]) && IsDigit(s[9]);
    TrimClean(s);
  }

  /** `format(date, 'yyyyMMdd')`. */
  function FormatBasic(d: Date): (r: string)
    requires ValidDate(d)
    ensures |r| == 8 && AllDigits(r)
  {
    ValidDateWidths(d);
    YearText(d) + MonthText(d) + DayText(d)
  }

  /** The basic format is the extended one without its dashes: year,
      month and day digits in that order. */
  lemma FormatBasicDigits(d: Date)
    requires ValidDate(d)
    ensures FormatBasic(d) == Filter(FormatExtended(d), IsDigit)
  {
    var y, m, dd := YearText(d), MonthText(d), DayText(d);
    var dash := "-";
    assert FormatExtended(d) == y + dash + m + dash + dd;
    assert FormatBasic(d) == y + m + dd;
    DropSeparators(y, dash, m, dd);
  }

  /** Keeping only the digits of three digit runs joined by a non-digit
      separator joins the runs. */
  lemma DropSeparators(a: string, sep: string, b: string, c: string)
    requires AllDigits(a) && AllDigits(b) && AllDigits(c)
    requires forall i :: 0 <= i < |sep| ==> !IsDigit(sep[i])
    ensures Filter(a + sep + b + sep + c, IsDigit) == a + b + c
  {
    FilterAllKept(a, IsDigit);
    FilterAllKept(b, IsDigit);
    FilterAllKept(c, IsDigit);
    FilterNoneKept(sep, IsDigit);
    FilterConcat(a, sep, IsDigit);
    assert Filter(a + sep, IsDigit) == a;
    FilterConcat(a + sep, b, IsDigit);
    assert Filter(a + sep + b, IsDigit) == a + b;
    FilterConcat(a + sep + b, sep, IsDigit);
    assert Filter(a + sep + b + sep, IsDigit) == a + b;
    FilterConcat(a + sep + b + sep, c, IsDigit);
  }

  /** The basic format names each day once. */
  lemma FormatBasicInjective(a: Date, b: Date)
    requires ValidDate(a) && ValidDate(b) && FormatBasic(a) == FormatBasic(b)
    ensures a == b
  {
    ValidDateWidths(a);
    ValidDateWidths(b);
    var s := FormatBasic(a);
    assert YearText(a) == s[..4] == YearText(b);
    assert MonthText(a) == s[4..6] == MonthText(b);
    assert DayText(a) == s[6..] == DayText(b);
  }

  lemma FormatBasicExample()
    ensures FormatBasic(Date(2025, 9, 25)) == "20250925"
  {
    var d := Date(2025, 9, 25);
    YearText2025(d);
    MonthText9(d);
    assert DayText(d) == "25" by {
      assert NatToString(25) == "25" by { assert NatToString(2) == "2"; }
    }
    assert FormatBasic(d) == "2025" + "09" + "25";
  }

  lemma YearText2025(d: Date)
    requires d.year == 2025
    ensures YearText(d) == "2025"
  {
    assert NatToString(2025) == "2025" by {
      assert NatToString(202) == "202" by { assert NatToString(20) == "20"; }
    }
  }

  lemma MonthText9(d: Date)
    requires d.month == 9
    ensures MonthText(d) == "09"
  {
    assert NatToString(9) == "9";
    assert Zeros(1) == "0";
  }

  /** `parseISO(s + 'T00:00:00')` for an extended calendar date: four year
      digits, two month digits and two day digits separated by `-`, naming a
      day that exists. The appended midnight is always a valid time, so only
      the date decides. */
  function ParseCalendarDate(s: string): (r: Option<Date>)
    ensures r.Some? ==> ValidDate(r.value)
    ensures r.Some? ==> |s| == 10 && s[4] == '-' && s[7] == '-'
  {
    if |s| == 10 && s[4] == '-' && s[7] == '-'
       && AllDigits(s[..4]) && AllDigits(s[5..7]) && AllDigits(s[8..])
    then
      var d := Date(ParseDigits(s[..4]), ParseDigits(s[5..7]), ParseDigits(s[8..]));
      if ValidDate(d) then Some(d) else None
    else None
  }

  /** A stored usage date reads back as the date it was written from. */
  lemma ParseFormatExtended(d: Date)
    requires ValidDate(d)
    ensures ParseCalendarDate(FormatExtended(d)) == Some(d)
  {
    var s := FormatExtended(d);
    ValidDateWidths(d);
    assert s[..4] == YearText(d);
    assert s[5..7] == MonthText(d);
    assert s[8..] == DayText(d);
  }

  /** The day after the last of February 2025 is rejected. */
  lemma RejectsFebruary30()
    ensures ParseCalendarDate("2025-02-30") == None
  {
    var s := "2025-02-30";
    DateFields(s);
    assert !IsLeapYear(2025);
  }

  /** September 12, 2025 is accepted. */
  lemma AcceptsExample()
    ensures ParseCalendarDate("2025-09-12") == Some(Date(2025, 9, 12))
  {
    DateFields("2025-09-12");
  }

  /** The three digit fields of a text shaped like an extended date, read
      digit by digit. */
  lemma DateFields(s: string)
    requires |s| == 10 && AllDigits(s[..4]) && AllDigits(s[5..7]) && AllDigits(s[8..])
    ensures ParseDigits(s[..4]) == DigitValue(s[0]) * 1000 + DigitValue(s[1]) * 100 + DigitValue(s[2]) * 10 + DigitValue(s[3])
    ensures ParseDigits(s[5..7]) == DigitValue(s[5]) * 10 + DigitValue(s[6])
    ensures ParseDigits(s[8..]) == DigitValue(s[8]) * 10 + DigitValue(s[9])
  {
    ParseFourDigits(s[..4]);
    ParseTwoDigits(s[5..7]);
    ParseTwoDigits(s[8..]);
  }

  lemma ParseTwoDigits(s: string)
    requires |s| == 2 && AllDigits(s)
    ensures ParseDigits(s) == DigitValue(s[0]) * 10 + DigitValue(s[1])
  {
    assert s[..1][..0] == [];
    assert ParseDigits(s[..1]) == DigitValue(s[0]);
  }

  lemma ParseFourDigits(s: string)
    requires |s| == 4 && AllDigits(s)
    ensures ParseDigits(s) == DigitValue(s[0]) * 1000 + DigitValue(s[1]) * 100 + DigitValue(s[2]) * 10 + DigitValue(s[3])
  {
    assert s[..3][..2] == s[..2];
    ParseTwoDigits(s[..2]);
    assert ParseDigits(s[..3]) == ParseDigits(s[..2]) * 10 + DigitValue(s[2]);
  }
}
