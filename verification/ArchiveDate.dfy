/**
 * The calendar check of archived notes: scripts/archived-agent-notes.ts, validDate. It sends the
 * written year, month and day through `Date.UTC` and back, as sections 21.4.1.3 to 21.4.1.13 of
 * ECMA-262 define the two directions.
 */
module ArchiveDate {
  import opened Wrappers

  datatype Fields = Fields(year: nat, month: nat, day: nat)

  // ---------- the written form ----------

  predicate IsDigit(c: char) {
    '0' <= c <= '9'
  }

  function DigitValue(c: char): nat
    requires IsDigit(c)
  {
    c as int - '0' as int
  }

  predicate AllDigits(s: string) {
    forall i :: 0 <= i < |s| ==> IsDigit(s[i])
  }

  /** `Number` of a run of digits. */
  function DigitsValue(s: string): nat
    requires AllDigits(s)
  {
    if s == "" then 0 else 10 * DigitsValue(s[..|s| - 1]) + DigitValue(s[|s| - 1])
  }

  /** The groups of `^(\d{4})-(\d{2})-(\d{2})$`. */
  function ParseFields(value: string): Option<Fields> {
    if |value| == 10 && AllDigits(value[..4]) && value[4] == '-' && AllDigits(value[5..7]) && value[7] == '-' && AllDigits(value[8..])
    then Some(Fields(DigitsValue(value[..4]), DigitsValue(value[5..7]), DigitsValue(value[8..])))
    else None
  }

  // ---------- ECMA-262 dates, in whole days ----------

  /** The day number of January 1 of year `y`; day 0 is January 1, 1970. Division rounds down. */
  function DayFromYear(y: int): int {
    365 * (y - 1970) + (y - 1969) / 4 - (y - 1901) / 100 + (y - 1601) / 400
  }

  /** The year holding day number `day`, searched from year `y`. */
  function YearFrom(day: int, y: int): (r: int)
    ensures DayFromYear(r) <= day < DayFromYear(r + 1)
    decreases if DayFromYear(y) <= day < DayFromYear(y + 1) then 0
              else if day < DayFromYear(y) then 1 + DayFromYear(y) - day else 1 + day - DayFromYear(y)
  {
    if day < DayFromYear(y) then YearFrom(day, y - 1)
    else if day >= DayFromYear(y + 1) then YearFrom(day, y + 1)
    else y
  }

  function YearFromDay(day: int): int {
    YearFrom(day, 1970)
  }

  /** A year is a leap year when its January firsts are 366 days apart. */
  predicate InLeapYear(y: int) {
    DayFromYear(y + 1) - DayFromYear(y) == 366
  }

  /** Days of the year before month `m`, counted from 0. */
  function DaysBefore(m: int, leap: bool): int {
    if m <= 0 then 0
    else if m == 1 then 31
    else
      var extra := if leap then 1 else 0;
      (if m == 2 then 59 else if m == 3 then 90 else if m == 4 then 120 else if m == 5 then 151
       else if m == 6 then 181 else if m == 7 then 212 else if m == 8 then 243 else if m == 9 then 273
       else if m == 10 then 304 else if m == 11 then 334 else 365) + extra
  }

  function MonthIn(d: int, leap: bool, m: nat): (r: nat)
    requires m <= 11 && DaysBefore(m, leap) <= d < DaysBefore(12, leap)
    ensures r <= 11 && DaysBefore(r, leap) <= d < DaysBefore(r + 1, leap)
    decreases 11 - m
  {
    if d < DaysBefore(m + 1, leap) then m else MonthIn(d, leap, m + 1)
  }

  function MonthFromDay(day: int): nat {
    var y := YearFromDay(day);
    YearLength(y);
    MonthIn(day - DayFromYear(y), InLeapYear(y), 0)
  }

  function DateFromDay(day: int): int {
    var y := YearFromDay(day);
    day - DayFromYear(y) - DaysBefore(MonthFromDay(day), InLeapYear(y)) + 1
  }

  /** MakeDay: months beyond a year carry over, days run on. */
  function MakeDay(year: int, month: int, date: int): int {
    var ym, mn := year + month / 12, month % 12;
    DayFromYear(ym) + DaysBefore(mn, InLeapYear(ym)) + date - 1
  }

  /** MakeFullYear: years 0 to 99 count from 1900. */
  function FullYear(year: int): int {
    if 0 <= year <= 99 then 1900 + year else year
  }

  /** The day number of `Date.UTC(year, month, date)`. */
  function UtcDay(year: int, month: int, date: int): int {
    MakeDay(FullYear(year), month, date)
  }

  predicate ValidDate(value: string) {
    var fields := ParseFields(value);
    if fields.None? then false
    else
      ReadsBack(fields.value)
  }

  /** Sending the fields through `Date.UTC` and reading them back gives the same fields. */
  predicate ReadsBack(f: Fields) {
    var day := UtcDay(f.year, f.month - 1, f.day);
    YearFromDay(day) == f.year && MonthFromDay(day) == f.month - 1 && DateFromDay(day) == f.day
  }

  // ---------- the calendar ----------

  /** The Gregorian leap-year rule. */
  predicate Leap(y: int) {
    y % 4 == 0 && (y % 100 != 0 || y % 400 == 0)
  }

  function DaysInMonth(y: int, month: int): int {
    if month == 2 then (if Leap(y) then 29 else 28)
    else if month in {4, 6, 9, 11} then 30
    else 31
  }

  /** A real day of the proleptic Gregorian calendar. */
  predicate RealDate(f: Fields) {
    1 <= f.month <= 12 && 1 <= f.day <= DaysInMonth(f.year, f.month)
  }

  lemma FloorStep(a: int, d: int)
    requires d == 4 || d == 100 || d == 400
    ensures a / d - (a - 1) / d == if a % d == 0 then 1 else 0
  {
  }

  lemma YearLengthByMultiples(y: int)
    ensures DayFromYear(y + 1) - DayFromYear(y)
         == 365 + (if y % 4 == 0 then 1 else 0) - (if y % 100 == 0 then 1 else 0) + (if y % 400 == 0 then 1 else 0)
  {
    FloorStep(y - 1968, 4);
    FloorStep(y - 1900, 100);
    FloorStep(y - 1600, 400);
  }

  lemma MultipleOfFour(m: int)
    ensures (4 * m) % 4 == 0
  {
  }

  lemma CenturyMultiples(y: int)
    ensures y % 400 == 0 ==> y % 100 == 0
    ensures y % 100 == 0 ==> y % 4 == 0
  {
    if y % 100 == 0 {
      MultipleOfFour(25 * (y / 100));
    }
  }

  /** The distance of two January firsts follows the Gregorian rule. */
  lemma YearLength(y: int)
    ensures DayFromYear(y + 1) - DayFromYear(y) == if Leap(y) then 366 else 365
    ensures InLeapYear(y) <==> Leap(y)
  {
    YearLengthByMultiples(y);
    CenturyMultiples(y);
    hide DayFromYear;
  }

  lemma {:induction false} YearsOrdered(y: int, z: int)
    requires y <= z
    ensures DayFromYear(y) <= DayFromYear(z)
    decreases z - y
  {
    if y < z {
      YearsOrdered(y, z - 1);
    }
  }

  /** A day lies in one year only. */
  lemma YearUnique(day: int, y: int)
    requires DayFromYear(y) <= day < DayFromYear(y + 1)
    ensures YearFromDay(day) == y
  {
    var r := YearFromDay(day);
    if r < y {
      YearsOrdered(r + 1, y);
    } else if y < r {
      YearsOrdered(y + 1, r);
    }
  }

  /** ... and in one month of it. */
  lemma MonthUnique(d: int, leap: bool, m: nat, from: nat)
    requires from <= m <= 11 && DaysBefore(from, leap) <= d
    requires DaysBefore(m, leap) <= d < DaysBefore(m + 1, leap)
    ensures d < DaysBefore(12, leap) && MonthIn(d, leap, from) == m
    decreases 11 - from
  {
    if from < m {
      assert DaysBefore(from + 1, leap) <= DaysBefore(m, leap);
      MonthUnique(d, leap, m, from + 1);
    }
  }

  lemma MonthSpan(y: int, month: int)
    requires 1 <= month <= 12
    ensures DaysBefore(month, Leap(y)) - DaysBefore(month - 1, Leap(y)) == DaysInMonth(y, month)
    ensures 0 <= DaysBefore(month - 1, Leap(y)) && DaysBefore(month, Leap(y)) <= DaysBefore(12, Leap(y))
    ensures DaysBefore(12, Leap(y)) == if Leap(y) then 366 else 365
  {
  }

  lemma WithinYear(month: int)
    requires 1 <= month <= 12
    ensures (month - 1) / 12 == 0 && (month - 1) % 12 == month - 1
  {
  }

  /** Writing a real date as a day number and reading it back changes nothing. */
  lemma RealDateRoundTrips(year: int, month: int, day: int)
    requires 1 <= month <= 12 && 1 <= day <= DaysInMonth(year, month)
    ensures var d := MakeDay(year, month - 1, day);
            YearFromDay(d) == year && MonthFromDay(d) == month - 1 && DateFromDay(d) == day
  {
    var d, leap := MakeDay(year, month - 1, day), InLeapYear(year);
    YearLength(year);
    WithinYear(month);
    MonthSpan(year, month);
    assert d == DayFromYear(year) + DaysBefore(month - 1, leap) + day - 1;
    hide DayFromYear, InLeapYear, Leap, DaysBefore, DaysInMonth, YearFromDay, MonthIn, MakeDay;
    YearUnique(d, year);
    MonthUnique(d - DayFromYear(year), leap, month - 1, 0);
  }

  /** What is read back from a day number is always a real date. */
  lemma ReadBackIsReal(day: int)
    ensures 0 <= MonthFromDay(day) <= 11
    ensures 1 <= DateFromDay(day) <= DaysInMonth(YearFromDay(day), MonthFromDay(day) + 1)
  {
    var y := YearFromDay(day);
    YearLength(y);
    MonthSpan(y, MonthFromDay(day) + 1);
    hide DayFromYear, InLeapYear, Leap, DaysBefore, DaysInMonth, YearFromDay, MonthIn;
  }

  /** A two-digit year lands after 1898, whatever month and day are written. */
  lemma ShortYearMoves(f: Fields)
    requires f.year <= 99
    ensures YearFromDay(UtcDay(f.year, f.month - 1, f.day)) >= 1899
  {
    var day := UtcDay(f.year, f.month - 1, f.day);
    var ym, mn := 1900 + f.year + (f.month - 1) / 12, (f.month - 1) % 12;
    assert ym >= 1899;
    YearsOrdered(1899, ym);
    if ym > 1899 {
      YearsOrdered(1900, ym);
    } else {
      assert mn == 11;
    }
    assert day >= DayFromYear(1899);
    if YearFromDay(day) < 1899 {
      YearsOrdered(YearFromDay(day) + 1, 1899);
    }
  }

  /**
   * The check accepts exactly the well-formed real dates of the year 100 and later: the two-digit
   * years that `Date.UTC` moves to the twentieth century are all refused, real or not.
   */
  lemma ValidDateExact(value: string)
    ensures ValidDate(value) <==>
      ParseFields(value).Some? && ParseFields(value).value.year >= 100 && RealDate(ParseFields(value).value)
  {
    hide *;
    if ParseFields(value).Some? {
      ReadsBackExact(ParseFields(value).value);
    }
    ValidDateReadsBack(value);
  }

  lemma ValidDateReadsBack(value: string)
    ensures ValidDate(value) <==> ParseFields(value).Some? && ReadsBack(ParseFields(value).value)
  {
    hide ParseFields, ReadsBack;
  }

  lemma ReadsBackExact(f: Fields)
    ensures ReadsBack(f) <==> f.year >= 100 && RealDate(f)
  {
    hide UtcDay, YearFromDay, MonthFromDay, DateFromDay, DaysInMonth, MakeDay;
    ReadBackIsReal(UtcDay(f.year, f.month - 1, f.day));
    if f.year <= 99 {
      ShortYearMoves(f);
    } else if RealDate(f) {
      RealDateRoundTrips(f.year, f.month, f.day);
      LongYearStays(f);
    }
  }

  lemma LongYearStays(f: Fields)
    requires f.year >= 100
    ensures UtcDay(f.year, f.month - 1, f.day) == MakeDay(f.year, f.month - 1, f.day)
  {
  }

  // ---------- the accepted strings, character by character ----------

  /** The number two digits write. */
  function TwoDigits(tens: char, units: char): int {
    10 * (tens as int - 48) + (units as int - 48)
  }

  /** `value` is `YYYY-MM-DD` for this year, month and day. */
  ghost predicate Written(value: string, year: int, month: int, day: int) {
    && |value| == 10 && value[4] == '-' && value[7] == '-'
    && (forall k :: 0 <= k < 10 && k != 4 && k != 7 ==> '0' <= value[k] <= '9')
    && year == 100 * TwoDigits(value[0], value[1]) + TwoDigits(value[2], value[3])
    && month == TwoDigits(value[5], value[6]) && day == TwoDigits(value[8], value[9])
  }

  lemma DigitsOfTwo(s: string)
    requires |s| == 2 && AllDigits(s)
    ensures DigitsValue(s) == TwoDigits(s[0], s[1])
  {
    assert s[..1][..0] == "" && DigitsValue(s[..1]) == DigitValue(s[0]);
  }

  lemma DigitsOfFour(s: string)
    requires |s| == 4 && AllDigits(s)
    ensures DigitsValue(s) == 100 * TwoDigits(s[0], s[1]) + TwoDigits(s[2], s[3])
  {
    assert s[..3][..2] == s[..2];
    DigitsOfTwo(s[..2]);
    assert DigitsValue(s[..3]) == 10 * DigitsValue(s[..2]) + DigitValue(s[2]);
  }

  /** What the fields of a string are. */
  lemma ParsedIsWritten(value: string, f: Fields)
    ensures ParseFields(value) == Some(f) <==> Written(value, f.year, f.month, f.day)
  {
    if |value| == 10 {
      var y, m, d := value[..4], value[5..7], value[8..];
      assert AllDigits(y) <==> forall k :: 0 <= k < 4 ==> '0' <= value[k] <= '9';
      assert AllDigits(m) <==> '0' <= m[0] <= '9' && '0' <= m[1] <= '9';
      assert AllDigits(d) <==> '0' <= d[0] <= '9' && '0' <= d[1] <= '9';
      if AllDigits(y) && AllDigits(m) && AllDigits(d) {
        DigitsOfFour(y);
        DigitsOfTwo(m);
        DigitsOfTwo(d);
      }
      hide AllDigits, DigitsValue;
    }
  }

  /** Day 0 is January 1, 1970. */
  lemma Epoch()
    ensures UtcDay(1970, 0, 1) == 0
  {
  }

  /** The check accepts exactly the strings that write a real date of the year 100 or later. */
  lemma AcceptedExactly(value: string)
    ensures ValidDate(value) <==>
      exists year: nat, month: nat, day: nat :: Written(value, year, month, day) && year >= 100
        && 1 <= month <= 12 && 1 <= day <= DaysInMonth(year, month)
  {
    ValidDateExact(value);
    hide ValidDate, ParseFields, Written, DaysInMonth;
    if ParseFields(value).Some? {
      ParsedIsWritten(value, ParseFields(value).value);
    }
    forall year: nat, month: nat, day: nat | Written(value, year, month, day)
      ensures ParseFields(value) == Some(Fields(year, month, day))
    {
      ParsedIsWritten(value, Fields(year, month, day));
    }
  }
}
