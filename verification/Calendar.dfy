/**
 The due-date check (src/cli/linear-request-builders.ts): a date is built with Date.UTC from year, month
 and day, and accepted when the fields read back are the ones written.  Day numbers and their inverse are
 those of section 21.4.1 of ECMA-262, where months and days that overflow carry over.
 */
module Calendar {
  import opened Common

  // ---------------------------------------------------------------- ECMA-262 day arithmetic

  predicate Leap(y: int) { y % 4 == 0 && (y % 100 != 0 || y % 400 == 0) }

  function DaysInYear(y: int): int { if Leap(y) then 366 else 365 }

  // Days from 1 January 1970 to 1 January of year y; `/` rounds down for these divisors.
  function DayFromYear(y: int): int { 365 * (y - 1970) + (y - 1969) / 4 - (y - 1901) / 100 + (y - 1601) / 400 }

  // Days of the year before month mn; month 12 is the end of the year.
  function DaysBefore(y: int, mn: int): int
    requires 0 <= mn <= 12
  {
    var leap := if Leap(y) then 1 else 0;
    if mn == 0 then 0 else if mn == 1 then 31 else if mn == 2 then 59 + leap else if mn == 3 then 90 + leap
    else if mn == 4 then 120 + leap else if mn == 5 then 151 + leap else if mn == 6 then 181 + leap
    else if mn == 7 then 212 + leap else if mn == 8 then 243 + leap else if mn == 9 then 273 + leap
    else if mn == 10 then 304 + leap else if mn == 11 then 334 + leap else 365 + leap
  }

  /** MakeDay: months outside 0..11 carry into the year, and any day number is just added. */
  function MakeDay(year: int, month: int, date: int): int {
    var ym := year + month / 12;
    DayFromYear(ym) + DaysBefore(ym, month % 12) + date - 1
  }

  // Rounding down steps just at the multiples.
  lemma FourthYears(y: int)
    ensures (y - 1968) / 4 - (y - 1969) / 4 == if y % 4 == 0 then 1 else 0
  {
  }

  lemma HundredthYears(y: int)
    ensures (y - 1900) / 100 - (y - 1901) / 100 == if y % 100 == 0 then 1 else 0
  {
  }

  lemma FourHundredthYears(y: int)
    ensures (y - 1600) / 400 - (y - 1601) / 400 == if y % 400 == 0 then 1 else 0
  {
  }

  lemma MultiplesNest(y: int)
    ensures y % 400 == 0 ==> y % 100 == 0
    ensures y % 100 == 0 ==> y % 4 == 0
  {
  }

  // The three corrections of DayFromYear, by name.
  function DaysWith(y: int, fourths: int, hundredths: int, fourHundredths: int): int {
    365 * (y - 1970) + fourths - hundredths + fourHundredths
  }

  lemma YearLength(y: int)
    ensures DayFromYear(y + 1) == DayFromYear(y) + DaysInYear(y)
  {
    FourthYears(y);
    HundredthYears(y);
    FourHundredthYears(y);
    MultiplesNest(y);
    var a, b, c := (y - 1969) / 4, (y - 1901) / 100, (y - 1601) / 400;
    var a', b', c' := (y - 1968) / 4, (y - 1900) / 100, (y - 1600) / 400;
    assert DayFromYear(y + 1) == DaysWith(y + 1, a', b', c');
    assert DayFromYear(y) == DaysWith(y, a, b, c);
  }

  lemma EarlyEnough(day: int)
    ensures DayFromYear(if day < 0 then 1970 + day else 1970) <= day
  {
  }

  // The largest year that starts no later than the day, searched upwards.
  function YearFrom(day: int, y: int): (r: int)
    requires DayFromYear(y) <= day
    ensures DayFromYear(r) <= day < DayFromYear(r + 1)
    decreases day - DayFromYear(y)
  {
    YearLength(y);
    if day < DayFromYear(y + 1) then y else YearFrom(day, y + 1)
  }

  function YearFromDay(day: int): (r: int)
    ensures DayFromYear(r) <= day < DayFromYear(r + 1)
  {
    EarlyEnough(day);
    YearFrom(day, if day < 0 then 1970 + day else 1970)
  }

  // The month that the d-th day of the year falls in, searched upwards.
  function MonthFrom(y: int, d: int, mn: int): (r: int)
    requires 0 <= mn <= 11 && DaysBefore(y, mn) <= d < DaysBefore(y, 12)
    ensures 0 <= r <= 11 && DaysBefore(y, r) <= d < DaysBefore(y, r + 1)
    decreases 12 - mn
  {
    if d < DaysBefore(y, mn + 1) then mn else MonthFrom(y, d, mn + 1)
  }

  lemma YearEnds(y: int)
    ensures DaysBefore(y, 0) == 0 && DaysBefore(y, 12) == DaysInYear(y)
  {
  }

  function DayWithinYear(day: int): (d: int)
    ensures 0 <= d < DaysInYear(YearFromDay(day))
  {
    YearLength(YearFromDay(day));
    day - DayFromYear(YearFromDay(day))
  }

  function MonthFromDay(day: int): (mn: int)
    ensures 0 <= mn <= 11
  {
    YearHasRoom(day);
    MonthFrom(YearFromDay(day), DayWithinYear(day), 0)
  }

  lemma YearHasRoom(day: int)
    ensures DaysBefore(YearFromDay(day), 0) <= DayWithinYear(day) < DaysBefore(YearFromDay(day), 12)
  {
    hide DayFromYear, DayWithinYear, YearFromDay, Leap;
    YearEnds(YearFromDay(day));
  }

  lemma MonthHolds(day: int)
    ensures var year, month := YearFromDay(day), MonthFromDay(day);
            DaysBefore(year, month) <= DayWithinYear(day) < DaysBefore(year, month + 1)
  {
    hide DayFromYear, DayWithinYear, YearFromDay, DaysBefore, MonthFrom;
    YearHasRoom(day);
  }

  function DateFromDay(day: int): int {
    DayWithinYear(day) - DaysBefore(YearFromDay(day), MonthFromDay(day)) + 1
  }

  // ---------------------------------------------------------------- the calendar, independently

  function DaysInMonth(y: int, m: int): int {
    if m == 2 then (if Leap(y) then 29 else 28) else if m in {4, 6, 9, 11} then 30 else 31
  }

  /** A day of the proleptic Gregorian calendar; months and days count from 1. */
  predicate RealDate(y: int, m: int, d: int) { 1 <= m <= 12 && 1 <= d <= DaysInMonth(y, m) }

  lemma MonthLength(y: int, m: int)
    requires 1 <= m <= 12
    ensures DaysBefore(y, m) == DaysBefore(y, m - 1) + DaysInMonth(y, m)
  {
  }

  lemma MonthHasDays(y: int, m: int)
    ensures 28 <= DaysInMonth(y, m) <= 31
  {
  }

  lemma {:induction false} YearsAscend(a: int, b: int)
    requires a <= b
    ensures DayFromYear(a) + (b - a) <= DayFromYear(b)
    decreases b - a
  {
    hide DayFromYear, Leap;
    if a < b {
      YearLength(b - 1);
      YearsAscend(a, b - 1);
    }
  }

  lemma YearIsUnique(day: int, y: int)
    requires DayFromYear(y) <= day < DayFromYear(y + 1)
    ensures YearFromDay(day) == y
  {
    hide DayFromYear, YearFromDay;
    var r := YearFromDay(day);
    if r < y { YearsAscend(r + 1, y); }
    if r > y { YearsAscend(y + 1, r); }
  }

  lemma MonthIsUnique(day: int, mn: int)
    requires 0 <= mn <= 11
    requires DaysBefore(YearFromDay(day), mn) <= DayWithinYear(day) < DaysBefore(YearFromDay(day), mn + 1)
    ensures MonthFromDay(day) == mn
  {
    hide DayFromYear, DaysBefore, YearFromDay, MonthFromDay;
    MonthHolds(day);
    var r := MonthFromDay(day);
    var y := YearFromDay(day);
    if r < mn { MonthsAscend(y, r + 1, mn); }
    if r > mn { MonthsAscend(y, mn + 1, r); }
  }

  lemma {:induction false} MonthsAscend(y: int, a: int, b: int)
    requires 0 <= a <= b <= 12
    ensures DaysBefore(y, a) <= DaysBefore(y, b)
    decreases b - a
  {
    hide DaysBefore, Leap, DaysInMonth;
    if a < b {
      MonthLength(y, b);
      MonthHasDays(y, b);
      MonthsAscend(y, a, b - 1);
    }
  }

  /** From the calendar to day numbers and back: a real date is read back field by field. */
  lemma RealDateReadsBack(y: int, m: int, d: int)
    requires RealDate(y, m, d)
    ensures var day := MakeDay(y, m - 1, d);
            YearFromDay(day) == y && MonthFromDay(day) == m - 1 && DateFromDay(day) == d
  {
    hide DayFromYear, Leap, YearFromDay, MonthFromDay, DaysBefore, DaysInMonth;
    var day := MakeDay(y, m - 1, d);
    MonthLength(y, m);
    MonthsAscend(y, m, 12);
    MonthsAscend(y, 0, m - 1);
    YearLength(y);
    YearEnds(y);
    assert MakeDay(y, m - 1, d) == DayFromYear(y) + DaysBefore(y, m - 1) + d - 1 by {
      assert (m - 1) / 12 == 0 && (m - 1) % 12 == m - 1;
    }
    YearIsUnique(day, y);
    MonthIsUnique(day, m - 1);
  }

  /** From day numbers to the calendar and back: every day number is a real date, and only that one. */
  lemma DayReadsBack(day: int)
    ensures RealDate(YearFromDay(day), MonthFromDay(day) + 1, DateFromDay(day))
    ensures MakeDay(YearFromDay(day), MonthFromDay(day), DateFromDay(day)) == day
  {
    hide DayFromYear, Leap, YearFromDay, MonthFromDay, DaysBefore, DaysInMonth;
    MonthHolds(day);
    var mn := MonthFromDay(day);
    assert mn / 12 == 0 && mn % 12 == mn;
    MonthLength(YearFromDay(day), mn + 1);
  }

  // ---------------------------------------------------------------- the flag

  predicate IsDigit(c: char) { '0' <= c <= '9' }

  // /^\d{4}-\d{2}-\d{2}$/
  predicate DateShape(s: string) {
    |s| == 10 && s[4] == '-' && s[7] == '-' && forall i :: 0 <= i < 10 && i != 4 && i != 7 ==> IsDigit(s[i])
  }

  function Number(digits: string): nat
    requires forall c :: c in digits ==> IsDigit(c)
  {
    if digits == [] then 0
    else
      var c := digits[|digits| - 1];
      assert c in digits && IsDigit(c);
      10 * Number(digits[..|digits| - 1]) + (c as int - '0' as int)
  }

  function Fields(s: string): (r: (nat, nat, nat))
    requires DateShape(s)
  {
    (Number(s[..4]), Number(s[5..7]), Number(s[8..]))
  }

  function Digit(n: nat): (c: char)
    ensures IsDigit(c) && c as int - '0' as int == n % 10
  {
    '0' + (n % 10) as char
  }

  /** A date as it is written. */
  function WrittenDate(year: nat, month: nat, day: nat): string {
    [Digit(year / 1000), Digit(year / 100), Digit(year / 10), Digit(year), '-',
     Digit(month / 10), Digit(month), '-', Digit(day / 10), Digit(day)]
  }

  lemma TwoDigits(a: nat, b: nat)
    ensures Number([Digit(a), Digit(b)]) == 10 * (a % 10) + b % 10
  {
    hide Digit;
    var s := [Digit(a), Digit(b)];
    assert s[..1] == [Digit(a)] && s[..1][..0] == [];
    assert Number([Digit(a)]) == a % 10;
  }

  lemma FourDigits(a: nat, b: nat, c: nat, d: nat)
    ensures Number([Digit(a), Digit(b), Digit(c), Digit(d)])
         == 10 * (10 * (10 * (a % 10) + b % 10) + c % 10) + d % 10
  {
    hide Digit;
    var s, t := [Digit(a), Digit(b), Digit(c), Digit(d)], [Digit(a), Digit(b), Digit(c)];
    assert s[..3] == t && t[..2] == [Digit(a), Digit(b)];
    TwoDigits(a, b);
    assert Number(t) == 10 * Number([Digit(a), Digit(b)]) + c % 10;
  }

  lemma LastDigit(n: nat, n': nat, n'': nat)
    requires n' == n / 10 && n'' == n / 100
    ensures n' / 10 == n''
    ensures n == 10 * n' + n % 10
  {
  }

  lemma FourParts(n: nat)
    requires n < 10000
    ensures n == 10 * (10 * (10 * (n / 1000 % 10) + n / 100 % 10) + n / 10 % 10) + n % 10
  {
    var tens, hundreds, thousands := n / 10, n / 100, n / 1000;
    LastDigit(n, tens, hundreds);
    assert tens / 100 == thousands;
    LastDigit(tens, hundreds, thousands);
    assert hundreds == 10 * thousands + hundreds % 10 && thousands % 10 == thousands;
  }

  /** What is written in that shape is what is read: year, month and day, in this order. */
  lemma WrittenDateIsRead(year: nat, month: nat, day: nat)
    requires year < 10000 && month < 100 && day < 100
    ensures var s := WrittenDate(year, month, day); DateShape(s) && Fields(s) == (year, month, day)
  {
    hide Digit, Number;
    var s := WrittenDate(year, month, day);
    assert s[..4] == [Digit(year / 1000), Digit(year / 100), Digit(year / 10), Digit(year)];
    assert s[5..7] == [Digit(month / 10), Digit(month)] && s[8..] == [Digit(day / 10), Digit(day)];
    YearIsRead(year);
    PartIsRead(month);
    PartIsRead(day);
  }

  lemma YearIsRead(year: nat)
    requires year < 10000
    ensures Number([Digit(year / 1000), Digit(year / 100), Digit(year / 10), Digit(year)]) == year
  {
    hide Digit, Number;
    FourDigits(year / 1000, year / 100, year / 10, year);
    FourParts(year);
  }

  lemma PartIsRead(n: nat)
    requires n < 100
    ensures Number([Digit(n / 10), Digit(n)]) == n
  {
    hide Digit, Number;
    TwoDigits(n / 10, n);
  }

  // Date.UTC reads the years 0 to 99 as 1900 to 1999.
  function DateUTC(year: int, month: int, date: int): int {
    MakeDay(if 0 <= year <= 99 then 1900 + year else year, month, date)
  }

  /** getDueDateFlag: the value itself, or a refusal. */
  function GetDueDate(value: string): Option<string> {
    if !DateShape(value) then None
    else
      var (year, month, day) := Fields(value);
      var date := DateUTC(year, month - 1, day);
      if YearFromDay(date) != year || MonthFromDay(date) != month - 1 || DateFromDay(date) != day then None
      else Some(value)
  }

  /** For any three numbers, reading back what was written succeeds exactly for the real dates from the
      year 100 on (the earlier years land in the twentieth century). */
  lemma ReadsBackIffReal(year: nat, month: nat, day: nat)
    ensures var date := DateUTC(year, month - 1, day);
            (YearFromDay(date) == year && MonthFromDay(date) == month - 1 && DateFromDay(date) == day)
            <==> year >= 100 && RealDate(year, month, day)
  {
    hide DayFromYear, Leap, YearFromDay, MonthFromDay, DateFromDay, DaysBefore, DaysInMonth;
    var date := DateUTC(year, month - 1, day);
    if year >= 100 && RealDate(year, month, day) {
      RealDateReadsBack(year, month, day);
    }
    if YearFromDay(date) == year && MonthFromDay(date) == month - 1 && DateFromDay(date) == day {
      DayReadsBack(date);
      if year < 100 {
        assert (month - 1) / 12 == 0 && (month - 1) % 12 == month - 1;
        MonthsAscend(1900 + year, 0, month - 1);
        YearEnds(1900 + year);
        YearsAscend(year + 1, 1900 + year);
      }
    }
  }

  lemma AcceptsExactlyRealDates(value: string)
    ensures GetDueDate(value).Some?
       <==> DateShape(value) && Fields(value).0 >= 100 && RealDate(Fields(value).0, Fields(value).1, Fields(value).2)
    ensures GetDueDate(value).Some? ==> GetDueDate(value).value == value
  {
    hide DayFromYear, Leap, YearFromDay, MonthFromDay, DateFromDay, DaysInMonth, DateUTC, Number;
    if DateShape(value) {
      var (year, month, day) := Fields(value);
      ReadsBackIffReal(year, month, day);
    }
  }

  /** So of the written dates exactly the real ones from the year 100 on are accepted. */
  lemma WrittenDateIsAcceptedIffReal(year: nat, month: nat, day: nat)
    requires year < 10000 && month < 100 && day < 100
    ensures GetDueDate(WrittenDate(year, month, day)) == Some(WrittenDate(year, month, day))
       <==> year >= 100 && RealDate(year, month, day)
  {
    WrittenDateIsRead(year, month, day);
    hide GetDueDate, WrittenDate, DateShape, Fields, RealDate;
    AcceptsExactlyRealDates(WrittenDate(year, month, day));
  }

  /** A real date of the year 50 that is refused. */
  lemma EarlyYearsAreRefused()
    ensures RealDate(50, 1, 1) && GetDueDate("0050-01-01") == None
  {
    var value := "0050-01-01";
    assert value[..4] == "0050" && value[5..7] == "01" && value[8..] == "01";
    assert "0050"[..3] == "005" && "005"[..2] == "00" && "00"[..1] == "0" && "0"[..0] == "" && "01"[..1] == "0";
    assert Number("0") == 0 && Number("00") == 0 && Number("005") == 5 && Number("0050") == 50 && Number("01") == 1;
    AcceptsExactlyRealDates(value);
  }
}
