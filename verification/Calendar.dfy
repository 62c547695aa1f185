/**
 * Days, years and months as section 21.4.1 of ECMA-262 defines them. A day is
 * the number of days since 1 January 1970; months count from zero.
 */
module Calendar {

  predicate IsLeapYear(y: int) { y % 4 == 0 && (y % 100 != 0 || y % 400 == 0) }

  function DaysInYear(y: int): int { if IsLeapYear(y) then 366 else 365 }

  function DayFromYear(y: int): int {
    365 * (y - 1970) + (y - 1969) / 4 - (y - 1901) / 100 + (y - 1601) / 400
  }

  lemma NextYear(y: int)
    ensures DayFromYear(y + 1) == DayFromYear(y) + DaysInYear(y)
  {
    FourthYears(y);
    Centuries(y);
    FourthCenturies(y);
    LeapDays(y);
  }

  lemma FourthYears(y: int)
    ensures (y - 1968) / 4 == (y - 1969) / 4 + (if y % 4 == 0 then 1 else 0)
  {
  }

  lemma Centuries(y: int)
    ensures (y - 1900) / 100 == (y - 1901) / 100 + (if y % 100 == 0 then 1 else 0)
  {
  }

  lemma FourthCenturies(y: int)
    ensures (y - 1600) / 400 == (y - 1601) / 400 + (if y % 400 == 0 then 1 else 0)
  {
  }

  lemma LeapDays(y: int)
    ensures DaysInYear(y) == 365 + (if y % 4 == 0 then 1 else 0) - (if y % 100 == 0 then 1 else 0) + (if y % 400 == 0 then 1 else 0)
  {
  }

  lemma {:induction false} YearsAdvance(a: int, b: int)
    requires a < b
    ensures DayFromYear(a) < DayFromYear(b)
    decreases b - a
  {
    NextYear(a);
    if a + 1 < b { YearsAdvance(a + 1, b); }
  }

  /** The year that contains a day. */
  function YearFromDay(d: int): (y: int)
    ensures DayFromYear(y) <= d < DayFromYear(y + 1)
  {
    SearchYear(d, 1970)
  }

  function SearchYear(d: int, y: int): (r: int)
    ensures DayFromYear(r) <= d < DayFromYear(r + 1)
    decreases d < DayFromYear(y), if d < DayFromYear(y) then DayFromYear(y) - d else d - DayFromYear(y)
  {
    NextYear(y);
    NextYear(y - 1);
    if d < DayFromYear(y) then SearchYear(d, y - 1)
    else if d >= DayFromYear(y + 1) then SearchYear(d, y + 1)
    else y
  }

  lemma YearIsUnique(d: int, y: int)
    requires DayFromYear(y) <= d < DayFromYear(y + 1)
    ensures YearFromDay(d) == y
  {
    var r := YearFromDay(d);
    if r < y {
      if r + 1 < y { YearsAdvance(r + 1, y); }
    } else if y < r {
      if y + 1 < r { YearsAdvance(y + 1, r); }
    }
  }

  /** Days of a year before its month `m`; month 12 stands for the end of the year. */
  function DaysBeforeMonth(m: int, leap: bool): (n: int)
    requires 0 <= m <= 12
  {
    (if m == 0 then 0 else if m == 1 then 31 else if m == 2 then 59 else if m == 3 then 90
     else if m == 4 then 120 else if m == 5 then 151 else if m == 6 then 181 else if m == 7 then 212
     else if m == 8 then 243 else if m == 9 then 273 else if m == 10 then 304 else if m == 11 then 334 else 365)
    + (if leap && m >= 2 then 1 else 0)
  }

  function DaysInMonth(y: int, m: int): (n: int)
    requires 0 <= m < 12
    ensures 28 <= n <= 31
  {
    DaysBeforeMonth(m + 1, IsLeapYear(y)) - DaysBeforeMonth(m, IsLeapYear(y))
  }

  /** The month a day of the year falls in. */
  function MonthWithin(k: int, leap: bool): (m: int)
    requires 0 <= k < (if leap then 366 else 365)
    ensures 0 <= m < 12 && DaysBeforeMonth(m, leap) <= k < DaysBeforeMonth(m + 1, leap)
  {
    var l := if leap then 1 else 0;
    if k < 31 then 0 else if k < 59 + l then 1 else if k < 90 + l then 2 else if k < 120 + l then 3
    else if k < 151 + l then 4 else if k < 181 + l then 5 else if k < 212 + l then 6 else if k < 243 + l then 7
    else if k < 273 + l then 8 else if k < 304 + l then 9 else if k < 334 + l then 10 else 11
  }

  datatype Civil = Civil(year: int, month: int, day: int)

  predicate IsCivil(c: Civil) { 0 <= c.month < 12 && 1 <= c.day <= DaysInMonth(c.year, c.month) }

  /** `getUTCFullYear`, `getUTCMonth` and `getUTCDate` of a day. */
  function CivilOf(d: int): (c: Civil)
    ensures IsCivil(c) && c.year == YearFromDay(d)
  {
    var y := YearFromDay(d);
    NextYear(y);
    var k := d - DayFromYear(y);
    var m := MonthWithin(k, IsLeapYear(y));
    Civil(y, m, k - DaysBeforeMonth(m, IsLeapYear(y)) + 1)
  }

  /** MakeDay: months outside 0..11 carry into the year, days outside the month into the month. */
  function MakeDay(year: int, month: int, date: int): int {
    var y := year + month / 12;
    DayFromYear(y) + DaysBeforeMonth(month % 12, IsLeapYear(y)) + date - 1
  }

  /** `Date.UTC(year, month, date)`, which reads the years 0 to 99 as 1900 to 1999. */
  function UtcDay(year: int, month: int, date: int): int {
    MakeDay(if 0 <= year <= 99 then 1900 + year else year, month, date)
  }

  function WeekDay(d: int): int { (d + 4) % 7 }

  /** Taking a day apart and putting it together changes nothing. */
  lemma MakeDayOfCivil(d: int)
    ensures MakeDay(CivilOf(d).year, CivilOf(d).month, CivilOf(d).day) == d
  {
    hide YearFromDay, DayFromYear, DaysBeforeMonth;
  }

  /** Moving the date within `setUTCDate` moves the day by as much. */
  lemma ShiftedDate(d: int, offset: int)
    ensures MakeDay(CivilOf(d).year, CivilOf(d).month, CivilOf(d).day + offset) == d + offset
  {
    MakeDayOfCivil(d);
    hide CivilOf, DayFromYear, DaysBeforeMonth, IsLeapYear;
  }

  lemma DaysBeforeMonthBounds(m: int, leap: bool)
    requires 0 <= m < 12
    ensures 0 <= DaysBeforeMonth(m, leap) < DaysBeforeMonth(m + 1, leap) <= (if leap then 366 else 365)
  {
  }

  lemma MonthIsUnique(k: int, m: int, leap: bool)
    requires 0 <= k < (if leap then 366 else 365)
    requires 0 <= m < 12 && DaysBeforeMonth(m, leap) <= k < DaysBeforeMonth(m + 1, leap)
    ensures MonthWithin(k, leap) == m
  {
  }

  /** Putting a calendar date together and taking it apart changes nothing. */
  lemma CivilOfMakeDay(c: Civil)
    requires IsCivil(c)
    ensures CivilOf(MakeDay(c.year, c.month, c.day)) == c
  {
    hide YearFromDay, DayFromYear, DaysBeforeMonth, MonthWithin;
    var leap := IsLeapYear(c.year);
    var d := MakeDay(c.year, c.month, c.day);
    DaysBeforeMonthBounds(c.month, leap);
    NextYear(c.year);
    YearIsUnique(d, c.year);
    MonthIsUnique(d - DayFromYear(c.year), c.month, leap);
  }

  /** The last day of a month is the day before the first of the next. */
  lemma MonthLength(y: int, m: int)
    requires 0 <= m < 12
    ensures MakeDay(y, m + 1, 0) == MakeDay(y, m, DaysInMonth(y, m))
  {
    hide DayFromYear, IsLeapYear;
    NextYear(y);
    if m == 11 {
      assert 12 / 12 == 1 && 12 % 12 == 0 && 11 / 12 == 0;
    } else {
      assert (m + 1) / 12 == 0 && (m + 1) % 12 == m + 1;
    }
  }

  predicate CivilBefore(a: Civil, b: Civil) {
    a.year < b.year || (a.year == b.year && (a.month < b.month || (a.month == b.month && a.day < b.day)))
  }

  lemma {:induction false} MonthsAdvance(a: int, b: int, leap: bool)
    requires 0 <= a < b <= 12
    ensures DaysBeforeMonth(a + 1, leap) <= DaysBeforeMonth(b, leap)
  {
  }

  /** Days are ordered as their calendar dates are. */
  lemma DayOrder(a: int, b: int)
    ensures a < b <==> CivilBefore(CivilOf(a), CivilOf(b))
  {
    if a < b { DaysInOrder(a, b); }
    if b < a { DaysInOrder(b, a); }
  }

  lemma DaysInOrder(a: int, b: int)
    requires a < b
    ensures CivilBefore(CivilOf(a), CivilOf(b))
  {
    hide YearFromDay, DayFromYear, DaysBeforeMonth, MonthWithin;
    var y, z := YearFromDay(a), YearFromDay(b);
    if z < y {
      if z + 1 < y { YearsAdvance(z + 1, y); }
    } else if y == z {
      var m, n := CivilOf(a).month, CivilOf(b).month;
      if n < m { MonthsAdvance(n, m, IsLeapYear(y)); }
    }
  }
}
