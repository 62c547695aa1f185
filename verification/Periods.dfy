/** Budget periods over date-only text, and the days they stand for. */
module Periods {
  import opened Wrappers
  import opened Text
  import opened Calendar
  import opened IsoDates

  datatype PeriodType = Weekly | Monthly | Yearly | Custom

  datatype PeriodBounds = PeriodBounds(
    start: string, end: string, previousStart: Option<string>, previousEnd: Option<string>)

  /** Days for which every neighbouring period still has a four-digit year from 1000 on. */
  predicate InCalendar(d: int) { 1001 <= YearFromDay(d) <= 9998 }

  predicate IsToday(s: string) { IsDateText(s) && InCalendar(ParseDate(s)) }

  // ---------- the text functions ----------

  /** `setUTCDate(getUTCDate() + days)` on parsed text, printed again. */
  function AddDays(date: string, days: int): (r: string)
    requires IsDateText(date)
  {
    var c := CivilOf(ParseDate(date));
    IsoDate(MakeDay(c.year, c.month, c.day + days))
  }

  lemma AddDaysIsDayArithmetic(date: string, days: int)
    requires IsDateText(date)
    ensures AddDays(date, days) == IsoDate(ParseDate(date) + days)
  {
    hide CivilOf, IsoDate, MakeDay, ParseDate, IsDateText;
    ShiftedDate(ParseDate(date), days);
  }

  function DayOfWeek(date: string): int
    requires IsDateText(date)
  {
    WeekDay(ParseDate(date))
  }

  function MonthStart(year: int, month: int): string { IsoDate(UtcDay(year, month, 1)) }

  function MonthEnd(year: int, month: int): string { IsoDate(UtcDay(year, month + 1, 0)) }

  function YearOf(date: string): int
    requires IsDateText(date)
  {
    Value(date[..4])
  }

  function MonthIndexOf(date: string): int
    requires IsDateText(date)
  {
    Value(date[5..7]) - 1
  }

  function NumberText(n: int): string { if n < 0 then "-" + NatText(-n) else NatText(n) }

  /** The period `today` falls in; `None` is the error for a custom budget without dates. */
  function CurrentPeriodBounds(
    period: PeriodType, today: string, customStart: Option<string>, customEnd: Option<string>): Option<PeriodBounds>
    requires IsToday(today)
  {
    match period
    case Weekly =>
      var mondayOffset := (DayOfWeek(today) + 6) % 7;
      var start := AddDays(today, -mondayOffset);
      WeekStartIsDate(today, mondayOffset);
      Some(PeriodBounds(start, AddDays(start, 6), Some(AddDays(start, -7)), Some(AddDays(start, -1))))
    case Monthly =>
      var year, month := YearOf(today), MonthIndexOf(today);
      Some(PeriodBounds(MonthStart(year, month), MonthEnd(year, month),
                        Some(MonthStart(year, month - 1)), Some(MonthEnd(year, month - 1))))
    case Yearly =>
      var year := YearOf(today);
      Some(PeriodBounds(NumberText(year) + "-01-01", NumberText(year) + "-12-31",
                        Some(NumberText(year - 1) + "-01-01"), Some(NumberText(year - 1) + "-12-31")))
    case Custom =>
      if customStart.GetOr("") == "" || customEnd.GetOr("") == "" then None
      else Some(PeriodBounds(customStart.GetOr(""), customEnd.GetOr(""), None, None))
  }

  lemma WeekStartIsDate(today: string, mondayOffset: int)
    requires IsToday(today) && 0 <= mondayOffset < 7
    ensures IsDateText(AddDays(today, -mondayOffset))
    ensures ParseDate(AddDays(today, -mondayOffset)) == ParseDate(today) - mondayOffset
  {
    hide AddDays, IsoDate, ParseDate, IsDateText, YearFromDay;
    var d := ParseDate(today);
    AddDaysIsDayArithmetic(today, -mondayOffset);
    NearbyDaysHaveFourDigits(d, -mondayOffset);
    ParseOfIso(d - mondayOffset);
  }

  /** Text comparison with the end date; zero once the period is over. */
  function DaysRemaining(today: string, end: string): int
    requires IsDateText(today) && IsDateText(end)
  {
    if Before(end, today) then 0 else ParseDate(end) - ParseDate(today) + 1
  }

  predicate IsPeriodEnded(today: string, end: string) { Before(end, today) }

  function PeriodKey(period: PeriodType, bounds: PeriodBounds): string {
    match period
    case Weekly => "w:" + bounds.start
    case Monthly => "m:" + bounds.start
    case Yearly => "y:" + bounds.start
    case Custom => "c:" + (bounds.start + (":" + bounds.end))
  }

  // ---------- the days they stand for ----------

  /** First day of the week, month or year a day belongs to. */
  function StartDay(period: PeriodType, d: int): int
    requires period != Custom
  {
    match period
    case Weekly => d - (WeekDay(d) + 6) % 7
    case Monthly => MakeDay(CivilOf(d).year, CivilOf(d).month, 1)
    case Yearly => DayFromYear(YearFromDay(d))
  }

  /** Last day of the week, month or year a day belongs to. */
  function EndDay(period: PeriodType, d: int): int
    requires period != Custom
  {
    match period
    case Weekly => StartDay(Weekly, d) + 6
    case Monthly => MakeDay(CivilOf(d).year, CivilOf(d).month, DaysInMonth(CivilOf(d).year, CivilOf(d).month))
    case Yearly => DayFromYear(YearFromDay(d) + 1) - 1
  }

  lemma NearbyDaysHaveFourDigits(d: int, offset: int)
    requires InCalendar(d) && -365 <= offset <= 365
    ensures 1000 <= YearFromDay(d + offset) <= 9999
  {
    hide YearFromDay, DayFromYear;
    var y := YearFromDay(d);
    NextYear(y - 1);
    NextYear(y);
    NextYear(y + 1);
    if d + offset < DayFromYear(y) {
      YearIsUnique(d + offset, y - 1);
    } else if d + offset < DayFromYear(y + 1) {
      YearIsUnique(d + offset, y);
    } else {
      YearIsUnique(d + offset, y + 1);
    }
  }

  // ---------- periods partition the days ----------

  lemma SameMonth(d: int, e: int)
    requires StartDay(Monthly, d) <= e <= EndDay(Monthly, d)
    ensures CivilOf(e).year == CivilOf(d).year && CivilOf(e).month == CivilOf(d).month
  {
    hide CivilOf, DaysInMonth, DayFromYear, DaysBeforeMonth;
    var c := CivilOf(d);
    var f := Civil(c.year, c.month, e - MakeDay(c.year, c.month, 1) + 1);
    CivilOfMakeDay(f);
  }

  /** Every day lies in its period, and all days of a period have the same one. */
  lemma PeriodContains(period: PeriodType, d: int)
    requires period != Custom
    ensures StartDay(period, d) <= d <= EndDay(period, d)
    ensures EndDay(period, d) - StartDay(period, d) < 366
    ensures forall e :: StartDay(period, d) <= e <= EndDay(period, d) ==>
      StartDay(period, e) == StartDay(period, d) && EndDay(period, e) == EndDay(period, d)
  {
    hide CivilOf, YearFromDay, DayFromYear, DaysBeforeMonth;
    match period {
      case Weekly =>
      case Monthly =>
        MakeDayOfCivil(d);
        forall e | StartDay(period, d) <= e <= EndDay(period, d)
          ensures StartDay(period, e) == StartDay(period, d) && EndDay(period, e) == EndDay(period, d)
        {
          SameMonth(d, e);
        }
      case Yearly =>
        NextYear(YearFromDay(d));
        forall e | StartDay(period, d) <= e <= EndDay(period, d)
          ensures YearFromDay(e) == YearFromDay(d)
        {
          YearIsUnique(e, YearFromDay(d));
        }
    }
  }

  lemma MonthAfter(y: int, m: int)
    requires 0 <= m < 12
    ensures MakeDay(y, m, DaysInMonth(y, m)) + 1 == MakeDay(y, m + 1, 1)
    ensures CivilOf(MakeDay(y, m + 1, 1)) == Civil(y + (m + 1) / 12, (m + 1) % 12, 1)
  {
    hide CivilOf, MakeDay, DaysInMonth;
    MonthLength(y, m);
    DayBeforeFirst(y, m + 1);
    CivilOfMakeDay(Civil(y + (m + 1) / 12, (m + 1) % 12, 1));
    CarriedMonth(y, m + 1, 1);
  }

  lemma CarriedMonth(y: int, m: int, date: int)
    ensures MakeDay(y, m, date) == MakeDay(y + m / 12, m % 12, date)
  {
    hide DayFromYear, DaysBeforeMonth, IsLeapYear;
    assert (m % 12) / 12 == 0 && (m % 12) % 12 == m % 12;
  }

  lemma MonthBefore(y: int, m: int)
    requires 0 <= m < 12
    ensures var c := CivilOf(MakeDay(y, m, 1) - 1);
      && c.month == (m - 1) % 12 && c.year == y + (m - 1) / 12 && c.day == DaysInMonth(c.year, c.month)
      && MakeDay(y, m, 0) == MakeDay(c.year, c.month, c.day)
      && MakeDay(y, m - 1, 1) == MakeDay(c.year, c.month, 1)
  {
    hide CivilOf, MakeDay, DaysInMonth;
    var z, n := y + (m - 1) / 12, (m - 1) % 12;
    assert z + (n + 1) / 12 == y && (n + 1) % 12 == m by { PreviousMonthCarries(m); }
    MonthLength(z, n);
    CarriedMonth(z, n + 1, 0);
    CarriedMonth(y, m - 1, 1);
    DayBeforeFirst(y, m);
    CivilOfMakeDay(Civil(z, n, DaysInMonth(z, n)));
  }

  lemma PreviousMonthCarries(m: int)
    requires 0 <= m < 12
    ensures (m - 1) / 12 + ((m - 1) % 12 + 1) / 12 == 0 && ((m - 1) % 12 + 1) % 12 == m
  {
  }

  /** The day after a period opens the next one, and the day before it closes the previous one. */
  lemma PeriodsAbut(period: PeriodType, d: int)
    requires period != Custom
    ensures StartDay(period, EndDay(period, d) + 1) == EndDay(period, d) + 1
    ensures EndDay(period, StartDay(period, d) - 1) == StartDay(period, d) - 1
  {
    hide CivilOf, YearFromDay, DayFromYear, DaysBeforeMonth, DaysInMonth;
    match period {
      case Weekly =>
      case Monthly =>
        var c := CivilOf(d);
        MonthAfter(c.year, c.month);
        MonthBefore(c.year, c.month);
      case Yearly =>
        var y := YearFromDay(d);
        NextYear(y + 1);
        NextYear(y - 1);
        YearIsUnique(DayFromYear(y + 1), y + 1);
        YearIsUnique(DayFromYear(y) - 1, y - 1);
    }
  }

  // ---------- the text functions name exactly those days ----------

  lemma UtcIsMakeDay(year: int, month: int, date: int)
    requires 1000 <= year
    ensures UtcDay(year, month, date) == MakeDay(year, month, date)
  {
  }

  lemma YearText(y: int)
    requires 1000 <= y <= 9999
    ensures NumberText(y) + "-01-01" == IsoDate(DayFromYear(y))
    ensures NumberText(y) + "-12-31" == IsoDate(DayFromYear(y + 1) - 1)
  {
    hide CivilOf, DayFromYear, NatText, Fixed, MakeDay;
    FourDigitText(y);
    SmallTexts();
    CivilOfMakeDay(Civil(y, 0, 1));
    CivilOfMakeDay(Civil(y, 11, 31));
    YearEnds(y);
  }

  lemma FourDigitText(y: int)
    requires 1000 <= y <= 9999
    ensures Fixed(y, 4) == NatText(y) == NumberText(y)
  {
    hide NatText, Zeros;
    assert Pow10(3) == 1000;
    NatTextLength(y, 3);
    FixedShape(y, 4);
  }

  lemma YearEnds(y: int)
    ensures MakeDay(y, 0, 1) == DayFromYear(y)
    ensures MakeDay(y, 11, 31) == DayFromYear(y + 1) - 1
  {
    NextYear(y);
    hide DayFromYear, IsLeapYear;
  }

  lemma SmallTexts()
    ensures Fixed(1, 2) == "01" && Fixed(12, 2) == "12" && Fixed(31, 2) == "31"
  {
    assert Zeros(1) == "0" + Zeros(0);
    assert NatText(1) == "1" && NatText(3) == "3";
    assert NatText(12) == NatText(1) + "2";
    assert NatText(31) == NatText(3) + "1";
  }

  /** On text, the bounds are those of the day's period and of the period before it. */
  lemma BoundsText(period: PeriodType, d: int, customStart: Option<string>, customEnd: Option<string>)
    requires period != Custom && InCalendar(d)
    ensures IsToday(IsoDate(d))
    ensures CurrentPeriodBounds(period, IsoDate(d), customStart, customEnd)
         == Some(PeriodBounds(IsoDate(StartDay(period, d)), IsoDate(EndDay(period, d)),
                              Some(IsoDate(StartDay(period, StartDay(period, d) - 1))),
                              Some(IsoDate(StartDay(period, d) - 1))))
  {
    hide IsoDate, CivilOf, DayFromYear, MakeDay, ParseDate, YearFromDay, DaysInMonth;
    ParseOfIso(d);
    match period {
      case Weekly =>
        WeeklyText(d);
        WeekBefore(d);
      case Monthly =>
        MonthlyText(d);
      case Yearly =>
        var y := YearFromDay(d);
        YearText(y);
        YearText(y - 1);
        NextYear(y - 1);
        YearIsUnique(DayFromYear(y) - 1, y - 1);
    }
  }

  lemma WeekBefore(d: int)
    ensures StartDay(Weekly, StartDay(Weekly, d) - 1) == StartDay(Weekly, d) - 7
  {
  }

  /** Weeks start on Mondays: as many weeks after 5 January 1970, which was one. */
  lemma WeeksStartOnMondays(d: int)
    ensures StartDay(Weekly, d) == d <==> (d - MakeDay(1970, 0, 5)) % 7 == 0
    ensures d - 6 <= StartDay(Weekly, d) <= d && (StartDay(Weekly, d) - MakeDay(1970, 0, 5)) % 7 == 0
  {
    assert MakeDay(1970, 0, 5) == 4;
  }

  lemma WeeklyText(d: int)
    requires InCalendar(d) && IsToday(IsoDate(d)) && ParseDate(IsoDate(d)) == d
    ensures CurrentPeriodBounds(Weekly, IsoDate(d), None, None)
         == Some(PeriodBounds(IsoDate(StartDay(Weekly, d)), IsoDate(EndDay(Weekly, d)),
                              Some(IsoDate(StartDay(Weekly, d) - 7)), Some(IsoDate(StartDay(Weekly, d) - 1))))
  {
    hide IsoDate, ParseDate, YearFromDay, IsDateText, AddDays, WeekDay;
    var s := StartDay(Weekly, d);
    WeekStartIsDate(IsoDate(d), d - s);
    AddDaysIsDayArithmetic(IsoDate(d), s - d);
    AddDaysIsDayArithmetic(IsoDate(s), 6);
    AddDaysIsDayArithmetic(IsoDate(s), -7);
    AddDaysIsDayArithmetic(IsoDate(s), -1);
  }

  lemma MonthlyText(d: int)
    requires InCalendar(d) && IsToday(IsoDate(d)) && ParseDate(IsoDate(d)) == d
    requires SpelledDate(IsoDate(d)) == CivilOf(d)
    ensures CurrentPeriodBounds(Monthly, IsoDate(d), None, None)
         == Some(PeriodBounds(IsoDate(StartDay(Monthly, d)), IsoDate(EndDay(Monthly, d)),
                              Some(IsoDate(StartDay(Monthly, StartDay(Monthly, d) - 1))),
                              Some(IsoDate(StartDay(Monthly, d) - 1))))
  {
    hide IsoDate, CivilOf, DayFromYear, MakeDay, ParseDate, YearFromDay, DaysInMonth, UtcDay, Value;
    var c := CivilOf(d);
    MonthLength(c.year, c.month);
    MonthBefore(c.year, c.month);
    UtcIsMakeDay(c.year, c.month, 1);
    UtcIsMakeDay(c.year, c.month + 1, 0);
    UtcIsMakeDay(c.year, c.month - 1, 1);
    UtcIsMakeDay(c.year, c.month, 0);
    assert MakeDay(c.year, c.month, 0) == MakeDay(c.year, c.month, 1) - 1 by { DayBeforeFirst(c.year, c.month); }
  }

  lemma DayBeforeFirst(y: int, m: int)
    ensures MakeDay(y, m, 0) == MakeDay(y, m, 1) - 1
  {
  }

  // ---------- what the text functions promise ----------

  /** The bounds of the period that day `d` falls in. */
  function BoundsOf(period: PeriodType, d: int): PeriodBounds
    requires period != Custom && InCalendar(d)
  {
    BoundsText(period, d, None, None);
    CurrentPeriodBounds(period, IsoDate(d), None, None).value
  }

  lemma BoundsOfText(period: PeriodType, d: int)
    requires period != Custom && InCalendar(d)
    ensures var b := BoundsOf(period, d);
      && b.start == IsoDate(StartDay(period, d)) && FourDigits(StartDay(period, d))
      && b.end == IsoDate(EndDay(period, d)) && FourDigits(EndDay(period, d))
      && b.previousStart == Some(IsoDate(StartDay(period, StartDay(period, d) - 1)))
      && b.previousEnd == Some(IsoDate(StartDay(period, d) - 1))
  {
    hide IsoDate, StartDay, EndDay, YearFromDay, CurrentPeriodBounds, IsToday;
    BoundsText(period, d, None, None);
    PeriodContains(period, d);
    NearbyDaysHaveFourDigits(d, StartDay(period, d) - d);
    NearbyDaysHaveFourDigits(d, EndDay(period, d) - d);
  }

  /** Two days have the same bounds exactly when one lies, as text, within the bounds of the other. */
  lemma PeriodsPartitionDates(period: PeriodType, d: int, e: int)
    requires period != Custom && InCalendar(d) && InCalendar(e)
    ensures var b, today := BoundsOf(period, d), IsoDate(e);
      BoundsOf(period, e) == b <==> !Before(today, b.start) && !Before(b.end, today)
  {
    hide IsoDate, StartDay, EndDay, YearFromDay, BoundsOf, Before;
    var b := BoundsOf(period, d);
    BoundsOfText(period, d);
    BoundsOfText(period, e);
    PeriodContains(period, d);
    PeriodContains(period, e);
    IsoOrder(e, StartDay(period, d));
    IsoOrder(EndDay(period, d), e);
    if BoundsOf(period, e) == b {
      SameText(StartDay(period, d), StartDay(period, e));
      SameText(EndDay(period, d), EndDay(period, e));
    }
  }

  /** Different four-digit days print differently. */
  lemma SameText(a: int, b: int)
    requires FourDigits(a) && FourDigits(b) && IsoDate(a) == IsoDate(b)
    ensures a == b
  {
    hide IsoDate, YearFromDay, ParseDate;
    ParseOfIso(a);
    ParseOfIso(b);
  }

  /** Today is inside its own bounds, and so never past the end: such a budget is never complete. */
  lemma TodayIsInItsPeriod(period: PeriodType, d: int)
    requires period != Custom && InCalendar(d)
    ensures var b := BoundsOf(period, d);
      && !Before(IsoDate(d), b.start) && !IsPeriodEnded(IsoDate(d), b.end)
  {
    hide IsoDate, BoundsOf, Before;
    PeriodsPartitionDates(period, d, d);
  }

  /** The previous bounds are the bounds of the period before, which ends the day before this one starts. */
  lemma PreviousIsThePeriodBefore(period: PeriodType, d: int)
    requires period != Custom && InCalendar(d) && InCalendar(StartDay(period, StartDay(period, d) - 1))
    ensures var b := BoundsOf(period, d);
      var before := BoundsOf(period, StartDay(period, StartDay(period, d) - 1));
      && b.previousStart == Some(before.start) && b.previousEnd == Some(before.end)
      && IsDateText(before.end) && AddDays(before.end, 1) == b.start
  {
    hide IsoDate, StartDay, EndDay, YearFromDay, BoundsOf, AddDays, IsDateText, ParseDate;
    var s := StartDay(period, d);
    BoundsOfText(period, d);
    PeriodsAbut(period, d);
    PeriodContains(period, s - 1);
    BoundsOfText(period, StartDay(period, s - 1));
    ParseOfIso(s - 1);
    AddDaysIsDayArithmetic(IsoDate(s - 1), 1);
  }

  /** The dedupe key tells the periods of one type apart and nothing more. */
  lemma SameKeyIffSamePeriod(period: PeriodType, d: int, e: int)
    requires period != Custom && InCalendar(d) && InCalendar(e)
    ensures PeriodKey(period, BoundsOf(period, d)) == PeriodKey(period, BoundsOf(period, e))
       <==> BoundsOf(period, d) == BoundsOf(period, e)
  {
    hide IsoDate, StartDay, EndDay, YearFromDay, BoundsOf;
    BoundsOfText(period, d);
    BoundsOfText(period, e);
    var a, b := StartDay(period, d), StartDay(period, e);
    if PeriodKey(period, BoundsOf(period, d)) == PeriodKey(period, BoundsOf(period, e)) {
      assert IsoDate(a) == IsoDate(b) by {
        assert PeriodKey(period, BoundsOf(period, d))[2..] == IsoDate(a);
        assert PeriodKey(period, BoundsOf(period, e))[2..] == IsoDate(b);
      }
      SameText(a, b);
      PeriodContains(period, d);
      PeriodContains(period, e);
      assert StartDay(period, a) == a && EndDay(period, a) == EndDay(period, d);
    }
  }

  /** Letter, colon and first day: keys of different period types never meet. */
  lemma KeyNamesThePeriod(d: int, e: int, p: PeriodType, q: PeriodType)
    requires InCalendar(d) && InCalendar(e) && p != Custom && q != Custom
    ensures PeriodKey(Weekly, BoundsOf(Weekly, d)) == "w:" + IsoDate(StartDay(Weekly, d))
    ensures PeriodKey(Monthly, BoundsOf(Monthly, d)) == "m:" + IsoDate(StartDay(Monthly, d))
    ensures PeriodKey(Yearly, BoundsOf(Yearly, d)) == "y:" + IsoDate(StartDay(Yearly, d))
    ensures forall bounds :: PeriodKey(Custom, bounds) == "c:" + bounds.start + ":" + bounds.end
    ensures PeriodKey(p, BoundsOf(p, d)) == PeriodKey(q, BoundsOf(q, e)) <==> p == q && BoundsOf(p, d) == BoundsOf(p, e)
  {
    hide IsoDate, StartDay, EndDay, YearFromDay, BoundsOf;
    BoundsOfText(Weekly, d);
    BoundsOfText(Monthly, d);
    BoundsOfText(Yearly, d);
    forall bounds: PeriodBounds ensures PeriodKey(Custom, bounds) == "c:" + bounds.start + ":" + bounds.end {
      assert "c:" + (bounds.start + (":" + bounds.end)) == "c:" + bounds.start + ":" + bounds.end;
    }
    if p == q {
      SameKeyIffSamePeriod(p, d, e);
    } else {
      assert PeriodKey(p, BoundsOf(p, d))[0] != PeriodKey(q, BoundsOf(q, e))[0];
    }
  }

  /** The days left, counted from text, are those up to the end of the period, today included. */
  lemma DaysRemainingCountsTheRest(period: PeriodType, d: int)
    requires period != Custom && InCalendar(d)
    ensures IsDateText(IsoDate(d)) && IsDateText(BoundsOf(period, d).end)
    ensures DaysRemaining(IsoDate(d), BoundsOf(period, d).end) == EndDay(period, d) - d + 1 >= 1
  {
    hide IsoDate, StartDay, EndDay, YearFromDay, BoundsOf, ParseDate, IsDateText, Before;
    BoundsOfText(period, d);
    PeriodContains(period, d);
    ParseOfIso(d);
    ParseOfIso(EndDay(period, d));
    IsoOrder(EndDay(period, d), d);
  }
}
