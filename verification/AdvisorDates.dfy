/** The advisor's date phrases, worked out on days by its own arithmetic. */
module AdvisorDates {
  import opened Wrappers
  import opened Calendar
  import opened IsoDates
  import opened Periods

  datatype Phrase =
    ThisMonth | LastMonth | ThisWeek | LastWeek | Last7 | Last14 | Last30 | Last90 | ThisYear | YearToDate | LastYear

  datatype DateRange = DateRange(from: string, to: string)

  /** `setUTCDate` on the start of the day. */
  function ShiftDays(d: int, days: int): int {
    var c := CivilOf(d);
    MakeDay(c.year, c.month, c.day + days)
  }

  function MondayOfWeek(d: int): int {
    var day := WeekDay(d);
    ShiftDays(d, -((if day == 0 then 7 else day) - 1))
  }

  /** The range a phrase stands for; `today` is the user's current date. */
  function Resolve(phrase: Phrase, today: string): DateRange
    requires IsDateText(today)
  {
    var d := ParseDate(today);
    var year, month := CivilOf(d).year, CivilOf(d).month;
    match phrase
    case ThisMonth => DateRange(IsoDate(UtcDay(year, month, 1)), today)
    case LastMonth => DateRange(IsoDate(UtcDay(year, month - 1, 1)), IsoDate(UtcDay(year, month, 0)))
    case ThisWeek => DateRange(IsoDate(MondayOfWeek(d)), today)
    case LastWeek =>
      DateRange(IsoDate(ShiftDays(MondayOfWeek(d), -7)), IsoDate(ShiftDays(MondayOfWeek(d), -1)))
    case Last7 => DateRange(IsoDate(ShiftDays(d, -6)), today)
    case Last14 => DateRange(IsoDate(ShiftDays(d, -13)), today)
    case Last30 => DateRange(IsoDate(ShiftDays(d, -29)), today)
    case Last90 => DateRange(IsoDate(ShiftDays(d, -89)), today)
    case ThisYear => DateRange(IsoDate(UtcDay(year, 0, 1)), today)
    case YearToDate => DateRange(IsoDate(UtcDay(year, 0, 1)), today)
    case LastYear => DateRange(IsoDate(UtcDay(year - 1, 0, 1)), IsoDate(UtcDay(year - 1, 11, 31)))
  }

  /** The range of the same length that ends the day before. */
  function PreviousRangeOf(current: DateRange): DateRange
    requires IsDateText(current.from) && IsDateText(current.to)
  {
    var from, to := ParseDate(current.from), ParseDate(current.to);
    DateRange(IsoDate(ShiftDays(from, -(to - from + 1))), IsoDate(ShiftDays(from, -1)))
  }

  lemma ShiftIsAddition(d: int, days: int)
    ensures ShiftDays(d, days) == d + days
  {
    hide CivilOf, MakeDay;
    ShiftedDate(d, days);
  }

  lemma MondayIsTheWeekStart(d: int)
    ensures MondayOfWeek(d) == StartDay(Weekly, d)
  {
    hide ShiftDays;
    ShiftIsAddition(d, StartDay(Weekly, d) - d);
  }

  /** "This week" opens with the current weekly period, "last week" is the previous one. */
  lemma WeeksAgreeWithPeriods(d: int)
    requires InCalendar(d)
    ensures IsDateText(IsoDate(d))
    ensures Resolve(ThisWeek, IsoDate(d)) == DateRange(BoundsOf(Weekly, d).start, IsoDate(d))
    ensures IsRange(Resolve(LastWeek, IsoDate(d)), BoundsOf(Weekly, d).previousStart, BoundsOf(Weekly, d).previousEnd)
  {
    hide IsoDate, CivilOf, UtcDay, ParseDate, IsDateText, YearFromDay, BoundsOf, StartDay, EndDay, MondayOfWeek, ShiftDays;
    ParseOfIso(d);
    BoundsOfText(Weekly, d);
    WeekPhrases(d);
  }

  /** "This month" opens with the current monthly period, "last month" is the previous one. */
  lemma MonthsAgreeWithPeriods(d: int)
    requires InCalendar(d)
    ensures IsDateText(IsoDate(d))
    ensures Resolve(ThisMonth, IsoDate(d)) == DateRange(BoundsOf(Monthly, d).start, IsoDate(d))
    ensures IsRange(Resolve(LastMonth, IsoDate(d)), BoundsOf(Monthly, d).previousStart, BoundsOf(Monthly, d).previousEnd)
  {
    hide IsoDate, CivilOf, UtcDay, ParseDate, IsDateText, YearFromDay, BoundsOf, StartDay, EndDay, MondayOfWeek, ShiftDays;
    ParseOfIso(d);
    BoundsOfText(Monthly, d);
    MonthPhrases(d);
  }

  /** "This year" and "year to date" open with the current yearly period, "last year" is the previous one. */
  lemma YearsAgreeWithPeriods(d: int)
    requires InCalendar(d)
    ensures IsDateText(IsoDate(d))
    ensures Resolve(ThisYear, IsoDate(d)) == Resolve(YearToDate, IsoDate(d))
    ensures Resolve(ThisYear, IsoDate(d)) == DateRange(BoundsOf(Yearly, d).start, IsoDate(d))
    ensures IsRange(Resolve(LastYear, IsoDate(d)), BoundsOf(Yearly, d).previousStart, BoundsOf(Yearly, d).previousEnd)
  {
    hide IsoDate, CivilOf, UtcDay, ParseDate, IsDateText, YearFromDay, BoundsOf, StartDay, EndDay, MondayOfWeek, ShiftDays;
    ParseOfIso(d);
    BoundsOfText(Yearly, d);
    YearPhrases(d);
  }

  /** "Last 7 days" and its like are that many days, today the last of them. */
  lemma LastDaysAreThatMany(d: int)
    requires InCalendar(d)
    ensures IsDateText(IsoDate(d))
    ensures Resolve(Last7, IsoDate(d)) == DateRange(IsoDate(d - 7 + 1), IsoDate(d))
    ensures Resolve(Last14, IsoDate(d)) == DateRange(IsoDate(d - 14 + 1), IsoDate(d))
    ensures Resolve(Last30, IsoDate(d)) == DateRange(IsoDate(d - 30 + 1), IsoDate(d))
    ensures Resolve(Last90, IsoDate(d)) == DateRange(IsoDate(d - 90 + 1), IsoDate(d))
  {
    hide IsoDate, CivilOf, ParseDate, IsDateText, YearFromDay, ShiftDays;
    ParseOfIso(d);
    ShiftIsAddition(d, -6);
    ShiftIsAddition(d, -13);
    ShiftIsAddition(d, -29);
    ShiftIsAddition(d, -89);
  }

  predicate IsRange(range: DateRange, from: Option<string>, to: Option<string>) {
    from == Some(range.from) && to == Some(range.to)
  }

  lemma WeekPhrases(d: int)
    ensures MondayOfWeek(d) == StartDay(Weekly, d)
    ensures ShiftDays(MondayOfWeek(d), -7) == StartDay(Weekly, StartDay(Weekly, d) - 1)
    ensures ShiftDays(MondayOfWeek(d), -1) == StartDay(Weekly, d) - 1
  {
    hide MondayOfWeek, ShiftDays, StartDay;
    MondayIsTheWeekStart(d);
    ShiftIsAddition(MondayOfWeek(d), -7);
    ShiftIsAddition(MondayOfWeek(d), -1);
    WeekBefore(d);
  }

  lemma MonthPhrases(d: int)
    requires InCalendar(d)
    ensures var c := CivilOf(d);
      && UtcDay(c.year, c.month, 1) == StartDay(Monthly, d)
      && UtcDay(c.year, c.month - 1, 1) == StartDay(Monthly, StartDay(Monthly, d) - 1)
      && UtcDay(c.year, c.month, 0) == StartDay(Monthly, d) - 1
  {
    hide CivilOf, MakeDay, YearFromDay, UtcDay, DaysInMonth;
    var c := CivilOf(d);
    UtcIsMakeDay(c.year, c.month, 1);
    UtcIsMakeDay(c.year, c.month - 1, 1);
    UtcIsMakeDay(c.year, c.month, 0);
    MonthBefore(c.year, c.month);
    DayBeforeFirst(c.year, c.month);
  }

  lemma YearPhrases(d: int)
    requires InCalendar(d)
    ensures var y := CivilOf(d).year;
      && UtcDay(y, 0, 1) == StartDay(Yearly, d)
      && UtcDay(y - 1, 0, 1) == StartDay(Yearly, StartDay(Yearly, d) - 1)
      && UtcDay(y - 1, 11, 31) == StartDay(Yearly, d) - 1
  {
    hide CivilOf, YearFromDay, DayFromYear;
    var y := CivilOf(d).year;
    NextYear(y - 1);
    YearIsUnique(DayFromYear(y) - 1, y - 1);
  }

  /** The previous range abuts the current one and is as long. */
  lemma PreviousRangeAbuts(a: int, b: int)
    requires a <= b && FourDigits(a) && FourDigits(b) && FourDigits(a - (b - a + 1)) && FourDigits(a - 1)
    ensures IsDateText(IsoDate(a)) && IsDateText(IsoDate(b))
    ensures PreviousRangeOf(DateRange(IsoDate(a), IsoDate(b))) == DateRange(IsoDate(a - (b - a + 1)), IsoDate(a - 1))
  {
    hide IsoDate, ShiftDays, ParseDate, IsDateText, YearFromDay;
    ParseOfIso(a);
    ParseOfIso(b);
    ShiftIsAddition(a, -(b - a + 1));
    ShiftIsAddition(a, -1);
  }
}
