/** Budget status: spending in the current period against an amount plus what earlier periods left unused. */
module Budgets {
  import opened Wrappers
  import opened Text
  import opened Money
  import opened Percent
  import opened Calendar
  import opened IsoDates
  import opened Periods
  import Spending

  const DEFAULT_BUDGET_WARNING_THRESHOLD: int := 80
  const MAX_ROLLOVER_PERIODS: nat := 12

  /** A budget row; `amount` is its NUMERIC(20,6) column as a scaled integer. */
  datatype Budget = Budget(
    currency: string, amount: int, period: PeriodType, categoryId: Option<string>, accountId: Option<string>,
    customStart: Option<string>, customEnd: Option<string>,
    warningThreshold: Option<int>, rolloverEnabled: bool, createdDate: string)

  datatype Status = Healthy | Approaching | Exceeded | Complete

  datatype BudgetStatus = BudgetStatus(
    periodStart: string, periodEnd: string, periodKey: string, limit: string, spent: string, remaining: string,
    percentageUsed: string, daysRemaining: int, status: Status, previousSpent: Option<string>, rolloverCarried: string)

  datatype BudgetError = CustomDatesRequired | AmountUnreadable

  /** What the columns' types and the year range of the model guarantee. */
  ghost predicate StoredBudget(b: Budget) {
    && InRange(b.amount) && IsDateText(b.createdDate)
    && (b.customStart.Some? ==> IsDateText(b.customStart.value))
    && (b.customEnd.Some? ==> IsDateText(b.customEnd.value))
  }

  /** Today, with room for twelve yearly look-backs. */
  ghost predicate BudgetToday(today: string) { IsToday(today) && 1020 <= YearFromDay(ParseDate(today)) }

  function StatusOf(limit: string, spent: string, threshold: int, periodEnded: bool): Option<Status> {
    if periodEnded then Some(Complete)
    else
      var full :- PercentReached(spent, limit, 100);
      var warned :- PercentReached(spent, limit, threshold);
      Some(if full then Exceeded else if warned then Approaching else Healthy)
  }

  // ---------- spending per period, on days ----------

  function ScopeOf(b: Budget, from: int, to: int): Spending.Scope {
    Spending.Scope(b.currency, from, to, b.accountId)
  }

  /** What the budget's category, or everything, was charged over some days. */
  function SpentOver(db: Spending.Database, userId: string, b: Budget, from: int, to: int): int {
    Spending.SpentIn(db, userId, ScopeOf(b, from, to), b.categoryId)
  }

  predicate Readable(db: Spending.Database, userId: string, b: Budget, from: int, to: int) {
    Spending.AllInRange(Spending.SpendingGroups(db, userId, ScopeOf(b, from, to)))
  }

  /** First day of the period `j` periods before the one `d` is in. */
  function PeriodBack(period: PeriodType, d: int, j: nat): int
    requires period != Custom
  {
    if j == 0 then StartDay(period, d) else StartDay(period, PeriodBack(period, d, j - 1) - 1)
  }

  /** Spent in the `j`-th period before the current one. */
  function SpentBack(db: Spending.Database, userId: string, b: Budget, d: int, j: nat): int
    requires b.period != Custom && j >= 1
  {
    SpentOver(db, userId, b, PeriodBack(b.period, d, j), PeriodBack(b.period, d, j - 1) - 1)
  }

  /** Unused amounts of the last `k` periods, overspent ones counting nothing. */
  function Carry(db: Spending.Database, userId: string, b: Budget, d: int, k: nat): int
    requires b.period != Custom
  {
    if k == 0 then 0
    else
      var unused := b.amount - SpentBack(db, userId, b, d, k);
      Carry(db, userId, b, d, k - 1) + (if unused < 0 then 0 else unused)
  }

  predicate CreatedBy(period: PeriodType, d: int, created: int, j: nat)
    requires period != Custom
  {
    PeriodBack(period, d, j) <= created
  }

  /** How many periods the loop visits: it stops at the one the budget was created in, or after twelve. */
  function Lookback(period: PeriodType, d: int, created: int, j: nat): (k: nat)
    requires period != Custom && 1 <= j <= MAX_ROLLOVER_PERIODS
    ensures j <= k <= MAX_ROLLOVER_PERIODS
    decreases MAX_ROLLOVER_PERIODS - j
  {
    if j == MAX_ROLLOVER_PERIODS || CreatedBy(period, d, created, j) then j
    else Lookback(period, d, created, j + 1)
  }

  /** The loop visits period `j` exactly when it did not stop at an earlier one. */
  lemma {:induction false} LookbackStops(period: PeriodType, d: int, created: int, j: nat)
    requires period != Custom && 1 <= j <= MAX_ROLLOVER_PERIODS
    ensures var k := Lookback(period, d, created, j);
      && (k == MAX_ROLLOVER_PERIODS || CreatedBy(period, d, created, k))
      && (forall i :: j <= i < k ==> !CreatedBy(period, d, created, i))
    decreases MAX_ROLLOVER_PERIODS - j
  {
    hide CreatedBy;
    if j < MAX_ROLLOVER_PERIODS && !CreatedBy(period, d, created, j) {
      LookbackStops(period, d, created, j + 1);
    }
  }

  /** The unused amount of period `j` can be computed: everything it adds reads back. */
  ghost predicate PeriodComputable(db: Spending.Database, userId: string, b: Budget, d: int, j: nat)
    requires b.period != Custom && j >= 1
  {
    var spent := SpentBack(db, userId, b, d, j);
    && Readable(db, userId, b, PeriodBack(b.period, d, j), PeriodBack(b.period, d, j - 1) - 1)
    && InRange(spent) && InRange(b.amount - spent)
    && (b.amount - spent >= 0 ==> InRange(Carry(db, userId, b, d, j - 1)))
  }

  // ---------- periods back in time ----------

  lemma {:induction false} PeriodsGoBack(period: PeriodType, d: int, j: nat)
    requires period != Custom
    ensures d - 366 * (j + 1) <= PeriodBack(period, d, j) <= d
    ensures j > 0 ==> PeriodBack(period, d, j) < PeriodBack(period, d, j - 1)
    ensures StartDay(period, PeriodBack(period, d, j)) == PeriodBack(period, d, j)
  {
    hide StartDay, EndDay;
    if j == 0 {
      PeriodContains(period, d);
    } else {
      PeriodsGoBack(period, d, j - 1);
      PeriodContains(period, PeriodBack(period, d, j - 1) - 1);
    }
  }

  /** The period that starts at `PeriodBack(j)` ends the day before `PeriodBack(j - 1)`. */
  lemma PeriodBackEnds(period: PeriodType, d: int, j: nat)
    requires period != Custom && j >= 1
    ensures EndDay(period, PeriodBack(period, d, j)) == PeriodBack(period, d, j - 1) - 1
    ensures StartDay(period, PeriodBack(period, d, j)) == PeriodBack(period, d, j)
  {
    hide StartDay, EndDay;
    PeriodsGoBack(period, d, j - 1);
    PeriodsGoBack(period, d, j);
    PeriodsAbut(period, PeriodBack(period, d, j - 1));
    PeriodContains(period, PeriodBack(period, d, j - 1) - 1);
  }

  lemma {:induction false} ManyYears(y: int, m: nat)
    ensures DayFromYear(y - m) + 365 * m <= DayFromYear(y)
  {
    hide DayFromYear;
    if m > 0 {
      ManyYears(y, m - 1);
      NextYear(y - m);
    }
  }

  /** Looking back a dozen periods stays inside the calendar the text functions cover. */
  lemma LookbackStaysInCalendar(period: PeriodType, d: int, j: nat)
    requires period != Custom && InCalendar(d) && 1020 <= YearFromDay(d) && j <= 13
    ensures InCalendar(PeriodBack(period, d, j)) && FourDigits(PeriodBack(period, d, j) - 1)
  {
    hide StartDay, DayFromYear, YearFromDay, PeriodBack;
    PeriodsGoBack(period, d, j);
    var e := PeriodBack(period, d, j);
    YearsApart(d, e, 15);
    YearsApart(d, e - 1, 16);
  }

  lemma YearsApart(d: int, e: int, m: nat)
    requires d - 365 * m <= e <= d
    ensures YearFromDay(d) - m <= YearFromDay(e) <= YearFromDay(d)
  {
    hide DayFromYear, YearFromDay;
    var y, z := YearFromDay(d), YearFromDay(e);
    ManyYears(y, m);
    if z < y - m {
      if z + 1 < y - m { YearsAdvance(z + 1, y - m); }
    }
    if y < z {
      if y + 1 < z { YearsAdvance(y + 1, z); }
    }
  }

  // ---------- the operations ----------

  /** `byCategory.find(...)?.amount ?? '0'` */
  function FoundAmount(rows: seq<Spending.CategoryRow>, categoryId: Option<string>): string {
    if rows == [] then "0"
    else if rows[0].categoryId == categoryId then rows[0].amount
    else FoundAmount(rows[1..], categoryId)
  }

  function ScopeSpent(spending: Spending.ExpenseSpending, categoryId: Option<string>): string {
    if categoryId.None? then spending.total else FoundAmount(spending.byCategory, categoryId)
  }

  lemma {:induction false} FoundAmountIsTheSum(groups: seq<Spending.Group>, categoryId: Option<string>)
    ensures FoundAmount(Spending.Shown(groups), categoryId) == ScaledToDecimal(Spending.AmountIn(groups, categoryId))
  {
    if groups == [] {
      ZeroText();
    } else {
      hide ScaledToDecimal;
      var rows := Spending.Shown(groups);
      assert rows[1..] == Spending.Shown(groups[1..]);
      FoundAmountIsTheSum(groups[1..], categoryId);
    }
  }

  lemma ZeroText()
    ensures ScaledToDecimal(0) == "0"
  {
    FractionDigitsShape(0);
    TrimZerosEmpty(FractionDigits(0));
    assert NatText(0) == "0";
  }

  method SpentInBounds(db: Spending.Database, userId: string, b: Budget, from: string, to: string)
    returns (result: Result<string, BudgetError>)
    requires IsDateText(from) && IsDateText(to)
    ensures result == if Readable(db, userId, b, ParseDate(from), ParseDate(to))
                      then Ok(ScaledToDecimal(SpentOver(db, userId, b, ParseDate(from), ParseDate(to))))
                      else Err(AmountUnreadable)
  {
    hide ScaledToDecimal, ParseDate, IsDateText, Spending.SpendingGroups, Spending.SumGroups, Spending.AmountIn, Spending.AllInRange;
    var scope := ScopeOf(b, ParseDate(from), ParseDate(to));
    var spending := Spending.GetExpenseSpending(db, userId, scope);
    FoundAmountIsTheSum(Spending.SpendingGroups(db, userId, scope), b.categoryId);
    hide FoundAmount;
    if spending.Err? { return Err(AmountUnreadable); }
    result := Ok(ScopeSpent(spending.value, b.categoryId));
  }

  datatype Visit = Visit(spent: string, carryover: string, start: string, previous: Option<string>)

  /** The text of the `j`-th period back and of the one before it. */
  lemma PriorBounds(period: PeriodType, d: int, j: nat)
    requires period != Custom && InCalendar(d) && 1020 <= YearFromDay(d) && 1 <= j <= 12
    ensures var e, next := PeriodBack(period, d, j), PeriodBack(period, d, j - 1) - 1;
      && InCalendar(e) && IsToday(IsoDate(e)) && FourDigits(next)
      && IsDateText(IsoDate(e)) && ParseDate(IsoDate(e)) == e && IsDateText(IsoDate(next)) && ParseDate(IsoDate(next)) == next
      && CurrentPeriodBounds(period, IsoDate(e), None, None)
         == Some(PeriodBounds(IsoDate(e), IsoDate(next), Some(IsoDate(PeriodBack(period, d, j + 1))), Some(IsoDate(e - 1))))
  {
    hide IsoDate, StartDay, EndDay, YearFromDay, ParseDate, IsDateText, CurrentPeriodBounds;
    LookbackStaysInCalendar(period, d, j);
    LookbackStaysInCalendar(period, d, j - 1);
    PeriodBackEnds(period, d, j);
    BoundsText(period, PeriodBack(period, d, j), None, None);
    ParseOfIso(PeriodBack(period, d, j));
    ParseOfIso(PeriodBack(period, d, j - 1) - 1);
  }

  /** One turn of the look-back loop: what the period left unused is added to the carry. */
  method VisitPeriod(
    db: Spending.Database, userId: string, b: Budget, ghost d: int, ghost j: nat, reference: string, carryover: string)
    returns (result: Result<Visit, BudgetError>)
    requires b.period != Custom && InRange(b.amount) && InCalendar(d) && 1020 <= YearFromDay(d) && 1 <= j <= 12
    requires reference == IsoDate(PeriodBack(b.period, d, j))
    requires carryover == ScaledToDecimal(Carry(db, userId, b, d, j - 1))
    ensures result.Ok? <==> PeriodComputable(db, userId, b, d, j)
    ensures result.Ok? ==>
      result.value == Visit(ScaledToDecimal(SpentBack(db, userId, b, d, j)), ScaledToDecimal(Carry(db, userId, b, d, j)),
                            IsoDate(PeriodBack(b.period, d, j)), Some(IsoDate(PeriodBack(b.period, d, j + 1))))
  {
    hide ScaledToDecimal, NumericText, DecimalToScaled, IsoDate, ParseDate, IsDateText, YearFromDay, StartDay, PeriodBack,
      CurrentPeriodBounds, SpentOver, Readable, InRange;
    PriorBounds(b.period, d, j);
    ghost var spent := SpentBack(db, userId, b, d, j);
    var prior := CurrentPeriodBounds(b.period, reference, None, None).value;
    var spentInPrior := SpentInBounds(db, userId, b, prior.start, prior.end);
    if spentInPrior.Err? { return Err(AmountUnreadable); }
    ParseUndoesPrint(spent);
    ParseOfNumericText(b.amount);
    ParseUndoesPrint(b.amount - spent);
    ParseUndoesPrint(Carry(db, userId, b, d, j - 1));
    var unused := SubtractMoney(NumericText(b.amount), spentInPrior.value);
    if unused.None? { return Err(AmountUnreadable); }
    var negative := IsNegative(unused.value);
    if negative.None? { return Err(AmountUnreadable); }
    var carried := carryover;
    if !negative.value {
      var sum := AddMoney(carryover, unused.value);
      if sum.None? { return Err(AmountUnreadable); }
      carried := sum.value;
    }
    result := Ok(Visit(spentInPrior.value, carried, prior.start, prior.previousStart));
  }

  datatype Rollover = Rollover(carryover: string, previousSpent: Option<string>)

  /** The bounded look-back loop. */
  method CarryOver(db: Spending.Database, userId: string, b: Budget, ghost d: int, previousStart: Option<string>)
    returns (result: Result<Rollover, BudgetError>)
    requires StoredBudget(b)
    requires b.period != Custom && InCalendar(d) && 1020 <= YearFromDay(d)
    requires previousStart == Some(IsoDate(PeriodBack(b.period, d, 1)))
    ensures var k := Lookback(b.period, d, ParseDate(b.createdDate), 1);
      && (result.Ok? <==> forall j :: 1 <= j <= k ==> PeriodComputable(db, userId, b, d, j))
      && (result.Ok? ==>
            result.value == Rollover(ScaledToDecimal(Carry(db, userId, b, d, k)),
                                     Some(ScaledToDecimal(SpentBack(db, userId, b, d, 1)))))
  {
    hide ScaledToDecimal, IsoDate, ParseDate, IsDateText, YearFromDay, StartDay, PeriodBack, SpentBack, PeriodComputable, Carry,
      Lookback, CreatedBy, Before;
    ghost var created := ParseDate(b.createdDate);
    ghost var k := Lookback(b.period, d, created, 1);
    LookbackStops(b.period, d, created, 1);
    var previousSpent: Option<string> := None;
    var carryover := "0";
    var reference := previousStart;
    var first := true;
    var index := 0;
    NothingCarried(db, userId, b, d);
    while index < MAX_ROLLOVER_PERIODS && reference.Some?
      invariant 0 <= index <= k
      invariant reference == Some(IsoDate(PeriodBack(b.period, d, index + 1)))
      invariant carryover == ScaledToDecimal(Carry(db, userId, b, d, index))
      invariant forall j :: 1 <= j <= index ==> PeriodComputable(db, userId, b, d, j)
      invariant forall j :: 1 <= j <= index ==> !CreatedBy(b.period, d, created, j)
      invariant first == (index == 0)
      invariant !first ==> previousSpent == Some(ScaledToDecimal(SpentBack(db, userId, b, d, 1)))
    {
      assert index < k;
      var visit := VisitPeriod(db, userId, b, d, index + 1, reference.value, carryover);
      if visit.Err? { return Err(AmountUnreadable); }
      if first { previousSpent, first := Some(visit.value.spent), false; }
      carryover := visit.value.carryover;
      CreatedOrder(b, d, index + 1);
      if !Before(b.createdDate, visit.value.start) {
        assert index + 1 == k;
        return Ok(Rollover(carryover, previousSpent));
      }
      reference := visit.value.previous;
      index := index + 1;
    }
    result := Ok(Rollover(carryover, previousSpent));
  }

  lemma NothingCarried(db: Spending.Database, userId: string, b: Budget, d: int)
    requires b.period != Custom
    ensures ScaledToDecimal(Carry(db, userId, b, d, 0)) == "0"
  {
    ZeroText();
    hide ScaledToDecimal;
  }

  /** The text comparison that stops the loop compares days. */
  lemma CreatedOrder(b: Budget, d: int, j: nat)
    requires StoredBudget(b) && b.period != Custom && InCalendar(d) && 1020 <= YearFromDay(d) && j <= 12
    ensures Before(b.createdDate, IsoDate(PeriodBack(b.period, d, j)))
       <==> !CreatedBy(b.period, d, ParseDate(b.createdDate), j)
  {
    hide IsoDate, ParseDate, YearFromDay, StartDay, PeriodBack, Before, IsDateText;
    LookbackStaysInCalendar(b.period, d, j);
    IsoOfParse(b.createdDate);
    IsoOrder(ParseDate(b.createdDate), PeriodBack(b.period, d, j));
  }

  // ---------- the whole status ----------

  predicate HasPeriod(b: Budget) {
    b.period == Custom ==> b.customStart.GetOr("") != "" && b.customEnd.GetOr("") != ""
  }

  function FirstDay(b: Budget, d: int): int
    requires HasPeriod(b) && (b.customStart.Some? ==> IsDateText(b.customStart.value))
  {
    if b.period == Custom then ParseDate(b.customStart.value) else StartDay(b.period, d)
  }

  function LastDay(b: Budget, d: int): int
    requires HasPeriod(b) && (b.customEnd.Some? ==> IsDateText(b.customEnd.value))
  {
    if b.period == Custom then ParseDate(b.customEnd.value) else EndDay(b.period, d)
  }

  /** Twelve at most: the periods whose unused amounts are carried. */
  function CarriedPeriods(b: Budget, d: int): nat
    requires IsDateText(b.createdDate)
  {
    if b.rolloverEnabled && b.period != Custom then Lookback(b.period, d, ParseDate(b.createdDate), 1) else 0
  }

  function Carried(db: Spending.Database, userId: string, b: Budget, d: int): int
    requires IsDateText(b.createdDate)
  {
    if b.period == Custom then 0 else Carry(db, userId, b, d, CarriedPeriods(b, d))
  }

  function StatusOfAmounts(limit: int, spent: int, threshold: int, periodEnded: bool): Status {
    if periodEnded then Complete
    else if Reaches(spent, limit, 100) then Exceeded
    else if Reaches(spent, limit, threshold) then Approaching
    else Healthy
  }

  /** Whether every amount the status needs can be queried and read back. */
  ghost predicate Computable(db: Spending.Database, userId: string, b: Budget, d: int)
    requires StoredBudget(b) && HasPeriod(b)
  {
    && Readable(db, userId, b, FirstDay(b, d), LastDay(b, d))
    && InRange(SpentOver(db, userId, b, FirstDay(b, d), LastDay(b, d)))
    && InRange(b.amount + Carried(db, userId, b, d)) && InRange(Carried(db, userId, b, d))
    && EarlierPeriodsComputable(db, userId, b, d)
  }

  /** With rollover every visited period must be computable, without it only the previous one queried. */
  ghost predicate EarlierPeriodsComputable(db: Spending.Database, userId: string, b: Budget, d: int)
    requires IsDateText(b.createdDate)
  {
    b.period != Custom ==>
      if b.rolloverEnabled
      then forall j :: 1 <= j <= CarriedPeriods(b, d) ==> PeriodComputable(db, userId, b, d, j)
      else Readable(db, userId, b, PeriodBack(b.period, d, 1), PeriodBack(b.period, d, 0) - 1)
  }

  /** The status of a budget on day `d`, computed on scaled integers and days. */
  function StatusOn(db: Spending.Database, userId: string, b: Budget, d: int): BudgetStatus
    requires StoredBudget(b) && HasPeriod(b)
  {
    var from, to := FirstDay(b, d), LastDay(b, d);
    var spent := SpentOver(db, userId, b, from, to);
    var carry := Carried(db, userId, b, d);
    var limit := b.amount + carry;
    var start := if b.period == Custom then b.customStart.value else IsoDate(from);
    var end := if b.period == Custom then b.customEnd.value else IsoDate(to);
    BudgetStatus(
      start, end, PeriodKey(b.period, PeriodBounds(start, end, None, None)),
      ScaledToDecimal(limit), ScaledToDecimal(spent), ScaledToDecimal(limit - spent),
      PercentText(spent, limit), if to < d then 0 else to - d + 1,
      StatusOfAmounts(limit, spent, b.warningThreshold.GetOr(DEFAULT_BUDGET_WARNING_THRESHOLD), to < d),
      if b.period == Custom then None else Some(ScaledToDecimal(SpentBack(db, userId, b, d, 1))),
      ScaledToDecimal(carry))
  }

  /** The bounds as text, for every period type. */
  lemma BudgetBounds(b: Budget, d: int)
    requires StoredBudget(b) && InCalendar(d) && 1020 <= YearFromDay(d)
    ensures IsToday(IsoDate(d)) && ParseDate(IsoDate(d)) == d
    ensures var bounds := CurrentPeriodBounds(b.period, IsoDate(d), b.customStart, b.customEnd);
      && (bounds.Some? <==> HasPeriod(b))
      && (bounds.Some? ==>
            && IsDateText(bounds.value.start) && ParseDate(bounds.value.start) == FirstDay(b, d)
            && IsDateText(bounds.value.end) && ParseDate(bounds.value.end) == LastDay(b, d)
            && FourDigits(LastDay(b, d)) && bounds.value.end == IsoDate(LastDay(b, d))
            && (b.period == Custom ==>
                  bounds.value == PeriodBounds(b.customStart.value, b.customEnd.value, None, None))
            && (b.period != Custom ==>
                  && bounds.value.start == IsoDate(FirstDay(b, d))
                  && bounds.value.previousStart == Some(IsoDate(PeriodBack(b.period, d, 1)))
                  && bounds.value.previousEnd == Some(IsoDate(PeriodBack(b.period, d, 0) - 1))))
  {
    hide IsoDate, ParseDate, IsDateText, YearFromDay, StartDay, EndDay;
    ParseOfIso(d);
    if b.period != Custom {
      RegularBounds(b, d);
    } else if HasPeriod(b) {
      IsoOfParse(b.customStart.value);
      IsoOfParse(b.customEnd.value);
    }
  }

  lemma RegularBounds(b: Budget, d: int)
    requires b.period != Custom && InCalendar(d)
    ensures IsToday(IsoDate(d))
    ensures var from, to := StartDay(b.period, d), EndDay(b.period, d);
      && IsDateText(IsoDate(from)) && ParseDate(IsoDate(from)) == from
      && FourDigits(to) && IsDateText(IsoDate(to)) && ParseDate(IsoDate(to)) == to
      && CurrentPeriodBounds(b.period, IsoDate(d), b.customStart, b.customEnd)
         == Some(PeriodBounds(IsoDate(from), IsoDate(to),
                              Some(IsoDate(PeriodBack(b.period, d, 1))), Some(IsoDate(PeriodBack(b.period, d, 0) - 1))))
  {
    hide IsoDate, ParseDate, IsDateText, YearFromDay, StartDay, EndDay, CurrentPeriodBounds;
    BoundsText(b.period, d, b.customStart, b.customEnd);
    BoundsOfText(b.period, d);
    ParseOfIso(StartDay(b.period, d));
    ParseOfIso(EndDay(b.period, d));
  }

  /** The final text computations on a limit and a spent amount. */
  method Finish(b: Budget, bounds: PeriodBounds, today: string, ghost limit: int, ghost spent: int, ghost carry: int,
                limitText: string, spentText: string, rollover: Rollover)
    returns (result: Result<BudgetStatus, BudgetError>)
    requires IsDateText(today) && IsDateText(bounds.end)
    requires limitText == ScaledToDecimal(limit) && spentText == ScaledToDecimal(spent)
    ensures result.Ok? <==> InRange(limit) && InRange(spent)
    ensures result.Err? ==> result.error == AmountUnreadable
    ensures result.Ok? ==> result.value == BudgetStatus(
      bounds.start, bounds.end, PeriodKey(b.period, bounds),
      ScaledToDecimal(limit), ScaledToDecimal(spent), ScaledToDecimal(limit - spent),
      PercentText(spent, limit), DaysRemaining(today, bounds.end),
      StatusOfAmounts(limit, spent, b.warningThreshold.GetOr(DEFAULT_BUDGET_WARNING_THRESHOLD), IsPeriodEnded(today, bounds.end)),
      rollover.previousSpent, rollover.carryover)
  {
    hide ScaledToDecimal, DecimalToScaled, InRange, PercentText, IsDateText, Before, ParseDate, DaysRemaining;
    ParseUndoesPrint(limit);
    ParseUndoesPrint(spent);
    var remaining := SubtractMoney(limitText, spentText);
    if remaining.None? { return Err(AmountUnreadable); }
    var threshold := b.warningThreshold.GetOr(DEFAULT_BUDGET_WARNING_THRESHOLD);
    var ended := IsPeriodEnded(today, bounds.end);
    var status := StatusOf(limitText, spentText, threshold, ended);
    var percentage := PercentOf(spentText, limitText);
    ZeroPercent(spent, limit);
    result := Ok(BudgetStatus(
      bounds.start, bounds.end, PeriodKey(b.period, bounds), limitText, spentText, remaining.value,
      percentage.value, DaysRemaining(today, bounds.end), status.value, rollover.previousSpent, rollover.carryover));
  }

  lemma ZeroPercent(spent: int, limit: int)
    ensures limit <= 0 ==> PercentText(spent, limit) == "0"
  {
  }

  /** What earlier periods leave: the look-back loop, or just what the previous period was charged. */
  method EarlierPeriods(db: Spending.Database, userId: string, b: Budget, ghost d: int, bounds: PeriodBounds)
    returns (result: Result<Rollover, BudgetError>)
    requires StoredBudget(b) && InCalendar(d) && 1020 <= YearFromDay(d)
    requires b.period == Custom ==> bounds.previousStart.None?
    requires b.period != Custom ==>
      && bounds.previousStart == Some(IsoDate(PeriodBack(b.period, d, 1)))
      && bounds.previousEnd == Some(IsoDate(PeriodBack(b.period, d, 0) - 1))
    ensures result.Ok? <==> EarlierPeriodsComputable(db, userId, b, d)
    ensures result.Ok? ==> result.value == Rollover(
      ScaledToDecimal(Carried(db, userId, b, d)),
      if b.period == Custom then None else Some(ScaledToDecimal(SpentBack(db, userId, b, d, 1))))
  {
    hide ScaledToDecimal, IsoDate, ParseDate, IsDateText, YearFromDay, PeriodBack, SpentOver, Readable, Lookback, PeriodComputable, Carry;
    assert "0" == ScaledToDecimal(0) by { ZeroText(); }
    NoCarry(db, userId, b, d);
    if b.rolloverEnabled && b.period != Custom {
      result := CarryOver(db, userId, b, d, bounds.previousStart);
    } else if bounds.previousStart.Some? && bounds.previousEnd.Some? {
      PreviousTexts(b, d);
      var previous := SpentInBounds(db, userId, b, bounds.previousStart.value, bounds.previousEnd.value);
      if previous.Err? { return Err(AmountUnreadable); }
      result := Ok(Rollover("0", Some(previous.value)));
    } else {
      result := Ok(Rollover("0", None));
    }
  }

  /** The budget's status for `today`, with the spending queries it makes. */
  method GetBudgetStatus(db: Spending.Database, userId: string, b: Budget, today: string)
    returns (result: Result<BudgetStatus, BudgetError>)
    requires StoredBudget(b) && BudgetToday(today)
    ensures result.Ok? <==> HasPeriod(b) && Computable(db, userId, b, ParseDate(today))
    ensures result.Ok? ==> result.value == StatusOn(db, userId, b, ParseDate(today))
    ensures result == Err(CustomDatesRequired) <==> !HasPeriod(b)
  {
    hide ScaledToDecimal, NumericText, DecimalToScaled, IsoDate, ParseDate, IsDateText, YearFromDay, PeriodBack,
      CurrentPeriodBounds, SpentOver, Readable, InRange, Before, PercentText, Carried, FirstDay, LastDay,
      SpentBack, EarlierPeriodsComputable, StatusOfAmounts, PeriodKey;
    ghost var d := ParseDate(today);
    IsoOfParse(today);
    BudgetBounds(b, d);
    var found := CurrentPeriodBounds(b.period, today, b.customStart, b.customEnd);
    if found.None? { return Err(CustomDatesRequired); }
    var bounds := found.value;
    var spent := SpentInBounds(db, userId, b, bounds.start, bounds.end);
    if spent.Err? { return Err(AmountUnreadable); }
    var rollover := EarlierPeriods(db, userId, b, d, bounds);
    if rollover.Err? { return Err(AmountUnreadable); }
    ghost var carry := Carried(db, userId, b, d);
    ParseOfNumericText(b.amount);
    ParseUndoesPrint(carry);
    var limit := AddMoney(NumericText(b.amount), rollover.value.carryover);
    if limit.None? { return Err(AmountUnreadable); }
    EndComparison(today, LastDay(b, d));
    KeyIgnoresPrevious(b.period, bounds);
    result := Finish(b, bounds, today, b.amount + carry, SpentOver(db, userId, b, FirstDay(b, d), LastDay(b, d)), carry,
                     limit.value, spent.value, rollover.value);
  }

  lemma KeyIgnoresPrevious(period: PeriodType, bounds: PeriodBounds)
    ensures PeriodKey(period, bounds) == PeriodKey(period, PeriodBounds(bounds.start, bounds.end, None, None))
  {
  }

  lemma NoCarry(db: Spending.Database, userId: string, b: Budget, d: int)
    requires IsDateText(b.createdDate)
    ensures !b.rolloverEnabled || b.period == Custom ==> Carried(db, userId, b, d) == 0
  {
  }

  lemma PreviousTexts(b: Budget, d: int)
    requires b.period != Custom && InCalendar(d) && 1020 <= YearFromDay(d)
    ensures var from, to := PeriodBack(b.period, d, 1), PeriodBack(b.period, d, 0) - 1;
      && IsDateText(IsoDate(from)) && ParseDate(IsoDate(from)) == from
      && IsDateText(IsoDate(to)) && ParseDate(IsoDate(to)) == to
  {
    hide IsoDate, ParseDate, IsDateText, YearFromDay, PeriodBack;
    PriorBounds(b.period, d, 1);
  }

  lemma EndComparison(today: string, end: int)
    requires IsDateText(today) && FourDigits(end)
    ensures Before(IsoDate(end), today) <==> end < ParseDate(today)
  {
    hide IsoDate, ParseDate, YearFromDay, Before, IsDateText;
    IsoOfParse(today);
    IsoOrder(end, ParseDate(today));
  }

  // ---------- what the status promises ----------

  /** A budget created `j` periods ago carries `min(12, max(1, j))` periods. */
  lemma CarriedPeriodsSinceCreation(b: Budget, d: int, j: nat)
    requires IsDateText(b.createdDate) && b.rolloverEnabled && b.period != Custom
    requires var created := ParseDate(b.createdDate);
      CreatedBy(b.period, d, created, j) && (j == 0 || !CreatedBy(b.period, d, created, j - 1))
    ensures CarriedPeriods(b, d) == if j < 1 then 1 else if j < 12 then j else 12
  {
    hide PeriodBack, CreatedBy, ParseDate, IsDateText;
    var created := ParseDate(b.createdDate);
    LookbackStops(b.period, d, created, 1);
    var k := Lookback(b.period, d, created, 1);
    if j < k {
      EarlierPeriodsAreEarlier(b.period, d, created, j, k - 1);
    } else if k < j && k < 12 {
      EarlierPeriodsAreEarlier(b.period, d, created, k, j - 1);
    }
  }

  lemma {:induction false} EarlierPeriodsAreEarlier(period: PeriodType, d: int, created: int, i: nat, j: nat)
    requires period != Custom && i <= j && CreatedBy(period, d, created, i)
    ensures CreatedBy(period, d, created, j)
  {
    hide StartDay, PeriodBack;
    if i < j {
      EarlierPeriodsAreEarlier(period, d, created, i, j - 1);
      PeriodsGoBack(period, d, j);
    }
  }

  /** With no refunds past zero, the carry is non-negative and at most one full amount per visited period. */
  lemma {:induction false} CarryIsBounded(db: Spending.Database, userId: string, b: Budget, d: int, k: nat)
    requires b.period != Custom && b.amount >= 0
    requires forall j :: 1 <= j <= k ==> SpentBack(db, userId, b, d, j) >= 0
    ensures 0 <= Carry(db, userId, b, d, k) <= k * b.amount
  {
    hide SpentBack;
    if k > 0 {
      CarryIsBounded(db, userId, b, d, k - 1);
      OneMoreAmount(k, b.amount);
    }
  }

  lemma OneMoreAmount(k: int, amount: int)
    ensures k * amount == (k - 1) * amount + amount
  {
  }

  lemma CarryIsAtMostTwelveAmounts(db: Spending.Database, userId: string, b: Budget, d: int)
    requires IsDateText(b.createdDate) && b.amount >= 0
    requires forall j :: 1 <= j <= 12 && b.period != Custom ==> SpentBack(db, userId, b, d, j) >= 0
    ensures 0 <= Carried(db, userId, b, d) <= 12 * b.amount
  {
    hide SpentBack, Carry, Lookback, IsDateText, ParseDate;
    var k := CarriedPeriods(b, d);
    if b.period != Custom {
      CarryIsBounded(db, userId, b, d, k);
      assert k * b.amount <= 12 * b.amount;
    }
  }

  /** Spending summed over the last `k` periods. */
  function SpentOverPeriods(db: Spending.Database, userId: string, b: Budget, d: int, k: nat): int
    requires b.period != Custom
  {
    if k == 0 then 0 else SpentOverPeriods(db, userId, b, d, k - 1) + SpentBack(db, userId, b, d, k)
  }

  /**
   * The visited periods are consecutive and disjoint: what they were charged adds up to exactly
   * what the days from the first of them to yesterday's period end were charged, so no
   * transaction is counted in two of them and none in between is missed.
   */
  lemma {:induction false} PeriodsCountEveryTransactionOnce(db: Spending.Database, userId: string, b: Budget, d: int, k: nat)
    requires b.period != Custom && k >= 1
    ensures SpentOverPeriods(db, userId, b, d, k)
         == SpentOver(db, userId, b, PeriodBack(b.period, d, k), StartDay(b.period, d) - 1)
  {
    hide StartDay, Spending.SpentIn;
    if k == 1 {
      assert SpentOverPeriods(db, userId, b, d, 0) == 0;
    } else {
      PeriodsCountEveryTransactionOnce(db, userId, b, d, k - 1);
      PeriodsGoBack(b.period, d, k);
      PeriodsDescend(b.period, d, k - 1);
      var scope := ScopeOf(b, PeriodBack(b.period, d, k), StartDay(b.period, d) - 1);
      var middle := PeriodBack(b.period, d, k - 1) - 1;
      Spending.SpendingIsAdditive(db, userId, scope, middle);
    }
  }

  lemma {:induction false} PeriodsDescend(period: PeriodType, d: int, k: nat)
    requires period != Custom
    ensures PeriodBack(period, d, k) <= StartDay(period, d)
  {
    hide StartDay;
    if k > 0 {
      PeriodsDescend(period, d, k - 1);
      PeriodsGoBack(period, d, k);
    }
  }

  /** A running budget is exceeded exactly when the percentage it displays is at least 100. */
  lemma ExceededIffDisplayedInFull(limit: int, spent: int, threshold: int, periodEnded: bool)
    requires spent >= 0
    ensures HundredthsOf(PercentText(spent, limit)).Some?
    ensures StatusOfAmounts(limit, spent, threshold, periodEnded) == Exceeded
       <==> !periodEnded && HundredthsOf(PercentText(spent, limit)).value >= 100 * 100
  {
    if limit > 0 {
      hide HundredthsOf, PercentText;
      ReachedIffDisplayed(spent, limit, 100);
    } else {
      hide HundredthsOf, HundredthsText;
      assert HundredthsText(0) == "0" by { ZeroHundredths(); }
      PrintedPercentReadsBack(0);
    }
  }

  /** It is approaching its limit exactly when that percentage has reached the threshold and not yet 100. */
  lemma ApproachingIffDisplayed(limit: int, spent: int, threshold: int, periodEnded: bool)
    requires spent >= 0
    ensures HundredthsOf(PercentText(spent, limit)).Some?
    ensures var shown := HundredthsOf(PercentText(spent, limit)).value;
      StatusOfAmounts(limit, spent, threshold, periodEnded) == Approaching
      <==> !periodEnded && 0 < limit && 100 * threshold <= shown < 100 * 100
  {
    if limit > 0 {
      hide HundredthsOf, PercentText;
      ReachedIffDisplayed(spent, limit, 100);
      ReachedIffDisplayed(spent, limit, threshold);
    } else {
      hide HundredthsOf, HundredthsText;
      assert HundredthsText(0) == "0" by { ZeroHundredths(); }
      PrintedPercentReadsBack(0);
    }
  }

  lemma ZeroHundredths()
    ensures HundredthsText(0) == "0"
  {
  }

  /** So the status shown follows from the percentage shown with it, with a warning at 80 percent unless the budget says otherwise. */
  lemma StatusFollowsPercentage(db: Spending.Database, userId: string, b: Budget, d: int)
    requires StoredBudget(b) && HasPeriod(b) && SpentOver(db, userId, b, FirstDay(b, d), LastDay(b, d)) >= 0
    ensures HundredthsOf(StatusOn(db, userId, b, d).percentageUsed).Some?
    ensures var status := StatusOn(db, userId, b, d);
      var shown := HundredthsOf(status.percentageUsed).value;
      var warning := if b.warningThreshold == None then 80 else b.warningThreshold.value;
      && (status.status == Complete <==> LastDay(b, d) < d)
      && (status.status == Exceeded <==> d <= LastDay(b, d) && 100 * 100 <= shown)
      && (status.status == Approaching <==>
            d <= LastDay(b, d) && 0 < b.amount + Carried(db, userId, b, d) && 100 * warning <= shown < 100 * 100)
  {
    hide HundredthsOf, PercentText, SpentOver, Carried, FirstDay, LastDay, IsoDate, ScaledToDecimal, PeriodKey, SpentBack,
      IsDateText, ParseDate;
    var limit, spent := b.amount + Carried(db, userId, b, d), SpentOver(db, userId, b, FirstDay(b, d), LastDay(b, d));
    var ended := LastDay(b, d) < d;
    ExceededIffDisplayedInFull(limit, spent, b.warningThreshold.GetOr(80), ended);
    ApproachingIffDisplayed(limit, spent, b.warningThreshold.GetOr(80), ended);
    assert StatusOn(db, userId, b, d).status == StatusOfAmounts(limit, spent, b.warningThreshold.GetOr(80), ended);
    assert StatusOn(db, userId, b, d).percentageUsed == PercentText(spent, limit);
    assert StatusOfAmounts(limit, spent, b.warningThreshold.GetOr(80), ended) == Complete <==> ended;
    hide StatusOn, StatusOfAmounts;
  }

  function Severity(s: Status): int {
    match s case Healthy => 0 case Approaching => 1 case Exceeded => 2 case Complete => 3
  }

  /** Spending more never improves the status. */
  lemma StatusNeverImproves(limit: int, spent: int, more: int, threshold: int, periodEnded: bool)
    requires spent <= more
    ensures Severity(StatusOfAmounts(limit, spent, threshold, periodEnded))
         <= Severity(StatusOfAmounts(limit, more, threshold, periodEnded))
  {
  }

  /** Only a custom budget can be complete, and then exactly once its last day has passed. */
  lemma CompleteOnlyForEndedCustomBudgets(db: Spending.Database, userId: string, b: Budget, d: int)
    requires StoredBudget(b) && HasPeriod(b)
    ensures StatusOn(db, userId, b, d).status == Complete <==> b.period == Custom && ParseDate(b.customEnd.value) < d
  {
    hide ScaledToDecimal, IsoDate, ParseDate, IsDateText, StartDay, EndDay, SpentOver, PercentText, Carried, SpentBack, Reaches;
    if b.period != Custom {
      PeriodContains(b.period, d);
    }
  }
}
