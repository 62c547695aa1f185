/** Whose spending a budget counts, stated on the columns of its own row and of the transactions. */
module BudgetCharges {
  import opened Wrappers
  import opened Ledger
  import opened Money
  import opened Percent
  import opened IsoDates
  import opened Calendar
  import opened Periods
  import opened Charges
  import opened Budgets

  /**
   * What a budget may count on some day: confirmed debits of the user in the budget's currency and
   * on its account, or on any account if it has none, outside confirmed transfers.
   */
  predicate IsCounted(db: Spending.Database, userId: string, b: Budget, t: Spending.Transaction) {
    && t.userId == userId && t.confirmed && t.direction == Debit && t.currency == b.currency
    && (b.accountId == None || b.accountId == Some(t.accountId))
    && (forall l <- db.links :: !(l.userId == userId && l.confirmed && (l.outgoingId == t.id || l.incomingId == t.id)))
  }

  /** What a transaction is charged to the budget's category, or in total if it has none. */
  function Share(db: Spending.Database, userId: string, b: Budget, t: Spending.Transaction): int {
    if b.categoryId == None then Charge(db, userId, t) else ChargeIn(db, userId, t, b.categoryId)
  }

  // ---------- transactions that do not count ----------

  /** Over no days at all does the budget see a difference. */
  ghost predicate SameSpending(a: Spending.Database, c: Spending.Database, userId: string, b: Budget) {
    forall from, to ::
      SpentOver(a, userId, b, from, to) == SpentOver(c, userId, b, from, to)
      && Readable(a, userId, b, from, to) == Readable(c, userId, b, from, to)
  }

  lemma NotCountedIsNotCharged(db: Spending.Database, userId: string, b: Budget, i: nat)
    requires i < |db.transactions| && !IsCounted(db, userId, b, db.transactions[i])
    ensures SameSpending(WithoutTransaction(db, i), db, userId, b)
  {
    hide Spending.SpendingGroups, WithoutTransaction;
    forall from, to
      ensures Spending.SpendingGroups(WithoutTransaction(db, i), userId, ScopeOf(b, from, to))
           == Spending.SpendingGroups(db, userId, ScopeOf(b, from, to))
    {
      OthersAreNotCharged(db, userId, ScopeOf(b, from, to), i);
    }
  }

  lemma {:induction false} SameCarry(a: Spending.Database, c: Spending.Database, userId: string, b: Budget, d: int, k: nat)
    requires SameSpending(a, c, userId, b) && b.period != Custom
    ensures Carry(a, userId, b, d, k) == Carry(c, userId, b, d, k)
  {
    hide SpentOver, Readable, PeriodBack;
    if k > 0 { SameCarry(a, c, userId, b, d, k - 1); }
  }

  lemma SamePeriods(a: Spending.Database, c: Spending.Database, userId: string, b: Budget, d: int)
    requires SameSpending(a, c, userId, b) && StoredBudget(b)
    ensures Carried(a, userId, b, d) == Carried(c, userId, b, d)
    ensures EarlierPeriodsComputable(a, userId, b, d) == EarlierPeriodsComputable(c, userId, b, d)
  {
    hide SpentOver, Readable, PeriodBack, IsDateText, ParseDate, Lookback, Carry;
    if b.period != Custom {
      SameCarry(a, c, userId, b, d, CarriedPeriods(b, d));
      forall j: nat | j >= 1 ensures PeriodComputable(a, userId, b, d, j) == PeriodComputable(c, userId, b, d, j) {
        SameCarry(a, c, userId, b, d, j - 1);
      }
    }
    hide SameSpending, PeriodComputable;
  }

  lemma SameStatus(a: Spending.Database, c: Spending.Database, userId: string, b: Budget, d: int)
    requires SameSpending(a, c, userId, b) && StoredBudget(b) && HasPeriod(b)
    ensures StatusOn(a, userId, b, d) == StatusOn(c, userId, b, d)
    ensures Computable(a, userId, b, d) == Computable(c, userId, b, d)
  {
    hide SpentOver, Readable, PeriodBack, IsDateText, ParseDate, Carried, EarlierPeriodsComputable, FirstDay, LastDay,
      IsoDate, ScaledToDecimal, StatusOfAmounts, PercentText, PeriodKey, InRange;
    SamePeriods(a, c, userId, b, d);
    var from, to := FirstDay(b, d), LastDay(b, d);
    assert SpentOver(a, userId, b, from, to) == SpentOver(c, userId, b, from, to);
    assert b.period != Custom ==> SpentBack(a, userId, b, d, 1) == SpentBack(c, userId, b, d, 1);
    hide SameSpending, SpentBack;
  }

  /**
   * A transaction of another account or currency, of another user, unconfirmed, no debit or part of
   * a confirmed transfer changes nothing in the status, rollover included.
   */
  lemma OthersDoNotCount(db: Spending.Database, userId: string, b: Budget, d: int, i: nat)
    requires StoredBudget(b) && HasPeriod(b)
    requires i < |db.transactions| && !IsCounted(db, userId, b, db.transactions[i])
    ensures StatusOn(WithoutTransaction(db, i), userId, b, d) == StatusOn(db, userId, b, d)
    ensures Computable(WithoutTransaction(db, i), userId, b, d) <==> Computable(db, userId, b, d)
  {
    hide StatusOn, Computable, StoredBudget, HasPeriod, SameSpending, IsCounted;
    NotCountedIsNotCharged(db, userId, b, i);
    SameStatus(WithoutTransaction(db, i), db, userId, b, d);
  }

  // ---------- transactions that do ----------

  lemma OneMoreIsSpent(db: Spending.Database, userId: string, b: Budget, from: int, to: int, i: nat)
    requires Spending.Indexed(db) && i < |db.transactions| && IsCounted(db, userId, b, db.transactions[i])
    ensures var t := db.transactions[i];
      SpentOver(db, userId, b, from, to)
      == SpentOver(WithoutTransaction(db, i), userId, b, from, to)
         + if from <= t.bookingDate <= to then Share(db, userId, b, t) else 0
  {
    hide Spending.SpendingGroups, WithoutTransaction, Spending.Indexed, Charge, ChargeIn, Spending.SumGroups, Spending.AmountIn;
    var scope := ScopeOf(b, from, to);
    if from <= db.transactions[i].bookingDate <= to {
      OneMoreIsCharged(db, userId, scope, i, b.categoryId);
    } else {
      OthersAreNotCharged(db, userId, scope, i);
    }
  }

  lemma DaysOfStatus(db: Spending.Database, userId: string, b: Budget, d: int)
    requires StoredBudget(b) && HasPeriod(b) && InCalendar(d) && 1020 <= YearFromDay(d)
    ensures var status := StatusOn(db, userId, b, d);
      && IsDateText(status.periodStart) && ParseDate(status.periodStart) == FirstDay(b, d)
      && IsDateText(status.periodEnd) && ParseDate(status.periodEnd) == LastDay(b, d)
      && status.spent == ScaledToDecimal(SpentOver(db, userId, b, FirstDay(b, d), LastDay(b, d)))
  {
    hide IsDateText, ParseDate, IsoDate, ScaledToDecimal, SpentOver, Carried, SpentBack, StartDay, EndDay, YearFromDay,
      StatusOfAmounts, PeriodKey;
    BudgetBounds(b, d);
  }

  /**
   * Any other transaction adds its share to what is spent exactly if it is booked within the
   * period the status names.
   */
  lemma OneMoreCounts(db: Spending.Database, userId: string, b: Budget, d: int, i: nat)
    requires StoredBudget(b) && HasPeriod(b) && InCalendar(d) && 1020 <= YearFromDay(d)
    requires Spending.Indexed(db) && i < |db.transactions| && IsCounted(db, userId, b, db.transactions[i])
    requires DecimalToScaled(StatusOn(WithoutTransaction(db, i), userId, b, d).spent).Some?
    ensures var t, before, after := db.transactions[i], StatusOn(WithoutTransaction(db, i), userId, b, d), StatusOn(db, userId, b, d);
      && IsDateText(after.periodStart) && IsDateText(after.periodEnd)
      && after.spent == ScaledToDecimal(
           DecimalToScaled(before.spent).value
           + if ParseDate(after.periodStart) <= t.bookingDate <= ParseDate(after.periodEnd) then Share(db, userId, b, t) else 0)
  {
    hide StatusOn, ScaledToDecimal, DecimalToScaled, Share, IsCounted, SpentOver, IsDateText, ParseDate, YearFromDay, FirstDay,
      LastDay, HasPeriod, WithoutTransaction, Spending.Indexed;
    DaysOfStatus(db, userId, b, d);
    DaysOfStatus(WithoutTransaction(db, i), userId, b, d);
    ParseUndoesPrint(SpentOver(WithoutTransaction(db, i), userId, b, FirstDay(b, d), LastDay(b, d)));
    OneMoreIsSpent(db, userId, b, FirstDay(b, d), LastDay(b, d), i);
  }
}
