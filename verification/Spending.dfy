/**
 * The expense-spending query: three left joins, a CASE sum and a GROUP BY,
 * against the plain rule "each active split to its own category, or the whole
 * transaction to its category when it has none".
 */
module Spending {
  import opened Wrappers
  import opened Ledger
  import opened Money
  import Splits

  datatype Transaction = Transaction(
    id: string, userId: string, accountId: string, bookingDate: int, amount: int,
    currency: string, direction: Direction, confirmed: bool)

  datatype Split = Split(
    id: string, userId: string, transactionId: string, position: int, amount: int, currency: string, archived: bool)

  /** One row of either category-assignment table; `ownerId` is the transaction or the split. */
  datatype Assignment = Assignment(userId: string, ownerId: string, categoryId: string, primary: bool)

  datatype TransferLink = TransferLink(userId: string, outgoingId: string, incomingId: string, confirmed: bool)

  datatype Database = Database(
    transactions: seq<Transaction>, splits: seq<Split>,
    splitCategories: seq<Assignment>, transactionCategories: seq<Assignment>, links: seq<TransferLink>)

  datatype Scope = Scope(currency: string, from: int, to: int, accountId: Option<string>)

  // ---------- the query ----------

  /** The transaction with the columns each left join adds; `None` is a row of nulls. */
  datatype JoinedRow = JoinedRow(
    transaction: Transaction, split: Option<Split>, splitCategory: Option<Assignment>, category: Option<Assignment>)

  function ActiveSplits(splits: seq<Split>, userId: string, transactionId: string): seq<Split> {
    if splits == [] then []
    else
      var rest := ActiveSplits(splits[1..], userId, transactionId);
      var s := splits[0];
      if s.transactionId == transactionId && s.userId == userId && !s.archived then [s] + rest else rest
  }

  function Primaries(assignments: seq<Assignment>, userId: string, ownerId: string): seq<Assignment> {
    if assignments == [] then []
    else
      var rest := Primaries(assignments[1..], userId, ownerId);
      var a := assignments[0];
      if a.ownerId == ownerId && a.userId == userId && a.primary then [a] + rest else rest
  }

  /** A left join keeps an unmatched row once, with nulls. */
  function OrNull<T>(matches: seq<T>): seq<Option<T>> {
    if matches == [] then [None] else Somes(matches)
  }

  function Somes<T>(s: seq<T>): seq<Option<T>> {
    if s == [] then [] else [Some(s[0])] + Somes(s[1..])
  }

  function WithSplits(t: Transaction, splits: seq<Option<Split>>): seq<JoinedRow> {
    if splits == [] then [] else [JoinedRow(t, splits[0], None, None)] + WithSplits(t, splits[1..])
  }

  function WithSplitCategories(row: JoinedRow, found: seq<Option<Assignment>>): seq<JoinedRow> {
    if found == [] then [] else [row.(splitCategory := found[0])] + WithSplitCategories(row, found[1..])
  }

  function WithCategories(row: JoinedRow, found: seq<Option<Assignment>>): seq<JoinedRow> {
    if found == [] then [] else [row.(category := found[0])] + WithCategories(row, found[1..])
  }

  function JoinSplits(db: Database, userId: string, ts: seq<Transaction>): seq<JoinedRow> {
    if ts == [] then []
    else WithSplits(ts[0], OrNull(ActiveSplits(db.splits, userId, ts[0].id))) + JoinSplits(db, userId, ts[1..])
  }

  /** The split's own primary categories; a null split id matches nothing. */
  function SplitPrimaries(db: Database, userId: string, split: Option<Split>): seq<Assignment> {
    if split.None? then [] else Primaries(db.splitCategories, userId, split.value.id)
  }

  function JoinSplitCategories(db: Database, userId: string, rows: seq<JoinedRow>): seq<JoinedRow> {
    if rows == [] then []
    else WithSplitCategories(rows[0], OrNull(SplitPrimaries(db, userId, rows[0].split)))
         + JoinSplitCategories(db, userId, rows[1..])
  }

  function JoinCategories(db: Database, userId: string, rows: seq<JoinedRow>): seq<JoinedRow> {
    if rows == [] then []
    else WithCategories(rows[0], OrNull(Primaries(db.transactionCategories, userId, rows[0].transaction.id)))
         + JoinCategories(db, userId, rows[1..])
  }

  function Joined(db: Database, userId: string, ts: seq<Transaction>): seq<JoinedRow> {
    JoinCategories(db, userId, JoinSplitCategories(db, userId, JoinSplits(db, userId, ts)))
  }

  predicate InConfirmedTransfer(db: Database, userId: string, transactionId: string) {
    exists l <- db.links :: l.userId == userId && l.confirmed && transactionId in {l.outgoingId, l.incomingId}
  }

  /** The transactions both queries look at: confirmed debits outside confirmed transfers. */
  predicate IsExpense(db: Database, userId: string, t: Transaction) {
    t.userId == userId && t.confirmed && t.direction.Debit? && !InConfirmedTransfer(db, userId, t.id)
  }

  predicate InScope(db: Database, userId: string, scope: Scope, t: Transaction) {
    && IsExpense(db, userId, t)
    && t.currency == scope.currency
    && scope.from <= t.bookingDate <= scope.to
    && (scope.accountId.Some? ==> t.accountId == scope.accountId.value)
  }

  /** CASE WHEN split.id IS NOT NULL THEN splitCategory.categoryId ELSE category.categoryId END */
  function CategoryOf(row: JoinedRow): Option<string> {
    var a := if row.split.Some? then row.splitCategory else row.category;
    if a.Some? then Some(a.value.categoryId) else None
  }

  function AmountOf(row: JoinedRow): int {
    if row.split.Some? then row.split.value.amount else row.transaction.amount
  }

  /** An amount that lands in a category, in the currency of its transaction. */
  datatype Allocation = Allocation(categoryId: Option<string>, amount: int, currency: string)

  function Project(rows: seq<JoinedRow>): seq<Allocation> {
    if rows == [] then []
    else [Allocation(CategoryOf(rows[0]), AmountOf(rows[0]), rows[0].transaction.currency)] + Project(rows[1..])
  }

  function Where(db: Database, userId: string, scope: Scope, rows: seq<JoinedRow>): seq<JoinedRow> {
    if rows == [] then []
    else
      (if InScope(db, userId, scope, rows[0].transaction) then [rows[0]] else []) + Where(db, userId, scope, rows[1..])
  }

  datatype Group = Group(categoryId: Option<string>, amount: int)

  function AddToGroup(groups: seq<Group>, categoryId: Option<string>, amount: int): seq<Group> {
    if groups == [] then [Group(categoryId, amount)]
    else if groups[0].categoryId == categoryId then [Group(categoryId, groups[0].amount + amount)] + groups[1..]
    else [groups[0]] + AddToGroup(groups[1..], categoryId, amount)
  }

  /** GROUP BY category with SUM(amount). */
  function GroupByCategory(rows: seq<Allocation>): seq<Group> {
    if rows == [] then []
    else AddToGroup(GroupByCategory(rows[1..]), rows[0].categoryId, rows[0].amount)
  }

  function SpendingGroups(db: Database, userId: string, scope: Scope): seq<Group> {
    GroupByCategory(Project(Where(db, userId, scope, Joined(db, userId, db.transactions))))
  }

  function SumGroups(groups: seq<Group>): int {
    if groups == [] then 0 else groups[0].amount + SumGroups(groups[1..])
  }

  /** No group's sum is too long to read back. */
  predicate AllInRange(groups: seq<Group>) { forall i :: 0 <= i < |groups| ==> InRange(groups[i].amount) }

  datatype CategoryRow = CategoryRow(categoryId: Option<string>, amount: string)
  datatype ExpenseSpending = ExpenseSpending(currency: string, total: string, byCategory: seq<CategoryRow>)
  datatype SpendingError = InvalidAmount

  /** Each group with its sum as canonical text, in the order the query returned them. */
  function Shown(groups: seq<Group>): (rows: seq<CategoryRow>)
    ensures |rows| == |groups|
    ensures forall i :: 0 <= i < |rows| ==>
      rows[i].categoryId == groups[i].categoryId && rows[i].amount == ScaledToDecimal(groups[i].amount)
  {
    if groups == [] then []
    else [CategoryRow(groups[0].categoryId, ScaledToDecimal(groups[0].amount))] + Shown(groups[1..])
  }

  /** Runs the query and adds up the shown amounts; a sum past 14 digits raises an error. */
  method GetExpenseSpending(db: Database, userId: string, scope: Scope)
    returns (result: Result<ExpenseSpending, SpendingError>)
    ensures var groups := SpendingGroups(db, userId, scope);
      && (result.Ok? <==> AllInRange(groups))
      && (result.Ok? ==>
            result.value == ExpenseSpending(scope.currency, ScaledToDecimal(SumGroups(groups)), Shown(groups)))
  {
    hide TrimNumeric, NumericText, ScaledToDecimal, SpendingGroups, SumGroups, AllInRange, InRange;
    var groups := SpendingGroups(db, userId, scope);
    var byCategory: seq<CategoryRow> := [];
    var i := 0;
    while i < |groups|
      invariant 0 <= i <= |groups|
      invariant byCategory == Shown(groups)[..i]
    {
      TrimNumericIsTheCanonicalPrinter(groups[i].amount);
      var amount := TrimNumeric(Some(NumericText(groups[i].amount)));
      byCategory := byCategory + [CategoryRow(groups[i].categoryId, amount)];
      i := i + 1;
    }
    var total := AddUp(groups, byCategory);
    if total.None? { return Err(InvalidAmount); }
    result := Ok(ExpenseSpending(scope.currency, ScaledToDecimal(total.value), byCategory));
  }

  /** The loop over the shown rows that parses and adds their amounts. */
  method AddUp(ghost groups: seq<Group>, byCategory: seq<CategoryRow>) returns (total: Option<int>)
    requires byCategory == Shown(groups)
    ensures total == if AllInRange(groups) then Some(SumGroups(groups)) else None
  {
    hide ScaledToDecimal, DecimalToScaled, SumGroups, InRange;
    var totalScaled := 0;
    var i := 0;
    assert groups[0..] == groups;
    while i < |byCategory|
      invariant 0 <= i <= |groups|
      invariant totalScaled + SumGroups(groups[i..]) == SumGroups(groups)
      invariant forall j :: 0 <= j < i ==> InRange(groups[j].amount)
    {
      ParseUndoesPrint(groups[i].amount);
      match DecimalToScaled(byCategory[i].amount) {
        case None => return None;
        case Some(v) => totalScaled := totalScaled + v;
      }
      SumFrom(groups, i);
      i := i + 1;
    }
    SumFrom(groups, i);
    total := Some(totalScaled);
  }

  lemma SumFrom(groups: seq<Group>, i: nat)
    requires i <= |groups|
    ensures SumGroups(groups[i..])
         == if i == |groups| then 0 else groups[i].amount + SumGroups(groups[i + 1..])
  {
    if i < |groups| {
      assert groups[i..][1..] == groups[i + 1..];
    }
  }

  // ---------- the plain rule ----------

  function First(found: seq<Assignment>): Option<string> {
    if found == [] then None else Some(found[0].categoryId)
  }

  function SplitAllocations(db: Database, userId: string, currency: string, splits: seq<Split>): seq<Allocation> {
    if splits == [] then []
    else [Allocation(First(Primaries(db.splitCategories, userId, splits[0].id)), splits[0].amount, currency)]
         + SplitAllocations(db, userId, currency, splits[1..])
  }

  /** Each active split to its own category, or the whole transaction to its category. */
  function Allocate(db: Database, userId: string, t: Transaction): seq<Allocation> {
    var splits := ActiveSplits(db.splits, userId, t.id);
    if splits == [] then [Allocation(First(Primaries(db.transactionCategories, userId, t.id)), t.amount, t.currency)]
    else SplitAllocations(db, userId, t.currency, splits)
  }

  function Allocations(db: Database, userId: string, scope: Scope, ts: seq<Transaction>): seq<Allocation> {
    if ts == [] then []
    else (if InScope(db, userId, scope, ts[0]) then Allocate(db, userId, ts[0]) else [])
         + Allocations(db, userId, scope, ts[1..])
  }

  /** What the report says was spent in a category. */
  function SumIn(rows: seq<Allocation>, categoryId: Option<string>): int {
    if rows == [] then 0
    else (if rows[0].categoryId == categoryId then rows[0].amount else 0) + SumIn(rows[1..], categoryId)
  }

  function SumAll(rows: seq<Allocation>): int {
    if rows == [] then 0 else rows[0].amount + SumAll(rows[1..])
  }

  function SumSplits(splits: seq<Split>): int {
    if splits == [] then 0 else splits[0].amount + SumSplits(splits[1..])
  }

  /** Confirmed, in-range, non-transfer debits, whole. */
  function ParentTotal(db: Database, userId: string, scope: Scope, ts: seq<Transaction>): int {
    if ts == [] then 0
    else (if InScope(db, userId, scope, ts[0]) then ts[0].amount else 0) + ParentTotal(db, userId, scope, ts[1..])
  }

  /** The partial unique indexes: one primary category per owner. */
  ghost predicate OnePrimary(assignments: seq<Assignment>) {
    forall i, j :: 0 <= i < j < |assignments| ==>
      !(assignments[i].primary && assignments[j].primary
        && assignments[i].userId == assignments[j].userId && assignments[i].ownerId == assignments[j].ownerId)
  }

  ghost predicate Indexed(db: Database) { OnePrimary(db.splitCategories) && OnePrimary(db.transactionCategories) }

  /** Every transaction that has active splits was accepted by the split validator. */
  ghost predicate SplitsValidated(db: Database, userId: string) {
    forall t :: t in db.transactions && ActiveSplits(db.splits, userId, t.id) != [] ==>
      Splits.AllErrors(NumericText(t.amount), t.currency, SplitInputs(ActiveSplits(db.splits, userId, t.id)), 50) == {}
  }

  function SplitInputs(splits: seq<Split>): seq<Splits.SplitAmountInput> {
    if splits == [] then []
    else SplitInputs(splits[..|splits| - 1])
         + [var s := splits[|splits| - 1]; Splits.SplitAmountInput(s.id, s.position, NumericText(s.amount), s.currency)]
  }

  ghost predicate AmountsStorable(db: Database) { forall s :: s in db.splits ==> InRange(s.amount) }

  // ---------- the query computes the plain rule ----------

  lemma {:induction false} AtMostOnePrimary(assignments: seq<Assignment>, userId: string, ownerId: string)
    requires OnePrimary(assignments)
    ensures |Primaries(assignments, userId, ownerId)| <= 1
    ensures forall a :: a in Primaries(assignments, userId, ownerId) ==>
      a in assignments && a.primary && a.userId == userId && a.ownerId == ownerId
  {
    if assignments != [] {
      AtMostOnePrimary(assignments[1..], userId, ownerId);
      var rest := Primaries(assignments[1..], userId, ownerId);
      if rest != [] {
        assert rest[0] in assignments[1..];
      }
    }
  }

  lemma {:induction false} JoinSplitCategoriesConcat(db: Database, userId: string, a: seq<JoinedRow>, b: seq<JoinedRow>)
    ensures JoinSplitCategories(db, userId, a + b)
         == JoinSplitCategories(db, userId, a) + JoinSplitCategories(db, userId, b)
  {
    if a == [] {
      assert a + b == b;
    } else {
      assert (a + b)[1..] == a[1..] + b;
      JoinSplitCategoriesConcat(db, userId, a[1..], b);
    }
  }

  lemma {:induction false} JoinCategoriesConcat(db: Database, userId: string, a: seq<JoinedRow>, b: seq<JoinedRow>)
    ensures JoinCategories(db, userId, a + b) == JoinCategories(db, userId, a) + JoinCategories(db, userId, b)
  {
    if a == [] {
      assert a + b == b;
    } else {
      assert (a + b)[1..] == a[1..] + b;
      JoinCategoriesConcat(db, userId, a[1..], b);
    }
  }

  lemma {:induction false} WhereConcat(db: Database, userId: string, scope: Scope, a: seq<JoinedRow>, b: seq<JoinedRow>)
    ensures Where(db, userId, scope, a + b) == Where(db, userId, scope, a) + Where(db, userId, scope, b)
  {
    if a == [] {
      assert a + b == b;
    } else {
      assert (a + b)[1..] == a[1..] + b;
      WhereConcat(db, userId, scope, a[1..], b);
    }
  }

  lemma {:induction false} ProjectConcat(a: seq<JoinedRow>, b: seq<JoinedRow>)
    ensures Project(a + b) == Project(a) + Project(b)
  {
    if a == [] {
      assert a + b == b;
    } else {
      assert (a + b)[1..] == a[1..] + b;
      ProjectConcat(a[1..], b);
    }
  }

  /** A row with at most one match per table joins to a single row. */
  lemma OneRowPerSplit(db: Database, userId: string, row: JoinedRow)
    requires Indexed(db) && row.splitCategory.None? && row.category.None?
    ensures var joined := JoinCategories(db, userId, JoinSplitCategories(db, userId, [row]));
      && |joined| == 1 && joined[0].transaction == row.transaction && joined[0].split == row.split
      && CategoryOf(joined[0]) == if row.split.Some?
           then First(Primaries(db.splitCategories, userId, row.split.value.id))
           else First(Primaries(db.transactionCategories, userId, row.transaction.id))
  {
    if row.split.Some? { AtMostOnePrimary(db.splitCategories, userId, row.split.value.id); }
    AtMostOnePrimary(db.transactionCategories, userId, row.transaction.id);
    var ps := SplitPrimaries(db, userId, row.split);
    var pt := Primaries(db.transactionCategories, userId, row.transaction.id);
    hide Primaries, Indexed;
    OrNullOfAtMostOne(ps);
    OrNullOfAtMostOne(pt);
    var sc := OrNull(ps)[0];
    var tc := OrNull(pt)[0];
    SingleRow(db, userId, row, sc, tc);
  }

  lemma OrNullOfAtMostOne<T>(matches: seq<T>)
    requires |matches| <= 1
    ensures OrNull(matches) == [if matches == [] then None else Some(matches[0])]
  {
    if matches != [] {
      assert Somes(matches[1..]) == [];
    }
  }

  lemma SingleRow(db: Database, userId: string, row: JoinedRow, sc: Option<Assignment>, tc: Option<Assignment>)
    requires OrNull(SplitPrimaries(db, userId, row.split)) == [sc]
    requires OrNull(Primaries(db.transactionCategories, userId, row.transaction.id)) == [tc]
    ensures JoinCategories(db, userId, JoinSplitCategories(db, userId, [row]))
         == [row.(splitCategory := sc, category := tc)]
  {
    hide Primaries, OrNull, SplitPrimaries;
    var row1 := row.(splitCategory := sc);
    assert WithSplitCategories(row, [sc]) == [row1];
    assert JoinSplitCategories(db, userId, [row]) == [row1];
    assert WithCategories(row1, [tc]) == [row1.(category := tc)];
  }

  function Finish(db: Database, userId: string, rows: seq<JoinedRow>): seq<JoinedRow> {
    JoinCategories(db, userId, JoinSplitCategories(db, userId, rows))
  }

  lemma FinishConcat(db: Database, userId: string, a: seq<JoinedRow>, b: seq<JoinedRow>)
    ensures Finish(db, userId, a + b) == Finish(db, userId, a) + Finish(db, userId, b)
  {
    hide JoinCategories, JoinSplitCategories;
    JoinSplitCategoriesConcat(db, userId, a, b);
    JoinCategoriesConcat(db, userId, JoinSplitCategories(db, userId, a), JoinSplitCategories(db, userId, b));
  }

  /** All rows of one transaction carry that transaction. */
  ghost predicate AllOf(rows: seq<JoinedRow>, t: Transaction) { forall r :: r in rows ==> r.transaction == t }

  /** The joined rows of a split transaction are its splits' allocations. */
  lemma {:induction false} SplitRowsAreAllocations(db: Database, userId: string, t: Transaction, splits: seq<Split>)
    requires Indexed(db)
    ensures var rows := Finish(db, userId, WithSplits(t, Somes(splits)));
      AllOf(rows, t) && Project(rows) == SplitAllocations(db, userId, t.currency, splits)
  {
    if splits != [] {
      hide JoinCategories, JoinSplitCategories, Primaries, Indexed, Finish;
      var row := JoinedRow(t, Some(splits[0]), None, None);
      var rest := WithSplits(t, Somes(splits[1..]));
      assert Somes(splits)[1..] == Somes(splits[1..]);
      assert WithSplits(t, Somes(splits)) == [row] + rest;
      SplitRowsAreAllocations(db, userId, t, splits[1..]);
      OneFinishedRow(db, userId, row);
      FinishConcat(db, userId, [row], rest);
      ProjectConcat(Finish(db, userId, [row]), Finish(db, userId, rest));
    }
  }

  lemma OneFinishedRow(db: Database, userId: string, row: JoinedRow)
    requires Indexed(db) && row.splitCategory.None? && row.category.None?
    ensures AllOf(Finish(db, userId, [row]), row.transaction)
    ensures Project(Finish(db, userId, [row]))
         == [Allocation(
               if row.split.Some? then First(Primaries(db.splitCategories, userId, row.split.value.id))
               else First(Primaries(db.transactionCategories, userId, row.transaction.id)),
               AmountOf(row), row.transaction.currency)]
  {
    hide JoinCategories, JoinSplitCategories, Primaries, Indexed, CategoryOf;
    OneRowPerSplit(db, userId, row);
    var rows := Finish(db, userId, [row]);
    assert rows == [rows[0]];
  }

  lemma OneTransaction(db: Database, userId: string, t: Transaction)
    requires Indexed(db)
    ensures var rows := Finish(db, userId, WithSplits(t, OrNull(ActiveSplits(db.splits, userId, t.id))));
      AllOf(rows, t) && Project(rows) == Allocate(db, userId, t)
  {
    hide Primaries, Indexed, Finish, Project;
    var splits := ActiveSplits(db.splits, userId, t.id);
    if splits == [] {
      var row := JoinedRow(t, None, None, None);
      assert WithSplits(t, [None]) == [row];
      OneFinishedRow(db, userId, row);
    } else {
      SplitRowsAreAllocations(db, userId, t, splits);
    }
  }

  lemma {:induction false} WhereAllOf(db: Database, userId: string, scope: Scope, rows: seq<JoinedRow>, t: Transaction)
    requires AllOf(rows, t)
    ensures Where(db, userId, scope, rows) == if InScope(db, userId, scope, t) then rows else []
  {
    if rows != [] {
      assert AllOf(rows[1..], t);
      assert rows[0] in rows;
      WhereAllOf(db, userId, scope, rows[1..], t);
    }
  }

  /** Under the unique indexes the joined, filtered, projected rows are the allocations, row for row. */
  lemma {:induction false} JoinIsAllocation(db: Database, userId: string, scope: Scope, ts: seq<Transaction>)
    requires Indexed(db)
    ensures Project(Where(db, userId, scope, Joined(db, userId, ts))) == Allocations(db, userId, scope, ts)
  {
    assert forall ts :: Joined(db, userId, ts) == Finish(db, userId, JoinSplits(db, userId, ts));
    if ts != [] {
      hide Joined, Finish, Where, Project, InScope, Indexed, Allocate;
      var t := ts[0];
      var own := WithSplits(t, OrNull(ActiveSplits(db.splits, userId, t.id)));
      var rest := JoinSplits(db, userId, ts[1..]);
      FinishConcat(db, userId, own, rest);
      var a, b := Finish(db, userId, own), Finish(db, userId, rest);
      WhereConcat(db, userId, scope, a, b);
      OneTransaction(db, userId, t);
      WhereAllOf(db, userId, scope, a, t);
      ProjectConcat(Where(db, userId, scope, a), Where(db, userId, scope, b));
      assert Project([]) == [] by { EmptyProject(); }
      JoinIsAllocation(db, userId, scope, ts[1..]);
    }
  }

  lemma EmptyProject()
    ensures Project([]) == []
  {
  }

  // ---------- grouping ----------

  /** The amount shown for a category, zero when it has no row (`scopeSpent`). */
  function AmountIn(groups: seq<Group>, categoryId: Option<string>): int {
    if groups == [] then 0
    else if groups[0].categoryId == categoryId then groups[0].amount
    else AmountIn(groups[1..], categoryId)
  }

  predicate HasGroup(groups: seq<Group>, categoryId: Option<string>) {
    exists g <- groups :: g.categoryId == categoryId
  }

  predicate HasCategory(rows: seq<Allocation>, categoryId: Option<string>) {
    exists r <- rows :: r.categoryId == categoryId
  }

  ghost predicate DistinctGroups(groups: seq<Group>) {
    forall i, j :: 0 <= i < j < |groups| ==> groups[i].categoryId != groups[j].categoryId
  }

  lemma {:induction false} AddToGroupEffect(groups: seq<Group>, c: Option<string>, amount: int)
    requires DistinctGroups(groups)
    ensures var r := AddToGroup(groups, c, amount);
      && DistinctGroups(r) && SumGroups(r) == SumGroups(groups) + amount
      && (forall x :: HasGroup(r, x) <==> HasGroup(groups, x) || x == c)
      && (forall x :: AmountIn(r, x) == AmountIn(groups, x) + (if x == c then amount else 0))
  {
    if groups != [] && groups[0].categoryId != c {
      var rest := AddToGroup(groups[1..], c, amount);
      AddToGroupEffect(groups[1..], c, amount);
      var r := [groups[0]] + rest;
      assert r[1..] == rest;
      forall x ensures HasGroup(r, x) <==> HasGroup(groups, x) || x == c {
        HasGroupCons(groups[0], groups[1..], x);
        HasGroupCons(groups[0], rest, x);
        assert groups == [groups[0]] + groups[1..];
      }
      assert !HasGroup(groups[1..], groups[0].categoryId);
      assert !HasGroup(rest, groups[0].categoryId);
      DistinctCons(groups[0], rest);
    } else if groups != [] {
      var g := Group(c, groups[0].amount + amount);
      var r := [g] + groups[1..];
      assert r[1..] == groups[1..];
      forall x ensures HasGroup(r, x) <==> HasGroup(groups, x) || x == c {
        HasGroupCons(groups[0], groups[1..], x);
        HasGroupCons(g, groups[1..], x);
        assert groups == [groups[0]] + groups[1..];
      }
    } else {
      HasGroupCons(Group(c, amount), [], c);
      assert [Group(c, amount)][1..] == [];
    }
  }

  lemma HasGroupCons(g: Group, groups: seq<Group>, x: Option<string>)
    ensures HasGroup([g] + groups, x) <==> g.categoryId == x || HasGroup(groups, x)
  {
    var r := [g] + groups;
    assert r[0] == g && r[1..] == groups;
    if HasGroup(groups, x) {
      var h :| h in groups && h.categoryId == x;
      assert h in r;
    }
    if g.categoryId == x {
      assert g in r;
    }
  }

  lemma DistinctCons(g: Group, groups: seq<Group>)
    requires DistinctGroups(groups) && !HasGroup(groups, g.categoryId)
    ensures DistinctGroups([g] + groups)
  {
  }

  /** GROUP BY keeps one row per category, holding that category's sum. */
  lemma {:induction false} GroupingKeepsSums(rows: seq<Allocation>)
    ensures var groups := GroupByCategory(rows);
      && DistinctGroups(groups) && SumGroups(groups) == SumAll(rows)
      && (forall x :: HasGroup(groups, x) <==> HasCategory(rows, x))
      && (forall x :: AmountIn(groups, x) == SumIn(rows, x))
  {
    if rows != [] {
      hide AddToGroup;
      GroupingKeepsSums(rows[1..]);
      AddToGroupEffect(GroupByCategory(rows[1..]), rows[0].categoryId, rows[0].amount);
      assert forall r :: r in rows <==> r == rows[0] || r in rows[1..];
    }
  }

  // ---------- splitting never changes the total ----------

  lemma {:induction false} SumAllConcat(a: seq<Allocation>, b: seq<Allocation>)
    ensures SumAll(a + b) == SumAll(a) + SumAll(b)
    ensures forall c :: SumIn(a + b, c) == SumIn(a, c) + SumIn(b, c)
  {
    if a == [] {
      assert a + b == b;
    } else {
      assert (a + b)[1..] == a[1..] + b;
      SumAllConcat(a[1..], b);
    }
  }

  lemma {:induction false} SumOfSplitAllocations(db: Database, userId: string, currency: string, splits: seq<Split>)
    ensures SumAll(SplitAllocations(db, userId, currency, splits)) == SumSplits(splits)
  {
    if splits != [] {
      SumOfSplitAllocations(db, userId, currency, splits[1..]);
      var r := SplitAllocations(db, userId, currency, splits);
      assert r[1..] == SplitAllocations(db, userId, currency, splits[1..]);
    }
  }

  lemma {:induction false} SumSplitsSnoc(splits: seq<Split>, s: Split)
    ensures SumSplits(splits + [s]) == SumSplits(splits) + s.amount
  {
    if splits == [] {
      assert (splits + [s])[1..] == [];
    } else {
      assert (splits + [s])[1..] == splits[1..] + [s];
      SumSplitsSnoc(splits[1..], s);
    }
  }

  lemma {:induction false} TotalOfSplitInputs(splits: seq<Split>)
    requires forall s :: s in splits ==> InRange(s.amount)
    ensures Splits.Total(SplitInputs(splits)) == SumSplits(splits)
  {
    if splits != [] {
      hide NumericText, DecimalToScaled, Splits.Total, SumSplits;
      var init, s := splits[..|splits| - 1], splits[|splits| - 1];
      assert splits == init + [s] && s in splits;
      TotalOfSplitInputs(init);
      SumSplitsSnoc(init, s);
      ParseOfNumericText(s.amount);
      Splits.TotalSnoc(SplitInputs(init), Splits.SplitAmountInput(s.id, s.position, NumericText(s.amount), s.currency));
    }
  }

  lemma {:induction false} ActiveSplitsAreStored(splits: seq<Split>, userId: string, transactionId: string)
    ensures forall s :: s in ActiveSplits(splits, userId, transactionId) ==> s in splits
  {
    if splits != [] {
      ActiveSplitsAreStored(splits[1..], userId, transactionId);
    }
  }

  /** A validated split set allocates exactly its parent's amount. */
  lemma AllocationsKeepTheAmount(db: Database, userId: string, t: Transaction)
    requires SplitsValidated(db, userId) && AmountsStorable(db) && t in db.transactions
    ensures SumAll(Allocate(db, userId, t)) == t.amount
  {
    hide NumericText, DecimalToScaled;
    var splits := ActiveSplits(db.splits, userId, t.id);
    if splits != [] {
      var inputs := SplitInputs(splits);
      Splits.ValidIffExact(NumericText(t.amount), t.currency, inputs, 50);
      ParseOfNumericText(t.amount);
      ActiveSplitsAreStored(db.splits, userId, t.id);
      TotalOfSplitInputs(splits);
      SumOfSplitAllocations(db, userId, t.currency, splits);
    } else {
      assert Allocate(db, userId, t)[1..] == [];
    }
  }

  lemma {:induction false} AllocationsKeepTheTotal(db: Database, userId: string, scope: Scope, ts: seq<Transaction>)
    requires SplitsValidated(db, userId) && AmountsStorable(db)
    requires forall t :: t in ts ==> t in db.transactions
    ensures SumAll(Allocations(db, userId, scope, ts)) == ParentTotal(db, userId, scope, ts)
  {
    if ts != [] {
      hide SplitsValidated, AmountsStorable, Allocate, InScope;
      AllocationsKeepTheTotal(db, userId, scope, ts[1..]);
      AllocationsKeepTheAmount(db, userId, ts[0]);
      var own := if InScope(db, userId, scope, ts[0]) then Allocate(db, userId, ts[0]) else [];
      SumAllConcat(own, Allocations(db, userId, scope, ts[1..]));
    }
  }

  /**
   * The query's result: one row per category that some allocation lands in, holding the
   * sum of those allocations, and rows that add up to the undivided transactions.
   */
  lemma SpendingIsTheAllocation(db: Database, userId: string, scope: Scope)
    requires Indexed(db)
    ensures var groups := SpendingGroups(db, userId, scope);
      var rows := Allocations(db, userId, scope, db.transactions);
      && DistinctGroups(groups)
      && (forall c :: HasGroup(groups, c) <==> HasCategory(rows, c))
      && (forall c :: AmountIn(groups, c) == SumIn(rows, c))
    ensures SplitsValidated(db, userId) && AmountsStorable(db)
      ==> SumGroups(SpendingGroups(db, userId, scope)) == ParentTotal(db, userId, scope, db.transactions)
  {
    hide Joined, Where, Project, GroupByCategory, SplitsValidated, AmountsStorable, Indexed, Allocations;
    JoinIsAllocation(db, userId, scope, db.transactions);
    GroupingKeepsSums(Allocations(db, userId, scope, db.transactions));
    if SplitsValidated(db, userId) && AmountsStorable(db) {
      AllocationsKeepTheTotal(db, userId, scope, db.transactions);
    }
  }

  // ---------- date ranges add up ----------

  /** What a category (or, with no filter, everything) was charged over a range of days. */
  function SpentIn(db: Database, userId: string, scope: Scope, category: Option<string>): int {
    var groups := SpendingGroups(db, userId, scope);
    if category.None? then SumGroups(groups) else AmountIn(groups, category)
  }

  /** The rows the query keeps and projects. */
  function Kept(db: Database, userId: string, scope: Scope, rows: seq<JoinedRow>): seq<Allocation> {
    Project(Where(db, userId, scope, rows))
  }

  lemma {:induction false} KeptSplitsByDay(db: Database, userId: string, scope: Scope, middle: int, rows: seq<JoinedRow>)
    requires scope.from <= middle + 1 <= scope.to + 1
    ensures var before := Kept(db, userId, scope.(to := middle), rows);
      var after := Kept(db, userId, scope.(from := middle + 1), rows);
      var all := Kept(db, userId, scope, rows);
      && SumAll(all) == SumAll(before) + SumAll(after)
      && (forall c :: SumIn(all, c) == SumIn(before, c) + SumIn(after, c))
  {
    if rows != [] {
      hide Kept, SumAll, SumIn, IsExpense;
      KeptSplitsByDay(db, userId, scope, middle, rows[1..]);
      KeptStep(db, userId, scope, rows);
      KeptStep(db, userId, scope.(to := middle), rows);
      KeptStep(db, userId, scope.(from := middle + 1), rows);
    } else {
      assert SumAll([]) == 0;
      assert forall c :: SumIn([], c) == 0;
    }
  }

  lemma KeptStep(db: Database, userId: string, scope: Scope, rows: seq<JoinedRow>)
    requires rows != []
    ensures var rest := Kept(db, userId, scope, rows[1..]);
      var own := Project([rows[0]]);
      var inScope := InScope(db, userId, scope, rows[0].transaction);
      && SumAll(Kept(db, userId, scope, rows)) == (if inScope then SumAll(own) else 0) + SumAll(rest)
      && (forall c :: SumIn(Kept(db, userId, scope, rows), c) == (if inScope then SumIn(own, c) else 0) + SumIn(rest, c))
  {
    hide InScope, SumAll, SumIn, Project;
    var rest := Where(db, userId, scope, rows[1..]);
    ProjectConcat([rows[0]], rest);
    SumAllConcat(Project([rows[0]]), Project(rest));
    assert [] + rest == rest;
  }

  /** Spending over two adjacent ranges adds up to spending over both, in total and per category, whatever the indexes. */
  lemma SpendingIsAdditive(db: Database, userId: string, scope: Scope, middle: int)
    requires scope.from <= middle + 1 <= scope.to + 1
    ensures var before, after := scope.(to := middle), scope.(from := middle + 1);
      && (forall category ::
            SpentIn(db, userId, scope, category)
            == SpentIn(db, userId, before, category) + SpentIn(db, userId, after, category))
      && (forall c ::
            AmountIn(SpendingGroups(db, userId, scope), c)
            == AmountIn(SpendingGroups(db, userId, before), c) + AmountIn(SpendingGroups(db, userId, after), c))
  {
    hide Kept, SpendingGroups, Joined;
    var joined := Joined(db, userId, db.transactions);
    KeptSplitsByDay(db, userId, scope, middle, joined);
    SpendingSums(db, userId, scope);
    SpendingSums(db, userId, scope.(to := middle));
    SpendingSums(db, userId, scope.(from := middle + 1));
  }

  lemma SpendingSums(db: Database, userId: string, scope: Scope)
    ensures var kept := Kept(db, userId, scope, Joined(db, userId, db.transactions));
      && SumGroups(SpendingGroups(db, userId, scope)) == SumAll(kept)
      && (forall c :: AmountIn(SpendingGroups(db, userId, scope), c) == SumIn(kept, c))
  {
    hide Joined, Where, Project, GroupByCategory;
    GroupingKeepsSums(Kept(db, userId, scope, Joined(db, userId, db.transactions)));
  }

  // ---------- the uncategorized report ----------

  datatype Uncategorized = Uncategorized(currency: string, count: nat, amount: int)

  function WhereUncategorized(db: Database, userId: string, rows: seq<JoinedRow>): seq<JoinedRow> {
    if rows == [] then []
    else
      (if IsExpense(db, userId, rows[0].transaction) && CategoryOf(rows[0]).None? then [rows[0]] else [])
      + WhereUncategorized(db, userId, rows[1..])
  }

  function AddToCurrency(groups: seq<Uncategorized>, currency: string, amount: int): seq<Uncategorized> {
    if groups == [] then [Uncategorized(currency, 1, amount)]
    else if groups[0].currency == currency
    then [Uncategorized(currency, groups[0].count + 1, groups[0].amount + amount)] + groups[1..]
    else [groups[0]] + AddToCurrency(groups[1..], currency, amount)
  }

  /** GROUP BY currency with COUNT and SUM. */
  function GroupByCurrency(rows: seq<Allocation>): seq<Uncategorized> {
    if rows == [] then [] else AddToCurrency(GroupByCurrency(rows[1..]), rows[0].currency, rows[0].amount)
  }

  function UncategorizedGroups(db: Database, userId: string): seq<Uncategorized> {
    GroupByCurrency(Project(WhereUncategorized(db, userId, Joined(db, userId, db.transactions))))
  }

  function UncategorizedAmount(groups: seq<Uncategorized>, currency: string): int {
    if groups == [] then 0
    else if groups[0].currency == currency then groups[0].amount
    else UncategorizedAmount(groups[1..], currency)
  }

  function UncategorizedCount(groups: seq<Uncategorized>, currency: string): nat {
    if groups == [] then 0
    else if groups[0].currency == currency then groups[0].count
    else UncategorizedCount(groups[1..], currency)
  }

  function SumOfCurrency(rows: seq<Allocation>, currency: string): int {
    if rows == [] then 0
    else (if rows[0].currency == currency then rows[0].amount else 0) + SumOfCurrency(rows[1..], currency)
  }

  function CountOfCurrency(rows: seq<Allocation>, currency: string): nat {
    if rows == [] then 0
    else (if rows[0].currency == currency then 1 else 0) + CountOfCurrency(rows[1..], currency)
  }

  function CountIn(rows: seq<Allocation>, categoryId: Option<string>): nat {
    if rows == [] then 0
    else (if rows[0].categoryId == categoryId then 1 else 0) + CountIn(rows[1..], categoryId)
  }

  lemma {:induction false} AddToCurrencyEffect(groups: seq<Uncategorized>, currency: string, amount: int, x: string)
    ensures var r := AddToCurrency(groups, currency, amount);
      && UncategorizedAmount(r, x) == UncategorizedAmount(groups, x) + (if x == currency then amount else 0)
      && UncategorizedCount(r, x) == UncategorizedCount(groups, x) + (if x == currency then 1 else 0)
  {
    if groups == [] {
      assert [Uncategorized(currency, 1, amount)][1..] == [];
    } else if groups[0].currency == currency {
      var g := Uncategorized(currency, groups[0].count + 1, groups[0].amount + amount);
      assert ([g] + groups[1..])[1..] == groups[1..];
    } else {
      AddToCurrencyEffect(groups[1..], currency, amount, x);
      assert ([groups[0]] + AddToCurrency(groups[1..], currency, amount))[1..] == AddToCurrency(groups[1..], currency, amount);
    }
  }

  lemma {:induction false} CurrencyGroupingKeepsSums(rows: seq<Allocation>, x: string)
    ensures UncategorizedAmount(GroupByCurrency(rows), x) == SumOfCurrency(rows, x)
    ensures UncategorizedCount(GroupByCurrency(rows), x) == CountOfCurrency(rows, x)
  {
    if rows != [] {
      hide AddToCurrency;
      CurrencyGroupingKeepsSums(rows[1..], x);
      AddToCurrencyEffect(GroupByCurrency(rows[1..]), rows[0].currency, rows[0].amount, x);
    }
  }

  ghost predicate Covers(scope: Scope, rows: seq<JoinedRow>) {
    forall r :: r in rows ==> scope.from <= r.transaction.bookingDate <= scope.to
  }

  /** On the same joined rows, the null-category share of one currency is the same in both queries. */
  lemma {:induction false} NullShare(db: Database, userId: string, scope: Scope, rows: seq<JoinedRow>)
    requires scope.accountId.None? && Covers(scope, rows)
    ensures var spent := Project(Where(db, userId, scope, rows));
      var uncategorized := Project(WhereUncategorized(db, userId, rows));
      && SumIn(spent, None) == SumOfCurrency(uncategorized, scope.currency)
      && CountIn(spent, None) == CountOfCurrency(uncategorized, scope.currency)
  {
    if rows != [] {
      hide IsExpense, CategoryOf, Project, Where, WhereUncategorized, SumIn, SumOfCurrency, CountIn, CountOfCurrency;
      assert rows[0] in rows && Covers(scope, rows[1..]);
      NullShare(db, userId, scope, rows[1..]);
      WhereStep(db, userId, scope, rows);
      WhereUncategorizedStep(db, userId, scope.currency, rows);
    }
  }

  lemma WhereStep(db: Database, userId: string, scope: Scope, rows: seq<JoinedRow>)
    requires rows != []
    ensures var all, rest := Project(Where(db, userId, scope, rows)), Project(Where(db, userId, scope, rows[1..]));
      var own := InScope(db, userId, scope, rows[0].transaction) && CategoryOf(rows[0]).None?;
      && SumIn(all, None) == (if own then AmountOf(rows[0]) else 0) + SumIn(rest, None)
      && CountIn(all, None) == (if own then 1 else 0) + CountIn(rest, None)
  {
    hide InScope, CategoryOf, AmountOf;
    var rest := Where(db, userId, scope, rows[1..]);
    ProjectCons(rows[0], rest);
    assert [] + rest == rest;
    hide Project;
  }

  lemma WhereUncategorizedStep(db: Database, userId: string, currency: string, rows: seq<JoinedRow>)
    requires rows != []
    ensures var all := Project(WhereUncategorized(db, userId, rows));
      var rest := Project(WhereUncategorized(db, userId, rows[1..]));
      var own := IsExpense(db, userId, rows[0].transaction) && CategoryOf(rows[0]).None?
                 && rows[0].transaction.currency == currency;
      && SumOfCurrency(all, currency) == (if own then AmountOf(rows[0]) else 0) + SumOfCurrency(rest, currency)
      && CountOfCurrency(all, currency) == (if own then 1 else 0) + CountOfCurrency(rest, currency)
  {
    hide IsExpense, CategoryOf, AmountOf;
    var rest := WhereUncategorized(db, userId, rows[1..]);
    ProjectCons(rows[0], rest);
    assert [] + rest == rest;
    hide Project;
  }

  lemma ProjectCons(row: JoinedRow, rows: seq<JoinedRow>)
    ensures var p := Project([row] + rows);
      p == [Allocation(CategoryOf(row), AmountOf(row), row.transaction.currency)] + Project(rows) && p[1..] == Project(rows)
  {
    assert ([row] + rows)[1..] == rows;
  }

  ghost predicate AllFrom(rows: seq<JoinedRow>, ts: seq<Transaction>) { forall r :: r in rows ==> r.transaction in ts }

  lemma {:induction false} JoinedRowsComeFromTransactions(db: Database, userId: string, ts: seq<Transaction>)
    ensures AllFrom(Joined(db, userId, ts), ts)
  {
    JoinSplitsFrom(db, userId, ts);
    JoinSplitCategoriesFrom(db, userId, JoinSplits(db, userId, ts), ts);
    JoinCategoriesFrom(db, userId, JoinSplitCategories(db, userId, JoinSplits(db, userId, ts)), ts);
    hide JoinSplits, JoinSplitCategories, JoinCategories;
  }

  lemma {:induction false} JoinSplitsFrom(db: Database, userId: string, ts: seq<Transaction>)
    ensures AllFrom(JoinSplits(db, userId, ts), ts)
  {
    if ts != [] {
      JoinSplitsFrom(db, userId, ts[1..]);
      WithSplitsFrom(ts[0], OrNull(ActiveSplits(db.splits, userId, ts[0].id)));
    }
  }

  lemma {:induction false} WithSplitsFrom(t: Transaction, splits: seq<Option<Split>>)
    ensures AllOf(WithSplits(t, splits), t)
  {
    if splits != [] { WithSplitsFrom(t, splits[1..]); }
  }

  lemma {:induction false} JoinSplitCategoriesFrom(db: Database, userId: string, rows: seq<JoinedRow>, ts: seq<Transaction>)
    requires AllFrom(rows, ts)
    ensures AllFrom(JoinSplitCategories(db, userId, rows), ts)
  {
    if rows != [] {
      assert rows[0] in rows;
      JoinSplitCategoriesFrom(db, userId, rows[1..], ts);
      WithSplitCategoriesFrom(rows[0], OrNull(SplitPrimaries(db, userId, rows[0].split)));
    }
  }

  lemma {:induction false} WithSplitCategoriesFrom(row: JoinedRow, found: seq<Option<Assignment>>)
    ensures AllOf(WithSplitCategories(row, found), row.transaction)
  {
    if found != [] { WithSplitCategoriesFrom(row, found[1..]); }
  }

  lemma {:induction false} JoinCategoriesFrom(db: Database, userId: string, rows: seq<JoinedRow>, ts: seq<Transaction>)
    requires AllFrom(rows, ts)
    ensures AllFrom(JoinCategories(db, userId, rows), ts)
  {
    if rows != [] {
      assert rows[0] in rows;
      JoinCategoriesFrom(db, userId, rows[1..], ts);
      WithCategoriesFrom(rows[0], OrNull(Primaries(db.transactionCategories, userId, rows[0].transaction.id)));
    }
  }

  lemma {:induction false} WithCategoriesFrom(row: JoinedRow, found: seq<Option<Assignment>>)
    ensures AllOf(WithCategories(row, found), row.transaction)
  {
    if found != [] { WithCategoriesFrom(row, found[1..]); }
  }

  /**
   * Over a range that covers every booking date, the spending report's uncategorized amount in a
   * currency is the one the uncategorized report gives, whatever the state of the tables.
   */
  lemma UncategorizedReportsAgree(db: Database, userId: string, scope: Scope)
    requires scope.accountId.None?
    requires forall t :: t in db.transactions ==> scope.from <= t.bookingDate <= scope.to
    ensures AmountIn(SpendingGroups(db, userId, scope), None)
         == UncategorizedAmount(UncategorizedGroups(db, userId), scope.currency)
    ensures CountIn(Project(Where(db, userId, scope, Joined(db, userId, db.transactions))), None)
         == UncategorizedCount(UncategorizedGroups(db, userId), scope.currency)
  {
    hide Joined, Where, Project, WhereUncategorized, GroupByCategory, GroupByCurrency;
    var rows := Joined(db, userId, db.transactions);
    JoinedRowsComeFromTransactions(db, userId, db.transactions);
    NullShare(db, userId, scope, rows);
    GroupingKeepsSums(Project(Where(db, userId, scope, rows)));
    CurrencyGroupingKeepsSums(Project(WhereUncategorized(db, userId, rows)), scope.currency);
  }

  // ---------- why the unique indexes matter ----------

  /** How often a left join repeats a row that has these matches. */
  function Copies(matches: seq<Assignment>): (n: nat)
    ensures n >= 1 && (n == 1 <==> |matches| <= 1)
  {
    if matches == [] then 1 else |matches|
  }

  function CopiedSplits(db: Database, userId: string, splits: seq<Split>): int {
    if splits == [] then 0
    else Copies(Primaries(db.splitCategories, userId, splits[0].id)) * splits[0].amount
         + CopiedSplits(db, userId, splits[1..])
  }

  /**
   * Whatever the category tables hold, a transaction is charged once for each of its own primary
   * categories, and within that each of its splits once for each primary category of the split.
   */
  lemma FanOut(db: Database, userId: string, t: Transaction)
    ensures var splits := ActiveSplits(db.splits, userId, t.id);
      SumAll(Project(Joined(db, userId, [t])))
      == Copies(Primaries(db.transactionCategories, userId, t.id))
         * (if splits == [] then t.amount else CopiedSplits(db, userId, splits))
  {
    var splits := ActiveSplits(db.splits, userId, t.id);
    var rows := WithSplits(t, OrNull(splits));
    assert JoinSplits(db, userId, [t]) == rows;
    WithSplitsFrom(t, OrNull(splits));
    assert AllFrom(rows, [t]) by { hide WithSplits, OrNull; }
    JoinSplitCategoriesFrom(db, userId, rows, [t]);
    var joined := JoinSplitCategories(db, userId, rows);
    assert AllOf(joined, t) by { hide JoinSplitCategories; }
    if splits == [] {
      UnsplitFansOut(db, userId, t);
    } else {
      SplitsFanOut(db, userId, t, splits);
    }
    hide JoinCategories, Primaries, Project, JoinSplitCategories, WithSplits, ActiveSplits, CopiedSplits;
    CategoriesFanOut(db, userId, t, joined);
  }

  lemma UnsplitFansOut(db: Database, userId: string, t: Transaction)
    ensures SumAll(Project(JoinSplitCategories(db, userId, WithSplits(t, [None])))) == t.amount
  {
    var row := JoinedRow(t, None, None, None);
    assert WithSplits(t, [None]) == [row];
    assert WithSplitCategories(row, [None]) == [row];
    assert JoinSplitCategories(db, userId, [row]) == [row];
    ProjectCons(row, []);
    assert [row] + [] == [row];
  }

  lemma {:induction false} SplitsFanOut(db: Database, userId: string, t: Transaction, splits: seq<Split>)
    ensures SumAll(Project(JoinSplitCategories(db, userId, WithSplits(t, Somes(splits))))) == CopiedSplits(db, userId, splits)
  {
    if splits != [] {
      var row := JoinedRow(t, Some(splits[0]), None, None);
      var rest := WithSplits(t, Somes(splits[1..]));
      assert Somes(splits)[1..] == Somes(splits[1..]);
      assert WithSplits(t, Somes(splits)) == [row] + rest;
      SplitsFanOut(db, userId, t, splits[1..]);
      var found := OrNull(Primaries(db.splitCategories, userId, splits[0].id));
      LengthOfOrNull(Primaries(db.splitCategories, userId, splits[0].id));
      SplitCopies(row, found);
      hide Primaries, OrNull, Project;
      ProjectConcat(WithSplitCategories(row, found), JoinSplitCategories(db, userId, rest));
      SumAllConcat(Project(WithSplitCategories(row, found)), Project(JoinSplitCategories(db, userId, rest)));
    }
  }

  lemma {:induction false} CategoriesFanOut(db: Database, userId: string, t: Transaction, rows: seq<JoinedRow>)
    requires AllOf(rows, t)
    ensures SumAll(Project(JoinCategories(db, userId, rows)))
         == Copies(Primaries(db.transactionCategories, userId, t.id)) * SumAll(Project(rows))
  {
    if rows != [] {
      var row, rest := rows[0], rows[1..];
      assert row in rows;
      assert rows == [row] + rest;
      CategoriesFanOut(db, userId, t, rest);
      var matches := Primaries(db.transactionCategories, userId, t.id);
      var found := OrNull(matches);
      LengthOfOrNull(matches);
      CategoryCopies(row, found);
      ProjectCons(row, rest);
      hide Primaries, OrNull, Project, AmountOf, Copies;
      ProjectConcat(WithCategories(row, found), JoinCategories(db, userId, rest));
      SumAllConcat(Project(WithCategories(row, found)), Project(JoinCategories(db, userId, rest)));
      Distributes(Copies(matches), AmountOf(row), SumAll(Project(rest)));
    }
  }

  lemma Distributes(n: nat, a: int, b: int)
    ensures n * (a + b) == n * a + n * b
  {
  }

  lemma LengthOfOrNull(matches: seq<Assignment>)
    ensures |OrNull(matches)| == Copies(matches)
  {
    LengthOfSomes(matches);
  }

  lemma {:induction false} LengthOfSomes<T>(s: seq<T>)
    ensures |Somes(s)| == |s|
  {
    if s != [] { LengthOfSomes(s[1..]); }
  }

  lemma {:induction false} SplitCopies(row: JoinedRow, found: seq<Option<Assignment>>)
    ensures SumAll(Project(WithSplitCategories(row, found))) == |found| * AmountOf(row)
  {
    if found != [] {
      SplitCopies(row, found[1..]);
      ProjectCons(row.(splitCategory := found[0]), WithSplitCategories(row, found[1..]));
    }
  }

  lemma {:induction false} CategoryCopies(row: JoinedRow, found: seq<Option<Assignment>>)
    ensures SumAll(Project(WithCategories(row, found))) == |found| * AmountOf(row)
  {
    if found != [] {
      CategoryCopies(row, found[1..]);
      ProjectCons(row.(category := found[0]), WithCategories(row, found[1..]));
    }
  }

  /** At most one primary category for the transaction and for each of its splits. */
  ghost predicate IsUnambiguous(db: Database, userId: string, t: Transaction) {
    && |Primaries(db.transactionCategories, userId, t.id)| <= 1
    && (forall s <- ActiveSplits(db.splits, userId, t.id) :: |Primaries(db.splitCategories, userId, s.id)| <= 1)
  }

  lemma {:induction false} CopiesOnlyAdd(db: Database, userId: string, splits: seq<Split>)
    requires forall s <- splits :: s.amount > 0
    ensures CopiedSplits(db, userId, splits) >= SumSplits(splits)
    ensures CopiedSplits(db, userId, splits) == SumSplits(splits)
       <==> (forall s <- splits :: |Primaries(db.splitCategories, userId, s.id)| <= 1)
  {
    if splits != [] {
      assert splits[0] in splits && splits == [splits[0]] + splits[1..];
      CopiesOnlyAdd(db, userId, splits[1..]);
      hide Primaries;
      AtLeastOnce(Copies(Primaries(db.splitCategories, userId, splits[0].id)), splits[0].amount);
    }
  }

  lemma AtLeastOnce(n: nat, a: int)
    requires n >= 1 && a > 0
    ensures n * a >= a && (n * a == a <==> n == 1)
  {
    if n > 1 { assert n * a == a + (n - 1) * a && (n - 1) * a >= a; }
  }

  /**
   * The report charges a transaction, unsplit or with positive splits that sum to it, exactly its
   * amount if and only if no join repeats it: what the two unique indexes guarantee is what it needs.
   */
  lemma ChargedOnceIff(db: Database, userId: string, t: Transaction)
    requires t.amount > 0
    requires var splits := ActiveSplits(db.splits, userId, t.id);
      splits != [] ==> SumSplits(splits) == t.amount && forall s <- splits :: s.amount > 0
    ensures SumAll(Project(Joined(db, userId, [t]))) == t.amount <==> IsUnambiguous(db, userId, t)
  {
    var splits := ActiveSplits(db.splits, userId, t.id);
    var primaries := Primaries(db.transactionCategories, userId, t.id);
    hide Joined, Project, SumAll, Primaries, ActiveSplits;
    FanOut(db, userId, t);
    if splits != [] { CopiesOnlyAdd(db, userId, splits); }
    var charged := if splits == [] then t.amount else CopiedSplits(db, userId, splits);
    hide CopiedSplits, SumSplits;
    AtLeastOnce(Copies(primaries), charged);
  }

  /** Two primary categories double a transaction. */
  lemma TwoPrimariesCountTwice(t: Transaction)
    ensures var both := [Assignment(t.userId, t.id, "a", true), Assignment(t.userId, t.id, "b", true)];
      SumAll(Project(Joined(Database([t], [], [], both, []), t.userId, [t]))) == 2 * t.amount
  {
    hide Joined, Project, SumAll;
    var both := [Assignment(t.userId, t.id, "a", true), Assignment(t.userId, t.id, "b", true)];
    assert both[1..] == [both[1]] && both[1..][1..] == [];
    assert |Primaries(both[1..], t.userId, t.id)| == 1;
    FanOut(Database([t], [], [], both, []), t.userId, t);
  }
}
