/**
 * What the expense report charges, stated on the columns alone: which transactions count, which
 * splits and categories they are charged to, and which rows of any table make no difference.
 */
module Charges {
  import opened Wrappers
  import opened Ledger
  import opened Spending

  // ---------- the columns ----------

  /** Confirmed debits of the user in the currency, the days and the account, on neither side of a confirmed transfer. */
  predicate IsCharged(db: Database, userId: string, scope: Scope, t: Transaction) {
    && t.userId == userId && t.confirmed && t.direction == Debit && t.currency == scope.currency
    && scope.from <= t.bookingDate && t.bookingDate <= scope.to
    && (scope.accountId == None || scope.accountId == Some(t.accountId))
    && (forall l <- db.links :: !(l.userId == userId && l.confirmed && (l.outgoingId == t.id || l.incomingId == t.id)))
  }

  /** The owner's primary category is `c`; `None` if it has no primary category. */
  predicate IsIn(assignments: seq<Assignment>, userId: string, ownerId: string, c: Option<string>) {
    match c
    case Some(x) =>
      exists a <- assignments :: a.userId == userId && a.ownerId == ownerId && a.primary && a.categoryId == x
    case None => forall a <- assignments :: !(a.userId == userId && a.ownerId == ownerId && a.primary)
  }

  predicate IsPart(s: Split, userId: string, t: Transaction) {
    s.userId == userId && s.transactionId == t.id && !s.archived
  }

  predicate IsSplit(db: Database, userId: string, t: Transaction) { exists s <- db.splits :: IsPart(s, userId, t) }

  /** What the parts of `t` among `splits` charge to `c`. */
  function PartsIn(db: Database, userId: string, t: Transaction, splits: seq<Split>, c: Option<string>): int {
    if splits == [] then 0
    else
      (if IsPart(splits[0], userId, t) && IsIn(db.splitCategories, userId, splits[0].id, c) then splits[0].amount else 0)
      + PartsIn(db, userId, t, splits[1..], c)
  }

  function PartsTotal(userId: string, t: Transaction, splits: seq<Split>): int {
    if splits == [] then 0
    else (if IsPart(splits[0], userId, t) then splits[0].amount else 0) + PartsTotal(userId, t, splits[1..])
  }

  /** What one transaction is charged to a category, and in total. */
  function ChargeIn(db: Database, userId: string, t: Transaction, c: Option<string>): int {
    if IsSplit(db, userId, t) then PartsIn(db, userId, t, db.splits, c)
    else if IsIn(db.transactionCategories, userId, t.id, c) then t.amount
    else 0
  }

  function Charge(db: Database, userId: string, t: Transaction): int {
    if IsSplit(db, userId, t) then PartsTotal(userId, t, db.splits) else t.amount
  }

  function ChargedIn(db: Database, userId: string, scope: Scope, ts: seq<Transaction>, c: Option<string>): int {
    if ts == [] then 0
    else
      (if IsCharged(db, userId, scope, ts[0]) then ChargeIn(db, userId, ts[0], c) else 0)
      + ChargedIn(db, userId, scope, ts[1..], c)
  }

  function ChargedTotal(db: Database, userId: string, scope: Scope, ts: seq<Transaction>): int {
    if ts == [] then 0
    else
      (if IsCharged(db, userId, scope, ts[0]) then Charge(db, userId, ts[0]) else 0)
      + ChargedTotal(db, userId, scope, ts[1..])
  }

  // ---------- the query reads the columns so ----------

  lemma ScopeIsCharged(db: Database, userId: string, scope: Scope, t: Transaction)
    ensures InScope(db, userId, scope, t) <==> IsCharged(db, userId, scope, t)
  {
  }

  lemma {:induction false} ActiveAreParts(splits: seq<Split>, userId: string, t: Transaction)
    ensures ActiveSplits(splits, userId, t.id) == [] <==> forall s <- splits :: !IsPart(s, userId, t)
  {
    if splits != [] {
      var s, rest := splits[0], splits[1..];
      ActiveAreParts(rest, userId, t);
      assert s in splits && forall x <- rest :: x in splits;
      assert forall x <- splits :: x == s || x in rest;
      assert ActiveSplits(splits, userId, t.id) == [] <==> !IsPart(s, userId, t) && ActiveSplits(rest, userId, t.id) == [];
    }
  }

  /** Under the index the first primary category found is the one there is. */
  lemma {:induction false} FirstIsTheCategory(assignments: seq<Assignment>, userId: string, ownerId: string, c: Option<string>)
    requires OnePrimary(assignments)
    ensures First(Primaries(assignments, userId, ownerId)) == c <==> IsIn(assignments, userId, ownerId, c)
  {
    if assignments != [] {
      var a, rest := assignments[0], assignments[1..];
      assert assignments == [a] + rest;
      FirstIsTheCategory(rest, userId, ownerId, c);
      FirstIsTheCategory(rest, userId, ownerId, None);
      if a.userId == userId && a.ownerId == ownerId && a.primary { NoOtherPrimary(assignments, userId, ownerId); }
    }
  }

  lemma NoOtherPrimary(assignments: seq<Assignment>, userId: string, ownerId: string)
    requires OnePrimary(assignments) && assignments != []
    requires assignments[0].userId == userId && assignments[0].ownerId == ownerId && assignments[0].primary
    ensures forall a <- assignments[1..] :: !(a.userId == userId && a.ownerId == ownerId && a.primary)
  {
  }

  lemma {:induction false} PartsAreAllocated(
    db: Database, userId: string, t: Transaction, splits: seq<Split>, currency: string, c: Option<string>)
    requires Indexed(db)
    ensures var rows := SplitAllocations(db, userId, currency, ActiveSplits(splits, userId, t.id));
      SumIn(rows, c) == PartsIn(db, userId, t, splits, c) && SumAll(rows) == PartsTotal(userId, t, splits)
  {
    if splits != [] {
      hide Primaries, IsIn, Indexed;
      var s := splits[0];
      PartsAreAllocated(db, userId, t, splits[1..], currency, c);
      assert OnePrimary(db.splitCategories) by { IndexesOf(db); }
      FirstIsTheCategory(db.splitCategories, userId, s.id, c);
      var rest := ActiveSplits(splits[1..], userId, t.id);
      if IsPart(s, userId, t) {
        assert ActiveSplits(splits, userId, t.id) == [s] + rest && ([s] + rest)[1..] == rest;
        AllocationsCons(db, userId, currency, s, rest);
      }
    }
  }

  lemma IndexesOf(db: Database)
    requires Indexed(db)
    ensures OnePrimary(db.splitCategories) && OnePrimary(db.transactionCategories)
  {
  }

  lemma AllocationsCons(db: Database, userId: string, currency: string, s: Split, rest: seq<Split>)
    ensures var rows := SplitAllocations(db, userId, currency, [s] + rest);
      var a := Allocation(First(Primaries(db.splitCategories, userId, s.id)), s.amount, currency);
      rows == [a] + SplitAllocations(db, userId, currency, rest) && rows[1..] == SplitAllocations(db, userId, currency, rest)
  {
    hide Primaries;
    assert ([s] + rest)[1..] == rest;
  }

  /** What the plain rule allocates of a transaction is its charge. */
  lemma AllocatedIsCharged(db: Database, userId: string, t: Transaction, c: Option<string>)
    requires Indexed(db)
    ensures SumIn(Allocate(db, userId, t), c) == ChargeIn(db, userId, t, c)
    ensures SumAll(Allocate(db, userId, t)) == Charge(db, userId, t)
  {
    hide Primaries, IsIn, PartsIn, PartsTotal, ActiveSplits, SplitAllocations, IsPart;
    ActiveAreParts(db.splits, userId, t);
    PartsAreAllocated(db, userId, t, db.splits, t.currency, c);
    FirstIsTheCategory(db.transactionCategories, userId, t.id, c);
    if ActiveSplits(db.splits, userId, t.id) == [] {
      assert Allocate(db, userId, t)[1..] == [];
    }
  }

  lemma {:induction false} AllocationsAreCharged(db: Database, userId: string, scope: Scope, ts: seq<Transaction>, c: Option<string>)
    requires Indexed(db)
    ensures SumIn(Allocations(db, userId, scope, ts), c) == ChargedIn(db, userId, scope, ts, c)
    ensures SumAll(Allocations(db, userId, scope, ts)) == ChargedTotal(db, userId, scope, ts)
  {
    if ts != [] {
      hide Indexed, Allocate, InScope, IsCharged, ChargeIn, Charge;
      AllocationsAreCharged(db, userId, scope, ts[1..], c);
      ScopeIsCharged(db, userId, scope, ts[0]);
      AllocatedIsCharged(db, userId, ts[0], c);
      var own := if InScope(db, userId, scope, ts[0]) then Allocate(db, userId, ts[0]) else [];
      SumAllConcat(own, Allocations(db, userId, scope, ts[1..]));
    }
  }

  /** The report, per category and in total, is what the columns say it is. */
  lemma ReportIsCharged(db: Database, userId: string, scope: Scope, c: Option<string>)
    requires Indexed(db)
    ensures AmountIn(SpendingGroups(db, userId, scope), c) == ChargedIn(db, userId, scope, db.transactions, c)
    ensures SumGroups(SpendingGroups(db, userId, scope)) == ChargedTotal(db, userId, scope, db.transactions)
  {
    hide Joined, Where, Project, GroupByCategory, Indexed, Allocations, ChargedIn, ChargedTotal;
    JoinIsAllocation(db, userId, scope, db.transactions);
    GroupingKeepsSums(Allocations(db, userId, scope, db.transactions));
    AllocationsAreCharged(db, userId, scope, db.transactions, c);
  }

  // ---------- one transaction more or less ----------

  function Without<T>(s: seq<T>, i: nat): seq<T>
    requires i < |s|
  {
    s[..i] + s[i + 1..]
  }

  function WithoutTransaction(db: Database, i: nat): Database
    requires i < |db.transactions|
  {
    db.(transactions := Without(db.transactions, i))
  }

  /** The query sees the same splits, primary categories and transfers in both. */
  ghost predicate Alike(a: Database, b: Database, userId: string) {
    && (forall id :: ActiveSplits(a.splits, userId, id) == ActiveSplits(b.splits, userId, id))
    && (forall id :: Primaries(a.splitCategories, userId, id) == Primaries(b.splitCategories, userId, id))
    && (forall id :: Primaries(a.transactionCategories, userId, id) == Primaries(b.transactionCategories, userId, id))
    && (forall id :: InConfirmedTransfer(a, userId, id) == InConfirmedTransfer(b, userId, id))
  }

  lemma {:induction false} SameSplits(a: Database, b: Database, userId: string, ts: seq<Transaction>)
    requires forall id :: ActiveSplits(a.splits, userId, id) == ActiveSplits(b.splits, userId, id)
    ensures JoinSplits(a, userId, ts) == JoinSplits(b, userId, ts)
  {
    hide ActiveSplits;
    if ts != [] { SameSplits(a, b, userId, ts[1..]); }
  }

  lemma {:induction false} SameSplitCategories(a: Database, b: Database, userId: string, rows: seq<JoinedRow>)
    requires forall id :: Primaries(a.splitCategories, userId, id) == Primaries(b.splitCategories, userId, id)
    ensures JoinSplitCategories(a, userId, rows) == JoinSplitCategories(b, userId, rows)
  {
    hide Primaries;
    if rows != [] { SameSplitCategories(a, b, userId, rows[1..]); }
  }

  lemma {:induction false} SameCategories(a: Database, b: Database, userId: string, rows: seq<JoinedRow>)
    requires forall id :: Primaries(a.transactionCategories, userId, id) == Primaries(b.transactionCategories, userId, id)
    ensures JoinCategories(a, userId, rows) == JoinCategories(b, userId, rows)
  {
    hide Primaries;
    if rows != [] { SameCategories(a, b, userId, rows[1..]); }
  }

  lemma {:induction false} SameWhere(a: Database, b: Database, userId: string, scope: Scope, rows: seq<JoinedRow>)
    requires forall id :: InConfirmedTransfer(a, userId, id) == InConfirmedTransfer(b, userId, id)
    ensures Where(a, userId, scope, rows) == Where(b, userId, scope, rows)
  {
    hide InConfirmedTransfer;
    if rows != [] { SameWhere(a, b, userId, scope, rows[1..]); }
  }

  /** The rows the query keeps of some transactions. */
  function KeptOf(db: Database, userId: string, scope: Scope, ts: seq<Transaction>): seq<Allocation> {
    Kept(db, userId, scope, Joined(db, userId, ts))
  }

  lemma SameKept(a: Database, b: Database, userId: string, scope: Scope, ts: seq<Transaction>)
    requires Alike(a, b, userId)
    ensures KeptOf(a, userId, scope, ts) == KeptOf(b, userId, scope, ts)
  {
    hide ActiveSplits, Primaries, InConfirmedTransfer;
    SameSplits(a, b, userId, ts);
    var rows := JoinSplits(a, userId, ts);
    SameSplitCategories(a, b, userId, rows);
    SameCategories(a, b, userId, JoinSplitCategories(a, userId, rows));
    SameWhere(a, b, userId, scope, Joined(a, userId, ts));
    hide JoinSplits, JoinSplitCategories, JoinCategories, Where, Project;
  }

  lemma {:induction false} JoinSplitsConcat(db: Database, userId: string, a: seq<Transaction>, b: seq<Transaction>)
    ensures JoinSplits(db, userId, a + b) == JoinSplits(db, userId, a) + JoinSplits(db, userId, b)
  {
    if a == [] {
      assert a + b == b;
    } else {
      assert (a + b)[1..] == a[1..] + b;
      JoinSplitsConcat(db, userId, a[1..], b);
    }
  }

  lemma KeptConcat(db: Database, userId: string, scope: Scope, a: seq<Transaction>, b: seq<Transaction>)
    ensures KeptOf(db, userId, scope, a + b) == KeptOf(db, userId, scope, a) + KeptOf(db, userId, scope, b)
  {
    hide JoinSplits, JoinSplitCategories, JoinCategories, Where, Project;
    JoinSplitsConcat(db, userId, a, b);
    FinishConcat(db, userId, JoinSplits(db, userId, a), JoinSplits(db, userId, b));
    WhereConcat(db, userId, scope, Joined(db, userId, a), Joined(db, userId, b));
    ProjectConcat(Where(db, userId, scope, Joined(db, userId, a)), Where(db, userId, scope, Joined(db, userId, b)));
  }

  /** The rows kept of all transactions: those before the `i`-th, its own, and those after it. */
  lemma KeptAround(db: Database, userId: string, scope: Scope, i: nat)
    requires i < |db.transactions|
    ensures var ts := db.transactions;
      var before, own := KeptOf(db, userId, scope, ts[..i]), KeptOf(db, userId, scope, [ts[i]]);
      var after, less := KeptOf(db, userId, scope, ts[i + 1..]), WithoutTransaction(db, i);
      && KeptOf(db, userId, scope, ts) == before + (own + after)
      && KeptOf(less, userId, scope, less.transactions) == before + after
  {
    hide KeptOf, ActiveSplits, Primaries;
    var ts, less := db.transactions, WithoutTransaction(db, i);
    assert ts == ts[..i] + ([ts[i]] + ts[i + 1..]);
    KeptConcat(db, userId, scope, ts[..i], [ts[i]] + ts[i + 1..]);
    KeptConcat(db, userId, scope, [ts[i]], ts[i + 1..]);
    KeptConcat(db, userId, scope, ts[..i], ts[i + 1..]);
    SameKept(less, db, userId, scope, less.transactions);
  }

  lemma NothingKept(db: Database, userId: string, scope: Scope, t: Transaction)
    requires !IsCharged(db, userId, scope, t)
    ensures KeptOf(db, userId, scope, [t]) == []
  {
    ScopeIsCharged(db, userId, scope, t);
    hide InScope, IsCharged;
    JoinedRowsComeFromTransactions(db, userId, [t]);
    var rows := Joined(db, userId, [t]);
    assert AllOf(rows, t) by { hide Joined; }
    WhereAllOf(db, userId, scope, rows, t);
    hide Joined, Where;
    EmptyProject();
  }

  /**
   * A transaction of another user, unconfirmed, no debit, of another currency, day or account, or on
   * either side of a confirmed transfer of the user makes no difference to the report.
   */
  lemma OthersAreNotCharged(db: Database, userId: string, scope: Scope, i: nat)
    requires i < |db.transactions|
    requires !IsCharged(db, userId, scope, db.transactions[i])
    ensures SpendingGroups(WithoutTransaction(db, i), userId, scope) == SpendingGroups(db, userId, scope)
  {
    NothingKept(db, userId, scope, db.transactions[i]);
    KeptAround(db, userId, scope, i);
    hide KeptOf, IsCharged;
    var after := KeptOf(db, userId, scope, db.transactions[i + 1..]);
    assert [] + after == after;
    GroupsOfKept(db, userId, scope);
    GroupsOfKept(WithoutTransaction(db, i), userId, scope);
    hide SpendingGroups;
  }

  lemma OwnIsCharged(db: Database, userId: string, scope: Scope, t: Transaction, c: Option<string>)
    requires Indexed(db) && IsCharged(db, userId, scope, t)
    ensures SumIn(KeptOf(db, userId, scope, [t]), c) == ChargeIn(db, userId, t, c)
    ensures SumAll(KeptOf(db, userId, scope, [t])) == Charge(db, userId, t)
  {
    hide Joined, Where, Project, Indexed, ChargeIn, Charge, IsCharged;
    JoinIsAllocation(db, userId, scope, [t]);
    AllocationsAreCharged(db, userId, scope, [t], c);
    assert [t][1..] == [];
  }

  /** Any other transaction adds exactly its charge, to each category and in total. */
  lemma OneMoreIsCharged(db: Database, userId: string, scope: Scope, i: nat, c: Option<string>)
    requires i < |db.transactions| && Indexed(db) && IsCharged(db, userId, scope, db.transactions[i])
    ensures var t, all, rest := db.transactions[i], SpendingGroups(db, userId, scope), SpendingGroups(WithoutTransaction(db, i), userId, scope);
      && AmountIn(all, c) == AmountIn(rest, c) + ChargeIn(db, userId, t, c)
      && SumGroups(all) == SumGroups(rest) + Charge(db, userId, t)
  {
    var ts, less := db.transactions, WithoutTransaction(db, i);
    OwnIsCharged(db, userId, scope, ts[i], c);
    KeptAround(db, userId, scope, i);
    hide Joined, Where, Project, IsCharged, Indexed, ChargeIn, Charge, SumIn, SumAll;
    var before, own, after := KeptOf(db, userId, scope, ts[..i]), KeptOf(db, userId, scope, [ts[i]]), KeptOf(db, userId, scope, ts[i + 1..]);
    SumAllConcat(before, own + after);
    SumAllConcat(own, after);
    SumAllConcat(before, after);
    GroupingKeepsSums(before + (own + after));
    GroupingKeepsSums(before + after);
    hide KeptOf;
    GroupsOfKept(db, userId, scope);
    GroupsOfKept(less, userId, scope);
  }

  lemma GroupsOfKept(db: Database, userId: string, scope: Scope)
    ensures SpendingGroups(db, userId, scope) == GroupByCategory(KeptOf(db, userId, scope, db.transactions))
  {
    hide Joined, Where, Project;
  }

  /** An unsplit transaction's charge is its amount, and so is that of one with validated splits. */
  lemma ChargeIsTheAmount(db: Database, userId: string, t: Transaction)
    requires Indexed(db)
    requires !IsSplit(db, userId, t) || (SplitsValidated(db, userId) && AmountsStorable(db) && t in db.transactions)
    ensures Charge(db, userId, t) == t.amount
  {
    hide Allocate, PartsTotal, IsPart;
    if IsSplit(db, userId, t) {
      AllocationsKeepTheAmount(db, userId, t);
      AllocatedIsCharged(db, userId, t, None);
    }
  }

  // ---------- rows that make no difference ----------

  /** Only the user's own confirmed links keep a transaction out. */
  lemma OtherLinksDoNotMatter(db: Database, userId: string, scope: Scope, i: nat)
    requires i < |db.links| && (db.links[i].userId != userId || !db.links[i].confirmed)
    ensures SpendingGroups(db.(links := Without(db.links, i)), userId, scope) == SpendingGroups(db, userId, scope)
  {
    hide ActiveSplits, Primaries;
    var less := db.(links := Without(db.links, i));
    forall id ensures InConfirmedTransfer(less, userId, id) == InConfirmedTransfer(db, userId, id) {
      if InConfirmedTransfer(db, userId, id) {
        var k :| 0 <= k < |db.links| && db.links[k].userId == userId && db.links[k].confirmed
                 && id in {db.links[k].outgoingId, db.links[k].incomingId};
        assert db.links[k] == less.links[if k < i then k else k - 1];
      }
    }
    SameKept(less, db, userId, scope, db.transactions);
    hide Joined, Where, Project;
  }

  lemma {:induction false} SplitsWithout(splits: seq<Split>, i: nat, userId: string, id: string)
    requires i < |splits| && (splits[i].archived || splits[i].userId != userId)
    ensures ActiveSplits(Without(splits, i), userId, id) == ActiveSplits(splits, userId, id)
  {
    if i == 0 {
      assert Without(splits, 0) == splits[1..];
    } else {
      assert Without(splits, i) == [splits[0]] + Without(splits[1..], i - 1);
      SplitsWithout(splits[1..], i - 1, userId, id);
    }
  }

  /** Archived splits and those of other users are not charged; their transaction may then be whole again. */
  lemma ArchivedSplitsDoNotMatter(db: Database, userId: string, scope: Scope, i: nat)
    requires i < |db.splits| && (db.splits[i].archived || db.splits[i].userId != userId)
    ensures SpendingGroups(db.(splits := Without(db.splits, i)), userId, scope) == SpendingGroups(db, userId, scope)
  {
    hide ActiveSplits, Primaries;
    var less := db.(splits := Without(db.splits, i));
    forall id ensures ActiveSplits(less.splits, userId, id) == ActiveSplits(db.splits, userId, id) {
      SplitsWithout(db.splits, i, userId, id);
    }
    SameKept(less, db, userId, scope, db.transactions);
    hide Joined, Where, Project;
  }

  lemma {:induction false} PrimariesWithout(assignments: seq<Assignment>, i: nat, userId: string, id: string)
    requires i < |assignments| && (!assignments[i].primary || assignments[i].userId != userId)
    ensures Primaries(Without(assignments, i), userId, id) == Primaries(assignments, userId, id)
  {
    if i == 0 {
      assert Without(assignments, 0) == assignments[1..];
    } else {
      assert Without(assignments, i) == [assignments[0]] + Without(assignments[1..], i - 1);
      PrimariesWithout(assignments[1..], i - 1, userId, id);
    }
  }

  /** Only the user's own primary categories are charged. */
  lemma OtherCategoriesDoNotMatter(db: Database, userId: string, scope: Scope, i: nat)
    requires i < |db.transactionCategories|
    requires db.transactionCategories[i].userId != userId || !db.transactionCategories[i].primary
    ensures SpendingGroups(db.(transactionCategories := Without(db.transactionCategories, i)), userId, scope)
         == SpendingGroups(db, userId, scope)
  {
    hide ActiveSplits, Primaries;
    var less := db.(transactionCategories := Without(db.transactionCategories, i));
    forall id ensures Primaries(less.transactionCategories, userId, id) == Primaries(db.transactionCategories, userId, id) {
      PrimariesWithout(db.transactionCategories, i, userId, id);
    }
    SameKept(less, db, userId, scope, db.transactions);
    hide Joined, Where, Project;
  }

  lemma OtherSplitCategoriesDoNotMatter(db: Database, userId: string, scope: Scope, i: nat)
    requires i < |db.splitCategories| && (db.splitCategories[i].userId != userId || !db.splitCategories[i].primary)
    ensures SpendingGroups(db.(splitCategories := Without(db.splitCategories, i)), userId, scope)
         == SpendingGroups(db, userId, scope)
  {
    hide ActiveSplits, Primaries;
    var less := db.(splitCategories := Without(db.splitCategories, i));
    forall id ensures Primaries(less.splitCategories, userId, id) == Primaries(db.splitCategories, userId, id) {
      PrimariesWithout(db.splitCategories, i, userId, id);
    }
    SameKept(less, db, userId, scope, db.transactions);
    hide Joined, Where, Project;
  }

  // ---------- what has no category ----------

  /** A confirmed debit of the user on neither side of a confirmed transfer, in any currency, on any day. */
  predicate IsSpent(db: Database, userId: string, t: Transaction) {
    && t.userId == userId && t.confirmed && t.direction == Debit
    && (forall l <- db.links :: !(l.userId == userId && l.confirmed && (l.outgoingId == t.id || l.incomingId == t.id)))
  }

  function OpenParts(db: Database, userId: string, t: Transaction, splits: seq<Split>): nat {
    if splits == [] then 0
    else
      (if IsPart(splits[0], userId, t) && IsIn(db.splitCategories, userId, splits[0].id, None) then 1 else 0)
      + OpenParts(db, userId, t, splits[1..])
  }

  /** The parts of the transaction that have no category, or the transaction itself if it is whole. */
  function Open(db: Database, userId: string, t: Transaction): nat {
    if IsSplit(db, userId, t) then OpenParts(db, userId, t, db.splits)
    else if IsIn(db.transactionCategories, userId, t.id, None) then 1
    else 0
  }

  function OpenCount(db: Database, userId: string, ts: seq<Transaction>): nat {
    if ts == [] then 0
    else (if IsSpent(db, userId, ts[0]) then Open(db, userId, ts[0]) else 0) + OpenCount(db, userId, ts[1..])
  }

  lemma {:induction false} OpenPartsAreAllocated(db: Database, userId: string, t: Transaction, splits: seq<Split>, currency: string)
    requires Indexed(db)
    ensures CountIn(SplitAllocations(db, userId, currency, ActiveSplits(splits, userId, t.id)), None)
         == OpenParts(db, userId, t, splits)
  {
    if splits != [] {
      hide Primaries, IsIn, Indexed;
      var s := splits[0];
      OpenPartsAreAllocated(db, userId, t, splits[1..], currency);
      IndexesOf(db);
      FirstIsTheCategory(db.splitCategories, userId, s.id, None);
      var rest := ActiveSplits(splits[1..], userId, t.id);
      if IsPart(s, userId, t) {
        assert ActiveSplits(splits, userId, t.id) == [s] + rest;
        AllocationsCons(db, userId, currency, s, rest);
      }
    }
  }

  lemma AllocatedIsOpen(db: Database, userId: string, t: Transaction)
    requires Indexed(db)
    ensures CountIn(Allocate(db, userId, t), None) == Open(db, userId, t)
  {
    hide Primaries, IsIn, OpenParts, ActiveSplits, SplitAllocations, IsPart;
    ActiveAreParts(db.splits, userId, t);
    OpenPartsAreAllocated(db, userId, t, db.splits, t.currency);
    FirstIsTheCategory(db.transactionCategories, userId, t.id, None);
    if ActiveSplits(db.splits, userId, t.id) == [] {
      assert Allocate(db, userId, t)[1..] == [];
    }
  }

  lemma {:induction false} UncategorizedConcat(db: Database, userId: string, a: seq<JoinedRow>, b: seq<JoinedRow>)
    ensures WhereUncategorized(db, userId, a + b) == WhereUncategorized(db, userId, a) + WhereUncategorized(db, userId, b)
  {
    if a == [] {
      assert a + b == b;
    } else {
      assert (a + b)[1..] == a[1..] + b;
      UncategorizedConcat(db, userId, a[1..], b);
    }
  }

  lemma {:induction false} UncategorizedOfOne(db: Database, userId: string, rows: seq<JoinedRow>, t: Transaction)
    requires AllOf(rows, t)
    ensures |WhereUncategorized(db, userId, rows)| == if IsSpent(db, userId, t) then CountIn(Project(rows), None) else 0
  {
    if rows != [] {
      assert AllOf(rows[1..], t) && rows[0] in rows;
      UncategorizedOfOne(db, userId, rows[1..], t);
      assert IsExpense(db, userId, t) <==> IsSpent(db, userId, t);
      assert rows == [rows[0]] + rows[1..];
      ProjectCons(rows[0], rows[1..]);
      hide IsExpense, IsSpent, CategoryOf;
    }
  }

  lemma {:induction false} UncategorizedRowsAreOpen(db: Database, userId: string, ts: seq<Transaction>)
    requires Indexed(db)
    ensures |WhereUncategorized(db, userId, Joined(db, userId, ts))| == OpenCount(db, userId, ts)
  {
    assert forall ts :: Joined(db, userId, ts) == Finish(db, userId, JoinSplits(db, userId, ts));
    if ts != [] {
      hide Joined, Finish, WhereUncategorized, Project, IsSpent, Indexed, Allocate, Open, CountIn;
      var t := ts[0];
      var own := WithSplits(t, OrNull(ActiveSplits(db.splits, userId, t.id)));
      var rest := JoinSplits(db, userId, ts[1..]);
      FinishConcat(db, userId, own, rest);
      UncategorizedConcat(db, userId, Finish(db, userId, own), Finish(db, userId, rest));
      OneTransaction(db, userId, t);
      UncategorizedOfOne(db, userId, Finish(db, userId, own), t);
      AllocatedIsOpen(db, userId, t);
      UncategorizedRowsAreOpen(db, userId, ts[1..]);
    }
  }
}
