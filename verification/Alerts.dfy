/** Alert evaluation: every finding becomes at most one stored event, told apart by its dedupe key. */
module Alerts {
  import opened Wrappers
  import opened Text
  import opened Money
  import opened Percent
  import opened IsoDates
  import opened Budgets

  datatype EventType =
    BudgetExceeded | BudgetApproaching | ReconciliationMismatch | UncategorizedTransactions | GoalMilestone | GoalDeadline

  datatype AlertEvent = AlertEvent(eventType: EventType, entityType: string, entityId: string, ruleId: Option<string>)

  /** An event with the key that makes it unique for its user. */
  datatype Finding = Finding(dedupeKey: string, event: AlertEvent)

  /** The events table under its unique constraint on user and dedupe key. */
  type Events = map<(string, string), AlertEvent>

  datatype BudgetRow = BudgetRow(id: string, budget: Budget)
  datatype GoalProgress = GoalProgress(currentAmount: Option<string>, targetAmount: string, daysRemaining: Option<int>)
  datatype RuleConfig =
    | Uncategorized(threshold: int)
    | Milestones(goalId: string, milestones: seq<int>)
    | Deadline(goalId: string, daysBefore: int)
    | OtherConfig
  datatype Rule = Rule(id: string, config: RuleConfig)

  /** What one evaluation reads: the user's enabled rows and the data behind them. */
  datatype Snapshot = Snapshot(
    db: Spending.Database, today: string, budgets: seq<BudgetRow>, mismatches: seq<string>, rules: seq<Rule>,
    goals: map<string, GoalProgress>)

  datatype AlertError = EvaluationFailed

  ghost predicate StoredSnapshot(s: Snapshot) {
    BudgetToday(s.today) && forall b :: b in s.budgets ==> StoredBudget(b.budget)
  }

  // ---------- keys ----------

  function BudgetExceededKey(id: string, periodKey: string): string {
    "budget:" + (id + (":" + (periodKey + ":exceeded")))
  }

  function BudgetApproachingKey(id: string, periodKey: string, threshold: int): string {
    "budget:" + (id + (":" + (periodKey + (":approaching:" + IntText(threshold)))))
  }

  function ReconciliationKey(statementId: string): string { "reconciliation:" + statementId }

  function UncategorizedKey(threshold: int): string { "uncategorized:threshold:" + IntText(threshold) }

  function MilestoneKey(goalId: string, milestone: int): string {
    "goal:" + (goalId + (":milestone:" + IntText(milestone)))
  }

  function DeadlineKey(goalId: string, daysBefore: int): string {
    "goal:" + (goalId + (":deadline:" + IntText(daysBefore)))
  }

  // ---------- findings ----------

  function BudgetFinding(id: string, threshold: int, periodKey: string, status: Status): seq<Finding> {
    match status
    case Exceeded => [Finding(BudgetExceededKey(id, periodKey), AlertEvent(BudgetExceeded, "budget", id, None))]
    case Approaching =>
      [Finding(BudgetApproachingKey(id, periodKey, threshold), AlertEvent(BudgetApproaching, "budget", id, None))]
    case _ => []
  }

  /** What a budget's status on `today` gives rise to; a budget without dates raises an error instead. */
  function BudgetRowFinding(db: Spending.Database, userId: string, today: string, row: BudgetRow): seq<Finding>
    requires BudgetToday(today) && StoredBudget(row.budget)
  {
    if HasPeriod(row.budget) then
      var status := StatusOn(db, userId, row.budget, ParseDate(today));
      BudgetFinding(row.id, row.budget.warningThreshold.GetOr(80), status.periodKey, status.status)
    else []
  }

  function BudgetFindings(db: Spending.Database, userId: string, today: string, budgets: seq<BudgetRow>): seq<Finding>
    requires BudgetToday(today) && forall b :: b in budgets ==> StoredBudget(b.budget)
  {
    if budgets == [] then []
    else
      BudgetFindings(db, userId, today, budgets[..|budgets| - 1])
      + BudgetRowFinding(db, userId, today, budgets[|budgets| - 1])
  }

  function MismatchFindings(ids: seq<string>): seq<Finding> {
    if ids == [] then []
    else
      var id := ids[|ids| - 1];
      MismatchFindings(ids[..|ids| - 1])
      + [Finding(ReconciliationKey(id), AlertEvent(ReconciliationMismatch, "statement", id, None))]
  }

  function MilestoneFindings(ruleId: string, goalId: string, goal: GoalProgress, milestones: seq<int>): seq<Finding> {
    if milestones == [] || goal.currentAmount.None? then []
    else
      var m := milestones[|milestones| - 1];
      MilestoneFindings(ruleId, goalId, goal, milestones[..|milestones| - 1])
      + if PercentReached(goal.currentAmount.value, goal.targetAmount, m) == Some(true)
        then [Finding(MilestoneKey(goalId, m), AlertEvent(GoalMilestone, "goal", goalId, Some(ruleId)))] else []
  }

  /** The uncategorized allocations, counted over all currencies. */
  function TotalCount(groups: seq<Spending.Uncategorized>): nat {
    if groups == [] then 0 else TotalCount(groups[..|groups| - 1]) + groups[|groups| - 1].count
  }

  function RuleFinding(s: Snapshot, userId: string, rule: Rule): seq<Finding> {
    match rule.config
    case Uncategorized(threshold) =>
      if TotalCount(Spending.UncategorizedGroups(s.db, userId)) > threshold
      then [Finding(UncategorizedKey(threshold), AlertEvent(UncategorizedTransactions, "transactions", "ledger", Some(rule.id)))]
      else []
    case Milestones(goalId, milestones) =>
      if goalId in s.goals then MilestoneFindings(rule.id, goalId, s.goals[goalId], milestones) else []
    case Deadline(goalId, daysBefore) =>
      if goalId in s.goals && s.goals[goalId].daysRemaining.Some? && s.goals[goalId].daysRemaining.value <= daysBefore
      then [Finding(DeadlineKey(goalId, daysBefore), AlertEvent(GoalDeadline, "goal", goalId, Some(rule.id)))]
      else []
    case OtherConfig => []
  }

  function RuleFindings(s: Snapshot, userId: string, rules: seq<Rule>): seq<Finding> {
    if rules == [] then []
    else RuleFindings(s, userId, rules[..|rules| - 1]) + RuleFinding(s, userId, rules[|rules| - 1])
  }

  /** Everything an evaluation finds, in the order it inserts. */
  function Findings(s: Snapshot, userId: string): seq<Finding>
    requires StoredSnapshot(s)
  {
    BudgetFindings(s.db, userId, s.today, s.budgets) + MismatchFindings(s.mismatches) + RuleFindings(s, userId, s.rules)
  }

  // ---------- how far an evaluation gets ----------

  /** The budget's status can be computed: it has its dates, and every amount on the way is in range. */
  ghost predicate BudgetOk(db: Spending.Database, userId: string, today: string, row: BudgetRow) {
    BudgetToday(today) && StoredBudget(row.budget) && HasPeriod(row.budget)
    && Computable(db, userId, row.budget, ParseDate(today))
  }

  /** Comparing the goal with a milestone raises no error. */
  predicate MilestonesReadable(goal: GoalProgress) {
    goal.currentAmount.Some? ==>
      var target := DecimalToScaled(goal.targetAmount);
      target.Some? && (target.value <= 0 || DecimalToScaled(goal.currentAmount.value).Some?)
  }

  predicate RuleOk(s: Snapshot, rule: Rule) {
    match rule.config
    case Milestones(goalId, milestones) => goalId in s.goals && (milestones == [] || MilestonesReadable(s.goals[goalId]))
    case Deadline(goalId, _) => goalId in s.goals
    case _ => true
  }

  /** The budgets before the first whose status cannot be computed. */
  ghost function BudgetsReached(db: Spending.Database, userId: string, today: string, budgets: seq<BudgetRow>): (n: nat)
    ensures n <= |budgets|
  {
    if budgets == [] || !BudgetOk(db, userId, today, budgets[0]) then 0
    else 1 + BudgetsReached(db, userId, today, budgets[1..])
  }

  /** The rules before the first that fails. */
  function RulesReached(s: Snapshot, rules: seq<Rule>): (n: nat)
    ensures n <= |rules| && (forall j :: 0 <= j < n ==> RuleOk(s, rules[j]))
    ensures n < |rules| ==> !RuleOk(s, rules[n])
  {
    if rules == [] || !RuleOk(s, rules[0]) then 0 else 1 + RulesReached(s, rules[1..])
  }

  /** Nothing an evaluation reads makes it fail. */
  ghost predicate Succeeds(s: Snapshot, userId: string)
    requires StoredSnapshot(s)
  {
    (forall b <- s.budgets :: BudgetOk(s.db, userId, s.today, b)) && (forall r <- s.rules :: RuleOk(s, r))
  }

  /** The findings an evaluation inserts before it ends or fails. */
  ghost function Reached(s: Snapshot, userId: string): seq<Finding>
    requires StoredSnapshot(s)
  {
    var n := BudgetsReached(s.db, userId, s.today, s.budgets);
    BudgetFindings(s.db, userId, s.today, s.budgets[..n])
    + if n < |s.budgets| then [] else
        MismatchFindings(s.mismatches) + RuleFindings(s, userId, s.rules[..RulesReached(s, s.rules)])
  }

  // ---------- inserting ----------

  /** ON CONFLICT (user, dedupe key) DO NOTHING. */
  function Inserted(events: Events, userId: string, f: Finding): Events {
    if (userId, f.dedupeKey) in events then events else events[(userId, f.dedupeKey) := f.event]
  }

  function InsertedAll(events: Events, userId: string, findings: seq<Finding>): Events {
    if findings == [] then events
    else Inserted(InsertedAll(events, userId, findings[..|findings| - 1]), userId, findings[|findings| - 1])
  }

  lemma {:induction false} InsertedAllConcat(events: Events, userId: string, a: seq<Finding>, b: seq<Finding>)
    ensures InsertedAll(events, userId, a + b) == InsertedAll(InsertedAll(events, userId, a), userId, b)
  {
    if b == [] {
      assert a + b == a;
    } else {
      var s := a + b;
      assert s[..|s| - 1] == a + b[..|b| - 1] && s[|s| - 1] == b[|b| - 1];
      InsertedAllConcat(events, userId, a, b[..|b| - 1]);
    }
  }

  predicate Has(findings: seq<Finding>, dedupeKey: string) { exists f <- findings :: f.dedupeKey == dedupeKey }

  /** What is stored afterwards: what was there, untouched, and one event per new key. */
  lemma {:induction false} InsertedAllKeys(events: Events, userId: string, findings: seq<Finding>)
    ensures var after := InsertedAll(events, userId, findings);
      && (forall k :: k in events ==> k in after && after[k] == events[k])
      && (forall k :: k in after <==> k in events || (k.0 == userId && Has(findings, k.1)))
      && (forall k :: k in after && k !in events ==> exists f :: f in findings && f.dedupeKey == k.1 && f.event == after[k])
  {
    if findings != [] {
      var before, last := findings[..|findings| - 1], findings[|findings| - 1];
      InsertedAllKeys(events, userId, before);
      assert findings == before + [last];
      var middle := InsertedAll(events, userId, before);
      var after := InsertedAll(events, userId, findings);
      forall k ensures k in after <==> k in events || (k.0 == userId && Has(findings, k.1)) {
        assert Has(findings, k.1) <==> Has(before, k.1) || last.dedupeKey == k.1 by {
          HasSnoc(before, last, k.1);
        }
      }
      forall k | k in after && k !in events
        ensures exists f :: f in findings && f.dedupeKey == k.1 && f.event == after[k]
      {
        if k in middle {
          var f :| f in before && f.dedupeKey == k.1 && f.event == middle[k];
          assert f in findings;
        } else {
          assert last in findings;
        }
      }
    }
  }

  lemma HasSnoc(before: seq<Finding>, last: Finding, key: string)
    ensures Has(before + [last], key) <==> Has(before, key) || last.dedupeKey == key
  {
    var all := before + [last];
    assert all[|before|] == last;
    if Has(before, key) {
      var f :| f in before && f.dedupeKey == key;
      assert f in all;
    }
  }

  /** Evaluating again on the same data adds nothing. */
  lemma EvaluationIsIdempotent(events: Events, userId: string, findings: seq<Finding>)
    ensures InsertedAll(InsertedAll(events, userId, findings), userId, findings) == InsertedAll(events, userId, findings)
  {
    var once := InsertedAll(events, userId, findings);
    InsertedAllKeys(events, userId, findings);
    InsertedAllKeys(once, userId, findings);
    assert InsertedAll(once, userId, findings).Keys == once.Keys;
  }

  class AlertTable {
    var events: Events

    constructor ()
      ensures events == map[]
    {
      events := map[];
    }

    /** Inserts unless the key is taken; returns the number of rows inserted. */
    method InsertEvent(userId: string, f: Finding) returns (created: nat)
      modifies this
      ensures events == Inserted(old(events), userId, f)
      ensures created == |events| - |old(events)|
    {
      created := 0;
      if (userId, f.dedupeKey) !in events {
        events := events[(userId, f.dedupeKey) := f.event];
        created := 1;
      }
    }

    /** Inserts the zero or one findings a row gives rise to. */
    method InsertFindings(userId: string, findings: seq<Finding>) returns (created: nat)
      requires |findings| <= 1
      modifies this
      ensures events == InsertedAll(old(events), userId, findings)
      ensures created == |events| - |old(events)|
    {
      created := 0;
      if findings != [] {
        assert findings[..0] == [];
        created := InsertEvent(userId, findings[0]);
      }
    }

    method EvaluateBudget(db: Spending.Database, userId: string, today: string, row: BudgetRow)
      returns (result: Result<nat, AlertError>)
      requires BudgetToday(today) && StoredBudget(row.budget)
      modifies this
      ensures result.Ok? <==> BudgetOk(db, userId, today, row)
      ensures result.Ok? ==> events == InsertedAll(old(events), userId, BudgetRowFinding(db, userId, today, row))
      ensures result.Ok? ==> result.value == |events| - |old(events)|
      ensures result.Err? ==> events == old(events)
    {
      hide StatusOn, BudgetToday, StoredBudget, InsertedAll, HasPeriod, Computable;
      var status := GetBudgetStatus(db, userId, row.budget, today);
      if status.Err? { return Err(EvaluationFailed); }
      var threshold := row.budget.warningThreshold.GetOr(80);
      var created := InsertFindings(userId, BudgetFinding(row.id, threshold, status.value.periodKey, status.value.status));
      result := Ok(created);
    }

    /** Succeeds exactly if every status can be computed; otherwise the budgets before the failing one are done. */
    method EvaluateBudgets(db: Spending.Database, userId: string, today: string, budgets: seq<BudgetRow>)
      returns (result: Result<nat, AlertError>)
      requires BudgetToday(today) && forall b :: b in budgets ==> StoredBudget(b.budget)
      modifies this
      ensures result.Ok? <==> forall b <- budgets :: BudgetOk(db, userId, today, b)
      ensures events == InsertedAll(old(events), userId,
        BudgetFindings(db, userId, today, budgets[..BudgetsReached(db, userId, today, budgets)]))
      ensures result.Ok? ==> events == InsertedAll(old(events), userId, BudgetFindings(db, userId, today, budgets))
      ensures result.Ok? ==> result.value == |events| - |old(events)|
    {
      hide BudgetToday, StoredBudget, InsertedAll, BudgetOk, BudgetRowFinding;
      BudgetsReachedAre(db, userId, today, budgets);
      var eventsCreated := 0;
      var i := 0;
      NothingInserted(events, userId);
      while i < |budgets|
        invariant 0 <= i <= |budgets|
        invariant forall j :: 0 <= j < i ==> BudgetOk(db, userId, today, budgets[j])
        invariant events == InsertedAll(old(events), userId, BudgetFindings(db, userId, today, budgets[..i]))
        invariant eventsCreated == |events| - |old(events)|
      {
        ghost var done := BudgetFindings(db, userId, today, budgets[..i]);
        assert budgets[..i + 1][..i] == budgets[..i];
        InsertedAllConcat(old(events), userId, done, BudgetRowFinding(db, userId, today, budgets[i]));
        var created := EvaluateBudget(db, userId, today, budgets[i]);
        if created.Err? {
          assert budgets[i] in budgets;
          return Err(EvaluationFailed);
        }
        eventsCreated := eventsCreated + created.value;
        i := i + 1;
      }
      assert budgets[..i] == budgets;
      result := Ok(eventsCreated);
    }

    method EvaluateMismatches(userId: string, ids: seq<string>) returns (eventsCreated: nat)
      modifies this
      ensures events == InsertedAll(old(events), userId, MismatchFindings(ids))
      ensures eventsCreated == |events| - |old(events)|
    {
      eventsCreated := 0;
      var i := 0;
      while i < |ids|
        invariant 0 <= i <= |ids|
        invariant events == InsertedAll(old(events), userId, MismatchFindings(ids[..i]))
        invariant eventsCreated == |events| - |old(events)|
      {
        assert ids[..i + 1][..i] == ids[..i];
        var f := Finding(ReconciliationKey(ids[i]), AlertEvent(ReconciliationMismatch, "statement", ids[i], None));
        var done := MismatchFindings(ids[..i]);
        assert (done + [f])[..|done|] == done;
        var created := InsertEvent(userId, f);
        eventsCreated := eventsCreated + created;
        i := i + 1;
      }
      assert ids[..i] == ids;
    }

    method EvaluateMilestones(userId: string, ruleId: string, goalId: string, goal: GoalProgress, milestones: seq<int>)
      returns (result: Result<nat, AlertError>)
      modifies this
      ensures result.Ok? <==> milestones == [] || MilestonesReadable(goal)
      ensures result.Ok? ==> events == InsertedAll(old(events), userId, MilestoneFindings(ruleId, goalId, goal, milestones))
      ensures result.Ok? ==> result.value == |events| - |old(events)|
      ensures result.Err? ==> events == old(events)
    {
      hide PercentReached, InsertedAll, MilestonesReadable;
      var eventsCreated := 0;
      NothingInserted(events, userId);
      if goal.currentAmount.Some? {
        var i := 0;
        while i < |milestones|
          invariant 0 <= i <= |milestones| && (i > 0 ==> MilestonesReadable(goal))
          invariant events == InsertedAll(old(events), userId, MilestoneFindings(ruleId, goalId, goal, milestones[..i]))
          invariant eventsCreated == |events| - |old(events)|
        {
          ghost var done := MilestoneFindings(ruleId, goalId, goal, milestones[..i]);
          assert milestones[..i + 1][..i] == milestones[..i];
          ReadableAlike(goal, milestones[i]);
          var reached := PercentReached(goal.currentAmount.value, goal.targetAmount, milestones[i]);
          if reached.None? {
            assert milestones[..0] == [];
            return Err(EvaluationFailed);
          }
          var found := if reached.value
            then [Finding(MilestoneKey(goalId, milestones[i]), AlertEvent(GoalMilestone, "goal", goalId, Some(ruleId)))] else [];
          InsertedAllConcat(old(events), userId, done, found);
          var created := InsertFindings(userId, found);
          eventsCreated := eventsCreated + created;
          i := i + 1;
        }
        assert milestones[..i] == milestones;
      } else {
        NoAmountIsReadable(goal);
      }
      result := Ok(eventsCreated);
    }

    /** One alert rule; a goal that is missing or whose amounts do not parse raises an error. */
    method EvaluateRule(s: Snapshot, userId: string, rule: Rule) returns (result: Result<nat, AlertError>)
      modifies this
      ensures result.Ok? <==> RuleOk(s, rule)
      ensures result.Ok? ==> events == InsertedAll(old(events), userId, RuleFinding(s, userId, rule))
      ensures result.Ok? ==> result.value == |events| - |old(events)|
      ensures result.Err? ==> events == old(events)
    {
      hide TotalCount, MilestoneFindings, Spending.UncategorizedGroups, MilestonesReadable;
      match rule.config {
        case Uncategorized(_) =>
          var created := InsertFindings(userId, RuleFinding(s, userId, rule));
          result := Ok(created);
        case Milestones(goalId, milestones) =>
          if goalId !in s.goals { return Err(EvaluationFailed); }
          result := EvaluateMilestones(userId, rule.id, goalId, s.goals[goalId], milestones);
        case Deadline(goalId, _) =>
          if goalId !in s.goals { return Err(EvaluationFailed); }
          var created := InsertFindings(userId, RuleFinding(s, userId, rule));
          result := Ok(created);
        case OtherConfig => result := Ok(0);
      }
    }

    method EvaluateRules(s: Snapshot, userId: string) returns (result: Result<nat, AlertError>)
      modifies this
      ensures result.Ok? <==> forall r <- s.rules :: RuleOk(s, r)
      ensures events == InsertedAll(old(events), userId, RuleFindings(s, userId, s.rules[..RulesReached(s, s.rules)]))
      ensures result.Ok? ==> events == InsertedAll(old(events), userId, RuleFindings(s, userId, s.rules))
      ensures result.Ok? ==> result.value == |events| - |old(events)|
    {
      hide RuleFinding, InsertedAll, RuleOk;
      var eventsCreated := 0;
      var i := 0;
      NothingInserted(events, userId);
      while i < |s.rules|
        invariant 0 <= i <= |s.rules|
        invariant forall j :: 0 <= j < i ==> RuleOk(s, s.rules[j])
        invariant events == InsertedAll(old(events), userId, RuleFindings(s, userId, s.rules[..i]))
        invariant eventsCreated == |events| - |old(events)|
      {
        ghost var done := RuleFindings(s, userId, s.rules[..i]);
        assert s.rules[..i + 1][..i] == s.rules[..i];
        ghost var found := RuleFinding(s, userId, s.rules[i]);
        InsertedAllConcat(old(events), userId, done, found);
        var created := EvaluateRule(s, userId, s.rules[i]);
        if created.Err? {
          assert s.rules[i] in s.rules;
          return Err(EvaluationFailed);
        }
        eventsCreated := eventsCreated + created.value;
        i := i + 1;
      }
      assert s.rules[..i] == s.rules;
      result := Ok(eventsCreated);
    }

    /**
     * Evaluates a user's alerts: budgets, then mismatched statements, then rules. It succeeds exactly
     * if nothing it reads is unreadable; an error leaves the events of what came before it.
     */
    method EvaluateUserAlerts(s: Snapshot, userId: string) returns (result: Result<nat, AlertError>)
      requires StoredSnapshot(s)
      modifies this
      ensures result.Ok? <==> Succeeds(s, userId)
      ensures events == InsertedAll(old(events), userId, Reached(s, userId))
      ensures result.Ok? ==> events == InsertedAll(old(events), userId, Findings(s, userId))
      ensures result.Ok? ==> result.value == |events| - |old(events)|
    {
      hide BudgetFindings, MismatchFindings, RuleFindings, InsertedAll, BudgetToday, StoredBudget, BudgetOk, RuleOk;
      BudgetsReachedAre(s.db, userId, s.today, s.budgets);
      ghost var before := old(events);
      ghost var n, m := BudgetsReached(s.db, userId, s.today, s.budgets), RulesReached(s, s.rules);
      ghost var a := BudgetFindings(s.db, userId, s.today, s.budgets[..n]);
      ghost var b := MismatchFindings(s.mismatches);
      ghost var c := RuleFindings(s, userId, s.rules[..m]);
      InsertedAllConcat(before, userId, a, b);
      InsertedAllConcat(before, userId, a + b, c);
      var budgets := EvaluateBudgets(s.db, userId, s.today, s.budgets);
      if budgets.Err? {
        assert n < |s.budgets| && a + [] == a;
        return Err(EvaluationFailed);
      }
      AllBudgetsReached(s.db, userId, s.today, s.budgets);
      assert s.budgets[..n] == s.budgets;
      var statements := EvaluateMismatches(userId, s.mismatches);
      var rules := EvaluateRules(s, userId);
      assert a + b + c == a + (b + c);
      if rules.Err? { return Err(EvaluationFailed); }
      AllRulesReached(s, s.rules);
      assert s.rules[..m] == s.rules;
      result := Ok(budgets.value + statements + rules.value);
    }
  }

  lemma {:induction false} BudgetsReachedAre(db: Spending.Database, userId: string, today: string, budgets: seq<BudgetRow>)
    ensures var n := BudgetsReached(db, userId, today, budgets);
      && (forall j :: 0 <= j < n ==> BudgetOk(db, userId, today, budgets[j]))
      && (n < |budgets| ==> !BudgetOk(db, userId, today, budgets[n]))
  {
    hide BudgetOk;
    if budgets != [] { BudgetsReachedAre(db, userId, today, budgets[1..]); }
  }

  lemma {:induction false} AllBudgetsReached(db: Spending.Database, userId: string, today: string, budgets: seq<BudgetRow>)
    requires forall b <- budgets :: BudgetOk(db, userId, today, b)
    ensures BudgetsReached(db, userId, today, budgets) == |budgets|
  {
    hide BudgetOk;
    if budgets != [] { AllBudgetsReached(db, userId, today, budgets[1..]); }
  }

  lemma {:induction false} AllRulesReached(s: Snapshot, rules: seq<Rule>)
    requires forall r <- rules :: RuleOk(s, r)
    ensures RulesReached(s, rules) == |rules|
  {
    hide RuleOk;
    if rules != [] { AllRulesReached(s, rules[1..]); }
  }

  /** Whether a milestone can be compared does not depend on the milestone. */
  lemma ReadableAlike(goal: GoalProgress, m: int)
    requires goal.currentAmount.Some?
    ensures PercentReached(goal.currentAmount.value, goal.targetAmount, m).Some? <==> MilestonesReadable(goal)
  {
    hide DecimalToScaled, Reaches;
  }

  lemma NoAmountIsReadable(goal: GoalProgress)
    requires goal.currentAmount.None?
    ensures MilestonesReadable(goal)
  {
  }

  /** What an evaluation reaches is a beginning of its findings, and all of them if it succeeds. */
  lemma ReachedIsPrefix(s: Snapshot, userId: string)
    requires StoredSnapshot(s)
    ensures Reached(s, userId) <= Findings(s, userId)
    ensures Succeeds(s, userId) ==> Reached(s, userId) == Findings(s, userId)
  {
    hide BudgetFindings, MismatchFindings, RuleFindings, BudgetToday, StoredBudget, BudgetOk, RuleOk;
    var n, m := BudgetsReached(s.db, userId, s.today, s.budgets), RulesReached(s, s.rules);
    BudgetsReachedAre(s.db, userId, s.today, s.budgets);
    BudgetFindingsGrow(s.db, userId, s.today, s.budgets, n);
    RuleFindingsGrow(s, userId, s.rules, m);
    if n == |s.budgets| { assert s.budgets[..n] == s.budgets; } else { assert s.budgets[n] in s.budgets; }
    if m == |s.rules| { assert s.rules[..m] == s.rules; } else { assert s.rules[m] in s.rules; }
  }

  lemma NothingInserted(events: Events, userId: string)
    ensures InsertedAll(events, userId, []) == events
  {
  }

  lemma {:induction false} BudgetFindingsGrow(db: Spending.Database, userId: string, today: string, budgets: seq<BudgetRow>, i: nat)
    requires i <= |budgets| && BudgetToday(today) && forall b :: b in budgets ==> StoredBudget(b.budget)
    ensures BudgetFindings(db, userId, today, budgets[..i]) <= BudgetFindings(db, userId, today, budgets)
    decreases |budgets|
  {
    hide BudgetRowFinding, BudgetToday, StoredBudget;
    if i < |budgets| {
      var n := |budgets| - 1;
      BudgetFindingsGrow(db, userId, today, budgets[..n], i);
      assert budgets[..n][..i] == budgets[..i];
    } else {
      assert budgets[..i] == budgets;
    }
  }

  lemma {:induction false} RuleFindingsGrow(s: Snapshot, userId: string, rules: seq<Rule>, i: nat)
    requires i <= |rules|
    ensures RuleFindings(s, userId, rules[..i]) <= RuleFindings(s, userId, rules)
    decreases |rules|
  {
    hide RuleFinding;
    if i < |rules| {
      var n := |rules| - 1;
      RuleFindingsGrow(s, userId, rules[..n], i);
      assert rules[..n][..i] == rules[..i];
    } else {
      assert rules[..i] == rules;
    }
  }

  // ---------- keys tell findings apart ----------

  predicate ColonFree(s: string) { forall i :: 0 <= i < |s| ==> s[i] != ':' }

  lemma SplitAtColon(a: string, x: string, b: string, y: string)
    requires ColonFree(a) && ColonFree(b) && a + (":" + x) == b + (":" + y)
    ensures a == b && x == y
  {
    var s, t := a + (":" + x), b + (":" + y);
    assert s[|a|] == ':' && t[|b|] == ':';
    assert forall i :: 0 <= i < |a| ==> s[i] == a[i];
    assert forall i :: 0 <= i < |b| ==> t[i] == b[i];
    assert |a| == |b|;
    assert s[..|a|] == a && t[..|b|] == b;
    assert s[|a| + 1..] == x && t[|b| + 1..] == y;
  }

  /** For ids without colons the exceeded key gives back the budget and the period. */
  lemma ExceededKeyInjective(id: string, p: string, id': string, p': string)
    requires ColonFree(id) && ColonFree(id') && BudgetExceededKey(id, p) == BudgetExceededKey(id', p')
    ensures id == id' && p == p'
  {
    var x, y := p + ":exceeded", p' + ":exceeded";
    assert BudgetExceededKey(id, p)[7..] == id + (":" + x);
    assert BudgetExceededKey(id', p')[7..] == id' + (":" + y);
    SplitAtColon(id, x, id', y);
    assert x[..|x| - 9] == p && y[..|y| - 9] == p';
  }

  lemma ApproachingIsNotExceeded(id: string, p: string, t: int, id': string, p': string)
    ensures BudgetApproachingKey(id, p, t) != BudgetExceededKey(id', p')
  {
    var a, e, digits := BudgetApproachingKey(id, p, t), BudgetExceededKey(id', p'), IntText(t);
    assert IsDigit(digits[|digits| - 1]);
    assert a[|a| - 1] == digits[|digits| - 1];
    assert e[|e| - 1] == 'd';
  }

  predicate Starts(f: Finding, c: char) { f.dedupeKey != "" && f.dedupeKey[0] == c }

  lemma {:induction false} MismatchKeys(ids: seq<string>)
    ensures forall f :: f in MismatchFindings(ids) ==> Starts(f, 'r')
  {
    if ids != [] { MismatchKeys(ids[..|ids| - 1]); }
  }

  lemma {:induction false} MilestoneKeys(ruleId: string, goalId: string, goal: GoalProgress, milestones: seq<int>)
    ensures forall f :: f in MilestoneFindings(ruleId, goalId, goal, milestones) ==> Starts(f, 'g')
  {
    hide PercentReached;
    if milestones != [] { MilestoneKeys(ruleId, goalId, goal, milestones[..|milestones| - 1]); }
  }

  lemma {:induction false} RuleKeys(s: Snapshot, userId: string, rules: seq<Rule>)
    ensures forall f :: f in RuleFindings(s, userId, rules) ==> Starts(f, 'u') || Starts(f, 'g')
  {
    hide TotalCount, Spending.UncategorizedGroups, MilestoneFindings;
    if rules != [] {
      RuleKeys(s, userId, rules[..|rules| - 1]);
      match rules[|rules| - 1].config {
        case Milestones(goalId, milestones) =>
          if goalId in s.goals { MilestoneKeys(rules[|rules| - 1].id, goalId, s.goals[goalId], milestones); }
        case _ =>
      }
    }
  }

  lemma {:induction false} BudgetFindingsMeaning(
    db: Spending.Database, userId: string, today: string, budgets: seq<BudgetRow>, f: Finding)
    requires BudgetToday(today) && forall b :: b in budgets ==> StoredBudget(b.budget)
    ensures f in BudgetFindings(db, userId, today, budgets)
       <==> exists row :: row in budgets && f in BudgetRowFinding(db, userId, today, row)
  {
    hide BudgetRowFinding, BudgetToday, StoredBudget;
    if budgets != [] {
      var n := |budgets| - 1;
      BudgetFindingsMeaning(db, userId, today, budgets[..n], f);
      if f in BudgetFindings(db, userId, today, budgets[..n]) {
        var row :| row in budgets[..n] && f in BudgetRowFinding(db, userId, today, row);
        assert row in budgets;
      }
      assert budgets[n] in budgets;
    }
  }

  /** The budget with this id is exceeded in this snapshot, in the period with this key. */
  ghost predicate FoundExceeded(s: Snapshot, userId: string, id: string, periodKey: string)
    requires StoredSnapshot(s)
  {
    exists row :: row in s.budgets && row.id == id && HasPeriod(row.budget)
      && StatusOn(s.db, userId, row.budget, ParseDate(s.today)).status == Exceeded
      && StatusOn(s.db, userId, row.budget, ParseDate(s.today)).periodKey == periodKey
  }

  function ExceededFinding(id: string, periodKey: string): Finding {
    Finding(BudgetExceededKey(id, periodKey), AlertEvent(BudgetExceeded, "budget", id, None))
  }

  ghost predicate ColonFreeIds(s: Snapshot) { forall b :: b in s.budgets ==> ColonFree(b.id) }

  /** A finding has the exceeded key of a budget and period exactly when that budget is exceeded in it. */
  lemma ExceededFindings(s: Snapshot, userId: string, id: string, periodKey: string, f: Finding)
    requires StoredSnapshot(s) && ColonFreeIds(s) && ColonFree(id)
    ensures f in Findings(s, userId) && f.dedupeKey == BudgetExceededKey(id, periodKey)
       <==> FoundExceeded(s, userId, id, periodKey) && f == ExceededFinding(id, periodKey)
  {
    hide StatusOn, BudgetToday, StoredBudget, BudgetFindings, MismatchFindings, RuleFindings, IsDateText, HasPeriod;
    MismatchKeys(s.mismatches);
    RuleKeys(s, userId, s.rules);
    BudgetFindingsMeaning(s.db, userId, s.today, s.budgets, f);
    assert f in Findings(s, userId) <==>
      f in BudgetFindings(s.db, userId, s.today, s.budgets) || f in MismatchFindings(s.mismatches)
      || f in RuleFindings(s, userId, s.rules);
    if f.dedupeKey == BudgetExceededKey(id, periodKey) {
      assert Starts(f, 'b');
      forall row | row in s.budgets && f in BudgetRowFinding(s.db, userId, s.today, row)
        ensures FoundExceeded(s, userId, id, periodKey) && f == ExceededFinding(id, periodKey)
      {
        RowOfExceededKey(s, userId, row, id, periodKey, f);
      }
    }
    if FoundExceeded(s, userId, id, periodKey) && f == ExceededFinding(id, periodKey) {
      ExceededRowFinds(s, userId, id, periodKey);
    }
  }

  lemma RowOfExceededKey(s: Snapshot, userId: string, row: BudgetRow, id: string, periodKey: string, f: Finding)
    requires StoredSnapshot(s) && ColonFreeIds(s) && ColonFree(id) && row in s.budgets
    requires f in BudgetRowFinding(s.db, userId, s.today, row) && f.dedupeKey == BudgetExceededKey(id, periodKey)
    ensures FoundExceeded(s, userId, id, periodKey) && f == ExceededFinding(id, periodKey)
  {
    hide StatusOn, StoredBudget, IsDateText, BudgetExceededKey, BudgetApproachingKey;
    var status := StatusOn(s.db, userId, row.budget, ParseDate(s.today));
    if status.status == Approaching {
      ApproachingIsNotExceeded(row.id, status.periodKey, row.budget.warningThreshold.GetOr(80), id, periodKey);
    } else {
      ExceededKeyInjective(row.id, status.periodKey, id, periodKey);
    }
  }

  lemma ExceededRowFinds(s: Snapshot, userId: string, id: string, periodKey: string)
    requires StoredSnapshot(s) && FoundExceeded(s, userId, id, periodKey)
    ensures exists row :: row in s.budgets && ExceededFinding(id, periodKey) in BudgetRowFinding(s.db, userId, s.today, row)
  {
    hide StatusOn, StoredBudget, IsDateText, BudgetExceededKey, BudgetApproachingKey, HasPeriod;
    var row :| row in s.budgets && row.id == id && HasPeriod(row.budget)
      && StatusOn(s.db, userId, row.budget, ParseDate(s.today)).status == Exceeded
      && StatusOn(s.db, userId, row.budget, ParseDate(s.today)).periodKey == periodKey;
    assert ExceededFinding(id, periodKey) in BudgetRowFinding(s.db, userId, s.today, row);
  }

  // ---------- over any run of evaluations ----------

  /** An evaluation that inserted the first `reached` of its findings, and then ended, failed or was cut short. */
  datatype Evaluation = Evaluation(snapshot: Snapshot, reached: nat)

  ghost predicate StoredEvaluation(e: Evaluation, userId: string) {
    StoredSnapshot(e.snapshot) && e.reached <= |Findings(e.snapshot, userId)|
  }

  /** What it inserted. */
  function Delivered(e: Evaluation, userId: string): seq<Finding>
    requires StoredEvaluation(e, userId)
  {
    Findings(e.snapshot, userId)[..e.reached]
  }

  /** The events after a run of evaluations, starting from an empty table. */
  function EventsAfter(userId: string, run: seq<Evaluation>): Events
    requires forall e :: e in run ==> StoredEvaluation(e, userId)
  {
    if run == [] then map[]
    else InsertedAll(EventsAfter(userId, run[..|run| - 1]), userId, Delivered(run[|run| - 1], userId))
  }

  /** The evaluation found the budget exceeded in the period and got as far as inserting that. */
  ghost predicate DeliveredExceeded(e: Evaluation, userId: string, id: string, periodKey: string)
    requires StoredEvaluation(e, userId)
  {
    FoundExceeded(e.snapshot, userId, id, periodKey) && ExceededFinding(id, periodKey) in Delivered(e, userId)
  }

  ghost predicate EverExceeded(run: seq<Evaluation>, userId: string, id: string, periodKey: string)
    requires forall e :: e in run ==> StoredEvaluation(e, userId)
  {
    exists e :: e in run && DeliveredExceeded(e, userId, id, periodKey)
  }

  /** An evaluation that reached all its findings delivers what it found. */
  lemma CompleteEvaluationDelivers(e: Evaluation, userId: string, id: string, periodKey: string)
    requires StoredEvaluation(e, userId) && ColonFreeIds(e.snapshot) && ColonFree(id)
    requires e.reached == |Findings(e.snapshot, userId)|
    ensures DeliveredExceeded(e, userId, id, periodKey) <==> FoundExceeded(e.snapshot, userId, id, periodKey)
  {
    hide FoundExceeded, Findings, StoredSnapshot, ColonFreeIds;
    assert Delivered(e, userId) == Findings(e.snapshot, userId);
    ExceededFindings(e.snapshot, userId, id, periodKey, ExceededFinding(id, periodKey));
  }

  /** A run of `EvaluateUserAlerts` delivers exactly what it reaches. */
  lemma EvaluationReaches(s: Snapshot, userId: string)
    requires StoredSnapshot(s)
    ensures var e := Evaluation(s, |Reached(s, userId)|);
      StoredEvaluation(e, userId) && Delivered(e, userId) == Reached(s, userId)
    ensures Succeeds(s, userId) ==> |Reached(s, userId)| == |Findings(s, userId)|
  {
    hide Findings, Reached, StoredSnapshot, Succeeds;
    ReachedIsPrefix(s, userId);
  }

  /**
   * Over any run, evaluations cut short included, a budget has the exceeded event of a period
   * exactly when some evaluation found it exceeded in that period and got as far as that finding,
   * and that event is the budget's own.
   */
  lemma {:induction false} OneEventPerExceededPeriod(userId: string, run: seq<Evaluation>, id: string, periodKey: string)
    requires forall e :: e in run ==> StoredEvaluation(e, userId) && ColonFreeIds(e.snapshot)
    requires ColonFree(id)
    ensures var events, k := EventsAfter(userId, run), (userId, BudgetExceededKey(id, periodKey));
      && (k in events <==> EverExceeded(run, userId, id, periodKey))
      && (k in events ==> events[k] == ExceededFinding(id, periodKey).event)
  {
    hide FoundExceeded, Findings, StoredEvaluation, ColonFreeIds, InsertedAll, BudgetExceededKey, Delivered;
    if run != [] {
      var before, e := run[..|run| - 1], run[|run| - 1];
      assert run == before + [e];
      OneEventPerExceededPeriod(userId, before, id, periodKey);
      var k := (userId, BudgetExceededKey(id, periodKey));
      InsertedAllKeys(EventsAfter(userId, before), userId, Delivered(e, userId));
      forall f | f in Delivered(e, userId) && f.dedupeKey == k.1
        ensures f == ExceededFinding(id, periodKey) && DeliveredExceeded(e, userId, id, periodKey)
      {
        DeliveredKeyIsExceeded(e, userId, id, periodKey, f);
      }
    }
  }

  lemma DeliveredKeyIsExceeded(e: Evaluation, userId: string, id: string, periodKey: string, f: Finding)
    requires StoredEvaluation(e, userId) && ColonFreeIds(e.snapshot) && ColonFree(id)
    requires f in Delivered(e, userId) && f.dedupeKey == BudgetExceededKey(id, periodKey)
    ensures f == ExceededFinding(id, periodKey) && DeliveredExceeded(e, userId, id, periodKey)
  {
    hide FoundExceeded, Findings, StoredSnapshot, ColonFreeIds, BudgetExceededKey;
    assert f in Findings(e.snapshot, userId);
    ExceededFindings(e.snapshot, userId, id, periodKey, f);
  }

  /** Every exceeded event of a budget is the event of one period in which it was found exceeded. */
  lemma {:induction false} ExceededEventsComeFromPeriods(userId: string, run: seq<Evaluation>, k: (string, string), id: string)
    requires forall e :: e in run ==> StoredEvaluation(e, userId)
    requires k in EventsAfter(userId, run)
    requires EventsAfter(userId, run)[k].eventType == BudgetExceeded && EventsAfter(userId, run)[k].entityId == id
    ensures k.0 == userId
    ensures exists periodKey :: k.1 == BudgetExceededKey(id, periodKey) && EverExceeded(run, userId, id, periodKey)
  {
    hide FoundExceeded, Findings, StoredEvaluation, InsertedAll, BudgetExceededKey, Delivered;
    var before, e := run[..|run| - 1], run[|run| - 1];
    assert run == before + [e];
    InsertedAllKeys(EventsAfter(userId, before), userId, Delivered(e, userId));
    if k in EventsAfter(userId, before) {
      ExceededEventsComeFromPeriods(userId, before, k, id);
      var periodKey :| k.1 == BudgetExceededKey(id, periodKey) && EverExceeded(before, userId, id, periodKey);
      assert EverExceeded(run, userId, id, periodKey);
    } else {
      var f :| f in Delivered(e, userId) && f.dedupeKey == k.1 && f.event == EventsAfter(userId, run)[k];
      var periodKey := PeriodOfDelivered(e, userId, f);
      assert EverExceeded(run, userId, id, periodKey);
    }
  }

  lemma PeriodOfDelivered(e: Evaluation, userId: string, f: Finding) returns (periodKey: string)
    requires StoredEvaluation(e, userId) && f in Delivered(e, userId) && f.event.eventType == BudgetExceeded
    ensures f.dedupeKey == BudgetExceededKey(f.event.entityId, periodKey)
    ensures DeliveredExceeded(e, userId, f.event.entityId, periodKey)
  {
    hide FoundExceeded, Findings, StoredSnapshot, BudgetExceededKey;
    assert f in Findings(e.snapshot, userId);
    periodKey := PeriodOfExceededFinding(e.snapshot, userId, f);
  }

  lemma {:induction false} MismatchTypes(ids: seq<string>)
    ensures forall f :: f in MismatchFindings(ids) ==> f.event.eventType != BudgetExceeded
  {
    if ids != [] { MismatchTypes(ids[..|ids| - 1]); }
  }

  lemma {:induction false} MilestoneTypes(ruleId: string, goalId: string, goal: GoalProgress, milestones: seq<int>)
    ensures forall f :: f in MilestoneFindings(ruleId, goalId, goal, milestones) ==> f.event.eventType != BudgetExceeded
  {
    hide PercentReached;
    if milestones != [] { MilestoneTypes(ruleId, goalId, goal, milestones[..|milestones| - 1]); }
  }

  lemma {:induction false} RuleTypes(s: Snapshot, userId: string, rules: seq<Rule>)
    ensures forall f :: f in RuleFindings(s, userId, rules) ==> f.event.eventType != BudgetExceeded
  {
    hide TotalCount, Spending.UncategorizedGroups, MilestoneFindings;
    if rules != [] {
      RuleTypes(s, userId, rules[..|rules| - 1]);
      match rules[|rules| - 1].config {
        case Milestones(goalId, milestones) =>
          if goalId in s.goals { MilestoneTypes(rules[|rules| - 1].id, goalId, s.goals[goalId], milestones); }
        case _ =>
      }
    }
  }

  lemma PeriodOfExceededFinding(s: Snapshot, userId: string, f: Finding) returns (periodKey: string)
    requires StoredSnapshot(s) && f in Findings(s, userId) && f.event.eventType == BudgetExceeded
    ensures f.dedupeKey == BudgetExceededKey(f.event.entityId, periodKey)
    ensures FoundExceeded(s, userId, f.event.entityId, periodKey) && f == ExceededFinding(f.event.entityId, periodKey)
  {
    hide StatusOn, StoredBudget, BudgetFindings, MismatchFindings, RuleFindings, IsDateText, BudgetExceededKey;
    MismatchTypes(s.mismatches);
    RuleTypes(s, userId, s.rules);
    BudgetFindingsMeaning(s.db, userId, s.today, s.budgets, f);
    var row :| row in s.budgets && f in BudgetRowFinding(s.db, userId, s.today, row);
    periodKey := StatusOn(s.db, userId, row.budget, ParseDate(s.today)).periodKey;
  }
}
