/**
 * What alert evaluation finds and stores, stated on what it reads: every kind of event with its own
 * cause and its own key, over any run of complete and interrupted evaluations.
 */
module AlertCauses {
  import opened Wrappers
  import opened Text
  import opened Money
  import opened Percent
  import opened IsoDates
  import Charges
  import opened Budgets
  import opened Alerts

  // ---------- subjects ----------

  /** What an event is about; its key is made of nothing else. */
  datatype Subject =
    | ExceededOf(budgetId: string, periodKey: string)
    | ApproachingOf(budgetId: string, periodKey: string, threshold: int)
    | MismatchOf(statementId: string)
    | UncategorizedOf(threshold: int)
    | MilestoneOf(goalId: string, milestone: int)
    | DeadlineOf(goalId: string, daysBefore: int)

  function KeyOf(subject: Subject): string {
    match subject
    case ExceededOf(id, periodKey) => "budget:" + (id + (":" + (periodKey + ":exceeded")))
    case ApproachingOf(id, periodKey, threshold) =>
      "budget:" + (id + (":" + (periodKey + (":approaching:" + IntText(threshold)))))
    case MismatchOf(id) => "reconciliation:" + id
    case UncategorizedOf(threshold) => "uncategorized:threshold:" + IntText(threshold)
    case MilestoneOf(goalId, milestone) => "goal:" + (goalId + (":milestone:" + IntText(milestone)))
    case DeadlineOf(goalId, daysBefore) => "goal:" + (goalId + (":deadline:" + IntText(daysBefore)))
  }

  /** The event, with the rule that led to it if one did. */
  function EventOf(subject: Subject, ruleId: Option<string>): AlertEvent {
    match subject
    case ExceededOf(id, _) => AlertEvent(BudgetExceeded, "budget", id, ruleId)
    case ApproachingOf(id, _, _) => AlertEvent(BudgetApproaching, "budget", id, ruleId)
    case MismatchOf(id) => AlertEvent(ReconciliationMismatch, "statement", id, ruleId)
    case UncategorizedOf(_) => AlertEvent(UncategorizedTransactions, "transactions", "ledger", ruleId)
    case MilestoneOf(goalId, _) => AlertEvent(GoalMilestone, "goal", goalId, ruleId)
    case DeadlineOf(goalId, _) => AlertEvent(GoalDeadline, "goal", goalId, ruleId)
  }

  function FindingOf(subject: Subject, ruleId: Option<string>): Finding {
    Finding(KeyOf(subject), EventOf(subject, ruleId))
  }

  // ---------- causes ----------

  /** The budget has this status today, in the period with this key. */
  predicate Shows(s: Snapshot, userId: string, row: BudgetRow, status: Status, periodKey: string)
    requires StoredSnapshot(s) && row in s.budgets
  {
    HasPeriod(row.budget)
    && StatusOn(s.db, userId, row.budget, ParseDate(s.today)).status == status
    && StatusOn(s.db, userId, row.budget, ParseDate(s.today)).periodKey == periodKey
  }

  /** The goal's amount is at least this percentage of its target. */
  predicate HasReached(goal: GoalProgress, milestone: int) {
    goal.currentAmount.Some? &&
    var current, target := DecimalToScaled(goal.currentAmount.value), DecimalToScaled(goal.targetAmount);
    current.Some? && target.Some? && target.value > 0 && current.value * 100 >= milestone * target.value
  }

  predicate IsMet(s: Snapshot, userId: string, config: RuleConfig, subject: Subject) {
    match subject
    case UncategorizedOf(threshold) =>
      config == Uncategorized(threshold) && threshold < TotalCount(Spending.UncategorizedGroups(s.db, userId))
    case MilestoneOf(goalId, milestone) =>
      config.Milestones? && config.goalId == goalId && milestone in config.milestones
      && goalId in s.goals && HasReached(s.goals[goalId], milestone)
    case DeadlineOf(goalId, daysBefore) =>
      config == Deadline(goalId, daysBefore) && goalId in s.goals
      && s.goals[goalId].daysRemaining.Some? && s.goals[goalId].daysRemaining.value <= daysBefore
    case _ => false
  }

  /** What an evaluation reads calls for the event. */
  ghost predicate Arises(s: Snapshot, userId: string, subject: Subject, ruleId: Option<string>)
    requires StoredSnapshot(s)
  {
    match subject
    case ExceededOf(id, periodKey) =>
      ruleId == None && exists row <- s.budgets :: row.id == id && Shows(s, userId, row, Exceeded, periodKey)
    case ApproachingOf(id, periodKey, threshold) =>
      ruleId == None && exists row <- s.budgets ::
        row.id == id && Shows(s, userId, row, Approaching, periodKey) && WarnsAt(row.budget) == threshold
    case MismatchOf(id) => ruleId == None && id in s.mismatches
    case _ => exists rule <- s.rules :: ruleId == Some(rule.id) && IsMet(s, userId, rule.config, subject)
  }

  /** The budget's own warning threshold, or 80 percent. */
  function WarnsAt(b: Budget): int {
    if b.warningThreshold == None then 80 else b.warningThreshold.value
  }

  // ---------- what is found is what arises ----------

  lemma LiteralKeys(id: string, periodKey: string, n: int)
    ensures BudgetExceededKey(id, periodKey) == KeyOf(ExceededOf(id, periodKey))
    ensures BudgetApproachingKey(id, periodKey, n) == KeyOf(ApproachingOf(id, periodKey, n))
    ensures MilestoneKey(id, n) == KeyOf(MilestoneOf(id, n)) && DeadlineKey(id, n) == KeyOf(DeadlineOf(id, n))
    ensures ReconciliationKey(id) == KeyOf(MismatchOf(id)) && UncategorizedKey(n) == KeyOf(UncategorizedOf(n))
  {
    hide IntText;
  }

  /** A budget row gives rise to its own subject, if it has one. */
  ghost predicate RowArises(s: Snapshot, userId: string, row: BudgetRow, subject: Subject)
    requires StoredSnapshot(s) && row in s.budgets
  {
    match subject
    case ExceededOf(id, periodKey) => row.id == id && Shows(s, userId, row, Exceeded, periodKey)
    case ApproachingOf(id, periodKey, threshold) =>
      row.id == id && Shows(s, userId, row, Approaching, periodKey) && WarnsAt(row.budget) == threshold
    case _ => false
  }

  lemma RowFindings(s: Snapshot, userId: string, row: BudgetRow, f: Finding)
    requires StoredSnapshot(s) && row in s.budgets
    ensures f in BudgetRowFinding(s.db, userId, s.today, row)
       <==> exists subject :: RowArises(s, userId, row, subject) && f == FindingOf(subject, None)
  {
    hide StatusOn, IsDateText, HasPeriod, KeyOf, BudgetExceededKey, BudgetApproachingKey;
    if HasPeriod(row.budget) {
      var status := StatusOn(s.db, userId, row.budget, ParseDate(s.today));
      LiteralKeys(row.id, status.periodKey, WarnsAt(row.budget));
      var exceeded, approaching := ExceededOf(row.id, status.periodKey), ApproachingOf(row.id, status.periodKey, WarnsAt(row.budget));
      assert RowArises(s, userId, row, exceeded) <==> status.status == Exceeded;
      assert RowArises(s, userId, row, approaching) <==> status.status == Approaching;
      assert forall subject :: RowArises(s, userId, row, subject) ==> subject == exceeded || subject == approaching;
    }
  }

  lemma {:induction false} MismatchesFound(ids: seq<string>, f: Finding)
    ensures f in MismatchFindings(ids) <==> exists id <- ids :: f == FindingOf(MismatchOf(id), None)
  {
    if ids != [] {
      var n := |ids| - 1;
      MismatchesFound(ids[..n], f);
      LiteralKeys(ids[n], "", 0);
      assert ids == ids[..n] + [ids[n]];
      assert f in MismatchFindings(ids) <==> f in MismatchFindings(ids[..n]) || f == FindingOf(MismatchOf(ids[n]), None);
    }
  }

  lemma ReachedMeans(goal: GoalProgress, milestone: int)
    requires goal.currentAmount.Some?
    ensures PercentReached(goal.currentAmount.value, goal.targetAmount, milestone) == Some(true) <==> HasReached(goal, milestone)
  {
    hide DecimalToScaled;
  }

  lemma LastMilestoneFound(ruleId: string, goalId: string, goal: GoalProgress, milestones: seq<int>, f: Finding)
    requires milestones != [] && goal.currentAmount.Some?
    ensures var n := |milestones| - 1;
      f in MilestoneFindings(ruleId, goalId, goal, milestones)
      <==> f in MilestoneFindings(ruleId, goalId, goal, milestones[..n])
           || (HasReached(goal, milestones[n]) && f == FindingOf(MilestoneOf(goalId, milestones[n]), Some(ruleId)))
  {
    hide HasReached, PercentReached, KeyOf, MilestoneKey;
    var m := milestones[|milestones| - 1];
    LiteralKeys(goalId, "", m);
    ReachedMeans(goal, m);
  }

  ghost predicate ReachesOne(ruleId: string, goalId: string, goal: GoalProgress, milestones: seq<int>, f: Finding) {
    exists m <- milestones :: HasReached(goal, m) && f == FindingOf(MilestoneOf(goalId, m), Some(ruleId))
  }

  lemma ReachesOneMore(ruleId: string, goalId: string, goal: GoalProgress, milestones: seq<int>, m: int, f: Finding)
    ensures ReachesOne(ruleId, goalId, goal, milestones + [m], f)
       <==> ReachesOne(ruleId, goalId, goal, milestones, f)
            || (HasReached(goal, m) && f == FindingOf(MilestoneOf(goalId, m), Some(ruleId)))
  {
    hide HasReached, FindingOf;
    assert (milestones + [m])[|milestones|] == m;
    assert forall x :: x in milestones + [m] <==> x in milestones || x == m;
  }

  lemma {:induction false} MilestonesFound(ruleId: string, goalId: string, goal: GoalProgress, milestones: seq<int>, f: Finding)
    ensures f in MilestoneFindings(ruleId, goalId, goal, milestones) <==> ReachesOne(ruleId, goalId, goal, milestones, f)
  {
    if milestones != [] && goal.currentAmount.Some? {
      hide HasReached, FindingOf, MilestoneFindings, ReachesOne;
      var n := |milestones| - 1;
      MilestonesFound(ruleId, goalId, goal, milestones[..n], f);
      LastMilestoneFound(ruleId, goalId, goal, milestones, f);
      assert milestones == milestones[..n] + [milestones[n]];
      ReachesOneMore(ruleId, goalId, goal, milestones[..n], milestones[n], f);
    }
  }

  lemma RuleFound(s: Snapshot, userId: string, rule: Rule, f: Finding)
    ensures f in RuleFinding(s, userId, rule)
       <==> exists subject :: IsMet(s, userId, rule.config, subject) && f == FindingOf(subject, Some(rule.id))
  {
    hide TotalCount, Spending.UncategorizedGroups, MilestoneFindings, HasReached, KeyOf, UncategorizedKey, DeadlineKey;
    match rule.config {
      case Uncategorized(threshold) =>
        LiteralKeys("", "", threshold);
        assert IsMet(s, userId, rule.config, UncategorizedOf(threshold)) <==>
          TotalCount(Spending.UncategorizedGroups(s.db, userId)) > threshold;
      case Milestones(goalId, milestones) =>
        if goalId in s.goals {
          MilestonesFound(rule.id, goalId, s.goals[goalId], milestones, f);
          assert forall m <- milestones ::
            HasReached(s.goals[goalId], m) <==> IsMet(s, userId, rule.config, MilestoneOf(goalId, m));
        }
      case Deadline(goalId, daysBefore) =>
        LiteralKeys(goalId, "", daysBefore);
        assert IsMet(s, userId, rule.config, DeadlineOf(goalId, daysBefore)) <==>
          goalId in s.goals && s.goals[goalId].daysRemaining.Some? && s.goals[goalId].daysRemaining.value <= daysBefore;
      case OtherConfig =>
    }
  }

  lemma {:induction false} RulesFound(s: Snapshot, userId: string, rules: seq<Rule>, f: Finding)
    ensures f in RuleFindings(s, userId, rules) <==> exists rule <- rules :: f in RuleFinding(s, userId, rule)
  {
    hide RuleFinding;
    if rules != [] {
      var n := |rules| - 1;
      RulesFound(s, userId, rules[..n], f);
      assert rules == rules[..n] + [rules[n]];
      assert f in RuleFindings(s, userId, rules)
        <==> f in RuleFindings(s, userId, rules[..n]) || f in RuleFinding(s, userId, rules[n]);
    }
  }

  /** An evaluation finds exactly what arises from what it reads, each with its own key and event. */
  lemma FindingsAreWhatArises(s: Snapshot, userId: string, f: Finding)
    requires StoredSnapshot(s)
    ensures f in Findings(s, userId)
       <==> exists subject, ruleId :: Arises(s, userId, subject, ruleId) && f == FindingOf(subject, ruleId)
  {
    hide BudgetFindings, MismatchFindings, RuleFindings, BudgetRowFinding, RuleFinding, Shows, IsMet, FindingOf, BudgetToday,
      StoredBudget;
    BudgetFindingsMeaning(s.db, userId, s.today, s.budgets, f);
    MismatchesFound(s.mismatches, f);
    RulesFound(s, userId, s.rules, f);
    assert f in Findings(s, userId) <==>
      f in BudgetFindings(s.db, userId, s.today, s.budgets) || f in MismatchFindings(s.mismatches)
      || f in RuleFindings(s, userId, s.rules);
    if f in Findings(s, userId) {
      FoundArises(s, userId, f);
    }
    forall subject, ruleId | Arises(s, userId, subject, ruleId) && f == FindingOf(subject, ruleId)
      ensures f in Findings(s, userId)
    {
      ArisingIsFound(s, userId, subject, ruleId);
    }
  }

  lemma FoundArises(s: Snapshot, userId: string, f: Finding)
    requires StoredSnapshot(s)
    requires (exists row :: row in s.budgets && f in BudgetRowFinding(s.db, userId, s.today, row))
      || (exists id <- s.mismatches :: f == FindingOf(MismatchOf(id), None))
      || (exists rule <- s.rules :: f in RuleFinding(s, userId, rule))
    ensures exists subject, ruleId :: Arises(s, userId, subject, ruleId) && f == FindingOf(subject, ruleId)
  {
    hide BudgetRowFinding, RuleFinding, Shows, FindingOf, BudgetToday, StoredBudget;
    if row :| row in s.budgets && f in BudgetRowFinding(s.db, userId, s.today, row) {
      RowFindings(s, userId, row, f);
      var subject :| RowArises(s, userId, row, subject) && f == FindingOf(subject, None);
      assert Arises(s, userId, subject, None);
    } else if id :| id in s.mismatches && f == FindingOf(MismatchOf(id), None) {
      assert Arises(s, userId, MismatchOf(id), None);
    } else {
      var rule :| rule in s.rules && f in RuleFinding(s, userId, rule);
      RuleFound(s, userId, rule, f);
      var subject :| IsMet(s, userId, rule.config, subject) && f == FindingOf(subject, Some(rule.id));
      assert Arises(s, userId, subject, Some(rule.id));
    }
  }

  lemma ArisingIsFound(s: Snapshot, userId: string, subject: Subject, ruleId: Option<string>)
    requires StoredSnapshot(s) && Arises(s, userId, subject, ruleId)
    ensures (exists row :: row in s.budgets && FindingOf(subject, ruleId) in BudgetRowFinding(s.db, userId, s.today, row))
      || (exists id <- s.mismatches :: FindingOf(subject, ruleId) == FindingOf(MismatchOf(id), None))
      || (exists rule <- s.rules :: FindingOf(subject, ruleId) in RuleFinding(s, userId, rule))
  {
    hide BudgetRowFinding, RuleFinding, Shows, FindingOf, BudgetToday, StoredBudget, IsMet;
    var f := FindingOf(subject, ruleId);
    match subject {
      case ExceededOf(id, periodKey) =>
        var row :| row in s.budgets && row.id == id && Shows(s, userId, row, Exceeded, periodKey);
        RowFindings(s, userId, row, f);
        assert RowArises(s, userId, row, subject);
      case ApproachingOf(id, periodKey, threshold) =>
        var row :| row in s.budgets && row.id == id && Shows(s, userId, row, Approaching, periodKey)
          && WarnsAt(row.budget) == threshold;
        RowFindings(s, userId, row, f);
        assert RowArises(s, userId, row, subject);
      case MismatchOf(_) =>
      case _ =>
        var rule :| rule in s.rules && ruleId == Some(rule.id) && IsMet(s, userId, rule.config, subject);
        RuleFound(s, userId, rule, f);
    }
  }

  // ---------- keys tell subjects apart ----------

  predicate HasColonFreeIds(subject: Subject) {
    match subject
    case ExceededOf(id, _) => ColonFree(id)
    case ApproachingOf(id, _, _) => ColonFree(id)
    case MilestoneOf(goalId, _) => ColonFree(goalId)
    case DeadlineOf(goalId, _) => ColonFree(goalId)
    case _ => true
  }

  lemma IntTextParts(n: int)
    ensures IntText(n) != "" && (IntText(n)[0] == '-' <==> n < 0) && ColonFree(IntText(n))
    ensures n < 0 ==> IntText(n)[1..] == NatText(-n)
  {
    assert forall i :: 0 <= i < |NatText(Abs(n))| ==> IsDigit(NatText(Abs(n))[i]);
    hide NatText;
  }

  lemma IntTextInjective(a: int, b: int)
    requires IntText(a) == IntText(b)
    ensures a == b
  {
    IntTextParts(a);
    IntTextParts(b);
    ValueOfNatText(Abs(a));
    ValueOfNatText(Abs(b));
    hide NatText, Value;
  }

  lemma AfterPrefix(p: string, x: string, y: string)
    requires p + x == p + y
    ensures x == y
  {
    assert (p + x)[|p|..] == x && (p + y)[|p|..] == y;
  }

  lemma SplitAtLastColon(p: string, a: string, q: string, b: string)
    requires ColonFree(a) && ColonFree(b) && p + (":" + a) == q + (":" + b)
    ensures p == q && a == b
  {
    var s, t := p + (":" + a), q + (":" + b);
    assert s[|p|] == ':' && t[|q|] == ':';
    assert forall i :: |p| < i < |s| ==> s[i] == a[i - |p| - 1];
    assert forall i :: |q| < i < |t| ==> t[i] == b[i - |q| - 1];
    assert |p| == |q|;
    assert s[..|p|] == p && t[..|q|] == q;
    assert s[|p| + 1..] == a && t[|q| + 1..] == b;
  }

  lemma ApproachingKeyInjective(id: string, p: string, n: int, id': string, p': string, n': int)
    requires ColonFree(id) && ColonFree(id') && BudgetApproachingKey(id, p, n) == BudgetApproachingKey(id', p', n')
    ensures id == id' && p == p' && n == n'
  {
    hide IntText;
    var x, y := p + (":approaching:" + IntText(n)), p' + (":approaching:" + IntText(n'));
    AfterPrefix("budget:", id + (":" + x), id' + (":" + y));
    SplitAtColon(id, x, id', y);
    IntTextParts(n);
    IntTextParts(n');
    var a, b := p + ":approaching", p' + ":approaching";
    assert x == a + (":" + IntText(n)) && y == b + (":" + IntText(n'));
    SplitAtLastColon(a, IntText(n), b, IntText(n'));
    IntTextInjective(n, n');
    assert a[..|a| - 12] == p && b[..|b| - 12] == p';
  }

  lemma MilestoneKeyInjective(g: string, m: int, g': string, m': int)
    requires ColonFree(g) && ColonFree(g') && MilestoneKey(g, m) == MilestoneKey(g', m')
    ensures g == g' && m == m'
  {
    hide IntText;
    var x, y := "milestone:" + IntText(m), "milestone:" + IntText(m');
    assert MilestoneKey(g, m) == "goal:" + (g + (":" + x)) && MilestoneKey(g', m') == "goal:" + (g' + (":" + y));
    AfterPrefix("goal:", g + (":" + x), g' + (":" + y));
    SplitAtColon(g, x, g', y);
    AfterPrefix("milestone:", IntText(m), IntText(m'));
    IntTextInjective(m, m');
  }

  lemma DeadlineKeyInjective(g: string, m: int, g': string, m': int)
    requires ColonFree(g) && ColonFree(g') && DeadlineKey(g, m) == DeadlineKey(g', m')
    ensures g == g' && m == m'
  {
    hide IntText;
    var x, y := "deadline:" + IntText(m), "deadline:" + IntText(m');
    assert DeadlineKey(g, m) == "goal:" + (g + (":" + x)) && DeadlineKey(g', m') == "goal:" + (g' + (":" + y));
    AfterPrefix("goal:", g + (":" + x), g' + (":" + y));
    SplitAtColon(g, x, g', y);
    AfterPrefix("deadline:", IntText(m), IntText(m'));
    IntTextInjective(m, m');
  }

  lemma MilestoneIsNoDeadline(g: string, m: int, g': string, n: int)
    requires ColonFree(g) && ColonFree(g')
    ensures MilestoneKey(g, m) != DeadlineKey(g', n)
  {
    hide IntText;
    if MilestoneKey(g, m) == DeadlineKey(g', n) {
      var x, y := "milestone:" + IntText(m), "deadline:" + IntText(n);
      assert MilestoneKey(g, m) == "goal:" + (g + (":" + x)) && DeadlineKey(g', n) == "goal:" + (g' + (":" + y));
      AfterPrefix("goal:", g + (":" + x), g' + (":" + y));
      assert x[0] != y[0];
      SplitAtColon(g, x, g', y);
    }
  }

  function Initial(subject: Subject): char {
    match subject
    case ExceededOf(_, _) => 'b'
    case ApproachingOf(_, _, _) => 'b'
    case MismatchOf(_) => 'r'
    case UncategorizedOf(_) => 'u'
    case _ => 'g'
  }

  lemma KeyStarts(subject: Subject)
    ensures KeyOf(subject) != "" && KeyOf(subject)[0] == Initial(subject)
  {
    hide IntText;
  }

  /** For ids without colons the key gives back everything the event is about. */
  lemma KeyInjective(a: Subject, b: Subject)
    requires HasColonFreeIds(a) && HasColonFreeIds(b) && KeyOf(a) == KeyOf(b)
    ensures a == b
  {
    KeyStarts(a);
    KeyStarts(b);
    hide KeyOf, BudgetExceededKey, BudgetApproachingKey, MilestoneKey, DeadlineKey, IntText, ColonFree;
    match a {
      case ExceededOf(id, p) => ExceededAlone(id, p, b);
      case ApproachingOf(id, p, n) => ApproachingAlone(id, p, n, b);
      case MismatchOf(id) => MismatchAlone(id, b);
      case UncategorizedOf(n) => UncategorizedAlone(n, b);
      case MilestoneOf(g, m) => MilestoneAlone(g, m, b);
      case DeadlineOf(g, n) => DeadlineAlone(g, n, b);
    }
  }

  lemma ExceededAlone(id: string, p: string, b: Subject)
    requires ColonFree(id) && HasColonFreeIds(b) && KeyOf(ExceededOf(id, p)) == KeyOf(b) && Initial(b) == 'b'
    ensures ExceededOf(id, p) == b
  {
    hide KeyOf, BudgetExceededKey, BudgetApproachingKey, IntText;
    LiteralKeys(id, p, 0);
    match b {
      case ExceededOf(id', p') => LiteralKeys(id', p', 0); ExceededKeyInjective(id, p, id', p');
      case ApproachingOf(id', p', n') => LiteralKeys(id', p', n'); ApproachingIsNotExceeded(id', p', n', id, p);
    }
  }

  lemma ApproachingAlone(id: string, p: string, n: int, b: Subject)
    requires ColonFree(id) && HasColonFreeIds(b) && KeyOf(ApproachingOf(id, p, n)) == KeyOf(b) && Initial(b) == 'b'
    ensures ApproachingOf(id, p, n) == b
  {
    hide KeyOf, BudgetExceededKey, BudgetApproachingKey, IntText;
    LiteralKeys(id, p, n);
    match b {
      case ExceededOf(id', p') => LiteralKeys(id', p', 0); ApproachingIsNotExceeded(id, p, n, id', p');
      case ApproachingOf(id', p', n') => LiteralKeys(id', p', n'); ApproachingKeyInjective(id, p, n, id', p', n');
    }
  }

  lemma MismatchAlone(id: string, b: Subject)
    requires KeyOf(MismatchOf(id)) == KeyOf(b) && Initial(b) == 'r'
    ensures MismatchOf(id) == b
  {
    AfterPrefix("reconciliation:", id, b.statementId);
  }

  lemma UncategorizedAlone(n: int, b: Subject)
    requires KeyOf(UncategorizedOf(n)) == KeyOf(b) && Initial(b) == 'u'
    ensures UncategorizedOf(n) == b
  {
    hide IntText;
    AfterPrefix("uncategorized:threshold:", IntText(n), IntText(b.threshold));
    IntTextInjective(n, b.threshold);
  }

  lemma MilestoneAlone(g: string, m: int, b: Subject)
    requires ColonFree(g) && HasColonFreeIds(b) && KeyOf(MilestoneOf(g, m)) == KeyOf(b) && Initial(b) == 'g'
    ensures MilestoneOf(g, m) == b
  {
    hide KeyOf, MilestoneKey, DeadlineKey, IntText;
    LiteralKeys(g, "", m);
    match b {
      case MilestoneOf(g', m') => LiteralKeys(g', "", m'); MilestoneKeyInjective(g, m, g', m');
      case DeadlineOf(g', n') => LiteralKeys(g', "", n'); MilestoneIsNoDeadline(g, m, g', n');
    }
  }

  lemma DeadlineAlone(g: string, n: int, b: Subject)
    requires ColonFree(g) && HasColonFreeIds(b) && KeyOf(DeadlineOf(g, n)) == KeyOf(b) && Initial(b) == 'g'
    ensures DeadlineOf(g, n) == b
  {
    hide KeyOf, MilestoneKey, DeadlineKey, IntText;
    LiteralKeys(g, "", n);
    match b {
      case MilestoneOf(g', m') => LiteralKeys(g', "", m'); MilestoneIsNoDeadline(g', m', g, n);
      case DeadlineOf(g', n') => LiteralKeys(g', "", n'); DeadlineKeyInjective(g, n, g', n');
    }
  }

  // ---------- over any run ----------

  /** Budgets and rules name their budgets and goals without colons. */
  ghost predicate NamesColonFree(s: Snapshot) {
    && (forall b <- s.budgets :: ColonFree(b.id))
    && (forall r <- s.rules ::
          && (r.config.Milestones? ==> ColonFree(r.config.goalId))
          && (r.config.Deadline? ==> ColonFree(r.config.goalId)))
  }

  ghost predicate IsStoredRun(userId: string, run: seq<Evaluation>) {
    forall e <- run :: StoredEvaluation(e, userId) && NamesColonFree(e.snapshot)
  }

  /** The event arose in the evaluation, which got as far as inserting it. */
  ghost predicate Delivers(e: Evaluation, userId: string, subject: Subject, ruleId: Option<string>)
    requires StoredEvaluation(e, userId)
  {
    Arises(e.snapshot, userId, subject, ruleId) && FindingOf(subject, ruleId) in Delivered(e, userId)
  }

  ghost predicate EverDelivered(userId: string, run: seq<Evaluation>, subject: Subject, ruleId: Option<string>)
    requires IsStoredRun(userId, run)
  {
    exists e <- run :: Delivers(e, userId, subject, ruleId)
  }

  lemma ArisingIsColonFree(s: Snapshot, userId: string, subject: Subject, ruleId: Option<string>)
    requires StoredSnapshot(s) && NamesColonFree(s) && Arises(s, userId, subject, ruleId)
    ensures HasColonFreeIds(subject)
  {
    hide Shows, ColonFree, HasReached, TotalCount, BudgetToday, StoredBudget;
  }

  /** What is delivered under a subject's key is that subject's. */
  lemma DeliveredUnderKey(e: Evaluation, userId: string, subject: Subject, f: Finding) returns (ruleId: Option<string>)
    requires StoredEvaluation(e, userId) && NamesColonFree(e.snapshot) && HasColonFreeIds(subject)
    requires f in Delivered(e, userId) && f.dedupeKey == KeyOf(subject)
    ensures f == FindingOf(subject, ruleId) && Delivers(e, userId, subject, ruleId)
  {
    hide Findings, Arises, StoredSnapshot, NamesColonFree, KeyOf, HasColonFreeIds, EventOf;
    var other, rule := CauseOf(e, userId, f);
    ArisingIsColonFree(e.snapshot, userId, other, rule);
    KeyInjective(other, subject);
    ruleId := rule;
  }

  lemma ShorterRun(userId: string, run: seq<Evaluation>)
    requires IsStoredRun(userId, run) && run != []
    ensures IsStoredRun(userId, run[..|run| - 1]) && StoredEvaluation(run[|run| - 1], userId) && NamesColonFree(run[|run| - 1].snapshot)
    ensures forall subject, ruleId :: EverDelivered(userId, run, subject, ruleId) <==>
      EverDelivered(userId, run[..|run| - 1], subject, ruleId) || Delivers(run[|run| - 1], userId, subject, ruleId)
  {
    hide StoredEvaluation, NamesColonFree, Delivers;
    assert run == run[..|run| - 1] + [run[|run| - 1]];
  }

  /**
   * Over any run of evaluations, cut short or not, a budget exceeded or approached in a period, a
   * mismatched statement, a rule's threshold, a milestone or a deadline has its one event exactly
   * if some evaluation read what calls for it and got that far, and the event is its own.
   */
  lemma {:induction false} OneEventPerSubject(userId: string, run: seq<Evaluation>, subject: Subject)
    requires IsStoredRun(userId, run) && HasColonFreeIds(subject)
    ensures var events, k := EventsAfter(userId, run), (userId, KeyOf(subject));
      && (k in events <==> exists ruleId :: EverDelivered(userId, run, subject, ruleId))
      && (k in events ==> exists ruleId :: EverDelivered(userId, run, subject, ruleId) && events[k] == EventOf(subject, ruleId))
  {
    hide Findings, StoredEvaluation, NamesColonFree, InsertedAll, KeyOf, HasColonFreeIds, EventOf, Delivered, Arises;
    if run != [] {
      hide EverDelivered;
      var before, e := run[..|run| - 1], run[|run| - 1];
      ShorterRun(userId, run);
      OneEventPerSubject(userId, before, subject);
      var k := (userId, KeyOf(subject));
      var events := EventsAfter(userId, run);
      InsertedAllKeys(EventsAfter(userId, before), userId, Delivered(e, userId));
      if k in EventsAfter(userId, before) {
        var ruleId :| EverDelivered(userId, before, subject, ruleId)
          && EventsAfter(userId, before)[k] == EventOf(subject, ruleId);
        assert EverDelivered(userId, run, subject, ruleId);
      } else if k in events {
        var f :| f in Delivered(e, userId) && f.dedupeKey == k.1 && f.event == events[k];
        var ruleId := DeliveredUnderKey(e, userId, subject, f);
        assert EverDelivered(userId, run, subject, ruleId);
      }
      if ruleId :| Delivers(e, userId, subject, ruleId) {
        assert FindingOf(subject, ruleId) in Delivered(e, userId);
        assert Has(Delivered(e, userId), k.1);
      }
    }
  }

  /** No event is stored without a cause. */
  lemma {:induction false} EveryEventHasACause(userId: string, run: seq<Evaluation>, k: (string, string))
    requires IsStoredRun(userId, run) && k in EventsAfter(userId, run)
    ensures k.0 == userId
    ensures exists subject, ruleId :: k.1 == KeyOf(subject) && EverDelivered(userId, run, subject, ruleId)
  {
    hide Findings, StoredEvaluation, NamesColonFree, InsertedAll, KeyOf, EventOf, Delivered, Delivers, EverDelivered;
    var before, e := run[..|run| - 1], run[|run| - 1];
    ShorterRun(userId, run);
    InsertedAllKeys(EventsAfter(userId, before), userId, Delivered(e, userId));
    if k in EventsAfter(userId, before) {
      EveryEventHasACause(userId, before, k);
      var subject, ruleId :| k.1 == KeyOf(subject) && EverDelivered(userId, before, subject, ruleId);
      assert EverDelivered(userId, run, subject, ruleId);
    } else {
      var f :| f in Delivered(e, userId) && f.dedupeKey == k.1;
      var subject, ruleId := CauseOf(e, userId, f);
      assert EverDelivered(userId, run, subject, ruleId);
    }
  }

  lemma CauseOf(e: Evaluation, userId: string, f: Finding) returns (subject: Subject, ruleId: Option<string>)
    requires StoredEvaluation(e, userId) && f in Delivered(e, userId)
    ensures f == FindingOf(subject, ruleId) && Delivers(e, userId, subject, ruleId)
  {
    hide Findings, Arises, StoredSnapshot, KeyOf, EventOf;
    assert f in Findings(e.snapshot, userId);
    FindingsAreWhatArises(e.snapshot, userId, f);
    subject, ruleId :| Arises(e.snapshot, userId, subject, ruleId) && f == FindingOf(subject, ruleId);
  }

  /** An evaluation that reached all its findings delivers whatever arose. */
  lemma CompleteEvaluationDeliversAll(e: Evaluation, userId: string, subject: Subject, ruleId: Option<string>)
    requires StoredEvaluation(e, userId) && e.reached == |Findings(e.snapshot, userId)|
    ensures Delivers(e, userId, subject, ruleId) <==> Arises(e.snapshot, userId, subject, ruleId)
  {
    hide Findings, Arises, StoredSnapshot, KeyOf, EventOf;
    assert Delivered(e, userId) == Findings(e.snapshot, userId);
    if Arises(e.snapshot, userId, subject, ruleId) {
      FindingsAreWhatArises(e.snapshot, userId, FindingOf(subject, ruleId));
    }
  }

  // ---------- in displayed numbers ----------

  /** A milestone is reached exactly when the percentage displayed for the goal is at least it. */
  lemma ReachedIffShown(goal: GoalProgress, milestone: int)
    requires goal.currentAmount.Some? && DecimalToScaled(goal.currentAmount.value).Some?
    requires DecimalToScaled(goal.currentAmount.value).value >= 0
    requires DecimalToScaled(goal.targetAmount).Some? && DecimalToScaled(goal.targetAmount).value > 0
    ensures var shown := PercentOf(goal.currentAmount.value, goal.targetAmount);
      shown.Some? && HundredthsOf(shown.value).Some?
      && (HasReached(goal, milestone) <==> HundredthsOf(shown.value).value >= 100 * milestone)
  {
    PercentReachedMatchesPercentOf(goal.currentAmount.value, goal.targetAmount, milestone);
    ReachedMeans(goal, milestone);
    hide PercentReached, PercentOf, HundredthsOf, HasReached, DecimalToScaled;
  }

  lemma {:induction false} TotalCountCons(g: Spending.Uncategorized, groups: seq<Spending.Uncategorized>)
    ensures TotalCount([g] + groups) == g.count + TotalCount(groups)
  {
    var all := [g] + groups;
    if groups != [] {
      assert all[..|all| - 1] == [g] + groups[..|groups| - 1];
      TotalCountCons(g, groups[..|groups| - 1]);
    } else {
      assert all[..0] == [];
    }
  }

  lemma {:induction false} OneMoreInTotal(groups: seq<Spending.Uncategorized>, currency: string, amount: int)
    ensures TotalCount(Spending.AddToCurrency(groups, currency, amount)) == TotalCount(groups) + 1
  {
    if groups == [] {
      TotalCountCons(Spending.Uncategorized(currency, 1, amount), []);
      assert [Spending.Uncategorized(currency, 1, amount)] + [] == [Spending.Uncategorized(currency, 1, amount)];
    } else {
      var g, rest := groups[0], groups[1..];
      assert groups == [g] + rest;
      TotalCountCons(g, rest);
      if g.currency == currency {
        TotalCountCons(Spending.Uncategorized(currency, g.count + 1, g.amount + amount), rest);
      } else {
        TotalCountCons(g, Spending.AddToCurrency(rest, currency, amount));
        OneMoreInTotal(rest, currency, amount);
      }
    }
  }

  lemma {:induction false} TotalIsTheRows(rows: seq<Spending.JoinedRow>)
    ensures TotalCount(Spending.GroupByCurrency(Spending.Project(rows))) == |rows|
  {
    if rows != [] {
      hide Spending.AddToCurrency, TotalCount;
      TotalIsTheRows(rows[1..]);
      assert rows == [rows[0]] + rows[1..];
      Spending.ProjectCons(rows[0], rows[1..]);
      OneMoreInTotal(Spending.GroupByCurrency(Spending.Project(rows[1..])), rows[0].transaction.currency, Spending.AmountOf(rows[0]));
    } else {
      assert TotalCount([]) == 0;
    }
  }

  /** The count a rule compares is that of the spent parts and whole transactions without a category. */
  lemma UncategorizedAreOpen(db: Spending.Database, userId: string)
    requires Spending.Indexed(db)
    ensures TotalCount(Spending.UncategorizedGroups(db, userId)) == Charges.OpenCount(db, userId, db.transactions)
  {
    hide Spending.Joined, Spending.WhereUncategorized, Spending.Project, Spending.GroupByCurrency, TotalCount, Charges.OpenCount;
    TotalIsTheRows(Spending.WhereUncategorized(db, userId, Spending.Joined(db, userId, db.transactions)));
    Charges.UncategorizedRowsAreOpen(db, userId, db.transactions);
  }
}
