/**
 * What the unguarded too-large update does: it is the only step that takes a ready row out of
 * `ready`. The failed row keeps its key, and a file that was kept until then stays for as long as
 * the row does, since neither the sweep nor the reconciler takes it.
 */
module ExportStranded {
  import opened Wrappers
  import opened ObjectStore
  import opened ExportProtocol
  import opened ExportSafety
  import opened ExportKept

  // ---------- a ready row can become failed ----------

  /** Two attempts for one row: the first is done writing, the second has hit the size limit. */
  function TwoAttempts(): System {
    System(0, map["e" := NewRow(0)], map["k" := StoredObject([], 0)],
           map[0 := Attempt("e", "k", 0, Written, [], 0), 1 := Attempt("e", "l", 0, TooLarge, [], 0)],
           map[], map[], map[], map[], {"e"}, {"k", "l"}, map[])
  }

  lemma ReachesTwoAttempts(cfg: Config)
    ensures Leads(cfg, Start(0), TwoAttempts())
  {
    hide Leads;
    var s0 := Start(0);
    LeadsNowhere(cfg, s0);
    var s1 := s0.(rows := map["e" := NewRow(0)], usedIds := {"e"});
    LeadsNext(cfg, s0, s0, Table(CreateRow("e")));
    assert Apply(cfg, s0, Table(CreateRow("e"))) == s1;
    var s2 := s1.(attempts := map[0 := Attempt("e", "k", 0, New, [], 0)], usedKeys := {"k"});
    LeadsNext(cfg, s0, s1, Generate(StartAttempt(0, "e", "k", 0)));
    assert Apply(cfg, s1, Generate(StartAttempt(0, "e", "k", 0))) == s2;
    var s3 := s2.(attempts := s2.attempts[1 := Attempt("e", "l", 0, New, [], 0)], usedKeys := {"k", "l"});
    LeadsNext(cfg, s0, s2, Generate(StartAttempt(1, "e", "l", 0)));
    assert Apply(cfg, s2, Generate(StartAttempt(1, "e", "l", 0))) == s3;
    var s4 := s3.(objects := map["k" := StoredObject([], 0)], attempts := s3.attempts[0 := Attempt("e", "k", 0, Open, [], 0)]);
    LeadsNext(cfg, s0, s3, Generate(OpenObject(0)));
    assert Apply(cfg, s3, Generate(OpenObject(0))) == s4;
    var s5 := s4.(attempts := s4.attempts[0 := Attempt("e", "k", 0, Written, [], 0)]);
    LeadsNext(cfg, s0, s4, Generate(FinishWriting(0)));
    assert Apply(cfg, s4, Generate(FinishWriting(0))) == s5;
    LeadsNext(cfg, s0, s5, Generate(HitSizeLimit(1)));
    assert Apply(cfg, s5, Generate(HitSizeLimit(1))).attempts == TwoAttempts().attempts;
  }

  /** The winner's row is ready when the other attempt's too-large update reaches it. */
  lemma ReadyRowCanFail(cfg: Config)
    ensures exists s :: IsReachable(cfg, s) && FailsReadyRow(cfg, s, "e")
  {
    hide IsReachable, Leads;
    ReachesTwoAttempts(cfg);
    var s := TwoAttempts();
    LeadsNext(cfg, Start(0), s, Generate(Finalize(0)));
    var t := Apply(cfg, s, Generate(Finalize(0)));
    assert t.rows["e"] == Finalized(cfg, NewRow(0), "k", [], 0);
    assert FailsReadyRow(cfg, t, "e") by { assert InPhase(t, 1, TooLarge); }
    IsReachableFrom(cfg, 0, t);
  }

  lemma IsReachableFrom(cfg: Config, clock: int, s: System)
    requires Leads(cfg, Start(clock), s)
    ensures IsReachable(cfg, s)
  {
  }

  /** One step turns the ready row into a failed one that keeps its key. */
  ghost predicate FailsReadyRow(cfg: Config, s: System, id: string) {
    exists p :: InPhase(s, p, TooLarge) && id in s.rows && s.rows[id].status == Ready
      && id in TooLargeMarked(s, p).rows && TooLargeMarked(s, p).rows[id].status == Failed
      && TooLargeMarked(s, p).rows[id].storageKey == s.rows[id].storageKey
  }

  // ---------- and only so ----------

  /** The too-large update of an attempt for this row. */
  predicate MarksTooLarge(s: System, step: Step, id: string) {
    step.Generate? && step.a.MarkTooLarge? && step.a.p in s.attempts && s.attempts[step.a.p].exportId == id
  }

  lemma TableKeepsReady(s: System, a: TableAction, id: string)
    requires TableEnabled(s, a) && s.rows.Keys <= s.usedIds && id in s.rows && s.rows[id].status == Ready
    requires id in TableStep(s, a).rows
    ensures TableStep(s, a).rows[id].status == Ready
  {
  }

  lemma SweepKeepsReady(cfg: Config, s: System, a: SweepAction, id: string)
    requires SweepEnabled(s, a) && id in s.rows && s.rows[id].status == Ready && id in SweepStep(cfg, s, a).rows
    ensures SweepStep(cfg, s, a).rows[id].status == Ready
  {
    hide IsSwept;
  }

  lemma AttemptLeavesReadyIff(cfg: Config, s: System, a: AttemptAction, id: string)
    requires AttemptEnabled(s, a) && id in s.rows && s.rows[id].status == Ready && id in AttemptStep(cfg, s, a).rows
    ensures AttemptStep(cfg, s, a).rows[id].status != Ready <==> MarksTooLarge(s, Generate(a), id)
  {
    OnlyTwoStepsWriteRows(cfg, s, a);
    hide Opened, ChunkWritten;
    if !a.MarkTooLarge? && !a.Finalize? { hide AttemptStep; }
  }

  /** A ready row that is still there stops being ready exactly at the too-large update of one of its attempts. */
  lemma LeavesReadyIff(cfg: Config, s: System, step: Step, id: string)
    requires Enabled(s, step) && Invariant(cfg, s) && id in s.rows && s.rows[id].status == Ready
    requires id in Apply(cfg, s, step).rows
    ensures Apply(cfg, s, step).rows[id].status != Ready <==> MarksTooLarge(s, step, id)
  {
    RowIdsUsed(s);
    hide TableStep, UserStep, SweepStep, ReconcileStep, AttemptStep, TableEnabled, UserEnabled, SweepEnabled,
      ReconcileEnabled, AttemptEnabled, OnlyDeletes, KeysOwned, ContentsKept, RowsDescribe, ProcessesHarmless;
    match step {
      case Table(a) => TableKeepsReady(s, a, id);
      case User(a) => UserOnlyDeletes(s, a);
      case Sweep(a) => SweepKeepsReady(cfg, s, a, id);
      case Reconcile(a) => ReconcileOnlyDeletes(cfg, s, a);
      case Generate(a) => AttemptLeavesReadyIff(cfg, s, a, id);
    }
  }

  ghost predicate NeverTooLarge(cfg: Config, s: System, steps: seq<Step>, id: string)
    requires IsRun(cfg, s, steps)
    decreases |steps|
  {
    steps == [] || (!MarksTooLarge(s, steps[0], id) && NeverTooLarge(cfg, Apply(cfg, s, steps[0]), steps[1..], id))
  }

  /** Over any run that keeps the row, it ends up ready exactly if no such update occurred. */
  lemma {:induction false} StaysReadyIff(cfg: Config, s: System, steps: seq<Step>, id: string)
    requires IsRun(cfg, s, steps) && Invariant(cfg, s) && id in s.rows && s.rows[id].status == Ready
    requires id in End(cfg, s, steps).rows
    ensures End(cfg, s, steps).rows[id].status == Ready <==> NeverTooLarge(cfg, s, steps, id)
    decreases |steps|
  {
    hide Apply, Enabled, MarksTooLarge, KeysOwned, ContentsKept, ProcessesHarmless, RowsDescribe, RowFollows;
    if steps == [] {
    } else {
      var t := Apply(cfg, s, steps[0]);
      StepKeepsInvariant(cfg, s, steps[0]);
      RowIdsUsed(s);
      if id in t.rows {
        LeavesReadyIff(cfg, s, steps[0], id);
        RowStaysOrFails(cfg, s, steps[0], id);
        if t.rows[id].status == Ready {
          StaysReadyIff(cfg, t, steps[1..], id);
        } else {
          RowsProgress(cfg, t, steps[1..], id);
        }
      } else {
        GoneForGood(cfg, t, steps[1..], id);
      }
    }
  }

  lemma RowStaysOrFails(cfg: Config, s: System, step: Step, id: string)
    requires Enabled(s, step) && Invariant(cfg, s) && id in s.rows && s.rows[id].status == Ready
    requires id in Apply(cfg, s, step).rows
    ensures Apply(cfg, s, step).rows[id].status in {Ready, Failed}
  {
    RowIdsUsed(s);
    RowsFollow(cfg, s, step, id);
    hide Apply, Enabled, Invariant;
  }

  // ---------- its file stays ----------

  /** The row has failed with a file that is stored and that no sweep has selected. */
  ghost predicate IsStranded(s: System, id: string, key: string) {
    && id in s.rows && s.rows[id].status == Failed && s.rows[id].storageKey == Some(key) && key in s.objects
    && (forall p :: p in s.sweepers ==> SweeperSpares(s.sweepers[p], key))
  }

  predicate SweeperSpares(w: Sweeper, key: string) {
    (forall e <- w.pending :: e.key != key) && (w.deleted.Some? ==> w.deleted.value.key != key)
  }

  lemma SweepSparesFailed(cfg: Config, s: System, a: SweepAction, id: string, key: string, p: nat)
    requires SweepEnabled(s, a) && RowsDescribe(cfg, s) && IsStranded(s, id, key) && p in SweepStep(cfg, s, a).sweepers
    ensures SweeperSpares(SweepStep(cfg, s, a).sweepers[p], key)
  {
    hide MarkedStale, KeyCleared, IsStale;
    if a.StartSweep? && a.p == p { SelectionSparesFailed(cfg, s, a.now, id, key); }
    hide ExpiredRows, RowsDescribe;
  }

  lemma SelectionSparesFailed(cfg: Config, s: System, now: int, id: string, key: string)
    requires RowsDescribe(cfg, s) && id in s.rows && s.rows[id].status == Failed && s.rows[id].storageKey == Some(key)
    ensures forall e <- ExpiredRows(s.rows, now) :: e.key != key
  {
    assert RowDescribes(cfg, s, id);
    forall e | e in ExpiredRows(s.rows, now) ensures e.key != key {
      assert e.exportId in s.rows && s.rows[e.exportId].storageKey == Some(e.key) && RowDescribes(cfg, s, e.exportId);
    }
  }

  lemma ObjectStays(cfg: Config, s: System, step: Step, id: string, key: string)
    requires Enabled(s, step) && Invariant(cfg, s) && IsStranded(s, id, key) && !Condemned(s, key)
    ensures key in Apply(cfg, s, step).objects
  {
    assert RowDescribes(cfg, s, id);
    if key !in Apply(cfg, s, step).objects {
      hide TableStep, UserStep, SweepStep, ReconcileStep, AttemptStep, UserEnabled, SweepEnabled, ReconcileEnabled,
        AttemptEnabled, TableEnabled, ContentsKept, RowsDescribe, ProcessesHarmless, Condemned;
      match step {
        case Generate(a) => RemovedByAttempt(cfg, s, a, key);
        case Table(a) => TableKeepsObjects(s, a);
        case User(a) => RemovedByUser(cfg, s, a, key);
        case Sweep(a) => SweepTakesOthers(cfg, s, a, id, key);
        case Reconcile(a) => RemovedByPurge(cfg, s, a, key);
      }
    }
  }

  lemma SweepTakesOthers(cfg: Config, s: System, a: SweepAction, id: string, key: string)
    requires SweepEnabled(s, a) && IsStranded(s, id, key)
    ensures key in SweepStep(cfg, s, a).objects
  {
    hide MarkedStale, KeyCleared, ExpiredRows;
    if a.SweepObject? { assert SweeperSpares(s.sweepers[a.p], key); }
  }

  lemma StepStrands(cfg: Config, s: System, step: Step, id: string, key: string)
    requires Enabled(s, step) && Invariant(cfg, s) && IsStranded(s, id, key) && !Condemned(s, key)
    requires id in Apply(cfg, s, step).rows
    ensures IsStranded(Apply(cfg, s, step), id, key) && !Condemned(Apply(cfg, s, step), key)
  {
    var t := Apply(cfg, s, step);
    ObjectStays(cfg, s, step, id, key);
    assert IsReferenced(s.rows, key);
    StaysUncondemned(cfg, s, step, key);
    RowIdsUsed(s);
    RowsFollow(cfg, s, step, id);
    forall p | p in t.sweepers ensures SweeperSpares(t.sweepers[p], key) { SweepersSpare(cfg, s, step, id, key, p); }
    hide Apply, Enabled, Invariant, Condemned;
  }

  lemma SweepersSpare(cfg: Config, s: System, step: Step, id: string, key: string, p: nat)
    requires Enabled(s, step) && Invariant(cfg, s) && IsStranded(s, id, key) && p in Apply(cfg, s, step).sweepers
    ensures SweeperSpares(Apply(cfg, s, step).sweepers[p], key)
  {
    RowIdsUsed(s);
    hide TableStep, AttemptStep, UserStep, SweepStep, TableEnabled, AttemptEnabled, UserEnabled, SweepEnabled,
      ReconcileStep, ReconcileEnabled, RowsDescribe, ProcessesHarmless, KeysOwned, ContentsKept;
    match step {
      case Generate(a) => AttemptKeeps(cfg, s, a);
      case Table(a) => TableOnlyDeletes(s, a);
      case User(a) => UserOnlyDeletes(s, a);
      case Sweep(a) => SweepSparesFailed(cfg, s, a, id, key, p);
      case Reconcile(a) => ReconcileOnlyDeletes(cfg, s, a);
    }
  }

  /**
   * A stranded file outlives its expiry: over any run that keeps the row, sweeps and
   * reconciliations included and whatever the timing, it stays stored if no reconciler under way
   * has condemned it.
   */
  lemma {:induction false} StrandedFileStays(cfg: Config, s: System, steps: seq<Step>, id: string, key: string)
    requires IsRun(cfg, s, steps) && Invariant(cfg, s) && IsStranded(s, id, key) && !Condemned(s, key)
    requires id in End(cfg, s, steps).rows
    ensures IsStranded(End(cfg, s, steps), id, key) && !Condemned(End(cfg, s, steps), key)
    decreases |steps|
  {
    hide Apply, Enabled, IsStranded, Condemned, KeysOwned, ContentsKept, RowsDescribe, ProcessesHarmless;
    if steps == [] {
    } else {
      var t := Apply(cfg, s, steps[0]);
      StepKeepsInvariant(cfg, s, steps[0]);
      StrandedIdIsUsed(s, id, key);
      if id in t.rows {
        StepStrands(cfg, s, steps[0], id, key);
        StrandedFileStays(cfg, t, steps[1..], id, key);
      } else {
        GoneForGood(cfg, t, steps[1..], id);
      }
    }
  }

  lemma StrandedIdIsUsed(s: System, id: string, key: string)
    requires KeysOwned(s) && IsStranded(s, id, key)
    ensures id in s.usedIds
  {
  }

  /** The too-large update of an unexpired ready row strands its file, if the file was kept until then. */
  lemma TooLargeStrands(cfg: Config, s: System, p: nat, id: string)
    requires Invariant(cfg, s) && LinkedUntilExpiry(s) && InPhase(s, p, TooLarge) && s.attempts[p].exportId == id
    requires id in s.rows && s.rows[id].status == Ready && !IsExpired(s.rows[id], s.clock)
    ensures s.rows[id].storageKey.Some?
    ensures var key, t := s.rows[id].storageKey.value, TooLargeMarked(s, p);
      IsKept(s, key) <==> IsStranded(t, id, key) && !Condemned(t, key)
  {
    hide ContentsKept;
    assert RowDescribes(cfg, s, id) && LinkedOrExpired(s, s.rows[id]);
    var key := s.rows[id].storageKey.value;
    forall w | w in s.sweepers ensures SweeperSpares(s.sweepers[w], key) {
      assert SweeperHarmless(s, s.sweepers[w]);
      forall e | e in s.sweepers[w].pending ensures e.key != key { assert HasExpired(s, e, s.sweepers[w].now); }
    }
    SameCondemned(s, TooLargeMarked(s, p), key);
    hide KeysOwned, RowsDescribe, ProcessesHarmless, LinkedUntilExpiry, Condemned;
  }
}
