/**
 * Exactly when a linked file is kept: it survives every continuation, in time or not, if and only
 * if it is stored and no reconciler under way has condemned it.
 */
module ExportKept {
  import opened Wrappers
  import opened Csv
  import opened ExportProtocol
  import opened ExportSafety

  // ---------- kept files ----------

  predicate Unexpired(s: System, key: string) { key in s.published && s.clock < s.published[key].expiresAt }

  /** A reconciler under way has already decided to delete the object. */
  ghost predicate Condemned(s: System, key: string) {
    exists p :: p in s.reconcilers && s.reconcilers[p].Purging? && key in s.reconcilers[p].victims
  }

  ghost predicate IsKept(s: System, key: string) { key in s.objects && !Condemned(s, key) }

  /** The row has this file and the file has not expired. */
  predicate HasFile(s: System, id: string, key: string) {
    id in s.rows && s.rows[id].storageKey == Some(key) && Unexpired(s, key)
  }

  /** The row's file is stored, with the size and checksum the row gives. */
  predicate FileIsThere(cfg: Config, s: System, row: ExportRow) {
    && row.storageKey.Some? && row.storageKey.value in s.objects
    && row.sizeBytes == Some(|s.objects[row.storageKey.value].bytes|)
    && row.checksum == Some(cfg.sha256(s.objects[row.storageKey.value].bytes))
  }

  // ---------- what a step can remove ----------

  lemma TableKeepsObjects(s: System, a: TableAction)
    requires TableEnabled(s, a)
    ensures TableStep(s, a).objects == s.objects
  {
  }

  lemma RemovedByAttempt(cfg: Config, s: System, a: AttemptAction, key: string)
    requires AttemptEnabled(s, a) && key in s.objects && key !in AttemptStep(cfg, s, a).objects
    ensures a.RemoveOwn? && InPhase(s, a.p, Removing) && s.attempts[a.p].key == key
  {
  }

  lemma RemovedByUser(cfg: Config, s: System, a: UserAction, key: string)
    requires UserEnabled(s, a) && ProcessesHarmless(cfg, s) && key in s.objects && key !in UserStep(s, a).objects
    ensures key in s.published && s.published[key].owner !in s.rows
  {
    assert a.DeleteObject? && DeleterHarmless(cfg, s, s.deleters[a.p]);
  }

  lemma RemovedBySweep(cfg: Config, s: System, a: SweepAction, key: string)
    requires SweepEnabled(s, a) && ProcessesHarmless(cfg, s) && key in s.objects && key !in SweepStep(cfg, s, a).objects
    ensures key in s.published && s.published[key].expiresAt < s.clock
  {
    hide KeyCleared, MarkedStale, ExpiredRows;
    assert a.SweepObject? && SweeperHarmless(s, s.sweepers[a.p]);
  }

  lemma RemovedByPurge(cfg: Config, s: System, a: ReconcileAction, key: string)
    requires ReconcileEnabled(s, a) && key in s.objects && key !in ReconcileStep(cfg, s, a).objects
    ensures Condemned(s, key)
  {
    hide Orphans;
    assert a.RemoveOrphan? && s.reconcilers[a.p].Purging? && key in s.reconcilers[a.p].victims;
  }

  /** No step takes a kept file from a row that still has it. */
  lemma NothingTakesIt(cfg: Config, s: System, step: Step, id: string, key: string)
    requires Enabled(s, step) && Invariant(cfg, s) && HasFile(s, id, key) && IsKept(s, key)
    ensures key in Apply(cfg, s, step).objects
  {
    assert RowDescribes(cfg, s, id);
    if key !in Apply(cfg, s, step).objects {
      assert s.published[key].owner == id;
      hide TableStep, UserStep, SweepStep, ReconcileStep, AttemptStep, UserEnabled, SweepEnabled, ReconcileEnabled,
        AttemptEnabled, TableEnabled, ContentsKept, RowsDescribe, ProcessesHarmless, Condemned;
      match step {
        case Generate(a) => RemovedByAttempt(cfg, s, a, key);
        case Table(a) => TableKeepsObjects(s, a);
        case User(a) => RemovedByUser(cfg, s, a, key);
        case Sweep(a) => RemovedBySweep(cfg, s, a, key);
        case Reconcile(a) => RemovedByPurge(cfg, s, a, key);
      }
    }
  }

  // ---------- nothing referenced is condemned ----------

  lemma OtherReconcilersStand(cfg: Config, s: System, step: Step, p: nat)
    requires Enabled(s, step) && Invariant(cfg, s) && p in Apply(cfg, s, step).reconcilers
    ensures (step.Reconcile? && step.r.p == p) || (p in s.reconcilers && Apply(cfg, s, step).reconcilers[p] == s.reconcilers[p])
  {
    RowIdsUsed(s);
    hide TableStep, AttemptStep, UserStep, SweepStep, TableEnabled, AttemptEnabled, UserEnabled, SweepEnabled,
      ReconcileStep, ReconcileEnabled, RowsDescribe, ProcessesHarmless, KeysOwned, ContentsKept;
    match step {
      case Generate(a) => AttemptKeeps(cfg, s, a);
      case Table(a) => TableOnlyDeletes(s, a);
      case User(a) => UserOnlyDeletes(s, a);
      case Sweep(a) => SweepOnlyDeletes(cfg, s, a);
      case Reconcile(a) => if p != a.p { OneReconcilerMoves(cfg, s, a, p); }
    }
  }

  lemma OneReconcilerMoves(cfg: Config, s: System, a: ReconcileAction, p: nat)
    requires ReconcileEnabled(s, a) && p in ReconcileStep(cfg, s, a).reconcilers && p != a.p
    ensures p in s.reconcilers && ReconcileStep(cfg, s, a).reconcilers[p] == s.reconcilers[p]
  {
    hide Orphans;
  }

  lemma OwnStepCondemns(cfg: Config, s: System, a: ReconcileAction, key: string)
    requires ReconcileEnabled(s, a) && IsReferenced(s.rows, key) && a.p in ReconcileStep(cfg, s, a).reconcilers
    requires var r := ReconcileStep(cfg, s, a).reconcilers[a.p]; r.Purging? && key in r.victims
    ensures Condemned(s, key)
  {
    hide IsReferenced;
    assert a.RemoveOrphan? && s.reconcilers[a.p].Purging? && key in s.reconcilers[a.p].victims;
  }

  /** The comparison never condemns a referenced key. */
  lemma StaysUncondemned(cfg: Config, s: System, step: Step, key: string)
    requires Enabled(s, step) && Invariant(cfg, s) && IsReferenced(s.rows, key) && !Condemned(s, key)
    ensures !Condemned(Apply(cfg, s, step), key)
  {
    var t := Apply(cfg, s, step);
    forall p | p in t.reconcilers && t.reconcilers[p].Purging? ensures key !in t.reconcilers[p].victims {
      OtherReconcilersStand(cfg, s, step, p);
      if key in t.reconcilers[p].victims && step.Reconcile? && step.r.p == p {
        OwnStepCondemns(cfg, s, step.r, key);
      }
      hide Apply, Enabled, Invariant, IsReferenced;
    }
  }

  // ---------- links last until expiry ----------

  /** A ready row without a file has expired. */
  ghost predicate LinkedUntilExpiry(s: System) {
    forall id :: id in s.rows ==> LinkedOrExpired(s, s.rows[id])
  }

  predicate LinkedOrExpired(s: System, row: ExportRow) {
    row.status == Ready ==> row.storageKey.Some? || (row.expiresAt.Some? && row.expiresAt.value < s.clock)
  }

  lemma WritingKeepsRows(s: System, p: nat, chunk: seq<Byte>, phase: Phase)
    requires p in s.attempts
    ensures Opened(s, p).rows == s.rows && ChunkWritten(s, p, chunk).rows == s.rows && Moved(s, p, phase).rows == s.rows
    ensures OwnRemoved(s, p).rows == s.rows
  {
  }

  lemma OnlyTwoStepsWriteRows(cfg: Config, s: System, a: AttemptAction)
    requires AttemptEnabled(s, a)
    ensures a.MarkTooLarge? || (a.Finalize? && WinsFinalize(s, a.p)) || AttemptStep(cfg, s, a).rows == s.rows
  {
    hide Opened, ChunkWritten, Moved, OwnRemoved, TooLargeMarked, Published, WinsFinalize;
    match a {
      case WriteChunk(p, chunk) => WritingKeepsRows(s, p, chunk, Open);
      case OpenObject(p) => WritingKeepsRows(s, p, [], Open);
      case FinishWriting(p) => WritingKeepsRows(s, p, [], Written);
      case HitSizeLimit(p) => WritingKeepsRows(s, p, [], TooLarge);
      case Finalize(p) => WritingKeepsRows(s, p, [], Removing);
      case RemoveOwn(p) => WritingKeepsRows(s, p, [], Removing);
      case _ =>
    }
  }

  lemma SweepUnlinksExpired(cfg: Config, s: System, a: SweepAction, id: string)
    requires SweepEnabled(s, a) && RowsDescribe(cfg, s) && ProcessesHarmless(cfg, s) && id in s.rows
    requires id in SweepStep(cfg, s, a).rows && LinkedOrExpired(s, s.rows[id])
    ensures LinkedOrExpired(s, SweepStep(cfg, s, a).rows[id])
  {
    hide IsStale, IsSwept, ExpiredRows, DeleterHarmless, DownloadMatches;
    assert RowDescribes(cfg, s, id);
    if a.ClearKey? {
      var e := s.sweepers[a.p].deleted.value;
      assert SweeperHarmless(s, s.sweepers[a.p]);
      assert HasExpired(s, e, s.sweepers[a.p].now);
    }
  }

  lemma AttemptKeepsLink(cfg: Config, s: System, a: AttemptAction, id: string)
    requires AttemptEnabled(s, a) && id in s.rows && id in AttemptStep(cfg, s, a).rows && LinkedOrExpired(s, s.rows[id])
    ensures LinkedOrExpired(s, AttemptStep(cfg, s, a).rows[id])
  {
    OnlyTwoStepsWriteRows(cfg, s, a);
    hide Opened, ChunkWritten;
    if !a.MarkTooLarge? && !a.Finalize? { hide AttemptStep; }
  }

  lemma TableKeepsLink(s: System, a: TableAction, id: string)
    requires TableEnabled(s, a) && id in TableStep(s, a).rows && (id in s.rows ==> LinkedOrExpired(s, s.rows[id]))
    ensures LinkedOrExpired(TableStep(s, a), TableStep(s, a).rows[id])
  {
  }

  lemma LinkLasts(cfg: Config, s: System, step: Step, id: string)
    requires Enabled(s, step) && Invariant(cfg, s) && id in Apply(cfg, s, step).rows
    requires id in s.rows ==> LinkedOrExpired(s, s.rows[id])
    ensures LinkedOrExpired(Apply(cfg, s, step), Apply(cfg, s, step).rows[id])
  {
    RowIdsUsed(s);
    hide TableStep, UserStep, SweepStep, ReconcileStep, AttemptStep, TableEnabled, UserEnabled, SweepEnabled,
      ReconcileEnabled, AttemptEnabled, OnlyDeletes, KeysOwned, ContentsKept, RowsDescribe, ProcessesHarmless;
    match step {
      case Table(a) => TableKeepsLink(s, a, id);
      case User(a) => UserOnlyDeletes(s, a);
      case Sweep(a) => SweepOnlyDeletes(cfg, s, a); SweepUnlinksExpired(cfg, s, a, id);
      case Reconcile(a) => ReconcileOnlyDeletes(cfg, s, a);
      case Generate(a) => AttemptKeeps(cfg, s, a); AttemptKeepsLink(cfg, s, a, id);
    }
  }

  /** A row keeps its file's key until the file expires. */
  lemma LinkStays(cfg: Config, s: System, step: Step, id: string, key: string)
    requires Enabled(s, step) && Invariant(cfg, s) && HasFile(s, id, key)
    requires id in Apply(cfg, s, step).rows && Unexpired(Apply(cfg, s, step), key)
    ensures Apply(cfg, s, step).rows[id].storageKey == Some(key)
  {
    RowIdsUsed(s);
    var t := Apply(cfg, s, step);
    RowsFollow(cfg, s, step, id);
    RowsStayDescribed(cfg, s, step);
    KeysAndContentsStay(cfg, s, step);
    LinkLasts(cfg, s, step, id);
    assert RowDescribes(cfg, s, id);
    hide Apply, Enabled, Invariant, ContentsKept, RowsDescribe, ProcessesHarmless;
  }

  // ---------- survival ----------

  lemma KeptStays(cfg: Config, s: System, step: Step, id: string, key: string)
    requires Enabled(s, step) && Invariant(cfg, s) && HasFile(s, id, key) && IsKept(s, key)
    requires id in Apply(cfg, s, step).rows && Unexpired(Apply(cfg, s, step), key)
    ensures HasFile(Apply(cfg, s, step), id, key) && IsKept(Apply(cfg, s, step), key)
  {
    NothingTakesIt(cfg, s, step, id, key);
    LinkStays(cfg, s, step, id, key);
    assert IsReferenced(s.rows, key);
    hide Apply, Enabled, Invariant, Condemned;
    StaysUncondemned(cfg, s, step, key);
  }

  lemma StillUnexpired(s: System, t: System, key: string)
    requires HistoryGrows(s, t) && key in s.published && Unexpired(t, key)
    ensures Unexpired(s, key)
  {
  }

  lemma {:induction false} KeptOverRun(cfg: Config, s: System, steps: seq<Step>, id: string, key: string)
    requires IsRun(cfg, s, steps) && Invariant(cfg, s) && HasFile(s, id, key) && IsKept(s, key)
    requires id in End(cfg, s, steps).rows && Unexpired(End(cfg, s, steps), key)
    ensures HasFile(End(cfg, s, steps), id, key) && IsKept(End(cfg, s, steps), key)
    decreases |steps|
  {
    hide Apply, Enabled, KeysOwned, ContentsKept, RowsDescribe, ProcessesHarmless, IsKept;
    if steps == [] {
    } else {
      var t := Apply(cfg, s, steps[0]);
      StepKeepsInvariant(cfg, s, steps[0]);
      RunKeepsInvariant(cfg, t, steps[1..]);
      RowIdsUsed(s);
      if id in t.rows {
        StillUnexpired(t, End(cfg, t, steps[1..]), key);
        KeptStays(cfg, s, steps[0], id, key);
        KeptOverRun(cfg, t, steps[1..], id, key);
      } else {
        GoneForGood(cfg, t, steps[1..], id);
      }
    }
  }

  /** Whatever happens next, as long as the row is there and the file has not expired, it is stored. */
  ghost predicate SurvivesEveryRun(cfg: Config, s: System, id: string, key: string) {
    forall steps :: IsRun(cfg, s, steps) && id in End(cfg, s, steps).rows && Unexpired(End(cfg, s, steps), key) ==>
      key in End(cfg, s, steps).objects
  }

  /** The reconciler that has condemned a file can delete it now. */
  lemma CondemnedCanGo(cfg: Config, s: System, key: string) returns (step: Step)
    requires Condemned(s, key)
    ensures step.Reconcile? && Enabled(s, step)
    ensures var t := Apply(cfg, s, step);
      key !in t.objects && t.rows == s.rows && t.clock == s.clock && t.published == s.published
  {
    var p :| p in s.reconcilers && s.reconcilers[p].Purging? && key in s.reconcilers[p].victims;
    step := Reconcile(RemoveOrphan(p, key));
  }

  /**
   * A linked, unexpired file survives every run, whatever its timing, if and only if it is stored
   * and no reconciler under way has condemned it.
   */
  lemma LinkedFileSurvivesIff(cfg: Config, s: System, id: string, key: string)
    requires Invariant(cfg, s) && HasFile(s, id, key)
    ensures SurvivesEveryRun(cfg, s, id, key) <==> IsKept(s, key)
  {
    hide Invariant, Condemned, Apply, Enabled;
    if IsKept(s, key) {
      forall steps | IsRun(cfg, s, steps) && id in End(cfg, s, steps).rows && Unexpired(End(cfg, s, steps), key)
        ensures key in End(cfg, s, steps).objects
      {
        KeptOverRun(cfg, s, steps, id, key);
      }
    } else if key !in s.objects {
      LeadsNowhere(cfg, s);
      assert IsRun(cfg, s, []) && End(cfg, s, []) == s;
    } else {
      var step := CondemnedCanGo(cfg, s, key);
      var t := Apply(cfg, s, step);
      assert [step][1..] == [] && IsRun(cfg, t, []) && End(cfg, t, []) == t;
      assert IsRun(cfg, s, [step]) && End(cfg, s, [step]) == t;
    }
  }

  /** So a finalize makes its file last exactly if, at that moment, it is stored and not condemned. */
  lemma FinalizedFileSurvivesIff(cfg: Config, s: System, p: nat)
    requires Invariant(cfg, s) && InPhase(s, p, Written) && WinsFinalize(s, p)
    requires s.clock < s.attempts[p].now + cfg.retentionMs
    ensures var a := s.attempts[p];
      SurvivesEveryRun(cfg, Published(cfg, s, p), a.exportId, a.key) <==> IsKept(s, a.key)
  {
    hide Invariant, Condemned, SurvivesEveryRun;
    var a, t := s.attempts[p], Published(cfg, s, p);
    StepKeepsInvariant(cfg, s, Generate(Finalize(p)));
    assert Apply(cfg, s, Generate(Finalize(p))) == t;
    LinkedFileSurvivesIff(cfg, t, a.exportId, a.key);
    SameCondemned(s, t, a.key);
  }

  lemma SameCondemned(s: System, t: System, key: string)
    requires t.reconcilers == s.reconcilers
    ensures Condemned(t, key) == Condemned(s, key)
  {
  }

  // ---------- over runs ----------

  lemma ReadyMeansFinalize(cfg: Config, s: System, step: Step, id: string)
    requires Enabled(s, step) && id in s.rows && id in Apply(cfg, s, step).rows
    requires s.rows[id].status == Preparing && Apply(cfg, s, step).rows[id].status == Ready
    ensures step.Generate? && step.a.Finalize? && InPhase(s, step.a.p, Written)
    ensures Apply(cfg, s, step).rows[id].storageKey == Some(s.attempts[step.a.p].key)
  {
    hide TableStep, UserStep, SweepStep, ReconcileStep, AttemptStep, TableEnabled, UserEnabled, SweepEnabled,
      ReconcileEnabled, AttemptEnabled, OnlyDeletes;
    match step {
      case Table(a) => ReadyNotFromTable(s, a, id);
      case User(a) => UserOnlyDeletes(s, a);
      case Sweep(a) => ReadyNotFromSweep(cfg, s, a, id);
      case Reconcile(a) => ReconcileOnlyDeletes(cfg, s, a);
      case Generate(a) => ReadyFromAttempt(cfg, s, a, id);
    }
  }

  lemma ReadyFromAttempt(cfg: Config, s: System, a: AttemptAction, id: string)
    requires AttemptEnabled(s, a) && id in s.rows && id in AttemptStep(cfg, s, a).rows
    requires s.rows[id].status == Preparing && AttemptStep(cfg, s, a).rows[id].status == Ready
    ensures a.Finalize? && InPhase(s, a.p, Written)
    ensures AttemptStep(cfg, s, a).rows[id].storageKey == Some(s.attempts[a.p].key)
  {
    OnlyTwoStepsWriteRows(cfg, s, a);
    hide Opened, ChunkWritten;
  }

  lemma ReadyNotFromTable(s: System, a: TableAction, id: string)
    requires TableEnabled(s, a) && id in s.rows && id in TableStep(s, a).rows && s.rows[id].status == Preparing
    ensures TableStep(s, a).rows[id].status == Preparing
  {
  }

  lemma ReadyNotFromSweep(cfg: Config, s: System, a: SweepAction, id: string)
    requires SweepEnabled(s, a) && id in s.rows && id in SweepStep(cfg, s, a).rows && s.rows[id].status == Preparing
    ensures SweepStep(cfg, s, a).rows[id].status != Ready
  {
    hide IsSwept, IsStale;
  }

  lemma SameKeyAsBefore(cfg: Config, s: System, t: System, id: string, key: string)
    requires HistoryGrows(s, t) && HasFile(t, id, key) && RowFollows(cfg, s, t, id)
    requires id in s.rows ==> RowDescribes(cfg, s, id)
    requires !(id in s.rows && s.rows[id].status == Preparing && t.rows[id].status == Ready)
    ensures HasFile(s, id, key)
  {
  }

  /** Every linked, unexpired file is stored and not condemned. */
  ghost predicate FilesKept(s: System) { forall id, key :: HasFile(s, id, key) ==> IsKept(s, key) }

  /** A finalize that links a file which is gone or condemned. */
  ghost predicate IsCareless(cfg: Config, s: System, step: Step) {
    && step.Generate? && step.a.Finalize? && InPhase(s, step.a.p, Written) && WinsFinalize(s, step.a.p)
    && s.clock < s.attempts[step.a.p].now + cfg.retentionMs && !IsKept(s, s.attempts[step.a.p].key)
  }

  lemma CarelessLinksLost(cfg: Config, s: System, step: Step)
    requires IsCareless(cfg, s, step)
    ensures Enabled(s, step) && !FilesKept(Apply(cfg, s, step))
  {
    hide Condemned;
    var t, a := Apply(cfg, s, step), s.attempts[step.a.p];
    SameCondemned(s, t, a.key);
    assert HasFile(t, a.exportId, a.key) && !IsKept(t, a.key);
  }

  lemma CarefulFileIsKept(cfg: Config, s: System, step: Step, id: string, key: string)
    requires Enabled(s, step) && Invariant(cfg, s) && FilesKept(s) && !IsCareless(cfg, s, step)
    requires HasFile(Apply(cfg, s, step), id, key)
    ensures IsKept(Apply(cfg, s, step), key)
  {
    var t := Apply(cfg, s, step);
    RowIdsUsed(s);
    KeysAndContentsStay(cfg, s, step);
    RowsFollow(cfg, s, step, id);
    if id in s.rows && s.rows[id].status == Preparing && t.rows[id].status == Ready {
      ReadyMeansFinalize(cfg, s, step, id);
      LinkedByFinalize(cfg, s, step.a.p, id, key);
    } else {
      hide Apply, Enabled, KeysOwned, ContentsKept, ProcessesHarmless, Condemned;
      assert id in s.rows ==> RowDescribes(cfg, s, id);
      SameKeyAsBefore(cfg, s, t, id, key);
      KeptStays(cfg, s, step, id, key);
    }
  }

  lemma ReadyWon(cfg: Config, s: System, p: nat, id: string)
    requires InPhase(s, p, Written) && id in s.rows && s.rows[id].status == Preparing
    requires var t := AttemptStep(cfg, s, Finalize(p)); id in t.rows && t.rows[id].status == Ready
    ensures WinsFinalize(s, p) && AttemptStep(cfg, s, Finalize(p)) == Published(cfg, s, p)
  {
  }

  lemma PublishedUnexpired(cfg: Config, s: System, p: nat)
    requires p in s.attempts && WinsFinalize(s, p) && Unexpired(Published(cfg, s, p), s.attempts[p].key)
    ensures s.clock < s.attempts[p].now + cfg.retentionMs
  {
  }

  lemma LinkedByFinalize(cfg: Config, s: System, p: nat, id: string, key: string)
    requires InPhase(s, p, Written) && !IsCareless(cfg, s, Generate(Finalize(p)))
    requires id in s.rows && s.rows[id].status == Preparing && s.attempts[p].key == key
    requires var t := AttemptStep(cfg, s, Finalize(p)); HasFile(t, id, key) && t.rows[id].status == Ready
    ensures IsKept(AttemptStep(cfg, s, Finalize(p)), key)
  {
    ReadyWon(cfg, s, p, id);
    PublishedUnexpired(cfg, s, p);
    var t := Published(cfg, s, p);
    assert t.objects == s.objects && t.reconcilers == s.reconcilers;
    hide Condemned, AttemptStep, Published;
    SameCondemned(s, t, key);
  }

  /** From a state in which all files are kept, exactly a careless finalize ends that. */
  lemma StaysKeptIff(cfg: Config, s: System, step: Step)
    requires Enabled(s, step) && Invariant(cfg, s) && FilesKept(s)
    ensures FilesKept(Apply(cfg, s, step)) <==> !IsCareless(cfg, s, step)
  {
    hide Apply, Enabled, Invariant, IsKept, HasFile;
    if IsCareless(cfg, s, step) {
      CarelessLinksLost(cfg, s, step);
    } else {
      forall id, key | HasFile(Apply(cfg, s, step), id, key) ensures IsKept(Apply(cfg, s, step), key) {
        CarefulFileIsKept(cfg, s, step, id, key);
      }
    }
  }

  ghost predicate KeptThroughout(cfg: Config, s: System, steps: seq<Step>)
    requires IsRun(cfg, s, steps)
    decreases |steps|
  {
    FilesKept(s) && (steps == [] || KeptThroughout(cfg, Apply(cfg, s, steps[0]), steps[1..]))
  }

  ghost predicate NeverCareless(cfg: Config, s: System, steps: seq<Step>)
    requires IsRun(cfg, s, steps)
    decreases |steps|
  {
    steps == [] || (!IsCareless(cfg, s, steps[0]) && NeverCareless(cfg, Apply(cfg, s, steps[0]), steps[1..]))
  }

  lemma {:induction false} KeptThroughoutFrom(cfg: Config, s: System, steps: seq<Step>)
    requires IsRun(cfg, s, steps) && Invariant(cfg, s) && FilesKept(s)
    ensures KeptThroughout(cfg, s, steps) <==> NeverCareless(cfg, s, steps)
    decreases |steps|
  {
    hide Apply, Enabled, Invariant, FilesKept, IsCareless;
    if steps == [] {
    } else {
      var t := Apply(cfg, s, steps[0]);
      StepKeepsInvariant(cfg, s, steps[0]);
      StaysKeptIff(cfg, s, steps[0]);
      if FilesKept(t) { KeptThroughoutFrom(cfg, t, steps[1..]); }
    }
  }

  /** Over any run from the start, no file is ever lost or condemned early exactly if no finalize is careless. */
  lemma FilesKeptThroughoutIff(cfg: Config, clock: int, steps: seq<Step>)
    requires IsRun(cfg, Start(clock), steps)
    ensures KeptThroughout(cfg, Start(clock), steps) <==> NeverCareless(cfg, Start(clock), steps)
  {
    hide Invariant, KeptThroughout, NeverCareless;
    StartIsSafe(cfg, clock);
    KeptThroughoutFrom(cfg, Start(clock), steps);
  }

  // ---------- ready rows ----------

  /** What a download is for: a ready row before its expiry. */
  predicate IsServed(s: System, id: string) {
    id in s.rows && s.rows[id].status == Ready && !IsExpired(s.rows[id], s.clock)
  }

  lemma {:induction false} StaysLinked(cfg: Config, s: System, steps: seq<Step>)
    requires IsRun(cfg, s, steps) && Invariant(cfg, s) && LinkedUntilExpiry(s)
    ensures LinkedUntilExpiry(End(cfg, s, steps))
    decreases |steps|
  {
    hide Apply, Enabled, Invariant, LinkedOrExpired;
    if steps != [] {
      var t := Apply(cfg, s, steps[0]);
      StepKeepsInvariant(cfg, s, steps[0]);
      forall id | id in t.rows ensures LinkedOrExpired(t, t.rows[id]) { LinkLasts(cfg, s, steps[0], id); }
      StaysLinked(cfg, t, steps[1..]);
    }
  }

  /** In every reachable state a ready unexpired row has a file that has not expired. */
  lemma ServedRowsHaveFiles(cfg: Config, s: System, id: string)
    requires IsReachable(cfg, s) && IsServed(s, id)
    ensures Invariant(cfg, s) && LinkedUntilExpiry(s)
    ensures s.rows[id].storageKey.Some? && HasFile(s, id, s.rows[id].storageKey.value)
  {
    hide KeysOwned, ContentsKept, ProcessesHarmless;
    ReachableIsSafe(cfg, s);
    var clock :| Leads(cfg, Start(clock), s);
    var steps :| IsRun(cfg, Start(clock), steps) && End(cfg, Start(clock), steps) == s;
    StartIsSafe(cfg, clock);
    StaysLinked(cfg, Start(clock), steps);
    ServedRowHasFile(cfg, s, id);
  }

  lemma ServedRowHasFile(cfg: Config, s: System, id: string)
    requires RowsDescribe(cfg, s) && LinkedUntilExpiry(s) && IsServed(s, id)
    ensures s.rows[id].storageKey.Some? && HasFile(s, id, s.rows[id].storageKey.value)
  {
    assert RowDescribes(cfg, s, id) && LinkedOrExpired(s, s.rows[id]);
  }

  /** A row with a stored file names its size and checksum. */
  lemma StoredFileIsThere(cfg: Config, s: System, id: string)
    requires Invariant(cfg, s) && id in s.rows && s.rows[id].storageKey.Some?
    ensures FileIsThere(cfg, s, s.rows[id]) <==> s.rows[id].storageKey.value in s.objects
  {
    hide KeysOwned, ProcessesHarmless;
    assert RowDescribes(cfg, s, id);
  }

  /** Whatever happens next, while the row is ready and unexpired its file is there, of its size and checksum. */
  ghost predicate StaysThere(cfg: Config, s: System, id: string) {
    forall steps :: IsRun(cfg, s, steps) && IsServed(End(cfg, s, steps), id) ==>
      FileIsThere(cfg, End(cfg, s, steps), End(cfg, s, steps).rows[id])
  }

  /**
   * In any reachable state, the file of a ready unexpired row is there over every continuation if
   * and only if it is stored now and not condemned.
   */
  lemma ReadyFileStaysIff(cfg: Config, s: System, id: string)
    requires IsReachable(cfg, s) && IsServed(s, id)
    ensures StaysThere(cfg, s, id) <==> s.rows[id].storageKey.Some? && IsKept(s, s.rows[id].storageKey.value)
  {
    hide Invariant, Condemned, Apply, Enabled, IsReachable, HasFile, LinkedUntilExpiry, FileIsThere;
    ServedRowsHaveFiles(cfg, s, id);
    var key := s.rows[id].storageKey.value;
    if IsKept(s, key) {
      forall steps | IsRun(cfg, s, steps) && IsServed(End(cfg, s, steps), id)
        ensures FileIsThere(cfg, End(cfg, s, steps), End(cfg, s, steps).rows[id])
      {
        StaysThereOver(cfg, s, steps, id, key);
      }
    } else if key !in s.objects {
      StoredFileIsThere(cfg, s, id);
      assert IsRun(cfg, s, []) && End(cfg, s, []) == s;
    } else {
      var step := CondemnedCanGo(cfg, s, key);
      var t := Apply(cfg, s, step);
      StepKeepsInvariant(cfg, s, step);
      StoredFileIsThere(cfg, t, id);
      assert [step][1..] == [] && IsRun(cfg, t, []) && End(cfg, t, []) == t;
      assert IsRun(cfg, s, [step]) && End(cfg, s, [step]) == t;
    }
  }

  lemma StaysThereOver(cfg: Config, s: System, steps: seq<Step>, id: string, key: string)
    requires IsRun(cfg, s, steps) && Invariant(cfg, s) && LinkedUntilExpiry(s) && HasFile(s, id, key) && IsKept(s, key)
    requires s.rows[id].status == Ready && IsServed(End(cfg, s, steps), id)
    ensures FileIsThere(cfg, End(cfg, s, steps), End(cfg, s, steps).rows[id])
  {
    hide Apply, Enabled, LinkedUntilExpiry, Condemned, KeysOwned, ContentsKept, ProcessesHarmless, RowsDescribe;
    var t := End(cfg, s, steps);
    StaysLinked(cfg, s, steps);
    RunKeepsInvariant(cfg, s, steps);
    RowsProgress(cfg, s, steps, id);
    ServedRowHasFile(cfg, t, id);
    KeptOverRun(cfg, s, steps, id, key);
    StoredFileIsThere(cfg, t, id);
  }

  lemma {:induction false} CarefulRunKeeps(cfg: Config, s: System, steps: seq<Step>)
    requires IsRun(cfg, s, steps) && Invariant(cfg, s) && FilesKept(s) && NeverCareless(cfg, s, steps)
    ensures FilesKept(End(cfg, s, steps))
    decreases |steps|
  {
    hide Apply, Enabled, Invariant, FilesKept, IsCareless;
    if steps != [] {
      StepKeepsInvariant(cfg, s, steps[0]);
      StaysKeptIff(cfg, s, steps[0]);
      CarefulRunKeeps(cfg, Apply(cfg, s, steps[0]), steps[1..]);
    }
  }

  /** After a run without a careless finalize every ready unexpired row has its file. */
  lemma CarefulFilesAreThere(cfg: Config, clock: int, steps: seq<Step>, id: string)
    requires IsRun(cfg, Start(clock), steps) && NeverCareless(cfg, Start(clock), steps)
    requires IsServed(End(cfg, Start(clock), steps), id)
    ensures FileIsThere(cfg, End(cfg, Start(clock), steps), End(cfg, Start(clock), steps).rows[id])
  {
    hide Invariant, NeverCareless, Leads, FileIsThere, Condemned;
    var s := End(cfg, Start(clock), steps);
    assert Leads(cfg, Start(clock), s) by { IsTheEnd(cfg, Start(clock), steps); }
    ServedRowsHaveFiles(cfg, s, id);
    StartIsSafe(cfg, clock);
    CarefulRunKeeps(cfg, Start(clock), steps);
    StoredFileIsThere(cfg, s, id);
  }

  lemma IsTheEnd(cfg: Config, s: System, steps: seq<Step>)
    requires IsRun(cfg, s, steps)
    ensures Leads(cfg, s, End(cfg, s, steps))
  {
  }
}
