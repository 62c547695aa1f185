/**
 * When every attempt writes and finalizes within the grace period of its last write, a ready
 * export keeps its file until it expires; and why neither half of that assumption is enough.
 */
module ExportTiming {
  import opened Wrappers
  import opened Csv
  import opened ObjectStore
  import opened ExportProtocol
  import opened ExportSafety
  import opened ExportKept

  // ---------- the invariant ----------

  predicate IsWriting(a: Attempt) { a.phase == Open || a.phase == Written }

  predicate InTime(cfg: Config, s: System, a: Attempt) { s.clock < a.lastWrite + cfg.graceMs }

  /** No attempt can still publish under this key: its writer, if any, has been silent for the grace period. */
  ghost predicate Abandoned(cfg: Config, s: System, key: string) {
    forall p :: p in s.attempts && s.attempts[p].key == key ==>
      s.attempts[p].phase != New && (IsWriting(s.attempts[p]) ==> !InTime(cfg, s, s.attempts[p]))
  }

  ghost predicate IsLost(cfg: Config, s: System, key: string) {
    key in s.usedKeys && !IsReferenced(s.rows, key) && Abandoned(cfg, s, key)
  }

  ghost predicate ReconcilerCareful(cfg: Config, s: System, r: Reconciler) {
    match r
    case Called(now) => now <= s.clock
    case Listing(now, unread, refs) =>
      && now <= s.clock && unread <= s.usedKeys && refs.Keys <= s.usedKeys
      && (forall k :: k in refs && refs[k] <= now - cfg.graceMs ==> Abandoned(cfg, s, k))
    case Purging(victims) => forall k :: k in victims ==> IsLost(cfg, s, k)
  }

  ghost predicate ReconcilersCareful(cfg: Config, s: System) {
    forall p :: p in s.reconcilers ==> ReconcilerCareful(cfg, s, s.reconcilers[p])
  }

  /** An attempt that is still in time has its object. */
  ghost predicate WritersHaveObjects(cfg: Config, s: System) {
    forall p :: p in s.attempts && IsWriting(s.attempts[p]) && InTime(cfg, s, s.attempts[p]) ==>
      s.attempts[p].key in s.objects
  }

  ghost predicate TimedInvariant(cfg: Config, s: System) {
    ReconcilersCareful(cfg, s) && WritersHaveObjects(cfg, s)
  }

  // ---------- abandoned keys stay abandoned ----------

  /** An attempt after a timely step: just started, as it was, opened, written to in time, done writing, or past writing. */
  ghost predicate AttemptFollows(cfg: Config, s: System, t: System, q: nat)
    requires q in t.attempts
  {
    var after := t.attempts[q];
    || (after.phase == New && after.key !in s.usedKeys)
    || (q in s.attempts && after.key == s.attempts[q].key && AttemptMovesOn(cfg, s, t, s.attempts[q], after))
  }

  ghost predicate AttemptMovesOn(cfg: Config, s: System, t: System, before: Attempt, after: Attempt) {
    || after == before
    || (before.phase == New && after.phase == Open && after.key in t.objects)
    || (before.phase == Open && after.phase == Open && InTime(cfg, s, before))
    || (before.phase == Open && after == before.(phase := Written))
    || after.phase == TooLarge || after.phase == Removing
  }

  lemma OpenFollows(cfg: Config, s: System, p: nat, q: nat)
    requires InPhase(s, p, New) && q in s.attempts
    ensures q in Opened(s, p).attempts && AttemptFollows(cfg, s, Opened(s, p), q)
  {
  }

  lemma ChunkFollows(cfg: Config, s: System, p: nat, chunk: seq<Byte>, q: nat)
    requires InPhase(s, p, Open) && InTime(cfg, s, s.attempts[p]) && q in s.attempts
    ensures q in ChunkWritten(s, p, chunk).attempts && AttemptFollows(cfg, s, ChunkWritten(s, p, chunk), q)
  {
    hide Appended;
  }

  lemma MoveFollows(cfg: Config, s: System, p: nat, phase: Phase, q: nat)
    requires p in s.attempts && q in s.attempts && (phase == Written ==> s.attempts[p].phase == Open)
    requires phase in {Written, TooLarge, Removing}
    ensures q in Moved(s, p, phase).attempts && AttemptFollows(cfg, s, Moved(s, p, phase), q)
  {
  }

  lemma TooLargeFollows(cfg: Config, s: System, p: nat, q: nat)
    requires p in s.attempts && q in s.attempts
    ensures q in TooLargeMarked(s, p).attempts && AttemptFollows(cfg, s, TooLargeMarked(s, p), q)
  {
    hide MarkedTooLarge;
  }

  lemma AttemptsFollow(cfg: Config, s: System, a: AttemptAction, q: nat)
    requires AttemptEnabled(s, a) && Timely(cfg, s, Generate(a)) && q in AttemptStep(cfg, s, a).attempts
    requires q in s.attempts || a.StartAttempt?
    ensures AttemptFollows(cfg, s, AttemptStep(cfg, s, a), q)
  {
    hide Opened, ChunkWritten, Moved, TooLargeMarked;
    match a {
      case StartAttempt(_, _, _, _) =>
      case OpenObject(p) => OpenFollows(cfg, s, p, q);
      case WriteChunk(p, chunk) => ChunkFollows(cfg, s, p, chunk, q);
      case FinishWriting(p) => MoveFollows(cfg, s, p, Written, q);
      case HitSizeLimit(p) => MoveFollows(cfg, s, p, TooLarge, q);
      case MarkTooLarge(p) => TooLargeFollows(cfg, s, p, q);
      case Finalize(p) => if !WinsFinalize(s, p) { MoveFollows(cfg, s, p, Removing, q); }
      case RemoveOwn(_) =>
      case StopAttempt(_) =>
    }
  }

  lemma WritingKeepsAttempts(s: System, p: nat, chunk: seq<Byte>, phase: Phase)
    requires p in s.attempts
    ensures var keys := s.attempts.Keys;
      && Opened(s, p).attempts.Keys == keys && ChunkWritten(s, p, chunk).attempts.Keys == keys
      && Moved(s, p, phase).attempts.Keys == keys && TooLargeMarked(s, p).attempts.Keys == keys
    ensures var clock := s.clock;
      && Opened(s, p).clock == clock && ChunkWritten(s, p, chunk).clock == clock
      && Moved(s, p, phase).clock == clock && TooLargeMarked(s, p).clock == clock
  {
    hide MarkedTooLarge, Appended;
  }

  lemma OnlyStartAdds(cfg: Config, s: System, a: AttemptAction, q: nat)
    requires AttemptEnabled(s, a) && q in AttemptStep(cfg, s, a).attempts
    ensures q in s.attempts || a.StartAttempt?
    ensures AttemptStep(cfg, s, a).clock == s.clock
  {
    hide Opened, ChunkWritten, Moved, TooLargeMarked, WinsFinalize, Finalized;
    match a {
      case OpenObject(p) => WritingKeepsAttempts(s, p, [], Open);
      case WriteChunk(p, chunk) => WritingKeepsAttempts(s, p, chunk, Open);
      case FinishWriting(p) => WritingKeepsAttempts(s, p, [], Written);
      case HitSizeLimit(p) => WritingKeepsAttempts(s, p, [], TooLarge);
      case MarkTooLarge(p) => WritingKeepsAttempts(s, p, [], Removing);
      case Finalize(p) => WritingKeepsAttempts(s, p, [], Removing);
      case _ =>
    }
  }

  lemma AbandonedAfterAttempt(cfg: Config, s: System, a: AttemptAction, key: string)
    requires AttemptEnabled(s, a) && Timely(cfg, s, Generate(a)) && Abandoned(cfg, s, key) && key in s.usedKeys
    ensures Abandoned(cfg, AttemptStep(cfg, s, a), key)
  {
    var t := AttemptStep(cfg, s, a);
    forall q | q in t.attempts && t.attempts[q].key == key
      ensures t.attempts[q].phase != New && (IsWriting(t.attempts[q]) ==> !InTime(cfg, t, t.attempts[q]))
    {
      OnlyStartAdds(cfg, s, a, q);
      AttemptsFollow(cfg, s, a, q);
      hide AttemptStep, AttemptEnabled, Timely;
    }
  }

  lemma AbandonedWhenStill(cfg: Config, s: System, t: System, key: string)
    requires Abandoned(cfg, s, key) && t.attempts == s.attempts && s.clock <= t.clock
    ensures Abandoned(cfg, t, key)
  {
  }

  lemma StaysAbandoned(cfg: Config, s: System, step: Step, key: string)
    requires Enabled(s, step) && Timely(cfg, s, step) && Invariant(cfg, s)
    requires Abandoned(cfg, s, key) && key in s.usedKeys
    ensures Abandoned(cfg, Apply(cfg, s, step), key)
  {
    RowIdsUsed(s);
    hide Abandoned, TableStep, AttemptStep, UserStep, SweepStep, ReconcileStep, TableEnabled, AttemptEnabled, UserEnabled,
      SweepEnabled, ReconcileEnabled, Invariant;
    var t := Apply(cfg, s, step);
    if step.Generate? {
      AbandonedAfterAttempt(cfg, s, step.a, key);
    } else {
      match step {
        case Table(a) => TableOnlyDeletes(s, a);
        case User(a) => UserOnlyDeletes(s, a);
        case Sweep(a) => SweepOnlyDeletes(cfg, s, a);
        case Reconcile(a) => ReconcileOnlyDeletes(cfg, s, a);
      }
      AbandonedWhenStill(cfg, s, t, key);
    }
  }

  /** Only a timely finalize links a row to a key, so a lost key is never referenced again. */
  lemma RowNeverLinksLost(cfg: Config, s: System, step: Step, key: string, id: string)
    requires Enabled(s, step) && Timely(cfg, s, step) && Invariant(cfg, s) && IsLost(cfg, s, key)
    requires id in Apply(cfg, s, step).rows
    ensures Apply(cfg, s, step).rows[id].storageKey != Some(key)
  {
    RowIdsUsed(s);
    RowsFollow(cfg, s, step, id);
    var t := Apply(cfg, s, step);
    hide Invariant, Apply;
    if id in s.rows && WasFinalized(cfg, s, t, id) && t.rows[id] != s.rows[id] {
      assert s.rows[id].status == Preparing && t.rows[id].status == Ready;
      ReadyMeansFinalize(cfg, s, step, id);
    }
  }

  lemma StaysLost(cfg: Config, s: System, step: Step, key: string)
    requires Enabled(s, step) && Timely(cfg, s, step) && Invariant(cfg, s) && IsLost(cfg, s, key)
    ensures IsLost(cfg, Apply(cfg, s, step), key)
  {
    StaysAbandoned(cfg, s, step, key);
    KeysAndContentsStay(cfg, s, step);
    var t := Apply(cfg, s, step);
    forall id | id in t.rows ensures t.rows[id].storageKey != Some(key) { RowNeverLinksLost(cfg, s, step, key, id); }
    hide Invariant, Apply, Abandoned;
  }

  // ---------- reconcilers ----------

  lemma ReconcilerLasts(cfg: Config, s: System, step: Step, r: Reconciler)
    requires Enabled(s, step) && Timely(cfg, s, step) && Invariant(cfg, s) && ReconcilerCareful(cfg, s, r)
    ensures ReconcilerCareful(cfg, Apply(cfg, s, step), r)
  {
    var t := Apply(cfg, s, step);
    KeysAndContentsStay(cfg, s, step);
    hide Invariant, Apply, Abandoned, IsLost, Enabled, Timely;
    match r {
      case Called(_) =>
      case Listing(now, unread, refs) =>
        forall k | k in refs && refs[k] <= now - cfg.graceMs ensures Abandoned(cfg, t, k) {
          StaysAbandoned(cfg, s, step, k);
        }
      case Purging(victims) =>
        forall k | k in victims ensures IsLost(cfg, t, k) { StaysLost(cfg, s, step, k); }
    }
  }

  /** An object last written before the grace period belongs to an abandoned attempt or to none. */
  lemma OldObjectIsAbandoned(cfg: Config, s: System, key: string, now: int)
    requires ContentsKept(s) && key in s.objects && now <= s.clock && s.objects[key].modifiedAt <= now - cfg.graceMs
    ensures Abandoned(cfg, s, key)
  {
  }

  lemma ReadTimeIsCareful(cfg: Config, s: System, p: nat, key: string)
    requires ReconcileEnabled(s, ReadTime(p, key)) && Invariant(cfg, s) && ReconcilerCareful(cfg, s, s.reconcilers[p])
    ensures var t := ReconcileStep(cfg, s, ReadTime(p, key)); ReconcilerCareful(cfg, t, t.reconcilers[p])
  {
    var t := ReconcileStep(cfg, s, ReadTime(p, key));
    var now := s.reconcilers[p].now;
    if key in s.objects && s.objects[key].modifiedAt <= now - cfg.graceMs { OldObjectIsAbandoned(cfg, s, key, now); }
    forall k | k in t.reconcilers[p].refs && t.reconcilers[p].refs[k] <= now - cfg.graceMs ensures Abandoned(cfg, t, k) {
      AbandonedWhenStill(cfg, s, t, k);
    }
    hide Abandoned, RowsDescribe, ProcessesHarmless, ContentsKept;
  }

  /** The comparison condemns only lost keys. */
  lemma CompareIsCareful(cfg: Config, s: System, p: nat)
    requires ReconcileEnabled(s, CompareWithTable(p)) && ReconcilerCareful(cfg, s, s.reconcilers[p])
    ensures var t := ReconcileStep(cfg, s, CompareWithTable(p)); ReconcilerCareful(cfg, t, t.reconcilers[p])
  {
    var t := ReconcileStep(cfg, s, CompareWithTable(p));
    hide Abandoned, IsReferenced;
    forall k | k in t.reconcilers[p].victims ensures IsLost(cfg, t, k) { AbandonedWhenStill(cfg, s, t, k); }
  }

  lemma RemoveIsCareful(cfg: Config, s: System, p: nat, key: string)
    requires ReconcileEnabled(s, RemoveOrphan(p, key)) && ReconcilerCareful(cfg, s, s.reconcilers[p])
    ensures var t := ReconcileStep(cfg, s, RemoveOrphan(p, key)); ReconcilerCareful(cfg, t, t.reconcilers[p])
  {
    var t := ReconcileStep(cfg, s, RemoveOrphan(p, key));
    hide Abandoned, IsReferenced;
    forall k | k in t.reconcilers[p].victims ensures IsLost(cfg, t, k) { AbandonedWhenStill(cfg, s, t, k); }
  }

  lemma OwnStepIsCareful(cfg: Config, s: System, a: ReconcileAction)
    requires ReconcileEnabled(s, a) && Invariant(cfg, s) && ReconcilersCareful(cfg, s)
    ensures var t := ReconcileStep(cfg, s, a); a.p in t.reconcilers ==> ReconcilerCareful(cfg, t, t.reconcilers[a.p])
  {
    hide Abandoned, IsLost, RowsDescribe, ProcessesHarmless, ContentsKept;
    assert a.StartReconcile? || ReconcilerCareful(cfg, s, s.reconcilers[a.p]);
    match a {
      case ReadTime(p, key) => ReadTimeIsCareful(cfg, s, p, key);
      case CompareWithTable(p) => CompareIsCareful(cfg, s, p);
      case RemoveOrphan(p, key) => RemoveIsCareful(cfg, s, p, key);
      case _ =>
    }
  }

  lemma ReconcilersStayCareful(cfg: Config, s: System, step: Step)
    requires Enabled(s, step) && Timely(cfg, s, step) && Invariant(cfg, s) && ReconcilersCareful(cfg, s)
    ensures ReconcilersCareful(cfg, Apply(cfg, s, step))
  {
    var t := Apply(cfg, s, step);
    if step.Reconcile? { OwnStepIsCareful(cfg, s, step.r); }
    forall p | p in t.reconcilers ensures ReconcilerCareful(cfg, t, t.reconcilers[p]) {
      OtherReconcilersStand(cfg, s, step, p);
      if !(step.Reconcile? && step.r.p == p) { ReconcilerLasts(cfg, s, step, s.reconcilers[p]); }
      hide Invariant, Apply, ReconcilerCareful, Enabled, Timely;
    }
  }

  // ---------- what a step can remove ----------

  /** The only objects a step removes: its own attempt's, a gone row's, an expired one, or a lost one. */
  ghost predicate MayRemove(cfg: Config, s: System, step: Step, key: string) {
    || (step.Generate? && step.a.RemoveOwn? && InPhase(s, step.a.p, Removing) && s.attempts[step.a.p].key == key)
    || (key in s.published && s.published[key].owner !in s.rows)
    || (key in s.published && s.published[key].expiresAt < s.clock)
    || IsLost(cfg, s, key)
  }

  lemma RemovedByReconciler(cfg: Config, s: System, a: ReconcileAction, key: string)
    requires ReconcileEnabled(s, a) && ReconcilersCareful(cfg, s) && key in s.objects
    requires key !in ReconcileStep(cfg, s, a).objects
    ensures IsLost(cfg, s, key)
  {
    hide Orphans, IsLost;
    assert a.RemoveOrphan? && ReconcilerCareful(cfg, s, s.reconcilers[a.p]);
  }

  lemma RemovalIsAllowed(cfg: Config, s: System, step: Step, key: string)
    requires Enabled(s, step) && Invariant(cfg, s) && ReconcilersCareful(cfg, s)
    requires key in s.objects && key !in Apply(cfg, s, step).objects
    ensures MayRemove(cfg, s, step, key)
  {
    hide TableStep, UserStep, SweepStep, ReconcileStep, IsLost, KeysOwned, ContentsKept, RowsDescribe, ProcessesHarmless,
      UserEnabled, SweepEnabled, ReconcileEnabled, ReconcilersCareful, AttemptStep, AttemptEnabled, InPhase;
    match step {
      case Generate(a) => RemovedByAttempt(cfg, s, a, key);
      case Table(a) => TableKeepsObjects(s, a);
      case User(a) => RemovedByUser(cfg, s, a, key);
      case Sweep(a) => RemovedBySweep(cfg, s, a, key);
      case Reconcile(a) => RemovedByReconciler(cfg, s, a, key);
    }
  }

  // ---------- files stay ----------

  /** An attempt in time keeps its object: no removal may touch a key that is still being written. */
  lemma WriterKeepsObject(cfg: Config, s: System, step: Step, q: nat)
    requires Enabled(s, step) && Invariant(cfg, s) && ReconcilersCareful(cfg, s)
    requires q in s.attempts && IsWriting(s.attempts[q]) && InTime(cfg, s, s.attempts[q]) && s.attempts[q].key in s.objects
    ensures s.attempts[q].key in Apply(cfg, s, step).objects
  {
    var key := s.attempts[q].key;
    if key !in Apply(cfg, s, step).objects {
      RemovalIsAllowed(cfg, s, step, key);
      hide Apply, Enabled, ContentsKept, RowsDescribe, ProcessesHarmless, ReconcilersCareful, IsReferenced;
    }
  }

  /** An attempt that is writing and in time after a step was so before it, or has its object. */
  lemma WriterWasWriting(cfg: Config, s: System, a: AttemptAction, q: nat)
    requires AttemptEnabled(s, a) && Timely(cfg, s, Generate(a)) && q in AttemptStep(cfg, s, a).attempts
    requires var t := AttemptStep(cfg, s, a); IsWriting(t.attempts[q]) && InTime(cfg, t, t.attempts[q])
    ensures var t := AttemptStep(cfg, s, a);
      || t.attempts[q].key in t.objects
      || (q in s.attempts && IsWriting(s.attempts[q]) && InTime(cfg, s, s.attempts[q]) && t.attempts[q].key == s.attempts[q].key)
  {
    OnlyStartAdds(cfg, s, a, q);
    AttemptsFollow(cfg, s, a, q);
    hide AttemptEnabled, AttemptStep;
  }

  lemma WritersKeepObjects(cfg: Config, s: System, step: Step)
    requires Enabled(s, step) && Timely(cfg, s, step) && Invariant(cfg, s)
    requires ReconcilersCareful(cfg, s) && WritersHaveObjects(cfg, s)
    ensures WritersHaveObjects(cfg, Apply(cfg, s, step))
  {
    RowIdsUsed(s);
    var t := Apply(cfg, s, step);
    forall q | q in t.attempts && IsWriting(t.attempts[q]) && InTime(cfg, t, t.attempts[q]) ensures t.attempts[q].key in t.objects {
      if step.Generate? { WriterWasWriting(cfg, s, step.a, q); } else { OthersLeaveAttempts(cfg, s, step); }
      hide AttemptStep, AttemptEnabled;
      if q in s.attempts && IsWriting(s.attempts[q]) && InTime(cfg, s, s.attempts[q]) && t.attempts[q].key == s.attempts[q].key {
        WriterKeepsObject(cfg, s, step, q);
      }
      hide Invariant, Apply, ReconcilersCareful, Enabled, Timely;
    }
  }

  lemma OthersLeaveAttempts(cfg: Config, s: System, step: Step)
    requires Enabled(s, step) && !step.Generate? && s.rows.Keys <= s.usedIds
    ensures Apply(cfg, s, step).attempts == s.attempts && s.clock <= Apply(cfg, s, step).clock
    ensures Apply(cfg, s, step).published == s.published
  {
    hide TableStep, UserStep, SweepStep, ReconcileStep, TableEnabled, UserEnabled, SweepEnabled, ReconcileEnabled;
    match step {
      case Table(a) => TableOnlyDeletes(s, a);
      case User(a) => UserOnlyDeletes(s, a);
      case Sweep(a) => SweepOnlyDeletes(cfg, s, a);
      case Reconcile(a) => ReconcileOnlyDeletes(cfg, s, a);
    }
  }

  /** A timely finalize links a file that is stored and that no reconciler has condemned. */
  lemma TimelyIsCareful(cfg: Config, s: System, step: Step)
    requires Timely(cfg, s, step) && ReconcilersCareful(cfg, s) && WritersHaveObjects(cfg, s)
    ensures !IsCareless(cfg, s, step)
  {
    if step.Generate? && step.a.Finalize? && InPhase(s, step.a.p, Written) {
      var key := s.attempts[step.a.p].key;
      assert key in s.objects;
      forall p | p in s.reconcilers && s.reconcilers[p].Purging? ensures key !in s.reconcilers[p].victims {
        assert ReconcilerCareful(cfg, s, s.reconcilers[p]);
      }
    }
  }

  lemma StepKeepsTimedInvariant(cfg: Config, s: System, step: Step)
    requires Enabled(s, step) && Timely(cfg, s, step) && Invariant(cfg, s) && TimedInvariant(cfg, s)
    ensures TimedInvariant(cfg, Apply(cfg, s, step))
  {
    ReconcilersStayCareful(cfg, s, step);
    WritersKeepObjects(cfg, s, step);
    hide Invariant, Apply, Enabled, Timely, ReconcilersCareful, WritersHaveObjects;
  }

  // ---------- over every timely run ----------

  lemma {:induction false} TimelyRunIsCareful(cfg: Config, s: System, steps: seq<Step>)
    requires IsRun(cfg, s, steps) && IsTimelyRun(cfg, s, steps) && Invariant(cfg, s) && TimedInvariant(cfg, s)
    ensures NeverCareless(cfg, s, steps)
    decreases |steps|
  {
    hide Apply, Enabled, Timely, Invariant, ReconcilersCareful, WritersHaveObjects, IsCareless;
    if steps != [] {
      TimelyIsCareful(cfg, s, steps[0]);
      StepKeepsInvariant(cfg, s, steps[0]);
      StepKeepsTimedInvariant(cfg, s, steps[0]);
      TimelyRunIsCareful(cfg, Apply(cfg, s, steps[0]), steps[1..]);
    }
  }

  ghost predicate IsTimelyReachable(cfg: Config, s: System) {
    exists clock, steps :: IsRun(cfg, Start(clock), steps) && IsTimelyRun(cfg, Start(clock), steps)
      && End(cfg, Start(clock), steps) == s
  }

  /**
   * In every state reached by a timely run, whatever the interleaving of attempts, crashes,
   * deletes, sweeps and reconciliations, a ready unexpired row names a stored object of its size and
   * checksum.
   */
  lemma ReadyFilesAreThere(cfg: Config, s: System, id: string)
    requires IsTimelyReachable(cfg, s) && IsServed(s, id)
    ensures FileIsThere(cfg, s, s.rows[id])
  {
    hide Apply, Enabled, Timely, Invariant, NeverCareless, FileIsThere;
    var clock, steps :| IsRun(cfg, Start(clock), steps) && IsTimelyRun(cfg, Start(clock), steps)
      && End(cfg, Start(clock), steps) == s;
    StartIsSafe(cfg, clock);
    StartIsTimelySafe(cfg, clock);
    TimelyRunIsCareful(cfg, Start(clock), steps);
    CarefulFilesAreThere(cfg, clock, steps, id);
  }

  lemma StartIsTimelySafe(cfg: Config, clock: int)
    ensures TimedInvariant(cfg, Start(clock))
  {
  }

  // ---------- neither half of the timing assumption is enough ----------

  /** The two kinds of step the timing assumption speaks of. */
  datatype Half = Chunks | Finalizing

  predicate Concerns(half: Half, step: Step) {
    step.Generate? && if half == Chunks then step.a.WriteChunk? else step.a.Finalize?
  }

  /** Only the steps of one kind are known to be in time. */
  ghost predicate HalfTimely(cfg: Config, half: Half, s: System, steps: seq<Step>)
    requires IsRun(cfg, s, steps)
    decreases |steps|
  {
    steps == []
    || ((Concerns(half, steps[0]) ==> Timely(cfg, s, steps[0])) && HalfTimely(cfg, half, Apply(cfg, s, steps[0]), steps[1..]))
  }

  ghost predicate Reaches(cfg: Config, half: Half, s: System, t: System) {
    exists steps :: IsRun(cfg, s, steps) && HalfTimely(cfg, half, s, steps) && End(cfg, s, steps) == t
  }

  lemma {:induction false} HalfTimelyExtends(cfg: Config, half: Half, s: System, steps: seq<Step>, step: Step)
    requires IsRun(cfg, s, steps) && HalfTimely(cfg, half, s, steps) && Enabled(End(cfg, s, steps), step)
    requires Concerns(half, step) ==> Timely(cfg, End(cfg, s, steps), step)
    ensures IsRun(cfg, s, steps + [step]) && HalfTimely(cfg, half, s, steps + [step])
    decreases |steps|
  {
    hide Apply, Enabled, Timely;
    RunExtends(cfg, s, steps, step);
    if steps == [] {
      assert [step][1..] == [];
      assert steps + [step] == [step];
    } else {
      assert (steps + [step])[1..] == steps[1..] + [step];
      HalfTimelyExtends(cfg, half, Apply(cfg, s, steps[0]), steps[1..], step);
    }
  }

  lemma ReachesNext(cfg: Config, half: Half, s: System, t: System, step: Step)
    requires Reaches(cfg, half, s, t) && Enabled(t, step) && (Concerns(half, step) ==> Timely(cfg, t, step))
    ensures Reaches(cfg, half, s, Apply(cfg, t, step))
  {
    hide Apply, Enabled, Timely;
    var steps :| IsRun(cfg, s, steps) && HalfTimely(cfg, half, s, steps) && End(cfg, s, steps) == t;
    RunExtends(cfg, s, steps, step);
    HalfTimelyExtends(cfg, half, s, steps, step);
  }

  /** The state in which an attempt has opened its object and then stayed silent for the grace period. */
  function Silent(cfg: Config): System {
    System(cfg.graceMs, map["e" := NewRow(0)], map["k" := StoredObject([], 0)],
           map[0 := Attempt("e", "k", 0, Open, [], 0)], map[], map[], map[], map[], {"e"}, {"k"}, map[])
  }

  lemma ReachesSilent(cfg: Config, half: Half)
    ensures Reaches(cfg, half, Start(0), Silent(cfg))
  {
    hide Reaches;
    var s0 := Start(0);
    ReachesNowhere(cfg, half, s0);
    var s1 := s0.(rows := map["e" := NewRow(0)], usedIds := {"e"});
    ReachesNext(cfg, half, s0, s0, Table(CreateRow("e")));
    assert Apply(cfg, s0, Table(CreateRow("e"))) == s1;
    var s2 := s1.(attempts := map[0 := Attempt("e", "k", 0, New, [], 0)], usedKeys := {"k"});
    ReachesNext(cfg, half, s0, s1, Generate(StartAttempt(0, "e", "k", 0)));
    assert Apply(cfg, s1, Generate(StartAttempt(0, "e", "k", 0))) == s2;
    var s3 := s2.(objects := map["k" := StoredObject([], 0)], attempts := map[0 := Attempt("e", "k", 0, Open, [], 0)]);
    ReachesNext(cfg, half, s0, s2, Generate(OpenObject(0)));
    assert Apply(cfg, s2, Generate(OpenObject(0))) == s3;
    ReachesNext(cfg, half, s0, s3, Table(Tick(cfg.graceMs)));
  }

  lemma ReachesNowhere(cfg: Config, half: Half, s: System)
    ensures Reaches(cfg, half, s, s)
  {
    assert IsRun(cfg, s, []) && HalfTimely(cfg, half, s, []) && End(cfg, s, []) == s;
  }

  /** The reconciler has condemned the silent attempt's object. */
  lemma ReachesCondemned(cfg: Config, half: Half)
    ensures Reaches(cfg, half, Start(0), Silent(cfg).(reconcilers := map[0 := Purging({"k"})]))
  {
    hide Reaches;
    ReachesSilent(cfg, half);
    var g, s0, s1 := cfg.graceMs, Start(0), Silent(cfg);
    var s2 := s1.(reconcilers := map[0 := Called(g)]);
    ReachesNext(cfg, half, s0, s1, Reconcile(StartReconcile(0, g)));
    assert Apply(cfg, s1, Reconcile(StartReconcile(0, g))) == s2;
    var s3 := s1.(reconcilers := map[0 := Listing(g, {"k"}, map[])]);
    ReachesNext(cfg, half, s0, s2, Reconcile(ListKeys(0)));
    assert Apply(cfg, s2, Reconcile(ListKeys(0))).reconcilers == s3.reconcilers by { assert s2.objects.Keys == {"k"}; }
    var s4 := s1.(reconcilers := map[0 := Listing(g, {}, map["k" := 0])]);
    ReachesNext(cfg, half, s0, s3, Reconcile(ReadTime(0, "k")));
    assert Apply(cfg, s3, Reconcile(ReadTime(0, "k"))).reconcilers == s4.reconcilers by {
      assert {"k"} - {"k"} == {} && map[]["k" := 0] == map["k" := 0];
    }
    ReachesNext(cfg, half, s0, s4, Reconcile(CompareWithTable(0)));
    assert Apply(cfg, s4, Reconcile(CompareWithTable(0))).reconcilers == map[0 := Purging({"k"})] by {
      assert Orphans(cfg, s4.rows, map["k" := 0], g) == {"k"};
    }
  }

  predicate LosesTheFile(cfg: Config, s: System, id: string) {
    IsServed(s, id) && !FileIsThere(cfg, s, s.rows[id])
  }

  /** The condemned attempt finalizes, and then the reconciler deletes its file. */
  lemma CondemnedIsLost(cfg: Config, half: Half, bytes: seq<Byte>, lastWrite: int)
    requires cfg.graceMs < cfg.retentionMs && (half == Finalizing ==> cfg.graceMs < lastWrite + cfg.graceMs)
    requires Reaches(cfg, half, Start(0), Silent(cfg).(
      objects := map["k" := StoredObject(bytes, lastWrite)],
      attempts := map[0 := Attempt("e", "k", 0, Open, bytes, lastWrite)], reconcilers := map[0 := Purging({"k"})]))
    ensures exists s :: Reaches(cfg, half, Start(0), s) && LosesTheFile(cfg, s, "e")
  {
    hide Reaches;
    var s0 := Start(0);
    var s2 := Silent(cfg).(
      objects := map["k" := StoredObject(bytes, lastWrite)],
      attempts := map[0 := Attempt("e", "k", 0, Open, bytes, lastWrite)], reconcilers := map[0 := Purging({"k"})]);
    var s3 := s2.(attempts := map[0 := Attempt("e", "k", 0, Written, bytes, lastWrite)]);
    ReachesNext(cfg, half, s0, s2, Generate(FinishWriting(0)));
    assert Apply(cfg, s2, Generate(FinishWriting(0))) == s3;
    ReachesNext(cfg, half, s0, s3, Generate(Finalize(0)));
    var s4 := Published(cfg, s3, 0);
    assert Apply(cfg, s3, Generate(Finalize(0))) == s4;
    assert Condemned(s4, "k") by { assert s4.reconcilers[0] == Purging({"k"}); }
    var step := CondemnedCanGo(cfg, s4, "k");
    ReachesNext(cfg, half, s0, s4, step);
    var s5 := Apply(cfg, s4, step);
    assert LosesTheFile(cfg, s5, "e") by {
      assert s5.rows["e"] == Finalized(cfg, NewRow(0), "k", bytes, 0) && "k" !in s5.objects;
    }
  }

  /**
   * With finalizing in time but chunks further apart, a ready unexpired row can lose its file: the
   * reconciler reads the object's time before a late chunk and deletes it after the finalize.
   */
  lemma LateChunkLosesTheFile(cfg: Config)
    requires 0 < cfg.graceMs < cfg.retentionMs
    ensures exists s :: Reaches(cfg, Finalizing, Start(0), s) && LosesTheFile(cfg, s, "e")
  {
    hide Reaches;
    ReachesCondemned(cfg, Finalizing);
    var g, s0 := cfg.graceMs, Start(0);
    var s1 := Silent(cfg).(reconcilers := map[0 := Purging({"k"})]);
    var s2 := s1.(objects := map["k" := StoredObject([65], g)], attempts := map[0 := Attempt("e", "k", 0, Open, [65], g)]);
    ReachesNext(cfg, Finalizing, s0, s1, Generate(WriteChunk(0, [65])));
    assert Apply(cfg, s1, Generate(WriteChunk(0, [65]))) == s2 by {
      assert [] + [65] == [65] && s1.objects["k" := StoredObject([65], g)] == s2.objects;
    }
    CondemnedIsLost(cfg, Finalizing, [65], g);
  }

  /** With chunks in time but a late finalize, it can be lost in the same way. */
  lemma LateFinalizeLosesTheFile(cfg: Config)
    requires cfg.graceMs < cfg.retentionMs
    ensures exists s :: Reaches(cfg, Chunks, Start(0), s) && LosesTheFile(cfg, s, "e")
  {
    hide Reaches;
    ReachesCondemned(cfg, Chunks);
    CondemnedIsLost(cfg, Chunks, [], 0);
  }
}
