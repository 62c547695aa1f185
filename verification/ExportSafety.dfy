/** What the export protocol keeps, over every interleaving. */
module ExportSafety {
  import opened Wrappers
  import opened Csv
  import opened ObjectStore
  import opened ExportProtocol

  // ---------- invariants that need no timing ----------

  predicate OwnsKey(s: System, id: string, key: string) { key in s.published && s.published[key].owner == id }

  /** Every key belongs to one attempt while it is written, and to one row once it is published. */
  ghost predicate KeysOwned(s: System) {
    && (forall p :: p in s.attempts ==>
          s.attempts[p].key in s.usedKeys && s.attempts[p].key !in s.published && s.attempts[p].exportId in s.usedIds)
    && (forall p, q :: p in s.attempts && q in s.attempts && p != q ==> s.attempts[p].key != s.attempts[q].key)
    && (forall k :: k in s.published ==> k in s.usedKeys && s.published[k].owner in s.usedIds)
    && (forall k :: k in s.objects ==> k in s.usedKeys)
    && (forall id :: id in s.rows ==> id in s.usedIds)
  }

  /** A row's file is one it owns, with the size, checksum and expiry it was published with. */
  ghost predicate DescribesPublication(cfg: Config, s: System, id: string, row: ExportRow) {
    row.storageKey.Some? ==>
      var k := row.storageKey.value;
      && OwnsKey(s, id, k)
      && row.sizeBytes == Some(|s.published[k].bytes|)
      && row.checksum == Some(cfg.sha256(s.published[k].bytes))
      && row.expiresAt == Some(s.published[k].expiresAt)
  }

  ghost predicate RowsDescribe(cfg: Config, s: System) {
    forall id :: id in s.rows ==>
      DescribesPublication(cfg, s, id, s.rows[id]) && (s.rows[id].status == Preparing ==> s.rows[id].storageKey.None?)
  }

  /** A published object keeps its bytes; an object being written has the attempt's bytes and time. */
  ghost predicate ContentsKept(s: System) {
    && (forall k :: k in s.published && k in s.objects ==> s.objects[k].bytes == s.published[k].bytes)
    && (forall p :: p in s.attempts ==>
          && (s.attempts[p].phase == New ==> s.attempts[p].key !in s.objects && s.attempts[p].bytes == [])
          && (s.attempts[p].phase in {Open, Written} && s.attempts[p].key in s.objects ==>
                s.objects[s.attempts[p].key] == StoredObject(s.attempts[p].bytes, s.attempts[p].lastWrite))
          && s.attempts[p].lastWrite <= s.clock)
  }

  /** A delete only goes after the file of the row it read, once that row is gone for good. */
  ghost predicate DeleterHarmless(cfg: Config, s: System, d: Deleter) {
    match d
    case RowRead(id, row) => id in s.usedIds && DescribesPublication(cfg, s, id, row)
    case ObjectLeft(key) => key in s.published && s.published[key].owner !in s.rows
  }

  /** A download carries a row that was read, and then bytes that match it. */
  ghost predicate DownloadMatches(cfg: Config, s: System, d: Download) {
    match d
    case Reading(row) => exists id :: DescribesPublication(cfg, s, id, row)
    case Got(row, bytes) => row.checksum == Some(cfg.sha256(bytes)) && row.sizeBytes == Some(|bytes|)
  }

  predicate HasExpired(s: System, e: Expired, now: int) {
    OwnsKey(s, e.exportId, e.key) && s.published[e.key].expiresAt < now
  }

  /** The sweep only goes after files past their expiry. */
  ghost predicate SweeperHarmless(s: System, w: Sweeper) {
    && w.now <= s.clock
    && (forall e :: e in w.pending ==> HasExpired(s, e, w.now))
    && (w.deleted.Some? ==> HasExpired(s, w.deleted.value, w.now))
  }

  ghost predicate ProcessesHarmless(cfg: Config, s: System) {
    && (forall p :: p in s.deleters ==> DeleterHarmless(cfg, s, s.deleters[p]))
    && (forall p :: p in s.downloads ==> DownloadMatches(cfg, s, s.downloads[p]))
    && (forall p :: p in s.sweepers ==> SweeperHarmless(s, s.sweepers[p]))
  }

  ghost predicate Invariant(cfg: Config, s: System) {
    KeysOwned(s) && RowsDescribe(cfg, s) && ContentsKept(s) && ProcessesHarmless(cfg, s)
  }

  // ---------- how much a step can change ----------

  /** Publications are never withdrawn or overwritten, ids and keys are never reused. */
  ghost predicate HistoryGrows(s: System, t: System) {
    && s.usedIds <= t.usedIds && s.usedKeys <= t.usedKeys && s.clock <= t.clock
    && (forall k :: k in s.published ==> k in t.published && t.published[k] == s.published[k])
  }

  /** Nothing is written: the attempts stand still and objects can only disappear. */
  ghost predicate OnlyDeletes(s: System, t: System) {
    && t.attempts == s.attempts && t.published == s.published && t.usedKeys == s.usedKeys
    && s.usedIds <= t.usedIds && s.clock <= t.clock
    && (forall k :: k in t.objects ==> k in s.objects && t.objects[k] == s.objects[k])
  }

  /** Processes other than attempts stand still. */
  ghost predicate OthersStill(s: System, t: System) {
    t.deleters == s.deleters && t.downloads == s.downloads && t.sweepers == s.sweepers && t.reconcilers == s.reconcilers
    && t.clock == s.clock && t.usedIds == s.usedIds && t.rows.Keys == s.rows.Keys
  }

  /** One attempt moves on, touching at most its own object. */
  ghost predicate OneAttemptMoves(s: System, t: System, p: nat, a: Attempt) {
    && p in s.attempts && t.attempts == s.attempts[p := a]
    && a.key == s.attempts[p].key && a.exportId == s.attempts[p].exportId
    && t.published == s.published && t.usedKeys == s.usedKeys
    && (forall k :: k != a.key ==> (k in t.objects <==> k in s.objects))
    && (forall k :: k != a.key && k in t.objects ==> t.objects[k] == s.objects[k])
    && OthersStill(s, t)
  }

  // ---------- attempts ----------

  /** What an attempt's object must be in each phase. */
  ghost predicate AttemptContents(s: System, a: Attempt) {
    && (a.phase == New ==> a.key !in s.objects && a.bytes == [])
    && (a.phase in {Open, Written} && a.key in s.objects ==> s.objects[a.key] == StoredObject(a.bytes, a.lastWrite))
    && a.lastWrite <= s.clock
  }

  lemma MovedAttemptKeeps(s: System, t: System, p: nat, a: Attempt)
    requires KeysOwned(s) && ContentsKept(s) && OneAttemptMoves(s, t, p, a)
    requires AttemptContents(t, a)
    ensures KeysOwned(t) && ContentsKept(t) && HistoryGrows(s, t)
  {
    assert a.key in s.usedKeys;
  }

  lemma OpenMoves(s: System, p: nat)
    requires InPhase(s, p, New) && ContentsKept(s)
    ensures var t := Opened(s, p);
      OneAttemptMoves(s, t, p, t.attempts[p]) && AttemptContents(t, t.attempts[p]) && t.rows == s.rows
  {
  }

  lemma ChunkMoves(s: System, p: nat, chunk: seq<Byte>)
    requires InPhase(s, p, Open) && ContentsKept(s)
    ensures var t := ChunkWritten(s, p, chunk);
      OneAttemptMoves(s, t, p, t.attempts[p]) && AttemptContents(t, t.attempts[p]) && t.rows == s.rows
  {
  }

  lemma PhaseMoves(s: System, p: nat, phase: Phase)
    requires p in s.attempts && ContentsKept(s)
    requires phase == Written ==> s.attempts[p].phase == Open
    requires phase in {Written, TooLarge, Removing}
    ensures var t := Moved(s, p, phase);
      OneAttemptMoves(s, t, p, t.attempts[p]) && AttemptContents(t, t.attempts[p]) && t.rows == s.rows
  {
  }

  lemma TooLargeMoves(s: System, p: nat)
    requires InPhase(s, p, TooLarge) && ContentsKept(s)
    ensures var t := TooLargeMarked(s, p);
      OneAttemptMoves(s, t, p, t.attempts[p]) && AttemptContents(t, t.attempts[p])
  {
    hide MarkedTooLarge;
    assert TooLargeMarked(s, p).rows.Keys == s.rows.Keys;
  }

  /** The attempt ends, leaving or removing its own object. */
  lemma EndKeeps(s: System, t: System, p: nat)
    requires KeysOwned(s) && ContentsKept(s) && p in s.attempts
    requires t == OwnRemoved(s, p) || t == s.(attempts := s.attempts - {p})
    ensures KeysOwned(t) && ContentsKept(t) && HistoryGrows(s, t) && OthersStill(s, t)
  {
  }

  lemma StartKeeps(cfg: Config, s: System, a: AttemptAction)
    requires a.StartAttempt? && AttemptEnabled(s, a) && KeysOwned(s) && ContentsKept(s)
    ensures var t := AttemptStep(cfg, s, a); KeysOwned(t) && ContentsKept(t) && HistoryGrows(s, t) && OthersStill(s, t)
  {
    assert a.key !in s.objects;
  }

  /** The winning finalize publishes the attempt's bytes under its key. */
  lemma PublishKeeps(cfg: Config, s: System, p: nat)
    requires InPhase(s, p, Written) && WinsFinalize(s, p) && KeysOwned(s) && ContentsKept(s)
    ensures var t := Published(cfg, s, p); KeysOwned(t) && ContentsKept(t) && HistoryGrows(s, t) && OthersStill(s, t)
  {
    hide Finalized;
    assert Published(cfg, s, p).rows.Keys == s.rows.Keys;
  }

  lemma AttemptKeeps(cfg: Config, s: System, a: AttemptAction)
    requires AttemptEnabled(s, a) && KeysOwned(s) && ContentsKept(s)
    ensures var t := AttemptStep(cfg, s, a); KeysOwned(t) && ContentsKept(t) && HistoryGrows(s, t) && OthersStill(s, t)
  {
    hide KeysOwned, ContentsKept, HistoryGrows, OthersStill, AttemptContents, Opened, ChunkWritten, Moved, TooLargeMarked,
      Published, WinsFinalize;
    var t := AttemptStep(cfg, s, a);
    match a {
      case StartAttempt(_, _, _, _) => StartKeeps(cfg, s, a);
      case RemoveOwn(p) => EndKeeps(s, t, p);
      case StopAttempt(p) => EndKeeps(s, t, p);
      case OpenObject(p) => OpenMoves(s, p); MovedAttemptKeeps(s, t, p, t.attempts[p]);
      case WriteChunk(p, chunk) => ChunkMoves(s, p, chunk); MovedAttemptKeeps(s, t, p, t.attempts[p]);
      case FinishWriting(p) => PhaseMoves(s, p, Written); MovedAttemptKeeps(s, t, p, t.attempts[p]);
      case HitSizeLimit(p) => PhaseMoves(s, p, TooLarge); MovedAttemptKeeps(s, t, p, t.attempts[p]);
      case MarkTooLarge(p) => TooLargeMoves(s, p); MovedAttemptKeeps(s, t, p, t.attempts[p]);
      case Finalize(p) =>
        if WinsFinalize(s, p) {
          PublishKeeps(cfg, s, p);
        } else {
          PhaseMoves(s, p, Removing);
          MovedAttemptKeeps(s, t, p, t.attempts[p]);
        }
    }
  }

  // ---------- the other processes ----------

  lemma TableOnlyDeletes(s: System, a: TableAction)
    requires TableEnabled(s, a) && s.rows.Keys <= s.usedIds
    ensures var t := TableStep(s, a);
      OnlyDeletes(s, t) && t.rows.Keys <= t.usedIds && t.objects == s.objects
      && t.deleters == s.deleters && t.downloads == s.downloads && t.sweepers == s.sweepers && t.reconcilers == s.reconcilers
  {
  }

  lemma UserOnlyDeletes(s: System, a: UserAction)
    requires UserEnabled(s, a)
    ensures var t := UserStep(s, a);
      OnlyDeletes(s, t) && t.sweepers == s.sweepers && t.reconcilers == s.reconcilers && t.clock == s.clock
      && t.usedIds == s.usedIds && t.rows.Keys <= s.rows.Keys && (forall id :: id in t.rows ==> t.rows[id] == s.rows[id])
  {
  }

  lemma SweepOnlyDeletes(cfg: Config, s: System, a: SweepAction)
    requires SweepEnabled(s, a)
    ensures var t := SweepStep(cfg, s, a);
      OnlyDeletes(s, t) && t.deleters == s.deleters && t.downloads == s.downloads && t.reconcilers == s.reconcilers
      && t.clock == s.clock && t.usedIds == s.usedIds && t.rows.Keys == s.rows.Keys
  {
    hide IsSwept, IsStale, Unlinked;
  }

  lemma ReconcileOnlyDeletes(cfg: Config, s: System, a: ReconcileAction)
    requires ReconcileEnabled(s, a)
    ensures var t := ReconcileStep(cfg, s, a);
      OnlyDeletes(s, t) && t.deleters == s.deleters && t.downloads == s.downloads && t.sweepers == s.sweepers
      && t.clock == s.clock && t.usedIds == s.usedIds && t.rows == s.rows
  {
    hide Orphans;
  }

  lemma OnlyDeletesKeeps(s: System, t: System)
    requires KeysOwned(s) && ContentsKept(s) && OnlyDeletes(s, t) && t.rows.Keys <= t.usedIds
    ensures KeysOwned(t) && ContentsKept(t) && HistoryGrows(s, t)
  {
  }

  /** Every step keeps keys owned and contents in place. */
  lemma KeysAndContentsStay(cfg: Config, s: System, step: Step)
    requires Enabled(s, step) && KeysOwned(s) && ContentsKept(s)
    ensures var t := Apply(cfg, s, step); KeysOwned(t) && ContentsKept(t) && HistoryGrows(s, t)
  {
    assert s.rows.Keys <= s.usedIds;
    hide OnlyDeletes, KeysOwned, ContentsKept, HistoryGrows, OthersStill, TableStep, AttemptStep, UserStep, SweepStep,
      ReconcileStep, TableEnabled, AttemptEnabled, UserEnabled, SweepEnabled, ReconcileEnabled;
    var t := Apply(cfg, s, step);
    match step {
      case Generate(a) => AttemptKeeps(cfg, s, a);
      case Table(a) => TableOnlyDeletes(s, a); OnlyDeletesKeeps(s, t);
      case User(a) => UserOnlyDeletes(s, a); OnlyDeletesKeeps(s, t);
      case Sweep(a) => SweepOnlyDeletes(cfg, s, a); OnlyDeletesKeeps(s, t);
      case Reconcile(a) => ReconcileOnlyDeletes(cfg, s, a); OnlyDeletesKeeps(s, t);
    }
  }

  // ---------- rows ----------

  /** The row was preparing and now carries the publication of an attempt made for it. */
  ghost predicate WasFinalized(cfg: Config, s: System, t: System, id: string)
    requires id in s.rows && id in t.rows
  {
    exists p :: p in s.attempts && s.attempts[p].exportId == id && s.rows[id].status == Preparing
      && t.rows[id] == Finalized(cfg, s.rows[id], s.attempts[p].key, s.attempts[p].bytes, s.attempts[p].now)
      && s.attempts[p].key in t.published
      && t.published[s.attempts[p].key] == Publication(id, s.attempts[p].bytes, s.attempts[p].now + cfg.retentionMs)
  }

  predicate HasFailed(before: ExportRow, after: ExportRow) {
    after == before.(status := Failed, updatedAt := after.updatedAt)
  }

  predicate WasUnlinked(before: ExportRow, after: ExportRow) {
    before.status == Ready && after == Unlinked(before, after.updatedAt)
  }

  /** A row after a step: new, as it was, failed, unlinked from its file, or finalized. */
  ghost predicate RowFollows(cfg: Config, s: System, t: System, id: string)
    requires id in t.rows
  {
    if id !in s.rows then id !in s.usedIds && t.rows[id] == NewRow(s.clock)
    else
      t.rows[id] == s.rows[id] || HasFailed(s.rows[id], t.rows[id]) || WasUnlinked(s.rows[id], t.rows[id])
      || WasFinalized(cfg, s, t, id)
  }

  lemma RowFollowsTable(cfg: Config, s: System, a: TableAction, id: string)
    requires TableEnabled(s, a) && id in TableStep(s, a).rows && s.rows.Keys <= s.usedIds
    ensures RowFollows(cfg, s, TableStep(s, a), id)
  {
    hide WasFinalized, HasFailed, WasUnlinked;
  }

  lemma RowFollowsSweep(cfg: Config, s: System, a: SweepAction, id: string)
    requires SweepEnabled(s, a) && id in SweepStep(cfg, s, a).rows
    ensures RowFollows(cfg, s, SweepStep(cfg, s, a), id)
  {
    hide WasFinalized;
  }

  lemma RowFollowsPublish(cfg: Config, s: System, p: nat, id: string)
    requires InPhase(s, p, Written) && WinsFinalize(s, p) && id in Published(cfg, s, p).rows
    ensures RowFollows(cfg, s, Published(cfg, s, p), id)
  {
    hide Finalized, HasFailed, WasUnlinked;
    if id == s.attempts[p].exportId {
      assert WasFinalized(cfg, s, Published(cfg, s, p), id);
    }
  }

  lemma RowFollowsAttempt(cfg: Config, s: System, a: AttemptAction, id: string)
    requires AttemptEnabled(s, a) && id in AttemptStep(cfg, s, a).rows
    ensures RowFollows(cfg, s, AttemptStep(cfg, s, a), id)
  {
    hide WasFinalized, WasUnlinked, Published, WinsFinalize;
    if a.Finalize? && WinsFinalize(s, a.p) { RowFollowsPublish(cfg, s, a.p, id); }
  }

  lemma RowsFollow(cfg: Config, s: System, step: Step, id: string)
    requires Enabled(s, step) && id in Apply(cfg, s, step).rows && s.rows.Keys <= s.usedIds
    ensures RowFollows(cfg, s, Apply(cfg, s, step), id)
  {
    hide RowFollows, OnlyDeletes, TableStep, AttemptStep, UserStep, SweepStep, ReconcileStep, TableEnabled, AttemptEnabled,
      UserEnabled, SweepEnabled, ReconcileEnabled;
    match step {
      case Table(a) => RowFollowsTable(cfg, s, a, id);
      case Generate(a) => RowFollowsAttempt(cfg, s, a, id);
      case User(a) => UserOnlyDeletes(s, a); RowUnchangedFollows(cfg, s, Apply(cfg, s, step), id);
      case Sweep(a) => RowFollowsSweep(cfg, s, a, id);
      case Reconcile(a) => ReconcileOnlyDeletes(cfg, s, a); RowUnchangedFollows(cfg, s, Apply(cfg, s, step), id);
    }
  }

  lemma RowUnchangedFollows(cfg: Config, s: System, t: System, id: string)
    requires id in s.rows && id in t.rows && t.rows[id] == s.rows[id]
    ensures RowFollows(cfg, s, t, id)
  {
  }

  lemma DescriptionLasts(cfg: Config, s: System, t: System, id: string, row: ExportRow)
    requires HistoryGrows(s, t) && DescribesPublication(cfg, s, id, row)
    ensures DescribesPublication(cfg, t, id, row)
  {
  }

  ghost predicate RowDescribes(cfg: Config, s: System, id: string)
    requires id in s.rows
  {
    DescribesPublication(cfg, s, id, s.rows[id]) && (s.rows[id].status == Preparing ==> s.rows[id].storageKey.None?)
  }

  lemma RowStaysDescribed(cfg: Config, s: System, t: System, id: string)
    requires HistoryGrows(s, t) && id in t.rows && RowFollows(cfg, s, t, id)
    requires id in s.rows ==> RowDescribes(cfg, s, id)
    ensures RowDescribes(cfg, t, id)
  {
    if id in s.rows { DescriptionLasts(cfg, s, t, id, s.rows[id]); }
  }

  lemma RowsStayDescribed(cfg: Config, s: System, step: Step)
    requires Enabled(s, step) && KeysOwned(s) && ContentsKept(s) && RowsDescribe(cfg, s)
    ensures RowsDescribe(cfg, Apply(cfg, s, step))
  {
    assert s.rows.Keys <= s.usedIds;
    hide Apply, KeysOwned, ContentsKept, Enabled, HistoryGrows, RowFollows, DescribesPublication;
    var t := Apply(cfg, s, step);
    KeysAndContentsStay(cfg, s, step);
    forall id | id in t.rows
      ensures RowDescribes(cfg, t, id)
    {
      RowsFollow(cfg, s, step, id);
      RowStaysDescribed(cfg, s, t, id);
    }
  }

  // ---------- deletes, downloads and sweeps ----------

  /** A harmless process stays harmless while only history grows: its row is described, its file stays dead. */
  lemma DeleterLasts(cfg: Config, s: System, t: System, d: Deleter)
    requires DeleterHarmless(cfg, s, d) && HistoryGrows(s, t) && KeysOwned(s)
    requires forall id :: id in t.rows && id !in s.rows ==> id !in s.usedIds
    ensures DeleterHarmless(cfg, t, d)
  {
    match d {
      case RowRead(id, row) => DescriptionLasts(cfg, s, t, id, row);
      case ObjectLeft(key) =>
    }
  }

  lemma DownloadLasts(cfg: Config, s: System, t: System, d: Download)
    requires DownloadMatches(cfg, s, d) && HistoryGrows(s, t)
    ensures DownloadMatches(cfg, t, d)
  {
    if d.Reading? {
      var id :| DescribesPublication(cfg, s, id, d.row);
      DescriptionLasts(cfg, s, t, id, d.row);
    }
  }

  lemma SweeperLasts(s: System, t: System, w: Sweeper)
    requires SweeperHarmless(s, w) && HistoryGrows(s, t)
    ensures SweeperHarmless(t, w)
  {
  }

  ghost predicate NoRowReturns(s: System, t: System) {
    forall id :: id in t.rows && id !in s.rows ==> id !in s.usedIds
  }

  /** Processes that stand still stay harmless. */
  lemma StillProcessesHarmless(cfg: Config, s: System, t: System)
    requires ProcessesHarmless(cfg, s) && HistoryGrows(s, t) && KeysOwned(s) && NoRowReturns(s, t)
    requires t.deleters == s.deleters && t.downloads == s.downloads && t.sweepers == s.sweepers
    ensures ProcessesHarmless(cfg, t)
  {
    hide DeleterHarmless, DownloadMatches, SweeperHarmless, KeysOwned, HistoryGrows;
    forall p | p in t.deleters ensures DeleterHarmless(cfg, t, t.deleters[p]) { DeleterLasts(cfg, s, t, s.deleters[p]); }
    forall p | p in t.downloads ensures DownloadMatches(cfg, t, t.downloads[p]) { DownloadLasts(cfg, s, t, s.downloads[p]); }
    forall p | p in t.sweepers ensures SweeperHarmless(t, t.sweepers[p]) { SweeperLasts(s, t, s.sweepers[p]); }
  }

  lemma DeleterStays(cfg: Config, s: System, a: UserAction, p: nat)
    requires UserEnabled(s, a) && p in UserStep(s, a).deleters && RowsDescribe(cfg, s) && KeysOwned(s)
    requires p in s.deleters ==> DeleterHarmless(cfg, s, s.deleters[p])
    ensures DeleterHarmless(cfg, UserStep(s, a), UserStep(s, a).deleters[p])
  {
  }

  lemma DownloadStays(cfg: Config, s: System, a: UserAction, p: nat)
    requires UserEnabled(s, a) && p in UserStep(s, a).downloads && RowsDescribe(cfg, s) && ContentsKept(s)
    requires p in s.downloads ==> DownloadMatches(cfg, s, s.downloads[p])
    ensures DownloadMatches(cfg, UserStep(s, a), UserStep(s, a).downloads[p])
  {
    var t := UserStep(s, a);
    assert t.published == s.published;
    if a.ReadForDownload? && a.p == p {
      assert DescribesPublication(cfg, t, a.id, s.rows[a.id]);
    } else if a.FetchBytes? && a.p == p {
      FetchedBytesMatch(cfg, s, s.downloads[p].row);
    } else {
      hide UserStep;
      if t.downloads[p].Reading? {
        assert t.downloads[p] == s.downloads[p];
        var id :| DescribesPublication(cfg, s, id, s.downloads[p].row);
        assert DescribesPublication(cfg, t, id, s.downloads[p].row);
      }
    }
  }

  /** Whatever is stored under a described row's key has the row's checksum and size. */
  lemma FetchedBytesMatch(cfg: Config, s: System, row: ExportRow)
    requires exists id :: DescribesPublication(cfg, s, id, row)
    requires ContentsKept(s) && row.storageKey.Some? && row.storageKey.value in s.objects
    ensures var bytes := s.objects[row.storageKey.value].bytes;
      row.checksum == Some(cfg.sha256(bytes)) && row.sizeBytes == Some(|bytes|)
  {
  }

  lemma UserKeepsProcesses(cfg: Config, s: System, a: UserAction)
    requires UserEnabled(s, a) && Invariant(cfg, s)
    ensures ProcessesHarmless(cfg, UserStep(s, a))
  {
    var t := UserStep(s, a);
    UserOnlyDeletes(s, a);
    UserGrows(s, a);
    hide DeleterHarmless, DownloadMatches, SweeperHarmless, KeysOwned, HistoryGrows, UserStep, UserEnabled, ContentsKept,
      RowsDescribe, OnlyDeletes;
    forall p | p in t.deleters ensures DeleterHarmless(cfg, t, t.deleters[p]) { DeleterStays(cfg, s, a, p); }
    forall p | p in t.downloads ensures DownloadMatches(cfg, t, t.downloads[p]) { DownloadStays(cfg, s, a, p); }
    forall p | p in t.sweepers ensures SweeperHarmless(t, t.sweepers[p]) { SweeperLasts(s, t, s.sweepers[p]); }
  }

  lemma UserGrows(s: System, a: UserAction)
    requires UserEnabled(s, a)
    ensures HistoryGrows(s, UserStep(s, a))
  {
  }

  lemma SweeperStays(cfg: Config, s: System, a: SweepAction, p: nat)
    requires SweepEnabled(s, a) && p in SweepStep(cfg, s, a).sweepers && RowsDescribe(cfg, s)
    requires p in s.sweepers ==> SweeperHarmless(s, s.sweepers[p])
    ensures SweeperHarmless(SweepStep(cfg, s, a), SweepStep(cfg, s, a).sweepers[p])
  {
    hide MarkedStale, KeyCleared, IsStale;
    assert SweepStep(cfg, s, a).published == s.published && SweepStep(cfg, s, a).clock == s.clock;
    if a.StartSweep? && a.p == p { ExpiredRowsHaveExpired(cfg, s, a.now); }
    hide RowsDescribe, ExpiredRows;
  }

  lemma ExpiredRowsHaveExpired(cfg: Config, s: System, now: int)
    requires RowsDescribe(cfg, s)
    ensures forall e :: e in ExpiredRows(s.rows, now) ==> HasExpired(s, e, now)
  {
  }

  lemma SweepKeepsProcesses(cfg: Config, s: System, a: SweepAction)
    requires SweepEnabled(s, a) && Invariant(cfg, s)
    ensures ProcessesHarmless(cfg, SweepStep(cfg, s, a))
  {
    var t := SweepStep(cfg, s, a);
    SweepOnlyDeletes(cfg, s, a);
    StillDeletersAndDownloads(cfg, s, t);
    hide DeleterHarmless, DownloadMatches, SweeperHarmless, KeysOwned, SweepStep, SweepEnabled, ContentsKept, RowsDescribe,
      OnlyDeletes;
    forall p | p in t.sweepers ensures SweeperHarmless(t, t.sweepers[p]) { SweeperStays(cfg, s, a, p); }
  }

  lemma StillDeletersAndDownloads(cfg: Config, s: System, t: System)
    requires ProcessesHarmless(cfg, s) && KeysOwned(s) && OnlyDeletes(s, t) && t.rows.Keys <= s.rows.Keys
    requires t.deleters == s.deleters && t.downloads == s.downloads
    ensures forall p :: p in t.deleters ==> DeleterHarmless(cfg, t, t.deleters[p])
    ensures forall p :: p in t.downloads ==> DownloadMatches(cfg, t, t.downloads[p])
  {
    assert HistoryGrows(s, t);
    hide DeleterHarmless, DownloadMatches, SweeperHarmless, KeysOwned, HistoryGrows, OnlyDeletes;
    forall p | p in t.deleters ensures DeleterHarmless(cfg, t, t.deleters[p]) { DeleterLasts(cfg, s, t, s.deleters[p]); }
    forall p | p in t.downloads ensures DownloadMatches(cfg, t, t.downloads[p]) { DownloadLasts(cfg, s, t, s.downloads[p]); }
  }

  lemma ProcessesStayHarmless(cfg: Config, s: System, step: Step)
    requires Enabled(s, step) && Invariant(cfg, s)
    ensures ProcessesHarmless(cfg, Apply(cfg, s, step))
  {
    assert s.rows.Keys <= s.usedIds;
    var t := Apply(cfg, s, step);
    KeysAndContentsStay(cfg, s, step);
    forall id | id in t.rows && id !in s.rows ensures id !in s.usedIds { RowsFollow(cfg, s, step, id); }
    assert NoRowReturns(s, t);
    hide OnlyDeletes, KeysOwned, ContentsKept, HistoryGrows, TableStep, AttemptStep, UserStep, SweepStep, RowsDescribe,
      ReconcileStep, TableEnabled, AttemptEnabled, UserEnabled, SweepEnabled, ReconcileEnabled, ProcessesHarmless, NoRowReturns;
    match step {
      case Generate(a) => AttemptKeeps(cfg, s, a); StillProcessesHarmless(cfg, s, t);
      case Table(a) => TableOnlyDeletes(s, a); StillProcessesHarmless(cfg, s, t);
      case User(a) => UserKeepsProcesses(cfg, s, a);
      case Sweep(a) => SweepKeepsProcesses(cfg, s, a);
      case Reconcile(a) => ReconcileOnlyDeletes(cfg, s, a); StillProcessesHarmless(cfg, s, t);
    }
  }

  // ---------- over every run ----------

  lemma StepKeepsInvariant(cfg: Config, s: System, step: Step)
    requires Enabled(s, step) && Invariant(cfg, s)
    ensures Invariant(cfg, Apply(cfg, s, step)) && HistoryGrows(s, Apply(cfg, s, step))
  {
    KeysAndContentsStay(cfg, s, step);
    RowsStayDescribed(cfg, s, step);
    ProcessesStayHarmless(cfg, s, step);
    hide KeysOwned, ContentsKept, RowsDescribe, ProcessesHarmless, HistoryGrows, Apply, Enabled;
  }

  lemma {:induction false} RunKeepsInvariant(cfg: Config, s: System, steps: seq<Step>)
    requires IsRun(cfg, s, steps) && Invariant(cfg, s)
    ensures Invariant(cfg, End(cfg, s, steps)) && HistoryGrows(s, End(cfg, s, steps))
    decreases |steps|
  {
    hide Apply, Enabled, Invariant;
    if steps == [] {
    } else {
      StepKeepsInvariant(cfg, s, steps[0]);
      RunKeepsInvariant(cfg, Apply(cfg, s, steps[0]), steps[1..]);
    }
  }

  lemma StartIsSafe(cfg: Config, clock: int)
    ensures Invariant(cfg, Start(clock))
  {
  }

  ghost predicate IsReachable(cfg: Config, s: System) {
    exists clock :: Leads(cfg, Start(clock), s)
  }

  /** Every reachable state keeps the invariant, whatever the interleaving and the timing. */
  lemma ReachableIsSafe(cfg: Config, s: System)
    requires IsReachable(cfg, s)
    ensures Invariant(cfg, s)
  {
    hide Invariant;
    var clock :| Leads(cfg, Start(clock), s);
    var steps :| IsRun(cfg, Start(clock), steps) && End(cfg, Start(clock), steps) == s;
    StartIsSafe(cfg, clock);
    RunKeepsInvariant(cfg, Start(clock), steps);
  }

  // ---------- what users see ----------

  lemma NoTwoRowsShareAKey(cfg: Config, s: System, i: string, j: string)
    requires IsReachable(cfg, s) && i in s.rows && j in s.rows && i != j
    ensures s.rows[i].storageKey.Some? ==> s.rows[i].storageKey != s.rows[j].storageKey
  {
    hide IsReachable;
    ReachableIsSafe(cfg, s);
    hide KeysOwned, ContentsKept, ProcessesHarmless;
    assert RowDescribes(cfg, s, i) && RowDescribes(cfg, s, j);
  }

  /** Downloaded bytes hash to the checksum, and have the size, of the row that was read. */
  lemma DownloadsAreIntact(cfg: Config, s: System, p: nat)
    requires IsReachable(cfg, s) && p in s.downloads && s.downloads[p].Got?
    ensures s.downloads[p].row.checksum == Some(cfg.sha256(s.downloads[p].bytes))
    ensures s.downloads[p].row.sizeBytes == Some(|s.downloads[p].bytes|)
  {
    hide IsReachable;
    ReachableIsSafe(cfg, s);
    hide KeysOwned, ContentsKept, RowsDescribe;
    assert DownloadMatches(cfg, s, s.downloads[p]);
  }

  /** How a row may change over any number of steps. */
  predicate Progresses(before: ExportRow, after: ExportRow) {
    && (after.status == Preparing ==> before.status == Preparing)
    && (before.status != Preparing && after.storageKey != before.storageKey ==> after.storageKey.None?)
    && (before.storageKey.Some? ==> before.status != Preparing)
    && (before.status == Failed ==> after.status == Failed && after.storageKey == before.storageKey)
    && (before.status != Preparing ==>
          after.sizeBytes == before.sizeBytes && after.checksum == before.checksum && after.expiresAt == before.expiresAt)
  }

  lemma RowStepProgresses(cfg: Config, s: System, t: System, id: string)
    requires id in s.rows && id in t.rows && RowFollows(cfg, s, t, id) && RowDescribes(cfg, s, id)
    ensures Progresses(s.rows[id], t.rows[id])
  {
    hide DescribesPublication;
  }

  /**
   * Over any run a row never returns to `preparing`, a failed row stays failed with its key, and
   * the key of a row that has left `preparing` can only stay or go, so it is set at most once.
   */
  lemma {:induction false} RowsProgress(cfg: Config, s: System, steps: seq<Step>, id: string)
    requires IsRun(cfg, s, steps) && Invariant(cfg, s)
    requires id in s.rows && id in End(cfg, s, steps).rows
    ensures Progresses(s.rows[id], End(cfg, s, steps).rows[id])
    decreases |steps|
  {
    hide Apply, Enabled, RowFollows, KeysOwned, ContentsKept, ProcessesHarmless, DescribesPublication;
    assert RowDescribes(cfg, s, id);
    if steps == [] {
    } else {
      var t := Apply(cfg, s, steps[0]);
      StepKeepsInvariant(cfg, s, steps[0]);
      RowIdsUsed(s);
      if id in t.rows {
        RowsFollow(cfg, s, steps[0], id);
        RowStepProgresses(cfg, s, t, id);
        RowsProgress(cfg, t, steps[1..], id);
      } else {
        GoneForGood(cfg, t, steps[1..], id);
      }
    }
  }

  lemma RowIdsUsed(s: System)
    requires KeysOwned(s)
    ensures s.rows.Keys <= s.usedIds
  {
  }

  /** A deleted row's id is never used again. */
  lemma {:induction false} GoneForGood(cfg: Config, s: System, steps: seq<Step>, id: string)
    requires IsRun(cfg, s, steps) && Invariant(cfg, s) && id in s.usedIds && id !in s.rows
    ensures id !in End(cfg, s, steps).rows
    decreases |steps|
  {
    hide Apply, Enabled, KeysOwned, ContentsKept, ProcessesHarmless, RowsDescribe;
    if steps == [] {
    } else {
      var t := Apply(cfg, s, steps[0]);
      StepKeepsInvariant(cfg, s, steps[0]);
      RowIdsUsed(s);
      if id in t.rows { RowsFollow(cfg, s, steps[0], id); }
      GoneForGood(cfg, t, steps[1..], id);
    }
  }

  /** So a row that is dropped with its account never comes back. */
  lemma DroppedForGood(cfg: Config, s: System, id: string, steps: seq<Step>)
    requires Invariant(cfg, s) && id in s.rows && IsRun(cfg, s, [Table(DropRow(id))] + steps)
    ensures id !in End(cfg, s, [Table(DropRow(id))] + steps).rows
  {
    var step := Table(DropRow(id));
    assert ([step] + steps)[0] == step && ([step] + steps)[1..] == steps;
    StepKeepsInvariant(cfg, s, step);
    RowIdsUsed(s);
    var t := Apply(cfg, s, step);
    assert id in t.usedIds && id !in t.rows;
    hide Apply, Invariant;
    GoneForGood(cfg, t, steps, id);
  }
}
