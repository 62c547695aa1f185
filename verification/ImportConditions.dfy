/** Exactly when the import review keeps a statement imported, a ready statement reviewed and an excluded row out. */
module ImportConditions {
  import opened Wrappers
  import opened ImportCandidates
  import opened ImportReview

  // ---------- when `imported` lasts ----------

  predicate IsImported(s: System, id: string) { id in s.statements && s.statements[id].status == Imported }

  /** The writers that set a statement's status without looking at it. */
  predicate Reopens(s: System, step: Step, id: string) {
    match step
    case WriteStatus(p) => p in s.editors && s.editors[p].statementId == id
    case SetStatus(other, _, _) => other == id
    case Persist(other, _) => other == id
    case _ => false
  }

  /** An imported statement stops being imported exactly at those steps. */
  lemma LeavesImportedIff(cfg: ImportConfig, s: System, step: Step, id: string)
    requires Enabled(cfg, s, step) && IsImported(s, id)
    ensures !IsImported(Apply(cfg, s, step), id) <==> Reopens(s, step, id)
  {
    hide CanPersist, PersistedRows, RowUpdated, ListsValid, ConstraintsAllow, IsReady, Inserted, RowsOf;
  }

  ghost predicate ImportedThroughout(cfg: ImportConfig, s: System, steps: seq<Step>, id: string)
    requires IsRun(cfg, s, steps)
    decreases |steps|
  {
    IsImported(s, id) && (steps == [] || ImportedThroughout(cfg, Apply(cfg, s, steps[0]), steps[1..], id))
  }

  ghost predicate NeverReopened(cfg: ImportConfig, s: System, steps: seq<Step>, id: string)
    requires IsRun(cfg, s, steps)
    decreases |steps|
  {
    steps == [] || (!Reopens(s, steps[0], id) && NeverReopened(cfg, Apply(cfg, s, steps[0]), steps[1..], id))
  }

  /** So over any run it stays imported exactly if none of them occurs. */
  lemma {:induction false} StaysImportedIff(cfg: ImportConfig, s: System, steps: seq<Step>, id: string)
    requires IsRun(cfg, s, steps) && IsImported(s, id)
    ensures ImportedThroughout(cfg, s, steps, id) <==> NeverReopened(cfg, s, steps, id)
    decreases |steps|
  {
    hide Apply, Enabled, Reopens, IsImported;
    if steps == [] {
    } else {
      var t := Apply(cfg, s, steps[0]);
      LeavesImportedIff(cfg, s, steps[0], id);
      if IsImported(t, id) { StaysImportedIff(cfg, t, steps[1..], id); }
    }
  }

  // ---------- when `ready` means reviewed ----------

  predicate IsMarkedReady(s: System, id: string) { id in s.statements && s.statements[id].status == Ready }

  /** A statement marked ready has only valid and excluded rows, and at least one. */
  predicate ReadyIsTrue(s: System, id: string) { IsMarkedReady(s, id) ==> IsReady(s.rows, id) }

  /** The two steps that can make it untrue: a row write that unsettles its row, and a status from an outdated count. */
  predicate Misleads(cfg: ImportConfig, s: System, step: Step, id: string) {
    match step
    case WriteRow(p) =>
      LoadedBy(s, p) && IsMarkedReady(s, id) && s.editors[p].rawId in s.rows && s.rows[s.editors[p].rawId].statementId == id
      && Edited(cfg, s.rows[s.editors[p].rawId], s.editors[p].row, s.editors[p].edit).status == NeedsReview
    case WriteStatus(p) =>
      p in s.editors && s.editors[p].Counted? && s.editors[p].statementId == id && id in s.statements
      && s.editors[p].ready && !IsReady(s.rows, id)
    case _ => false
  }

  lemma EditedStatus(cfg: ImportConfig, row: RawRow, read: RawRow, e: Edit)
    ensures Edited(cfg, row, read, e).status in {Valid, Excluded, NeedsReview}
    ensures Edited(cfg, row, read, e).status == Excluded <==> e.Exclude?
    ensures Edited(cfg, row, read, e).statementId == row.statementId
  {
    hide IsImportable, Stored, Corrected;
  }

  /** Changing one row keeps other statements' rows. */
  lemma OtherStatementsKept(rows: map<string, RawRow>, raw: string, row: RawRow, id: string)
    requires raw in rows && row.statementId == rows[raw].statementId != id
    ensures IsReady(rows[raw := row], id) == IsReady(rows, id)
  {
    assert RowsOf(rows[raw := row], id) == RowsOf(rows, id);
  }

  lemma OneRowChanges(rows: map<string, RawRow>, raw: string, row: RawRow, id: string)
    requires raw in rows && row.statementId == rows[raw].statementId == id && IsReady(rows, id)
    ensures IsReady(rows[raw := row], id) <==> row.status in {Valid, Excluded}
  {
    var before, after := RowsOf(rows, id), RowsOf(rows[raw := row], id);
    assert after == before[raw := row];
    assert raw in after;
  }

  lemma WriteMisleadsIff(cfg: ImportConfig, s: System, p: nat, id: string)
    requires LoadedBy(s, p) && ReadyIsTrue(s, id)
    ensures var t := Apply(cfg, s, WriteRow(p)); !ReadyIsTrue(t, id) <==> Misleads(cfg, s, WriteRow(p), id)
  {
    hide Edited, IsReady;
    var e := s.editors[p];
    if e.rawId in s.rows {
      var row := s.rows[e.rawId];
      var edited := Edited(cfg, row, e.row, e.edit);
      EditedStatus(cfg, row, e.row, e.edit);
      if row.statementId != id {
        OtherStatementsKept(s.rows, e.rawId, edited, id);
      } else if IsReady(s.rows, id) {
        OneRowChanges(s.rows, e.rawId, edited, id);
      }
    }
  }

  lemma PersistReadsTrue(cfg: ImportConfig, s: System, id: string, r: ParserResult, other: string)
    requires CanPersist(cfg, s, id, r) && s.rows.Keys <= s.usedIds && (other != id ==> ReadyIsTrue(s, other))
    ensures ReadyIsTrue(Apply(cfg, s, Persist(id, r)), other)
  {
    hide PersistedAs, IsReady, PersistedRows;
    if other != id {
      PersistKeepsReady(cfg, s, id, r, other);
    } else if r.rows != [] && forall row <- r.rows :: row.status == Valid {
      AllValidIsReady(cfg, s, id, r);
    }
  }

  lemma AllValidIsReady(cfg: ImportConfig, s: System, id: string, r: ParserResult)
    requires CanPersist(cfg, s, id, r) && s.rows.Keys <= s.usedIds
    requires r.rows != [] && forall row <- r.rows :: row.status == Valid
    ensures IsReady(PersistedRows(s, id, r), id)
  {
    hide PersistedAs, PersistedRows;
    PersistedOwners(cfg, s, id, r);
    assert r.ids[0] in r.ids;
    assert r.ids[0] in RowsOf(PersistedRows(s, id, r), id);
  }

  /** After a parser result the statement's rows are the parser's and the others are as before. */
  lemma PersistedOwners(cfg: ImportConfig, s: System, id: string, r: ParserResult)
    requires CanPersist(cfg, s, id, r) && s.rows.Keys <= s.usedIds
    ensures var rows := PersistedRows(s, id, r);
      && (forall raw :: raw in rows && rows[raw].statementId == id ==> rows[raw] in r.rows)
      && (forall raw :: raw in s.rows && s.rows[raw].statementId != id ==> raw in rows && rows[raw] == s.rows[raw])
      && (forall raw :: raw in rows && rows[raw].statementId != id ==> raw in s.rows && s.rows[raw].statementId != id)
      && (forall raw :: raw in r.ids ==> raw in rows && rows[raw].statementId == id)
  {
    hide PersistedAs, PersistedRows;
    PersistedRowsAre(s, id, r);
    var rows := PersistedRows(s, id, r);
    forall raw | raw in r.ids ensures raw in rows && rows[raw].statementId == id && rows[raw] in r.rows {
      var i :| 0 <= i < |r.ids| && r.ids[i] == raw;
      RowsOwnStatement(cfg, r, id, i);
    }
  }

  lemma RowsOwnStatement(cfg: ImportConfig, r: ParserResult, id: string, i: nat)
    requires PersistedAs(cfg, r.history, r.candidates, r.accountCurrency, id, r.rows) && i < |r.rows|
    ensures r.rows[i].statementId == id
  {
    hide SeenBefore, IsImportable, Stored;
    assert RowFor(cfg, r.history, r.candidates, i, r.accountCurrency, id, r.rows[i]);
  }

  /** From a state in which `ready` is true it becomes untrue exactly at those two steps. */
  lemma BecomesMisleadingIff(cfg: ImportConfig, s: System, step: Step, id: string)
    requires Enabled(cfg, s, step) && IdsUsed(s) && ReadyIsTrue(s, id)
    ensures !ReadyIsTrue(Apply(cfg, s, step), id) <==> Misleads(cfg, s, step, id)
  {
    hide IsReady, CanPersist, RowUpdated, Edited, PersistedRows, PersistedStatus, ListsValid, ConstraintsAllow, Inserted, RowsOf;
    match step {
      case WriteRow(p) => WriteMisleadsIff(cfg, s, p, id);
      case Persist(other, r) => PersistReadsTrue(cfg, s, other, r, id);
      case _ =>
    }
  }

  ghost predicate TrueThroughout(cfg: ImportConfig, s: System, steps: seq<Step>, id: string)
    requires IsRun(cfg, s, steps)
    decreases |steps|
  {
    ReadyIsTrue(s, id) && (steps == [] || TrueThroughout(cfg, Apply(cfg, s, steps[0]), steps[1..], id))
  }

  ghost predicate NeverMisleads(cfg: ImportConfig, s: System, steps: seq<Step>, id: string)
    requires IsRun(cfg, s, steps)
    decreases |steps|
  {
    steps == [] || (!Misleads(cfg, s, steps[0], id) && NeverMisleads(cfg, Apply(cfg, s, steps[0]), steps[1..], id))
  }

  /** Over any run `ready` stays true exactly if neither of the two steps occurs. */
  lemma {:induction false} ReadyStaysTrueIff(cfg: ImportConfig, s: System, steps: seq<Step>, id: string)
    requires IsRun(cfg, s, steps) && Invariant(s) && ReadyIsTrue(s, id)
    ensures TrueThroughout(cfg, s, steps, id) <==> NeverMisleads(cfg, s, steps, id)
    decreases |steps|
  {
    hide Apply, Enabled, Misleads, ReadyIsTrue, ValidRowsImportable, ConfirmersSound, TransactionsSound, IdsUsed;
    if steps == [] {
    } else {
      var t := Apply(cfg, s, steps[0]);
      BecomesMisleadingIff(cfg, s, steps[0], id);
      StepKeepsInvariant(cfg, s, steps[0]);
      if ReadyIsTrue(t, id) { ReadyStaysTrueIff(cfg, t, steps[1..], id); }
    }
  }

  // ---------- orderly edits ----------

  /** An edit of the statement has counted its rows and not yet written its status. */
  ghost predicate IsCounted(s: System, id: string) {
    exists p :: p in s.editors && s.editors[p].Counted? && s.editors[p].statementId == id
  }

  /** An edit of the statement has written a row and not yet the status. */
  ghost predicate IsOpen(s: System, id: string) {
    exists p :: p in s.editors && !s.editors[p].RowLoaded? && s.editors[p].statementId == id
  }

  /** Edits of a statement do not overlap between count and status, and do not stop between row and status. */
  ghost predicate IsOrderly(s: System, step: Step) {
    match step
    case WriteRow(p) => p in s.editors ==> !IsCounted(s, s.editors[p].statementId)
    case Persist(id, _) => !IsCounted(s, id)
    case StopEdit(p) => p in s.editors ==> s.editors[p].RowLoaded?
    case _ => true
  }

  ghost predicate IsOrderlyRun(cfg: ImportConfig, s: System, steps: seq<Step>)
    requires IsRun(cfg, s, steps)
    decreases |steps|
  {
    steps == [] || (IsOrderly(s, steps[0]) && IsOrderlyRun(cfg, Apply(cfg, s, steps[0]), steps[1..]))
  }

  /** Counts are up to date, and only an open edit can leave `ready` untrue. */
  ghost predicate CountsCurrent(s: System) {
    forall p :: p in s.editors && s.editors[p].Counted? ==> s.editors[p].ready == IsReady(s.rows, s.editors[p].statementId)
  }

  ghost predicate TrueUnlessOpen(s: System) { forall id :: ReadyIsTrue(s, id) || IsOpen(s, id) }

  lemma CountsStayCurrent(cfg: ImportConfig, s: System, step: Step)
    requires Enabled(cfg, s, step) && IdsUsed(s) && CountsCurrent(s) && IsOrderly(s, step)
    ensures CountsCurrent(Apply(cfg, s, step))
  {
    var t := Apply(cfg, s, step);
    forall p | p in t.editors && t.editors[p].Counted? ensures t.editors[p].ready == IsReady(t.rows, t.editors[p].statementId) {
      CountStaysCurrent(cfg, s, step, p);
      hide Apply, Enabled;
    }
  }

  lemma CountStaysCurrent(cfg: ImportConfig, s: System, step: Step, p: nat)
    requires Enabled(cfg, s, step) && IdsUsed(s) && CountsCurrent(s) && IsOrderly(s, step)
    requires p in Apply(cfg, s, step).editors && Apply(cfg, s, step).editors[p].Counted?
    ensures var t := Apply(cfg, s, step); t.editors[p].ready == IsReady(t.rows, t.editors[p].statementId)
  {
    hide IsReady, CanPersist, RowUpdated, PersistedRows, PersistedStatus, ListsValid, ConstraintsAllow, Inserted, RowsOf, IsOpen;
    match step {
      case WriteRow(q) =>
        assert p != q && IsCounted(s, s.editors[p].statementId);
        WriteKeepsReady(cfg, s, q, s.editors[p].statementId);
      case Persist(other, r) =>
        assert IsCounted(s, s.editors[p].statementId);
        PersistKeepsReady(cfg, s, other, r, s.editors[p].statementId);
      case _ =>
    }
  }

  lemma WriteKeepsReady(cfg: ImportConfig, s: System, q: nat, id: string)
    requires LoadedBy(s, q) && IdsUsed(s) && s.editors[q].statementId != id
    ensures IsReady(RowUpdated(cfg, s, s.editors[q]), id) == IsReady(s.rows, id)
  {
    hide IsReady, Edited;
    var e := s.editors[q];
    if e.rawId in s.rows {
      EditedStatus(cfg, s.rows[e.rawId], e.row, e.edit);
      OtherStatementsKept(s.rows, e.rawId, Edited(cfg, s.rows[e.rawId], e.row, e.edit), id);
    }
  }

  lemma PersistKeepsReady(cfg: ImportConfig, s: System, id: string, r: ParserResult, other: string)
    requires CanPersist(cfg, s, id, r) && s.rows.Keys <= s.usedIds && other != id
    ensures IsReady(PersistedRows(s, id, r), other) == IsReady(s.rows, other)
  {
    hide PersistedRows, PersistedAs;
    PersistedOwners(cfg, s, id, r);
    assert RowsOf(PersistedRows(s, id, r), other) == RowsOf(s.rows, other);
  }

  /** A step after which the edit of a statement is still open. */
  lemma StaysOpen(cfg: ImportConfig, s: System, step: Step, id: string)
    requires Enabled(cfg, s, step) && IsOrderly(s, step) && IsOpen(s, id)
    ensures IsOpen(Apply(cfg, s, step), id) || (step.WriteStatus? && s.editors[step.p].statementId == id)
  {
    hide IsReady, CanPersist, RowUpdated, PersistedRows, PersistedStatus, ListsValid, ConstraintsAllow, Inserted, RowsOf, IsCounted;
    var p :| p in s.editors && !s.editors[p].RowLoaded? && s.editors[p].statementId == id;
    if !(step.WriteStatus? && step.p == p) {
      var t := Apply(cfg, s, step);
      assert p in t.editors && !t.editors[p].RowLoaded? && t.editors[p].statementId == id;
    }
  }

  lemma StaysTrueUnlessOpen(cfg: ImportConfig, s: System, step: Step, id: string)
    requires Enabled(cfg, s, step) && IdsUsed(s) && CountsCurrent(s) && IsOrderly(s, step)
    requires ReadyIsTrue(s, id) || IsOpen(s, id)
    ensures ReadyIsTrue(Apply(cfg, s, step), id) || IsOpen(Apply(cfg, s, step), id)
  {
    var t := Apply(cfg, s, step);
    if step.WriteStatus? && s.editors[step.p].statementId == id {
      assert s.editors[step.p].ready == IsReady(s.rows, id);
      hide IsReady;
    } else if IsOpen(s, id) {
      StaysOpen(cfg, s, step, id);
    } else if Misleads(cfg, s, step, id) {
      WriterIsOpen(cfg, s, step, id);
    } else {
      BecomesMisleadingIff(cfg, s, step, id);
    }
  }

  lemma WriterIsOpen(cfg: ImportConfig, s: System, step: Step, id: string)
    requires Enabled(cfg, s, step) && IdsUsed(s) && Misleads(cfg, s, step, id) && step.WriteRow?
    ensures IsOpen(Apply(cfg, s, step), id)
  {
    hide Edited, RowUpdated;
    var t := Apply(cfg, s, step);
    assert step.p in t.editors && t.editors[step.p] == RowWritten(id);
  }

  lemma {:induction false} OrderlyRunKeeps(cfg: ImportConfig, s: System, steps: seq<Step>)
    requires IsRun(cfg, s, steps) && IsOrderlyRun(cfg, s, steps) && Invariant(s) && CountsCurrent(s) && TrueUnlessOpen(s)
    ensures TrueUnlessOpen(End(cfg, s, steps))
    decreases |steps|
  {
    hide Apply, Enabled, IsOrderly, ReadyIsTrue, IsOpen, CountsCurrent, ValidRowsImportable, ConfirmersSound, TransactionsSound,
      IdsUsed;
    if steps == [] {
    } else {
      var t := Apply(cfg, s, steps[0]);
      StepKeepsInvariant(cfg, s, steps[0]);
      CountsStayCurrent(cfg, s, steps[0]);
      forall id ensures ReadyIsTrue(t, id) || IsOpen(t, id) { StaysTrueUnlessOpen(cfg, s, steps[0], id); }
      OrderlyRunKeeps(cfg, t, steps[1..]);
    }
  }

  /**
   * After any run of orderly edits, whatever else is interleaved, a statement marked ready has only
   * valid and excluded rows, unless an edit of it has written its row and is about to write the status.
   */
  lemma OrderlyReadyIsTrue(cfg: ImportConfig, steps: seq<Step>, id: string)
    requires IsRun(cfg, EMPTY, steps) && IsOrderlyRun(cfg, EMPTY, steps)
    requires var s := End(cfg, EMPTY, steps); IsMarkedReady(s, id) && !IsOpen(s, id)
    ensures IsReady(End(cfg, EMPTY, steps).rows, id)
  {
    hide IsReady, IsOpen;
    EmptyIsSound();
    OrderlyRunKeeps(cfg, EMPTY, steps);
    assert ReadyIsTrue(End(cfg, EMPTY, steps), id);
  }

  // ---------- when an excluded row is imported ----------

  /** The last edit of a row that the run wrote. */
  ghost function LastEdit(cfg: ImportConfig, s: System, steps: seq<Step>, raw: string): Option<Edit>
    requires IsRun(cfg, s, steps)
    decreases |steps|
  {
    if steps == [] then None
    else
      var later := LastEdit(cfg, Apply(cfg, s, steps[0]), steps[1..], raw);
      if later.Some? then later
      else if Writes(s, steps[0], raw) then Some(s.editors[steps[0].p].edit) else None
  }

  predicate Writes(s: System, step: Step, raw: string) { step.WriteRow? && LoadedBy(s, step.p) && s.editors[step.p].rawId == raw }

  /** A row's status after a step: that of the edit written, or as before. */
  lemma StatusAfterStep(cfg: ImportConfig, s: System, step: Step, raw: string)
    requires Enabled(cfg, s, step) && IdsUsed(s) && raw in s.usedIds
    ensures var t := Apply(cfg, s, step);
      && raw in t.usedIds
      && (raw in t.rows ==> raw in s.rows)
      && (raw in t.rows && Writes(s, step, raw) ==> (t.rows[raw].status == Excluded <==> s.editors[step.p].edit.Exclude?))
      && (raw in t.rows && !Writes(s, step, raw) ==> t.rows[raw].status == s.rows[raw].status)
  {
    hide IsReady, PersistedStatus, ListsValid, ConstraintsAllow, Inserted, RowsOf, Edited, PersistedAs;
    if step.WriteRow? && s.editors[step.p].rawId in s.rows {
      var e := s.editors[step.p];
      EditedStatus(cfg, s.rows[e.rawId], e.row, e.edit);
    }
  }

  /** Over any run a row that is still there is excluded exactly if its last edit excluded it, or it was and had none. */
  lemma {:induction false} ExcludedIffLastEdit(cfg: ImportConfig, s: System, steps: seq<Step>, raw: string)
    requires IsRun(cfg, s, steps) && Invariant(s) && raw in s.usedIds && raw in End(cfg, s, steps).rows
    ensures raw in s.rows
    ensures End(cfg, s, steps).rows[raw].status == Excluded <==>
      LastEdit(cfg, s, steps, raw) == Some(Exclude)
      || (LastEdit(cfg, s, steps, raw).None? && s.rows[raw].status == Excluded)
    ensures LastEdit(cfg, s, steps, raw).None? ==> End(cfg, s, steps).rows[raw].status == s.rows[raw].status
    decreases |steps|
  {
    hide Apply, Enabled, Writes, ValidRowsImportable, ConfirmersSound, TransactionsSound, IdsUsed;
    if steps == [] {
    } else {
      var t := Apply(cfg, s, steps[0]);
      StepKeepsInvariant(cfg, s, steps[0]);
      StatusAfterStep(cfg, s, steps[0], raw);
      ExcludedIffLastEdit(cfg, t, steps[1..], raw);
    }
  }

  /** The confirmation neither commits nor stops during the run. */
  predicate IsWaiting(steps: seq<Step>, p: nat) {
    forall step <- steps :: step != StopConfirm(p) && !(step.Commit? && step.p == p)
  }

  lemma ConfirmerWaits(cfg: ImportConfig, s: System, step: Step, p: nat)
    requires Enabled(cfg, s, step) && p in s.confirmers && s.confirmers[p].RowsRead?
    requires step != StopConfirm(p) && !(step.Commit? && step.p == p)
    ensures p in Apply(cfg, s, step).confirmers && Apply(cfg, s, step).confirmers[p] == s.confirmers[p]
  {
    hide IsReady, CanPersist, RowUpdated, PersistedRows, PersistedStatus, ListsValid, ConstraintsAllow, Inserted, RowsOf;
  }

  lemma {:induction false} SnapshotWaits(cfg: ImportConfig, s: System, steps: seq<Step>, p: nat)
    requires IsRun(cfg, s, steps) && IsWaiting(steps, p) && p in s.confirmers && s.confirmers[p].RowsRead?
    ensures var t := End(cfg, s, steps); p in t.confirmers && t.confirmers[p] == s.confirmers[p]
    decreases |steps|
  {
    hide Apply, Enabled;
    if steps == [] {
    } else {
      ConfirmerWaits(cfg, s, steps[0], p);
      SnapshotWaits(cfg, Apply(cfg, s, steps[0]), steps[1..], p);
    }
  }

  /**
   * A commit imports a row that is excluded by then exactly if the last edit of the row written
   * between the confirmation's reading and its commit excluded it; unedited rows are still valid.
   */
  lemma CommitImportsExcludedIff(cfg: ImportConfig, s: System, p: nat, steps: seq<Step>, order: seq<string>, raw: string)
    requires IsReachable(cfg, s) && Enabled(cfg, s, ReadRows(p))
    requires IsRun(cfg, Apply(cfg, s, ReadRows(p)), steps) && IsWaiting(steps, p)
    requires Enabled(cfg, End(cfg, Apply(cfg, s, ReadRows(p)), steps), Commit(p, order)) && raw in order
    ensures var t := Apply(cfg, s, ReadRows(p));
      var u, last := End(cfg, t, steps), LastEdit(cfg, t, steps, raw);
      && raw in u.rows && (u.rows[raw].status == Excluded <==> last == Some(Exclude))
      && (last.None? ==> u.rows[raw].status == Valid)
  {
    var t := Apply(cfg, s, ReadRows(p));
    var u := End(cfg, t, steps);
    ReachableInvariant(cfg, s);
    StepKeepsInvariant(cfg, s, ReadRows(p));
    assert t.rows == s.rows && p in t.confirmers && t.confirmers[p] == RowsRead(s.confirmers[p].statementId, RowsOf(s.rows, s.confirmers[p].statementId));
    SnapshotWaits(cfg, t, steps, p);
    CommitReadsValid(cfg, u, p, order, raw);
    assert IdsUsed(t);
    hide Apply, Enabled, IsReachable, Invariant, LastEdit;
    ExcludedIffLastEdit(cfg, t, steps, raw);
  }

  lemma CommitReadsValid(cfg: ImportConfig, s: System, p: nat, order: seq<string>, raw: string)
    requires Enabled(cfg, s, Commit(p, order)) && raw in order
    ensures p in s.confirmers && s.confirmers[p].RowsRead? && raw in s.confirmers[p].rows
    ensures s.confirmers[p].rows[raw].status == Valid && raw in s.rows
  {
  }
}
