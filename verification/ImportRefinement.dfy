/** The import service's operations as uninterrupted runs of the review's steps. */
module ImportRefinement {
  import opened ImportCandidates
  import opened ImportReview
  import opened ImportService

  /** The row `UpdateRawTransaction` makes of an edit is the one the steps write. */
  lemma EditIsARun(cfg: ImportConfig, s: System, p: nat, statementId: string, rawId: string, edit: Edit)
    requires p !in s.editors && rawId in s.rows && s.rows[rawId].statementId == statementId
    ensures var rows := s.rows[rawId := Edited(cfg, s.rows[rawId], s.rows[rawId], edit)];
      var ready := forall id <- rows :: rows[id].statementId == statementId ==> rows[id].status in {Valid, Excluded};
      Leads(cfg, s, s.(rows := rows, statements := WithStatus(s.statements, statementId, StatusFor(ready))))
  {
    hide Leads, Edited, IsReady, WithStatus;
    var edited := Edited(cfg, s.rows[rawId], s.rows[rawId], edit);
    EditKeepsStatement(cfg, s.rows[rawId], edit);
    WritesTheRow(cfg, s, p, statementId, rawId, edit);
    var s2 := s.(rows := s.rows[rawId := edited], editors := s.editors[p := RowWritten(statementId)]);
    var ready := IsReady(s2.rows, statementId);
    ReadyMeans(s2.rows, statementId, rawId);
    var s3 := s2.(editors := s.editors[p := Counted(statementId, ready)]);
    LeadsNext(cfg, s, s2, CountRemaining(p));
    assert Apply(cfg, s2, CountRemaining(p)) == s3 by { assert s2.editors[p := Counted(statementId, ready)] == s3.editors; }
    LeadsNext(cfg, s, s3, WriteStatus(p));
    assert s3.editors - {p} == s.editors;
  }

  lemma WritesTheRow(cfg: ImportConfig, s: System, p: nat, statementId: string, rawId: string, edit: Edit)
    requires p !in s.editors && rawId in s.rows && s.rows[rawId].statementId == statementId
    ensures var edited := Edited(cfg, s.rows[rawId], s.rows[rawId], edit);
      Leads(cfg, s, s.(rows := s.rows[rawId := edited], editors := s.editors[p := RowWritten(statementId)]))
  {
    hide Leads, Edited;
    LeadsNowhere(cfg, s);
    var row := s.rows[rawId];
    var s1 := s.(editors := s.editors[p := RowLoaded(statementId, rawId, row, edit)]);
    LeadsNext(cfg, s, s, LoadRow(p, statementId, rawId, edit));
    var s2 := s.(rows := s.rows[rawId := Edited(cfg, row, row, edit)], editors := s.editors[p := RowWritten(statementId)]);
    LeadsNext(cfg, s, s1, WriteRow(p));
    assert Apply(cfg, s1, WriteRow(p)) == s2 by { assert s1.editors[p := RowWritten(statementId)] == s2.editors; }
  }

  lemma EditKeepsStatement(cfg: ImportConfig, row: RawRow, edit: Edit)
    ensures Edited(cfg, row, row, edit).statementId == row.statementId
  {
  }

  /** Whenever `ConfirmImport` succeeds, the review's steps can commit the same transactions. */
  lemma ConfirmationIsARun(
    cfg: ImportConfig, s: System, p: nat, statementId: string, confirmMismatch: bool, order: seq<string>)
    requires p !in s.confirmers && statementId in s.statements
    requires CanConfirm(s.statements[statementId], RowsOf(s.rows, statementId), s.transactions, confirmMismatch)
    requires ListsValid(order, RowsOf(s.rows, statementId))
    ensures (forall id <- order :: id in RowsOf(s.rows, statementId))
    ensures Leads(cfg, s, s.(
      transactions := s.transactions + Inserted(RowsOf(s.rows, statementId), order),
      statements := WithStatus(s.statements, statementId, Imported)))
  {
    hide Leads, NoneImported, Inserted, ListsValid, WithStatus;
    var own := RowsOf(s.rows, statementId);
    UnimportedRows(s, statementId, order);
    ReadsForConfirmation(cfg, s, p, statementId, confirmMismatch);
    hide RowsOf, Backs, NoneBlocking;
    var s2 := s.(confirmers := s.confirmers[p := RowsRead(statementId, own)]);
    LeadsNext(cfg, s, s2, Commit(p, order));
    assert s2.confirmers - {p} == s.confirmers;
  }

  lemma UnimportedRows(s: System, statementId: string, order: seq<string>)
    requires NoneImported(s.transactions, RowsOf(s.rows, statementId)) && ListsValid(order, RowsOf(s.rows, statementId))
    ensures ConstraintsAllow(s, order) && forall id <- order :: id in RowsOf(s.rows, statementId)
  {
    hide Backs;
  }

  lemma ReadsForConfirmation(cfg: ImportConfig, s: System, p: nat, statementId: string, confirmMismatch: bool)
    requires p !in s.confirmers && statementId in s.statements
    requires s.statements[statementId].status == Ready && IsSettled(s.statements[statementId].source)
    requires s.statements[statementId].mismatch ==> confirmMismatch
    requires NoneBlocking(RowsOf(s.rows, statementId))
    ensures Leads(cfg, s, s.(confirmers := s.confirmers[p := RowsRead(statementId, RowsOf(s.rows, statementId))]))
  {
    var own := RowsOf(s.rows, statementId);
    assert forall id <- own :: s.rows[id].status !in Blocking();
    hide Leads, NoneBlocking, RowsOf;
    LeadsNowhere(cfg, s);
    var s1 := s.(confirmers := s.confirmers[p := StatementRead(statementId)]);
    LeadsNext(cfg, s, s, StartConfirm(p, statementId, confirmMismatch));
    var s2 := s.(confirmers := s.confirmers[p := RowsRead(statementId, own)]);
    LeadsNext(cfg, s, s1, ReadRows(p));
    assert Apply(cfg, s1, ReadRows(p)) == s2 by {
      assert s1.confirmers[p := RowsRead(statementId, own)] == s2.confirmers;
    }
  }
}
