/** The import service over one user's statements, rows and transactions, each operation uninterrupted. */
module ImportService {
  import opened Wrappers
  import opened ImportCandidates
  import opened ImportReview

  datatype ImportError =
    | NoSuchImport | NoSuchRow | SourceIncomplete | MismatchUnconfirmed | RowsBlocked | RowAlreadyImported | ImportChanged | RowsInUse
    | RepeatedSourceRow

  // ---------- rows in source order ----------

  function InsertBySource(rows: map<string, RawRow>, id: string, order: seq<string>): (result: seq<string>)
    requires id in rows && forall x <- order :: x in rows
    ensures forall x :: x in result <==> x == id || x in order
  {
    if order == [] then [id]
    else
      assert order[0] in order && order == [order[0]] + order[1..];
      if rows[id].sourceRow <= rows[order[0]].sourceRow then [id] + order
      else [order[0]] + InsertBySource(rows, id, order[1..])
  }

  ghost predicate SourceOrdered(rows: map<string, RawRow>, order: seq<string>)
    requires forall x <- order :: x in rows
  {
    forall i, j :: 0 <= i < j < |order| ==> rows[order[i]].sourceRow <= rows[order[j]].sourceRow
  }

  lemma {:induction false} InsertKeepsDistinct(rows: map<string, RawRow>, id: string, order: seq<string>)
    requires id in rows && id !in order && (forall x <- order :: x in rows) && NoRepeats(order)
    ensures NoRepeats(InsertBySource(rows, id, order))
  {
    if order != [] && rows[id].sourceRow > rows[order[0]].sourceRow {
      assert forall x <- order[1..] :: x in order;
      InsertKeepsDistinct(rows, id, order[1..]);
      var rest := InsertBySource(rows, id, order[1..]);
      forall i | 0 <= i < |rest| ensures rest[i] != order[0] {
        assert rest[i] in rest;
      }
    }
  }

  lemma {:induction false} InsertKeepsSource(rows: map<string, RawRow>, id: string, order: seq<string>)
    requires id in rows && (forall x <- order :: x in rows) && SourceOrdered(rows, order)
    ensures SourceOrdered(rows, InsertBySource(rows, id, order))
  {
    if order == [] {
    } else if rows[id].sourceRow <= rows[order[0]].sourceRow {
      forall x | x in order ensures rows[order[0]].sourceRow <= rows[x].sourceRow { HeadIsLeast(rows, order, x); }
    } else {
      assert forall x <- order[1..] :: x in order;
      InsertKeepsSource(rows, id, order[1..]);
      var rest := InsertBySource(rows, id, order[1..]);
      forall x | x in rest ensures rows[order[0]].sourceRow <= rows[x].sourceRow {
        if x != id { HeadIsLeast(rows, order, x); }
      }
      ConsKeepsSource(rows, order[0], rest);
    }
  }

  lemma HeadIsLeast(rows: map<string, RawRow>, order: seq<string>, x: string)
    requires x in order && (forall y <- order :: y in rows) && SourceOrdered(rows, order)
    ensures rows[order[0]].sourceRow <= rows[x].sourceRow
  {
  }

  lemma ConsKeepsSource(rows: map<string, RawRow>, id: string, rest: seq<string>)
    requires id in rows && (forall x <- rest :: x in rows && rows[id].sourceRow <= rows[x].sourceRow)
    requires SourceOrdered(rows, rest)
    ensures SourceOrdered(rows, [id] + rest)
  {
  }

  /** The valid rows by source row. */
  method ValidInOrder(rows: map<string, RawRow>) returns (order: seq<string>)
    ensures ListsValid(order, rows)
  {
    order := [];
    var pending := set id | id in rows && rows[id].status == Valid;
    while pending != {}
      invariant forall id :: id in pending ==> id in rows && rows[id].status == Valid && id !in order
      invariant forall id :: id in rows && rows[id].status == Valid ==> id in pending || id in order
      invariant forall id <- order :: id in rows && rows[id].status == Valid
      invariant NoRepeats(order) && SourceOrdered(rows, order)
      decreases pending
    {
      var id :| id in pending;
      pending := pending - {id};
      InsertKeepsDistinct(rows, id, order);
      InsertKeepsSource(rows, id, order);
      order := InsertBySource(rows, id, order);
    }
  }

  // ---------- the service ----------

  predicate NoneBlocking(rows: map<string, RawRow>) { forall id <- rows :: rows[id].status !in Blocking() }

  /** None of the statement's valid rows has been imported. */
  predicate NoneImported(transactions: seq<Transaction>, rows: map<string, RawRow>) {
    forall id <- rows :: rows[id].status == Valid ==> !Backs(transactions, id)
  }

  predicate CanConfirm(statement: Statement, own: map<string, RawRow>, transactions: seq<Transaction>, confirmMismatch: bool) {
    statement.status == Ready && IsSettled(statement.source) && (statement.mismatch ==> confirmMismatch)
    && NoneBlocking(own) && NoneImported(transactions, own)
  }

  function FromStatement(transactions: seq<Transaction>, statementId: string): nat {
    if transactions == [] then 0
    else
      FromStatement(transactions[..|transactions| - 1], statementId)
      + if transactions[|transactions| - 1].statementId == statementId then 1 else 0
  }

  /** The fingerprints of every transaction and of the rows of every other statement. */
  function History(rows: map<string, RawRow>, transactions: seq<Transaction>, statementId: string): set<string> {
    (set t | t in transactions && t.fingerprint != "" :: t.fingerprint)
    + (set id | id in rows && rows[id].statementId != statementId && rows[id].fingerprint != "" :: rows[id].fingerprint)
  }

  /** The row an edit makes of the row just read. */
  method Revise(cfg: ImportConfig, current: RawRow, edit: Edit) returns (row: RawRow)
    ensures row == Edited(cfg, current, current, edit)
    ensures row.statementId == current.statementId
    ensures row.status == Valid ==> IsImportable(row.fields)
    ensures edit.Save? ==>
      && row.fields == Stored(cfg, Corrected(current.fields, edit))
      && row.status == (if IsImportable(Corrected(current.fields, edit)) then Valid else NeedsReview)
      && row.fingerprint == cfg.Fingerprint(Corrected(current.fields, edit))
      && row == current.(fields := row.fields, status := row.status, fingerprint := row.fingerprint)
    ensures !edit.Save? ==> row == current.(status := if edit.Exclude? then Excluded else NeedsReview)
  {
    hide IsImportable, Stored, Corrected;
    match edit {
      case Exclude => row := current.(status := Excluded);
      case Restore => row := current.(status := NeedsReview);
      case Save(_, _, _, _, _) =>
        var next := Corrected(current.fields, edit);
        var warnings := ValidateImportCandidate(next);
        if warnings == [] { StoringKeepsImportable(cfg, next); }
        row := RawRow(current.statementId, current.sourceRow, Stored(cfg, next), if |warnings| > 0 then NeedsReview else Valid,
                      cfg.Fingerprint(next), current.duplicate);
    }
  }

  class ImportService {
    const cfg: ImportConfig
    var statements: map<string, Statement>
    var rows: map<string, RawRow>
    var transactions: seq<Transaction>

    constructor (cfg: ImportConfig)
      ensures this.cfg == cfg && statements == map[] && rows == map[] && transactions == []
    {
      this.cfg, statements, rows, transactions := cfg, map[], map[], [];
    }

    ghost predicate Sound()
      reads this
    {
      ValidRowsImportable(rows) && TransactionsSound(transactions, rows)
    }

    predicate Owns(statementId: string, rawId: string)
      reads this
    {
      rawId in rows && rows[rawId].statementId == statementId
    }

    /**
     * Applies an edit. A saved row is valid exactly when its corrected fields are importable; the
     * statement is ready exactly when every one of its rows is now valid or excluded.
     */
    method UpdateRawTransaction(statementId: string, rawId: string, edit: Edit) returns (result: Result<RawRow, ImportError>)
      requires Sound()
      modifies this
      ensures Sound() && transactions == old(transactions)
      ensures result == Err(NoSuchRow) <==> !old(Owns(statementId, rawId))
      ensures result.Err? ==> result == Err(NoSuchRow) && rows == old(rows) && statements == old(statements)
      ensures result.Ok? ==> rows == old(rows)[rawId := result.value]
      ensures result.Ok? ==> result.value == Edited(cfg, old(rows)[rawId], old(rows)[rawId], edit)
      ensures result.Ok? && edit.Save? ==>
        var was, saved := old(rows)[rawId].fields, result.value.fields;
        var next := Fields(
          if edit.bookingDate == None then was.bookingDate else edit.bookingDate.value,
          if edit.description == None then was.description
          else if edit.description.value == None then "" else edit.description.value.value,
          if edit.amount == None then was.amount else edit.amount.value,
          if edit.currency == None then was.currency else edit.currency.value,
          if edit.direction == None then was.direction else edit.direction.value);
        && saved.bookingDate == next.bookingDate && saved.description == next.description
        && saved.amount == StoredAmount(cfg, next.amount) && saved.currency == next.currency && saved.direction == next.direction
        && (result.value.status == Valid <==> IsImportable(next)) && (result.value.status == NeedsReview <==> !IsImportable(next))
        && result.value.fingerprint == cfg.Fingerprint(next)
        && result.value == old(rows)[rawId].(fields := saved, status := result.value.status, fingerprint := result.value.fingerprint)
      ensures result.Ok? && !edit.Save? ==>
        result.value == old(rows)[rawId].(status := if edit.Exclude? then Excluded else NeedsReview)
      ensures result.Ok? && statementId in old(statements) ==>
        statements == old(statements)[statementId := old(statements)[statementId].(status :=
          if forall id <- rows :: rows[id].statementId == statementId ==> rows[id].status in {Valid, Excluded}
          then Ready else StatementNeedsReview)]
      ensures result.Ok? && statementId !in old(statements) ==> statements == old(statements)
    {
      hide IsImportable, IsComplete, StoredAmount, SourcesUnique, IsReady, Edited;
      if !Owns(statementId, rawId) { return Err(NoSuchRow); }
      var row := Revise(cfg, rows[rawId], edit);
      rows := rows[rawId := row];
      ReadyMeans(rows, statementId, rawId);
      var ready := IsReady(rows, statementId);
      statements := WithStatus(statements, statementId, StatusFor(ready));
      return Ok(row);
    }

    /**
     * Confirms a statement in one transaction: it succeeds exactly when the statement is ready, its
     * workbook source is settled, no row blocks it, a mismatch is accepted and none of its valid rows has been imported before;
     * then each valid row becomes one transaction. Otherwise nothing changes.
     */
    method ConfirmImport(statementId: string, confirmMismatch: bool) returns (result: Result<nat, ImportError>)
      requires Sound()
      modifies this
      ensures Sound() && rows == old(rows)
      ensures statementId !in old(statements) ==> result == Err(NoSuchImport)
      ensures statementId in old(statements) && old(statements)[statementId].status == Imported ==>
        result == Ok(FromStatement(old(transactions), statementId)) && statements == old(statements) && transactions == old(transactions)
      ensures statementId in old(statements) && old(statements)[statementId].status != Imported ==>
        (result.Ok? <==>
          CanConfirm(old(statements)[statementId], RowsOf(old(rows), statementId), old(transactions), confirmMismatch))
      ensures statementId in old(statements) && old(statements)[statementId].status != Imported ==>
        (result.Ok? <==>
          var statement := old(statements)[statementId];
          && statement.status == Ready && (!statement.mismatch || confirmMismatch)
          && (statement.source == PlainFile
              || (statement.source.selected != None && statement.source.mapped == statement.source.selected))
          && (forall id <- rows :: rows[id].statementId == statementId ==> rows[id].status in {Valid, Excluded})
          && (forall id <- rows, t <- old(transactions) ::
                rows[id].statementId == statementId && rows[id].status == Valid ==> t.source != id))
      ensures result.Err? ==> statements == old(statements) && transactions == old(transactions)
      ensures result.Ok? && old(statements)[statementId].status != Imported ==>
        && statements == old(statements)[statementId := old(statements)[statementId].(status := Imported)]
        && Confirmed(old(transactions), transactions, RowsOf(old(rows), statementId), result.value)
        && old(transactions) <= transactions && result.value == |transactions| - |old(transactions)|
        && AreValidRows(transactions[|old(transactions)|..], rows, statementId)
    {
      hide IsImportable, IsComplete, ListsValid, SourcesUnique, FromStatement, NoneBlocking, Backs, Inserted, NoneImported;
      if statementId !in statements { return Err(NoSuchImport); }
      var statement := statements[statementId];
      if statement.status == Imported {
        return Ok(FromStatement(transactions, statementId));
      }
      if !IsSettled(statement.source) { return Err(SourceIncomplete); }
      if statement.mismatch && !confirmMismatch { return Err(MismatchUnconfirmed); }
      var own := RowsOf(rows, statementId);
      ConfirmableMeans(rows, transactions, statementId);
      if !NoneBlocking(own) { return Err(RowsBlocked); }
      var order := ValidInOrder(own);
      ListedAreOwn(own, order);
      var added := [];
      NothingInserted(own);
      for i := 0 to |order|
        modifies {}
        invariant added == Inserted(own, order[..i])
        invariant forall id <- order[..i] :: !Backs(transactions, id)
      {
        OneMoreInserted(own, order, i);
        InsertedSourcesAre(own, order, i);
        if Backs(transactions, order[i]) || Backs(added, order[i]) {
          SomeImported(transactions, own, order, i);
          return Err(RowAlreadyImported);
        }
        added := added + [TransactionOf(order[i], own[order[i]])];
      }
      assert order[..|order|] == order;
      AllUnimported(transactions, own, order);
      if statement.status != Ready { return Err(ImportChanged); }
      InsertingKeepsSound(statements, rows, transactions, statementId, order);
      transactions := transactions + added;
      statements := statements[statementId := statement.(status := Imported)];
      result := Ok(|order|);
      assert IsConfirmedBy(old(transactions), transactions, own, order);
      InsertedAreValidRows(rows, statementId, order);
      assert transactions[|old(transactions)|..] == added;
    }

    /** Replaces the statement's rows by the parser's, unless they back transactions or repeat a source row. */
    method PersistParserResult(
      statementId: string, candidates: seq<Candidate>, accountCurrency: Option<string>, mismatch: bool, source: Source,
      ids: seq<string>)
      returns (result: Result<ProcessingStatus, ImportError>)
      requires Sound() && statementId in statements
      requires |ids| == |candidates| && NoRepeats(ids) && forall id <- ids :: id !in rows
      modifies this
      ensures Sound() && transactions == old(transactions)
      ensures result.Err? ==> rows == old(rows) && statements == old(statements)
      ensures result == Err(RowsInUse) <==> InUse(old(rows), transactions, statementId)
      ensures result == Err(RepeatedSourceRow) <==> !InUse(old(rows), transactions, statementId) && RepeatsSourceRow(candidates)
      ensures result == Err(RowsInUse) <==>
        exists t <- transactions :: t.source in old(rows) && old(rows)[t.source].statementId == statementId
      ensures result == Err(RepeatedSourceRow) ==>
        exists i, j :: 0 <= i < j < |candidates| && candidates[i].sourceRow == candidates[j].sourceRow
      ensures result.Ok? ==> forall i, j :: 0 <= i < j < |candidates| ==> candidates[i].sourceRow != candidates[j].sourceRow
      ensures result.Ok? ==>
        Replaced(cfg, old(rows), transactions, statementId, candidates, accountCurrency, ids, rows)
        && statements == old(statements)[statementId := Statement(result.value, mismatch, source)]
        && (result.value == Ready <==> AllValid(rows, ids)) && (result.value == ProcessingFailed <==> candidates == [])
        && DuplicatesWereKnown(old(rows), transactions, rows, statementId, ids)
    {
      hide IsImportable, IsComplete, RowFor, SourcesUnique, InUse, RepeatsSourceRow, PersistedRows, Replaced, AllValid, DuplicatesWereKnown;
      var history := History(rows, transactions, statementId);
      var parsed, status := ImportCandidates.PersistParserResult(cfg, history, candidates, accountCurrency, statementId);
      RefusalsMean(rows, transactions, statementId, candidates);
      if InUse(rows, transactions, statementId) { return Err(RowsInUse); }
      if RepeatsSourceRow(candidates) { return Err(RepeatedSourceRow); }
      var r := ParserResult(history, candidates, accountCurrency, mismatch, source, ids, parsed);
      var before := System(statements, rows, transactions, map[], map[], rows.Keys);
      ReplacingKeepsSound(cfg, before, statementId, r);
      ReplacedRowsAre(cfg, before, statementId, r);
      rows := PersistedRows(before, statementId, r);
      statements := statements[statementId := Statement(status, mismatch, source)];
      ReplacedDuplicates(cfg, old(rows), transactions, statementId, candidates, accountCurrency, ids, rows);
      return Ok(status);
    }
  }

  /** The statement's rows are now the parser's, under the given ids; other rows stay. */
  ghost predicate Replaced(
    cfg: ImportConfig, before: map<string, RawRow>, transactions: seq<Transaction>, statementId: string,
    candidates: seq<Candidate>, accountCurrency: Option<string>, ids: seq<string>, after: map<string, RawRow>)
  {
    && |ids| == |candidates| && after.Keys == (set id | id in before && before[id].statementId != statementId) + (set id | id in ids)
    && (forall id :: id in before && before[id].statementId != statementId ==> after[id] == before[id])
    && (forall id :: id in ids ==> id in after)
    && (forall i :: 0 <= i < |ids| ==>
          RowFor(cfg, History(before, transactions, statementId), candidates, i, accountCurrency, statementId, after[ids[i]]))
  }

  /** The row's fingerprint is that of a transaction, of another statement's row or of an earlier new row. */
  ghost predicate WasKnown(
    before: map<string, RawRow>, transactions: seq<Transaction>, after: map<string, RawRow>, statementId: string, ids: seq<string>,
    i: nat)
    requires i < |ids| && forall id <- ids :: id in after
  {
    var digest := after[ids[i]].fingerprint;
    || (digest != "" && exists t <- transactions :: t.fingerprint == digest)
    || (digest != "" && exists id <- before :: before[id].statementId != statementId && before[id].fingerprint == digest)
    || (exists j :: 0 <= j < i && after[ids[j]].fingerprint == digest)
  }

  ghost predicate DuplicatesWereKnown(
    before: map<string, RawRow>, transactions: seq<Transaction>, after: map<string, RawRow>, statementId: string, ids: seq<string>)
  {
    (forall id <- ids :: id in after)
    && forall i :: 0 <= i < |ids| ==>
         (after[ids[i]].status == DuplicateCandidate <==> WasKnown(before, transactions, after, statementId, ids, i))
  }

  lemma HistoryMeans(rows: map<string, RawRow>, transactions: seq<Transaction>, statementId: string, digest: string)
    ensures digest in History(rows, transactions, statementId) <==>
      || (digest != "" && exists t <- transactions :: t.fingerprint == digest)
      || (digest != "" && exists id <- rows :: rows[id].statementId != statementId && rows[id].fingerprint == digest)
  {
  }

  function NewRows(after: map<string, RawRow>, ids: seq<string>): seq<RawRow>
    requires forall id <- ids :: id in after
  {
    seq(|ids|, k requires 0 <= k < |ids| => after[ids[k]])
  }

  lemma ReplacedArePersisted(
    cfg: ImportConfig, before: map<string, RawRow>, transactions: seq<Transaction>, statementId: string,
    candidates: seq<Candidate>, accountCurrency: Option<string>, ids: seq<string>, after: map<string, RawRow>)
    requires Replaced(cfg, before, transactions, statementId, candidates, accountCurrency, ids, after)
    ensures forall id <- ids :: id in after
    ensures PersistedAs(
      cfg, History(before, transactions, statementId), candidates, accountCurrency, statementId, NewRows(after, ids))
  {
    hide RowFor, History;
  }

  lemma ReplacedDuplicates(
    cfg: ImportConfig, before: map<string, RawRow>, transactions: seq<Transaction>, statementId: string,
    candidates: seq<Candidate>, accountCurrency: Option<string>, ids: seq<string>, after: map<string, RawRow>)
    requires Replaced(cfg, before, transactions, statementId, candidates, accountCurrency, ids, after)
    ensures DuplicatesWereKnown(before, transactions, after, statementId, ids)
  {
    ReplacedArePersisted(cfg, before, transactions, statementId, candidates, accountCurrency, ids, after);
    hide Replaced, PersistedAs, History;
    forall i | 0 <= i < |ids|
      ensures after[ids[i]].status == DuplicateCandidate <==> WasKnown(before, transactions, after, statementId, ids, i)
    {
      var rows := NewRows(after, ids);
      DuplicateIff(cfg, History(before, transactions, statementId), candidates, accountCurrency, statementId, rows, i);
      HistoryMeans(before, transactions, statementId, rows[i].fingerprint);
      assert forall j :: 0 <= j <= i ==> rows[j] == after[ids[j]];
    }
  }

  predicate AllValid(rows: map<string, RawRow>, ids: seq<string>) {
    ids != [] && forall id <- ids :: id in rows && rows[id].status == Valid
  }

  // ---------- what the methods rely on ----------

  lemma ReadyMeans(rows: map<string, RawRow>, statementId: string, rawId: string)
    requires rawId in rows && rows[rawId].statementId == statementId
    ensures IsReady(rows, statementId) <==>
      forall id <- rows :: rows[id].statementId == statementId ==> rows[id].status in {Valid, Excluded}
  {
    var own := RowsOf(rows, statementId);
    assert rawId in own;
    if IsReady(rows, statementId) {
      forall id | id in rows && rows[id].statementId == statementId ensures rows[id].status in {Valid, Excluded} {
        assert id in own;
      }
    }
  }

  ghost predicate IsConfirmedBy(before: seq<Transaction>, after: seq<Transaction>, own: map<string, RawRow>, order: seq<string>) {
    ListsValid(order, own) && after == before + Inserted(own, order)
  }

  /** The transactions have grown by one for each valid row, in source order. */
  ghost predicate Confirmed(before: seq<Transaction>, after: seq<Transaction>, own: map<string, RawRow>, count: nat) {
    exists order :: IsConfirmedBy(before, after, own, order) && |order| == count
  }

  /** New transactions: one for each valid row of the statement, with the row's fields, by source row. */
  ghost predicate AreValidRows(added: seq<Transaction>, rows: map<string, RawRow>, statementId: string) {
    && (forall t <- added ::
          && t.source in rows && rows[t.source].statementId == statementId && rows[t.source].status == Valid
          && CarriesRow(t, t.source, rows[t.source]))
    && (forall id <- rows :: rows[id].statementId == statementId && rows[id].status == Valid ==> Backs(added, id))
    && (forall i, j :: 0 <= i < j < |added| ==>
          added[i].source != added[j].source
          && (added[i].source in rows && added[j].source in rows ==>
                rows[added[i].source].sourceRow <= rows[added[j].source].sourceRow))
  }

  lemma InsertedCarry(rows: map<string, RawRow>, statementId: string, order: seq<string>, k: nat)
    requires ListsValid(order, RowsOf(rows, statementId)) && ValidRowsImportable(rows) && k < |order|
    ensures var t := Inserted(RowsOf(rows, statementId), order)[k];
      && t.source == order[k] && order[k] in rows && rows[order[k]].statementId == statementId
      && rows[order[k]].status == Valid && CarriesRow(t, order[k], rows[order[k]])
  {
    assert order[k] in order;
  }

  lemma InsertedBack(rows: map<string, RawRow>, statementId: string, order: seq<string>, id: string)
    requires ListsValid(order, RowsOf(rows, statementId)) && ValidRowsImportable(rows)
    requires id in rows && rows[id].statementId == statementId && rows[id].status == Valid
    ensures Backs(Inserted(RowsOf(rows, statementId), order), id)
  {
    assert id in RowsOf(rows, statementId);
    var k :| 0 <= k < |order| && order[k] == id;
    assert Inserted(RowsOf(rows, statementId), order)[k].source == id;
  }

  lemma InsertedAreValidRows(rows: map<string, RawRow>, statementId: string, order: seq<string>)
    requires ListsValid(order, RowsOf(rows, statementId)) && ValidRowsImportable(rows)
    ensures AreValidRows(Inserted(RowsOf(rows, statementId), order), rows, statementId)
  {
    var own := RowsOf(rows, statementId);
    var added := Inserted(own, order);
    forall k | 0 <= k < |added|
      ensures added[k].source == order[k] && order[k] in rows && rows[order[k]].statementId == statementId
      ensures rows[order[k]].status == Valid && CarriesRow(added[k], order[k], rows[order[k]])
    {
      InsertedCarry(rows, statementId, order, k);
    }
    forall id <- rows | rows[id].statementId == statementId && rows[id].status == Valid ensures Backs(added, id) {
      InsertedBack(rows, statementId, order, id);
    }
    hide Inserted, ValidRowsImportable, CarriesRow, Backs;
  }

  /** The two tests on the statement's rows, in terms of the whole table. */
  lemma ConfirmableMeans(rows: map<string, RawRow>, transactions: seq<Transaction>, statementId: string)
    ensures NoneBlocking(RowsOf(rows, statementId)) <==>
      forall id <- rows :: rows[id].statementId == statementId ==> rows[id].status in {Valid, Excluded}
    ensures NoneImported(transactions, RowsOf(rows, statementId)) <==>
      forall id <- rows, t <- transactions ::
        rows[id].statementId == statementId && rows[id].status == Valid ==> t.source != id
  {
    var own := RowsOf(rows, statementId);
    assert forall id <- rows :: rows[id].statementId == statementId ==> id in own && own[id] == rows[id];
    assert forall status: ReviewStatus :: status !in Blocking() <==> status in {Valid, Excluded} by { BlockingAreTheOthers(); }
  }

  lemma BlockingAreTheOthers()
    ensures forall status: ReviewStatus :: status !in Blocking() <==> status in {Valid, Excluded}
  {
    forall status: ReviewStatus ensures status !in Blocking() <==> status in {Valid, Excluded} {
      match status case Valid => case NeedsReview => case Invalid => case Excluded => case DuplicateCandidate =>
    }
  }

  lemma ListedAreOwn(own: map<string, RawRow>, order: seq<string>)
    requires ListsValid(order, own)
    ensures forall id <- order :: id in own
  {
  }

  lemma NothingInserted(own: map<string, RawRow>)
    ensures Inserted(own, []) == []
  {
  }

  lemma OneMoreInserted(own: map<string, RawRow>, order: seq<string>, i: nat)
    requires i < |order| && forall id <- order :: id in own
    ensures order[i] in own && order[..i + 1] == order[..i] + [order[i]]
    ensures forall id <- order[..i + 1] :: id in own
    ensures forall id <- order[..i] :: id in own
    ensures Inserted(own, order[..i + 1]) == Inserted(own, order[..i]) + [TransactionOf(order[i], own[order[i]])]
  {
    assert order[..i + 1][..i] == order[..i];
  }

  lemma InsertedSourcesAre(own: map<string, RawRow>, order: seq<string>, i: nat)
    requires i < |order| && (forall id <- order :: id in own) && ListsValid(order, own)
    requires forall id <- order[..i] :: id in own
    ensures !Backs(Inserted(own, order[..i]), order[i])
  {
    var ts := Inserted(own, order[..i]);
    forall k | 0 <= k < |ts| ensures ts[k].source != order[i] {
      assert order[..i][k] == order[k];
    }
  }

  lemma SomeImported(transactions: seq<Transaction>, own: map<string, RawRow>, order: seq<string>, i: nat)
    requires i < |order| && ListsValid(order, own) && Backs(transactions, order[i])
    ensures !NoneImported(transactions, own)
  {
    hide Backs;
    assert order[i] in order;
  }

  lemma AllUnimported(transactions: seq<Transaction>, own: map<string, RawRow>, order: seq<string>)
    requires ListsValid(order, own) && forall id <- order :: !Backs(transactions, id)
    ensures NoneImported(transactions, own)
  {
    hide Backs;
  }

  /** The uninterrupted confirmation is a commit of what it has just read. */
  lemma InsertingKeepsSound(
    statements: map<string, Statement>, rows: map<string, RawRow>, transactions: seq<Transaction>, statementId: string,
    order: seq<string>)
    requires ValidRowsImportable(rows) && TransactionsSound(transactions, rows)
    requires ListsValid(order, RowsOf(rows, statementId)) && NoneBlocking(RowsOf(rows, statementId))
    requires forall id <- order :: !Backs(transactions, id)
    ensures (forall id <- order :: id in RowsOf(rows, statementId))
    ensures SourcesUnique(transactions + Inserted(RowsOf(rows, statementId), order))
    ensures forall t <- transactions + Inserted(RowsOf(rows, statementId), order) :: IsComplete(t) && t.source in rows
  {
    var own := RowsOf(rows, statementId);
    var s := System(statements, rows, transactions, map[], map[0 := RowsRead(statementId, own)], rows.Keys);
    assert SnapshotSound(statementId, own) by { hide IsImportable; }
    hide IsImportable, IsComplete, SourcesUnique, Backs, SnapshotSound, ValidRowsImportable;
    assert ConstraintsAllow(s, order);
    hide ListsValid;
    assert TransactionsSound(s.transactions, s.rows) && ConfirmersSound(s) && IdsUsed(s);
    CommitKeepsTransactions(s, 0, order);
  }

  /** A row of the statement backs a transaction, so the foreign key forbids deleting it. */
  predicate InUse(rows: map<string, RawRow>, transactions: seq<Transaction>, statementId: string) {
    exists t <- transactions :: t.source in rows && rows[t.source].statementId == statementId
  }

  predicate RepeatsSourceRow(cs: seq<Candidate>) {
    exists i, j :: 0 <= i < j < |cs| && cs[i].sourceRow == cs[j].sourceRow
  }

  lemma RefusalsMean(rows: map<string, RawRow>, transactions: seq<Transaction>, statementId: string, cs: seq<Candidate>)
    ensures InUse(rows, transactions, statementId) <==>
      exists t <- transactions :: t.source in rows && rows[t.source].statementId == statementId
    ensures RepeatsSourceRow(cs) <==> exists i, j :: 0 <= i < j < |cs| && cs[i].sourceRow == cs[j].sourceRow
  {
  }

  lemma CanPersistNow(cfg: ImportConfig, s: System, id: string, r: ParserResult)
    requires id in s.statements && !InUse(s.rows, s.transactions, id) && !RepeatsSourceRow(r.candidates)
    requires PersistedAs(cfg, r.history, r.candidates, r.accountCurrency, id, r.rows)
    requires |r.ids| == |r.rows| && NoRepeats(r.ids) && s.rows.Keys <= s.usedIds && forall raw <- r.ids :: raw !in s.usedIds
    ensures CanPersist(cfg, s, id, r)
  {
    hide IsImportable, SeenBefore, Stored;
    forall i, j | 0 <= i < j < |r.rows| ensures r.rows[i].sourceRow != r.rows[j].sourceRow {
      assert RowFor(cfg, r.history, r.candidates, i, r.accountCurrency, id, r.rows[i]);
      assert RowFor(cfg, r.history, r.candidates, j, r.accountCurrency, id, r.rows[j]);
    }
  }

  lemma ReplacingKeepsSound(cfg: ImportConfig, s: System, id: string, r: ParserResult)
    requires id in s.statements && !InUse(s.rows, s.transactions, id) && !RepeatsSourceRow(r.candidates)
    requires PersistedAs(cfg, r.history, r.candidates, r.accountCurrency, id, r.rows)
    requires |r.ids| == |r.rows| && NoRepeats(r.ids) && s.rows.Keys <= s.usedIds && forall raw <- r.ids :: raw !in s.usedIds
    requires ValidRowsImportable(s.rows) && TransactionsSound(s.transactions, s.rows)
    ensures ValidRowsImportable(PersistedRows(s, id, r))
    ensures forall t <- s.transactions :: t.source in PersistedRows(s, id, r)
  {
    hide InUse, RepeatsSourceRow, PersistedAs, ValidRowsImportable, TransactionsSound, PersistedRows, CanPersist, NoRepeats;
    CanPersistNow(cfg, s, id, r);
    PersistKeepsRows(cfg, s, id, r);
    PersistKeepsSources(cfg, s, id, r);
  }

  lemma ReplacedRowsAre(cfg: ImportConfig, s: System, id: string, r: ParserResult)
    requires PersistedAs(cfg, r.history, r.candidates, r.accountCurrency, id, r.rows)
    requires r.history == History(s.rows, s.transactions, id)
    requires |r.ids| == |r.rows| && NoRepeats(r.ids) && s.rows.Keys <= s.usedIds && forall raw <- r.ids :: raw !in s.usedIds
    ensures Replaced(cfg, s.rows, s.transactions, id, r.candidates, r.accountCurrency, r.ids, PersistedRows(s, id, r))
    ensures AllValid(PersistedRows(s, id, r), r.ids) <==> r.rows != [] && forall row <- r.rows :: row.status == Valid
  {
    hide RowFor, History, PersistedRows;
    PersistedRowsAre(s, id, r);
    var rows := PersistedRows(s, id, r);
    if AllValid(rows, r.ids) {
      forall i | 0 <= i < |r.rows| ensures r.rows[i].status == Valid { assert r.ids[i] in r.ids; }
    }
    if r.rows != [] && forall row <- r.rows :: row.status == Valid {
      forall raw | raw in r.ids ensures raw in rows && rows[raw].status == Valid {
        var i :| 0 <= i < |r.ids| && r.ids[i] == raw;
        assert r.rows[i] in r.rows;
      }
    }
  }

  function IndicesFrom(transactions: seq<Transaction>, statementId: string): set<nat> {
    set i | 0 <= i < |transactions| && transactions[i].statementId == statementId
  }

  /** What a repeated confirmation reports is the number of the statement's transactions. */
  lemma {:induction false} FromStatementCounts(transactions: seq<Transaction>, statementId: string)
    ensures FromStatement(transactions, statementId) == |IndicesFrom(transactions, statementId)|
  {
    if transactions != [] {
      var n := |transactions| - 1;
      var before := IndicesFrom(transactions[..n], statementId);
      FromStatementCounts(transactions[..n], statementId);
      assert IndicesFrom(transactions, statementId)
          == before + if transactions[n].statementId == statementId then {n} else {};
    } else {
      assert IndicesFrom(transactions, statementId) == {};
    }
  }
}
