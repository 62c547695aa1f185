/**
 * Review and confirmation of imported statements as interleaved steps: parser results, row edits
 * in four separate writes and reads, confirmations, and every other writer of a statement's status.
 */
module ImportReview {
  import opened Wrappers
  import opened Ledger
  import opened Money
  import opened ImportCandidates

  datatype Sheet = Sheet(id: string, name: string, index: int)

  /** A workbook statement has the sheet that was selected and the one its mapping is for. */
  datatype Source = PlainFile | Workbook(selected: Option<Sheet>, mapped: Option<Sheet>)

  predicate IsSettled(source: Source) {
    source.Workbook? ==> source.selected.Some? && source.selected == source.mapped
  }

  datatype Statement = Statement(status: ProcessingStatus, mismatch: bool, source: Source)

  /** `None` leaves a field as it is; `Some(None)` clears it. */
  datatype Edit =
    | Save(bookingDate: Option<Option<string>>, description: Option<Option<string>>, amount: Option<Option<string>>,
           currency: Option<Option<string>>, direction: Option<Direction>)
    | Exclude
    | Restore

  datatype Transaction = Transaction(
    source: string, statementId: string, bookingDate: Option<string>, description: string, amount: Option<string>,
    currency: Option<string>, direction: Direction, fingerprint: string)

  datatype Editor =
    | RowLoaded(statementId: string, rawId: string, row: RawRow, edit: Edit)
    | RowWritten(statementId: string)
    | Counted(statementId: string, ready: bool)

  datatype Confirmer = StatementRead(statementId: string) | RowsRead(statementId: string, rows: map<string, RawRow>)

  /** `usedIds` are the ids ever given to rows; they are random, so none is given twice. */
  datatype System = System(
    statements: map<string, Statement>, rows: map<string, RawRow>, transactions: seq<Transaction>,
    editors: map<nat, Editor>, confirmers: map<nat, Confirmer>, usedIds: set<string>)

  const EMPTY := System(map[], map[], [], map[], map[], {})

  // ---------- edits ----------

  function Corrected(f: Fields, e: Edit): Fields
    requires e.Save?
  {
    Fields(
      e.bookingDate.GetOr(f.bookingDate), e.description.GetOr(Some(f.description)).GetOr(""), e.amount.GetOr(f.amount),
      e.currency.GetOr(f.currency), e.direction.GetOr(f.direction))
  }

  /** The row after an update that was computed from `read`, an earlier state of the row. */
  function Edited(cfg: ImportConfig, row: RawRow, read: RawRow, e: Edit): RawRow {
    match e
    case Exclude => row.(status := Excluded)
    case Restore => row.(status := NeedsReview)
    case Save(_, _, _, _, _) =>
      var next := Corrected(read.fields, e);
      row.(fields := Stored(cfg, next), status := if IsImportable(next) then Valid else NeedsReview,
           fingerprint := cfg.Fingerprint(next))
  }

  function RowsOf(rows: map<string, RawRow>, statementId: string): map<string, RawRow> {
    map id | id in rows && rows[id].statementId == statementId :: rows[id]
  }

  /** A statement is ready when it has rows and each is valid or excluded. */
  predicate IsReady(rows: map<string, RawRow>, statementId: string) {
    var own := RowsOf(rows, statementId);
    own != map[] && forall id <- own :: own[id].status in {Valid, Excluded}
  }

  function StatusFor(ready: bool): ProcessingStatus { if ready then Ready else StatementNeedsReview }

  function WithStatus(statements: map<string, Statement>, id: string, status: ProcessingStatus): map<string, Statement> {
    if id in statements then statements[id := statements[id].(status := status)] else statements
  }

  // ---------- confirmation ----------

  function Blocking(): set<ReviewStatus> { {NeedsReview, Invalid, DuplicateCandidate} }

  function TransactionOf(id: string, row: RawRow): Transaction {
    var f := row.fields;
    Transaction(id, row.statementId, f.bookingDate, f.description, f.amount, f.currency,
                if f.direction == Unknown then Debit else f.direction, row.fingerprint)
  }

  function Inserted(rows: map<string, RawRow>, order: seq<string>): (ts: seq<Transaction>)
    requires forall id <- order :: id in rows
    ensures |ts| == |order|
    ensures forall i :: 0 <= i < |order| ==> ts[i] == TransactionOf(order[i], rows[order[i]])
  {
    if order == [] then []
    else
      assert order[|order| - 1] in order;
      Inserted(rows, order[..|order| - 1]) + [TransactionOf(order[|order| - 1], rows[order[|order| - 1]])]
  }

  /** The valid rows, each once, by source row. */
  ghost predicate ListsValid(order: seq<string>, rows: map<string, RawRow>) {
    && NoRepeats(order)
    && (forall id :: id in order <==> id in rows && rows[id].status == Valid)
    && (forall i, j :: 0 <= i < j < |order| ==> rows[order[i]].sourceRow <= rows[order[j]].sourceRow)
  }

  predicate Backs(transactions: seq<Transaction>, id: string) { exists t <- transactions :: t.source == id }

  /** The foreign key and the unique index on the source row let these inserts through. */
  predicate ConstraintsAllow(s: System, order: seq<string>) {
    forall id <- order :: id in s.rows && !Backs(s.transactions, id)
  }

  // ---------- steps ----------

  datatype Step =
    | AddStatement(id: string, source: Source)
    | SetStatus(id: string, status: ProcessingStatus, source: Source)
    | Persist(id: string, parsed: ParserResult)
    | LoadRow(p: nat, statementId: string, rawId: string, edit: Edit)
    | WriteRow(p: nat)
    | CountRemaining(p: nat)
    | WriteStatus(p: nat)
    | StopEdit(p: nat)
    | StartConfirm(p: nat, statementId: string, confirmMismatch: bool)
    | ReadRows(p: nat)
    | Commit(p: nat, order: seq<string>)
    | StopConfirm(p: nat)

  /** A parser result with the fingerprints known when it was stored, the rows made of it and their new ids. */
  datatype ParserResult = ParserResult(
    history: set<string>, candidates: seq<Candidate>, accountCurrency: Option<string>, mismatch: bool, source: Source,
    ids: seq<string>, rows: seq<RawRow>)

  /** Old rows can be deleted, the new rows satisfy the unique index, and they are what the parser result says. */
  ghost predicate CanPersist(cfg: ImportConfig, s: System, id: string, r: ParserResult) {
    && id in s.statements
    && (forall t <- s.transactions :: t.source in s.rows ==> s.rows[t.source].statementId != id)
    && PersistedAs(cfg, r.history, r.candidates, r.accountCurrency, id, r.rows)
    && |r.ids| == |r.rows| && NoRepeats(r.ids) && (forall raw <- r.ids :: raw !in s.usedIds)
    && (forall i, j :: 0 <= i < j < |r.rows| ==> r.rows[i].sourceRow != r.rows[j].sourceRow)
  }

  function PersistedRows(s: System, id: string, r: ParserResult): map<string, RawRow>
    requires |r.ids| == |r.rows|
  {
    (map raw | raw in s.rows && s.rows[raw].statementId != id :: s.rows[raw])
    + map i | 0 <= i < |r.ids| && (forall j :: 0 <= j < |r.ids| && r.ids[j] == r.ids[i] ==> j == i) :: r.ids[i] := r.rows[i]
  }

  function PersistedStatus(rows: seq<RawRow>): ProcessingStatus {
    if rows == [] then ProcessingFailed else StatusFor(forall row <- rows :: row.status == Valid)
  }

  predicate LoadedBy(s: System, p: nat) { p in s.editors && s.editors[p].RowLoaded? }

  ghost predicate Enabled(cfg: ImportConfig, s: System, step: Step) {
    match step
    case AddStatement(id, _) => id !in s.statements
    case SetStatus(id, status, _) => id in s.statements && status != Ready && status != Imported
    case Persist(id, r) => CanPersist(cfg, s, id, r)
    case LoadRow(p, statementId, rawId, _) => p !in s.editors && rawId in s.rows && s.rows[rawId].statementId == statementId
    case WriteRow(p) => LoadedBy(s, p)
    case CountRemaining(p) => p in s.editors && s.editors[p].RowWritten?
    case WriteStatus(p) => p in s.editors && s.editors[p].Counted?
    case StopEdit(p) => p in s.editors
    case StartConfirm(p, id, confirmMismatch) =>
      p !in s.confirmers && id in s.statements && s.statements[id].status != Imported
      && IsSettled(s.statements[id].source) && (s.statements[id].mismatch ==> confirmMismatch)
    case ReadRows(p) =>
      p in s.confirmers && s.confirmers[p].StatementRead?
      && forall id <- RowsOf(s.rows, s.confirmers[p].statementId) :: s.rows[id].status !in Blocking()
    case Commit(p, order) =>
      p in s.confirmers && s.confirmers[p].RowsRead? && ListsValid(order, s.confirmers[p].rows) && ConstraintsAllow(s, order)
      && s.confirmers[p].statementId in s.statements && s.statements[s.confirmers[p].statementId].status == Ready
    case StopConfirm(p) => p in s.confirmers
  }

  function RowUpdated(cfg: ImportConfig, s: System, e: Editor): map<string, RawRow>
    requires e.RowLoaded?
  {
    if e.rawId in s.rows then s.rows[e.rawId := Edited(cfg, s.rows[e.rawId], e.row, e.edit)] else s.rows
  }

  ghost function Apply(cfg: ImportConfig, s: System, step: Step): System
    requires Enabled(cfg, s, step)
  {
    match step
    case AddStatement(id, source) => s.(statements := s.statements[id := Statement(Uploaded, false, source)])
    case SetStatus(id, status, source) => s.(statements := s.statements[id := s.statements[id].(status := status, source := source)])
    case Persist(id, r) =>
      s.(rows := PersistedRows(s, id, r), usedIds := s.usedIds + (set raw | raw in r.ids),
         statements := s.statements[id := Statement(PersistedStatus(r.rows), r.mismatch, r.source)])
    case LoadRow(p, statementId, rawId, edit) =>
      s.(editors := s.editors[p := RowLoaded(statementId, rawId, s.rows[rawId], edit)])
    case WriteRow(p) =>
      s.(rows := RowUpdated(cfg, s, s.editors[p]), editors := s.editors[p := RowWritten(s.editors[p].statementId)])
    case CountRemaining(p) =>
      var id := s.editors[p].statementId;
      s.(editors := s.editors[p := Counted(id, IsReady(s.rows, id))])
    case WriteStatus(p) =>
      var e := s.editors[p];
      s.(statements := WithStatus(s.statements, e.statementId, StatusFor(e.ready)), editors := s.editors - {p})
    case StopEdit(p) => s.(editors := s.editors - {p})
    case StartConfirm(p, id, _) => s.(confirmers := s.confirmers[p := StatementRead(id)])
    case ReadRows(p) =>
      var id := s.confirmers[p].statementId;
      s.(confirmers := s.confirmers[p := RowsRead(id, RowsOf(s.rows, id))])
    case Commit(p, order) =>
      var c := s.confirmers[p];
      s.(transactions := s.transactions + Inserted(c.rows, order),
         statements := WithStatus(s.statements, c.statementId, Imported), confirmers := s.confirmers - {p})
    case StopConfirm(p) => s.(confirmers := s.confirmers - {p})
  }

  // ---------- runs ----------

  ghost predicate IsRun(cfg: ImportConfig, s: System, steps: seq<Step>)
    decreases |steps|
  {
    steps == [] || (Enabled(cfg, s, steps[0]) && IsRun(cfg, Apply(cfg, s, steps[0]), steps[1..]))
  }

  ghost function End(cfg: ImportConfig, s: System, steps: seq<Step>): System
    requires IsRun(cfg, s, steps)
    decreases |steps|
  {
    if steps == [] then s else End(cfg, Apply(cfg, s, steps[0]), steps[1..])
  }

  /** Some run goes from `s` to `t`. */
  ghost predicate Leads(cfg: ImportConfig, s: System, t: System) {
    exists steps :: IsRun(cfg, s, steps) && End(cfg, s, steps) == t
  }

  lemma {:induction false} RunExtends(cfg: ImportConfig, s: System, steps: seq<Step>, step: Step)
    requires IsRun(cfg, s, steps) && Enabled(cfg, End(cfg, s, steps), step)
    ensures IsRun(cfg, s, steps + [step]) && End(cfg, s, steps + [step]) == Apply(cfg, End(cfg, s, steps), step)
    decreases |steps|
  {
    hide Apply, Enabled;
    if steps == [] {
      assert [step][1..] == [];
      assert steps + [step] == [step];
    } else {
      assert (steps + [step])[1..] == steps[1..] + [step];
      RunExtends(cfg, Apply(cfg, s, steps[0]), steps[1..], step);
    }
  }

  lemma LeadsNext(cfg: ImportConfig, s: System, t: System, step: Step)
    requires Leads(cfg, s, t) && Enabled(cfg, t, step)
    ensures Leads(cfg, s, Apply(cfg, t, step))
  {
    hide Apply, Enabled;
    var steps :| IsRun(cfg, s, steps) && End(cfg, s, steps) == t;
    RunExtends(cfg, s, steps, step);
  }

  lemma LeadsNowhere(cfg: ImportConfig, s: System)
    ensures Leads(cfg, s, s)
  {
    assert IsRun(cfg, s, []) && End(cfg, s, []) == s;
  }

  // ---------- the invariant ----------

  ghost predicate ValidRowsImportable(rows: map<string, RawRow>) {
    forall id :: id in rows && rows[id].status == Valid ==> IsImportable(rows[id].fields)
  }

  /** What a confirmation has read: importable rows and excluded ones, of its statement. */
  ghost predicate SnapshotSound(statementId: string, rows: map<string, RawRow>) {
    && ValidRowsImportable(rows)
    && (forall id :: id in rows ==> rows[id].statementId == statementId && rows[id].status in {Valid, Excluded})
  }

  ghost predicate ConfirmersSound(s: System) {
    forall p :: p in s.confirmers && s.confirmers[p].RowsRead? ==>
      SnapshotSound(s.confirmers[p].statementId, s.confirmers[p].rows)
  }

  /** No raw row backs two transactions. */
  ghost predicate SourcesUnique(ts: seq<Transaction>) {
    forall i, j :: 0 <= i < j < |ts| ==> ts[i].source != ts[j].source
  }

  predicate IsComplete(t: Transaction) {
    && t.bookingDate.Some? && t.bookingDate.value != "" && Trim(t.description) != ""
    && t.amount.Some? && IsSafeDecimalString(t.amount.value, false)
    && t.currency.Some? && IsCurrencyCode(t.currency.value) && t.direction != Unknown
  }

  ghost predicate TransactionsSound(transactions: seq<Transaction>, rows: map<string, RawRow>) {
    && SourcesUnique(transactions)
    && (forall t <- transactions :: IsComplete(t) && t.source in rows)
  }

  /** Ids in the table or in anyone's hands have been used, and a loaded row stays with its statement. */
  ghost predicate IdsUsed(s: System) {
    && s.rows.Keys <= s.usedIds
    && (forall p :: p in s.editors && s.editors[p].RowLoaded? ==>
          s.editors[p].rawId in s.usedIds
          && (s.editors[p].rawId in s.rows ==> s.rows[s.editors[p].rawId].statementId == s.editors[p].statementId))
  }

  ghost predicate Invariant(s: System) {
    ValidRowsImportable(s.rows) && ConfirmersSound(s) && TransactionsSound(s.transactions, s.rows) && IdsUsed(s)
  }

  // ---------- each step keeps it ----------

  lemma PersistedRowsAre(s: System, id: string, r: ParserResult)
    requires |r.ids| == |r.rows| && NoRepeats(r.ids) && s.rows.Keys <= s.usedIds && forall raw <- r.ids :: raw !in s.usedIds
    ensures var rows := PersistedRows(s, id, r);
      && rows.Keys == (set raw | raw in s.rows && s.rows[raw].statementId != id) + (set raw | raw in r.ids)
      && (forall raw :: raw in s.rows && s.rows[raw].statementId != id ==> rows[raw] == s.rows[raw])
      && (forall i :: 0 <= i < |r.ids| ==> r.ids[i] in rows && rows[r.ids[i]] == r.rows[i])
  {
    var rows := PersistedRows(s, id, r);
    forall i | 0 <= i < |r.ids| ensures r.ids[i] in rows && rows[r.ids[i]] == r.rows[i] {
      assert r.ids[i] in r.ids;
    }
  }

  lemma PersistKeepsRows(cfg: ImportConfig, s: System, id: string, r: ParserResult)
    requires CanPersist(cfg, s, id, r) && ValidRowsImportable(s.rows) && s.rows.Keys <= s.usedIds
    ensures ValidRowsImportable(PersistedRows(s, id, r))
  {
    hide IsImportable, RowFor, PersistedAs;
    var rows := PersistedRows(s, id, r);
    forall raw | raw in rows && rows[raw].status == Valid ensures IsImportable(rows[raw].fields) {
      if raw in r.ids {
        var i :| 0 <= i < |r.ids| && r.ids[i] == raw;
        StoredValidRowsAreImportable(cfg, r.history, r.candidates, r.accountCurrency, id, r.rows, i);
        assert rows[raw] == r.rows[i];
      } else {
        assert raw in s.rows && rows[raw] == s.rows[raw];
      }
    }
  }

  /** The rows that back transactions survive a new parser result. */
  lemma PersistKeepsSources(cfg: ImportConfig, s: System, id: string, r: ParserResult)
    requires CanPersist(cfg, s, id, r) && TransactionsSound(s.transactions, s.rows)
    ensures forall t <- s.transactions :: t.source in PersistedRows(s, id, r)
  {
    hide IsComplete, PersistedAs;
  }

  lemma EditKeepsRows(cfg: ImportConfig, s: System, e: Editor)
    requires e.RowLoaded? && ValidRowsImportable(s.rows)
    ensures ValidRowsImportable(RowUpdated(cfg, s, e)) && s.rows.Keys == RowUpdated(cfg, s, e).Keys
  {
    hide IsImportable, Stored, Corrected;
    if e.edit.Save? {
      var next := Corrected(e.row.fields, e.edit);
      if IsImportable(next) { StoringKeepsImportable(cfg, next); }
    }
  }

  lemma ImportableIsComplete(id: string, row: RawRow)
    requires IsImportable(row.fields)
    ensures IsComplete(TransactionOf(id, row)) && TransactionOf(id, row).direction == row.fields.direction
  {
    hide IsSafeDecimalString, IsCurrencyCode, Trim;
  }

  lemma CommitKeepsTransactions(s: System, p: nat, order: seq<string>)
    requires p in s.confirmers && s.confirmers[p].RowsRead? && ListsValid(order, s.confirmers[p].rows)
    requires ConstraintsAllow(s, order) && Invariant(s)
    ensures var ts := s.transactions + Inserted(s.confirmers[p].rows, order);
      SourcesUnique(ts) && forall t <- ts :: IsComplete(t) && t.source in s.rows
  {
    hide IsImportable, IsComplete;
    var rows := s.confirmers[p].rows;
    var added := Inserted(rows, order);
    var ts := s.transactions + added;
    assert SnapshotSound(s.confirmers[p].statementId, rows);
    forall i | 0 <= i < |order| ensures IsComplete(added[i]) && added[i].source in s.rows && !Backs(s.transactions, added[i].source) {
      assert order[i] in order;
      ImportableIsComplete(order[i], rows[order[i]]);
    }
    forall i, j | 0 <= i < j < |ts| ensures ts[i].source != ts[j].source {
      var n := |s.transactions|;
      if i < n <= j {
        assert s.transactions[i] in s.transactions && !Backs(s.transactions, added[j - n].source);
      } else if n <= i {
        assert order[i - n] != order[j - n];
      }
    }
  }

  lemma PersistKeepsIds(cfg: ImportConfig, s: System, id: string, r: ParserResult)
    requires CanPersist(cfg, s, id, r) && IdsUsed(s)
    ensures IdsUsed(Apply(cfg, s, Persist(id, r)))
  {
    hide PersistedAs, PersistedStatus;
    var t := Apply(cfg, s, Persist(id, r));
    forall raw | raw in t.rows && raw !in r.ids ensures raw in s.rows && t.rows[raw] == s.rows[raw] {
    }
  }

  lemma StepKeepsIds(cfg: ImportConfig, s: System, step: Step)
    requires Enabled(cfg, s, step) && IdsUsed(s)
    ensures IdsUsed(Apply(cfg, s, step))
  {
    hide CanPersist, ListsValid, PersistedRows, ConstraintsAllow, PersistedStatus, WithStatus, IsReady, Inserted, Stored,
      Corrected, IsImportable, RowsOf;
    if step.Persist? { PersistKeepsIds(cfg, s, step.id, step.parsed); }
  }

  lemma StepKeepsInvariant(cfg: ImportConfig, s: System, step: Step)
    requires Enabled(cfg, s, step) && Invariant(s)
    ensures Invariant(Apply(cfg, s, step)) && s.transactions <= Apply(cfg, s, step).transactions
  {
    StepKeepsIds(cfg, s, step);
    hide IsImportable, IsComplete, CanPersist, ListsValid, PersistedRows, RowUpdated, SourcesUnique, ConstraintsAllow,
      PersistedStatus, WithStatus, IsReady, IdsUsed;
    match step {
      case Persist(id, r) =>
        PersistKeepsRows(cfg, s, id, r);
        PersistKeepsSources(cfg, s, id, r);
      case WriteRow(p) => EditKeepsRows(cfg, s, s.editors[p]);
      case Commit(p, order) => CommitKeepsTransactions(s, p, order);
      case ReadRows(p) => SnapshotIsSound(s, p);
      case _ =>
    }
  }

  lemma SnapshotIsSound(s: System, p: nat)
    requires p in s.confirmers && s.confirmers[p].StatementRead? && ValidRowsImportable(s.rows)
    requires forall id <- RowsOf(s.rows, s.confirmers[p].statementId) :: s.rows[id].status !in Blocking()
    ensures SnapshotSound(s.confirmers[p].statementId, RowsOf(s.rows, s.confirmers[p].statementId))
  {
    hide IsImportable;
  }

  lemma {:induction false} RunKeepsInvariant(cfg: ImportConfig, s: System, steps: seq<Step>)
    requires IsRun(cfg, s, steps) && Invariant(s)
    ensures Invariant(End(cfg, s, steps)) && s.transactions <= End(cfg, s, steps).transactions
    decreases |steps|
  {
    hide Apply, Enabled, Invariant;
    if steps == [] {
    } else {
      StepKeepsInvariant(cfg, s, steps[0]);
      RunKeepsInvariant(cfg, Apply(cfg, s, steps[0]), steps[1..]);
    }
  }

  ghost predicate IsReachable(cfg: ImportConfig, s: System) { Leads(cfg, EMPTY, s) }

  /**
   * In every reachable state, under any interleaving: valid rows are importable, transactions are
   * complete with a known direction, and no raw row backs two of them.
   */
  lemma ReachableIsSound(cfg: ImportConfig, s: System)
    requires IsReachable(cfg, s)
    ensures ValidRowsImportable(s.rows) && SourcesUnique(s.transactions)
    ensures forall t <- s.transactions :: IsComplete(t) && t.source in s.rows
  {
    hide Apply, Enabled, IsComplete, ValidRowsImportable, SourcesUnique;
    var steps :| IsRun(cfg, EMPTY, steps) && End(cfg, EMPTY, steps) == s;
    EmptyIsSound();
    RunKeepsInvariant(cfg, EMPTY, steps);
  }

  lemma EmptyIsSound()
    ensures Invariant(EMPTY)
  {
  }

  // ---------- what a confirmation inserts ----------

  function AmountIn(amount: Option<string>): int { DecimalToScaled(amount.GetOr("0")).GetOr(0) }

  function SumOfTransactions(ts: seq<Transaction>, d: Direction): int {
    if ts == [] then 0
    else SumOfTransactions(ts[..|ts| - 1], d) + if ts[|ts| - 1].direction == d then AmountIn(ts[|ts| - 1].amount) else 0
  }

  function SumOfRows(rows: map<string, RawRow>, order: seq<string>, d: Direction): int
    requires forall id <- order :: id in rows
  {
    if order == [] then 0
    else
      var last := order[|order| - 1];
      assert last in order;
      SumOfRows(rows, order[..|order| - 1], d) + if rows[last].fields.direction == d then AmountIn(rows[last].fields.amount) else 0
  }

  lemma {:induction false} InsertedSums(rows: map<string, RawRow>, order: seq<string>, d: Direction)
    requires forall id <- order :: id in rows && rows[id].fields.direction != Unknown
    ensures SumOfTransactions(Inserted(rows, order), d) == SumOfRows(rows, order, d)
  {
    hide AmountIn;
    if order != [] {
      assert order[|order| - 1] in order;
      InsertedSums(rows, order[..|order| - 1], d);
      var ts := Inserted(rows, order);
      assert ts[..|ts| - 1] == Inserted(rows, order[..|order| - 1]);
    }
  }

  lemma {:induction false} SumsConcat(a: seq<Transaction>, b: seq<Transaction>, d: Direction)
    ensures SumOfTransactions(a + b, d) == SumOfTransactions(a, d) + SumOfTransactions(b, d)
  {
    hide AmountIn;
    if b == [] {
      assert a + b == a;
    } else {
      var s := a + b;
      assert s[..|s| - 1] == a + b[..|b| - 1] && s[|s| - 1] == b[|b| - 1];
      SumsConcat(a, b[..|b| - 1], d);
    }
  }

  /**
   * A committed confirmation inserts exactly one transaction for each valid row it read, with that
   * row's date, amount, currency and direction (never the fallback), so credits and debits grow by
   * exactly the sums of those rows.
   */
  lemma CommitInsertsValidRows(cfg: ImportConfig, s: System, p: nat, order: seq<string>, d: Direction)
    requires IsReachable(cfg, s) && Enabled(cfg, s, Commit(p, order))
    ensures var rows, ts := s.confirmers[p].rows, Apply(cfg, s, Commit(p, order)).transactions;
      && |ts| == |s.transactions| + |order| && s.transactions <= ts
      && (forall id <- order :: id in rows) && (forall id :: id in order <==> id in rows && rows[id].status == Valid)
      && (forall i :: 0 <= i < |order| ==>
            CarriesRow(ts[|s.transactions| + i], order[i], rows[order[i]]))
      && SumOfTransactions(ts, d) == SumOfTransactions(s.transactions, d) + SumOfRows(rows, order, d)
  {
    hide IsReachable, Invariant, IsImportable, SumOfRows, SumOfTransactions;
    ReachableInvariant(cfg, s);
    SnapshotOfConfirmer(s, p);
    CommitEffect(cfg, s, p, order);
    hide Apply, Enabled, CarriesRow, TransactionOf;
    var rows := s.confirmers[p].rows;
    forall i | 0 <= i < |order| ensures CarriesRow(TransactionOf(order[i], rows[order[i]]), order[i], rows[order[i]]) {
      assert order[i] in order;
      ImportableCarries(order[i], rows[order[i]]);
    }
    forall id | id in order ensures rows[id].fields.direction != Unknown { ImportableHasDirection(rows[id].fields); }
    InsertedSums(rows, order, d);
    SumsConcat(s.transactions, Inserted(rows, order), d);
  }

  lemma CommitEffect(cfg: ImportConfig, s: System, p: nat, order: seq<string>)
    requires Enabled(cfg, s, Commit(p, order))
    ensures p in s.confirmers && s.confirmers[p].RowsRead? && ListsValid(order, s.confirmers[p].rows)
    ensures Apply(cfg, s, Commit(p, order)).transactions == s.transactions + Inserted(s.confirmers[p].rows, order)
  {
    hide ListsValid, Inserted, WithStatus, ConstraintsAllow;
  }

  lemma ImportableCarries(id: string, row: RawRow)
    requires IsImportable(row.fields)
    ensures CarriesRow(TransactionOf(id, row), id, row)
  {
    hide IsSafeDecimalString, IsCurrencyCode, Trim;
  }

  predicate CarriesRow(t: Transaction, id: string, row: RawRow) {
    && t.source == id && t.statementId == row.statementId && t.description == row.fields.description
    && t.bookingDate == row.fields.bookingDate && t.amount == row.fields.amount && t.currency == row.fields.currency
    && t.direction == row.fields.direction && t.fingerprint == row.fingerprint
  }

  lemma ReachableInvariant(cfg: ImportConfig, s: System)
    requires IsReachable(cfg, s)
    ensures Invariant(s)
  {
    hide Apply, Enabled, Invariant;
    var steps :| IsRun(cfg, EMPTY, steps) && End(cfg, EMPTY, steps) == s;
    EmptyIsSound();
    RunKeepsInvariant(cfg, EMPTY, steps);
  }

  lemma SnapshotOfConfirmer(s: System, p: nat)
    requires Invariant(s) && p in s.confirmers && s.confirmers[p].RowsRead?
    ensures forall id :: id in s.confirmers[p].rows && s.confirmers[p].rows[id].status == Valid ==>
      IsImportable(s.confirmers[p].rows[id].fields)
  {
    hide IsImportable, IsComplete;
    assert SnapshotSound(s.confirmers[p].statementId, s.confirmers[p].rows);
  }

  lemma ImportableHasDirection(f: Fields)
    requires IsImportable(f)
    ensures f.direction != Unknown
  {
  }
}
