/** What the import review does not promise, each shown by the steps of a run; `ImportConditions` says when it holds. */
module ImportRaces {
  import opened Wrappers
  import opened Ledger
  import opened Money
  import opened ImportCandidates
  import opened ImportReview

  // ---------- a statement with one valid row ----------

  const LINE := Candidate(1, Some("2024-01-31"), None, Some("x"), Some("1"), Some("EUR"), Credit, None, 0)
  const LINE_FIELDS := Fields(Some("2024-01-31"), "x", Some("1"), Some("EUR"), Credit)
  const UNCHANGED := Save(None, None, None, None, None)

  function LineRow(cfg: ImportConfig): RawRow {
    RawRow("s", 1, Stored(cfg, LINE_FIELDS), Valid, cfg.Fingerprint(LINE_FIELDS), None)
  }

  function LineResult(cfg: ImportConfig): ParserResult { ParserResult({}, [LINE], None, false, PlainFile, ["a"], [LineRow(cfg)]) }

  function OneLine(cfg: ImportConfig, status: ProcessingStatus, row: RawRow): System {
    System(map["s" := Statement(status, false, PlainFile)], map["a" := row], [], map[], map[], {"a"})
  }

  lemma DigitIsSafe(s: string)
    requires s == "1"
    ensures IsSafeDecimalString(s, false)
  {
    assert DotIndex(s[1..]) == 0;
    assert DotIndex(s) == 1;
  }

  lemma LineIsImportable()
    ensures IsImportable(LINE_FIELDS)
  {
    hide IsSafeDecimalString;
    DigitIsSafe("1");
    assert TrimStart("x") == "x" && TrimEnd("x") == "x";
  }

  lemma LineIsPersisted(cfg: ImportConfig)
    ensures PersistedAs(cfg, {}, [LINE], None, "s", [LineRow(cfg)])
  {
    hide IsImportable, Stored;
    LineIsImportable();
    assert FieldsOf(LINE, None) == LINE_FIELDS;
    assert !SeenBefore(cfg, [LINE], 0, None);
    assert RowFor(cfg, {}, [LINE], 0, None, "s", LineRow(cfg));
  }

  lemma ReachesOneLine(cfg: ImportConfig)
    ensures Leads(cfg, EMPTY, OneLine(cfg, Ready, LineRow(cfg)))
  {
    hide Leads, PersistedAs, LineRow;
    LeadsNowhere(cfg, EMPTY);
    LeadsNext(cfg, EMPTY, EMPTY, AddStatement("s", PlainFile));
    var s1 := Apply(cfg, EMPTY, AddStatement("s", PlainFile));
    assert s1 == EMPTY.(statements := map["s" := Statement(Uploaded, false, PlainFile)]);
    LineIsPersisted(cfg);
    var r := LineResult(cfg);
    LeadsNext(cfg, EMPTY, s1, Persist("s", r));
    PersistedLine(cfg, s1);
    assert Apply(cfg, s1, Persist("s", r)).usedIds == {"a"};
    assert Apply(cfg, s1, Persist("s", r)).statements == map["s" := Statement(Ready, false, PlainFile)] by { LineRowIsValid(cfg); }
  }

  lemma LineRowIsValid(cfg: ImportConfig)
    ensures PersistedStatus([LineRow(cfg)]) == Ready && LineRow(cfg).statementId == "s" && LineRow(cfg).status == Valid
  {
  }

  lemma PersistedLine(cfg: ImportConfig, s: System)
    requires s.rows == map[]
    ensures PersistedRows(s, "s", LineResult(cfg)) == map["a" := LineRow(cfg)]
  {
    hide LineRow;
    var rows, r := PersistedRows(s, "s", LineResult(cfg)), LineResult(cfg);
    assert r.ids[0] == "a" && r.rows[0] == LineRow(cfg);
    assert "a" in rows && rows["a"] == LineRow(cfg);
    forall id | id in rows ensures id == "a" {
    }
  }

  // ---------- an edit that has counted its statement ready ----------

  function SavedRow(cfg: ImportConfig): RawRow { Edited(cfg, LineRow(cfg), LineRow(cfg), UNCHANGED) }

  lemma SavedRowIsValid(cfg: ImportConfig)
    ensures SavedRow(cfg).status == Valid && SavedRow(cfg).statementId == "s" && SavedRow(cfg).sourceRow == 1
  {
    hide IsImportable;
    LineIsImportable();
    StoringKeepsImportable(cfg, LINE_FIELDS);
    assert Corrected(Stored(cfg, LINE_FIELDS), UNCHANGED) == Stored(cfg, LINE_FIELDS) by { hide StoredAmount; }
  }

  /** The only row decides whether the statement is ready. */
  lemma OneRowDecides(rows: map<string, RawRow>, row: RawRow)
    requires rows == map["a" := row] && row.statementId == "s"
    ensures RowsOf(rows, "s") == map["a" := row]
    ensures IsReady(rows, "s") <==> row.status in {Valid, Excluded}
  {
    var own := RowsOf(rows, "s");
    assert own == map["a" := row];
    assert "a" in own;
  }

  function Undecided(cfg: ImportConfig): System {
    OneLine(cfg, Ready, SavedRow(cfg)).(editors := map[1 := Counted("s", true)])
  }

  /** One whole edit of the row up to its last write, from any state with the row alone and editor `p` free. */
  lemma ReachesCounted(cfg: ImportConfig, s: System, p: nat, row: RawRow, edit: Edit)
    requires Leads(cfg, EMPTY, s) && s.rows == map["a" := row] && row.statementId == "s" && p !in s.editors
    requires Edited(cfg, row, row, edit).statementId == "s"
    ensures var edited := Edited(cfg, row, row, edit);
      Leads(cfg, EMPTY, s.(rows := map["a" := edited],
                          editors := s.editors[p := Counted("s", edited.status in {Valid, Excluded})]))
  {
    hide Leads, IsReady, Edited, RowsOf;
    var edited := Edited(cfg, row, row, edit);
    var s1 := s.(editors := s.editors[p := RowLoaded("s", "a", row, edit)]);
    LeadsNext(cfg, EMPTY, s, LoadRow(p, "s", "a", edit));
    assert Apply(cfg, s, LoadRow(p, "s", "a", edit)) == s1;
    var s2 := s.(rows := map["a" := edited], editors := s.editors[p := RowWritten("s")]);
    LeadsNext(cfg, EMPTY, s1, WriteRow(p));
    assert Apply(cfg, s1, WriteRow(p)) == s2 by {
      assert s1.editors[p := RowWritten("s")] == s2.editors;
    }
    OneRowDecides(s2.rows, edited);
    LeadsNext(cfg, EMPTY, s2, CountRemaining(p));
    assert Apply(cfg, s2, CountRemaining(p)).editors == s.editors[p := Counted("s", edited.status in {Valid, Excluded})];
  }

  lemma ReachesUndecided(cfg: ImportConfig)
    ensures Leads(cfg, EMPTY, Undecided(cfg))
  {
    hide Leads, Edited, LineRow;
    ReachesOneLine(cfg);
    SavedRowIsValid(cfg);
    LineRowIsValid(cfg);
    ReachesCounted(cfg, OneLine(cfg, Ready, LineRow(cfg)), 1, LineRow(cfg), UNCHANGED);
    assert map[][1 := Counted("s", true)] == map[1 := Counted("s", true)];
  }

  // ---------- ready without being reviewed ----------

  lemma RevisedRows(cfg: ImportConfig)
    ensures Edited(cfg, SavedRow(cfg), SavedRow(cfg), Restore) == SavedRow(cfg).(status := NeedsReview)
    ensures Edited(cfg, LineRow(cfg), LineRow(cfg), Restore) == LineRow(cfg).(status := NeedsReview)
    ensures Edited(cfg, LineRow(cfg), LineRow(cfg), Exclude) == LineRow(cfg).(status := Excluded)
  {
    hide LineRow, Stored;
  }

  /** A statement is ready, nobody is working on it, and its row is still to be reviewed. */
  predicate IsStuck(s: System, id: string, rawId: string) {
    && id in s.statements && s.statements[id].status == Ready && s.editors == map[] && s.confirmers == map[]
    && rawId in s.rows && s.rows[rawId].statementId == id && s.rows[rawId].status == NeedsReview
  }

  /** Two overlapping edits that both finish: the status written last comes from the count made first. */
  lemma ReadyWithABlockedRow(cfg: ImportConfig)
    ensures exists s :: IsReachable(cfg, s) && IsStuck(s, "s", "a")
  {
    hide Leads, Edited, LineRow;
    ReachesUndecided(cfg);
    SavedRowIsValid(cfg);
    var row := SavedRow(cfg).(status := NeedsReview);
    RevisedRows(cfg);
    var s0 := Undecided(cfg);
    ReachesCounted(cfg, s0, 2, SavedRow(cfg), Restore);
    var s1 := s0.(rows := map["a" := row], editors := s0.editors[2 := Counted("s", false)]);
    LeadsNext(cfg, EMPTY, s1, WriteStatus(2));
    var s2 := OneLine(cfg, StatementNeedsReview, row).(editors := map[1 := Counted("s", true)]);
    assert Apply(cfg, s1, WriteStatus(2)) == s2 by { assert s1.editors - {2} == map[1 := Counted("s", true)]; }
    LeadsNext(cfg, EMPTY, s2, WriteStatus(1));
    var s3 := OneLine(cfg, Ready, row);
    assert Apply(cfg, s2, WriteStatus(1)) == s3 by { assert s2.editors - {1} == map[]; }
    assert IsReachable(cfg, s3) && IsStuck(s3, "s", "a");
  }

  /** One edit that stops after writing its row is enough: the statement keeps the status it had. */
  lemma StoppedEditLeavesReady(cfg: ImportConfig)
    ensures exists s :: IsReachable(cfg, s) && GetsStuck(cfg, s)
  {
    hide Leads, Edited, LineRow, IsReady, IsRun, End;
    ReachesOneLine(cfg);
    LineRowIsValid(cfg);
    RevisedRows(cfg);
    var s0, row := OneLine(cfg, Ready, LineRow(cfg)), LineRow(cfg).(status := NeedsReview);
    OneRowDecides(s0.rows, LineRow(cfg));
    var s1 := s0.(editors := map[3 := RowLoaded("s", "a", LineRow(cfg), Restore)]);
    assert Apply(cfg, s0, LoadRow(3, "s", "a", Restore)) == s1;
    var s2 := s0.(rows := map["a" := row], editors := map[3 := RowWritten("s")]);
    assert Apply(cfg, s1, WriteRow(3)) == s2 by { assert s1.editors[3 := RowWritten("s")] == s2.editors; }
    var s3 := OneLine(cfg, Ready, row);
    assert Apply(cfg, s2, StopEdit(3)) == s3 by { assert s2.editors - {3} == map[]; }
    ThreeSteps(cfg, s0, LoadRow(3, "s", "a", Restore), WriteRow(3), StopEdit(3));
    assert IsReachable(cfg, s0) && GetsStuck(cfg, s0);
  }

  ghost predicate GetsStuck(cfg: ImportConfig, s: System) {
    && s.editors == map[] && IsReady(s.rows, "s") && IsRun(cfg, s, StoppedEdit())
    && IsStuck(End(cfg, s, StoppedEdit()), "s", "a")
  }

  function StoppedEdit(): seq<Step> { [LoadRow(3, "s", "a", Restore), WriteRow(3), StopEdit(3)] }

  lemma ThreeSteps(cfg: ImportConfig, s: System, a: Step, b: Step, c: Step)
    requires Enabled(cfg, s, a) && Enabled(cfg, Apply(cfg, s, a), b) && Enabled(cfg, Apply(cfg, Apply(cfg, s, a), b), c)
    ensures IsRun(cfg, s, [a, b, c]) && End(cfg, s, [a, b, c]) == Apply(cfg, Apply(cfg, Apply(cfg, s, a), b), c)
  {
    hide Apply, Enabled;
    var s1 := Apply(cfg, s, a);
    var s2 := Apply(cfg, s1, b);
    assert IsRun(cfg, Apply(cfg, s2, c), []) && [c][1..] == [];
    assert IsRun(cfg, s2, [c]);
    assert [b, c][1..] == [c] && [a, b, c][1..] == [b, c];
    assert IsRun(cfg, s1, [b, c]);
    assert End(cfg, s2, [c]) == Apply(cfg, s2, c);
    assert End(cfg, s1, [b, c]) == Apply(cfg, s2, c);
  }

  // ---------- imported and then not ----------

  /** A whole confirmation of the only row up to its commit. */
  lemma ReachesRowsRead(cfg: ImportConfig, s: System, row: RawRow)
    requires Leads(cfg, EMPTY, s) && s.rows == map["a" := row] && row.statementId == "s" && row.status == Valid
    requires s.statements == map["s" := Statement(Ready, false, PlainFile)] && s.confirmers == map[]
    ensures Leads(cfg, EMPTY, s.(confirmers := map[7 := RowsRead("s", map["a" := row])]))
  {
    hide Leads, IsReady, RowsOf;
    var s1 := s.(confirmers := map[7 := StatementRead("s")]);
    LeadsNext(cfg, EMPTY, s, StartConfirm(7, "s", false));
    assert Apply(cfg, s, StartConfirm(7, "s", false)) == s1;
    OneRowDecides(s.rows, row);
    LeadsNext(cfg, EMPTY, s1, ReadRows(7));
    assert Apply(cfg, s1, ReadRows(7)).confirmers == map[7 := RowsRead("s", map["a" := row])];
  }

  lemma ListsTheRow(row: RawRow)
    requires row.status == Valid
    ensures ListsValid(["a"], map["a" := row])
  {
  }

  /** The statement after its only row was imported, with nobody at work. */
  function ImportedLine(cfg: ImportConfig): System {
    OneLine(cfg, Imported, LineRow(cfg)).(transactions := Inserted(map["a" := LineRow(cfg)], ["a"]))
  }

  lemma ReachesImported(cfg: ImportConfig)
    ensures Leads(cfg, EMPTY, ImportedLine(cfg))
  {
    hide Leads, LineRow, ListsValid, Inserted;
    ReachesOneLine(cfg);
    LineRowIsValid(cfg);
    var row := LineRow(cfg);
    var s0 := OneLine(cfg, Ready, row);
    ReachesRowsRead(cfg, s0, row);
    var s1 := s0.(confirmers := map[7 := RowsRead("s", map["a" := row])]);
    ListsTheRow(row);
    LeadsNext(cfg, EMPTY, s1, Commit(7, ["a"]));
    assert Apply(cfg, s1, Commit(7, ["a"])) == ImportedLine(cfg) by {
      assert s1.confirmers - {7} == map[] && [] + Inserted(map["a" := row], ["a"]) == Inserted(map["a" := row], ["a"]);
    }
  }

  predicate IsImportedAtRest(s: System, id: string) {
    id in s.statements && s.statements[id].status == Imported && s.editors == map[] && s.confirmers == map[]
  }

  predicate IsReopened(s: System, id: string) {
    id in s.statements && s.statements[id].status == Ready && s.editors == map[] && s.confirmers == map[]
  }

  /** `imported` is left without any race: one whole edit, begun when nobody is at work, makes the statement ready again. */
  lemma ImportedIsNotFinal(cfg: ImportConfig)
    ensures exists s, t :: IsReachable(cfg, s) && IsImportedAtRest(s, "s") && Leads(cfg, s, t) && IsReopened(t, "s")
  {
    hide Leads, Edited, LineRow, Inserted;
    ReachesImported(cfg);
    LineRowIsValid(cfg);
    var s, row := ImportedLine(cfg), SavedRow(cfg);
    SavedRowIsValid(cfg);
    LeadsNowhere(cfg, s);
    var s1 := s.(editors := map[1 := RowLoaded("s", "a", LineRow(cfg), UNCHANGED)]);
    LeadsNext(cfg, s, s, LoadRow(1, "s", "a", UNCHANGED));
    assert Apply(cfg, s, LoadRow(1, "s", "a", UNCHANGED)) == s1;
    var s2 := s.(rows := map["a" := row], editors := map[1 := RowWritten("s")]);
    LeadsNext(cfg, s, s1, WriteRow(1));
    assert Apply(cfg, s1, WriteRow(1)) == s2 by { assert s1.editors[1 := RowWritten("s")] == s2.editors; }
    OneRowDecides(s2.rows, row);
    var s3 := s2.(editors := map[1 := Counted("s", true)]);
    LeadsNext(cfg, s, s2, CountRemaining(1));
    assert Apply(cfg, s2, CountRemaining(1)) == s3 by { assert s2.editors[1 := Counted("s", true)] == s3.editors; }
    LeadsNext(cfg, s, s3, WriteStatus(1));
    var t := Apply(cfg, s3, WriteStatus(1));
    assert IsReopened(t, "s") by { assert s3.editors - {1} == map[]; }
  }

  /** A row excluded after a confirmation has read it is still imported. */
  lemma ExcludedRowIsImported(cfg: ImportConfig)
    ensures exists s: System, p, order, id ::
      IsReachable(cfg, s) && Enabled(cfg, s, Commit(p, order)) && id in order && id in s.rows && s.rows[id].status == Excluded
  {
    hide Leads, Edited, LineRow, ListsValid;
    ReachesOneLine(cfg);
    LineRowIsValid(cfg);
    var row := LineRow(cfg);
    var s0 := OneLine(cfg, Ready, row);
    ReachesRowsRead(cfg, s0, row);
    var s1 := s0.(confirmers := map[7 := RowsRead("s", map["a" := row])]);
    RevisedRows(cfg);
    ReachesCounted(cfg, s1, 2, row, Exclude);
    var s2 := s1.(rows := map["a" := row.(status := Excluded)], editors := s1.editors[2 := Counted("s", true)]);
    ListsTheRow(row);
    assert IsReachable(cfg, s2) && Enabled(cfg, s2, Commit(7, ["a"])) && "a" in ["a"];
  }
}
