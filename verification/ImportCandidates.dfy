/**
 * What the import keeps of a parsed statement: validation of each candidate, detection of
 * duplicates, and the statement's status.
 */
module ImportCandidates {
  import opened Wrappers
  import opened Ledger
  import opened Money

  /** The fields that are validated, fingerprinted and carried into a transaction. */
  datatype Fields = Fields(
    bookingDate: Option<string>, description: string, amount: Option<string>, currency: Option<string>, direction: Direction)

  datatype Warning = MissingBookingDate | MissingDescription | InvalidAmount | MissingCurrency | UnknownDirection

  datatype ReviewStatus = Valid | NeedsReview | Invalid | Excluded | DuplicateCandidate

  datatype DuplicateReason = SameStatement | PreviousImport

  datatype ProcessingStatus =
    | Uploaded | Inspecting | NeedsSheetSelection | Parsing | NeedsMapping | StatementNeedsReview | Ready | Imported
    | ProcessingFailed

  // ---------- validation ----------

  predicate IsCurrencyCode(s: string) { |s| == 3 && forall c <- s :: 'A' <= c <= 'Z' }

  predicate Applies(w: Warning, f: Fields) {
    match w
    case MissingBookingDate => f.bookingDate.None? || f.bookingDate.value == ""
    case MissingDescription => Trim(f.description) == ""
    case InvalidAmount => f.amount.None? || !IsSafeDecimalString(f.amount.value, false)
    case MissingCurrency => f.currency.None? || !IsCurrencyCode(f.currency.value)
    case UnknownDirection => f.direction == Unknown
  }

  /** Everything a transaction needs is there. */
  predicate IsImportable(f: Fields) {
    && f.bookingDate.Some? && f.bookingDate.value != "" && Trim(f.description) != ""
    && f.amount.Some? && IsSafeDecimalString(f.amount.value, false)
    && f.currency.Some? && IsCurrencyCode(f.currency.value) && f.direction != Unknown
  }

  /** The warnings that apply, each once; none exactly for an importable candidate. */
  method ValidateImportCandidate(f: Fields) returns (warnings: seq<Warning>)
    ensures forall w :: w in warnings <==> Applies(w, f)
    ensures NoRepeats(warnings)
    ensures warnings == [] <==> IsImportable(f)
  {
    hide IsSafeDecimalString, Trim, IsCurrencyCode, Collected;
    warnings := [];
    NothingCollected(f);
    ghost var considered: set<Warning> := {};
    CollectNext(warnings, f, considered, MissingBookingDate);
    considered := considered + {MissingBookingDate};
    if f.bookingDate.None? || f.bookingDate.value == "" { warnings := warnings + [MissingBookingDate]; }
    CollectNext(warnings, f, considered, MissingDescription);
    considered := considered + {MissingDescription};
    if Trim(f.description) == "" { warnings := warnings + [MissingDescription]; }
    CollectNext(warnings, f, considered, InvalidAmount);
    considered := considered + {InvalidAmount};
    EmptyAmountIsUnsafe();
    if f.amount.None? || f.amount.value == "" || !IsSafeDecimalString(f.amount.value, false) {
      warnings := warnings + [InvalidAmount];
    }
    CollectNext(warnings, f, considered, MissingCurrency);
    considered := considered + {MissingCurrency};
    EmptyIsNoCurrency();
    if f.currency.None? || f.currency.value == "" || !IsCurrencyCode(f.currency.value) {
      warnings := warnings + [MissingCurrency];
    }
    CollectNext(warnings, f, considered, UnknownDirection);
    considered := considered + {UnknownDirection};
    if f.direction == Unknown { warnings := warnings + [UnknownDirection]; }
    assert considered == {MissingBookingDate, MissingDescription, InvalidAmount, MissingCurrency, UnknownDirection};
    AllCollected(warnings, f);
  }

  /** Exactly the warnings of `considered` that apply, each once. */
  ghost predicate Collected(warnings: seq<Warning>, f: Fields, considered: set<Warning>) {
    NoRepeats(warnings) && forall w :: w in warnings <==> w in considered && Applies(w, f)
  }

  lemma NothingCollected(f: Fields)
    ensures Collected([], f, {})
  {
  }

  lemma CollectNext(warnings: seq<Warning>, f: Fields, considered: set<Warning>, w: Warning)
    requires Collected(warnings, f, considered) && w !in considered
    ensures Collected(if Applies(w, f) then warnings + [w] else warnings, f, considered + {w})
  {
    hide Applies;
  }

  lemma AllCollected(warnings: seq<Warning>, f: Fields)
    requires Collected(warnings, f, {MissingBookingDate, MissingDescription, InvalidAmount, MissingCurrency, UnknownDirection})
    ensures NoRepeats(warnings) && forall w :: w in warnings <==> Applies(w, f)
    ensures warnings == [] <==> IsImportable(f)
  {
    hide IsSafeDecimalString, Trim, IsCurrencyCode;
    if warnings != [] { assert Applies(warnings[0], f); }
    assert (forall w: Warning :: !Applies(w, f)) <==> IsImportable(f) by {
      assert IsImportable(f) || Applies(MissingBookingDate, f) || Applies(MissingDescription, f) || Applies(InvalidAmount, f)
        || Applies(MissingCurrency, f) || Applies(UnknownDirection, f);
    }
  }

  lemma EmptyAmountIsUnsafe()
    ensures !IsSafeDecimalString("", false)
  {
  }

  lemma EmptyIsNoCurrency()
    ensures !IsCurrencyCode("")
  {
  }

  /** A currency code is three capital letters, A to Z. */
  lemma CurrencyCodesAre(s: string)
    ensures IsCurrencyCode(s) <==> |s| == 3 && forall c <- s :: c in "ABCDEFGHIJKLMNOPQRSTUVWXYZ"
  {
    LettersAre();
  }

  lemma LettersAre()
    ensures forall c: char :: 'A' <= c <= 'Z' <==> c in "ABCDEFGHIJKLMNOPQRSTUVWXYZ"
  {
    var letters := "ABCDEFGHIJKLMNOPQRSTUVWXYZ";
    forall c: char | 'A' <= c <= 'Z' ensures c in letters {
      assert letters[c as int - 'A' as int] == c;
    }
  }

  // ---------- what the database makes of an amount ----------

  /**
   * `normalize` is the normalization of descriptions, `digest` the hash of the five fields, and
   * `otherNumeric` what the database prints for amount text outside the pattern.
   */
  datatype ImportConfig = ImportConfig(digest: Fields -> string, normalize: string -> string, otherNumeric: string -> string) {
    /** The hash of the fields with the description normalized. */
    function Fingerprint(f: Fields): string { digest(f.(description := normalize(f.description))) }
  }

  function StoredAmount(cfg: ImportConfig, amount: Option<string>): Option<string> {
    if amount.None? then None
    else if IsSafeDecimalString(amount.value, true) then Some(NumericText(Reading(amount.value)))
    else Some(cfg.otherNumeric(amount.value))
  }

  function Stored(cfg: ImportConfig, f: Fields): Fields { f.(amount := StoredAmount(cfg, f.amount)) }

  lemma SafeTextReads(s: string)
    requires IsSafeDecimalString(s, true)
    ensures DecimalToScaled(s) == Some(Reading(s)) && InRange(Reading(s))
    ensures IsSafeDecimalString(s, false) ==> Reading(s) >= 0
  {
    hide Reading, IsSafeDecimalString;
    Disassembled(s);
    NoSpaceToTrim(s);
    ParsedValueInRange(s);
    if IsSafeDecimalString(s, false) { UnsignedIsNonNegative(s); }
  }

  lemma UnsignedIsNonNegative(s: string)
    requires IsSafeDecimalString(s, true) && IsSafeDecimalString(s, false)
    ensures Reading(s) >= 0
  {
  }

  /** Storing keeps an importable candidate importable, and its exact amount. */
  lemma StoringKeepsImportable(cfg: ImportConfig, f: Fields)
    requires IsImportable(f)
    ensures IsImportable(Stored(cfg, f))
    ensures DecimalToScaled(Stored(cfg, f).amount.value) == DecimalToScaled(f.amount.value)
    ensures DecimalToScaled(f.amount.value).Some? && DecimalToScaled(f.amount.value).value >= 0
  {
    var s := f.amount.value;
    assert IsSafeDecimalString(s, true);
    hide Reading, IsSafeDecimalString, NumericText, DecimalToScaled, Trim;
    SafeTextReads(s);
    ParseOfNumericText(Reading(s));
  }

  // ---------- persisting a parser result ----------

  /** A candidate from the parser; currency and description may still be filled in. */
  datatype Candidate = Candidate(
    sourceRow: int, bookingDate: Option<string>, description: Option<string>, rawDescription: Option<string>,
    amount: Option<string>, currency: Option<string>, direction: Direction, balanceAfter: Option<string>,
    parserWarnings: nat)

  datatype RawRow = RawRow(
    statementId: string, sourceRow: int, fields: Fields, status: ReviewStatus, fingerprint: string,
    duplicate: Option<DuplicateReason>)

  function DescriptionOf(c: Candidate): string {
    if c.description.Some? && c.description.value != "" then c.description.value else c.rawDescription.GetOr("")
  }

  /** The fields a candidate is validated and fingerprinted with. */
  function FieldsOf(c: Candidate, accountCurrency: Option<string>): Fields {
    Fields(c.bookingDate, DescriptionOf(c), c.amount, if c.currency.Some? then c.currency else accountCurrency, c.direction)
  }

  function FingerprintOf(cfg: ImportConfig, c: Candidate, accountCurrency: Option<string>): string {
    cfg.Fingerprint(FieldsOf(c, accountCurrency))
  }

  ghost predicate SeenBefore(cfg: ImportConfig, cs: seq<Candidate>, i: nat, accountCurrency: Option<string>)
    requires i < |cs|
  {
    exists j :: 0 <= j < i && FingerprintOf(cfg, cs[j], accountCurrency) == FingerprintOf(cfg, cs[i], accountCurrency)
  }

  /** The stored row of the i-th candidate. */
  ghost predicate RowFor(
    cfg: ImportConfig, history: set<string>, cs: seq<Candidate>, i: nat, accountCurrency: Option<string>, statementId: string,
    row: RawRow)
    requires i < |cs|
  {
    var f := FieldsOf(cs[i], accountCurrency);
    var digest := cfg.Fingerprint(f);
    && row.statementId == statementId && row.sourceRow == cs[i].sourceRow && row.fields == Stored(cfg, f)
    && row.fingerprint == digest
    && (row.status == DuplicateCandidate <==> digest in history || SeenBefore(cfg, cs, i, accountCurrency))
    && (row.status == Valid <==> row.status != DuplicateCandidate && cs[i].parserWarnings == 0 && IsImportable(f))
    && row.status in {Valid, NeedsReview, DuplicateCandidate}
    && (row.duplicate == Some(SameStatement) <==> SeenBefore(cfg, cs, i, accountCurrency))
    && (row.duplicate == Some(PreviousImport) <==> digest in history && !SeenBefore(cfg, cs, i, accountCurrency))
  }

  /** The fingerprints of the first `i` candidates. */
  function Prints(cfg: ImportConfig, cs: seq<Candidate>, i: nat, accountCurrency: Option<string>): set<string>
    requires i <= |cs|
  {
    set j | 0 <= j < i :: FingerprintOf(cfg, cs[j], accountCurrency)
  }

  lemma SeenIffPrinted(cfg: ImportConfig, cs: seq<Candidate>, i: nat, accountCurrency: Option<string>)
    requires i < |cs|
    ensures FingerprintOf(cfg, cs[i], accountCurrency) in Prints(cfg, cs, i, accountCurrency) <==> SeenBefore(cfg, cs, i, accountCurrency)
    ensures Prints(cfg, cs, i + 1, accountCurrency)
         == Prints(cfg, cs, i, accountCurrency) + {FingerprintOf(cfg, cs[i], accountCurrency)}
  {
    hide FingerprintOf;
  }

  /**
   * Stores every candidate with its review status. A row is a duplicate exactly when its
   * fingerprint is in the history or on an earlier candidate; the statement is ready exactly when
   * it has rows and all of them are valid.
   */
  method PersistParserResult(
    cfg: ImportConfig, history: set<string>, candidates: seq<Candidate>, accountCurrency: Option<string>, statementId: string)
    returns (rows: seq<RawRow>, status: ProcessingStatus)
    ensures |rows| == |candidates|
    ensures forall i :: 0 <= i < |rows| ==> RowFor(cfg, history, candidates, i, accountCurrency, statementId, rows[i])
    ensures status == ProcessingFailed <==> candidates == []
    ensures status == Ready <==> rows != [] && forall row :: row in rows ==> row.status == Valid
    ensures status in {Ready, StatementNeedsReview, ProcessingFailed}
  {
    rows := [];
    var seen: set<string> := {};
    var allRowsValid := |candidates| > 0;
    for i := 0 to |candidates|
      invariant |rows| == i
      invariant forall j :: 0 <= j < i ==> RowFor(cfg, history, candidates, j, accountCurrency, statementId, rows[j])
      invariant seen == Prints(cfg, candidates, i, accountCurrency)
      invariant allRowsValid <==> |candidates| > 0 && forall row :: row in rows ==> row.status == Valid
    {
      hide RowFor, IsImportable, Prints, SeenBefore, FingerprintOf, Stored;
      SeenIffPrinted(cfg, candidates, i, accountCurrency);
      var row := PersistCandidate(cfg, history, seen, candidates, i, accountCurrency, statementId);
      seen := seen + {FingerprintOf(cfg, candidates[i], accountCurrency)};
      if row.status != Valid { allRowsValid := false; }
      rows := rows + [row];
    }
    status := if |candidates| > 0 then (if allRowsValid then Ready else StatementNeedsReview) else ProcessingFailed;
  }

  /** One candidate of the loop, with the fingerprints seen so far. */
  method PersistCandidate(
    cfg: ImportConfig, history: set<string>, seen: set<string>, candidates: seq<Candidate>, i: nat,
    accountCurrency: Option<string>, statementId: string)
    returns (row: RawRow)
    requires i < |candidates| && seen == Prints(cfg, candidates, i, accountCurrency)
    ensures RowFor(cfg, history, candidates, i, accountCurrency, statementId, row)
  {
    hide IsImportable, Prints, SeenBefore, Stored;
    var c := candidates[i];
    var f := FieldsOf(c, accountCurrency);
    var warnings := ValidateImportCandidate(f);
    var warned := c.parserWarnings + |warnings| > 0;
    var digest := cfg.Fingerprint(f);
    SeenIffPrinted(cfg, candidates, i, accountCurrency);
    var duplicateInStatement := digest in seen;
    var isDuplicate := duplicateInStatement || digest in history;
    var status := if isDuplicate then DuplicateCandidate else if warned then NeedsReview else Valid;
    var reason := if !isDuplicate then None else if duplicateInStatement then Some(SameStatement) else Some(PreviousImport);
    row := RawRow(statementId, c.sourceRow, Stored(cfg, f), status, digest, reason);
  }

  ghost predicate PersistedAs(
    cfg: ImportConfig, history: set<string>, cs: seq<Candidate>, accountCurrency: Option<string>, statementId: string, rows: seq<RawRow>)
  {
    |rows| == |cs| && forall i :: 0 <= i < |rows| ==> RowFor(cfg, history, cs, i, accountCurrency, statementId, rows[i])
  }

  /** Rows that are not duplicates have fingerprints of their own, outside the history. */
  lemma NonDuplicatesAreNew(
    cfg: ImportConfig, history: set<string>, cs: seq<Candidate>, accountCurrency: Option<string>, statementId: string,
    rows: seq<RawRow>, i: nat, j: nat)
    requires PersistedAs(cfg, history, cs, accountCurrency, statementId, rows) && i < j < |rows|
    requires rows[j].status != DuplicateCandidate
    ensures rows[j].fingerprint !in history && rows[i].fingerprint != rows[j].fingerprint
  {
    hide IsImportable, Stored;
    assert RowFor(cfg, history, cs, j, accountCurrency, statementId, rows[j]);
    assert RowFor(cfg, history, cs, i, accountCurrency, statementId, rows[i]);
    assert rows[i].fingerprint == FingerprintOf(cfg, cs[i], accountCurrency);
  }

  /** A row stored as valid is importable as it stands in the database. */
  lemma StoredValidRowsAreImportable(
    cfg: ImportConfig, history: set<string>, cs: seq<Candidate>, accountCurrency: Option<string>, statementId: string,
    rows: seq<RawRow>, i: nat)
    requires PersistedAs(cfg, history, cs, accountCurrency, statementId, rows) && i < |rows|
    ensures rows[i].status == Valid ==> IsImportable(rows[i].fields)
  {
    hide SeenBefore;
    var f := FieldsOf(cs[i], accountCurrency);
    assert RowFor(cfg, history, cs, i, accountCurrency, statementId, rows[i]);
    hide IsImportable, Stored;
    if rows[i].status == Valid { StoringKeepsImportable(cfg, f); }
  }

  /** The line as it is stored: its own currency before the account's, its description before the raw one. */
  lemma StoredLineIs(
    cfg: ImportConfig, history: set<string>, cs: seq<Candidate>, accountCurrency: Option<string>, statementId: string,
    rows: seq<RawRow>, i: nat)
    requires PersistedAs(cfg, history, cs, accountCurrency, statementId, rows) && i < |rows|
    ensures var c, row := cs[i], rows[i];
      var line := Fields(
        c.bookingDate,
        if c.description != None && c.description.value != "" then c.description.value
        else if c.rawDescription != None then c.rawDescription.value else "",
        c.amount, if c.currency != None then c.currency else accountCurrency, c.direction);
      && row.fields == line.(amount := StoredAmount(cfg, line.amount)) && row.fingerprint == cfg.Fingerprint(line)
      && row.sourceRow == c.sourceRow && row.statementId == statementId
      && (row.status == Valid ==> c.parserWarnings == 0 && IsImportable(line))
  {
    hide SeenBefore, IsImportable, StoredAmount;
    assert RowFor(cfg, history, cs, i, accountCurrency, statementId, rows[i]);
  }

  /** A row is a duplicate exactly if its fingerprint is in the history or on an earlier row. */
  lemma DuplicateIff(
    cfg: ImportConfig, history: set<string>, cs: seq<Candidate>, accountCurrency: Option<string>, statementId: string,
    rows: seq<RawRow>, i: nat)
    requires PersistedAs(cfg, history, cs, accountCurrency, statementId, rows) && i < |rows|
    ensures rows[i].status == DuplicateCandidate
       <==> rows[i].fingerprint in history || exists j :: 0 <= j < i && rows[j].fingerprint == rows[i].fingerprint
  {
    hide IsImportable, Stored;
    assert RowFor(cfg, history, cs, i, accountCurrency, statementId, rows[i]);
    forall j | 0 <= j <= i ensures rows[j].fingerprint == FingerprintOf(cfg, cs[j], accountCurrency) {
      assert RowFor(cfg, history, cs, j, accountCurrency, statementId, rows[j]);
    }
    hide RowFor, FingerprintOf;
  }

  // ---------- fingerprints after review ----------

  /** The digest tells different fields apart. */
  ghost predicate CollisionFree(cfg: ImportConfig) {
    forall f, g :: cfg.digest(f) == cfg.digest(g) ==> f == g
  }

  /** Two lines count as the same booking exactly when they agree in all but how the description is written. */
  lemma SameFingerprintIff(cfg: ImportConfig, f: Fields, g: Fields)
    requires CollisionFree(cfg)
    ensures cfg.Fingerprint(f) == cfg.Fingerprint(g) <==>
      f.bookingDate == g.bookingDate && f.amount == g.amount && f.currency == g.currency && f.direction == g.direction
      && cfg.normalize(f.description) == cfg.normalize(g.description)
  {
    var n, m := f.(description := cfg.normalize(f.description)), g.(description := cfg.normalize(g.description));
    assert cfg.digest(n) == cfg.digest(m) <==> n == m;
  }

  /**
   * Reviewing a row recomputes its fingerprint from the stored amount. Without digest collisions, a
   * later import of the line `g` finds the reviewed row of `f` exactly when the two agree in date,
   * currency, direction and normalized description and `g` spells the amount as the database prints
   * it, with six decimals; so the line itself is found again only if it did so.
   */
  lemma ReviewedRowIsRecognisedIff(cfg: ImportConfig, f: Fields, g: Fields)
    requires CollisionFree(cfg) && IsImportable(f)
    ensures cfg.Fingerprint(g) == cfg.Fingerprint(Stored(cfg, f)) <==>
      g.bookingDate == f.bookingDate && g.currency == f.currency && g.direction == f.direction
      && cfg.normalize(g.description) == cfg.normalize(f.description)
      && g.amount == Some(NumericText(Reading(f.amount.value)))
    ensures cfg.Fingerprint(f) == cfg.Fingerprint(Stored(cfg, f)) <==> f.amount.value == NumericText(Reading(f.amount.value))
  {
    hide Reading, NumericText, CollisionFree;
    SameFingerprintIff(cfg, g, Stored(cfg, f));
    SameFingerprintIff(cfg, f, Stored(cfg, f));
    assert Stored(cfg, f).amount == Some(NumericText(Reading(f.amount.value)));
  }

  /** The amount `1` is not spelled like that: reviewed once, its line is taken for a new booking ever after. */
  lemma ReviewedRowIsMissed(cfg: ImportConfig, f: Fields)
    requires CollisionFree(cfg) && IsImportable(f) && f.amount == Some("1")
    ensures cfg.Fingerprint(f) != cfg.Fingerprint(Stored(cfg, f))
  {
    hide CollisionFree;
    SameFingerprintIff(cfg, f, Stored(cfg, f));
    NumericTextIsLong(Reading("1"));
  }

  lemma NumericTextIsLong(v: int)
    ensures |NumericText(v)| >= 7
  {
    FractionDigitsShape(Abs(v));
  }
}
