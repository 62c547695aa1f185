/** Reconciliation of a statement's rows with its running balances. */
module Reconciliation {
  import opened Wrappers
  import opened Ledger
  import opened Money
  import opened ImportCandidates

  const MINIMUM_MONEY_UNIT := "0.000001"

  datatype ReconciliationStatus = Matched | Mismatch | Unverifiable

  datatype ReconciliationReason = MissingBalance | BalanceMismatch | WithinTolerance | InvalidBalanceValues

  datatype ReconciliationResult = ReconciliationResult(
    status: ReconciliationStatus, difference: Option<string>, expectedClosing: Option<string>, reason: ReconciliationReason)

  const MISSING := ReconciliationResult(Unverifiable, None, None, MissingBalance)
  const INVALID := ReconciliationResult(Unverifiable, None, None, InvalidBalanceValues)

  predicate IsAbsent(balance: Option<string>) { balance.None? || balance.value == "" }

  function ReconcileStatement(
    opening: Option<string>, closing: Option<string>, credits: string, debits: string, tolerance: string): ReconciliationResult
  {
    if IsAbsent(opening) || IsAbsent(closing) then MISSING
    else
      var o, c, d := DecimalToScaled(opening.value), DecimalToScaled(credits), DecimalToScaled(debits);
      var cl, t := DecimalToScaled(closing.value), DecimalToScaled(tolerance);
      if o.None? || c.None? || d.None? || cl.None? || t.None? then INVALID
      else Judged(cl.value - (o.value + c.value - d.value), o.value + c.value - d.value, t.value)
  }

  /** The verdict on a difference between the stated and the expected closing balance. */
  function Judged(difference: int, expected: int, tolerance: int): ReconciliationResult {
    var mismatch := difference < -tolerance || difference > tolerance;
    ReconciliationResult(
      if mismatch then Mismatch else Matched, Some(ScaledToDecimal(difference)), Some(ScaledToDecimal(expected)),
      if mismatch then BalanceMismatch else WithinTolerance)
  }

  // ---------- the rows as numbers ----------

  /** A row whose amount and direction are known. */
  predicate IsKnown(c: Candidate) { c.amount.Some? && c.direction != Unknown }

  predicate AllKnown(cs: seq<Candidate>) { forall c <- cs :: IsKnown(c) }

  predicate AmountsParse(cs: seq<Candidate>) { forall c <- cs :: DecimalToScaled(c.amount.GetOr("0")).Some? }

  function AmountOf(c: Candidate): int { DecimalToScaled(c.amount.GetOr("0")).GetOr(0) }

  function Signed(c: Candidate): int { if c.direction == Debit then -AmountOf(c) else AmountOf(c) }

  function SumOf(cs: seq<Candidate>, direction: Direction): int {
    if cs == [] then 0
    else SumOf(cs[..|cs| - 1], direction) + if cs[|cs| - 1].direction == direction then AmountOf(cs[|cs| - 1]) else 0
  }

  function SumSigned(cs: seq<Candidate>): int {
    if cs == [] then 0 else SumSigned(cs[..|cs| - 1]) + Signed(cs[|cs| - 1])
  }

  predicate HasBalance(c: Candidate) { c.balanceAfter.Some? }

  /** `p` and `q` are the first and the last row that carry a balance. */
  ghost predicate BalancesSpan(cs: seq<Candidate>, p: nat, q: nat) {
    && p <= q < |cs| && HasBalance(cs[p]) && HasBalance(cs[q])
    && (forall i :: 0 <= i < p ==> !HasBalance(cs[i])) && (forall i :: q < i < |cs| ==> !HasBalance(cs[i]))
  }

  function BalanceOf(c: Candidate): int { DecimalToScaled(c.balanceAfter.GetOr("0")).GetOr(0) }

  predicate BalanceParses(c: Candidate) { DecimalToScaled(c.balanceAfter.GetOr("0")).Some? }

  /** What is stored of the reconciliation; a failure keeps the balances derived before it. */
  datatype Derived = Derived(result: ReconciliationResult, opening: Option<string>, closing: Option<string>)

  /** What the rows and the PDF's own balances say together, with the derived opening balance before the first balance. */
  ghost function DerivedFrom(cs: seq<Candidate>, p: nat, q: nat, pdfOpening: Option<string>, pdfClosing: Option<string>): Derived
    requires p < |cs| && q < |cs|
  {
    if !AmountsParse(cs) || !BalanceParses(cs[p]) then Derived(INVALID, pdfOpening, pdfClosing)
    else
      var opening := if pdfOpening.Some? then pdfOpening else Some(ScaledToDecimal(BalanceOf(cs[p]) - Signed(cs[p])));
      if pdfClosing.None? && !BalanceParses(cs[q]) then Derived(INVALID, opening, None)
      else
        var closing := if pdfClosing.Some? then pdfClosing else Some(ScaledToDecimal(BalanceOf(cs[q])));
        var result := ReconcileStatement(
          opening, closing, ScaledToDecimal(SumOf(cs, Credit)), ScaledToDecimal(SumOf(cs, Debit)), MINIMUM_MONEY_UNIT);
        Derived(result, opening, closing)
  }

  ghost function Reconciled(cs: seq<Candidate>, p: nat, q: nat, pdfOpening: Option<string>, pdfClosing: Option<string>): ReconciliationResult
    requires p < |cs| && q < |cs|
  {
    DerivedFrom(cs, p, q, pdfOpening, pdfClosing).result
  }

  lemma SumsBySnoc(cs: seq<Candidate>, i: nat)
    requires i < |cs|
    ensures SumOf(cs[..i + 1], Credit) == SumOf(cs[..i], Credit) + if cs[i].direction == Credit then AmountOf(cs[i]) else 0
    ensures SumOf(cs[..i + 1], Debit) == SumOf(cs[..i], Debit) + if cs[i].direction == Debit then AmountOf(cs[i]) else 0
  {
    assert cs[..i + 1][..i] == cs[..i];
  }

  /** The rows that carry a balance, in order. */
  function WithBalance(cs: seq<Candidate>): (bs: seq<Candidate>) {
    if cs == [] then []
    else if HasBalance(cs[|cs| - 1]) then WithBalance(cs[..|cs| - 1]) + [cs[|cs| - 1]]
    else WithBalance(cs[..|cs| - 1])
  }

  lemma {:induction false} WithBalanceSpans(cs: seq<Candidate>) returns (p: nat, q: nat)
    requires WithBalance(cs) != []
    ensures BalancesSpan(cs, p, q)
    ensures cs[p] == WithBalance(cs)[0] && cs[q] == WithBalance(cs)[|WithBalance(cs)| - 1]
  {
    var n := |cs| - 1;
    if WithBalance(cs[..n]) == [] {
      NoBalances(cs[..n]);
      p, q := n, n;
      assert forall i :: 0 <= i < n ==> cs[i] in cs[..n];
    } else {
      p, q := WithBalanceSpans(cs[..n]);
      if HasBalance(cs[n]) { q := n; }
    }
  }

  lemma {:induction false} NoBalances(cs: seq<Candidate>)
    ensures WithBalance(cs) == [] <==> forall c <- cs :: !HasBalance(c)
  {
    if cs != [] {
      NoBalances(cs[..|cs| - 1]);
      assert cs == cs[..|cs| - 1] + [cs[|cs| - 1]];
    }
  }

  /**
   * Derives the reconciliation of a parsed statement. Without a balance, or with an amount or a
   * direction missing, nothing is verified.
   */
  method DeriveReconciliation(cs: seq<Candidate>, pdfOpening: Option<string>, pdfClosing: Option<string>) returns (r: Derived)
    ensures !AllKnown(cs) || WithBalance(cs) == [] ==> r == Derived(MISSING, pdfOpening, pdfClosing)
    ensures AllKnown(cs) ==> forall p, q :: BalancesSpan(cs, p, q) ==> r == DerivedFrom(cs, p, q, pdfOpening, pdfClosing)
  {
    hide ReconcileStatement, DecimalToScaled, ScaledToDecimal, SumOf, WithBalance;
    var balances := WithBalance(cs);
    var opening, closing := pdfOpening, pdfClosing;
    r := Derived(MISSING, opening, closing);
    if balances == [] || !AllKnown(cs) {
      NoBalances(cs);
      return;
    }
    ghost var p, q := WithBalanceSpans(cs);
    OnlyOneSpan(cs, p, q);
    var credits, debits := 0, 0;
    SumsOfNothing();
    for i := 0 to |cs|
      invariant credits == SumOf(cs[..i], Credit) && debits == SumOf(cs[..i], Debit)
      invariant AmountsParse(cs[..i])
    {
      hide BalancesSpan;
      SumsBySnoc(cs, i);
      assert cs[i] in cs;
      assert cs[..i + 1] == cs[..i] + [cs[i]];
      var amount := DecimalToScaled(cs[i].amount.GetOr("0"));
      if amount.None? { return Derived(INVALID, opening, closing); }
      if cs[i].direction == Credit { credits := credits + amount.value; }
      if cs[i].direction == Debit { debits := debits + amount.value; }
    }
    assert cs[..|cs|] == cs;
    var first, last := balances[0], balances[|balances| - 1];
    var firstSigned := DecimalToScaled(first.amount.GetOr("0")).GetOr(0) * (if first.direction == Debit then -1 else 1);
    assert firstSigned == Signed(cs[p]);
    var firstBalance := DecimalToScaled(first.balanceAfter.GetOr("0"));
    if firstBalance.None? { return Derived(INVALID, opening, closing); }
    if opening.None? { opening := Some(ScaledToDecimal(firstBalance.value - firstSigned)); }
    if closing.None? {
      var lastBalance := DecimalToScaled(last.balanceAfter.GetOr("0"));
      if lastBalance.None? { return Derived(INVALID, opening, closing); }
      closing := Some(ScaledToDecimal(lastBalance.value));
    }
    var result := ReconcileStatement(opening, closing, ScaledToDecimal(credits), ScaledToDecimal(debits), MINIMUM_MONEY_UNIT);
    r := Derived(result, opening, closing);
  }

  lemma SumsOfNothing()
    ensures SumOf([], Credit) == 0 && SumOf([], Debit) == 0
  {
  }

  lemma OnlyOneSpan(cs: seq<Candidate>, p: nat, q: nat)
    requires BalancesSpan(cs, p, q)
    ensures forall i, j :: BalancesSpan(cs, i, j) ==> i == p && j == q
  {
  }

  // ---------- what the difference is ----------

  lemma {:induction false} SignedIsCreditsMinusDebits(cs: seq<Candidate>)
    requires AllKnown(cs)
    ensures SumSigned(cs) == SumOf(cs, Credit) - SumOf(cs, Debit)
  {
    if cs != [] {
      assert cs[|cs| - 1] in cs && IsKnown(cs[|cs| - 1]);
      SignedIsCreditsMinusDebits(cs[..|cs| - 1]);
    }
  }

  lemma {:induction false} SumSignedConcat(a: seq<Candidate>, b: seq<Candidate>)
    ensures SumSigned(a + b) == SumSigned(a) + SumSigned(b)
  {
    hide Signed;
    if b == [] {
      assert a + b == a;
    } else {
      var s := a + b;
      assert s[..|s| - 1] == a + b[..|b| - 1] && s[|s| - 1] == b[|b| - 1];
      SumSignedConcat(a, b[..|b| - 1]);
    }
  }

  /** Everything the computation passes through fits 14 whole digits. */
  ghost predicate AllInRange(cs: seq<Candidate>, p: nat)
    requires p < |cs|
  {
    InRange(BalanceOf(cs[p]) - Signed(cs[p])) && InRange(SumOf(cs, Credit)) && InRange(SumOf(cs, Debit))
  }

  ghost predicate AllReadable(cs: seq<Candidate>, p: nat, q: nat)
    requires p < |cs| && q < |cs|
  {
    AmountsParse(cs) && BalanceParses(cs[p]) && BalanceParses(cs[q])
  }

  /** The last balance, less the first, less everything booked by rows other than the first that carries a balance. */
  ghost function Discrepancy(cs: seq<Candidate>, p: nat, q: nat): int
    requires p < |cs| && q < |cs|
  {
    BalanceOf(cs[q]) - BalanceOf(cs[p]) - (SumSigned(cs) - Signed(cs[p]))
  }

  lemma ToleranceIsOneUnit()
    ensures DecimalToScaled(MINIMUM_MONEY_UNIT) == Some(1)
  {
    PrintedUnit();
    ParseUndoesPrint(1);
  }

  lemma PrintedUnit()
    ensures ScaledToDecimal(1) == MINIMUM_MONEY_UNIT
  {
  }

  lemma {:induction false} PrintedIsNotEmpty(v: int)
    ensures ScaledToDecimal(v) != ""
  {
    Money.PrintedParts(v);
  }

  /**
   * Without PDF balances, for known and readable rows: the statement is judged by its discrepancy
   * alone, as long as everything fits; otherwise nothing is verified.
   */
  lemma JudgedByDiscrepancy(cs: seq<Candidate>, p: nat, q: nat)
    requires AllKnown(cs) && BalancesSpan(cs, p, q) && AllReadable(cs, p, q)
    ensures AllInRange(cs, p) ==>
      Reconciled(cs, p, q, None, None)
      == Judged(Discrepancy(cs, p, q), BalanceOf(cs[p]) - Signed(cs[p]) + SumSigned(cs), 1)
    ensures !AllInRange(cs, p) ==> Reconciled(cs, p, q, None, None) == INVALID
  {
    hide DecimalToScaled, ScaledToDecimal, Judged, SumOf, SumSigned, AllKnown, AmountsParse;
    var opening := BalanceOf(cs[p]) - Signed(cs[p]);
    SignedIsCreditsMinusDebits(cs);
    ToleranceIsOneUnit();
    PrintedIsNotEmpty(opening);
    PrintedIsNotEmpty(BalanceOf(cs[q]));
    ParseUndoesPrint(opening);
    ParseUndoesPrint(BalanceOf(cs[q]));
    ParseUndoesPrint(SumOf(cs, Credit));
    ParseUndoesPrint(SumOf(cs, Debit));
    ParsedValueInRange(cs[q].balanceAfter.GetOr("0"));
  }

  /** The opening balance as a number: the one the PDF states, or the one before the first balance. */
  ghost function OpeningOf(cs: seq<Candidate>, p: nat, stated: Option<string>): int
    requires p < |cs|
  {
    if stated == None then BalanceOf(cs[p]) - Signed(cs[p]) else DecimalToScaled(stated.value).GetOr(0)
  }

  ghost function ClosingOf(cs: seq<Candidate>, q: nat, stated: Option<string>): int
    requires q < |cs|
  {
    if stated == None then BalanceOf(cs[q]) else DecimalToScaled(stated.value).GetOr(0)
  }

  /** A balance the PDF states, if it does, is there and readable. */
  predicate IsReadable(stated: Option<string>) {
    stated != None ==> stated.value != "" && DecimalToScaled(stated.value).Some?
  }

  /**
   * With balances from the PDF, from the rows or one of each, a statement is matched exactly if the
   * closing balance is the opening one plus credits minus debits, up to one unit; what is stored are
   * the stated balances, or those of the rows.
   */
  lemma JudgedByBalances(cs: seq<Candidate>, p: nat, q: nat, opening: Option<string>, closing: Option<string>)
    requires AllKnown(cs) && BalancesSpan(cs, p, q) && AmountsParse(cs) && BalanceParses(cs[p])
    requires IsReadable(opening) && IsReadable(closing) && (closing == None ==> BalanceParses(cs[q]))
    requires InRange(OpeningOf(cs, p, opening)) && InRange(SumOf(cs, Credit)) && InRange(SumOf(cs, Debit))
    ensures var r, o, c := DerivedFrom(cs, p, q, opening, closing), OpeningOf(cs, p, opening), ClosingOf(cs, q, closing);
      var difference := c - (o + SumOf(cs, Credit) - SumOf(cs, Debit));
      && r.result.status == (if -1 <= difference <= 1 then Matched else Mismatch)
      && r.result.reason == (if -1 <= difference <= 1 then WithinTolerance else BalanceMismatch)
      && r.result.difference == Some(ScaledToDecimal(difference))
      && r.result.expectedClosing == Some(ScaledToDecimal(c - difference))
      && r.opening == (if opening == None then Some(ScaledToDecimal(o)) else opening)
      && r.closing == (if closing == None then Some(ScaledToDecimal(c)) else closing)
  {
    hide DecimalToScaled, ScaledToDecimal, SumOf, SumSigned, AllKnown, AmountsParse, Signed, AmountOf;
    ToleranceIsOneUnit();
    PrintedIsNotEmpty(OpeningOf(cs, p, opening));
    PrintedIsNotEmpty(ClosingOf(cs, q, closing));
    ParseUndoesPrint(OpeningOf(cs, p, opening));
    ParseUndoesPrint(ClosingOf(cs, q, closing));
    ParseUndoesPrint(SumOf(cs, Credit));
    ParseUndoesPrint(SumOf(cs, Debit));
    if closing == None { ParsedValueInRange(cs[q].balanceAfter.GetOr("0")); }
  }

  /** A stated balance that is blank verifies nothing. */
  lemma BlankBalanceIsMissing(cs: seq<Candidate>, p: nat, q: nat, opening: Option<string>, closing: Option<string>)
    requires p < |cs| && q < |cs| && AmountsParse(cs) && BalanceParses(cs[p]) && BalanceParses(cs[q])
    requires opening == Some("") || closing == Some("")
    ensures Reconciled(cs, p, q, opening, closing) == MISSING
  {
    hide DecimalToScaled, ScaledToDecimal, SumOf, AmountsParse;
  }

  /** The balances agree with the rows between them: each balance is the one before plus what was booked since. */
  ghost predicate BalancesConsistent(cs: seq<Candidate>, p: nat) {
    p < |cs| && forall i :: p <= i < |cs| && HasBalance(cs[i]) ==>
      BalanceOf(cs[i]) == BalanceOf(cs[p]) + SumSigned(cs[p + 1..i + 1])
  }

  /** What is booked before the first balance and after the last. */
  ghost function BookedOutside(cs: seq<Candidate>, p: nat, q: nat): int
    requires p <= q < |cs|
  {
    SumSigned(cs[..p]) + SumSigned(cs[q + 1..])
  }

  lemma SumSplits(cs: seq<Candidate>, p: nat, q: nat)
    requires p <= q < |cs|
    ensures SumSigned(cs)
         == SumSigned(cs[..p]) + Signed(cs[p]) + SumSigned(cs[p + 1..q + 1]) + SumSigned(cs[q + 1..])
  {
    hide SumSigned, Signed;
    var between := cs[p + 1..q + 1];
    SumSignedConcat(cs[..p], [cs[p]]);
    SumSignedConcat(cs[..p] + [cs[p]], between);
    SumSignedConcat(cs[..p] + [cs[p]] + between, cs[q + 1..]);
    assert cs == cs[..p] + [cs[p]] + between + cs[q + 1..];
    SumOfOne(cs[p]);
  }

  lemma DiscrepancyIsOutside(cs: seq<Candidate>, p: nat, q: nat)
    requires BalancesSpan(cs, p, q) && BalancesConsistent(cs, p)
    ensures Discrepancy(cs, p, q) == -BookedOutside(cs, p, q)
  {
    hide SumSigned, Signed, BalanceOf, HasBalance;
    SumSplits(cs, p, q);
    assert BalanceOf(cs[q]) == BalanceOf(cs[p]) + SumSigned(cs[p + 1..q + 1]);
  }

  lemma SumOfOne(c: Candidate)
    ensures SumSigned([c]) == Signed(c)
  {
    assert [c][..0] == [];
    assert SumSigned([]) == 0;
  }

  /**
   * Consistent running balances are matched exactly when the rows outside the balances book at most
   * one unit in all. So a statement with balances on its first and last rows always matches, with
   * difference 0; rows before the first or after the last balance can make it a mismatch.
   */
  lemma ConsistentBalancesMatchIff(cs: seq<Candidate>, p: nat, q: nat)
    requires p <= q < |cs| && AllKnown(cs) && BalancesSpan(cs, p, q) && AllReadable(cs, p, q) && AllInRange(cs, p)
    requires BalancesConsistent(cs, p)
    ensures Reconciled(cs, p, q, None, None).status == Matched <==> -1 <= BookedOutside(cs, p, q) <= 1
    ensures Reconciled(cs, p, q, None, None).status == Mismatch <==> !(-1 <= BookedOutside(cs, p, q) <= 1)
    ensures p == 0 && q == |cs| - 1 ==>
      Reconciled(cs, p, q, None, None).status == Matched && Reconciled(cs, p, q, None, None).difference == Some("0")
  {
    hide *;
    JudgedByDiscrepancy(cs, p, q);
    DiscrepancyIsOutside(cs, p, q);
    JudgedStatus(Discrepancy(cs, p, q), BalanceOf(cs[p]) - Signed(cs[p]) + SumSigned(cs));
    if p == 0 && q == |cs| - 1 {
      NothingOutside(cs);
      PrintedZero(Discrepancy(cs, p, q));
    }
  }

  lemma PrintedZero(v: int)
    requires v == 0
    ensures ScaledToDecimal(v) == "0"
  {
  }

  lemma JudgedStatus(difference: int, expected: int)
    ensures Judged(difference, expected, 1).status == if -1 <= difference <= 1 then Matched else Mismatch
    ensures Judged(difference, expected, 1).difference == Some(ScaledToDecimal(difference))
  {
    hide ScaledToDecimal;
  }

  lemma NothingOutside(cs: seq<Candidate>)
    requires |cs| > 0
    ensures BookedOutside(cs, 0, |cs| - 1) == 0
  {
    assert cs[..0] == [] && cs[|cs|..] == [];
  }

  /** With balances on the first and the last row, the first row's amount does not matter. */
  lemma FirstAmountCancels(cs: seq<Candidate>)
    requires |cs| > 0 && BalancesSpan(cs, 0, |cs| - 1)
    ensures Discrepancy(cs, 0, |cs| - 1) == BalanceOf(cs[|cs| - 1]) - BalanceOf(cs[0]) - SumSigned(cs[1..])
  {
    hide SumSigned;
    assert cs == [cs[0]] + cs[1..];
    SumSignedConcat([cs[0]], cs[1..]);
    SumOfOne(cs[0]);
  }

  // ---------- a statement that leaks ----------

  function LeakyRow(sourceRow: int, amount: int, balance: Option<int>): Candidate {
    Candidate(sourceRow, Some("2024-01-31"), None, Some("x"), Some(ScaledToDecimal(amount)), Some("EUR"), Credit,
              if balance.Some? then Some(ScaledToDecimal(balance.value)) else None, 0)
  }

  /** Three credits of `x` units, with running balances on the last two. */
  function LeakyRows(x: int): seq<Candidate> { [LeakyRow(1, x, None), LeakyRow(2, x, Some(x)), LeakyRow(3, x, Some(x + x))] }

  lemma LeakyRowReads(sourceRow: int, amount: int, balance: Option<int>)
    requires InRange(amount) && (balance.Some? ==> InRange(balance.value))
    ensures var c := LeakyRow(sourceRow, amount, balance);
      && IsKnown(c) && DecimalToScaled(c.amount.GetOr("0")).Some? && Signed(c) == AmountOf(c) == amount
      && (balance.Some? ==> BalanceParses(c) && BalanceOf(c) == balance.value)
  {
    hide ScaledToDecimal, DecimalToScaled;
    ParseUndoesPrint(amount);
    if balance.Some? { ParseUndoesPrint(balance.value); }
  }

  /** Its balances are consistent, and it is a mismatch as soon as `x` is more than the tolerated unit. */
  lemma LeakyRowsMismatch(x: int)
    requires 1 < x < 1_000_000
    ensures var cs := LeakyRows(x);
      && AllKnown(cs) && BalancesSpan(cs, 1, 2) && AllReadable(cs, 1, 2) && AllInRange(cs, 1) && BalancesConsistent(cs, 1)
      && Reconciled(cs, 1, 2, None, None).status == Mismatch
  {
    hide LeakyRow, IsKnown, DecimalToScaled, ScaledToDecimal, AmountOf, Signed, BalanceOf, Reconciled, Judged;
    var cs := LeakyRows(x);
    LeakyRowReads(1, x, None);
    LeakyRowReads(2, x, Some(x));
    LeakyRowReads(3, x, Some(x + x));
    LeakyRowsSpan(x);
    SumsOfThree(cs[0], cs[1], cs[2]);
    SumOfOne(cs[0]);
    SumOfOne(cs[2]);
    assert cs[2..3] == [cs[2]] && cs[..1] == [cs[0]] && cs[3..] == [] && cs[2..2] == [];
    assert SumSigned([]) == 0;
    ConsistentBalancesMatchIff(cs, 1, 2);
  }

  lemma LeakyRowsSpan(x: int)
    ensures BalancesSpan(LeakyRows(x), 1, 2)
    ensures forall c <- LeakyRows(x) :: c.direction == Credit
  {
    hide ScaledToDecimal;
  }

  lemma SumsOfThree(a: Candidate, b: Candidate, c: Candidate)
    requires a.direction == Credit && b.direction == Credit && c.direction == Credit
    ensures SumOf([a, b, c], Credit) == AmountOf(a) + AmountOf(b) + AmountOf(c) && SumOf([a, b, c], Debit) == 0
  {
    hide AmountOf;
    assert [a, b, c][..2] == [a, b] && [a, b][..1] == [a] && [a][..0] == [];
    assert SumOf([], Credit) == 0 && SumOf([], Debit) == 0;
    assert SumOf([a], Credit) == AmountOf(a) && SumOf([a], Debit) == 0;
    assert SumOf([a, b], Credit) == AmountOf(a) + AmountOf(b) && SumOf([a, b], Debit) == 0;
  }
}
