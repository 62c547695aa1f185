/** Validation of the splits that replace a transaction's own category allocation. */
module Splits {
  import opened Wrappers
  import opened Money

  datatype SplitAmountInput = SplitAmountInput(id: string, position: int, amount: string, currencyCode: string)

  datatype SplitError =
    | InvalidParentAmount | SplitRequired | TooManySplits
    | DuplicateSplitId | DuplicateSplitPosition | SplitCurrencyMismatch
    | SplitAmountMustBePositive | InvalidSplitAmount
    | SplitTotalExceedsParent | SplitTotalBelowParent

  datatype SplitValidation = SplitValidation(valid: bool, errors: seq<SplitError>, total: string, remaining: string)

  /** An absent or empty id is not compared. */
  predicate HasId(s: SplitAmountInput) { s.id != "" }

  /** The amounts that parse, added up. */
  function Total(splits: seq<SplitAmountInput>): int {
    if splits == [] then 0
    else Total(splits[..|splits| - 1]) + DecimalToScaled(splits[|splits| - 1].amount).GetOr(0)
  }

  predicate IdSeen(before: seq<SplitAmountInput>, id: string) {
    id != "" && exists b <- before :: b.id == id
  }

  predicate PositionSeen(before: seq<SplitAmountInput>, position: int) {
    exists b <- before :: b.position == position
  }

  function If(condition: bool, error: SplitError): set<SplitError> { if condition then {error} else {} }

  lemma IfMeans(error: SplitError)
    ensures If(true, error) == {error} && If(false, error) == {}
  {
  }

  lemma UnionEmpty(a: set<SplitError>, b: set<SplitError>)
    ensures a + b == {} <==> a == {} && b == {}
  {
    if a + b == {} {
      assert forall x :: x in a ==> x in a + b;
      assert forall x :: x in b ==> x in a + b;
    }
  }

  function AmountErrors(amount: Option<int>): set<SplitError> {
    if amount.None? then {InvalidSplitAmount} else If(amount.value <= 0, SplitAmountMustBePositive)
  }

  function ErrorsAt(currency: string, before: seq<SplitAmountInput>, s: SplitAmountInput): set<SplitError> {
    If(IdSeen(before, s.id), DuplicateSplitId)
    + If(PositionSeen(before, s.position), DuplicateSplitPosition)
    + If(s.currencyCode != currency, SplitCurrencyMismatch)
    + AmountErrors(DecimalToScaled(s.amount))
  }

  function RowErrors(currency: string, splits: seq<SplitAmountInput>): set<SplitError> {
    if splits == [] then {}
    else
      var n := |splits| - 1;
      RowErrors(currency, splits[..n]) + ErrorsAt(currency, splits[..n], splits[n])
  }

  function SetErrors(parentAmount: string, splits: seq<SplitAmountInput>, maxSplits: int): set<SplitError> {
    var remaining := DecimalToScaled(parentAmount).GetOr(0) - Total(splits);
    If(DecimalToScaled(parentAmount).None?, InvalidParentAmount)
    + If(|splits| < 1, SplitRequired)
    + If(|splits| > maxSplits, TooManySplits)
    + If(remaining < 0, SplitTotalExceedsParent)
    + If(remaining > 0, SplitTotalBelowParent)
  }

  function AllErrors(parentAmount: string, currency: string, splits: seq<SplitAmountInput>, maxSplits: int): set<SplitError> {
    SetErrors(parentAmount, splits, maxSplits) + RowErrors(currency, splits)
  }

  function Elements<T>(s: seq<T>): set<T> { set x | x in s }

  /** `[...new Set(errors)]`: first occurrences, in order. */
  function Deduplicated<T(==)>(s: seq<T>): (r: seq<T>)
    ensures Elements(r) == Elements(s) && NoRepeats(r)
    ensures r == [] <==> s == []
  {
    if s == [] then []
    else
      var r := Deduplicated(s[..|s| - 1]);
      var x := s[|s| - 1];
      assert s == s[..|s| - 1] + [x];
      assert Elements(s) == Elements(s[..|s| - 1]) + {x} by { ElementsOfPush(s[..|s| - 1], x); }
      if x in r then assert x in Elements(r); r
      else assert Elements(r + [x]) == Elements(r) + {x} by { ElementsOfPush(r, x); } r + [x]
  }

  lemma NoElements()
    ensures Elements<SplitError>([]) == {}
  {
  }

  lemma ElementsOfPush<T>(s: seq<T>, x: T)
    ensures Elements(s + [x]) == Elements(s) + {x}
  {
    var t := s + [x];
    assert t[|s|] == x && forall i :: 0 <= i < |s| ==> t[i] == s[i];
  }

  /** `if (condition) errors.push(error)` */
  function PushIf(errors: seq<SplitError>, condition: bool, error: SplitError): (r: seq<SplitError>)
    ensures Elements(r) == Elements(errors) + If(condition, error)
    ensures r == [] <==> errors == [] && !condition
  {
    ElementsOfPush(errors, error);
    if condition then errors + [error] else errors
  }

  method ValidateSplitSet(parentAmount: string, parentCurrency: string, splits: seq<SplitAmountInput>, maxSplits: int)
    returns (result: SplitValidation)
    ensures Elements(result.errors) == AllErrors(parentAmount, parentCurrency, splits, maxSplits)
    ensures NoRepeats(result.errors)
    ensures result.valid <==> result.errors == []
    ensures result.total == ScaledToDecimal(Total(splits))
    ensures result.remaining == ScaledToDecimal(DecimalToScaled(parentAmount).GetOr(0) - Total(splits))
  {
    hide DecimalToScaled, ScaledToDecimal, Elements, PushIf, RowErrors, ErrorsAt, IdSeen, PositionSeen, Total, SetErrors, If;
    IfMeans(InvalidParentAmount);
    IfMeans(InvalidSplitAmount);
    var errors: seq<SplitError> := [];
    assert Elements<SplitError>([]) == {} by { NoElements(); }
    var parent := 0;
    match DecimalToScaled(parentAmount) {
      case Some(v) => parent := v;
      case None => errors := PushIf(errors, true, InvalidParentAmount);
    }
    errors := PushIf(errors, |splits| < 1, SplitRequired);
    errors := PushIf(errors, |splits| > maxSplits, TooManySplits);
    ghost var early := Elements(errors);
    var ids: set<string> := {};
    var positions: set<int> := {};
    var total := 0;
    NothingSeen(parentCurrency);
    assert splits[..0] == [];
    var i := 0;
    while i < |splits|
      invariant 0 <= i <= |splits|
      invariant forall x :: x in ids <==> IdSeen(splits[..i], x)
      invariant forall p :: p in positions <==> PositionSeen(splits[..i], p)
      invariant total == Total(splits[..i])
      invariant Elements(errors) == early + RowErrors(parentCurrency, splits[..i])
    {
      var split := splits[i];
      ghost var before := splits[..i];
      assert splits[..i + 1] == before + [split];
      OneMoreSplit(parentCurrency, before, split);
      errors := PushIf(errors, split.id != "" && split.id in ids, DuplicateSplitId);
      if split.id != "" { ids := ids + {split.id}; }
      errors := PushIf(errors, split.position in positions, DuplicateSplitPosition);
      positions := positions + {split.position};
      errors := PushIf(errors, split.currencyCode != parentCurrency, SplitCurrencyMismatch);
      match DecimalToScaled(split.amount) {
        case Some(amount) =>
          errors := PushIf(errors, amount <= 0, SplitAmountMustBePositive);
          total := total + amount;
        case None => errors := PushIf(errors, true, InvalidSplitAmount);
      }
      i := i + 1;
    }
    assert splits[..i] == splits;
    var remaining := parent - total;
    errors := PushIf(errors, remaining < 0, SplitTotalExceedsParent);
    errors := PushIf(errors, remaining > 0, SplitTotalBelowParent);
    assert Elements(errors) == AllErrors(parentAmount, parentCurrency, splits, maxSplits) by {
      AllErrorsInOrder(parentAmount, parentCurrency, splits, maxSplits);
    }
    result := SplitValidation(errors == [], Deduplicated(errors), ScaledToDecimal(total), ScaledToDecimal(remaining));
  }

  lemma NothingSeen(currency: string)
    ensures RowErrors(currency, []) == {} && Total([]) == 0
    ensures forall x :: !IdSeen([], x)
    ensures forall p :: !PositionSeen([], p)
  {
  }

  /** How each running quantity grows when the loop takes one more split. */
  lemma OneMoreSplit(currency: string, before: seq<SplitAmountInput>, s: SplitAmountInput)
    ensures RowErrors(currency, before + [s])
         == RowErrors(currency, before) + If(IdSeen(before, s.id), DuplicateSplitId)
            + If(PositionSeen(before, s.position), DuplicateSplitPosition)
            + If(s.currencyCode != currency, SplitCurrencyMismatch)
            + AmountErrors(DecimalToScaled(s.amount))
    ensures Total(before + [s]) == Total(before) + DecimalToScaled(s.amount).GetOr(0)
    ensures forall x :: IdSeen(before + [s], x) <==> IdSeen(before, x) || (x != "" && x == s.id)
    ensures forall p :: PositionSeen(before + [s], p) <==> PositionSeen(before, p) || p == s.position
    ensures IdSeen(before, s.id) ==> s.id != ""
  {
    hide DecimalToScaled, If, RowErrors;
    assert (before + [s])[..|before|] == before;
    RowErrorsSnoc(currency, before, s);
  }

  lemma TotalSnoc(before: seq<SplitAmountInput>, s: SplitAmountInput)
    ensures Total(before + [s]) == Total(before) + DecimalToScaled(s.amount).GetOr(0)
  {
    hide DecimalToScaled;
    assert (before + [s])[..|before|] == before;
  }

  lemma AllErrorsInOrder(parentAmount: string, currency: string, splits: seq<SplitAmountInput>, maxSplits: int)
    ensures var remaining := DecimalToScaled(parentAmount).GetOr(0) - Total(splits);
            AllErrors(parentAmount, currency, splits, maxSplits) ==
            If(DecimalToScaled(parentAmount).None?, InvalidParentAmount) + If(|splits| < 1, SplitRequired)
            + If(|splits| > maxSplits, TooManySplits) + RowErrors(currency, splits)
            + If(remaining < 0, SplitTotalExceedsParent) + If(remaining > 0, SplitTotalBelowParent)
  {
    hide DecimalToScaled, RowErrors, Total, If;
  }

  /** What an accepted split set is, said without the error list. */
  ghost predicate ExactSplitSet(parentAmount: string, currency: string, splits: seq<SplitAmountInput>, maxSplits: int) {
    && DecimalToScaled(parentAmount) == Some(Total(splits))
    && 1 <= |splits| <= maxSplits
    && CleanRows(currency, splits)
  }

  /** No error is reported exactly for positive, distinct, same-currency amounts that add up to the parent. */
  lemma ValidIffExact(parentAmount: string, currency: string, splits: seq<SplitAmountInput>, maxSplits: int)
    ensures AllErrors(parentAmount, currency, splits, maxSplits) == {}
       <==> ExactSplitSet(parentAmount, currency, splits, maxSplits)
  {
    NoRowErrors(currency, splits);
    var e := SetErrors(parentAmount, splits, maxSplits);
    hide DecimalToScaled, RowErrors, Total;
    assert (e == {}) == (DecimalToScaled(parentAmount) == Some(Total(splits)) && 1 <= |splits| <= maxSplits) by {
      SetErrorsMeaning(parentAmount, splits, maxSplits);
    }
  }

  lemma SetErrorsMeaning(parentAmount: string, splits: seq<SplitAmountInput>, maxSplits: int)
    ensures SetErrors(parentAmount, splits, maxSplits) == {}
       <==> DecimalToScaled(parentAmount) == Some(Total(splits)) && 1 <= |splits| <= maxSplits
  {
    hide DecimalToScaled, Total;
    var e := SetErrors(parentAmount, splits, maxSplits);
    if e == {} {
      assert InvalidParentAmount !in e && SplitRequired !in e && TooManySplits !in e;
      assert SplitTotalExceedsParent !in e && SplitTotalBelowParent !in e;
    }
  }

  ghost predicate CleanRows(currency: string, splits: seq<SplitAmountInput>) {
    && (forall i :: 0 <= i < |splits| ==>
          && DecimalToScaled(splits[i].amount).Some? && DecimalToScaled(splits[i].amount).value > 0
          && splits[i].currencyCode == currency)
    && (forall i, j :: 0 <= i < j < |splits| ==> splits[i].position != splits[j].position)
    && (forall i, j :: 0 <= i < j < |splits| && HasId(splits[i]) ==> splits[i].id != splits[j].id)
  }

  lemma {:induction false} NoRowErrors(currency: string, splits: seq<SplitAmountInput>)
    ensures RowErrors(currency, splits) == {} <==> CleanRows(currency, splits)
  {
    if splits != [] {
      hide DecimalToScaled, ErrorsAt, RowErrors, CleanRows, CleanAfter;
      var before, s := splits[..|splits| - 1], splits[|splits| - 1];
      assert splits == before + [s];
      NoRowErrors(currency, before);
      RowErrorsSnoc(currency, before, s);
      UnionEmpty(RowErrors(currency, before), ErrorsAt(currency, before, s));
      NoErrorsAt(currency, before, s);
      CleanRowsSnoc(currency, before, s);
    }
  }

  lemma RowErrorsSnoc(currency: string, before: seq<SplitAmountInput>, s: SplitAmountInput)
    ensures RowErrors(currency, before + [s]) == RowErrors(currency, before) + ErrorsAt(currency, before, s)
  {
    hide ErrorsAt;
    assert (before + [s])[..|before|] == before;
  }

  ghost predicate CleanAfter(currency: string, before: seq<SplitAmountInput>, s: SplitAmountInput) {
    && DecimalToScaled(s.amount).Some? && DecimalToScaled(s.amount).value > 0 && s.currencyCode == currency
    && (forall b :: b in before ==> b.position != s.position)
    && (forall b :: b in before && HasId(b) ==> b.id != s.id)
  }

  lemma CleanRowsSnoc(currency: string, before: seq<SplitAmountInput>, s: SplitAmountInput)
    ensures CleanRows(currency, before + [s]) <==> CleanRows(currency, before) && CleanAfter(currency, before, s)
  {
    hide DecimalToScaled;
    var t := before + [s];
    assert t[|before|] == s && forall i :: 0 <= i < |before| ==> t[i] == before[i];
  }

  lemma NoErrorsAt(currency: string, before: seq<SplitAmountInput>, s: SplitAmountInput)
    ensures ErrorsAt(currency, before, s) == {} <==> CleanAfter(currency, before, s)
  {
    hide DecimalToScaled;
    var e := ErrorsAt(currency, before, s);
    if e == {} {
      assert DuplicateSplitId !in e && DuplicateSplitPosition !in e && SplitCurrencyMismatch !in e;
      assert InvalidSplitAmount !in e && SplitAmountMustBePositive !in e;
    }
  }
}
