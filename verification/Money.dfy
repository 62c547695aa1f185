/**
 * Exact money: NUMERIC(20,6) text and integers scaled by a million.
 *
 * `DecimalToScaled` reads text, `ScaledToDecimal` prints it, `NumericText` is
 * what the database prints for a NUMERIC(20,6) column, and the arithmetic
 * helpers work on text through scaled integers.
 */
module Money {
  import opened Wrappers
  import opened Text

  const MONEY_SCALE: nat := 6
  const MONEY_SCALE_FACTOR: int := 1_000_000
  /** Ten to the 14 + 6: the first magnitude the text pattern cannot hold. */
  const MONEY_LIMIT: int := 100_000_000_000_000_000_000

  predicate InRange(v: int) { -MONEY_LIMIT < v < MONEY_LIMIT }

  function Abs(v: int): nat { if v < 0 then -v else v }

  // ---------- reading ----------

  /** The white space `String.prototype.trim` removes. */
  predicate IsSpace(c: char) {
    || '\t' <= c <= '\r' || c == ' ' || c == '\U{A0}' || c == '\U{1680}'
    || '\U{2000}' <= c <= '\U{200A}' || c == '\U{2028}' || c == '\U{2029}'
    || c == '\U{202F}' || c == '\U{205F}' || c == '\U{3000}' || c == '\U{FEFF}'
  }

  function TrimStart(s: string): (t: string)
    ensures t == "" || !IsSpace(t[0])
    ensures (s == "" || !IsSpace(s[0])) ==> t == s
  {
    if s == "" || !IsSpace(s[0]) then s else TrimStart(s[1..])
  }

  function TrimEnd(s: string): (t: string)
    ensures t <= s
    ensures t == "" || !IsSpace(t[|t| - 1])
    ensures (s == "" || !IsSpace(s[|s| - 1])) ==> t == s
  {
    if s == "" || !IsSpace(s[|s| - 1]) then s else TrimEnd(s[..|s| - 1])
  }

  function Trim(s: string): string { TrimEnd(TrimStart(s)) }

  /** Index of the first full stop, or the length of the text. */
  function DotIndex(s: string): (k: nat)
    ensures k <= |s|
    ensures forall i :: 0 <= i < k ==> s[i] != '.'
    ensures k < |s| ==> s[k] == '.'
  {
    if s == "" || s[0] == '.' then 0 else 1 + DotIndex(s[1..])
  }

  predicate HasSign(s: string) { s != "" && s[0] == '-' }

  function Unsigned(s: string): string { if HasSign(s) then s[1..] else s }

  function Whole(s: string): string { Unsigned(s)[..DotIndex(Unsigned(s))] }

  predicate HasDot(s: string) { DotIndex(Unsigned(s)) < |Unsigned(s)| }

  /** The text after the first full stop; empty without one. */
  function Fraction(s: string): string {
    var u := Unsigned(s);
    if HasDot(s) then u[DotIndex(u) + 1..] else ""
  }

  /** The pattern `^-?\d{1,14}(?:\.\d{1,6})?$`, with the optional ban on a sign. */
  predicate IsSafeDecimalString(s: string, allowNegative: bool) {
    && (allowNegative || !HasSign(s))
    && 1 <= |Whole(s)| <= 14 && AllDigits(Whole(s))
    && (HasDot(s) ==> 1 <= |Fraction(s)| <= 6 && AllDigits(Fraction(s)))
  }

  /** The value of text that matches the pattern. */
  function Reading(s: string): int
    requires IsSafeDecimalString(s, true)
  {
    FixedWidthFraction(Fraction(s));
    var scaled := Value(Whole(s)) * MONEY_SCALE_FACTOR + Value(PadEnd(Fraction(s), MONEY_SCALE));
    if HasSign(s) then -scaled else scaled
  }

  /** Parses NUMERIC(20,6) text; `None` stands for the thrown error. */
  function DecimalToScaled(value: string): Option<int> {
    var normalized := Trim(value);
    if !IsSafeDecimalString(normalized, true) then None else Some(Reading(normalized))
  }

  // ---------- printing ----------

  function FractionDigits(n: nat): string {
    PadStart(NatText(n % MONEY_SCALE_FACTOR), MONEY_SCALE)
  }

  /** Sign, whole digits and, unless it is empty, a full stop with the fraction. */
  function Assemble(negative: bool, whole: string, fraction: string): string {
    (if negative then "-" else "") + whole + (if fraction == "" then "" else "." + fraction)
  }

  /** Prints a scaled integer as canonical decimal text. */
  function ScaledToDecimal(v: int): string {
    Assemble(v < 0, NatText(Abs(v) / MONEY_SCALE_FACTOR), TrimZeros(FractionDigits(Abs(v))))
  }

  /** How the database prints a NUMERIC(20,6) value: always six fraction digits. */
  function NumericText(v: int): string {
    Assemble(v < 0, NatText(Abs(v) / MONEY_SCALE_FACTOR), FractionDigits(Abs(v)))
  }

  /** The spending report's own shortening of database text (null is `None`). */
  function TrimNumeric(value: Option<string>): string {
    if value.None? then "0" else
      var text := Trim(value.value);
      if text == "" || text == "0" then "0" else
        Shortened(HasSign(text), Whole(text), BeforeDot(Fraction(text)))
  }

  function BeforeDot(s: string): string { s[..DotIndex(s)] }

  function Shortened(negative: bool, whole: string, fraction: string): string {
    var result := (if whole == "" then "0" else whole)
                  + (if HasNonZeroDigit(fraction) then "." + TrimZeros(fraction) else "");
    if negative then "-" + result else result
  }

  /** `/[1-9]/.test(s)` */
  predicate HasNonZeroDigit(s: string) { exists i :: 0 <= i < |s| && '1' <= s[i] <= '9' }

  function NormalizeDecimal(value: string): Option<string> {
    var v :- DecimalToScaled(value);
    Some(ScaledToDecimal(v))
  }

  // ---------- arithmetic on text ----------

  function AddMoney(left: string, right: string): Option<string> {
    var l :- DecimalToScaled(left);
    var r :- DecimalToScaled(right);
    Some(ScaledToDecimal(l + r))
  }

  function SubtractMoney(left: string, right: string): Option<string> {
    var l :- DecimalToScaled(left);
    var r :- DecimalToScaled(right);
    Some(ScaledToDecimal(l - r))
  }

  function IsNegative(value: string): Option<bool> {
    var v :- DecimalToScaled(value);
    Some(v < 0)
  }

  // ---------- proofs: reading undoes printing ----------

  lemma FixedWidthFraction(f: string)
    ensures AllDigits(f) ==> AllDigits(PadEnd(f, MONEY_SCALE))
  {
  }

  lemma PowersOfTen()
    ensures Pow10(6) == MONEY_SCALE_FACTOR
    ensures Pow10(14) == 100_000_000_000_000
    ensures Pow10(2) == 100
  {
    assert Pow10(3) == 1000;
    assert Pow10(6) == 1000 * Pow10(3);
    assert Pow10(9) == 1000 * Pow10(6);
    assert Pow10(12) == 1000 * Pow10(9);
  }

  lemma FractionDigitsShape(n: nat)
    ensures |FractionDigits(n)| == MONEY_SCALE && AllDigits(FractionDigits(n))
    ensures Value(FractionDigits(n)) == n % MONEY_SCALE_FACTOR
  {
    PowersOfTen();
    FixedWidth(n % MONEY_SCALE_FACTOR, MONEY_SCALE);
  }

  /** Assembled text splits back into its parts and has no space to trim. */
  lemma Assembled(negative: bool, whole: string, fraction: string)
    requires AllDigits(whole) && whole != "" && AllDigits(fraction)
    ensures var s := Assemble(negative, whole, fraction);
            && HasSign(s) == negative && Whole(s) == whole
            && HasDot(s) == (fraction != "") && Fraction(s) == fraction
  {
    var tail := if fraction == "" then "" else "." + fraction;
    var s := Assemble(negative, whole, fraction);
    assert s[0] == if negative then '-' else whole[0];
    assert IsDigit(whole[0]);
    assert Unsigned(s) == whole + tail;
    DotAfter(whole, tail);
    assert (whole + tail)[..|whole|] == whole;
    if fraction != "" {
      assert (whole + tail)[|whole| + 1..] == fraction;
    }
  }

  lemma AssembledTrims(negative: bool, whole: string, fraction: string)
    requires AllDigits(whole) && whole != "" && AllDigits(fraction)
    ensures var s := Assemble(negative, whole, fraction);
            Trim(s) == s && |s| >= |whole| + |fraction|
  {
    AssembleEnds(negative, whole, fraction);
    hide Trim;
    NoSpaceToTrim(Assemble(negative, whole, fraction));
  }

  lemma {:induction false} DotAfter(whole: string, tail: string)
    requires AllDigits(whole)
    requires tail == "" || tail[0] == '.'
    ensures DotIndex(whole + tail) == |whole|
  {
    if whole == "" {
      assert whole + tail == tail;
    } else {
      assert IsDigit(whole[0]) && (whole + tail)[0] == whole[0];
      assert (whole + tail)[1..] == whole[1..] + tail;
      DotAfter(whole[1..], tail);
    }
  }

  /** Text that starts with a sign or digit and ends in a digit is its own trim. */
  lemma NoSpaceToTrim(s: string)
    requires s != "" && (IsDigit(s[0]) || s[0] == '-') && IsDigit(s[|s| - 1])
    ensures Trim(s) == s
  {
  }

  /** What `ScaledToDecimal` printed, taken apart again. */
  lemma PrintedParts(v: int)
    ensures var s := ScaledToDecimal(v);
            var whole := NatText(Abs(v) / MONEY_SCALE_FACTOR);
            var fraction := TrimZeros(FractionDigits(Abs(v)));
            && HasSign(s) == (v < 0) && Whole(s) == whole && AllDigits(whole)
            && Fraction(s) == fraction && AllDigits(fraction) && |fraction| <= 6
            && HasDot(s) == (fraction != "")
            && AllDigits(PadEnd(fraction, MONEY_SCALE))
            && Value(PadEnd(fraction, MONEY_SCALE)) == Abs(v) % MONEY_SCALE_FACTOR
            && Value(whole) == Abs(v) / MONEY_SCALE_FACTOR
            && Trim(s) == s
  {
    var n := Abs(v);
    var whole := NatText(n / MONEY_SCALE_FACTOR);
    var fraction := TrimZeros(FractionDigits(n));
    FractionDigitsShape(n);
    PadEndOfTrimZeros(FractionDigits(n));
    ValueOfNatText(n / MONEY_SCALE_FACTOR);
    Assembled(v < 0, whole, fraction);
    AssembledTrims(v < 0, whole, fraction);
    hide Assemble, Whole, Fraction, HasDot, HasSign, Trim, NatText, TrimZeros, FractionDigits, PadEnd, Value;
  }

  lemma WholeDigitsBound(n: nat)
    ensures |NatText(n / MONEY_SCALE_FACTOR)| <= 14 <==> n < MONEY_LIMIT
  {
    PowersOfTen();
    NatTextLength(n / MONEY_SCALE_FACTOR, 14);
  }

  /** Text whose parts hold the quotient and remainder of `v` parses to `v`, in range. */
  lemma ParseOfParts(s: string, v: int, whole: string, f: string)
    requires Trim(s) == s && HasSign(s) == (v < 0)
    requires Whole(s) == whole && AllDigits(whole) && whole != ""
    requires Fraction(s) == f && AllDigits(f) && |f| <= 6 && HasDot(s) == (f != "")
    requires Value(whole) == Abs(v) / MONEY_SCALE_FACTOR
    requires AllDigits(PadEnd(f, MONEY_SCALE)) && Value(PadEnd(f, MONEY_SCALE)) == Abs(v) % MONEY_SCALE_FACTOR
    requires |whole| <= 14 <==> Abs(v) < MONEY_LIMIT
    ensures DecimalToScaled(s) == if InRange(v) then Some(v) else None
  {
    hide Whole, Fraction, HasDot, HasSign, Trim, PadEnd, Value, AllDigits;
  }

  /** Printing then parsing is the identity exactly on magnitudes below 10^20. */
  lemma ParseUndoesPrint(v: int)
    ensures DecimalToScaled(ScaledToDecimal(v)) == if InRange(v) then Some(v) else None
  {
    hide ScaledToDecimal, DecimalToScaled, NatText, TrimZeros, FractionDigits, Whole, Fraction, HasDot, HasSign, Trim, PadEnd,
      Value, AllDigits;
    var whole, f := NatText(Abs(v) / MONEY_SCALE_FACTOR), TrimZeros(FractionDigits(Abs(v)));
    PrintedParts(v);
    WholeDigitsBound(Abs(v));
    ParseOfParts(ScaledToDecimal(v), v, whole, f);
  }

  /** Every parsed value is in range, and the database can print it back unchanged. */
  lemma ParsedValueInRange(s: string)
    requires DecimalToScaled(s).Some?
    ensures InRange(DecimalToScaled(s).value)
  {
    var t := Trim(s);
    var f := PadEnd(Fraction(t), MONEY_SCALE);
    PowersOfTen();
    ValueBound(Whole(t));
    Pow10Grows(|Whole(t)|, 14);
    FixedWidthFraction(Fraction(t));
    ValueBound(f);
    assert |f| == 6;
  }

  // ---------- proofs: canonical text ----------

  /** Canonical text, stated without the printer: no leading or trailing zero, no negative zero. */
  predicate IsCanonical(s: string) {
    && IsSafeDecimalString(s, true)
    && (|Whole(s)| == 1 || Whole(s)[0] != '0')
    && (HasDot(s) ==> Fraction(s)[|Fraction(s)| - 1] != '0')
    && (HasSign(s) ==> Whole(s) != "0" || HasDot(s))
  }

  /** Each in-range value has one canonical text, and the printer finds it. */
  lemma PrintIsTheCanonicalForm(v: int)
    requires InRange(v)
    ensures IsCanonical(ScaledToDecimal(v))
    ensures forall s :: IsCanonical(s) && DecimalToScaled(s) == Some(v) ==> s == ScaledToDecimal(v)
  {
    PrintedIsCanonical(v);
    forall s | IsCanonical(s) && DecimalToScaled(s) == Some(v) ensures s == ScaledToDecimal(v) {
      CanonicalTextIsUnique(s, v);
    }
  }

  lemma PrintedIsCanonical(v: int)
    requires InRange(v)
    ensures IsCanonical(ScaledToDecimal(v))
  {
    var whole, f := NatText(Abs(v) / MONEY_SCALE_FACTOR), TrimZeros(FractionDigits(Abs(v)));
    PrintedParts(v);
    WholeDigitsBound(Abs(v));
    ValueOfNatText(Abs(v) / MONEY_SCALE_FACTOR);
    FractionDigitsShape(Abs(v));
    TrimZerosEmpty(FractionDigits(Abs(v)));
    hide ScaledToDecimal, Assemble, Whole, Fraction, HasDot, HasSign, NatText, TrimZeros, FractionDigits, PadEnd, Value, IsCanonical;
    CanonicalParts(ScaledToDecimal(v), whole, f);
  }

  lemma CanonicalParts(s: string, whole: string, f: string)
    requires Whole(s) == whole && AllDigits(whole) && 1 <= |whole| <= 14
    requires Fraction(s) == f && AllDigits(f) && |f| <= 6 && HasDot(s) == (f != "")
    requires |whole| == 1 || whole[0] != '0'
    requires f == "" || f[|f| - 1] != '0'
    requires HasSign(s) && Value(whole) == 0 ==> f != ""
    ensures IsCanonical(s)
  {
    assert Value("0") == 0;
    hide Whole, Fraction, HasDot, HasSign, Value;
  }

  /** The padded fraction and the whole digits of safe text are those of its magnitude. */
  lemma ReadingParts(s: string)
    requires IsSafeDecimalString(s, true)
    ensures var p := PadEnd(Fraction(s), MONEY_SCALE);
            && |p| == 6 && AllDigits(p)
            && Abs(Reading(s)) / MONEY_SCALE_FACTOR == Value(Whole(s))
            && Abs(Reading(s)) % MONEY_SCALE_FACTOR == Value(p)
            && p == FractionDigits(Abs(Reading(s)))
  {
    var p := PadEnd(Fraction(s), MONEY_SCALE);
    PowersOfTen();
    FixedWidthFraction(Fraction(s));
    ValueBound(p);
    var n := Value(Whole(s)) * MONEY_SCALE_FACTOR + Value(p);
    assert Abs(Reading(s)) == n;
    QuotientAndRemainder(Value(Whole(s)), Value(p));
    FractionDigitsShape(n);
    hide FractionDigits, PadEnd, Fraction, Whole;
    ValueInjective(p, FractionDigits(n));
  }

  lemma QuotientAndRemainder(a: nat, b: nat)
    requires b < MONEY_SCALE_FACTOR
    ensures (a * MONEY_SCALE_FACTOR + b) / MONEY_SCALE_FACTOR == a
    ensures (a * MONEY_SCALE_FACTOR + b) % MONEY_SCALE_FACTOR == b
  {
  }

  lemma SignedCanonicalIsNegative(s: string)
    requires IsCanonical(s)
    ensures HasSign(s) <==> Reading(s) < 0
  {
    ReadingParts(s);
    NatTextOfValue(Whole(s));
    if Value(Whole(s)) == 0 {
      assert Whole(s) == NatText(0) == "0";
    }
    CanonicalFraction(s);
    TrimZerosEmpty(PadEnd(Fraction(s), MONEY_SCALE));
    hide Whole, Fraction, HasDot, NatText, TrimZeros, FractionDigits, PadEnd, Value;
  }

  lemma CanonicalTextIsUnique(s: string, v: int)
    requires IsCanonical(s) && DecimalToScaled(s) == Some(v)
    ensures s == ScaledToDecimal(v)
  {
    Disassembled(s);
    NoSpaceToTrim(s);
    assert v == Reading(s);
    CanonicalFraction(s);
    ReadingParts(s);
    NatTextOfValue(Whole(s));
    SignedCanonicalIsNegative(s);
    hide Assemble, Whole, Fraction, HasDot, HasSign, Trim, NatText, TrimZeros, FractionDigits, PadEnd, Value, Reading,
      Abs, DecimalToScaled, IsCanonical, IsSafeDecimalString, AllDigits;
  }

  lemma CanonicalFraction(s: string)
    requires IsCanonical(s)
    ensures TrimZeros(PadEnd(Fraction(s), MONEY_SCALE)) == Fraction(s)
  {
    TrimZerosOfPadEnd(Fraction(s), MONEY_SCALE);
    assert TrimZeros(Fraction(s)) == Fraction(s);
  }

  /** Safe text is its sign, whole digits and fraction put together. */
  lemma Disassembled(s: string)
    requires IsSafeDecimalString(s, true)
    ensures s == Assemble(HasSign(s), Whole(s), Fraction(s))
    ensures s != "" && (IsDigit(s[0]) || s[0] == '-') && IsDigit(s[|s| - 1])
  {
    UnsignedParts(s);
    AssembleEnds(HasSign(s), Whole(s), Fraction(s));
    hide Whole, Fraction, HasDot, Unsigned, HasSign;
    AssembleIsSignAndRest(s, HasSign(s), Whole(s), Fraction(s), Unsigned(s));
  }

  lemma AssembleIsSignAndRest(s: string, negative: bool, whole: string, fraction: string, rest: string)
    requires s == (if negative then "-" else "") + rest
    requires rest == whole + (if fraction == "" then "" else "." + fraction)
    ensures s == Assemble(negative, whole, fraction)
  {
  }

  lemma AssembleEnds(negative: bool, whole: string, fraction: string)
    requires AllDigits(whole) && whole != "" && AllDigits(fraction)
    ensures var s := Assemble(negative, whole, fraction);
            s != "" && (IsDigit(s[0]) || s[0] == '-') && IsDigit(s[|s| - 1])
  {
    var s := Assemble(negative, whole, fraction);
    assert s[|s| - 1] == if fraction == "" then whole[|whole| - 1] else fraction[|fraction| - 1];
    assert s[0] == if negative then '-' else whole[0];
  }

  lemma UnsignedParts(s: string)
    requires HasDot(s) ==> Fraction(s) != ""
    ensures Unsigned(s) == Whole(s) + (if Fraction(s) == "" then "" else "." + Fraction(s))
    ensures s == (if HasSign(s) then "-" else "") + Unsigned(s)
  {
    var u := Unsigned(s);
    var k := DotIndex(u);
    hide HasSign, DotIndex;
    if HasDot(s) {
      assert u == u[..k] + ([u[k]] + u[k + 1..]);
    }
    assert s == (if HasSign(s) then "-" else "") + u by { SignSplits(s); }
  }

  lemma SignSplits(s: string)
    ensures s == (if HasSign(s) then "-" else "") + Unsigned(s)
  {
  }

  // ---------- proofs: database text ----------

  lemma NumericParts(v: int)
    ensures var s := NumericText(v);
            && HasSign(s) == (v < 0) && HasDot(s) && Trim(s) == s && |s| >= 7
            && Whole(s) == NatText(Abs(v) / MONEY_SCALE_FACTOR)
            && Fraction(s) == FractionDigits(Abs(v))
  {
    var whole, f := NatText(Abs(v) / MONEY_SCALE_FACTOR), FractionDigits(Abs(v));
    FractionDigitsShape(Abs(v));
    Assembled(v < 0, whole, f);
    AssembledTrims(v < 0, whole, f);
    hide Assemble, NatText, FractionDigits, Whole, Fraction, HasDot, HasSign, Unsigned, Trim, Abs;
  }

  /** A stored amount reads back as the value that was stored. */
  lemma ParseOfNumericText(v: int)
    ensures DecimalToScaled(NumericText(v)) == if InRange(v) then Some(v) else None
    ensures InRange(v) ==> IsSafeDecimalString(NumericText(v), 0 > v)
  {
    var whole, f := NatText(Abs(v) / MONEY_SCALE_FACTOR), FractionDigits(Abs(v));
    NumericParts(v);
    FractionDigitsShape(Abs(v));
    ValueOfNatText(Abs(v) / MONEY_SCALE_FACTOR);
    WholeDigitsBound(Abs(v));
    assert PadEnd(f, MONEY_SCALE) == f;
    hide NumericText, DecimalToScaled, NatText, FractionDigits, Whole, Fraction, HasDot, HasSign, Trim, PadEnd, Value, Abs;
    ParseOfParts(NumericText(v), v, whole, f);
  }

  lemma {:induction false} AllZeroWhenNoNonZeroDigit(s: string)
    requires AllDigits(s)
    ensures HasNonZeroDigit(s) <==> TrimZeros(s) != ""
  {
    if s != "" && s[|s| - 1] == '0' {
      var s' := s[..|s| - 1];
      AllZeroWhenNoNonZeroDigit(s');
      if HasNonZeroDigit(s) {
        var i :| 0 <= i < |s| && '1' <= s[i] <= '9';
        assert s'[i] == s[i];
      }
      if HasNonZeroDigit(s') {
        var i :| 0 <= i < |s'| && '1' <= s'[i] <= '9';
        assert s[i] == s'[i];
      }
    } else if s != "" {
      assert IsDigit(s[|s| - 1]);
      assert '1' <= s[|s| - 1] <= '9';
    }
  }

  lemma {:induction false} DigitsHaveNoDot(s: string)
    requires AllDigits(s)
    ensures DotIndex(s) == |s|
  {
    assert s + "" == s;
    DotAfter(s, "");
  }

  /** The two shortenings of database text agree on every value, in range or not. */
  lemma TrimNumericIsTheCanonicalPrinter(v: int)
    ensures TrimNumeric(Some(NumericText(v))) == ScaledToDecimal(v)
    ensures InRange(v) ==> NormalizeDecimal(NumericText(v)) == Some(TrimNumeric(Some(NumericText(v))))
  {
    NumericParts(v);
    FractionDigitsShape(Abs(v));
    ParseOfNumericText(v);
    TrimNumericOfParts(NumericText(v));
    hide Whole, Fraction, HasDot, HasSign, Trim, NatText, FractionDigits, Assemble, TrimNumeric, DecimalToScaled, Abs;
  }

  lemma TrimNumericOfParts(s: string)
    requires Trim(s) == s && |s| >= 7 && Whole(s) != "" && AllDigits(Fraction(s))
    ensures TrimNumeric(Some(s)) == Assemble(HasSign(s), Whole(s), TrimZeros(Fraction(s)))
  {
    var f := Fraction(s);
    DigitsHaveNoDot(f);
    AllZeroWhenNoNonZeroDigit(f);
    ShortenedParts(HasSign(s), Whole(s), f);
    hide Whole, Fraction, HasDot, HasSign, Trim, HasNonZeroDigit, TrimZeros, AllDigits, Shortened, Assemble;
    assert BeforeDot(f) == f;
    assert s != "" && s != "0";
  }

  lemma ShortenedParts(negative: bool, whole: string, f: string)
    requires whole != "" && (HasNonZeroDigit(f) <==> TrimZeros(f) != "")
    ensures Shortened(negative, whole, f) == Assemble(negative, whole, TrimZeros(f))
  {
    hide HasNonZeroDigit, TrimZeros;
  }

  /** Adding and subtracting printed amounts is exact, and fails only out of range. */
  lemma MoneyArithmetic(l: int, r: int)
    ensures AddMoney(ScaledToDecimal(l), ScaledToDecimal(r))
         == if InRange(l) && InRange(r) then Some(ScaledToDecimal(l + r)) else None
    ensures SubtractMoney(ScaledToDecimal(l), ScaledToDecimal(r))
         == if InRange(l) && InRange(r) then Some(ScaledToDecimal(l - r)) else None
    ensures IsNegative(ScaledToDecimal(l)) == if InRange(l) then Some(l < 0) else None
  {
    hide ScaledToDecimal, DecimalToScaled;
    ParseUndoesPrint(l);
    ParseUndoesPrint(r);
  }

  /** Of no amount, or of blank database text, the report makes zero. */
  lemma NoAmountIsZero(text: string)
    requires Trim(text) == ""
    ensures TrimNumeric(None) == "0" && TrimNumeric(Some(text)) == "0"
  {
  }

  /** The 25 characters that count as white space; any of them in front of an amount is ignored. */
  lemma SpaceInFrontIsIgnored(c: char, text: string)
    ensures IsSpace(c) <==>
      c in "\t\n\U{0B}\U{0C}\r \U{A0}\U{1680}\U{2000}\U{2001}\U{2002}\U{2003}\U{2004}\U{2005}\U{2006}"
      || c in "\U{2007}\U{2008}\U{2009}\U{200A}\U{2028}\U{2029}\U{202F}\U{205F}\U{3000}\U{FEFF}"
    ensures IsSpace(c) ==> DecimalToScaled([c] + text) == DecimalToScaled(text)
  {
    if IsSpace(c) {
      assert ([c] + text)[1..] == text;
      assert Trim([c] + text) == Trim(text);
    }
    hide TrimStart, TrimEnd, IsSafeDecimalString;
  }
}
