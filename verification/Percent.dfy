/** Percentages: the printed text and the threshold test are two readings of one ratio. */
module Percent {
  import opened Wrappers
  import opened Text
  import opened Money

  /** BigInt division truncates toward zero. */
  function Quotient(a: int, b: int): int
    requires b > 0
  {
    if a < 0 then -((-a) / b) else a / b
  }

  /** BigInt remainder takes the sign of the dividend. */
  function Remainder(a: int, b: int): int
    requires b > 0
  {
    a - b * Quotient(a, b)
  }

  function IntText(n: int): string {
    if n < 0 then "-" + NatText(-n) else NatText(n)
  }

  function HundredthsText(hundredths: int): string {
    var whole := Quotient(hundredths, 100);
    var fraction := Remainder(hundredths, 100);
    if fraction == 0 then IntText(whole)
    else IntText(whole) + "." + FractionText(fraction)
  }

  function FractionText(fraction: int): string {
    if Remainder(fraction, 10) == 0 then IntText(Quotient(fraction, 10)) else PadStart(IntText(fraction), 2)
  }

  function PercentText(part: int, total: int): string {
    if total <= 0 then "0" else HundredthsText(Quotient(part * 10_000, total))
  }

  function PercentOf(part: string, total: string): Option<string> {
    var t :- DecimalToScaled(total);
    if t <= 0 then Some("0") else
      var p :- DecimalToScaled(part);
      Some(PercentText(p, t))
  }

  predicate Reaches(part: int, total: int, thresholdPercent: int) {
    total > 0 && part * 100 >= total * thresholdPercent
  }

  function PercentReached(part: string, total: string, thresholdPercent: int): Option<bool> {
    var t :- DecimalToScaled(total);
    if t <= 0 then Some(false) else
      var p :- DecimalToScaled(part);
      Some(Reaches(p, t, thresholdPercent))
  }

  /** Reads a decimal numeral with at most two fraction digits as a number of hundredths. */
  function HundredthsOf(text: string): Option<int> {
    if Whole(text) == "" || !AllDigits(Whole(text)) || !AllDigits(Fraction(text)) || |Fraction(text)| > 2
       || HasDot(text) != (Fraction(text) != "") then None
    else
      var padded := PadEnd(Fraction(text), 2);
      assert AllDigits(padded);
      var n := Value(Whole(text)) * 100 + Value(padded);
      Some(if HasSign(text) then -n else n)
  }

  lemma FractionTextReads(f: int)
    requires 0 < f < 100
    ensures var t := FractionText(f);
            1 <= |t| <= 2 && AllDigits(t) && AllDigits(PadEnd(t, 2)) && Value(PadEnd(t, 2)) == f
  {
    assert Pow10(2) == 100 && Pow10(1) == 10;
    if f % 10 == 0 {
      var d := f / 10;
      assert FractionText(f) == [DigitChar(d)];
      assert PadEnd([DigitChar(d)], 2) == [DigitChar(d)] + ['0'];
      ValueOfSnoc([DigitChar(d)], '0');
      ValueOfNatText(d);
    } else {
      FixedWidth(f, 2);
    }
  }

  /** The fraction digits printed for `h` hundredths. */
  function ShownFraction(h: nat): string { if h % 100 == 0 then "" else FractionText(h % 100) }

  lemma ShownFractionReads(h: nat)
    ensures var f := ShownFraction(h);
            |f| <= 2 && AllDigits(f) && AllDigits(PadEnd(f, 2)) && Value(PadEnd(f, 2)) == h % 100
    ensures HundredthsText(h) == Assemble(false, NatText(h / 100), ShownFraction(h))
  {
    if h % 100 != 0 {
      FractionTextReads(h % 100);
    } else {
      ValueOfZeros(2);
      assert PadEnd("", 2) == Zeros(2);
    }
    hide FractionText, NatText, Value;
  }

  lemma HundredthsOfParts(text: string, whole: string, f: string, h: nat)
    requires !HasSign(text) && Whole(text) == whole && Fraction(text) == f && HasDot(text) == (f != "")
    requires whole != "" && AllDigits(whole) && Value(whole) == h / 100
    requires |f| <= 2 && AllDigits(f) && AllDigits(PadEnd(f, 2)) && Value(PadEnd(f, 2)) == h % 100
    ensures HundredthsOf(text) == Some(h)
  {
    hide HasSign, Whole, Fraction, HasDot, AllDigits, Value, PadEnd;
  }

  /** A non-negative percentage prints as a numeral of exactly that many hundredths. */
  lemma PrintedPercentReadsBack(h: nat)
    ensures HundredthsOf(HundredthsText(h)) == Some(h)
  {
    hide HundredthsOf, HundredthsText, Assemble, ShownFraction, Whole, Fraction, HasDot, HasSign, Value, NatText, PadEnd;
    ShownFractionReads(h);
    ValueOfNatText(h / 100);
    Assembled(false, NatText(h / 100), ShownFraction(h));
    HundredthsOfParts(HundredthsText(h), NatText(h / 100), ShownFraction(h), h);
  }

  lemma FloorThreshold(part: nat, total: int, t: int)
    requires total > 0
    ensures part * 100 >= total * t <==> (part * 10_000) / total >= 100 * t
  {
    var n := part * 10_000;
    var q := n / total;
    FloorAtLeast(n, total, 100 * t);
    Regroup(total, t);
  }

  lemma FloorAtLeast(n: nat, d: int, k: int)
    requires d > 0
    ensures n / d >= k <==> n >= d * k
  {
    var q := n / d;
    assert d * q <= n < d * q + d;
    if q >= k {
      MulMonotone(d, k, q);
    } else {
      MulMonotone(d, q + 1, k);
    }
  }

  lemma MulMonotone(d: int, a: int, b: int)
    requires 0 <= d && a <= b
    ensures d * a <= d * b
  {
  }

  lemma Regroup(total: int, t: int)
    ensures total * (100 * t) == 100 * (total * t)
  {
  }

  /** The threshold test holds exactly when the number the report prints is at least the threshold. */
  lemma ReachedIffDisplayed(part: int, total: int, t: int)
    requires 0 <= part && 0 < total
    ensures HundredthsOf(PercentText(part, total)).Some?
    ensures Reaches(part, total, t) <==> HundredthsOf(PercentText(part, total)).value >= 100 * t
  {
    PrintedPercentReadsBack(part * 10_000 / total);
    FloorThreshold(part, total, t);
    hide HundredthsText, HundredthsOf;
  }

  /** The same on the text both functions take, for every non-negative part and positive total. */
  lemma PercentReachedMatchesPercentOf(part: string, total: string, t: int)
    requires DecimalToScaled(part).Some? && DecimalToScaled(part).value >= 0
    requires DecimalToScaled(total).Some? && DecimalToScaled(total).value > 0
    ensures PercentOf(part, total).Some? && HundredthsOf(PercentOf(part, total).value).Some?
    ensures PercentReached(part, total, t)
         == Some(HundredthsOf(PercentOf(part, total).value).value >= 100 * t)
  {
    hide DecimalToScaled, HundredthsOf, PercentText, Reaches;
    ReachedIffDisplayed(DecimalToScaled(part).value, DecimalToScaled(total).value, t);
  }

  /** Of a total that is not positive, nothing is reached and "0" is shown, whether the part can be read or not. */
  lemma NothingOfNoTotal(part: string, total: string, t: int)
    requires DecimalToScaled(total).Some? && DecimalToScaled(total).value <= 0
    ensures PercentOf(part, total) == Some("0") && PercentReached(part, total, t) == Some(false)
  {
    hide DecimalToScaled;
  }

  /** Division rounds towards zero on both sides of it. */
  lemma QuotientTruncates(a: int, b: int)
    requires b > 0
    ensures Quotient(-a, b) == -Quotient(a, b)
    ensures a >= 0 ==> b * Quotient(a, b) <= a < b * Quotient(a, b) + b
  {
    if a == 0 { assert 0 / b == 0; }
    if a >= 0 { assert a == b * (a / b) + a % b; }
  }
}
