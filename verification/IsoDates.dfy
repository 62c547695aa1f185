/** Dates as `YYYY-MM-DD` text, the form every booking date and period bound has. */
module IsoDates {
  import opened Text
  import opened Calendar

  function Fixed(n: nat, width: nat): string { PadStart(NatText(n), width) }

  /** `toISOString().slice(0, 10)`; years outside 0..9999 print a sign and six digits. */
  function IsoDate(d: int): string {
    var c := CivilOf(d);
    if 0 <= c.year <= 9999 then DateText(c)
    else (if c.year < 0 then "-" else "+") + Fixed(if c.year < 0 then -c.year else c.year, 6) + "-" + Fixed(c.month + 1, 2)
  }

  function DateText(c: Civil): string
    requires 0 <= c.year && 0 <= c.month && 0 <= c.day
  {
    Fixed(c.year, 4) + ("-" + (Fixed(c.month + 1, 2) + ("-" + Fixed(c.day, 2))))
  }

  /** The calendar date that `YYYY-MM-DD` text spells. */
  function SpelledDate(s: string): Civil
    requires HasDateShape(s)
  {
    Civil(Value(s[..4]), Value(s[5..7]) - 1, Value(s[8..]))
  }

  predicate HasDateShape(s: string) {
    |s| == 10 && AllDigits(s[..4]) && s[4] == '-' && AllDigits(s[5..7]) && s[7] == '-' && AllDigits(s[8..])
  }

  predicate IsDateText(s: string) { HasDateShape(s) && IsCivil(SpelledDate(s)) }

  /** `new Date(s + 'T00:00:00Z')` */
  function ParseDate(s: string): int
    requires IsDateText(s)
  {
    var c := SpelledDate(s);
    MakeDay(c.year, c.month, c.day)
  }

  /** Days whose date takes the four-digit form. */
  predicate FourDigits(d: int) { 0 <= YearFromDay(d) <= 9999 }

  lemma FixedShape(n: nat, width: nat)
    requires (width == 2 && n < 100) || (width == 4 && n <= 9999)
    ensures |Fixed(n, width)| == width && AllDigits(Fixed(n, width)) && Value(Fixed(n, width)) == n
  {
    assert Pow10(2) == 100;
    assert Pow10(4) == 100 * Pow10(2);
    FixedWidth(n, width);
  }

  lemma DateTextShape(c: Civil)
    requires IsCivil(c) && 0 <= c.year <= 9999
    ensures HasDateShape(DateText(c)) && SpelledDate(DateText(c)) == c
    ensures DateText(c)[..4] == Fixed(c.year, 4) && DateText(c)[5..7] == Fixed(c.month + 1, 2)
  {
    hide Fixed, Value, DaysInMonth;
    FixedShape(c.year, 4);
    FixedShape(c.month + 1, 2);
    FixedShape(c.day, 2);
    var y, m, d := Fixed(c.year, 4), Fixed(c.month + 1, 2), Fixed(c.day, 2);
    assert DateText(c)[..4] == y && DateText(c)[5..7] == m && DateText(c)[8..] == d;
  }

  /** Printing a four-digit day and parsing it back changes nothing. */
  lemma ParseOfIso(d: int)
    requires FourDigits(d)
    ensures IsDateText(IsoDate(d)) && ParseDate(IsoDate(d)) == d
    ensures SpelledDate(IsoDate(d)) == CivilOf(d)
  {
    hide DateText, MakeDay, HasDateShape, SpelledDate;
    DateTextShape(CivilOf(d));
    MakeDayOfCivil(d);
  }

  /** Every date text is the printed form of the day it spells. */
  lemma IsoOfParse(s: string)
    requires IsDateText(s)
    ensures FourDigits(ParseDate(s)) && IsoDate(ParseDate(s)) == s
  {
    hide DateText, MakeDay, SpelledDate, HasDateShape, DaysInMonth;
    SpelledPrints(s);
    CivilOfMakeDay(SpelledDate(s));
  }

  lemma SpelledPrints(s: string)
    requires IsDateText(s)
    ensures 0 <= SpelledDate(s).year <= 9999 && DateText(SpelledDate(s)) == s
  {
    hide Value, Fixed, Pow10, DaysInMonth;
    assert Fixed(Value(s[..4]), 4) == s[..4] by { FixedOfValue(s[..4]); }
    assert Fixed(Value(s[5..7]), 2) == s[5..7] by { FixedOfValue(s[5..7]); }
    assert Fixed(Value(s[8..]), 2) == s[8..] by { FixedOfValue(s[8..]); }
    assert Value(s[..4]) <= 9999 by { FourDigitBound(s[..4]); }
    assert s == s[..4] + ("-" + (s[5..7] + ("-" + s[8..])));
  }

  lemma FourDigitBound(s: string)
    requires AllDigits(s) && |s| == 4
    ensures Value(s) <= 9999
  {
    ValueBound(s);
    assert Pow10(4) == 100 * Pow10(2);
  }

  lemma FixedOfValue(s: string)
    requires AllDigits(s) && 1 <= |s|
    ensures Fixed(Value(s), |s|) == s
  {
    FixedWidthOfValue(s);
  }

  /** On four-digit dates text order is day order. */
  lemma IsoOrder(a: int, b: int)
    requires FourDigits(a) && FourDigits(b)
    ensures Before(IsoDate(a), IsoDate(b)) <==> a < b
  {
    hide CivilOf, Before, DateText, CivilBefore, IsCivil, YearFromDay;
    DayOrder(a, b);
    DateTextOrder(CivilOf(a), CivilOf(b));
  }

  lemma DateTextOrder(a: Civil, b: Civil)
    requires IsCivil(a) && 0 <= a.year <= 9999 && IsCivil(b) && 0 <= b.year <= 9999
    ensures Before(DateText(a), DateText(b)) <==> CivilBefore(a, b)
  {
    hide Before, Fixed, Value;
    PartOrder(a.year, b.year, 4);
    PartOrder(a.month + 1, b.month + 1, 2);
    PartOrder(a.day, b.day, 2);
    var x, y := Fixed(a.month + 1, 2) + ("-" + Fixed(a.day, 2)), Fixed(b.month + 1, 2) + ("-" + Fixed(b.day, 2));
    BeforeConcat(Fixed(a.year, 4), "-" + x, Fixed(b.year, 4), "-" + y);
    DashBefore(x, y);
    BeforeConcat(Fixed(a.month + 1, 2), "-" + Fixed(a.day, 2), Fixed(b.month + 1, 2), "-" + Fixed(b.day, 2));
    DashBefore(Fixed(a.day, 2), Fixed(b.day, 2));
  }

  lemma DashBefore(x: string, y: string)
    ensures Before("-" + x, "-" + y) <==> Before(x, y)
  {
    assert ("-" + x)[1..] == x && ("-" + y)[1..] == y;
  }

  lemma PartOrder(m: nat, n: nat, width: nat)
    requires (width == 2 && m < 100 && n < 100) || (width == 4 && m <= 9999 && n <= 9999)
    ensures |Fixed(m, width)| == |Fixed(n, width)|
    ensures Before(Fixed(m, width), Fixed(n, width)) <==> m < n
    ensures Fixed(m, width) == Fixed(n, width) <==> m == n
  {
    hide Fixed, Before, Value;
    FixedShape(m, width);
    FixedShape(n, width);
    BeforeIsLess(Fixed(m, width), Fixed(n, width));
  }
}
