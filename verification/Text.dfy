/** Decimal digits as JavaScript's `BigInt` reads and prints them. */
module Text {

  predicate IsDigit(c: char) { '0' <= c <= '9' }

  predicate AllDigits(s: string) { forall i :: 0 <= i < |s| ==> IsDigit(s[i]) }

  function DigitValue(c: char): (d: nat)
    requires IsDigit(c)
    ensures d < 10
  {
    c as int - '0' as int
  }

  function DigitChar(d: nat): (c: char)
    requires d < 10
    ensures IsDigit(c) && DigitValue(c) == d
  {
    ('0' as int + d) as char
  }

  function Pow10(n: nat): (p: nat)
    ensures 1 <= p
  {
    if n == 0 then 1 else 10 * Pow10(n - 1)
  }

  /** `BigInt(s)` for a string of digits; the empty string reads as zero. */
  function Value(s: string): nat
    requires AllDigits(s)
  {
    if s == "" then 0 else 10 * Value(s[..|s| - 1]) + DigitValue(s[|s| - 1])
  }

  /** `n.toString()`. */
  function NatText(n: nat): (s: string)
    ensures 1 <= |s| && AllDigits(s)
  {
    if n < 10 then [DigitChar(n)] else NatText(n / 10) + [DigitChar(n % 10)]
  }

  function Zeros(n: nat): (s: string)
    ensures |s| == n && AllDigits(s)
    ensures forall i :: 0 <= i < n ==> s[i] == '0'
  {
    if n == 0 then "" else "0" + Zeros(n - 1)
  }

  /** `s.padStart(width, '0')`. */
  function PadStart(s: string, width: nat): string {
    if |s| < width then Zeros(width - |s|) + s else s
  }

  /** `s.padEnd(width, '0')`. */
  function PadEnd(s: string, width: nat): string {
    if |s| < width then s + Zeros(width - |s|) else s
  }

  /** `s.replace(/0+$/, '')`. */
  function TrimZeros(s: string): (t: string)
    ensures t <= s
    ensures t == "" || t[|t| - 1] != '0'
  {
    if s == "" || s[|s| - 1] != '0' then s else TrimZeros(s[..|s| - 1])
  }

  lemma {:induction false} ValueOfNatText(n: nat)
    ensures Value(NatText(n)) == n
    ensures |NatText(n)| > 1 ==> NatText(n)[0] != '0'
  {
    if n >= 10 {
      ValueOfNatText(n / 10);
      var s := NatText(n / 10) + [DigitChar(n % 10)];
      assert s[..|s| - 1] == NatText(n / 10);
      if |NatText(n / 10)| == 1 {
        assert n / 10 < 10;
      }
    } else {
      assert [DigitChar(n)][..0] == "";
    }
  }

  lemma {:induction false} ValueBound(s: string)
    requires AllDigits(s)
    ensures Value(s) < Pow10(|s|)
  {
    if s != "" {
      ValueBound(s[..|s| - 1]);
    }
  }

  lemma {:induction false} ValueOfConcat(a: string, b: string)
    requires AllDigits(a) && AllDigits(b)
    ensures AllDigits(a + b)
    ensures Value(a + b) == Value(a) * Pow10(|b|) + Value(b)
  {
    if b == "" {
      assert a + b == a;
    } else {
      var b' := b[..|b| - 1];
      ValueOfConcat(a, b');
      ValueOfSnoc(a + b', b[|b| - 1]);
      assert a + b == (a + b') + [b[|b| - 1]];
      TimesTen(Value(a), Pow10(|b'|));
    }
  }

  lemma ValueOfSnoc(s: string, c: char)
    requires AllDigits(s) && IsDigit(c)
    ensures AllDigits(s + [c]) && Value(s + [c]) == 10 * Value(s) + DigitValue(c)
  {
    assert (s + [c])[..|s|] == s;
  }

  lemma TimesTen(a: nat, p: nat)
    ensures a * (10 * p) == 10 * (a * p)
  {
  }

  lemma {:induction false} ValueOfZeros(n: nat)
    ensures Value(Zeros(n)) == 0
  {
    if n > 0 {
      ValueOfZeros(n - 1);
      assert Zeros(n)[..n - 1] == Zeros(n - 1);
    }
  }

  lemma ValueOfPadStart(s: string, width: nat)
    requires AllDigits(s)
    ensures AllDigits(PadStart(s, width)) && Value(PadStart(s, width)) == Value(s)
  {
    if |s| < width {
      ValueOfZeros(width - |s|);
      ValueOfConcat(Zeros(width - |s|), s);
    }
  }

  /** Two digit strings of one length with the same value are the same text. */
  lemma {:induction false} ValueInjective(a: string, b: string)
    requires AllDigits(a) && AllDigits(b) && |a| == |b|
    requires Value(a) == Value(b)
    ensures a == b
  {
    if a != "" {
      var n := |a| - 1;
      assert Value(a[..n]) == Value(b[..n]) && DigitValue(a[n]) == DigitValue(b[n]);
      ValueInjective(a[..n], b[..n]);
      assert a == a[..n] + [a[n]] && b == b[..n] + [b[n]];
    }
  }

  /** `n` prints in at most `k` digits exactly when it is below ten to the `k`. */
  lemma {:induction false} NatTextLength(n: nat, k: nat)
    requires 1 <= k
    ensures |NatText(n)| <= k <==> n < Pow10(k)
  {
    if n < 10 {
      Pow10Grows(1, k);
    } else if k == 1 {
      assert Pow10(1) == 10;
    } else {
      NatTextLength(n / 10, k - 1);
      assert Pow10(k) == 10 * Pow10(k - 1);
    }
  }

  lemma {:induction false} Pow10Grows(a: nat, b: nat)
    requires a <= b
    ensures Pow10(a) <= Pow10(b)
  {
    if a < b { Pow10Grows(a, b - 1); }
  }

  /** Digits without a leading zero are exactly the text that `NatText` prints. */
  lemma {:induction false} NatTextOfValue(s: string)
    requires AllDigits(s) && 1 <= |s| && (|s| == 1 || s[0] != '0')
    ensures NatText(Value(s)) == s
  {
    var n := |s| - 1;
    var init := s[..n];
    if n == 0 {
      assert init == "";
      assert s == [s[0]];
    } else {
      assert init[0] == s[0];
      if |init| == 1 {
        assert Value(init[..0]) == 0;
      }
      NatTextOfValue(init);
      assert s == init + [s[n]];
    }
  }

  /** Padding back what `TrimZeros` removed restores the text. */
  lemma {:induction false} PadEndOfTrimZeros(s: string)
    ensures PadEnd(TrimZeros(s), |s|) == s
    ensures AllDigits(s) ==> AllDigits(TrimZeros(s))
  {
    if s != "" && s[|s| - 1] == '0' {
      var s' := s[..|s| - 1];
      PadEndOfTrimZeros(s');
      var t := TrimZeros(s);
      assert s == s' + "0";
      ZerosSnoc(|s'| - |t|);
      if |t| < |s'| {
        assert s' == t + Zeros(|s'| - |t|);
      } else {
        assert t == s';
      }
      assert s == t + (Zeros(|s'| - |t|) + "0");
    } else {
      assert TrimZeros(s) == s;
    }
  }

  /** Only zeros trim away completely. */
  lemma {:induction false} TrimZerosEmpty(s: string)
    requires AllDigits(s)
    ensures TrimZeros(s) == "" <==> Value(s) == 0
  {
    if s != "" {
      TrimZerosEmpty(s[..|s| - 1]);
    }
  }

  lemma {:induction false} ZerosSnoc(n: nat)
    ensures Zeros(n) + "0" == Zeros(n + 1)
  {
    if n > 0 {
      ZerosSnoc(n - 1);
      assert Zeros(n) + "0" == "0" + (Zeros(n - 1) + "0");
    }
  }

  /** Trailing zeros do not change where the trimmed text ends. */
  lemma {:induction false} TrimZerosOfPadEnd(s: string, width: nat)
    ensures TrimZeros(PadEnd(s, width)) == TrimZeros(s)
  {
    if |s| < width {
      TrimZerosOfAppended(s, width - |s|);
    }
  }

  lemma {:induction false} TrimZerosOfAppended(s: string, n: nat)
    ensures TrimZeros(s + Zeros(n)) == TrimZeros(s)
  {
    if n == 0 {
      assert s + Zeros(n) == s;
    } else {
      ZerosSnoc(n - 1);
      var p := s + Zeros(n - 1);
      assert s + Zeros(n) == p + "0";
      assert (p + "0")[..|p|] == p;
      TrimZerosOfAppended(s, n - 1);
    }
  }

  /** The fixed-width text of `n`, as `n.toString().padStart(width, '0')` prints it. */
  lemma FixedWidth(n: nat, width: nat)
    requires 1 <= width && n < Pow10(width)
    ensures |PadStart(NatText(n), width)| == width
    ensures AllDigits(PadStart(NatText(n), width)) && Value(PadStart(NatText(n), width)) == n
  {
    NatTextLength(n, width);
    ValueOfNatText(n);
    ValueOfPadStart(NatText(n), width);
  }

  /** Fixed-width digits print back to the same text. */
  lemma FixedWidthOfValue(s: string)
    requires AllDigits(s) && 1 <= |s|
    ensures PadStart(NatText(Value(s)), |s|) == s
  {
    ValueBound(s);
    FixedWidth(Value(s), |s|);
    ValueInjective(PadStart(NatText(Value(s)), |s|), s);
  }

  // ---------- text order ----------

  /** The `<` of JavaScript strings. */
  predicate Before(a: string, b: string) {
    if b == "" then false
    else if a == "" then true
    else a[0] < b[0] || (a[0] == b[0] && Before(a[1..], b[1..]))
  }

  lemma {:induction false} BeforeConcat(a: string, x: string, b: string, y: string)
    requires |a| == |b|
    ensures Before(a + x, b + y) <==> Before(a, b) || (a == b && Before(x, y))
  {
    if a == "" {
      assert a + x == x && b + y == y;
    } else {
      assert (a + x)[1..] == a[1..] + x && (b + y)[1..] == b[1..] + y;
      BeforeConcat(a[1..], x, b[1..], y);
      assert a == [a[0]] + a[1..] && b == [b[0]] + b[1..];
    }
  }

  /** On digit strings of one length, text order is number order. */
  lemma {:induction false} BeforeIsLess(a: string, b: string)
    requires AllDigits(a) && AllDigits(b) && |a| == |b|
    ensures Before(a, b) <==> Value(a) < Value(b)
  {
    if a != "" {
      BeforeIsLess(a[1..], b[1..]);
      LeadingDigit(a);
      LeadingDigit(b);
      LeadingDigitsCompare(DigitValue(a[0]), Value(a[1..]), DigitValue(b[0]), Value(b[1..]), Pow10(|a| - 1));
      hide Value, Pow10;
    }
  }

  lemma LeadingDigit(s: string)
    requires AllDigits(s) && s != ""
    ensures Value(s) == DigitValue(s[0]) * Pow10(|s| - 1) + Value(s[1..])
    ensures Value(s[1..]) < Pow10(|s| - 1)
  {
    assert s == [s[0]] + s[1..];
    ValueOfConcat([s[0]], s[1..]);
    ValueBound(s[1..]);
    assert Value([s[0]]) == DigitValue(s[0]) by { assert [s[0]][..0] == ""; }
  }

  lemma LeadingDigitsCompare(d: nat, r: nat, e: nat, q: nat, p: nat)
    requires r < p && q < p
    ensures d * p + r < e * p + q <==> d < e || (d == e && r < q)
  {
    if d < e {
      assert (d + 1) * p <= e * p;
    } else if e < d {
      assert (e + 1) * p <= d * p;
    }
  }

  lemma {:induction false} BeforeIsStrict(a: string)
    ensures !Before(a, a)
  {
    if a != "" { BeforeIsStrict(a[1..]); }
  }

  lemma {:induction false} BeforeIsTotal(a: string, b: string)
    ensures Before(a, b) || Before(b, a) || a == b
  {
    if a != "" && b != "" && a[0] == b[0] {
      BeforeIsTotal(a[1..], b[1..]);
      assert a == [a[0]] + a[1..] && b == [b[0]] + b[1..];
    }
  }

  lemma {:induction false} BeforeIsTransitive(a: string, b: string, c: string)
    requires Before(a, b) && Before(b, c)
    ensures Before(a, c)
  {
    if a != "" && a[0] == b[0] && b[0] == c[0] {
      BeforeIsTransitive(a[1..], b[1..], c[1..]);
    }
  }
}
