/**
  Decimal reading and writing of amounts.

  `AmountValue` stands for what `parseFloat` yields for a text that passed
  `validateAmount`, read exactly as a `real` rather than as the nearest
  double: such a text is always a whole number of hundredths. `CentsText` writes a number of hundredths
  back as a canonical two-decimal text, and `Fixed2` is
  Number.prototype.toFixed(2) applied to an exact real: the nearest
  hundredth, ties away from zero, with a leading "-" for negative values.
 */
module Decimal {
  import opened Common
  import opened AmountGrammar

  function DigitVal(c: char): nat
    requires IsDigit(c)
  {
    c as int - '0' as int
  }

  function DigitChar(d: nat): (c: char)
    requires d < 10
    ensures IsDigit(c) && DigitVal(c) == d
  {
    ('0' as int + d) as char
  }

  /** The number a string of decimal digits denotes. */
  function DigitsValue(s: string): nat
    requires AllDigits(s)
  {
    if s == [] then 0 else DigitsValue(s[..|s| - 1]) * 10 + DigitVal(s[|s| - 1])
  }

  /** Shortest decimal numeral of `n`. */
  function Digits(n: nat): (s: string)
    ensures 1 <= |s| && AllDigits(s)
    ensures DigitsValue(s) == n
    ensures s[0] == '0' ==> n == 0
    ensures n == 0 ==> s == "0"
  {
    if n < 10 then
      [DigitChar(n)]
    else
      var init := Digits(n / 10);
      var s := init + [DigitChar(n % 10)];
      assert s[..|s| - 1] == init;
      s
  }

  /** Hundredths denoted by a valid amount: `parseFloat` scaled by 100, exactly. */
  function Cents(s: string): nat
    requires IsValidAmount(s)
  {
    var k := Span(s, IsDigit);
    assert AllDigits(s[..k]);
    var whole := DigitsValue(s[..k]);
    if k == |s| then
      whole * 100
    else
      var frac := s[k + 1..];
      if |frac| == 1 then whole * 100 + DigitsValue(frac) * 10 else whole * 100 + DigitsValue(frac)
  }

  /** The value of a valid amount, as `parseFloat` reads it. */
  function AmountValue(s: string): (x: real)
    requires IsValidAmount(s)
    ensures x >= 0.0
    ensures x * 100.0 == (x * 100.0).Floor as real
  {
    Cents(s) as real / 100.0
  }

  /**
    The shape `toFixed(2)` writes: exactly two digits after the point, and
    no leading zero before it unless the whole part is the single digit 0.
   */
  predicate TwoDecimalForm(s: string) {
    |s| >= 4 && s[|s| - 3] == '.' && (s[0] == '0' ==> |s| == 4)
  }

  /**
    The value of an amount split as the regular expression splits it: the
    whole digits, plus the fraction digits as tenths or as hundredths.
   */
  lemma AmountValueOfSplit(s: string, k: nat)
    requires ValidSplit(s, k)
    ensures IsValidAmount(s)
    ensures k == |s| ==> AmountValue(s) == DigitsValue(s[..k]) as real
    ensures |s| == k + 2 ==> AmountValue(s) == DigitsValue(s[..k]) as real + DigitsValue(s[k + 1..]) as real / 10.0
    ensures |s| == k + 3 ==> AmountValue(s) == DigitsValue(s[..k]) as real + DigitsValue(s[k + 1..]) as real / 100.0
  {
    ValidAmountIsRegex(s);
    assert forall i :: 0 <= i < k ==> IsDigit(s[..k][i]);
    SpanUnique(s, IsDigit, k);
    var w := DigitsValue(s[..k]);
    if k == |s| {
      assert Cents(s) == w * 100;
    } else if |s| == k + 2 {
      assert Cents(s) == w * 100 + DigitsValue(s[k + 1..]) * 10;
    } else {
      assert Cents(s) == w * 100 + DigitsValue(s[k + 1..]);
    }
  }

  /** Canonical two-decimal text of `c` hundredths. */
  function CentsText(c: nat): (s: string)
    ensures IsValidAmount(s) && TwoDecimalForm(s)
    ensures Cents(s) == c
  {
    var tens := c / 10;
    var whole := Digits(tens / 10);
    WholeAndTwoDecimals(whole, tens % 10, c % 10);
    CentsSplit(c);
    var s := whole + ['.'] + [DigitChar(tens % 10), DigitChar(c % 10)];
    assert s[0] == whole[0] && s[|s| - 3] == '.';
    s
  }

  /** `c` read as its hundreds, tens and units. */
  lemma CentsSplit(c: nat)
    ensures (c / 10 / 10) * 100 + (c / 10 % 10) * 10 + c % 10 == c
  {
    var tens := c / 10;
    assert c == tens * 10 + c % 10;
    assert tens == (tens / 10) * 10 + tens % 10;
  }

  /** Digits, a point and two digits form a valid amount, read back digit by digit. */
  lemma WholeAndTwoDecimals(whole: string, d1: nat, d0: nat)
    requires 1 <= |whole| && AllDigits(whole) && d1 < 10 && d0 < 10
    ensures var s := whole + ['.'] + [DigitChar(d1), DigitChar(d0)];
      IsValidAmount(s) && Cents(s) == DigitsValue(whole) * 100 + d1 * 10 + d0
  {
    PointSplit(whole, [DigitChar(d1), DigitChar(d0)]);
    TwoDigitsValue(d1, d0);
  }

  lemma PointSplit(whole: string, tail: string)
    requires 1 <= |whole| && AllDigits(whole) && |tail| == 2 && AllDigits(tail)
    ensures var s := whole + ['.'] + tail;
      && Span(s, IsDigit) == |whole| && IsValidAmount(s)
      && Cents(s) == DigitsValue(whole) * 100 + DigitsValue(tail)
  {
    var s := whole + ['.'] + tail;
    var k := |whole|;
    forall i | 0 <= i < k
      ensures IsDigit(s[i])
    {
      assert s[i] == whole[i];
    }
    assert s[k] == '.';
    SpanUnique(s, IsDigit, k);
    assert s[..k] == whole;
    assert s[k + 1..] == tail;
  }

  lemma TwoDigitsValue(d1: nat, d0: nat)
    requires d1 < 10 && d0 < 10
    ensures DigitsValue([DigitChar(d1), DigitChar(d0)]) == d1 * 10 + d0
  {
    var tail := [DigitChar(d1), DigitChar(d0)];
    var one := [tail[0]];
    assert tail[..1] == one && one[..0] == [];
    assert DigitsValue(one) == d1;
  }

  /** The nearest whole number of hundredths to a non-negative `x`; a tie goes up. */
  function RoundCents(x: real): (c: nat)
    requires x >= 0.0
    ensures -0.5 < c as real - x * 100.0 <= 0.5
  {
    (x * 100.0 + 0.5).Floor
  }

  /** Number.prototype.toFixed(2) on an exact value. */
  function Fixed2(x: real): (s: string)
    ensures x >= 0.0 ==> IsValidAmount(s) && TwoDecimalForm(s) && -0.005 < AmountValue(s) - x <= 0.005
    ensures x < 0.0 ==>
      && |s| > 1 && s[0] == '-' && IsValidAmount(s[1..]) && TwoDecimalForm(s[1..])
      && -0.005 < AmountValue(s[1..]) + x <= 0.005
  {
    if x < 0.0 then
      var t := CentsText(RoundCents(-x));
      assert ("-" + t)[1..] == t;
      "-" + t
    else
      CentsText(RoundCents(x))
  }

  /** Writing a valid amount's value with two decimals loses nothing: the text reads back to the same value. */
  lemma {:induction false} Fixed2OfAmountIsExact(s: string)
    requires IsValidAmount(s)
    ensures AmountValue(Fixed2(AmountValue(s))) == AmountValue(s)
  {
    var x := AmountValue(s);
    assert x * 100.0 == Cents(s) as real;
    assert RoundCents(x) == Cents(s);
  }

  /** 12.5 is written "12.50". */
  lemma TwelveFifty()
    ensures Fixed2(12.5) == "12.50"
  {
    assert RoundCents(12.5) == 1250;
    assert Digits(1) == "1";
    assert Digits(12) == "12";
    assert CentsText(1250) == "12.50";
  }

  /** "10" is a valid amount worth ten. */
  lemma TenIsValid()
    ensures IsValidAmount("10") && AmountValue("10") == 10.0
  {
    SpanUnique("10", IsDigit, 2);
    assert "10"[..2] == "10" && "10"[..1] == "1" && "1"[..0] == [];
    assert DigitsValue("1") == 1;
    assert DigitsValue("10") == 10;
    assert Cents("10") == 1000;
  }
}
