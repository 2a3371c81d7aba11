/** decodeDouble of encoding/fwoop_json.cpp over the real numbers: the value it computes for a token, and when
    that is the number the token prints.  Rounding is left out. */
module JsonDouble {
  import opened CLibrary
  import opened Json

  function Pow10(n: nat): real
    ensures Pow10(n) > 0.0
  {
    if n == 0 then 1.0 else 10.0 * Pow10(n - 1)
  }

  function Product(a: real, b: real): real { a * b }

  function Quotient(a: real, b: real): real
    requires b != 0.0
  {
    a / b
  }

  /** Where the loop stands: the sum so far, the factor of the next digit, and whether a point was passed. */
  datatype Sum = Sum(res: real, factor: real, afterDecimal: bool)

  /** The next byte, a digit or a point. */
  function Added(sum: Sum, c: char): (r: Sum)
    requires IsDigit(c) || c == '.'
    requires sum.factor != 0.0
    ensures r.factor != 0.0
  {
    if c == '.' then Sum(sum.res, 10.0, true)
    else if sum.afterDecimal then Sum(sum.res + Quotient(Digit(c) as real, sum.factor), sum.factor * 10.0, true)
    else Sum(sum.res + Product(Digit(c) as real, sum.factor), sum.factor / 10.0, false)
  }

  predicate DigitsAndPoints(s: string) { forall i :: 0 <= i < |s| ==> IsDigit(s[i]) || s[i] == '.' }

  function AddedAll(sum: Sum, s: string): (r: Sum)
    requires DigitsAndPoints(s) && sum.factor != 0.0
    ensures r.factor != 0.0
    decreases |s|
  {
    if s == "" then sum else AddedAll(Added(sum, s[0]), s[1..])
  }

  /** The bytes before the first point. */
  function Before(s: string): nat { if s == "" || s[0] == '.' then 0 else 1 + Before(s[1..]) }

  /** What the first factor is: with no digit before the point it is not used. */
  function FirstFactor(digits: nat): (r: real)
    ensures r > 0.0
  {
    if digits == 0 then 1.0 else Pow10(digits - 1)
  }

  /** The bytes the loop reads: a leading minus sign is passed over. */
  function Unsigned(s: string): string { if s != "" && s[0] == '-' then s[1..] else s }

  /** The value decodeDouble returns for a token it accepts. */
  function DoubleOf(s: string): real
    requires DoubleText(s)
  {
    var t := Unsigned(s);
    AddedAll(Sum(0.0, FirstFactor(Before(t)), false), t).res
  }

  // ----- What a decimal stands for

  datatype Decimal = Decimal(minus: bool, whole: string, fraction: string)

  predicate IsDigits(s: string) { forall i :: 0 <= i < |s| ==> IsDigit(s[i]) }

  function TextOf(d: Decimal): string {
    (if d.minus then "-" else "") + d.whole + "." + d.fraction
  }

  function Magnitude(d: Decimal): real {
    Digits(d.whole, 0) as real + Quotient(Digits(d.fraction, 0) as real, Pow10(|d.fraction|))
  }

  function ValueOf(d: Decimal): real { if d.minus then 0.0 - Magnitude(d) else Magnitude(d) }

  // ----- The sum

  /** A prefix worth n counts n times the power of ten of the digits after it. */
  lemma {:induction false} DigitsAfter(s: string, n: nat)
    requires IsDigits(s)
    ensures Digits(s, n) as real == Product(n as real, Pow10(|s|)) + Digits(s, 0) as real
  {
    if s == "" {
      assert Product(n as real, 1.0) == n as real;
    } else {
      var d, rest := Digit(s[0]), s[1..];
      assert Digits(s, n) == Digits(rest, 10 * n + d) && Digits(s, 0) == Digits(rest, d);
      assert Pow10(|s|) == 10.0 * Pow10(|rest|);
      hide Digits, Pow10, Product;
      DigitsAfter(rest, 10 * n + d);
      DigitsAfter(rest, d);
      ShiftedPrefix(n, d, Pow10(|rest|));
    }
  }

  lemma ShiftedPrefix(n: nat, d: nat, p: real)
    ensures Product((10 * n + d) as real, p) == Product(n as real, 10.0 * p) + Product(d as real, p)
  {
    assert (10 * n + d) as real == 10.0 * n as real + d as real;
  }

  lemma {:induction false} WholeSum(sum: Sum, s: string)
    requires IsDigits(s) && !sum.afterDecimal && sum.factor == FirstFactor(|s|)
    ensures AddedAll(sum, s).res == sum.res + Digits(s, 0) as real && !AddedAll(sum, s).afterDecimal
    decreases |s|
  {
    hide Product;
    if s != "" {
      var d, rest := Digit(s[0]), s[1..];
      var next := Added(sum, s[0]);
      assert AddedAll(sum, s) == AddedAll(next, rest) && Digits(s, 0) == Digits(rest, d);
      DigitsAfter(rest, d);
      NextFactor(|rest|);
      if rest == "" {
        assert AddedAll(next, rest) == next && Digits(rest, 0) == 0;
        hide AddedAll, Digits, Pow10;
      } else {
        hide AddedAll, Digits, Pow10;
        WholeSum(next, rest);
      }
    }
  }

  lemma NextFactor(n: nat)
    ensures FirstFactor(n + 1) == Pow10(n) && (n > 0 ==> Pow10(n) / 10.0 == FirstFactor(n)) && Pow10(0) == 1.0
  {
  }

  /** The digits after the point, the next of them worth a tenth of what came before. */
  lemma {:induction false} FractionSum(sum: Sum, s: string)
    requires IsDigits(s) && sum.afterDecimal && sum.factor > 0.0
    ensures AddedAll(sum, s).res
         == sum.res + Quotient(10.0 * Quotient(Digits(s, 0) as real, Pow10(|s|)), sum.factor)
    decreases |s|
  {
    if s == "" {
      assert Digits(s, 0) == 0;
    } else {
      hide Quotient, Product;
      var d, rest := Digit(s[0]), s[1..];
      var next := Added(sum, s[0]);
      assert AddedAll(sum, s) == AddedAll(next, rest) && Digits(s, 0) == Digits(rest, d);
      assert Pow10(|s|) == 10.0 * Pow10(|rest|);
      hide AddedAll, Digits, Pow10;
      FractionSum(next, rest);
      DigitsAfter(rest, d);
      OneDigitMore(d as real, Digits(rest, 0) as real, Pow10(|rest|), sum.factor);
    }
  }

  lemma OneDigitMore(d: real, r: real, p: real, f: real)
    requires p > 0.0 && f > 0.0
    ensures Quotient(d, f) + Quotient(10.0 * Quotient(r, p), f * 10.0)
         == Quotient(10.0 * Quotient(Product(d, p) + r, 10.0 * p), f)
  {
    hide Quotient, Product;
    Cancel(Quotient(r, p), f);
    SplitQuotient(d, r, p);
    SumOver(d, Quotient(r, p), f);
  }

  lemma SumOver(a: real, b: real, f: real)
    requires f > 0.0
    ensures Quotient(a + b, f) == Quotient(a, f) + Quotient(b, f)
  {
  }

  lemma Cancel(a: real, f: real)
    requires f > 0.0
    ensures Quotient(10.0 * a, f * 10.0) == Quotient(a, f)
  {
    var q := a / f;
    assert a == q * f;
    assert a * 10.0 == q * (f * 10.0);
  }

  lemma SplitQuotient(d: real, r: real, p: real)
    requires p > 0.0
    ensures 10.0 * Quotient(Product(d, p) + r, 10.0 * p) == d + Quotient(r, p)
  {
    var q := r / p;
    assert r == q * p;
    assert d * p + r == (d + q) * p;
    assert d * p + r == (d / 10.0 + q / 10.0) * (10.0 * p);
  }

  lemma {:induction false} AddedConcat(sum: Sum, a: string, b: string)
    requires DigitsAndPoints(a) && DigitsAndPoints(b) && sum.factor != 0.0
    ensures AddedAll(sum, a + b) == AddedAll(AddedAll(sum, a), b)
    decreases |a|
  {
    if a == "" {
      assert a + b == b;
    } else {
      assert (a + b)[1..] == a[1..] + b;
      AddedConcat(Added(sum, a[0]), a[1..], b);
    }
  }

  lemma {:induction false} BeforeIs(whole: string, rest: string)
    requires IsDigits(whole) && rest != "" && rest[0] == '.'
    ensures Before(whole + rest) == |whole|
  {
    if whole == "" {
      assert whole + rest == rest;
    } else {
      assert (whole + rest)[1..] == whole[1..] + rest;
      BeforeIs(whole[1..], rest);
    }
  }

  /** The magnitude is computed exactly, and the minus sign is lost: the value is the one the token prints exactly
      when the token has no minus sign or stands for zero. */
  lemma DecimalValue(d: Decimal)
    requires IsDigits(d.whole) && IsDigits(d.fraction)
    ensures DoubleText(TextOf(d)) && DoubleOf(TextOf(d)) == Magnitude(d)
    ensures DoubleOf(TextOf(d)) == ValueOf(d) <==> !d.minus || Magnitude(d) == 0.0
  {
    hide Quotient, Product;
    var rest := "." + d.fraction;
    var t := d.whole + rest;
    assert t == d.whole + "." + d.fraction;
    assert Unsigned(TextOf(d)) == t by {
      assert TextOf(d) == (if d.minus then "-" else "") + t;
    }
    BeforeIs(d.whole, rest);
    var start := Sum(0.0, FirstFactor(|d.whole|), false);
    AddedConcat(start, d.whole, rest);
    WholeSum(start, d.whole);
    var whole := AddedAll(start, d.whole);
    assert rest[0] == '.' && rest[1..] == d.fraction;
    var point := Added(whole, '.');
    assert AddedAll(whole, rest) == AddedAll(point, d.fraction);
    FractionSum(point, d.fraction);
    TenthOfTen(Quotient(Digits(d.fraction, 0) as real, Pow10(|d.fraction|)));
  }

  lemma TenthOfTen(a: real)
    ensures Quotient(10.0 * a, 10.0) == a
  {
  }

  // ----- The loop

  /** decodeDouble on a token of at most 255 bytes, which its loop variable can count. */
  method DecodeDouble(s: string) returns (fine: bool, res: real)
    requires s != "" && |s| <= 255
    ensures fine <==> DoubleText(s)
    ensures fine ==> res == DoubleOf(s)
  {
    hide FirstFactor, AddedAll;
    var beforeDecimal := 0;
    while beforeDecimal < |s| && s[beforeDecimal] != '.'
      invariant 0 <= beforeDecimal <= |s|
      invariant Before(s) == beforeDecimal + Before(s[beforeDecimal..])
    {
      beforeDecimal := beforeDecimal + 1;
    }
    var isNegative := s[0] == '-';
    var i := if isNegative then 1 else 0;
    BeforeUnsigned(s);
    UnsignedText(s);
    assert Unsigned(s) == s[i..];
    var sum;
    fine, sum := AddDigits(s[i..], FirstFactor(beforeDecimal - i));
    res := sum.res;
  }

  /** The loop over the digits. */
  method AddDigits(s: string, factor: real) returns (fine: bool, sum: Sum)
    requires factor != 0.0
    ensures fine <==> DigitsAndPoints(s)
    ensures fine ==> sum == AddedAll(Sum(0.0, factor, false), s)
  {
    hide Added;
    sum := Sum(0.0, factor, false);
    ghost var start := sum;
    var i := 0;
    while i < |s|
      invariant 0 <= i <= |s| && sum.factor != 0.0
      invariant DigitsAndPoints(s[..i]) && sum == AddedAll(start, s[..i])
    {
      if s[i] != '.' && !IsDigit(s[i]) {
        return false, sum;
      }
      assert s[..i + 1] == s[..i] + [s[i]] && [s[i]][1..] == "";
      AddedConcat(start, s[..i], [s[i]]);
      assert AddedAll(sum, [s[i]]) == Added(sum, s[i]);
      sum := Added(sum, s[i]);
      i := i + 1;
    }
    assert s[..i] == s;
    fine := true;
  }

  lemma BeforeUnsigned(s: string)
    requires s != ""
    ensures Before(Unsigned(s)) == if s[0] == '-' then Before(s) - 1 else Before(s)
    ensures s[0] == '-' ==> Before(s) > 0
  {
  }

  lemma UnsignedText(s: string)
    requires s != ""
    ensures DoubleText(s) <==> DigitsAndPoints(Unsigned(s))
  {
    var t := Unsigned(s);
    if DigitsAndPoints(t) && s[0] == '-' {
      assert forall i :: 1 <= i < |s| ==> s[i] == t[i - 1];
    }
  }
}
