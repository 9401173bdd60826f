// Unbounded decimal numbers, kept as their digits without leading zeros.
module Decimals {
  import opened Results
  import opened Orders

  type Decimal = string

  predicate IsDigit(c: char) {
    '0' <= c <= '9'
  }

  predicate AllDigits(text: string) {
    forall i :: 0 <= i < |text| ==> IsDigit(text[i])
  }

  predicate Canonical(d: Decimal) {
    |d| >= 1 && AllDigits(d) && (|d| > 1 ==> d[0] != '0')
  }

  const ZERO: Decimal := "0"

  function Trimmed(text: string): string {
    if |text| > 1 && text[0] == '0' then Trimmed(text[1..]) else text
  }

  function Parse(text: string, allowLeadingZero: bool): Option<Decimal> {
    if text == "" || !AllDigits(text) || (!allowLeadingZero && |text| > 1 && text[0] == '0') then None
    else Some(Trimmed(text))
  }

  function Compare(a: Decimal, b: Decimal): Ordering {
    CompareInt(|a|, |b|).Then(CompareText(a, b))
  }

  // ---- what the digits mean ----

  function Power(n: nat): (p: nat)
    ensures p >= 1
  {
    if n == 0 then 1 else 10 * Power(n - 1)
  }

  function Digit(c: char): nat
    requires IsDigit(c)
  {
    c as int - '0' as int
  }

  function Value(digits: string): nat
    requires AllDigits(digits)
  {
    if digits == "" then 0 else 10 * Value(digits[..|digits| - 1]) + Digit(digits[|digits| - 1])
  }

  lemma {:induction false} ValueBound(digits: string)
    requires AllDigits(digits)
    ensures Value(digits) < Power(|digits|)
  {
    if digits != "" {
      ValueBound(digits[..|digits| - 1]);
    }
  }

  lemma {:induction false} LeadingDigit(digits: string)
    requires AllDigits(digits) && digits != "" && digits[0] != '0'
    ensures Value(digits) >= Power(|digits| - 1)
  {
    if |digits| > 1 {
      LeadingDigit(digits[..|digits| - 1]);
    }
  }

  lemma {:induction false} LeadingZero(digits: string)
    requires AllDigits(digits) && digits != "" && digits[0] == '0'
    ensures Value(digits) == Value(digits[1..])
  {
    if |digits| > 1 {
      LeadingZero(digits[..|digits| - 1]);
      assert digits[..|digits| - 1][1..] == digits[1..][..|digits| - 2];
    }
  }

  lemma {:induction false} PowerGrows(m: nat, n: nat)
    requires m <= n
    ensures Power(m) <= Power(n)
    decreases n
  {
    if m < n {
      PowerGrows(m, n - 1);
    }
  }

  lemma {:induction false} CompareLast(a: string, b: string)
    requires |a| == |b| > 0
    ensures CompareText(a, b) == CompareText(a[..|a| - 1], b[..|b| - 1]).Then(CompareChar(a[|a| - 1], b[|b| - 1]))
  {
    var n := |a| - 1;
    assert CompareText(a, b) == CompareChar(a[0], b[0]).Then(CompareText(a[1..], b[1..]));
    if n == 0 {
      assert a[1..] == b[1..] == "";
      assert CompareText(a[1..], b[1..]) == Equal && CompareText(a[..n], b[..n]) == Equal;
    } else {
      CompareLast(a[1..], b[1..]);
      assert a[..n][1..] == a[1..][..n - 1] && b[..n][1..] == b[1..][..n - 1];
      assert CompareText(a[..n], b[..n]) == CompareChar(a[0], b[0]).Then(CompareText(a[..n][1..], b[..n][1..]));
    }
  }

  lemma {:induction false} SameLengthCompare(a: string, b: string)
    requires AllDigits(a) && AllDigits(b) && |a| == |b|
    ensures CompareText(a, b) == CompareInt(Value(a), Value(b))
  {
    if a != "" {
      CompareLast(a, b);
      SameLengthCompare(a[..|a| - 1], b[..|b| - 1]);
    }
  }

  lemma ShorterIsLess(a: Decimal, b: Decimal)
    requires Canonical(a) && Canonical(b) && |a| < |b|
    ensures Value(a) < Value(b)
  {
    ValueBound(a);
    PowerGrows(|a|, |b| - 1);
    LeadingDigit(b);
  }

  // Comparing lengths, then bytes, is comparing the numbers.
  lemma CompareIsNumeric(a: Decimal, b: Decimal)
    requires Canonical(a) && Canonical(b)
    ensures Compare(a, b) == CompareInt(Value(a), Value(b))
  {
    if |a| == |b| {
      SameLengthCompare(a, b);
    } else if |a| < |b| {
      ShorterIsLess(a, b);
    } else {
      ShorterIsLess(b, a);
    }
  }

  lemma {:induction false} TrimmedKeepsValue(text: string)
    requires AllDigits(text) && text != ""
    ensures Canonical(Trimmed(text)) && Value(Trimmed(text)) == Value(text)
  {
    if |text| > 1 && text[0] == '0' {
      LeadingZero(text);
      TrimmedKeepsValue(text[1..]);
    }
  }

  // Parsing accepts the digit strings (without leading zeros, if asked) and
  // keeps the number; without leading zeros it keeps the text.
  lemma ParseMeaning(text: string, allowLeadingZero: bool)
    ensures Parse(text, allowLeadingZero).Some? <==>
            if allowLeadingZero then text != "" && AllDigits(text) else Canonical(text)
    ensures Parse(text, allowLeadingZero).Some? ==>
              && Canonical(Parse(text, allowLeadingZero).value)
              && AllDigits(text) && Value(Parse(text, allowLeadingZero).value) == Value(text)
    ensures Parse(text, false).Some? ==> Parse(text, false).value == text
  {
    if text != "" && AllDigits(text) {
      TrimmedKeepsValue(text);
    }
  }

  lemma DecimalOrder()
    ensures TotalOrder(Compare, Canonical)
  {
    forall x, y | Canonical(x) && Canonical(y)
      ensures Compare(x, y) == CompareInt(Value(x), Value(y)) && (Compare(x, y) == Equal <==> x == y)
    {
      CompareIsNumeric(x, y);
      EqualIsSame(x, y);
    }
  }

  lemma EqualIsSame(x: Decimal, y: Decimal)
    ensures Compare(x, y) == Equal <==> x == y
  {
    CharOrder();
    ListsReverse(CompareChar, (_: char) => true, x, y);
  }
}
