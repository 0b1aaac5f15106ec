/** Decimal printing (`%d`, `%03d`, `strconv.Itoa`) and reading of natural numbers. */
module Decimal {
  function DigitChar(d: nat): (c: char)
    requires d < 10
    ensures '0' <= c <= '9' && c as int - '0' as int == d
  {
    '0' + d as char
  }

  predicate IsDigit(c: char) {
    '0' <= c <= '9'
  }

  predicate AllDigits(s: string) {
    forall i :: 0 <= i < |s| ==> IsDigit(s[i])
  }

  function Itoa(n: nat): (s: string)
    ensures |s| >= 1 && AllDigits(s)
  {
    if n < 10 then [DigitChar(n)] else Itoa(n / 10) + [DigitChar(n % 10)]
  }

  /** `%03d`. */
  function Pad3(n: nat): (s: string)
    ensures AllDigits(s)
  {
    var s := Itoa(n);
    if |s| == 1 then "00" + s else if |s| == 2 then "0" + s else s
  }

  /** The number a nonempty digit string denotes. */
  function DigitsValue(s: string): nat
    requires AllDigits(s)
  {
    if s == [] then 0
    else 10 * DigitsValue(s[..|s| - 1]) + (s[|s| - 1] as int - '0' as int)
  }

  lemma {:induction false} ReadBack(n: nat)
    ensures DigitsValue(Itoa(n)) == n
  {
    if n < 10 {
    } else {
      ReadBack(n / 10);
      assert Itoa(n)[..|Itoa(n)| - 1] == Itoa(n / 10);
    }
  }

  lemma {:induction false} LeadingZero(s: string)
    requires AllDigits(s)
    ensures DigitsValue("0" + s) == DigitsValue(s)
  {
    if s == [] {
      assert "0" + s == "0";
    } else {
      LeadingZero(s[..|s| - 1]);
      assert ("0" + s)[..|s|] == "0" + s[..|s| - 1];
    }
  }

  lemma ReadBackPadded(n: nat)
    ensures DigitsValue(Pad3(n)) == n
  {
    ReadBack(n);
    var s := Itoa(n);
    LeadingZero(s);
    LeadingZero("0" + s);
    assert "00" + s == "0" + ("0" + s);
  }

  lemma PaddedInjective(a: nat, b: nat)
    requires Pad3(a) == Pad3(b)
    ensures a == b
  {
    ReadBackPadded(a);
    ReadBackPadded(b);
  }
}
