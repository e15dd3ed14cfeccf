/**
 * Decimal text of natural numbers, and the reverse reading that JavaScript
 * applies when a property name is used as an array index.
 */
module Numerals {
  import opened Wrappers

  predicate IsDigit(c: char) {
    '0' <= c <= '9'
  }

  predicate AllDigits(s: string) {
    forall i :: 0 <= i < |s| ==> IsDigit(s[i])
  }

  function DigitChar(d: nat): (c: char)
    requires d < 10
    ensures IsDigit(c) && c as int - '0' as int == d
  {
    (d + '0' as int) as char
  }

  function DigitValue(c: char): (d: nat)
    requires IsDigit(c)
    ensures d < 10 && DigitChar(d) == c
  {
    c as int - '0' as int
  }

  /** The decimal rendering of `n`, as `Number.prototype.toString` writes an integer. */
  function Decimal(n: nat): (s: string)
    ensures AllDigits(s)
    ensures |s| == 1 <==> n < 10
    ensures |s| >= 1 && (s[0] == '0' <==> n == 0)
    decreases n
  {
    if n < 10 then [DigitChar(n)] else Decimal(n / 10) + [DigitChar(n % 10)]
  }

  /** The number a string of digits denotes. */
  function DigitsValue(s: string): nat
    requires AllDigits(s)
    decreases |s|
  {
    if s == [] then 0 else DigitsValue(s[..|s| - 1]) * 10 + DigitValue(s[|s| - 1])
  }

  /** A property name that denotes an array index: digits only, no leading zero. */
  predicate IsCanonicalIndex(s: string) {
    |s| >= 1 && AllDigits(s) && (|s| > 1 ==> s[0] != '0')
  }

  /** The array index a property name denotes, if any. */
  function ParseIndex(s: string): Option<nat> {
    if IsCanonicalIndex(s) then Some(DigitsValue(s)) else None
  }

  lemma {:induction false} DecimalValue(n: nat)
    ensures DigitsValue(Decimal(n)) == n
    decreases n
  {
    if n >= 10 {
      var s := Decimal(n);
      assert s[..|s| - 1] == Decimal(n / 10);
      DecimalValue(n / 10);
    }
  }

  /** Reading the decimal text of `n` as an index gives back `n`. */
  lemma DecimalRoundTrip(n: nat)
    ensures ParseIndex(Decimal(n)) == Some(n)
  {
    DecimalValue(n);
  }

  /** Every index name is the decimal text of the index it denotes. */
  lemma {:induction false} ParseIndexDecimal(s: string, n: nat)
    requires ParseIndex(s) == Some(n)
    ensures s == Decimal(n)
    decreases |s|
  {
    if |s| == 1 {
      assert n == DigitValue(s[0]);
    } else {
      var init, last := s[..|s| - 1], s[|s| - 1];
      assert s == init + [last];
      assert init[0] == s[0];
      var m := DigitsValue(init);
      assert ParseIndex(init) == Some(m);
      ParseIndexDecimal(init, m);
      assert m != 0;
      assert n == m * 10 + DigitValue(last);
      assert n / 10 == m && n % 10 == DigitValue(last);
    }
  }
}
