/**
 The two number renderings the core relies on: Python's `str(n)` for a
 non-negative integer, and `int(s, 2)` for a label made only of the digits
 0 and 1. Each comes with its inverse or an injectivity lemma.
 */
module Numerals {

  predicate IsDigit(c: char) {
    '0' <= c <= '9'
  }

  /** The character for a single decimal digit. */
  function DigitChar(d: nat): (c: char)
    requires d < 10
    ensures IsDigit(c) && c as int - '0' as int == d
  {
    ('0' as int + d) as char
  }

  /** `str(n)` for `n >= 0`: the shortest decimal numeral of `n`. It is made
      of digits only and starts with `0` only when it is `"0"`. */
  function DecimalString(n: nat): (r: string)
    ensures |r| >= 1
    ensures forall k | 0 <= k < |r| :: IsDigit(r[k])
    ensures r[0] == '0' <==> n == 0
    ensures n == 0 ==> r == "0"
  {
    if n < 10 then [DigitChar(n)]
    else DecimalString(n / 10) + [DigitChar(n % 10)]
  }

  /** The value of a single decimal digit. */
  function DigitValue(c: char): (d: nat)
    requires IsDigit(c)
    ensures d < 10 && DigitChar(d) == c
  {
    c as int - '0' as int
  }

  /** The value of a numeral made of decimal digits (`int(s)`). */
  function DecimalValue(s: string): nat
    requires forall k | 0 <= k < |s| :: IsDigit(s[k])
  {
    if s == [] then 0
    else DecimalValue(s[..|s| - 1]) * 10 + DigitValue(s[|s| - 1])
  }

  /** Reading back the rendered numeral gives the number. */
  lemma {:induction false} DecimalRoundTrip(n: nat)
    ensures DecimalValue(DecimalString(n)) == n
  {
    if n >= 10 {
      var r := DecimalString(n);
      DecimalRoundTrip(n / 10);
      assert r[..|r| - 1] == DecimalString(n / 10);
    }
  }

  /** Distinct numbers have distinct numerals. */
  lemma DecimalStringInjective(m: nat, n: nat)
    ensures DecimalString(m) == DecimalString(n) ==> m == n
  {
    DecimalRoundTrip(m);
    DecimalRoundTrip(n);
  }

  /** A label `int(label, 2)` accepts in the plain form qiskit produces: a
      non-empty string of the digits 0 and 1. */
  predicate IsBinaryLabel(s: string) {
    |s| > 0 && forall k | 0 <= k < |s| :: s[k] == '0' || s[k] == '1'
  }

  /** `int(s, 2)` for a string of binary digits. */
  function BinaryValue(s: string): nat
    requires forall k | 0 <= k < |s| :: s[k] == '0' || s[k] == '1'
  {
    if s == [] then 0
    else BinaryValue(s[..|s| - 1]) * 2 + (if s[|s| - 1] == '1' then 1 else 0)
  }

  /** Binary labels of the same width with the same value are the same
      label: on a fixed width, reading binary is injective. */
  lemma {:induction false} BinaryValueInjective(a: string, b: string)
    requires forall k | 0 <= k < |a| :: a[k] == '0' || a[k] == '1'
    requires forall k | 0 <= k < |b| :: b[k] == '0' || b[k] == '1'
    ensures |a| == |b| && BinaryValue(a) == BinaryValue(b) ==> a == b
    decreases |a|
  {
    if a != [] && |a| == |b| && BinaryValue(a) == BinaryValue(b) {
      var n := |a| - 1;
      assert a[n] == b[n];
      BinaryValueInjective(a[..n], b[..n]);
      assert a == a[..n] + [a[n]];
      assert b == b[..n] + [b[n]];
    }
  }
}
