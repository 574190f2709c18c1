/**
 * Decimal rendering of unbounded naturals, as bn.js `toString(10)` produces it for a
 * non-negative number: most significant digit first, no sign, no leading zeros, and
 * "0" for zero.
 */
module Decimal {

  predicate IsDigit(c: char)
  {
    '0' <= c <= '9'
  }

  predicate AllDigits(s: string)
  {
    forall k :: 0 <= k < |s| ==> IsDigit(s[k])
  }

  lemma DigitsNoSign(s: string)
    requires AllDigits(s)
    ensures '-' !in s
  {
    forall k | 0 <= k < |s|
      ensures s[k] != '-'
    {
      assert IsDigit(s[k]);
    }
  }

  /** A decimal numeral in the form `toString(10)` writes: digits only, and no leading zero. */
  predicate Canonical(s: string)
  {
    |s| > 0 && AllDigits(s) && (s[0] == '0' ==> |s| == 1)
  }

  function DigitChar(d: nat): (c: char)
    requires d < 10
    ensures IsDigit(c) && c as int - '0' as int == d
  {
    ('0' as int + d) as char
  }

  function DigitValue(c: char): (d: nat)
    requires IsDigit(c)
    ensures d < 10
  {
    c as int - '0' as int
  }

  /** The decimal numeral of `n`. */
  function DecimalString(n: nat): (s: string)
    ensures |s| > 0
    decreases n
  {
    if n < 10 then [DigitChar(n)] else DecimalString(n / 10) + [DigitChar(n % 10)]
  }

  /** The number a string of digits denotes; leading zeros contribute nothing. */
  function DecimalValue(s: string): (n: nat)
    requires AllDigits(s)
  {
    if s == [] then 0 else DecimalValue(s[..|s| - 1]) * 10 + DigitValue(s[|s| - 1])
  }

  /** The rendering is a canonical numeral: non-empty, digits only, no leading zero. */
  lemma {:induction false} DecimalStringCanonical(n: nat)
    ensures Canonical(DecimalString(n))
    ensures '-' !in DecimalString(n)
    decreases n
  {
    var s := DecimalString(n);
    if n >= 10 {
      DecimalStringCanonical(n / 10);
      var p := DecimalString(n / 10);
      assert s == p + [DigitChar(n % 10)];
      assert s[0] == p[0];
      assert forall k :: 0 <= k < |p| ==> s[k] == p[k];
    }
    DigitsNoSign(s);
  }

  /** Reading the rendering back gives the number. */
  lemma {:induction false} DecimalStringValue(n: nat)
    ensures AllDigits(DecimalString(n)) && DecimalValue(DecimalString(n)) == n
    decreases n
  {
    DecimalStringCanonical(n);
    var s := DecimalString(n);
    if n >= 10 {
      DecimalStringValue(n / 10);
      assert s[..|s| - 1] == DecimalString(n / 10);
    }
  }

  lemma DecimalValuePrefix(s: string)
    requires AllDigits(s) && |s| > 0
    ensures AllDigits(s[..|s| - 1])
    ensures DecimalValue(s) / 10 == DecimalValue(s[..|s| - 1])
    ensures DecimalValue(s) % 10 == DigitValue(s[|s| - 1])
  {
  }

  /** A numeral with a leading non-zero digit denotes at least 10^(length - 1); so its prefix is not zero. */
  lemma CanonicalPrefix(s: string)
    requires Canonical(s) && |s| > 1
    ensures Canonical(s[..|s| - 1]) && DecimalValue(s[..|s| - 1]) > 0
  {
    var p := s[..|s| - 1];
    assert p[0] == s[0];
    NonZeroLead(p);
  }

  lemma {:induction false} NonZeroLead(p: string)
    requires AllDigits(p) && |p| > 0 && p[0] != '0'
    ensures DecimalValue(p) > 0
    decreases |p|
  {
    if |p| > 1 {
      var q := p[..|p| - 1];
      assert q[0] == p[0];
      NonZeroLead(q);
    }
  }

  /** Rendering the value of a canonical numeral gives the numeral back. */
  lemma {:induction false} ValueString(s: string)
    requires Canonical(s)
    ensures DecimalString(DecimalValue(s)) == s
    decreases |s|
  {
    var n := DecimalValue(s);
    if |s| == 1 {
      assert s == [DigitChar(DigitValue(s[0]))];
    } else {
      CanonicalPrefix(s);
      var p := s[..|s| - 1];
      DecimalValuePrefix(s);
      ValueString(p);
      assert n >= 10;
      assert s == p + [s[|s| - 1]];
      assert DigitChar(n % 10) == s[|s| - 1];
    }
  }
}
