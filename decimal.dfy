/** Decimal rendering and parsing of natural numbers. JavaScript uses decimal strings
    as the property keys of array elements ("2" is the key of index 2) and as the
    numeric suffix of every routine handle. */
module Decimal {
  import opened Wrappers

  /** 2^32 - 1. An array index is a number below this bound; the canonical decimal
      string of such a number is an array-index key, every other string is a plain name. */
  const MaxIndex: nat := 4294967295

  predicate IsDigit(c: char) {
    '0' <= c <= '9'
  }

  function DigitChar(d: nat): (c: char)
    requires d < 10
    ensures IsDigit(c)
  {
    ('0' as int + d) as char
  }

  function DigitValue(c: char): (d: nat)
    requires IsDigit(c)
    ensures d < 10 && DigitChar(d) == c
  {
    c as int - '0' as int
  }

  predicate AllDigits(s: string) {
    forall i :: 0 <= i < |s| ==> IsDigit(s[i])
  }

  /** A non-empty digit string without a leading zero (except "0" itself). */
  predicate Canonical(s: string) {
    |s| > 0 && AllDigits(s) && (s[0] == '0' ==> |s| == 1)
  }

  /** The decimal rendering of n, as String(n) gives it. */
  function Digits(n: nat): string
    decreases n
  {
    if n < 10 then [DigitChar(n)] else Digits(n / 10) + [DigitChar(n % 10)]
  }

  /** The number a string of decimal digits denotes. */
  function ValueOf(s: string): nat
    requires AllDigits(s)
  {
    if s == [] then 0 else 10 * ValueOf(s[..|s| - 1]) + DigitValue(s[|s| - 1])
  }

  /** The array index that a property key names, if it names one. */
  function ParseIndex(k: string): (r: Option<nat>)
    ensures r.Some? ==> r.value < MaxIndex && Digits(r.value) == k
  {
    if Canonical(k) && ValueOf(k) < MaxIndex then
      CanonicalRoundTrip(k);
      Some(ValueOf(k))
    else
      None
  }

  /** Digits(n) is canonical and denotes n. */
  lemma {:induction false} DigitsRoundTrip(n: nat)
    ensures Canonical(Digits(n)) && ValueOf(Digits(n)) == n
    decreases n
  {
    if n >= 10 {
      var p := Digits(n / 10);
      DigitsRoundTrip(n / 10);
      var s := p + [DigitChar(n % 10)];
      assert s[..|s| - 1] == p;
      assert s[0] == p[0];
    }
  }

  /** A digit string whose first digit is not 0 denotes a positive number. */
  lemma {:induction false} LeadingDigitPositive(s: string)
    requires AllDigits(s) && |s| > 0 && s[0] != '0'
    ensures ValueOf(s) >= 1
    decreases |s|
  {
    if |s| > 1 {
      var p := s[..|s| - 1];
      assert p[0] == s[0];
      LeadingDigitPositive(p);
    } else {
      assert s[..0] == [];
    }
  }

  /** Every canonical digit string is the rendering of the number it denotes. */
  lemma {:induction false} CanonicalRoundTrip(s: string)
    requires Canonical(s)
    ensures Digits(ValueOf(s)) == s
    decreases |s|
  {
    var p := s[..|s| - 1];
    var d := DigitValue(s[|s| - 1]);
    if |s| == 1 {
      assert p == [];
      assert s == [DigitChar(d)];
    } else {
      assert p[0] == s[0] && s[0] != '0';
      assert Canonical(p);
      LeadingDigitPositive(p);
      CanonicalRoundTrip(p);
      var n := ValueOf(s);
      assert n == 10 * ValueOf(p) + d;
      assert n / 10 == ValueOf(p) && n % 10 == d;
      assert s == p + [s[|s| - 1]];
    }
  }

  /** Every index below MaxIndex is found again in its own key. */
  lemma ParseDigits(n: nat)
    requires n < MaxIndex
    ensures ParseIndex(Digits(n)) == Some(n)
  {
    DigitsRoundTrip(n);
  }

  /** Distinct numbers have distinct renderings. */
  lemma DigitsInjective(m: nat, n: nat)
    requires Digits(m) == Digits(n)
    ensures m == n
  {
    DigitsRoundTrip(m);
    DigitsRoundTrip(n);
  }
}
