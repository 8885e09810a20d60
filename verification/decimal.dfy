/**
  Decimal spelling of non-negative integers, as Python's `str()` / f-string
  produces it, and the parse that reads it back. The application uses it twice:
  for scheduler job ids (`monitor_{id}`) and for probe messages
  (`{status_code} - {reason}`).
 */
module Decimal {
  import opened Wrappers

  predicate IsDigit(c: char) {
    '0' <= c <= '9'
  }

  predicate AllDigits(s: string) {
    forall i :: 0 <= i < |s| ==> IsDigit(s[i])
  }

  function DigitValue(c: char): (d: nat)
    requires IsDigit(c)
    ensures d < 10
  {
    c as int - '0' as int
  }

  function DigitChar(d: nat): (c: char)
    requires d < 10
    ensures IsDigit(c) && DigitValue(c) == d
  {
    ('0' as int + d) as char
  }

  /** A spelling `str()` can produce: at least one digit, and no leading zero
      unless the number is zero itself. */
  predicate Canonical(s: string) {
    |s| >= 1 && AllDigits(s) && (|s| > 1 ==> s[0] != '0')
  }

  /** The shortest decimal spelling of `n`: at least one digit, no leading zero. */
  function FromNat(n: nat): (s: string)
    ensures Canonical(s)
    ensures s[0] == '0' <==> n == 0
    decreases n
  {
    if n < 10 then [DigitChar(n)] else FromNat(n / 10) + [DigitChar(n % 10)]
  }

  /** The number a string of digits denotes (most significant digit first). */
  function ValueOf(s: string): nat
    requires AllDigits(s)
  {
    if |s| == 0 then 0 else 10 * ValueOf(s[..|s| - 1]) + DigitValue(s[|s| - 1])
  }

  /** Reads a canonical spelling; anything else, a leading zero included, is rejected. */
  function Parse(s: string): Option<nat> {
    if Canonical(s) then Some(ValueOf(s)) else None
  }

  /** Length of the longest all-digit prefix of `s`. */
  function LeadingDigits(s: string): (k: nat)
    ensures k <= |s|
    ensures AllDigits(s[..k])
    ensures k < |s| ==> !IsDigit(s[k])
  {
    if |s| == 0 || !IsDigit(s[0]) then 0 else 1 + LeadingDigits(s[1..])
  }

  lemma {:induction false} ValueOfFromNat(n: nat)
    ensures ValueOf(FromNat(n)) == n
    decreases n
  {
    if n >= 10 {
      var s := FromNat(n);
      assert s[..|s| - 1] == FromNat(n / 10);
      ValueOfFromNat(n / 10);
    }
  }

  /** Parsing the spelling of `n` gives `n` back. */
  lemma ParseFromNat(n: nat)
    ensures Parse(FromNat(n)) == Some(n)
  {
    ValueOfFromNat(n);
  }

  /** A canonical spelling is the spelling of the number it denotes. */
  lemma {:induction false} FromNatValueOf(s: string)
    requires Canonical(s)
    ensures FromNat(ValueOf(s)) == s
    decreases |s|
  {
    var d := s[|s| - 1];
    if |s| == 1 {
      assert ValueOf(s) == DigitValue(d);
      assert DigitChar(DigitValue(d)) == d;
      assert s == [d];
    } else {
      var p := s[..|s| - 1];
      assert p[0] == s[0];
      FromNatValueOf(p);
      assert ValueOf(p) != 0;
      var v := ValueOf(s);
      assert v / 10 == ValueOf(p) && v % 10 == DigitValue(d);
      assert DigitChar(DigitValue(d)) == d;
      assert s == p + [d];
    }
  }

  /** `Parse` and `FromNat` are inverse: a string parses to `n` exactly when
      it is the spelling of `n`. */
  lemma ParseIsInverse(s: string, n: nat)
    ensures Parse(s) == Some(n) <==> s == FromNat(n)
  {
    if Parse(s) == Some(n) {
      FromNatValueOf(s);
    }
    if s == FromNat(n) {
      ParseFromNat(n);
    }
  }

  /** Distinct numbers have distinct spellings. */
  lemma FromNatInjective(a: nat, b: nat)
    ensures FromNat(a) == FromNat(b) <==> a == b
  {
    if FromNat(a) == FromNat(b) {
      ParseFromNat(a);
      ParseFromNat(b);
    }
  }

  /** A run of digits followed by a non-digit (or nothing) is exactly the leading-digit prefix. */
  lemma {:induction false} LeadingDigitsOfConcat(d: string, t: string)
    requires AllDigits(d)
    requires |t| == 0 || !IsDigit(t[0])
    ensures LeadingDigits(d + t) == |d|
    decreases |d|
  {
    if |d| > 0 {
      assert (d + t)[1..] == d[1..] + t;
      LeadingDigitsOfConcat(d[1..], t);
    } else {
      assert d + t == t;
    }
  }
}
