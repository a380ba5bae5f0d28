/**
 * Python's `str(n)` for integers (as used inside f-strings) and its inverse,
 * so that formatted numbers can be read back.
 */
module Decimal {

  predicate IsDigit(c: char) {
    '0' <= c <= '9'
  }

  predicate AllDigits(s: string) {
    forall i :: 0 <= i < |s| ==> IsDigit(s[i])
  }

  function DigitValue(c: char): (d: nat)
    requires IsDigit(c)
    ensures d < 10
  {
    c as int - '0' as int
  }

  function DigitChar(d: nat): (c: char)
    requires d < 10
    ensures IsDigit(c) && DigitValue(c) == d
  {
    ('0' as int + d) as char
  }

  /** `str(n)` for `n >= 0`: the shortest decimal numeral. */
  function NatToString(n: nat): (s: string)
    ensures |s| >= 1 && AllDigits(s)
    ensures s[0] == '0' ==> n == 0
    decreases n
  {
    if n < 10 then [DigitChar(n)] else NatToString(n / 10) + [DigitChar(n % 10)]
  }

  /** Reads a decimal numeral left to right, starting from the value `acc` already read. */
  function ParseDigits(acc: nat, s: string): nat
    requires AllDigits(s)
    decreases |s|
  {
    if s == [] then acc else ParseDigits(10 * acc + DigitValue(s[0]), s[1..])
  }

  function ParseNat(s: string): nat
    requires AllDigits(s)
  {
    ParseDigits(0, s)
  }

  /** One more digit at the end multiplies what was read by ten and adds the digit. */
  lemma {:induction false} ParseDigitsSnoc(acc: nat, s: string, c: char)
    requires AllDigits(s) && IsDigit(c)
    ensures ParseDigits(acc, s + [c]) == 10 * ParseDigits(acc, s) + DigitValue(c)
    decreases |s|
  {
    if s != [] {
      assert (s + [c])[1..] == s[1..] + [c];
      ParseDigitsSnoc(10 * acc + DigitValue(s[0]), s[1..], c);
    }
  }

  /** Reading back what `str(n)` printed gives `n`. */
  lemma {:induction false} ParseNatToString(n: nat)
    ensures ParseNat(NatToString(n)) == n
    decreases n
  {
    if n >= 10 {
      var c := DigitChar(n % 10);
      calc {
        ParseNat(NatToString(n));
        ParseDigits(0, NatToString(n / 10) + [c]);
        { ParseDigitsSnoc(0, NatToString(n / 10), c); }
        10 * ParseNat(NatToString(n / 10)) + DigitValue(c);
        { ParseNatToString(n / 10); }
        10 * (n / 10) + n % 10;
      }
    } else {
      var c := DigitChar(n);
      calc {
        ParseNat(NatToString(n));
        ParseDigits(0, [c]);
        { assert [c][1..] == []; }
        ParseDigits(DigitValue(c), []);
      }
    }
  }

  /** `str(n)` for any integer: a leading '-' for negative values. */
  function IntToString(n: int): (s: string)
    ensures |s| >= 1
    ensures forall i :: 0 <= i < |s| ==> IsDigit(s[i]) || (i == 0 && s[i] == '-')
  {
    if n < 0 then "-" + NatToString(-n) else NatToString(n)
  }

  function ParseInt(s: string): int
    requires forall i :: 0 <= i < |s| ==> IsDigit(s[i]) || (i == 0 && s[i] == '-')
  {
    if s != [] && s[0] == '-' then -(ParseNat(s[1..]) as int) else ParseNat(s)
  }

  /** Reading back what `str(n)` printed gives `n`, for every integer. */
  lemma ParseIntToString(n: int)
    ensures ParseInt(IntToString(n)) == n
  {
    if n < 0 {
      ParseNatToString(-n);
      assert IntToString(n)[1..] == NatToString(-n);
    } else {
      ParseNatToString(n);
    }
  }

  /** Distinct integers print differently. */
  lemma IntToStringInjective(a: int, b: int)
    requires IntToString(a) == IntToString(b)
    ensures a == b
  {
    ParseIntToString(a);
    ParseIntToString(b);
  }
}
