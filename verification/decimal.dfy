/** Decimal text of a Java `long`, as `Long.toString`, `"%d"` and string
    concatenation print it, with a reference decoder to prove it lossless. */
module Decimal {
  import opened JavaLang

  predicate IsDigits(s: string)
  {
    forall i :: 0 <= i < |s| ==> '0' <= s[i] <= '9'
  }

  function DigitChar(d: int): (c: char)
    requires 0 <= d < 10
    ensures '0' <= c <= '9'
  {
    "0123456789"[d]
  }

  function Pow10(k: nat): (p: nat)
    ensures p >= 1
  {
    if k == 0 then 1 else 10 * Pow10(k - 1)
  }

  /** The digits of `n`, most significant first, without leading zeros. */
  function NatDigits(n: nat): (s: string)
    ensures 1 <= |s|
    decreases n
  {
    if n < 10 then [DigitChar(n)] else NatDigits(n / 10) + [DigitChar(n % 10)]
  }

  /** The text is all digits, and it starts with '0' only for zero. */
  lemma {:induction false} NatDigitsAreDigits(n: nat)
    ensures IsDigits(NatDigits(n))
    ensures NatDigits(n)[0] == '0' ==> n == 0
    decreases n
  {
    if n >= 10 {
      NatDigitsAreDigits(n / 10);
      assert NatDigits(n)[0] == NatDigits(n / 10)[0];
    }
  }

  /** Reference decoder: the number a string of digits denotes. */
  function DigitsValue(s: string): nat
    requires IsDigits(s)
    decreases |s|
  {
    if s == [] then 0 else 10 * DigitsValue(s[..|s| - 1]) + (s[|s| - 1] as int - '0' as int)
  }

  /** Text of a `long` (no sign for non-negative values, a leading '-' otherwise). */
  function LongToString(n: int): (s: string)
    ensures 1 <= |s|
  {
    if n < 0 then "-" + NatDigits(-n) else NatDigits(n)
  }

  /** The text holds digits only, after a '-' exactly when the number is
      negative; so it is ASCII. */
  lemma LongToStringChars(n: int)
    ensures var s := LongToString(n);
      && (s[0] == '-' <==> n < 0)
      && (forall i :: 0 < i < |s| ==> '0' <= s[i] <= '9')
      && (n >= 0 ==> '0' <= s[0] <= '9')
      && IsAscii(s)
  {
    if n < 0 {
      NatDigitsAreDigits(-n);
      assert forall i :: 0 < i < |LongToString(n)| ==> LongToString(n)[i] == NatDigits(-n)[i - 1];
    } else {
      NatDigitsAreDigits(n);
    }
  }

  /** Reference decoder for `LongToString`. */
  function ParseDecimal(s: string): Option<int>
  {
    if 2 <= |s| && s[0] == '-' && IsDigits(s[1..]) then Some(0 - DigitsValue(s[1..]))
    else if 1 <= |s| && IsDigits(s) then Some(DigitsValue(s))
    else None
  }

  lemma {:induction false} NatDigitsRoundTrip(n: nat)
    ensures IsDigits(NatDigits(n)) && DigitsValue(NatDigits(n)) == n
    decreases n
  {
    NatDigitsAreDigits(n);
    if n >= 10 {
      var s := NatDigits(n);
      assert s[..|s| - 1] == NatDigits(n / 10);
      NatDigitsRoundTrip(n / 10);
    }
  }

  /** Printing a long and reading it back gives the same number. */
  lemma LongToStringRoundTrip(n: int)
    ensures ParseDecimal(LongToString(n)) == Some(n)
  {
    if n < 0 {
      NegativeRoundTrip(n);
    } else {
      NonNegativeRoundTrip(n);
    }
  }

  /** A non-negative number prints as its digits, which read back as it. */
  lemma NonNegativeRoundTrip(m: nat)
    ensures ParseDecimal(LongToString(m)) == Some(m)
  {
    NatDigitsRoundTrip(m);
    var s := NatDigits(m);
    assert LongToString(m) == s && s[0] != '-';
  }

  /** A negative number prints as a minus sign and the digits of its magnitude,
      which read back as it. */
  lemma NegativeRoundTrip(n: int)
    requires n < 0
    ensures ParseDecimal(LongToString(n)) == Some(n)
  {
    NatDigitsRoundTrip(-n);
    ParseNegative(NatDigits(-n));
  }

  lemma ParseNegative(d: string)
    requires 1 <= |d| && IsDigits(d)
    ensures ParseDecimal("-" + d) == Some(0 - DigitsValue(d))
  {
    assert ("-" + d)[1..] == d;
  }

  /** Distinct numbers print differently. */
  lemma LongToStringInjective(a: int, b: int)
    requires LongToString(a) == LongToString(b)
    ensures a == b
  {
    LongToStringRoundTrip(a);
    LongToStringRoundTrip(b);
  }

  lemma {:induction false} NatDigitsLength(n: nat, k: nat)
    requires 1 <= k && n < Pow10(k)
    ensures |NatDigits(n)| <= k
    decreases k
  {
    if n >= 10 {
      assert k >= 2;
      NatDigitsLength(n / 10, k - 1);
    }
  }

  /** A `long` never prints longer than 20 characters ("-9223372036854775808"). */
  lemma LongToStringLength(n: int)
    requires IsLong(n)
    ensures |LongToString(n)| <= 20
  {
    assert Pow10(5) == 100_000;
    assert Pow10(10) == 10_000_000_000;
    assert Pow10(15) == 1_000_000_000_000_000;
    assert Pow10(19) == 10_000_000_000_000_000_000;
    if n < 0 {
      NatDigitsLength(-n, 19);
    } else {
      NatDigitsLength(n, 19);
    }
  }
}
