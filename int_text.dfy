/**
 * Decimal text of integers: the part of Python's `int(token)` that this core
 * relies on, and the decimal rendering that `str(n)` / an f-string produces.
 */
module IntText {
  import opened Util

  predicate IsDigit(c: char)
  {
    '0' <= c <= '9'
  }

  /** A non-empty run of ASCII decimal digits. */
  predicate IsDigits(s: string)
  {
    |s| > 0 && forall i :: 0 <= i < |s| ==> IsDigit(s[i])
  }

  function DigitValue(c: char): nat
    requires IsDigit(c)
  {
    (c as int - '0' as int) as nat
  }

  function DigitChar(d: nat): (c: char)
    requires d < 10
    ensures IsDigit(c) && DigitValue(c) == d
  {
    ('0' as int + d) as char
  }

  /** The number a run of decimal digits denotes (leading zeros allowed). */
  function DigitsValue(s: string): nat
    requires forall i :: 0 <= i < |s| ==> IsDigit(s[i])
  {
    if s == [] then 0 else DigitsValue(s[..|s| - 1]) * 10 + DigitValue(s[|s| - 1])
  }

  /**
   * Python's `int(tok)` on a token that carries no surrounding whitespace:
   * an optional `+` or `-` followed by at least one decimal digit; anything
   * else is the ValueError case, here `None`.
   */
  function ParseInt(tok: string): Option<int>
  {
    if |tok| > 0 && (tok[0] == '-' || tok[0] == '+') then
      var digits := tok[1..];
      if IsDigits(digits) then
        var v: int := DigitsValue(digits);
        Some(if tok[0] == '-' then -v else v)
      else None
    else if IsDigits(tok) then Some(DigitsValue(tok))
    else None
  }

  /** Shortest decimal rendering of a natural number (no leading zeros). */
  function NatToString(n: nat): string
    decreases n
  {
    if n < 10 then [DigitChar(n)] else NatToString(n / 10) + [DigitChar(n % 10)]
  }

  /** Python's `str(n)` for an integer: a minus sign for negatives, then the digits. */
  function IntToString(n: int): string
  {
    if n < 0 then "-" + NatToString(-n) else NatToString(n)
  }

  lemma {:induction false} NatToStringDigits(n: nat)
    ensures IsDigits(NatToString(n))
    ensures DigitsValue(NatToString(n)) == n
    decreases n
  {
    if n >= 10 {
      NatToStringDigits(n / 10);
      var s := NatToString(n);
      assert s[..|s| - 1] == NatToString(n / 10);
    }
  }

  /** Every character of a rendered integer is a digit or the minus sign, first. */
  lemma IntToStringChars(n: int)
    ensures |IntToString(n)| > 0
    ensures forall i :: 0 < i < |IntToString(n)| ==> IsDigit(IntToString(n)[i])
    ensures IsDigit(IntToString(n)[0]) || IntToString(n)[0] == '-'
    ensures IsDigit(IntToString(n)[|IntToString(n)| - 1])
  {
    NatToStringDigits(if n < 0 then -n else n);
  }

  /** Parsing the rendering of any integer gives the integer back. */
  lemma ParseIntRoundTrip(n: int)
    ensures ParseInt(IntToString(n)) == Some(n)
  {
    if n < 0 {
      NatToStringDigits(-n);
      assert IntToString(n)[1..] == NatToString(-n);
    } else {
      NatToStringDigits(n);
    }
  }

  /** Rendering is injective: distinct integers have distinct decimal texts. */
  lemma IntToStringInjective(a: int, b: int)
    requires IntToString(a) == IntToString(b)
    ensures a == b
  {
    ParseIntRoundTrip(a);
    ParseIntRoundTrip(b);
  }
}
