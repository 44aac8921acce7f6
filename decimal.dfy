/** Python's decimal rendering of an integer, `str(n)` or `f"{n}"`, as used
    in the speech parameters and the rate-limit messages, with a parser that
    reads it back. */
module Decimal {
  import opened Wrappers

  predicate IsDigit(c: char)
  {
    '0' <= c <= '9'
  }

  predicate AllDigits(s: string)
  {
    forall i :: 0 <= i < |s| ==> IsDigit(s[i])
  }

  function DigitChar(d: nat): (c: char)
    requires d < 10
    ensures IsDigit(c)
  {
    ('0' as int + d) as char
  }

  function DigitValue(c: char): nat
    requires IsDigit(c)
  {
    c as int - '0' as int
  }

  /** The digits of `n`, most significant first, with no leading zero. */
  function NatString(n: nat): (r: string)
    ensures r != [] && AllDigits(r)
    ensures r[0] == '0' ==> n == 0 && |r| == 1
  {
    if n < 10 then [DigitChar(n)] else NatString(n / 10) + [DigitChar(n % 10)]
  }

  /** `str(n)`: a minus sign in front of a negative number. */
  function IntString(n: int): (r: string)
    ensures r != []
    ensures n >= 0 <==> IsDigit(r[0])
    ensures n < 0 <==> r[0] == '-'
  {
    if n < 0 then "-" + NatString(-n) else NatString(n)
  }

  /** The value of a string of digits. */
  function ParseNat(s: string): nat
    requires AllDigits(s)
  {
    if s == [] then 0 else 10 * ParseNat(s[..|s| - 1]) + DigitValue(s[|s| - 1])
  }

  /** Reads an optional minus sign followed by digits; anything else is
      refused. */
  function ParseInt(s: string): Option<int>
  {
    if |s| > 1 && s[0] == '-' && AllDigits(s[1..]) then Some(-(ParseNat(s[1..]) as int))
    else if s != [] && AllDigits(s) then Some(ParseNat(s))
    else None
  }

  lemma {:induction false} ParseNatString(n: nat)
    ensures ParseNat(NatString(n)) == n
  {
    if n >= 10 {
      var s := NatString(n);
      ParseNatString(n / 10);
      assert s[..|s| - 1] == NatString(n / 10);
    }
  }

  /** Reading back what was written gives the number again. */
  lemma ParseIntString(n: int)
    ensures ParseInt(IntString(n)) == Some(n)
  {
    if n < 0 {
      ParseNatString(-n);
      assert IntString(n)[1..] == NatString(-n);
    } else {
      ParseNatString(n);
    }
  }

  /** Different numbers are written differently. */
  lemma IntStringInjective(a: int, b: int)
    requires IntString(a) == IntString(b)
    ensures a == b
  {
    ParseIntString(a);
    ParseIntString(b);
  }
}
