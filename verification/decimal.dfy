/**
  Decimal rendering of integers, as done by Go's `strconv.Itoa` and by the `%d`
  verb of `fmt.Sprintf`: an optional minus sign followed by the digits of the
  magnitude, most significant first, without leading zeros.

  `Parse` is an independent reading of such a string back into an integer; the
  round trip `Parse(Itoa(n)) == Some(n)` shows that the rendering loses nothing.
*/
module Decimal {
  import opened Wrappers

  predicate IsDigit(c: char) {
    '0' <= c <= '9'
  }

  predicate AllDigits(s: string) {
    forall i :: 0 <= i < |s| ==> IsDigit(s[i])
  }

  function DigitChar(d: nat): (c: char)
    requires d < 10
    ensures IsDigit(c)
  {
    ('0' as int + d) as char
  }

  function DigitValue(c: char): (d: nat)
    requires IsDigit(c)
    ensures d < 10
    ensures DigitChar(d) == c
  {
    c as int - '0' as int
  }

  /** The digits of `n`, most significant first; "0" for zero and no leading zero otherwise. */
  function NatDigits(n: nat): (s: string)
    ensures |s| > 0 && AllDigits(s)
    ensures s[0] == '0' <==> n == 0
    ensures |s| == 1 <==> n < 10
    decreases n
  {
    if n < 10 then [DigitChar(n)] else NatDigits(n / 10) + [DigitChar(n % 10)]
  }

  /** `strconv.Itoa(n)`, which is also what `%d` prints for a Go `int`. */
  function Itoa(n: int): (s: string)
    ensures |s| > 0
    ensures s[0] == '-' <==> n < 0
    ensures n >= 0 ==> AllDigits(s)
    ensures n < 0 ==> AllDigits(s[1..]) && |s| > 1
    ensures n != 0 ==> s[if n < 0 then 1 else 0] != '0'
    ensures n == 0 ==> s == "0"
  {
    if n < 0 then "-" + NatDigits(-n) else NatDigits(n)
  }

  /** The value of a string of decimal digits, read most significant first. */
  function DigitsValue(s: string): nat
    requires AllDigits(s)
  {
    if |s| == 0 then 0 else DigitsValue(s[..|s| - 1]) * 10 + DigitValue(s[|s| - 1])
  }

  /** Reads an optional minus sign followed by at least one digit; anything else is rejected. */
  function Parse(s: string): (r: Option<int>)
    ensures r.Some? ==> |s| > 0
  {
    if |s| > 1 && s[0] == '-' && AllDigits(s[1..]) then Some(-(DigitsValue(s[1..]) as int))
    else if |s| > 0 && AllDigits(s) then Some(DigitsValue(s))
    else None
  }

  lemma {:induction false} DigitsValueOfNatDigits(n: nat)
    ensures DigitsValue(NatDigits(n)) == n
    decreases n
  {
    if n >= 10 {
      var prefix := NatDigits(n / 10);
      var s := prefix + [DigitChar(n % 10)];
      assert s[..|s| - 1] == prefix;
      DigitsValueOfNatDigits(n / 10);
    }
  }

  /** Reading back the rendering of any integer gives that integer. */
  lemma ParseItoa(n: int)
    ensures Parse(Itoa(n)) == Some(n)
  {
    var s := Itoa(n);
    if n < 0 {
      var digits := NatDigits(-n);
      assert s == "-" + digits && s[1..] == digits;
      DigitsValueOfNatDigits(-n);
      assert Parse(s) == Some(-(DigitsValue(digits) as int));
    } else {
      assert s == NatDigits(n) && s[0] != '-';
      DigitsValueOfNatDigits(n);
      assert Parse(s) == Some(DigitsValue(s) as int);
    }
  }

  /** Distinct integers render to distinct strings. */
  lemma ItoaInjective(a: int, b: int)
    ensures Itoa(a) == Itoa(b) <==> a == b
  {
    if Itoa(a) == Itoa(b) {
      ParseItoa(a);
      ParseItoa(b);
    }
  }
}
