/** Decimal rendering of integers, as `std::to_string` does it for the
    status code (an `int`) and for the body length (a `size_t`), together
    with the reading of such a rendering back into a number. */
module Decimal {
  import opened Wrappers

  predicate IsDigit(c: char) {
    '0' <= c <= '9'
  }

  predicate AllDigits(s: string) {
    forall i :: 0 <= i < |s| ==> IsDigit(s[i])
  }

  function DigitChar(d: nat): (c: char)
    requires d < 10
    ensures IsDigit(c) && c as int - '0' as int == d
  {
    ('0' as int + d) as char
  }

  function DigitValue(c: char): (d: nat)
    requires IsDigit(c)
    ensures d < 10 && DigitChar(d) == c
  {
    c as int - '0' as int
  }

  /** The decimal digits of `n`, most significant first, without leading zeros. */
  function NatToDecimal(n: nat): (s: string)
    ensures |s| > 0 && AllDigits(s)
    ensures s[0] == '0' <==> n == 0
    ensures n == 0 ==> s == "0"
    decreases n
  {
    if n < 10 then [DigitChar(n)] else NatToDecimal(n / 10) + [DigitChar(n % 10)]
  }

  /** `std::to_string` of a signed integer: a minus sign, then the digits of its magnitude. */
  function IntToDecimal(i: int): (s: string)
    ensures |s| > 0
    ensures s[0] == '-' <==> i < 0
    ensures ' ' !in s && '\r' !in s
  {
    if i < 0 then "-" + NatToDecimal(-i) else NatToDecimal(i)
  }

  /** The value of a string of decimal digits. */
  function DigitsValue(s: string): nat
    requires AllDigits(s)
    decreases |s|
  {
    if s == [] then 0 else DigitsValue(s[..|s| - 1]) * 10 + DigitValue(s[|s| - 1])
  }

  /** Reads a canonical decimal natural: non-empty, digits only, no leading zero. */
  function ParseNat(s: string): (r: Option<nat>)
    ensures r.Some? <==> |s| > 0 && AllDigits(s) && (s[0] == '0' ==> |s| == 1)
  {
    if |s| > 0 && AllDigits(s) && (s[0] == '0' ==> |s| == 1) then Some(DigitsValue(s)) else None
  }

  /** Reads a canonical decimal integer: an optional minus sign before a non-zero magnitude. */
  function ParseInt(s: string): (r: Option<int>)
    ensures r.Some? ==> |s| > 0 && (r.value < 0 <==> s[0] == '-')
  {
    if |s| > 0 && s[0] == '-' then
      match ParseNat(s[1..])
      case Some(n) => if n > 0 then Some(-(n as int)) else None
      case None => None
    else
      match ParseNat(s)
      case Some(n) => Some(n)
      case None => None
  }

  lemma {:induction false} DigitsValueOfDecimal(n: nat)
    ensures DigitsValue(NatToDecimal(n)) == n
    decreases n
  {
    if n >= 10 {
      var s := NatToDecimal(n);
      assert s[..|s| - 1] == NatToDecimal(n / 10);
      DigitsValueOfDecimal(n / 10);
    }
  }

  /** Reading back a rendered natural gives the natural. */
  lemma NatRoundTrip(n: nat)
    ensures ParseNat(NatToDecimal(n)) == Some(n)
  {
    DigitsValueOfDecimal(n);
  }

  /** Reading back a rendered integer gives the integer, negative ones included. */
  lemma IntRoundTrip(i: int)
    ensures ParseInt(IntToDecimal(i)) == Some(i)
  {
    if i < 0 {
      var s := IntToDecimal(i);
      assert s[1..] == NatToDecimal(-i);
      NatRoundTrip(-i);
    } else {
      NatRoundTrip(i);
    }
  }

  lemma {:induction false} DigitsValueZero(s: string)
    requires AllDigits(s) && DigitsValue(s) == 0
    ensures forall i :: 0 <= i < |s| ==> s[i] == '0'
    decreases |s|
  {
    if s != [] {
      DigitsValueZero(s[..|s| - 1]);
      forall i | 0 <= i < |s| ensures s[i] == '0' {
        if i < |s| - 1 {
          assert s[i] == s[..|s| - 1][i];
        }
      }
    }
  }

  /** The other direction: every string `ParseNat` accepts is the rendering of its value,
      so the decimal form of a natural is unique. */
  lemma {:induction false} ParsedNatIsCanonical(s: string, n: nat)
    requires ParseNat(s) == Some(n)
    ensures NatToDecimal(n) == s
    decreases |s|
  {
    if |s| > 1 {
      var a := s[..|s| - 1];
      var m := DigitsValue(a);
      assert a[0] == s[0];
      if m == 0 {
        DigitsValueZero(a);
        assert false;
      }
      ParsedNatIsCanonical(a, m);
      assert n == m * 10 + DigitValue(s[|s| - 1]);
      assert n / 10 == m && n % 10 == DigitValue(s[|s| - 1]);
      assert s == a + [s[|s| - 1]];
    }
  }

  /** Every string `ParseInt` accepts is the rendering of its value. */
  lemma ParsedIntIsCanonical(s: string, i: int)
    requires ParseInt(s) == Some(i)
    ensures IntToDecimal(i) == s
  {
    if |s| > 0 && s[0] == '-' {
      ParsedNatIsCanonical(s[1..], -i);
      assert s == "-" + s[1..];
    } else {
      ParsedNatIsCanonical(s, i);
    }
  }
}
