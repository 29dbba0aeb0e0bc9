/**
 * Decimal rendering of integers, as PHP's string interpolation writes them
 * (the agent's "COMPLETE {$best}").
 */
module Text {

  predicate IsDigits(s: string) {
    forall i :: 0 <= i < |s| ==> '0' <= s[i] <= '9'
  }

  function DigitChar(d: int): (c: char)
    requires 0 <= d < 10
    ensures '0' <= c <= '9' && c as int - '0' as int == d
  {
    ('0' as int + d) as char
  }

  /** The decimal digits of `n`, most significant first, without leading zeros. */
  function NatDecimal(n: nat): (r: string)
    ensures 1 <= |r| && IsDigits(r)
    ensures r[0] == '0' ==> n == 0
  {
    if n < 10 then [DigitChar(n)] else NatDecimal(n / 10) + [DigitChar(n % 10)]
  }

  /** The number a string of digits denotes. */
  function DigitsValue(s: string): nat
    requires IsDigits(s)
  {
    if s == [] then 0 else DigitsValue(s[..|s| - 1]) * 10 + (s[|s| - 1] as int - '0' as int)
  }

  /** Reading back the digits of `n` gives `n`. */
  lemma {:induction false} NatDecimalRoundTrip(n: nat)
    ensures DigitsValue(NatDecimal(n)) == n
  {
    if n >= 10 {
      var p := NatDecimal(n / 10);
      NatDecimalRoundTrip(n / 10);
      var r := p + [DigitChar(n % 10)];
      assert NatDecimal(n) == r;
      assert r[..|r| - 1] == p;
    }
  }

  /** Decimal notation of any integer: a minus sign for negatives. */
  function Decimal(n: int): (r: string)
    ensures 1 <= |r|
    ensures r[0] == '-' <==> n < 0
  {
    if n < 0 then "-" + NatDecimal(-n) else NatDecimal(n)
  }

  /** Different integers are written differently, so a rendered number names exactly one integer. */
  lemma {:induction false} DecimalInjective(a: int, b: int)
    requires Decimal(a) == Decimal(b)
    ensures a == b
  {
    var ra, rb := Decimal(a), Decimal(b);
    if a < 0 {
      assert b < 0;
      var da, db := NatDecimal(-a), NatDecimal(-b);
      assert ra == "-" + da && rb == "-" + db;
      assert ra[1..] == da && rb[1..] == db;
      NatDecimalRoundTrip(-a);
      NatDecimalRoundTrip(-b);
    } else {
      assert b >= 0;
      NatDecimalRoundTrip(a);
      NatDecimalRoundTrip(b);
    }
  }
}
