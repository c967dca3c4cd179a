/** How an integer value is written into the page: `${value}` in the tooltip
    html and the `data-value` attribute both give the decimal numeral. */
module Decimal {
  import opened Options

  predicate IsDigit(c: char) {
    '0' <= c <= '9'
  }

  function DigitChar(d: nat): (c: char)
    requires d < 10
    ensures IsDigit(c)
  {
    "0123456789"[d]
  }

  function DigitValue(c: char): (d: nat)
    requires IsDigit(c)
    ensures d < 10 && DigitChar(d) == c
  {
    c as int - '0' as int
  }

  /** The digits of `n`, most significant first, without leading zeros. */
  function NatDigits(n: nat): (r: string)
    ensures |r| >= 1 && (forall i :: 0 <= i < |r| ==> IsDigit(r[i]))
    ensures r[0] == '0' ==> n == 0 && r == "0"
  {
    if n < 10 then [DigitChar(n)] else NatDigits(n / 10) + [DigitChar(n % 10)]
  }

  /** The numeral of an integer: a minus sign for negative values, then the
      digits of its magnitude. */
  function Numeral(n: int): string {
    if n < 0 then "-" + NatDigits(-n) else NatDigits(n)
  }

  /** The value of a string of digits. */
  function DigitsValue(s: string): nat
    requires forall i :: 0 <= i < |s| ==> IsDigit(s[i])
  {
    if |s| == 0 then 0 else 10 * DigitsValue(s[..|s| - 1]) + DigitValue(s[|s| - 1])
  }

  predicate AllDigits(s: string) {
    |s| >= 1 && forall i :: 0 <= i < |s| ==> IsDigit(s[i])
  }

  /** Reads a numeral back: an optional minus sign and at least one digit. */
  function ParseNumeral(s: string): Option<int> {
    if |s| >= 1 && s[0] == '-' && AllDigits(s[1..]) then Some(-(DigitsValue(s[1..]) as int))
    else if AllDigits(s) then Some(DigitsValue(s))
    else None
  }

  lemma {:induction false} DigitsValueOfNatDigits(n: nat)
    ensures DigitsValue(NatDigits(n)) == n
  {
    var r := NatDigits(n);
    if n >= 10 {
      var init := NatDigits(n / 10);
      assert r == init + [DigitChar(n % 10)];
      assert r[..|r| - 1] == init && r[|r| - 1] == DigitChar(n % 10);
      DigitsValueOfNatDigits(n / 10);
      assert DigitValue(r[|r| - 1]) == n % 10;
    }
  }

  /** The numeral is canonical: a digit string with no leading zero, after
      a minus sign exactly when the value is negative. */
  lemma NumeralCanonical(n: int)
    ensures var r := Numeral(n);
      (n < 0 <==> (|r| >= 1 && r[0] == '-')) &&
      (n < 0 ==> AllDigits(r[1..]) && r[1] != '0') &&
      (n >= 0 ==> AllDigits(r) && (r[0] == '0' ==> r == "0"))
  {
    if n < 0 {
      assert Numeral(n)[1..] == NatDigits(-n);
    }
  }

  lemma ParseNatDigits(n: nat)
    ensures ParseNumeral(NatDigits(n)) == Some(n)
  {
    var r := NatDigits(n);
    assert IsDigit(r[0]) && AllDigits(r);
    DigitsValueOfNatDigits(n);
  }

  lemma ParseSignedNatDigits(n: nat)
    ensures ParseNumeral("-" + NatDigits(n)) == Some(-(n as int))
  {
    var r := "-" + NatDigits(n);
    assert r[0] == '-' && r[1..] == NatDigits(n);
    DigitsValueOfNatDigits(n);
  }

  /** Reading the numeral back gives the value. */
  lemma NumeralRoundTrip(n: int)
    ensures ParseNumeral(Numeral(n)) == Some(n)
  {
    if n < 0 {
      ParseSignedNatDigits(-n);
      assert Numeral(n) == "-" + NatDigits(-n);
    } else {
      ParseNatDigits(n);
      assert Numeral(n) == NatDigits(n);
    }
  }
}
