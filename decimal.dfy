/**
 * Decimal numerals, as read by boost::lexical_cast<unsigned> in the session's
 * selection phase and by ptree::get<signed>/get<unsigned> in the assertion translator.
 * Only plain digit strings (with an optional leading '-' for signed values) are
 * modelled; the 32-bit ranges of `unsigned` and `int` are explicit.
 */
module Decimal {
  import opened Wrappers

  const UINT_LIMIT: nat := 0x1_0000_0000  // 2^32, one past the largest `unsigned`
  const INT_LIMIT: nat := 0x8000_0000     // 2^31, one past the largest `int`

  predicate IsDigit(c: char) {
    '0' <= c <= '9'
  }

  predicate AllDigits(s: string) {
    forall i :: 0 <= i < |s| ==> IsDigit(s[i])
  }

  function DigitValue(c: char): nat
    requires IsDigit(c)
  {
    (c as int - '0' as int) as nat
  }

  function DigitChar(d: nat): (c: char)
    requires d < 10
    ensures IsDigit(c) && DigitValue(c) == d
  {
    (d + '0' as int) as char
  }

  /** The number a string of digits denotes, most significant digit first. */
  function DigitsValue(s: string): nat
    requires AllDigits(s)
  {
    if s == [] then 0 else DigitsValue(s[..|s| - 1]) * 10 + DigitValue(s[|s| - 1])
  }

  /** The shortest decimal numeral of n. */
  function NatToDecimal(n: nat): (s: string)
    ensures |s| > 0 && AllDigits(s)
  {
    if n < 10 then [DigitChar(n)] else NatToDecimal(n / 10) + [DigitChar(n % 10)]
  }

  /** Reading an `unsigned`: a non-empty digit string whose value fits in 32 bits. */
  function ParseUnsigned(s: string): (r: Option<nat>)
    ensures r.Some? ==> |s| > 0 && AllDigits(s) && r.value < UINT_LIMIT
  {
    if |s| > 0 && AllDigits(s) && DigitsValue(s) < UINT_LIMIT then Some(DigitsValue(s)) else None
  }

  /** Reading an `int`: an optional '-' and a non-empty digit string, in 32-bit two's-complement range. */
  function ParseSigned(s: string): (r: Option<int>)
    ensures r.Some? ==> -(INT_LIMIT as int) <= r.value < INT_LIMIT
    ensures |s| > 0 && s[0] != '-' ==> r == (if AllDigits(s) && DigitsValue(s) < INT_LIMIT then Some(DigitsValue(s) as int) else None)
  {
    if |s| > 0 && s[0] == '-' then
      var m := s[1..];
      if |m| > 0 && AllDigits(m) && DigitsValue(m) <= INT_LIMIT then Some(-(DigitsValue(m) as int)) else None
    else if |s| > 0 && AllDigits(s) && DigitsValue(s) < INT_LIMIT then Some(DigitsValue(s) as int)
    else None
  }

  /** Printing and reading back a numeral gives the number again. */
  lemma {:induction false} DecimalRoundTrip(n: nat)
    ensures DigitsValue(NatToDecimal(n)) == n
  {
    if n >= 10 {
      var s := NatToDecimal(n);
      var p := NatToDecimal(n / 10);
      assert s[..|s| - 1] == p;
      DecimalRoundTrip(n / 10);
    }
  }

  /** Every `unsigned` value printed in decimal is read back as itself. */
  lemma ParseUnsignedOfDecimal(n: nat)
    requires n < UINT_LIMIT
    ensures ParseUnsigned(NatToDecimal(n)) == Some(n)
  {
    DecimalRoundTrip(n);
  }

  /**
   * A digit string read as an `unsigned` is the shortest numeral of its value
   * with only zeros in front of it: parsing accepts exactly the decimal
   * spellings of a number.
   */
  lemma ParseUnsignedCanonical(s: string)
    requires ParseUnsigned(s).Some?
    ensures var d := NatToDecimal(ParseUnsigned(s).value);
      && |d| <= |s| && s[|s| - |d|..] == d
      && forall i :: 0 <= i < |s| - |d| ==> s[i] == '0'
  {
    DigitsCanonical(s);
  }

  lemma {:induction false} DigitsCanonical(s: string)
    requires |s| > 0 && AllDigits(s)
    ensures var d := NatToDecimal(DigitsValue(s));
      && |d| <= |s| && s[|s| - |d|..] == d
      && forall i :: 0 <= i < |s| - |d| ==> s[i] == '0'
    decreases |s|
  {
    var last := s[|s| - 1];
    assert DigitChar(DigitValue(last)) == last;
    if |s| > 1 {
      var p := s[..|s| - 1];
      var m := DigitsValue(p);
      DigitsCanonical(p);
      var n := DigitsValue(s);
      assert n == m * 10 + DigitValue(last);
      if m == 0 {
        assert NatToDecimal(n) == [last];
        assert NatToDecimal(m) == "0";
      } else {
        assert n / 10 == m && n % 10 == DigitValue(last);
        assert NatToDecimal(n) == NatToDecimal(m) + [last];
        assert s == p + [last];
      }
    }
  }

  /** A numeral for a value of 2^32 or more is rejected: lexical_cast<unsigned> reports overflow. */
  lemma ParseUnsignedOverflow(n: nat)
    requires n >= UINT_LIMIT
    ensures ParseUnsigned(NatToDecimal(n)) == None
  {
    DecimalRoundTrip(n);
  }

  /** Every non-negative `int` value printed in decimal is read back as itself. */
  lemma ParseSignedOfDecimal(n: nat)
    requires n < INT_LIMIT
    ensures ParseSigned(NatToDecimal(n)) == Some(n as int)
  {
    DecimalRoundTrip(n);
    var s := NatToDecimal(n);
    assert IsDigit(s[0]);
  }

  /** A signed value in decimal, with a leading '-' when negative. */
  function SignedToDecimal(v: int): (r: string)
    ensures |r| > 0
  {
    if v < 0 then "-" + NatToDecimal(-v) else NatToDecimal(v)
  }

  /** Every `int` value printed in decimal is read back as itself. */
  lemma ParseSignedRoundTrip(v: int)
    requires -(INT_LIMIT as int) <= v < INT_LIMIT
    ensures ParseSigned(SignedToDecimal(v)) == Some(v)
  {
    if v < 0 {
      var s := SignedToDecimal(v);
      DecimalRoundTrip(-v);
      assert s[1..] == NatToDecimal(-v);
    } else {
      ParseSignedOfDecimal(v);
    }
  }
}
