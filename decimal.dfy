/**
 * ASCII decimal integers: the stand-in for Python's `int(text)` on the
 * picklist answer, and the decimal rendering of the entry numbers shown
 * beside each candidate.
 */
module Decimal {
  import opened Wrappers

  predicate IsDigit(c: char) { '0' <= c <= '9' }

  predicate AllDigits(s: string) {
    forall i :: 0 <= i < |s| ==> IsDigit(s[i])
  }

  function DigitValue(c: char): (d: nat)
    requires IsDigit(c)
    ensures d < 10
  {
    c as int - '0' as int
  }

  function DigitChar(d: nat): (c: char)
    requires d < 10
    ensures IsDigit(c) && DigitValue(c) == d
  {
    ('0' as int + d) as char
  }

  /** The number a string of decimal digits denotes, most significant first. */
  function Value(ds: string): nat
    requires AllDigits(ds)
  {
    if ds == [] then 0 else Value(ds[..|ds| - 1]) * 10 + DigitValue(ds[|ds| - 1])
  }

  /** The decimal digits of `n`, without leading zeros. */
  function NatToDecimal(n: nat): (r: string)
    ensures r != [] && AllDigits(r)
    ensures |r| > 1 ==> r[0] != '0'
  {
    if n < 10 then [DigitChar(n)] else NatToDecimal(n / 10) + [DigitChar(n % 10)]
  }

  /** The decimal text of `n`, with a minus sign when negative. */
  function IntToDecimal(n: int): string {
    if n < 0 then "-" + NatToDecimal(-n) else NatToDecimal(n)
  }

  /**
   * `int(text)` restricted to plain ASCII digits: an optional `+` or `-`
   * followed by one or more decimal digits; anything else is `None`, where
   * Python raises `ValueError`. Python also accepts underscores between
   * digits and non-ASCII digits, which this parser refuses (see README).
   */
  function ParseInteger(s: string): (r: Option<int>)
    ensures r.Some? ==> s != [] && (s[0] in "+-" || IsDigit(s[0])) && AllDigits(s[1..])
    ensures r.Some? && r.value < 0 ==> s[0] == '-'
    ensures r.Some? && s[0] == '-' ==> r.value <= 0
  {
    var signed := |s| > 0 && (s[0] == '-' || s[0] == '+');
    var digits := if signed then s[1..] else s;
    if digits != [] && AllDigits(digits) then
      Some(if signed && s[0] == '-' then -(Value(digits) as int) else Value(digits))
    else
      None
  }

  /** Every optional sign followed by at least one ASCII digit parses. */
  lemma ParseAccepts(s: string)
    requires s != [] && (s[0] in "+-" || IsDigit(s[0])) && AllDigits(s[1..])
    requires s[0] in "+-" ==> |s| >= 2
    ensures ParseInteger(s).Some?
  {
    if !(s[0] in "+-") {
      assert AllDigits(s) by {
        forall i | 0 <= i < |s| ensures IsDigit(s[i]) {
          if i > 0 { assert s[i] == s[1..][i - 1]; }
        }
      }
    }
  }

  /** A leading zero does not change a string of digits' value. */
  lemma {:induction false} ValueLeadingZero(t: string)
    requires AllDigits(t)
    ensures AllDigits("0" + t) && Value("0" + t) == Value(t)
  {
    var z := "0" + t;
    assert AllDigits(z) by {
      forall i | 0 <= i < |z| ensures IsDigit(z[i]) {
        if i > 0 { assert z[i] == t[i - 1]; }
      }
    }
    if t != [] {
      assert z[..|z| - 1] == "0" + t[..|t| - 1];
      assert z[|z| - 1] == t[|t| - 1];
      ValueLeadingZero(t[..|t| - 1]);
    }
  }

  /** `int("05") == int("5")`: leading zeros are read as the same number. */
  lemma ParseLeadingZero(t: string)
    requires t != [] && AllDigits(t)
    ensures ParseInteger("0" + t) == ParseInteger(t)
  {
    ValueLeadingZero(t);
    assert IsDigit(t[0]);
  }

  /** `int("+5") == int("5")`: a plus sign does not change the number. */
  lemma ParsePlus(t: string)
    requires t == [] || !(t[0] in "+-")
    ensures ParseInteger("+" + t) == ParseInteger(t)
  {
    assert ("+" + t)[1..] == t;
  }

  /** `int("-05") == -5`: a minus sign negates the value of any digit string. */
  lemma ParseMinus(t: string)
    requires t != [] && AllDigits(t)
    ensures ParseInteger("-" + t) == Some(-(ParseInteger(t).value))
  {
    assert ("-" + t)[1..] == t;
    assert IsDigit(t[0]);
  }

  lemma {:induction false} ValueOfDecimal(n: nat)
    ensures Value(NatToDecimal(n)) == n
  {
    var s := NatToDecimal(n);
    if n < 10 {
      assert s[..|s| - 1] == [];
    } else {
      assert s[..|s| - 1] == NatToDecimal(n / 10);
      ValueOfDecimal(n / 10);
    }
  }

  /** The digits of a natural number parse back to it. */
  lemma ParseNatural(n: nat)
    ensures ParseInteger(NatToDecimal(n)) == Some(n)
  {
    var s := NatToDecimal(n);
    assert s[0] != '-' && s[0] != '+' by { assert IsDigit(s[0]); }
    ValueOfDecimal(n);
  }

  /** A minus sign and the digits of a positive number parse to its negation. */
  lemma ParseNegative(n: nat)
    requires n > 0
    ensures ParseInteger("-" + NatToDecimal(n)) == Some(-(n as int))
  {
    var s := "-" + NatToDecimal(n);
    assert s[0] == '-' && s[1..] == NatToDecimal(n);
    ValueOfDecimal(n);
  }

  /** Parsing the decimal text of any integer gives that integer back. */
  lemma ParseDecimal(n: int)
    ensures ParseInteger(IntToDecimal(n)) == Some(n)
  {
    if n < 0 {
      ParseNegative(-n);
    } else {
      ParseNatural(n);
    }
  }
}
