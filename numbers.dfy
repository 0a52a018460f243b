/**
 * Decimal text to exact numbers (the part of `pd.to_numeric(..., errors="coerce")`
 * the pipeline relies on) and natural numbers back to decimal text (the counts
 * written into report details).
 */
module Numbers {
  import opened Wrappers

  predicate IsDigit(c: char) {
    '0' <= c <= '9'
  }

  predicate AllDigits(s: string) {
    forall i :: 0 <= i < |s| ==> IsDigit(s[i])
  }

  function DigitValue(c: char): nat
    requires IsDigit(c)
  {
    c as int - '0' as int
  }

  /** The value of a string of decimal digits, most significant first. */
  function DigitsValue(s: string): nat
    requires AllDigits(s)
  {
    if s == [] then 0 else DigitsValue(s[..|s| - 1]) * 10 + DigitValue(s[|s| - 1])
  }

  function Pow10(n: nat): (p: nat)
    ensures p >= 1
  {
    if n == 0 then 1 else 10 * Pow10(n - 1)
  }

  /** Index of the first '.', or |s| when there is none. */
  function IndexOfDot(s: string): (k: nat)
    ensures k <= |s|
    ensures k < |s| ==> s[k] == '.'
    ensures forall i :: 0 <= i < k ==> s[i] != '.'
  {
    if s == [] || s[0] == '.' then 0 else 1 + IndexOfDot(s[1..])
  }

  /** `digits`, `digits.`, `.digits` or `digits.digits`; anything else is absent. */
  function ParseUnsigned(s: string): Option<real> {
    var k := IndexOfDot(s);
    var whole := s[..k];
    var frac := if k < |s| then s[k + 1..] else [];
    if AllDigits(whole) && AllDigits(frac) && |whole| + |frac| > 0 then
      Some(DigitsValue(whole) as real + DigitsValue(frac) as real / Pow10(|frac|) as real)
    else
      None
  }

  /**
   * Text to a number with `errors="coerce"`: an optional sign and an unsigned
   * decimal; text that does not parse is absent (pandas' NaN).
   */
  function ParseNumber(s: string): Option<real> {
    if |s| > 0 && s[0] == '-' then
      match ParseUnsigned(s[1..])
      case Some(v) => Some(-v)
      case None => None
    else if |s| > 0 && s[0] == '+' then
      ParseUnsigned(s[1..])
    else
      ParseUnsigned(s)
  }

  /** The characters a decimal number is written with. */
  predicate IsNumberChar(c: char) {
    IsDigit(c) || c == '.' || c == '+' || c == '-'
  }

  /** Text holding a character that is not a digit, a sign or '.' is not a number. */
  lemma ForeignCharNotANumber(s: string, i: nat)
    requires i < |s| && !IsNumberChar(s[i])
    ensures ParseNumber(s) == None
  {
    if |s| > 0 && (s[0] == '-' || s[0] == '+') {
      assert i > 0;
      UnsignedForeignChar(s[1..], i - 1);
    } else {
      UnsignedForeignChar(s, i);
    }
  }

  lemma UnsignedForeignChar(s: string, i: nat)
    requires i < |s| && !IsNumberChar(s[i])
    ensures ParseUnsigned(s) == None
  {
    var k := IndexOfDot(s);
    if i < k {
      assert s[..k][i] == s[i];
    } else {
      assert i > k;
      assert s[k + 1..][i - k - 1] == s[i];
    }
  }

  /** `pd.to_numeric(..., errors="coerce")` on one cell: a missing cell stays missing. */
  function ParseCell(c: Option<string>): Option<real> {
    if c.None? then None else ParseNumber(c.value)
  }

  /** Python's `str(n)` for a natural number. */
  function NatToString(n: nat): (s: string)
    ensures s != [] && AllDigits(s)
  {
    var d := ['0' + (n % 10) as char];
    if n < 10 then d else NatToString(n / 10) + d
  }

  lemma {:induction false} NatToStringValue(n: nat)
    ensures DigitsValue(NatToString(n)) == n
  {
    var s := NatToString(n);
    if n >= 10 {
      NatToStringValue(n / 10);
      assert s[..|s| - 1] == NatToString(n / 10);
    }
  }

  /** Reading back a count written in decimal gives the count. */
  lemma ParseNatToString(n: nat)
    ensures ParseNumber(NatToString(n)) == Some(n as real)
  {
    var s := NatToString(n);
    assert forall i :: 0 <= i < |s| ==> s[i] != '.' by {
      forall i | 0 <= i < |s| ensures s[i] != '.' { assert IsDigit(s[i]); }
    }
    assert IndexOfDot(s) == |s|;
    assert s[..|s|] == s;
    NatToStringValue(n);
    assert s[0] != '-' && s[0] != '+' by { assert IsDigit(s[0]); }
  }

  /** A negative count written with a minus sign reads back negated. */
  lemma ParseNegatedNat(n: nat)
    ensures ParseNumber("-" + NatToString(n)) == Some(-(n as real))
  {
    var s := NatToString(n);
    ParseNatToString(n);
    assert ("-" + s)[1..] == s;
    assert s[0] != '-' && s[0] != '+' by { assert IsDigit(s[0]); }
  }

  /** pandas' text for a missing cell, "nan", is not a number. */
  lemma NanIsAbsent()
    ensures ParseNumber("nan") == None
  {
    assert !IsDigit("nan"[0]);
  }
}
