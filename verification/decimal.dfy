/** Decimal text: Python's `str(n)` for a non-negative integer, and reading it back. */
module Decimal {
  import opened Numerals
  import opened Failures

  predicate IsDecimalDigit(c: char)
  {
    '0' <= c <= '9'
  }

  /** `str(n)` for n >= 0: the shortest decimal spelling. */
  function ToDecimal(n: nat): (s: string)
    ensures |s| > 0 && forall i :: 0 <= i < |s| ==> IsDecimalDigit(s[i])
    ensures s[0] != '0' || |s| == 1
  {
    var ds := ToDigits(n, 10);
    seq(|ds|, i requires 0 <= i < |ds| => ('0' as int + ds[i]) as char)
  }

  /** The value of a non-empty run of decimal digits, most significant first. */
  function ParseDecimal(s: string): Option<nat>
  {
    if |s| > 0 && forall i :: 0 <= i < |s| ==> IsDecimalDigit(s[i]) then
      Some(FromDigits(seq(|s|, i requires 0 <= i < |s| => s[i] as int - '0' as int), 10))
    else
      None
  }

  /** Reading back what `str` wrote gives the number. */
  lemma LemmaDecimalRoundTrip(n: nat)
    ensures ParseDecimal(ToDecimal(n)) == Some(n)
  {
    var s := ToDecimal(n);
    var ds := ToDigits(n, 10);
    assert seq(|s|, i requires 0 <= i < |s| => s[i] as int - '0' as int) == ds;
  }

  /** `str` is the only spelling without a leading zero: any such decimal text is
      exactly what `str` writes for its value. */
  lemma LemmaDecimalUnique(s: string)
    requires ParseDecimal(s).Some?
    requires s[0] != '0' || |s| == 1
    ensures ToDecimal(ParseDecimal(s).value) == s
  {
    var ds := seq(|s|, i requires 0 <= i < |s| => s[i] as int - '0' as int);
    LemmaToDigitsFromDigits(ds, 10);
  }
}
