/**
 * Decimal integers in text: the syntax that Go's `strconv.ParseInt(s, 10, 64)`
 * and `strconv.Atoi` accept (an optional `+` or `-`, then one or more ASCII
 * digits), and the rendering of `fmt`'s `%d` verb.
 *
 * Integers are unbounded: the saturation of ParseInt on overflow is not part
 * of this model.
 */
module Decimal {
  import opened Wrappers

  predicate IsDigit(c: char) {
    '0' <= c <= '9'
  }

  predicate AllDigits(s: string) {
    forall k :: 0 <= k < |s| ==> IsDigit(s[k])
  }

  function DigitValue(c: char): (d: nat)
    requires IsDigit(c)
    ensures d < 10
  {
    c as int - '0' as int
  }

  function DigitChar(d: nat): (c: char)
    requires d < 10
    ensures IsDigit(c) && DigitValue(c) == d
  {
    ('0' as int + d) as char
  }

  /** The number a string of digits denotes, most significant digit first. */
  function DigitsValue(s: string): nat
    requires AllDigits(s)
  {
    if s == [] then 0 else 10 * DigitsValue(s[..|s| - 1]) + DigitValue(s[|s| - 1])
  }

  /** The integer `s` denotes, or None when `s` is not an optional sign
      followed by at least one digit. */
  function ParseDecimal(s: string): Option<int>
  {
    if s == [] then None
    else if s[0] == '+' || s[0] == '-' then
      var digits := s[1..];
      if digits == [] || !AllDigits(digits) then None
      else if s[0] == '-' then Some(-(DigitsValue(digits) as int))
      else Some(DigitsValue(digits))
    else if AllDigits(s) then Some(DigitsValue(s))
    else None
  }

  /** What `v, _ := strconv.ParseInt(s, 10, 64)` leaves in `v` when it
      discards the error: the parsed value, or 0 on a syntax error. */
  function ParseOrZero(s: string): int
  {
    ParseDecimal(s).GetOr(0)
  }

  /** `n` in decimal, without leading zeros. */
  function FormatNat(n: nat): (s: string)
    ensures |s| >= 1 && AllDigits(s)
    ensures DigitsValue(s) == n
    ensures s[0] == '0' ==> n == 0
  {
    if n < 10 then [DigitChar(n)]
    else
      var init := FormatNat(n / 10);
      var s := init + [DigitChar(n % 10)];
      assert s[..|s| - 1] == init;
      s
  }

  /** `i` as `fmt.Sprintf("%d", i)` writes it. */
  function FormatInt(i: int): (s: string)
    ensures |s| >= 1
    ensures (s[0] == '-') == (i < 0)
    ensures i < 0 ==> s[1..] == FormatNat(-i)
    ensures i >= 0 ==> s == FormatNat(i)
  {
    if i < 0 then "-" + FormatNat(-i) else FormatNat(i)
  }

  /** Parsing what `%d` writes gives the number back. */
  lemma ParseFormatInt(i: int)
    ensures ParseDecimal(FormatInt(i)) == Some(i)
    ensures ParseOrZero(FormatInt(i)) == i
  {
    var s := FormatInt(i);
    if i < 0 {
      assert s[0] == '-';
      assert s[1..] == FormatNat(-i);
    } else {
      assert IsDigit(s[0]);
    }
  }

  /** A text with no digits at all (empty, or a lone sign such as the `-`
      that df prints for a size it cannot tell) parses to nothing and so
      reads as zero. */
  lemma ParseRejectsNoDigits(s: string)
    requires s == [] || s == "-" || s == "+"
    ensures ParseDecimal(s) == None
    ensures ParseOrZero(s) == 0
  {
    if s != [] {
      assert s[1..] == [];
    }
  }

  /** A text that holds a character other than a digit, after an optional
      leading sign, parses to nothing and so reads as zero. */
  lemma ParseRejectsNonDigit(s: string, k: nat)
    requires 0 < k < |s| || (k == 0 && |s| > 0 && s[0] != '+' && s[0] != '-')
    requires !IsDigit(s[k])
    ensures ParseDecimal(s) == None
    ensures ParseOrZero(s) == 0
  {
    if k > 0 {
      assert s[1..][k - 1] == s[k];
    }
  }
}
