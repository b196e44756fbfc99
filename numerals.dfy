/**
 Decimal text of integers, as Rust's `{}` formatting writes an `isize`:
 the digits without leading zeros, preceded by `-` when negative. Used for
 the `^p` of a unit entry and the `x10^e` suffix of a number.
 */
module Numerals {

  predicate IsDigit(c: char)
  {
    '0' <= c <= '9'
  }

  /** The number a string of decimal digits denotes. */
  function DigitsValue(s: string): nat
    requires forall i :: 0 <= i < |s| ==> IsDigit(s[i])
  {
    if s == [] then 0
    else
      assert IsDigit(s[|s| - 1]);
      DigitsValue(s[..|s| - 1]) * 10 + (s[|s| - 1] as int - '0' as int)
  }

  function DigitChar(d: nat): (c: char)
    requires d < 10
    ensures IsDigit(c) && c as int - '0' as int == d
  {
    ('0' as int + d) as char
  }

  /** The decimal text of n, without leading zeros; reading it back gives n. */
  function NatToString(n: nat): (s: string)
    ensures s != []
    ensures forall i :: 0 <= i < |s| ==> IsDigit(s[i])
    ensures DigitsValue(s) == n
    ensures |s| > 1 ==> s[0] != '0'
    decreases n
  {
    if n < 10 then [DigitChar(n)]
    else
      var prefix := NatToString(n / 10);
      var s := prefix + [DigitChar(n % 10)];
      assert s[..|s| - 1] == prefix;
      assert s[0] == prefix[0];
      assert prefix != "0" by {
        assert DigitsValue("0") == DigitsValue("") * 10 + 0;
      }
      s
  }

  /** The decimal text of i, with a leading `-` exactly when i is negative. */
  function IntToString(i: int): (s: string)
    ensures s != []
    ensures i < 0 ==> s[0] == '-'
    ensures forall k :: 0 <= k < |s| ==> IsDigit(s[k]) || (k == 0 && i < 0)
    ensures DigitsValue(if i < 0 then s[1..] else s) == (if i < 0 then -i else i)
    ensures |s| > 1 ==> s[if i < 0 then 1 else 0] != '0'
  {
    if i < 0 then
      var s := "-" + NatToString(-i);
      assert s[1..] == NatToString(-i);
      s
    else NatToString(i)
  }

  /** Different integers are written differently. */
  lemma IntToStringInjective(i: int, j: int)
    requires IntToString(i) == IntToString(j)
    ensures i == j
  {
  }
}
