/** `Number.prototype.toString(base)` for non-negative integers, as used for
    the `field<n>` keys (base 10, via a template literal) and for the
    offending byte in the parser's error message (base 16). Digits above 9
    are the lower-case letters, and there are no leading zeros. */
module Numerals {

  predicate ValidBase(base: nat) {
    2 <= base <= 16
  }

  /** Value of a digit character, or 16 for a character that is no digit in
      any supported base. */
  function DigitValue(c: char): (d: nat)
    ensures d <= 16
  {
    if '0' <= c <= '9' then c as int - '0' as int
    else if 'a' <= c <= 'f' then c as int - 'a' as int + 10
    else 16
  }

  predicate IsDigit(c: char, base: nat) {
    DigitValue(c) < base
  }

  function DigitChar(d: nat): (c: char)
    requires d < 16
    ensures DigitValue(c) == d
  {
    if d < 10 then ('0' as int + d) as char else ('a' as int + d - 10) as char
  }

  lemma DivModBase(n: nat, base: nat)
    requires ValidBase(base) && base <= n
    ensures 1 <= n / base < n
    ensures n % base < base
    ensures n / base * base + n % base == n
  {
  }

  /** The digits of `n` in `base`, most significant first. */
  function ToString(n: nat, base: nat): (s: string)
    requires ValidBase(base)
    ensures |s| > 0
    ensures forall k :: 0 <= k < |s| ==> IsDigit(s[k], base)
    ensures |s| == 1 <==> n < base
    ensures s[0] == '0' <==> n == 0
    decreases n
  {
    if n < base then [DigitChar(n)]
    else
      DivModBase(n, base);
      ToString(n / base, base) + [DigitChar(n % base)]
  }

  /** Reads a digit string back, most significant digit first. */
  function Value(s: string, base: nat): nat
    requires ValidBase(base)
    requires forall k :: 0 <= k < |s| ==> IsDigit(s[k], base)
  {
    if |s| == 0 then 0
    else
      var init := s[..|s| - 1];
      assert forall k :: 0 <= k < |init| ==> init[k] == s[k];
      Shift(Value(init, base), base, DigitValue(s[|s| - 1]))
  }

  /** One more digit `d` below the digits worth `high`. */
  function Shift(high: nat, base: nat, d: nat): nat {
    high * base + d
  }

  /** Reading back what `ToString` rendered gives the number. */
  lemma {:induction false} ValueOfToString(n: nat, base: nat)
    requires ValidBase(base)
    ensures Value(ToString(n, base), base) == n
    decreases n
  {
    var s := ToString(n, base);
    if n >= base {
      DivModBase(n, base);
      ValueOfToString(n / base, base);
      assert s[..|s| - 1] == ToString(n / base, base);
    }
  }

  /** Distinct numbers render to distinct strings. */
  lemma ToStringInjective(a: nat, b: nat, base: nat)
    requires ValidBase(base)
    ensures ToString(a, base) == ToString(b, base) ==> a == b
  {
    ValueOfToString(a, base);
    ValueOfToString(b, base);
  }
}
