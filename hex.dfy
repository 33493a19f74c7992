/**
 * Base-16 rendering of natural numbers as JavaScript's `Number.prototype.toString(16)`
 * produces it for non-negative integers: lower-case digits, no leading zeros, and
 * "0" for zero. `FromHex` is its inverse on canonical digit strings.
 */
module Hex {

  predicate IsHexDigit(c: char) {
    '0' <= c <= '9' || 'a' <= c <= 'f'
  }

  predicate AllHexDigits(s: string) {
    forall i :: 0 <= i < |s| ==> IsHexDigit(s[i])
  }

  /** The strings `toString(16)` can produce for an integer: non-empty, lower-case hex digits, no leading zero. */
  predicate IsCanonical(s: string) {
    |s| >= 1 && AllHexDigits(s) && (s[0] == '0' ==> |s| == 1)
  }

  function DigitValue(c: char): (d: nat)
    requires IsHexDigit(c)
    ensures d < 16
    ensures d == 0 <==> c == '0'
  {
    if c <= '9' then c as nat - '0' as nat else c as nat - 'a' as nat + 10
  }

  function HexDigit(d: nat): (c: char)
    requires d < 16
    ensures IsHexDigit(c) && DigitValue(c) == d
  {
    if d < 10 then ('0' as nat + d) as char else ('a' as nat + d - 10) as char
  }

  /** The digits of `n` in base 16, most significant first. */
  function ToHex(n: nat): (s: string)
    ensures IsCanonical(s)
    ensures s[0] == '0' <==> n == 0
    decreases n
  {
    if n < 16 then [HexDigit(n)] else ToHex(n / 16) + [HexDigit(n % 16)]
  }

  /** The number a string of base-16 digits denotes (leading zeros allowed). */
  function FromHex(s: string): (n: nat)
    requires AllHexDigits(s)
    decreases |s|
  {
    if s == [] then 0 else 16 * FromHex(s[..|s| - 1]) + DigitValue(s[|s| - 1])
  }

  lemma DigitRoundTrip(c: char)
    requires IsHexDigit(c)
    ensures HexDigit(DigitValue(c)) == c
  {
  }

  /** Reading back what `ToHex` wrote gives the number again. */
  lemma {:induction false} FromToHex(n: nat)
    ensures FromHex(ToHex(n)) == n
    decreases n
  {
    var s := ToHex(n);
    if n < 16 {
      assert s[..0] == [];
    } else {
      FromToHex(n / 16);
      assert s[..|s| - 1] == ToHex(n / 16);
    }
  }

  /** A digit string without a leading zero denotes a positive number. */
  lemma {:induction false} FromHexPositive(s: string)
    requires |s| >= 1 && AllHexDigits(s) && s[0] != '0'
    ensures FromHex(s) >= 1
    decreases |s|
  {
    if |s| == 1 {
      assert s[..0] == [];
    } else {
      FromHexPositive(s[..|s| - 1]);
    }
  }

  /** Every canonical digit string is exactly what `ToHex` writes for the number it denotes. */
  lemma {:induction false} ToFromHex(s: string)
    requires IsCanonical(s)
    ensures ToHex(FromHex(s)) == s
    decreases |s|
  {
    var last := s[|s| - 1];
    DigitRoundTrip(last);
    if |s| == 1 {
      assert s[..0] == [];
      assert s == [last];
    } else {
      var t := s[..|s| - 1];
      assert IsCanonical(t);
      FromHexPositive(t);
      ToFromHex(t);
      var n := FromHex(s);
      assert n == 16 * FromHex(t) + DigitValue(last);
      assert n / 16 == FromHex(t) && n % 16 == DigitValue(last);
      assert s == t + [last];
    }
  }

  /** Distinct numbers never share a rendering. */
  lemma ToHexInjective(m: nat, n: nat)
    requires ToHex(m) == ToHex(n)
    ensures m == n
  {
    FromToHex(m);
    FromToHex(n);
  }
}
