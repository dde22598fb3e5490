/**
 * The two pieces of Java string handling the booking logic relies on:
 * `String.trim`, which strips every character at or below U+0020 from both
 * ends, and the decimal rendering of an `int` that string concatenation
 * (`"Room " + n`) performs.
 */
module Text {

  /** A character `String.trim` strips: any code point at or below U+0020. */
  predicate IsBlank(c: char) {
    c <= ' '
  }

  /** A string that `String.trim` reduces to the empty string. */
  predicate AllBlank(s: string) {
    forall i :: 0 <= i < |s| ==> IsBlank(s[i])
  }

  /** Number of blank characters at the front of `s`. */
  function LeadingBlanks(s: string): (k: nat)
    ensures k <= |s|
    ensures forall i :: 0 <= i < k ==> IsBlank(s[i])
    ensures k < |s| ==> !IsBlank(s[k])
  {
    if s == [] || !IsBlank(s[0]) then 0 else 1 + LeadingBlanks(s[1..])
  }

  /** Number of blank characters at the back of `s`. */
  function TrailingBlanks(s: string): (k: nat)
    ensures k <= |s|
    ensures forall i :: |s| - k <= i < |s| ==> IsBlank(s[i])
    ensures k < |s| ==> !IsBlank(s[|s| - 1 - k])
  {
    if s == [] || !IsBlank(s[|s| - 1]) then 0 else 1 + TrailingBlanks(s[..|s| - 1])
  }

  /**
   * `String.trim`: the leading blanks are skipped first, then the trailing
   * blanks of what is left. The result is the slice of `s` that starts at the
   * first non-blank character and ends at the last one; everything cut away
   * is blank, and the result is empty exactly when `s` is all blank.
   */
  function Trim(s: string): (r: string)
    ensures |r| <= |s|
    ensures LeadingBlanks(s) + |r| <= |s|
    ensures r == s[LeadingBlanks(s)..LeadingBlanks(s) + |r|]
    ensures forall i :: LeadingBlanks(s) + |r| <= i < |s| ==> IsBlank(s[i])
    ensures r != [] ==> !IsBlank(r[0]) && !IsBlank(r[|r| - 1])
    ensures r == [] <==> AllBlank(s)
  {
    var rest := s[LeadingBlanks(s)..];
    rest[..|rest| - TrailingBlanks(rest)]
  }

  /** The decimal digit for `d`. */
  function Digit(d: nat): (c: char)
    requires d < 10
    ensures '0' <= c <= '9'
  {
    "0123456789"[d]
  }

  predicate IsDigits(s: string) {
    forall i :: 0 <= i < |s| ==> '0' <= s[i] <= '9'
  }

  /** The number a string of decimal digits denotes. */
  function DigitsValue(s: string): nat
    requires IsDigits(s)
  {
    if s == [] then 0 else 10 * DigitsValue(s[..|s| - 1]) + (s[|s| - 1] as int - '0' as int)
  }

  /**
   * Decimal rendering of a natural number, most significant digit first,
   * without leading zeros: 0 is written "0".
   */
  function NatToString(n: nat): (r: string)
    ensures r != [] && IsDigits(r)
    ensures r[0] == '0' ==> n == 0 && r == "0"
  {
    if n < 10 then [Digit(n)] else NatToString(n / 10) + [Digit(n % 10)]
  }

  /** Reading the rendered digits back gives the number again. */
  lemma {:induction false} NatToStringRoundTrip(n: nat)
    ensures DigitsValue(NatToString(n)) == n
  {
    var r := NatToString(n);
    if n < 10 {
      assert r[..|r| - 1] == [];
    } else {
      assert r[..|r| - 1] == NatToString(n / 10);
      NatToStringRoundTrip(n / 10);
    }
  }

  /**
   * The rendering is the only canonical one: any non-empty digit string
   * without a leading zero (other than "0" itself) that denotes `n` is
   * exactly `NatToString(n)`.
   */
  lemma {:induction false} NatToStringUnique(s: string, n: nat)
    requires s != [] && IsDigits(s) && (s[0] == '0' ==> s == "0")
    requires DigitsValue(s) == n
    ensures s == NatToString(n)
  {
    var p := s[..|s| - 1];
    var d := s[|s| - 1] as int - '0' as int;
    if p == [] {
      assert s == [s[0]] && n == d;
      assert Digit(n) == s[0] by {
        if n == 0 {} else if n == 1 {} else if n == 2 {} else if n == 3 {} else if n == 4 {}
        else if n == 5 {} else if n == 6 {} else if n == 7 {} else if n == 8 {} else {}
      }
    } else {
      assert p[0] == s[0] && s != "0";
      NatToStringUnique(p, DigitsValue(p));
      if DigitsValue(p) == 0 {
        assert false;
      }
      assert n / 10 == DigitsValue(p) && n % 10 == d;
      NatToStringUnique(s[|s| - 1..], d);
      assert s == p + s[|s| - 1..];
    }
  }

  /** Java's `Integer.toString`: a minus sign for negatives, then the digits. */
  function IntToString(n: int): (r: string)
    ensures r != []
  {
    if n < 0 then "-" + NatToString(-n) else NatToString(n)
  }

  /**
   * The rendering of an `int` is its sign (a leading minus exactly for
   * negatives) followed by digits that read back as its magnitude, with no
   * leading zero unless the magnitude is 0, which is written "0".
   */
  lemma IntToStringRoundTrip(n: int)
    ensures IntToString(n)[0] == '-' <==> n < 0
    ensures var digits := if n < 0 then IntToString(n)[1..] else IntToString(n);
      IsDigits(digits) && DigitsValue(digits) == if n < 0 then -n else n
    ensures var digits := if n < 0 then IntToString(n)[1..] else IntToString(n);
      digits != [] && (digits[0] == '0' ==> digits == "0")
  {
    var m: nat := if n < 0 then -n else n;
    var digits := NatToString(m);
    NatToStringRoundTrip(m);
    if n < 0 {
      assert IntToString(n) == "-" + digits;
      assert IntToString(n)[1..] == digits;
    } else {
      assert IntToString(n) == digits;
    }
  }
}
