/**
 * The string operations the grid editor relies on: JavaScript's substring
 * test `includes`, the regular-expression test for a digit in a keystroke,
 * and the decimal rendering of a cell index inside a template literal.
 */
module Text {

  /** `q` occurs in `s` starting at position `i`. */
  ghost predicate OccursAt(s: string, q: string, i: int)
  {
    0 <= i && i + |q| <= |s| && s[i..i + |q|] == q
  }

  /** JavaScript's `includes`: true iff `q` is a contiguous substring of `s`
      (so every string includes the empty string). */
  function Includes(s: string, q: string): (r: bool)
    ensures r <==> exists i :: OccursAt(s, q, i)
    decreases |s|
  {
    if |q| > |s| then
      false
    else if s[..|q|] == q then
      assert OccursAt(s, q, 0);
      true
    else
      assert !OccursAt(s, q, 0);
      forall i | 1 <= i
        ensures OccursAt(s, q, i) <==> OccursAt(s[1..], q, i - 1)
      {
        OccursShifted(s, q, i);
      }
      forall j | 0 <= j
        ensures OccursAt(s[1..], q, j) <==> OccursAt(s, q, j + 1)
      {
        OccursShifted(s, q, j + 1);
      }
      Includes(s[1..], q)
  }

  /** An occurrence past the first position is an occurrence in the tail. */
  lemma OccursShifted(s: string, q: string, i: int)
    requires 1 <= i && |s| > 0
    ensures OccursAt(s, q, i) <==> OccursAt(s[1..], q, i - 1)
  {
    if i + |q| <= |s| {
      assert s[1..][i - 1..i - 1 + |q|] == s[i..i + |q|];
    }
  }

  /** The character class `\d` of a JavaScript regular expression without
      the `u` flag: the ASCII digits. */
  predicate IsDigit(c: char)
  {
    '0' <= c <= '9'
  }

  /** The digit-class regular expression matches somewhere in `key`: the key
      contains at least one decimal digit. */
  function HasDigit(key: string): (r: bool)
    ensures r <==> exists i :: 0 <= i < |key| && IsDigit(key[i])
  {
    if key == [] then
      false
    else if IsDigit(key[0]) then
      true
    else
      var r := HasDigit(key[1..]);
      assert forall i | 1 <= i < |key| :: key[i] == key[1..][i - 1];
      r
  }

  /** The digit character for a value below ten. */
  function DigitChar(d: nat): (c: char)
    requires d < 10
    ensures IsDigit(c) && c as int - '0' as int == d
  {
    ('0' as int + d) as char
  }

  /** Template-literal rendering of a non-negative integer: decimal, without
      leading zeros. */
  function NatToString(n: nat): (s: string)
    ensures |s| > 0
    ensures forall i :: 0 <= i < |s| ==> IsDigit(s[i])
    ensures n < 10 <==> |s| == 1
    ensures s[0] == '0' <==> n == 0
    decreases n
  {
    if n < 10 then [DigitChar(n)] else NatToString(n / 10) + [DigitChar(n % 10)]
  }

  /** The value of a string of decimal digits (the inverse of NatToString). */
  function DecimalValue(s: string): nat
    requires forall i :: 0 <= i < |s| ==> IsDigit(s[i])
    decreases |s|
  {
    if s == [] then
      0
    else
      var last := s[|s| - 1];
      assert IsDigit(last);
      10 * DecimalValue(s[..|s| - 1]) + (last as int - '0' as int)
  }

  /** Reading back the decimal rendering of `n` gives `n`. */
  lemma {:induction false} DecimalRoundTrip(n: nat)
    ensures DecimalValue(NatToString(n)) == n
    decreases n
  {
    if n >= 10 {
      DecimalRoundTrip(n / 10);
      var s := NatToString(n);
      assert s[..|s| - 1] == NatToString(n / 10);
    }
  }

  /** Different numbers render as different strings. */
  lemma NatToStringInjective(a: nat, b: nat)
    ensures NatToString(a) == NatToString(b) ==> a == b
  {
    DecimalRoundTrip(a);
    DecimalRoundTrip(b);
  }
}
