/** String helpers used by the plugin: case folding, prefix tests and decimal rendering. */
module Text {

  /** ASCII lower-casing of one character; every other character is left alone. */
  function LowerChar(c: char): char
  {
    if 'A' <= c <= 'Z' then (c as int - 'A' as int + 'a' as int) as char else c
  }

  /** The string holds no upper-case ASCII letter. */
  predicate NoUpperCase(s: string)
  {
    forall i :: 0 <= i < |s| ==> !('A' <= s[i] <= 'Z')
  }

  /**
   * `String.prototype.toLowerCase`, restricted to the ASCII letters: the result
   * has no capital left, every other character stays where it was, and a
   * string without capitals is its own lower-cased form.
   */
  function Lower(s: string): (r: string)
    ensures |r| == |s|
    ensures NoUpperCase(r)
    ensures forall i :: 0 <= i < |s| && !('A' <= s[i] <= 'Z') ==> r[i] == s[i]
    ensures forall i :: 0 <= i < |s| && 'A' <= s[i] <= 'Z' ==>
      'a' <= r[i] <= 'z' && r[i] as int - 'a' as int == s[i] as int - 'A' as int
    ensures NoUpperCase(s) ==> r == s
  {
    seq(|s|, i requires 0 <= i < |s| => LowerChar(s[i]))
  }

  /** Lower-casing twice is lower-casing once. */
  lemma LowerIdempotent(s: string)
    ensures Lower(Lower(s)) == Lower(s)
  {
  }

  /** `s.startsWith(prefix)`. */
  predicate StartsWith(s: string, prefix: string)
  {
    |prefix| <= |s| && s[..|prefix|] == prefix
  }

  /** The decimal digit character for `d`. */
  function DigitChar(d: nat): char
    requires d < 10
  {
    ('0' as int + d) as char
  }

  predicate IsDigitChar(c: char)
  {
    '0' <= c <= '9'
  }

  predicate AllDigits(s: string)
  {
    forall i :: 0 <= i < |s| ==> IsDigitChar(s[i])
  }

  /** Decimal rendering of a non-negative integer, as a template literal `${n}` produces it. */
  function DecimalText(n: nat): (r: string)
    ensures |r| >= 1 && AllDigits(r)
    ensures r[0] == '0' ==> n == 0 && r == "0"
  {
    if n < 10 then [DigitChar(n)] else DecimalText(n / 10) + [DigitChar(n % 10)]
  }

  /** Reads a string of decimal digits back as a number. */
  function DecimalValue(s: string): nat
    requires AllDigits(s)
  {
    if s == [] then 0
    else
      var last := s[|s| - 1];
      assert IsDigitChar(last);
      assert AllDigits(s[..|s| - 1]);
      DecimalValue(s[..|s| - 1]) * 10 + (last as int - '0' as int)
  }

  /** Decimal rendering is undone by reading the digits back. */
  lemma {:induction false} DecimalRoundTrip(n: nat)
    ensures DecimalValue(DecimalText(n)) == n
  {
    if n >= 10 {
      var prefix := DecimalText(n / 10);
      var text := prefix + [DigitChar(n % 10)];
      assert text[..|text| - 1] == prefix;
      DecimalRoundTrip(n / 10);
    }
  }

  /** Two digits, as `toFixed(2)` prints the hundredths: they read back as `d`. */
  function TwoDigits(d: nat): (digits: string)
    requires d < 100
    ensures |digits| == 2 && AllDigits(digits)
    ensures DecimalValue(digits) == d
  {
    var digits := [DigitChar(d / 10), DigitChar(d % 10)];
    assert digits[..1] == [DigitChar(d / 10)];
    assert [DigitChar(d / 10)][..0] == [];
    assert DecimalValue([DigitChar(d / 10)]) == d / 10;
    assert DecimalValue(digits) == DecimalValue(digits[..1]) * 10 + d % 10;
    digits
  }
}
