/** Digit-level text of numbers: `Number.prototype.toString(16)`,
    `parseInt(s, 16)` on well-formed digit strings, and the decimal
    `toString` of integers. */
module HexText {

  predicate IsHexDigit(c: char) {
    '0' <= c <= '9' || 'a' <= c <= 'f' || 'A' <= c <= 'F'
  }

  /** A digit as `toString(16)` writes it: decimal digits and `a`-`f`. */
  predicate IsLowerHexDigit(c: char) {
    '0' <= c <= '9' || 'a' <= c <= 'f'
  }

  predicate AllHex(s: string) {
    forall i :: 0 <= i < |s| ==> IsHexDigit(s[i])
  }

  predicate AllLowerHex(s: string) {
    forall i :: 0 <= i < |s| ==> IsLowerHexDigit(s[i])
  }

  function DigitValue(c: char): (v: nat)
    requires IsHexDigit(c)
    ensures v < 16
  {
    if '0' <= c <= '9' then c as int - '0' as int
    else if 'a' <= c <= 'f' then c as int - 'a' as int + 10
    else c as int - 'A' as int + 10
  }

  /** The lower-case digit of a value below 16. */
  function DigitChar(v: nat): (c: char)
    requires v < 16
    ensures IsLowerHexDigit(c) && IsHexDigit(c) && DigitValue(c) == v
  {
    "0123456789abcdef"[v]
  }

  /** `parseInt(s, 16)` for a non-empty string of hexadecimal digits. */
  function ParseHex(s: string): (v: nat)
    requires AllHex(s)
  {
    if s == [] then 0 else ParseHex(s[..|s| - 1]) * 16 + DigitValue(s[|s| - 1])
  }

  /** One digit denotes its own value. */
  lemma ParseHexDigit(s: string)
    requires |s| == 1 && AllHex(s)
    ensures ParseHex(s) == DigitValue(s[0])
  {
    assert s[..0] == [];
  }

  /** Two digits denote the first digit's value times 16 plus the second's. */
  lemma ParseHexPair(s: string)
    requires |s| == 2 && AllHex(s)
    ensures ParseHex(s) == DigitValue(s[0]) * 16 + DigitValue(s[1])
  {
    var first := s[..1];
    assert first[..0] == [];
    assert ParseHex(first) == DigitValue(s[0]);
  }

  /** `n.toString(16)` for a natural number: lower-case digits, no leading
      zero, reading back as `n`. */
  function ToHexString(n: nat): (s: string)
    ensures 1 <= |s| && AllLowerHex(s) && AllHex(s)
    ensures ParseHex(s) == n
    ensures |s| == 1 <==> n < 16
    ensures |s| > 1 ==> s[0] != '0'
    decreases n
  {
    if n < 16 then [DigitChar(n)]
    else
      var prefix := ToHexString(n / 16);
      var s := prefix + [DigitChar(n % 16)];
      assert s[..|s| - 1] == prefix;
      s
  }

  predicate IsDecimalDigit(c: char) {
    '0' <= c <= '9'
  }

  predicate AllDecimal(s: string) {
    forall i :: 0 <= i < |s| ==> IsDecimalDigit(s[i])
  }

  /** The digit of a value below 10. */
  function DecimalChar(v: nat): (c: char)
    requires v < 10
    ensures IsDecimalDigit(c) && c as int - '0' as int == v
  {
    "0123456789"[v]
  }

  /** `n.toString()` for a natural number: decimal digits without leading zero. */
  function DecimalDigits(n: nat): (s: string)
    ensures 1 <= |s| && AllDecimal(s)
    ensures ParseDecimal(s) == n
    ensures |s| > 1 ==> s[0] != '0'
    decreases n
  {
    if n < 10 then [DecimalChar(n)]
    else
      var prefix := DecimalDigits(n / 10);
      AppendDigit(prefix, DecimalChar(n % 10));
      prefix + [DecimalChar(n % 10)]
  }

  /** The value of a string of decimal digits. */
  function ParseDecimal(s: string): nat
    requires AllDecimal(s)
  {
    if s == [] then 0
    else ParseDecimal(s[..|s| - 1]) * 10 + (s[|s| - 1] as int - '0' as int)
  }

  /** Appending a digit keeps a digit string and adds the digit in the
      units place. */
  lemma AppendDigit(prefix: string, c: char)
    requires AllDecimal(prefix) && IsDecimalDigit(c)
    ensures AllDecimal(prefix + [c]) && |prefix + [c]| == |prefix| + 1
    ensures (prefix + [c])[0] == (if |prefix| > 0 then prefix[0] else c)
    ensures ParseDecimal(prefix + [c]) == ParseDecimal(prefix) * 10 + (c as int - '0' as int)
  {
    var s := prefix + [c];
    assert s[..|s| - 1] == prefix;
  }

  /** `i.toString()` for an integer: a minus sign before the digits of a
      negative number. */
  function DecimalString(i: int): (s: string)
    ensures 1 <= |s|
    ensures i < 0 <==> s[0] == '-'
    ensures i >= 0 ==> s == DecimalDigits(i)
    ensures i < 0 ==> s[1..] == DecimalDigits(-i)
  {
    if i < 0 then "-" + DecimalDigits(-i) else DecimalDigits(i)
  }

  /** Distinct integers print differently. */
  lemma DecimalStringInjective(i: int, j: int)
    requires DecimalString(i) == DecimalString(j)
    ensures i == j
  {
    if i < 0 {
      assert DecimalString(i)[1..] == DecimalString(j)[1..];
    }
  }
}
