/** C strings and the few libc primitives the shell relies on.
    A C string is the sequence of its characters before the terminating NUL, so
    "*p == NUL" is "the position is the length of the sequence". */
module CText {

  /** isspace() in the C locale. */
  predicate IsSpace(c: char) {
    c == ' ' || c == '\t' || c == '\n' || c == '\r' || c == '\U{000B}' || c == '\U{000C}'
  }

  /** isdigit(). */
  predicate IsDigit(c: char) {
    '0' <= c <= '9'
  }

  predicate AllDigits(s: string) {
    forall c :: c in s ==> IsDigit(c)
  }

  function DigitValue(c: char): nat
    requires IsDigit(c)
  {
    c as int - '0' as int
  }

  /** The number written by a run of digits; the empty run is 0. */
  function DigitsValue(s: string): nat
    requires AllDigits(s)
  {
    if s == [] then 0 else DigitsValue(s[..|s| - 1]) * 10 + DigitValue(s[|s| - 1])
  }

  /** Digits by their codes, and the value they add. */
  lemma DigitCodes(s: string)
    ensures AllDigits(s) <==> forall c :: c in s ==> 48 <= c as int <= 57
    ensures AllDigits(s) && s != "" ==>
      DigitsValue(s) == 10 * DigitsValue(s[..|s| - 1]) + (s[|s| - 1] as int - 48)
  {}

  lemma NoDigits()
    ensures AllDigits("") && DigitsValue("") == 0
  {}

  lemma DigitsStep(s: string, c: char)
    requires AllDigits(s) && IsDigit(c)
    ensures AllDigits(s + [c]) && DigitsValue(s + [c]) == DigitsValue(s) * 10 + DigitValue(c)
  {
    assert (s + [c])[..|s|] == s;
  }

  lemma FiveDigits(s: string, a: char, b: char, c: char, d: char, e: char)
    requires AllDigits(s) && IsDigit(a) && IsDigit(b) && IsDigit(c) && IsDigit(d) && IsDigit(e)
    ensures var t := s + [a] + [b] + [c] + [d] + [e];
      && AllDigits(t)
      && DigitsValue(t) == DigitsValue(s) * 100000 + DigitValue(a) * 10000 + DigitValue(b) * 1000
                           + DigitValue(c) * 100 + DigitValue(d) * 10 + DigitValue(e)
  {
    hide DigitsValue, AllDigits;
    DigitsStep(s, a);
    DigitsStep(s + [a], b);
    DigitsStep(s + [a] + [b], c);
    DigitsStep(s + [a] + [b] + [c], d);
    DigitsStep(s + [a] + [b] + [c] + [d], e);
  }

  const LONG_MAX: nat := 0x7FFF_FFFF_FFFF_FFFF
  const INT_RANGE: nat := 0x1_0000_0000

  /** The low 32 bits of what strtol() makes of a number: a long stops at its maximum. */
  function LowWord(value: nat): (w: nat)
    ensures w < INT_RANGE && (value < INT_RANGE ==> w == value)
  {
    (if value > LONG_MAX then LONG_MAX else value) % INT_RANGE
  }

  /** atoi() of a run of digits, which is strtol() narrowed to an int. */
  function Atoi(s: string): int
    requires AllDigits(s)
  {
    var w := LowWord(DigitsValue(s));
    if w >= INT_RANGE / 2 then w - INT_RANGE else w
  }

  /** The same in numbers: a value stops at 2^63 - 1, and of that the low 32 bits are a signed number. */
  lemma AtoiExactly(s: string)
    requires AllDigits(s)
    ensures var v := if DigitsValue(s) > 9223372036854775807 then 9223372036854775807 else DigitsValue(s);
      && -2147483648 <= Atoi(s) < 2147483648
      && exists q: nat :: v == q * 4294967296 + Atoi(s) || v == q * 4294967296 + (Atoi(s) + 4294967296)
  {
    hide DigitsValue;
    var v := if DigitsValue(s) > 9223372036854775807 then 9223372036854775807 else DigitsValue(s);
    var q: nat := v / 4294967296;
    assert v == q * 4294967296 + v % 4294967296;
  }

  /** One more than the largest unsigned long. */
  const ULONG_LIMIT: nat := 0x1_0000_0000_0000_0000

  /** The length of the leading run of characters of `s` satisfying `p`. */
  function SpanLength(s: string, p: char -> bool): (n: nat)
    ensures n <= |s|
    ensures forall k :: 0 <= k < n ==> p(s[k])
    ensures n < |s| ==> !p(s[n])
  {
    if s == [] || !p(s[0]) then 0 else 1 + SpanLength(s[1..], p)
  }

  /** strcmp(a, b) < 0. */
  predicate Less(a: string, b: string) {
    b != [] && (a == [] || a[0] < b[0] || (a[0] == b[0] && Less(a[1..], b[1..])))
  }
}
