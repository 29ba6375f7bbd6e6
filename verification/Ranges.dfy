/** cmd_range_match of command.c. */
module Ranges {
  import opened Options
  import opened CText

  /** strtoul(s, &end, 10) when it leaves `*end` at the end of `s`; `None` otherwise. */
  function StrToUl(s: string): Option<nat> {
    var blanks := SpanLength(s, IsSpace);
    var text := s[blanks..];
    var signed := text != "" && (text[0] == '-' || text[0] == '+');
    var digits := if signed then text[1..] else text;
    if s == "" then Some(0)
    else if digits == "" || !AllDigits(digits) then None
    else if DigitsValue(digits) >= ULONG_LIMIT then Some(ULONG_LIMIT - 1)
    else if signed && text[0] == '-' then Some((ULONG_LIMIT - DigitsValue(digits)) % ULONG_LIMIT)
    else Some(DigitsValue(digits))
  }

  const DECIMAL_STRLEN_MAX := 10

  /** The number before the first `stop` in `s`, and what follows that `stop`. */
  function Bound(s: string, stop: char): Option<(nat, string)> {
    var n := SpanLength(s, c => c != stop);
    if n == |s| || n > DECIMAL_STRLEN_MAX then None
    else match StrToUl(s[..n])
      case None => None
      case Some(v) => Some((v, s[n + 1..]))
  }

  /** Whether `word` is a number in the range written "<min-max>". Only the punctuation after
      the first character of `range` is looked at. */
  predicate RangeMatch(range: string, word: string) {
    range != ""
    && match (StrToUl(word), Bound(range[1..], '-'))
       case (Some(val), Some((min, rest))) =>
         (match Bound(rest, '>')
          case Some((max, _)) => min <= val <= max
          case None => false)
       case _ => false
  }

  // ---------- What a range accepts ----------

  predicate IsNumeral(s: string) {
    s != "" && AllDigits(s)
  }

  lemma {:induction false} DigitsBounded(s: string)
    requires AllDigits(s)
    ensures DigitsValue(s) < Power10(|s|)
  {
    if s != [] {
      DigitsBounded(s[..|s| - 1]);
      assert s[|s| - 1] in s;
      assert DigitsValue(s) <= DigitsValue(s[..|s| - 1]) * 10 + 9;
    }
  }

  function Power10(n: nat): nat {
    if n == 0 then 1 else 10 * Power10(n - 1)
  }

  lemma NumeralIsNotSigned(s: string)
    requires IsNumeral(s)
    ensures StrToUl(s) == Some(if DigitsValue(s) >= ULONG_LIMIT then ULONG_LIMIT - 1 else DigitsValue(s))
  {
    assert s[0] in s && SpanLength(s, IsSpace) == 0;
    assert s[0..] == s;
  }

  lemma BoundIs(number: string, stop: char, rest: string)
    requires IsNumeral(number) && |number| <= DECIMAL_STRLEN_MAX && !IsDigit(stop)
    ensures Bound(number + [stop] + rest, stop) == Some((DigitsValue(number), rest))
  {
    var s := number + [stop] + rest;
    var n := SpanLength(s, c => c != stop);
    assert forall k :: 0 <= k < |number| ==> s[k] in number;
    assert s[|number|] == stop && n == |number|;
    assert s[..n] == number && s[n + 1..] == rest;
    NumeralIsNotSigned(number);
    TenDigits(number);
  }

  lemma TenDigits(number: string)
    requires AllDigits(number) && |number| <= DECIMAL_STRLEN_MAX
    ensures DigitsValue(number) < ULONG_LIMIT - 1
  {
    DigitsBounded(number);
    PowerGrows(|number|, DECIMAL_STRLEN_MAX);
    assert Power10(10) == 10000000000;
  }

  lemma {:induction false} PowerGrows(m: nat, n: nat)
    requires m <= n
    ensures Power10(m) <= Power10(n)
  {
    if m < n { PowerGrows(m, n - 1); }
  }

  /** Main result: for a range written with two numerals of at most ten digits, exactly the
      numbers in the range are accepted, where a word is a number as strtoul() reads it. */
  lemma RangeExactly(min: string, max: string, word: string)
    requires IsNumeral(min) && |min| <= 10 && IsNumeral(max) && |max| <= 10
    ensures RangeMatch("<" + (min + "-" + (max + ">")), word) <==>
      StrToUl(word).Some? && DigitsValue(min) <= StrToUl(word).value <= DigitsValue(max)
  {
    var tail := max + ">";
    var range := "<" + (min + "-" + tail);
    assert range[1..] == min + "-" + tail;
    BoundIs(min, '-', tail);
    BoundIs(max, '>', "");
    assert max + ['>'] + "" == tail;
    hide Bound, StrToUl;
  }

  /** A range with a longer bound accepts nothing. */
  lemma LongBounds(min: string, max: string, word: string)
    requires IsNumeral(min) && IsNumeral(max) && (|min| > 10 || |max| > 10)
    ensures !RangeMatch("<" + (min + "-" + (max + ">")), word)
  {
    hide StrToUl, DigitsValue;
    var tail := max + ">";
    var range := "<" + (min + "-" + tail);
    assert range[1..] == min + "-" + tail;
    BoundEnds(min, '-', tail);
    BoundEnds(max, '>', "");
    assert max + ['>'] + "" == tail;
    hide Bound;
  }

  lemma BoundEnds(number: string, stop: char, rest: string)
    requires IsNumeral(number) && !IsDigit(stop)
    ensures |number| > 10 ==> Bound(number + [stop] + rest, stop) == None
    ensures Bound(number + [stop] + rest, stop).Some? ==> Bound(number + [stop] + rest, stop).value.1 == rest
  {
    hide StrToUl;
    var s := number + [stop] + rest;
    var n := SpanLength(s, c => c != stop);
    assert forall k :: 0 <= k < |number| ==> s[k] in number;
    assert s[|number|] == stop && n == |number|;
    assert s[n + 1..] == rest;
  }

  /** Blanks, a sign and digits: what strtoul() reads to the end. */
  predicate IsNumber(word: string, blanks: string, sign: string, digits: string) {
    && word == blanks + sign + digits
    && (forall c :: c in blanks ==> IsSpace(c)) && sign in {"", "+", "-"} && IsNumeral(digits)
  }

  lemma NumberValue(word: string, blanks: string, sign: string, digits: string)
    requires IsNumber(word, blanks, sign, digits)
    ensures StrToUl(word) == Some(
      if DigitsValue(digits) >= 18446744073709551616 then 18446744073709551615
      else if sign == "-" && DigitsValue(digits) > 0 then 18446744073709551616 - DigitsValue(digits)
      else DigitsValue(digits))
  {
    hide DigitsValue, IsSpace, AllDigits;
    var text := sign + digits;
    AfterBlanks(word, blanks, sign, digits);
    assert sign != "" ==> text[1..] == digits;
    assert sign == "" ==> text == digits && IsDigit(text[0]) by { FirstDigit(digits); }
  }

  lemma AfterBlanks(word: string, blanks: string, sign: string, digits: string)
    requires IsNumber(word, blanks, sign, digits)
    ensures SpanLength(word, IsSpace) == |blanks| && word[|blanks|..] == sign + digits
  {
    hide DigitsValue, IsSpace, AllDigits;
    var text := sign + digits;
    assert IsDigit(digits[0]) by { FirstDigit(digits); }
    assert word == blanks + text;
    assert word[|blanks|] == text[0];
    assert !IsSpace(text[0]) by { NoSpaceInNumber(text[0]); }
    assert forall k :: 0 <= k < |blanks| ==> word[k] in blanks;
  }

  lemma FirstDigit(digits: string)
    requires IsNumeral(digits)
    ensures IsDigit(digits[0])
  {
    assert digits[0] in digits;
  }

  lemma NoSpaceInNumber(c: char)
    requires IsDigit(c) || c == '+' || c == '-'
    ensures !IsSpace(c)
  {}

  /** Main result on numbers: besides the empty word, which is read as 0, exactly those words are
      numbers, and a sign changes the value modulo 2^64. */
  lemma NumbersExactly(word: string)
    ensures StrToUl(word).Some? <==>
      word == "" || exists blanks, sign, digits :: IsNumber(word, blanks, sign, digits)
    ensures word == "" ==> StrToUl(word) == Some(0)
  {
    hide StrToUl, IsNumber;
    if exists blanks, sign, digits :: IsNumber(word, blanks, sign, digits) {
      var blanks, sign, digits :| IsNumber(word, blanks, sign, digits);
      NumberValue(word, blanks, sign, digits);
    }
    if StrToUl(word).Some? && word != "" {
      var blanks, sign, digits := NumberParts(word);
      assert IsNumber(word, blanks, sign, digits);
    }
    EmptyNumber();
  }

  lemma EmptyNumber()
    ensures StrToUl("") == Some(0)
  {}

  lemma NumberParts(word: string) returns (blanks: string, sign: string, digits: string)
    requires StrToUl(word).Some? && word != ""
    ensures IsNumber(word, blanks, sign, digits)
  {
    hide StrToUl, IsNumeral, IsSpace, IsNumber;
    var n := SpanLength(word, IsSpace);
    var text := word[n..];
    NumberBody(word, text);
    blanks := word[..n];
    BlanksFirst(word);
    if text[0] == '-' || text[0] == '+' {
      sign, digits := [text[0]], text[1..];
    } else {
      sign, digits := "", text;
    }
    Assembled(word, blanks, sign, digits, text);
  }

  lemma BlanksFirst(word: string)
    ensures forall c :: c in word[..SpanLength(word, IsSpace)] ==> IsSpace(c)
  {
    hide IsSpace;
  }

  lemma Assembled(word: string, blanks: string, sign: string, digits: string, text: string)
    requires word == blanks + text && text == sign + digits && IsNumeral(digits) && (forall c :: c in blanks ==> IsSpace(c))
    requires sign == "" || (|sign| == 1 && (sign[0] == '-' || sign[0] == '+'))
    ensures IsNumber(word, blanks, sign, digits)
  {
    hide IsNumeral, IsSpace;
    assert |sign| == 1 ==> sign == [sign[0]];
    assert word == blanks + sign + digits;
  }

  lemma NumberBody(word: string, text: string)
    requires StrToUl(word).Some? && word != "" && text == word[SpanLength(word, IsSpace)..]
    ensures text != "" && IsNumeral(if text[0] == '-' || text[0] == '+' then text[1..] else text)
  {
    hide DigitsValue, AllDigits, IsSpace, SpanLength;
  }

  /** A word of digits is accepted when its value is in the range, with no limit on its length. */
  lemma NumeralInRange(min: string, max: string, word: string)
    requires IsNumeral(min) && |min| <= 10 && IsNumeral(max) && |max| <= 10
    requires IsNumeral(word)
    ensures RangeMatch("<" + (min + "-" + (max + ">")), word) <==> DigitsValue(min) <= DigitsValue(word) <= DigitsValue(max)
  {
    hide RangeMatch, StrToUl, DigitsValue, AllDigits;
    RangeExactly(min, max, word);
    NumeralIsNotSigned(word);
    TenDigits(max);
  }

  lemma MinusIs(digits: string)
    requires IsNumeral(digits) && 0 < DigitsValue(digits) < ULONG_LIMIT
    ensures StrToUl("-" + digits) == Some(ULONG_LIMIT - DigitsValue(digits))
  {
    hide DigitsValue, AllDigits;
    var word := "-" + digits;
    assert word[0] == '-' && SpanLength(word, IsSpace) == 0 && word[0..] == word && word[1..] == digits;
  }

  /** A negative number is read modulo 2^64, so one below zero can be accepted. */
  lemma NegativeWraps(min: string, max: string, digits: string)
    requires IsNumeral(min) && |min| <= 10 && IsNumeral(max) && |max| <= 10
    requires IsNumeral(digits) && 0 < DigitsValue(digits) < ULONG_LIMIT
    ensures RangeMatch("<" + (min + "-" + (max + ">")), "-" + digits) <==>
      DigitsValue(min) <= ULONG_LIMIT - DigitsValue(digits) <= DigitsValue(max)
  {
    hide RangeMatch, StrToUl, DigitsValue, AllDigits;
    RangeExactly(min, max, "-" + digits);
    MinusIs(digits);
  }

  lemma GreatestNumeral(digits: string)
    requires digits == "18446744073709551615"
    ensures IsNumeral(digits) && DigitsValue(digits) == ULONG_LIMIT - 1
  {
    hide DigitsValue, AllDigits;
    NoDigits();
    var five := "" + ['1'] + ['8'] + ['4'] + ['4'] + ['6'];
    var ten := five + ['7'] + ['4'] + ['4'] + ['0'] + ['7'];
    var fifteen := ten + ['3'] + ['7'] + ['0'] + ['9'] + ['5'];
    FiveDigits("", '1', '8', '4', '4', '6');
    FiveDigits(five, '7', '4', '4', '0', '7');
    FiveDigits(ten, '3', '7', '0', '9', '5');
    FiveDigits(fifteen, '5', '1', '6', '1', '5');
    assert digits == fifteen + ['5'] + ['1'] + ['6'] + ['1'] + ['5'];
  }

  /** The failing input: a number below -10^19 is accepted as lying between 1 and 9. */
  lemma NegativeAccepted(range: string, word: string)
    requires range == "<1-9>" && word == "-18446744073709551615"
    ensures RangeMatch(range, word)
  {
    hide RangeMatch, DigitsValue, AllDigits;
    var digits := word[1..];
    assert digits == "18446744073709551615" && word == "-" + digits;
    GreatestNumeral(digits);
    OneToNine();
    assert range == "<" + ("1" + "-" + ("9" + ">"));
    NegativeWraps("1", "9", digits);
  }

  lemma OneToNine()
    ensures IsNumeral("1") && DigitsValue("1") == 1 && IsNumeral("9") && DigitsValue("9") == 9
  {
    NoDigits();
    DigitsStep("", '1');
    DigitsStep("", '9');
    assert "" + ['1'] == "1" && "" + ['9'] == "9";
  }
}
