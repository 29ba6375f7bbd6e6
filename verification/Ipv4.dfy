/** The IPv4 recognisers: cmd_ipv4_match of command.c and its second implementation,
    bad_ip_address of utils.c. */
module Ipv4 {
  import opened CText
  import opened MatchTypes

  // ---------- Dotted fields ----------

  predicate NotDot(c: char) { c != '.' }

  /** The text between the dots: one field more than there are dots. */
  function Fields(s: string): (f: seq<string>)
    ensures |f| >= 1
  {
    var n := SpanLength(s, NotDot);
    if n == |s| then [s] else [s[..n]] + Fields(s[n + 1..])
  }

  /** One byte in decimal; only the leading field of an address may be empty. */
  predicate GoodField(f: string, leading: bool) {
    AllDigits(f) && |f| <= 3 && DigitsValue(f) <= 255 && (leading || f != [])
  }

  predicate GoodFields(f: seq<string>, before: nat) {
    forall k :: 0 <= k < |f| ==> GoodField(f[k], before + k == 0)
  }

  /** The last field is empty and the one before it is digits, of any number and value:
      the scan answers "partly" at a trailing dot before it looks at the size of that field. */
  predicate TrailingDot(f: seq<string>, before: nat) {
    && |f| >= 2
    && f[|f| - 1] == []
    && AllDigits(f[|f| - 2]) && (before + |f| == 2 || f[|f| - 2] != [])
    && GoodFields(f[..|f| - 2], before)
  }

  /** The answer for `before` good fields already read and the fields `f` still to come. */
  function Verdict(f: seq<string>, before: nat): MatchType {
    if before + |f| == 4 && GoodFields(f, before) then EXACT_MATCH
    else if before + |f| < 4 && GoodFields(f, before) then PARTLY_MATCH
    else if before + |f| <= 4 && TrailingDot(f, before) then PARTLY_MATCH
    else NO_MATCH
  }

  function Ipv4Match(s: string): (r: MatchType)
    ensures r == NO_MATCH || r == PARTLY_MATCH || r == EXACT_MATCH
  {
    Verdict(Fields(s), 0)
  }

  // ---------- Lemmas about splitting ----------

  lemma FieldsOfPrefix(f: string, rest: string)
    requires forall c :: c in f ==> c != '.'
    ensures Fields(f) == [f]
    ensures Fields(f + "." + rest) == [f] + Fields(rest)
  {
    var s := f + "." + rest;
    assert s[|f|] == '.';
    var n := SpanLength(s, NotDot);
    forall k | 0 <= k < |f| ensures NotDot(s[k]) { assert s[k] == f[k] && f[k] in f; }
    assert s[..n] == f && s[n + 1..] == rest;
    assert forall k :: 0 <= k < |f| ==> f[k] in f && NotDot(f[k]);
  }

  /** The scan of one field, from the field's start to its dot or to the end of the text. */
  lemma FirstField(s: string, n: nat)
    requires n <= |s| && forall k :: 0 <= k < n ==> s[k] != '.'
    requires n < |s| ==> s[n] == '.'
    ensures n == |s| ==> Fields(s) == [s]
    ensures n < |s| ==> Fields(s) == [s[..n]] + Fields(s[n + 1..])
  {
    if n < |s| {
      assert s == s[..n] + "." + s[n + 1..];
      FieldsOfPrefix(s[..n], s[n + 1..]);
    } else {
      FieldsOfPrefix(s, "");
    }
  }

  lemma GoodFieldsCons(f: string, rest: seq<string>, before: nat)
    ensures GoodFields([f] + rest, before) <==> GoodField(f, before == 0) && GoodFields(rest, before + 1)
  {
    var all := [f] + rest;
    assert all[0] == f;
    if GoodFields(all, before) {
      forall k | 0 <= k < |rest| ensures GoodField(rest[k], before + 1 + k == 0) {
        assert all[k + 1] == rest[k];
      }
    }
    if GoodField(f, before == 0) && GoodFields(rest, before + 1) {
      forall k | 0 <= k < |all| ensures GoodField(all[k], before + k == 0) {
        if k > 0 { assert all[k] == rest[k - 1]; }
      }
    }
  }

  /** A good field read and its dot passed: the verdict is that of the rest. */
  lemma VerdictStep(f: string, rest: seq<string>, before: nat)
    requires GoodField(f, before == 0) && before < 3 && |rest| >= 1 && rest != [[]]
    ensures Verdict([f] + rest, before) == Verdict(rest, before + 1)
  {
    GoodFieldsCons(f, rest, before);
    if |rest| >= 2 {
      var all := [f] + rest;
      assert all[..|all| - 2] == [f] + rest[..|rest| - 2];
      GoodFieldsCons(f, rest[..|rest| - 2], before);
    }
  }

  /** A field that is not good and is not the one before a trailing dot spoils the text. */
  lemma VerdictBadFirst(f: string, rest: seq<string>, before: nat)
    requires !GoodField(f, before == 0)
    requires rest == [[]] ==> !AllDigits(f)
    ensures Verdict([f] + rest, before) == NO_MATCH
  {
    GoodFieldsCons(f, rest, before);
    var all := [f] + rest;
    if |all| > 2 {
      GoodFieldsCons(f, rest[..|rest| - 2], before);
      assert all[..|all| - 2] == [f] + rest[..|rest| - 2];
    }
  }

  lemma VerdictLast(f: string, before: nat)
    requires GoodField(f, before == 0) && before <= 3
    ensures Verdict([f], before) == if before < 3 then PARTLY_MATCH else EXACT_MATCH
  {}

  /** Two dots in a row. */
  lemma VerdictEmptySecond(f: string, rest: seq<string>, before: nat)
    requires |rest| >= 2 && rest[0] == []
    ensures Verdict([f] + rest, before) == NO_MATCH
  {
    var all := [f] + rest;
    assert !GoodField(all[1], before + 1 == 0);
    if |all| > 3 {
      assert !GoodField(all[..|all| - 2][1], before + 1 == 0);
    }
  }

  // ---------- The scans ----------

  method CmdIpv4Match(str: string) returns (r: MatchType)
    ensures r == Ipv4Match(str)
  {
    hide Verdict, Fields;
    var i, dots, nums := 0, 0, 0;
    assert str[0..] == str;
    while true
      invariant i <= |str| && dots == nums <= 3
      invariant nums > 0 ==> i < |str| && str[i] != '.'
      invariant Ipv4Match(str) == Verdict(Fields(str[i..]), nums)
      decreases |str| - i
    {
      var sp := i;
      while i < |str|
        invariant sp <= i <= |str|
        invariant forall k :: sp <= k < i ==> IsDigit(str[k])
      {
        if str[i] == '.' {
          FieldAtDot(str, sp, i, nums);
          if dots >= 3 { return NO_MATCH; }
          if i + 1 < |str| && str[i + 1] == '.' { return NO_MATCH; }
          if i + 1 == |str| { return PARTLY_MATCH; }
          dots := dots + 1;
          break;
        }
        if !IsDigit(str[i]) {
          NonDigitField(str, sp, i, nums);
          return NO_MATCH;
        }
        i := i + 1;
      }
      FieldRead(str, sp, i, nums);
      if i - sp > 3 { return NO_MATCH; }
      if DigitsValue(str[sp..i]) > 255 { return NO_MATCH; }
      nums := nums + 1;
      if i == |str| { break; }
      i := i + 1;
    }
    if nums < 4 { return PARTLY_MATCH; }
    return EXACT_MATCH;
  }

  /** utils.c's second implementation of the same scan. */
  method BadIpAddress(str: string) returns (r: int)
    ensures r == if Ipv4Match(str) == EXACT_MATCH then 0 else -1
  {
    hide Verdict, Fields;
    var i, dots, nums := 0, 0, 0;
    assert str[0..] == str;
    while true
      invariant i <= |str| && dots == nums <= 3
      invariant nums > 0 ==> i < |str| && str[i] != '.'
      invariant Ipv4Match(str) == Verdict(Fields(str[i..]), nums)
      decreases |str| - i
    {
      var sp := i;
      while i < |str|
        invariant sp <= i <= |str|
        invariant forall k :: sp <= k < i ==> IsDigit(str[k])
      {
        if str[i] == '.' {
          FieldAtDot(str, sp, i, nums);
          if dots >= 3 { return -1; }
          if i + 1 < |str| && str[i + 1] == '.' { return -1; }
          if i + 1 == |str| { return -1; }
          dots := dots + 1;
          break;
        }
        if !IsDigit(str[i]) {
          NonDigitField(str, sp, i, nums);
          return -1;
        }
        i := i + 1;
      }
      FieldRead(str, sp, i, nums);
      if i - sp > 3 { return -1; }
      if DigitsValue(str[sp..i]) > 255 { return -1; }
      nums := nums + 1;
      if i == |str| { break; }
      i := i + 1;
    }
    if nums < 4 { return -1; }
    return 0;
  }

  // ---------- One field of either scan ----------

  lemma SplitAtDot(str: string, sp: nat, i: nat)
    requires sp <= i < |str| && str[i] == '.' && forall k :: sp <= k < i ==> IsDigit(str[k])
    ensures Fields(str[sp..]) == [str[sp..i]] + Fields(str[i + 1..])
    ensures i + 1 < |str| ==> Fields(str[i + 1..]) != [[]]
  {
    var rest := str[sp..];
    FirstField(rest, i - sp);
    assert rest[..i - sp] == str[sp..i] && rest[i - sp + 1..] == str[i + 1..];
  }

  /** The scan stops at a dot: the three ways it can answer there. */
  lemma FieldAtDot(str: string, sp: nat, i: nat, before: nat)
    requires sp <= i < |str| && str[i] == '.' && forall k :: sp <= k < i ==> IsDigit(str[k])
    requires before <= 3 && (before > 0 ==> str[sp] != '.')
    ensures before == 3 ==> Verdict(Fields(str[sp..]), before) == NO_MATCH
    ensures i + 1 < |str| && str[i + 1] == '.' ==> Verdict(Fields(str[sp..]), before) == NO_MATCH
    ensures i + 1 == |str| && before < 3 ==> Verdict(Fields(str[sp..]), before) == PARTLY_MATCH
  {
    SplitAtDot(str, sp, i);
    var f, rest := str[sp..i], Fields(str[i + 1..]);
    if i + 1 == |str| {
      assert str[i + 1..] == "";
      assert sp < i ==> f[0] == str[sp];
      if before < 3 { VerdictTrailing(f, before); }
    } else if str[i + 1] == '.' {
      FirstField(str[i + 1..], 0);
      VerdictEmptySecond(f, rest, before);
    }
  }

  /** The scan leaves a field of digits, at the end of the text or at a dot it accepted. */
  lemma FieldRead(str: string, sp: nat, i: nat, before: nat)
    requires sp <= i <= |str| && forall k :: sp <= k < i ==> IsDigit(str[k])
    requires before <= 3 && (before > 0 ==> sp < |str| && str[sp] != '.')
    requires i < |str| ==> str[i] == '.' && i + 1 < |str| && str[i + 1] != '.' && before < 3
    ensures AllDigits(str[sp..i])
    ensures !(i - sp <= 3 && DigitsValue(str[sp..i]) <= 255) ==> Verdict(Fields(str[sp..]), before) == NO_MATCH
    ensures i - sp <= 3 && DigitsValue(str[sp..i]) <= 255 ==>
      Verdict(Fields(str[sp..]), before)
      == if i < |str| then Verdict(Fields(str[i + 1..]), before + 1)
         else if before < 3 then PARTLY_MATCH else EXACT_MATCH
  {
    var f := str[sp..i];
    var rest := if i < |str| then Fields(str[i + 1..]) else [];
    if i < |str| {
      SplitAtDot(str, sp, i);
    } else {
      FirstField(str[sp..], i - sp);
      assert str[sp..] == f && Fields(f) == [f] + rest;
    }
    assert sp < i ==> f[0] == str[sp];
    if !GoodField(f, before == 0) {
      VerdictBadFirst(f, rest, before);
    } else if i < |str| {
      VerdictStep(f, rest, before);
    } else {
      VerdictLast(f, before);
    }
  }

  lemma VerdictTrailing(f: string, before: nat)
    requires AllDigits(f) && before < 3 && (before == 0 || f != [])
    ensures Verdict([f] + Fields(""), before) == PARTLY_MATCH
  {
    var all := [f] + [[]];
    assert Fields("") == [[]];
    assert TrailingDot(all, before);
    assert !GoodField(all[1], before + 1 == 0);
  }

  lemma NonDigitField(str: string, sp: nat, i: nat, before: nat)
    requires sp <= i < |str| && !IsDigit(str[i]) && str[i] != '.'
    requires forall k :: sp <= k < i ==> IsDigit(str[k])
    ensures Verdict(Fields(str[sp..]), before) == NO_MATCH
  {
    var rest := str[sp..];
    var n := SpanLength(rest, NotDot);
    assert forall k :: 0 <= k <= i - sp ==> rest[k] == str[sp + k];
    var f := rest[..n];
    assert f[i - sp] == str[i] && f[i - sp] in f;
    FirstField(rest, n);
    if n == |rest| { assert f == rest; assert [f] + [] == Fields(rest); }
    VerdictBadFirst(f, if n == |rest| then [] else Fields(rest[n + 1..]), before);
  }

  // ---------- What the three answers mean ----------

  /** Some continuation of the text is a complete address. */
  ghost predicate Viable(s: string) {
    exists t :: Ipv4Match(s + t) == EXACT_MATCH
  }

  /** The text ends in a dot and the field before that dot is one the scan would reject. */
  predicate BadFieldBeforeTrailingDot(s: string) {
    var f := Fields(s);
    |f| >= 2 && f[|f| - 1] == [] && !GoodField(f[|f| - 2], |f| == 2)
  }

  /** Splitting a text that continues: the last field grows, the others stay. */
  lemma {:induction false} FieldsOfConcat(s: string, t: string)
    ensures var f, g := Fields(s), Fields(t);
      Fields(s + t) == f[..|f| - 1] + [f[|f| - 1] + g[0]] + g[1..]
    decreases |s|
  {
    hide Fields;
    var n, m := SpanLength(s, NotDot), SpanLength(t, NotDot);
    FirstField(s, n);
    FirstField(t, m);
    var st := s + t;
    if n == |s| {
      FirstField(st, |s| + m);
      if m < |t| {
        assert st[..|s| + m] == s + t[..m] && st[|s| + m + 1..] == t[m + 1..];
      }
    } else {
      var rest := s[n + 1..];
      FieldsOfConcat(rest, t);
      FirstField(st, n);
      assert st[..n] == s[..n] && st[n + 1..] == rest + t;
      var r := Fields(rest);
      assert Fields(s)[..|r|] == [s[..n]] + r[..|r| - 1];
    }
  }

  lemma {:induction false} DigitsValueOfPrefix(s: string, n: nat)
    requires AllDigits(s) && n <= |s|
    ensures AllDigits(s[..n]) && DigitsValue(s[..n]) <= DigitsValue(s)
    decreases |s|
  {
    if n < |s| {
      var front := s[..|s| - 1];
      DigitsValueOfPrefix(front, n);
      assert front[..n] == s[..n];
      assert DigitsValue(s) == DigitsValue(front) * 10 + DigitValue(s[|s| - 1]);
    } else {
      assert s[..n] == s;
    }
  }

  function Zeros(k: nat): (f: seq<string>)
    ensures |f| == k && forall i :: 0 <= i < k ==> f[i] == "0"
  {
    if k == 0 then [] else ["0"] + Zeros(k - 1)
  }

  function ZeroFields(k: nat): string {
    if k == 0 then "" else ".0" + ZeroFields(k - 1)
  }

  lemma {:induction false} FieldsOfZeroFields(k: nat)
    ensures Fields(ZeroFields(k)) == [""] + Zeros(k)
    ensures Fields("0" + ZeroFields(k)) == Zeros(k + 1)
  {
    hide Fields;
    var z := ZeroFields(k);
    FirstField(z, 0);
    if k > 0 {
      FieldsOfZeroFields(k - 1);
      assert z[1..] == "0" + ZeroFields(k - 1);
    }
    FieldsOfConcat("0", z);
    FirstField("0", 1);
    assert Fields("0") == ["0"] && Fields(z)[1..] == Zeros(k);
    assert "0" + "" == "0";
    assert ["0"][..0] == [];
    assert Fields("0" + z) == ["0"] + Zeros(k);
  }

  /** EXACT is precisely four fields of at most three digits and at most 255, of which only
      the first may be empty. */
  lemma ExactIsDottedQuad(s: string)
    ensures Ipv4Match(s) == EXACT_MATCH <==>
      |Fields(s)| == 4 && GoodField(Fields(s)[0], true)
      && forall k :: 1 <= k < 4 ==> GoodField(Fields(s)[k], false)
  {
    var f := Fields(s);
    assert GoodFields(f, 0) <==> forall k :: 0 <= k < |f| ==> GoodField(f[k], k == 0);
  }

  /** The same with the limits written out: an address is four runs of digits between dots, none of
      more than three digits or above 255, of which only the first may be empty. */
  lemma QuadExactly(s: string)
    ensures Ipv4Match(s) == EXACT_MATCH <==>
      |Fields(s)| == 4 && Fields(s)[1] != "" && Fields(s)[2] != "" && Fields(s)[3] != ""
      && forall k :: 0 <= k < 4 ==>
        (forall c :: c in Fields(s)[k] ==> 48 <= c as int <= 57) && |Fields(s)[k]| <= 3 && DigitsValue(Fields(s)[k]) <= 255
  {
    hide Fields, DigitsValue;
    ExactIsDottedQuad(s);
    hide Ipv4Match;
    forall k | 0 <= k < |Fields(s)| ensures AllDigits(Fields(s)[k]) <==> forall c :: c in Fields(s)[k] ==> 48 <= c as int <= 57 {
      DigitCodes(Fields(s)[k]);
    }
  }

  /** A prefix of an address is never answered with "no match". */
  lemma ViableIsNotNoMatch(s: string, t: string)
    requires Ipv4Match(s + t) == EXACT_MATCH
    ensures Ipv4Match(s) != NO_MATCH && !BadFieldBeforeTrailingDot(s)
  {
    hide Fields;
    var f, g, all := Fields(s), Fields(t), Fields(s + t);
    FieldsOfConcat(s, t);
    var n := |f|;
    forall k | 0 <= k < n - 1 ensures GoodField(f[k], k == 0) {
      assert all[k] == f[k] && GoodField(all[k], k == 0);
    }
    var last := f[n - 1];
    assert all[n - 1] == last + g[0];
    assert GoodField(all[n - 1], n == 1);
    DigitsValueOfPrefix(all[n - 1], |last|);
    assert all[n - 1][..|last|] == last;
    if GoodField(last, n == 1) {
      assert GoodFields(f, 0);
    } else {
      assert last == [] && n >= 2;
      assert forall k :: 0 <= k < n - 2 ==> f[..n - 2][k] == f[k];
      assert TrailingDot(f, 0);
    }
  }

  /** A text that is not rejected can be completed, unless a bad field precedes its final dot. */
  lemma NotNoMatchIsViable(s: string)
    requires Ipv4Match(s) != NO_MATCH && !BadFieldBeforeTrailingDot(s)
    ensures Viable(s)
  {
    hide Fields, ZeroFields, Zeros, DigitsValue, AllDigits;
    var f := Fields(s);
    var n := |f|;
    var t := if GoodFields(f, 0) then ZeroFields(4 - n) else "0" + ZeroFields(4 - n);
    FieldsAfterPadding(s, t, 4 - n);
    var all := Fields(s + t);
    var last := if GoodFields(f, 0) then f[n - 1] else "0";
    assert all == f[..n - 1] + [last] + Zeros(4 - n) by {
      hide Fields, Ipv4Match, GoodFields;
      assert f[n - 1] + "" == f[n - 1];
      if !GoodFields(f, 0) {
        assert t[0] == '0';
        assert f[n - 1] + "0" == "0";
      }
    }
    PaddedIsGood(f, last, 4 - n);
    assert Ipv4Match(s + t) == EXACT_MATCH;
  }

  lemma PaddedIsGood(f: seq<string>, last: string, k: nat)
    requires |f| >= 1
    requires (GoodFields(f, 0) && last == f[|f| - 1]) || (TrailingDot(f, 0) && GoodField(f[|f| - 2], |f| == 2) && last == "0")
    ensures GoodFields(f[..|f| - 1] + [last] + Zeros(k), 0)
  {
    ZeroIsGood();
    var n := |f|;
    forall i | 0 <= i < n - 1 ensures GoodField(f[i], i == 0) {
      assert GoodFields(f, 0) || i == n - 2 || f[..n - 2][i] == f[i];
    }
  }

  lemma FieldsAfterPadding(s: string, t: string, k: nat)
    requires t == ZeroFields(k) || t == "0" + ZeroFields(k)
    ensures var f := Fields(s);
      Fields(s + t) == f[..|f| - 1] + [f[|f| - 1] + if t == ZeroFields(k) then "" else "0"] + Zeros(k)
  {
    hide Fields;
    FieldsOfConcat(s, t);
    FieldsOfZeroFields(k);
    assert Fields(ZeroFields(k))[1..] == Zeros(k);
    assert Zeros(k + 1)[1..] == Zeros(k);
  }

  lemma ZeroIsGood()
    ensures GoodField("0", false)
  {
    assert "0"[..0] == "";
  }

  /** Main result: exactly which texts can still become an address. */
  lemma ViableExactly(s: string)
    ensures Viable(s) <==> Ipv4Match(s) != NO_MATCH && !BadFieldBeforeTrailingDot(s)
  {
    if Viable(s) {
      var t :| Ipv4Match(s + t) == EXACT_MATCH;
      ViableIsNotNoMatch(s, t);
    }
    if Ipv4Match(s) != NO_MATCH && !BadFieldBeforeTrailingDot(s) {
      NotNoMatchIsViable(s);
    }
  }

  /** The exception in `ViableExactly` is real: "999." is answered with "partly". */
  lemma PartlyMayBeHopeless()
    ensures Ipv4Match("999.") == PARTLY_MATCH && !Viable("999.")
  {
    var s := "999.";
    FirstField(s, 3);
    assert s[..3] == "999" && s[4..] == "";
    FirstField("", 0);
    assert Fields(s) == ["999", ""];
    assert "999"[..2] == "99" && "99"[..1] == "9" && "9"[..0] == "";
    assert DigitsValue("999") == 999;
    VerdictTrailing("999", 0);
    ViableExactly(s);
  }
}
