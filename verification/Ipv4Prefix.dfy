/** cmd_ipv4_prefix_match of command.c. */
module Ipv4Prefix {
  import opened CText
  import opened MatchTypes
  import opened Ipv4

  predicate NotSeparator(c: char) { c != '.' && c != '/' }

  /** The mask that follows the address. */
  function MaskMatch(mask: string): MatchType {
    if AllDigits(mask) && Atoi(mask) <= 32 then EXACT_MATCH else NO_MATCH
  }

  /** The answer for a text starting at a field, `dots` dots having been passed.
      While fewer than three dots have been passed a '/' only separates fields. */
  function PrefixScan(s: string, dots: nat): (r: MatchType)
    ensures r == NO_MATCH || r == PARTLY_MATCH || r == EXACT_MATCH
    decreases |s|
  {
    var n := SpanLength(s, NotSeparator);
    var field := s[..n];
    if !AllDigits(field) then NO_MATCH
    else if n < |s| && s[n] == '.' && (dots >= 3 || (n + 1 < |s| && !NotSeparator(s[n + 1]))) then NO_MATCH
    else if n < |s| && s[n] == '.' && n + 1 == |s| then PARTLY_MATCH
    else if n > 3 || DigitsValue(field) > 255 then NO_MATCH
    else if n == |s| then PARTLY_MATCH
    else if s[n] == '.' then PrefixScan(s[n + 1..], dots + 1)
    else if dots < 3 then PrefixScan(s[n + 1..], dots)
    else if n + 1 == |s| then PARTLY_MATCH
    else MaskMatch(s[n + 1..])
  }

  function Ipv4PrefixMatch(s: string): (r: MatchType)
    ensures r == NO_MATCH || r == PARTLY_MATCH || r == EXACT_MATCH
  {
    PrefixScan(s, 0)
  }

  // ---------- The scan ----------

  method CmdIpv4PrefixMatch(str: string) returns (r: MatchType)
    ensures r == Ipv4PrefixMatch(str)
  {
    hide PrefixScan;
    var i, dots := 0, 0;
    assert str[0..] == str;
    while true
      invariant i <= |str| && dots <= 3
      invariant Ipv4PrefixMatch(str) == PrefixScan(str[i..], dots)
      decreases |str| - i
    {
      var sp := i;
      ghost var passed := dots;
      while i < |str| && str[i] != '/'
        invariant sp <= i <= |str| && dots == passed
        invariant forall k :: sp <= k < i ==> IsDigit(str[k])
      {
        if str[i] == '.' {
          ScanFieldAt(str, sp, i, dots);
          if dots == 3 { return NO_MATCH; }
          if i + 1 < |str| && (str[i + 1] == '.' || str[i + 1] == '/') { return NO_MATCH; }
          if i + 1 == |str| { return PARTLY_MATCH; }
          dots := dots + 1;
          break;
        }
        if !IsDigit(str[i]) {
          NonDigitAt(str, sp, i, dots);
          return NO_MATCH;
        }
        i := i + 1;
      }
      ScanFieldAt(str, sp, i, passed);
      if i - sp > 3 { return NO_MATCH; }
      if DigitsValue(str[sp..i]) > 255 { return NO_MATCH; }
      if dots == 3 {
        if i < |str| && str[i] == '/' {
          if i + 1 == |str| { return PARTLY_MATCH; }
          i := i + 1;
          break;
        } else if i == |str| {
          return PARTLY_MATCH;
        }
      }
      if i == |str| { return PARTLY_MATCH; }
      i := i + 1;
    }
    assert Ipv4PrefixMatch(str) == MaskMatch(str[i..]);
    var sp := i;
    while i < |str|
      invariant sp <= i <= |str|
      invariant forall k :: sp <= k < i ==> IsDigit(str[k])
    {
      if !IsDigit(str[i]) {
        assert str[i] in str[sp..];
        return NO_MATCH;
      }
      i := i + 1;
    }
    assert AllDigits(str[sp..]);
    if Atoi(str[sp..]) > 32 { return NO_MATCH; }
    return EXACT_MATCH;
  }

  /** What one field contributes to the answer; `n` is where its separator or the end is. */
  lemma ScanOneField(s: string, n: nat, dots: nat)
    requires n <= |s| && forall k :: 0 <= k < n ==> NotSeparator(s[k])
    requires n < |s| ==> !NotSeparator(s[n])
    ensures !AllDigits(s[..n]) ==> PrefixScan(s, dots) == NO_MATCH
    ensures AllDigits(s[..n]) && n < |s| && s[n] == '.' ==>
      && (dots >= 3 ==> PrefixScan(s, dots) == NO_MATCH)
      && (n + 1 < |s| && !NotSeparator(s[n + 1]) ==> PrefixScan(s, dots) == NO_MATCH)
      && (n + 1 == |s| && dots < 3 ==> PrefixScan(s, dots) == PARTLY_MATCH)
    ensures AllDigits(s[..n]) && (n < |s| && s[n] == '.' ==> n + 1 < |s| && NotSeparator(s[n + 1]) && dots < 3) ==>
      PrefixScan(s, dots)
      == if n > 3 || DigitsValue(s[..n]) > 255 then NO_MATCH
         else if n == |s| then PARTLY_MATCH
         else if s[n] == '.' then PrefixScan(s[n + 1..], dots + 1)
         else if dots < 3 then PrefixScan(s[n + 1..], dots)
         else if n + 1 == |s| then PARTLY_MATCH
         else MaskMatch(s[n + 1..])
  {
    assert SpanLength(s, NotSeparator) == n;
  }

  /** `ScanOneField` for the field of `str` that starts at `sp` and ends at `i`. */
  lemma ScanFieldAt(str: string, sp: nat, i: nat, dots: nat)
    requires sp <= i <= |str| && forall k :: sp <= k < i ==> IsDigit(str[k])
    requires i < |str| ==> str[i] == '.' || str[i] == '/'
    ensures AllDigits(str[sp..i])
    ensures i < |str| && str[i] == '.' ==>
      && (dots >= 3 ==> PrefixScan(str[sp..], dots) == NO_MATCH)
      && (i + 1 < |str| && !NotSeparator(str[i + 1]) ==> PrefixScan(str[sp..], dots) == NO_MATCH)
      && (i + 1 == |str| && dots < 3 ==> PrefixScan(str[sp..], dots) == PARTLY_MATCH)
    ensures (i < |str| && str[i] == '.' ==> i + 1 < |str| && NotSeparator(str[i + 1]) && dots < 3) ==>
      PrefixScan(str[sp..], dots)
      == if i - sp > 3 || DigitsValue(str[sp..i]) > 255 then NO_MATCH
         else if i == |str| then PARTLY_MATCH
         else if str[i] == '.' then PrefixScan(str[i + 1..], dots + 1)
         else if dots < 3 then PrefixScan(str[i + 1..], dots)
         else if i + 1 == |str| then PARTLY_MATCH
         else MaskMatch(str[i + 1..])
  {
    hide PrefixScan;
    var rest, n := str[sp..], i - sp;
    assert rest[..n] == str[sp..i];
    assert i < |str| ==> rest[n + 1..] == str[i + 1..];
    assert forall k :: 0 <= k < |rest| ==> rest[k] == str[sp + k];
    ScanOneField(rest, n, dots);
  }

  lemma NonDigitAt(str: string, sp: nat, i: nat, dots: nat)
    requires sp <= i < |str| && forall k :: sp <= k < i ==> IsDigit(str[k])
    requires !IsDigit(str[i]) && NotSeparator(str[i])
    ensures PrefixScan(str[sp..], dots) == NO_MATCH
  {
    hide PrefixScan;
    var rest := str[sp..];
    assert forall k :: 0 <= k <= i - sp ==> rest[k] == str[sp + k];
    var n := SpanLength(rest, NotSeparator);
    assert rest[..n][i - sp] == str[i];
    ScanOneField(rest, n, dots);
  }

  // ---------- The accepted language ----------

  lemma {:induction false} ScanWithoutSlash(s: string, dots: nat)
    requires '/' !in s
    ensures PrefixScan(s, dots) != EXACT_MATCH
    decreases |s|
  {
    var n := SpanLength(s, NotSeparator);
    if n < |s| {
      assert s[n] in s && s[n] == '.';
      ScanWithoutSlash(s[n + 1..], dots + 1);
    }
  }

  lemma {:induction false} ScanOfOneSlash(a: string, mask: string, dots: nat)
    requires '/' !in a && '/' !in mask && dots <= 3
    requires dots > 0 ==> a != "" && a[0] != '.'
    ensures PrefixScan(a + "/" + mask, dots) == EXACT_MATCH
      <==> Verdict(Fields(a), dots) == EXACT_MATCH && mask != "" && MaskMatch(mask) == EXACT_MATCH
    decreases |a|
  {
    hide PrefixScan, Fields, Verdict;
    var s := a + "/" + mask;
    assert a[0..] == a;
    var n := SpanLength(a, NotDot);
    forall k | 0 <= k < n ensures NotSeparator(s[k]) { assert s[k] == a[k] && a[k] in a; }
    assert s[n] == if n < |a| then '.' else '/';
    assert s[..n] == a[..n];
    ScanOneField(s, n, dots);
    if !AllDigits(a[..n]) {
      FirstField(a, n);
      VerdictBadFirst(a[..n], if n == |a| then [] else Fields(a[n + 1..]), dots);
      assert a[..n] == a || n < |a|;
      assert [a] + [] == [a];
    } else {
      assert forall k :: 0 <= k < n ==> a[k] in a[..n];
      var rest := s[n + 1..];
      if n == |a| {
        assert rest == mask;
        FieldRead(a, 0, n, dots);
        if dots < 3 { ScanWithoutSlash(mask, dots); }
      } else {
        var tail := a[n + 1..];
        assert rest == tail + "/" + mask;
        assert tail != "" ==> s[n + 1] == tail[0] && tail[0] in a;
        assert tail == "" ==> s[n + 1] == '/';
        FieldAtDot(a, 0, n, dots);
        if dots < 3 && tail != "" && tail[0] != '.' {
          FieldRead(a, 0, n, dots);
          assert '/' !in tail;
          ScanOfOneSlash(tail, mask, dots + 1);
        }
      }
    }
  }

  /** Main result: a text with exactly one '/' is a prefix exactly when what precedes it is an
      address by `cmd_ipv4_match` and what follows is digits that atoi() reads as at most 32. */
  lemma OneSlashExactly(a: string, mask: string)
    requires '/' !in a && '/' !in mask
    ensures Ipv4PrefixMatch(a + "/" + mask) == EXACT_MATCH <==>
      Ipv4Match(a) == EXACT_MATCH && mask != "" && AllDigits(mask) && Atoi(mask) <= 32
  {
    ScanOfOneSlash(a, mask, 0);
  }

  /** A mask length above 32 that an int holds as at most 32, possibly as a negative number. */
  predicate MaskWraps(mask: string) {
    AllDigits(mask) && DigitsValue(mask) > 32
    && (DigitsValue(mask) >= 9223372036854775807
        || DigitsValue(mask) % 4294967296 <= 32 || DigitsValue(mask) % 4294967296 >= 2147483648)
  }

  /** A mask length from 0 to 32. */
  predicate IsMaskLength(mask: string) {
    mask != "" && AllDigits(mask) && DigitsValue(mask) <= 32
  }

  /** Main result: exactly when a text with one '/' is treated as it is meant to be, an address
      and a mask length from 0 to 32: unless a mask length wraps. */
  lemma OneSlashAsMeant(a: string, mask: string)
    requires '/' !in a && '/' !in mask
    ensures (Ipv4PrefixMatch(a + "/" + mask) == EXACT_MATCH <==> Ipv4Match(a) == EXACT_MATCH && IsMaskLength(mask))
      <==> !(Ipv4Match(a) == EXACT_MATCH && mask != "" && MaskWraps(mask))
  {
    hide Ipv4PrefixMatch, Ipv4Match;
    OneSlashExactly(a, mask);
    hide DigitsValue;
  }

  /** The failing input: every address with the mask length 2147483648 is accepted as a prefix. */
  lemma HugeMaskAccepted(a: string, mask: string)
    requires Ipv4Match(a) == EXACT_MATCH && '/' !in a && mask == "2147483648"
    ensures DigitsValue(mask) == 2147483648 && Ipv4PrefixMatch(a + "/" + mask) == EXACT_MATCH
  {
    hide DigitsValue, Ipv4PrefixMatch, Ipv4Match, AllDigits;
    assert AllDigits("") && DigitsValue("") == 0 by { NoDigits(); }
    var five := "" + ['2'] + ['1'] + ['4'] + ['7'] + ['4'];
    FiveDigits("", '2', '1', '4', '7', '4');
    FiveDigits(five, '8', '3', '6', '4', '8');
    assert mask == five + ['8'] + ['3'] + ['6'] + ['4'] + ['8'];
    OneSlashExactly(a, mask);
  }

  // ---------- Any number of slashes ----------

  /** A field with the separator in front of it; '/' stands in front of the first. */
  datatype Cut = Cut(lead: char, field: string)

  function Cuts(a: string, lead: char): (c: seq<Cut>)
    ensures c != [] && c[0].lead == lead
    decreases |a|
  {
    var n := SpanLength(a, NotSeparator);
    if n == |a| then [Cut(lead, a)] else [Cut(lead, a[..n])] + Cuts(a[n + 1..], a[n])
  }

  function Dots(c: seq<Cut>): nat {
    if c == [] then 0 else (if c[0].lead == '.' then 1 else 0) + Dots(c[1..])
  }

  predicate GoodCuts(c: seq<Cut>) {
    forall k :: 0 <= k < |c| ==> GoodField(c[k].field, c[k].lead == '/')
  }

  /** What may precede the mask: cut at '.' and '/' it has three dots, no '/' after the third, and
      good fields, of which only one at the start or after a '/' may be empty. */
  predicate AddressPart(a: string) {
    var c := Cuts(a, '/');
    GoodCuts(c) && Dots(c) == 3 && c[|c| - 1].lead == '.'
  }

  /** The same for the fields still to come, `dots` dots having been passed. */
  predicate GoodRest(c: seq<Cut>, dots: nat)
    requires c != []
  {
    GoodCuts(c) && dots + Dots(c[1..]) == 3 && c[|c| - 1].lead == '.'
  }

  lemma GoodRestStep(first: Cut, rest: seq<Cut>, dots: nat)
    requires rest != []
    ensures GoodRest([first] + rest, dots) <==>
      GoodField(first.field, first.lead == '/') && GoodRest(rest, dots + if rest[0].lead == '.' then 1 else 0)
  {
    hide GoodField;
    var c := [first] + rest;
    assert c[1..] == rest;
    if GoodCuts(c) {
      forall k | 0 <= k < |rest| ensures GoodField(rest[k].field, rest[k].lead == '/') { assert c[k + 1] == rest[k]; }
      assert c[0] == first;
    }
  }

  lemma {:induction false} NoDotsLeft(c: seq<Cut>)
    requires c != [] && Dots(c) == 0
    ensures c[|c| - 1].lead != '.'
  {
    if |c| > 1 { NoDotsLeft(c[1..]); }
  }

  /** After the third dot only the mask may follow a '/'. */
  lemma NoFieldAfterThird(c: seq<Cut>)
    requires c != [] && c[0].lead == '/'
    ensures !GoodRest(c, 3)
  {
    if |c| > 1 && Dots(c[1..]) == 0 { NoDotsLeft(c[1..]); }
  }

  lemma CutsUnfold(a: string, lead: char, n: nat)
    requires n <= |a| && (forall k :: 0 <= k < n ==> NotSeparator(a[k])) && (n < |a| ==> !NotSeparator(a[n]))
    ensures Cuts(a, lead) == if n == |a| then [Cut(lead, a)] else [Cut(lead, a[..n])] + Cuts(a[n + 1..], a[n])
  {
    assert SpanLength(a, NotSeparator) == n;
  }

  lemma {:induction false} ScanExactly(a: string, mask: string, dots: nat, lead: char)
    requires '/' !in mask && dots <= 3 && (lead == '.' || (lead == '/' && dots < 3))
    requires lead == '.' ==> a != "" && NotSeparator(a[0])
    ensures PrefixScan(a + "/" + mask, dots) == EXACT_MATCH <==>
      mask != "" && MaskMatch(mask) == EXACT_MATCH && GoodRest(Cuts(a, lead), dots)
    decreases |a|
  {
    hide PrefixScan, MaskMatch, Cuts, GoodRest, GoodField, DigitsValue;
    var s := a + "/" + mask;
    var n := SpanLength(a, NotSeparator);
    assert s[n] == if n < |a| then a[n] else '/';
    assert s[..n] == a[..n] && forall k :: 0 <= k < n ==> s[k] == a[k];
    ScanOneField(s, n, dots);
    CutsUnfold(a, lead, n);
    FieldFits(a[..n], lead);
    var first := Cut(lead, a[..n]);
    if n == |a| {
      assert s[n + 1..] == mask && a[..n] == a;
      GoodRestLast(first, dots);
      ScanWithoutSlash(mask, dots);
    } else {
      var tail := a[n + 1..];
      assert s[n + 1..] == tail + "/" + mask;
      assert s[n + 1] == if tail == "" then '/' else tail[0];
      GoodRestStep(first, Cuts(tail, a[n]), dots);
      if a[n] == '/' {
        if dots < 3 {
          ScanExactly(tail, mask, dots, '/');
        } else {
          NoFieldAfterThird(Cuts(tail, '/'));
          SlashInMask(tail, mask);
        }
      } else if dots == 3 {
        TooManyDots(Cuts(tail, '.'), dots + 1);
      } else if tail != "" && NotSeparator(tail[0]) {
        ScanExactly(tail, mask, dots + 1, '.');
      } else {
        EmptyAfterDot(tail, dots + 1);
      }
    }
  }

  lemma FieldFits(f: string, lead: char)
    requires lead == '/' || f != ""
    ensures GoodField(f, lead == '/') <==> AllDigits(f) && |f| <= 3 && DigitsValue(f) <= 255
  {}

  lemma GoodRestLast(first: Cut, dots: nat)
    ensures GoodRest([first], dots) <==> GoodField(first.field, first.lead == '/') && dots == 3 && first.lead == '.'
  {
    hide GoodField;
    assert [first][0] == first;
  }

  lemma TooManyDots(c: seq<Cut>, dots: nat)
    requires c != [] && dots > 3
    ensures !GoodRest(c, dots)
  {}

  lemma EmptyAfterDot(tail: string, dots: nat)
    requires tail == "" || !NotSeparator(tail[0])
    ensures !GoodRest(Cuts(tail, '.'), dots)
  {
    CutsUnfold(tail, '.', 0);
    assert Cuts(tail, '.')[0] == Cut('.', "");
  }

  lemma SlashInMask(tail: string, mask: string)
    ensures MaskMatch(tail + "/" + mask) == NO_MATCH
  {
    var m := tail + "/" + mask;
    assert m[|tail|] == '/' && m[|tail|] in m;
  }

  /** The text is such an address part, a '/' and a mask. */
  predicate IsPrefixText(s: string, a: string, mask: string) {
    s == a + "/" + mask && '/' !in mask && mask != "" && AllDigits(mask) && Atoi(mask) <= 32 && AddressPart(a)
  }

  lemma {:induction false} LastSlash(s: string) returns (a: string, mask: string)
    requires '/' in s
    ensures s == a + "/" + mask && '/' !in mask
  {
    var n := |s| - 1;
    if s[n] == '/' {
      a, mask := s[..n], "";
    } else {
      assert s == s[..n] + [s[n]];
      a, mask := LastSlash(s[..n]);
      mask := mask + [s[n]];
    }
  }

  /** Main result: the language of the recogniser, for texts with any number of slashes. */
  lemma PrefixLanguage(s: string)
    ensures Ipv4PrefixMatch(s) == EXACT_MATCH <==> exists a, mask :: IsPrefixText(s, a, mask)
  {
    hide PrefixScan, AddressPart, DigitsValue, AllDigits, Atoi;
    if exists a, mask :: IsPrefixText(s, a, mask) {
      var a, mask :| IsPrefixText(s, a, mask);
      WholeScan(a, mask);
    }
    if Ipv4PrefixMatch(s) == EXACT_MATCH {
      if '/' !in s { ScanWithoutSlash(s, 0); }
      var a, mask := LastSlash(s);
      WholeScan(a, mask);
      assert IsPrefixText(s, a, mask);
    }
  }

  lemma WholeScan(a: string, mask: string)
    requires '/' !in mask
    ensures Ipv4PrefixMatch(a + "/" + mask) == EXACT_MATCH <==> IsPrefixText(a + "/" + mask, a, mask)
  {
    hide PrefixScan, Cuts, GoodCuts, DigitsValue;
    ScanExactly(a, mask, 0, '/');
    var c := Cuts(a, '/');
    assert Dots(c) == Dots(c[1..]);
  }

  /** With more than one '/' the scan accepts texts that hold no address. */
  lemma SlashSeparatesFields()
    ensures Ipv4PrefixMatch("1/2.3.4.5/8") == EXACT_MATCH
    ensures Ipv4Match("1/2.3.4.5") == NO_MATCH
  {
    hide PrefixScan, Fields, Verdict;
    var s, a := "1/2.3.4.5/8", "1/2.3.4.5";
    assert s[0..] == s && a[0..] == a;
    OneDigitField(s, 0, 0);
    assert s[2..] == "2.3.4.5/8";
    OneSlashTail();
    NonDigitField(a, 0, 1, 0);
  }

  lemma OneSlashTail()
    ensures PrefixScan("2.3.4.5/8", 0) == EXACT_MATCH
  {
    hide PrefixScan, Fields, Verdict;
    var s := "2.3.4.5/8";
    assert s[0..] == s;
    OneDigitField(s, 0, 0);
    OneDigitField(s, 2, 1);
    OneDigitField(s, 4, 2);
    OneDigitField(s, 6, 3);
    assert s[8..] == "8";
    OneDigit("8");
  }

  lemma OneDigitField(s: string, i: nat, dots: nat)
    requires i + 2 < |s| && IsDigit(s[i]) && (s[i + 1] == '/' || (s[i + 1] == '.' && NotSeparator(s[i + 2]) && dots < 3))
    ensures PrefixScan(s[i..], dots)
      == if s[i + 1] == '.' then PrefixScan(s[i + 2..], dots + 1)
         else if dots < 3 then PrefixScan(s[i + 2..], dots)
         else MaskMatch(s[i + 2..])
  {
    hide PrefixScan;
    ScanFieldAt(s, i, i + 1, dots);
    OneDigit(s[i..i + 1]);
  }

  lemma OneDigit(s: string)
    requires |s| == 1 && IsDigit(s[0])
    ensures AllDigits(s) && DigitsValue(s) <= 9
  {
    assert s[..0] == "";
  }

  // ---------- Which texts can still become a prefix ----------

  /** Some continuation of the text is accepted. */
  ghost predicate PrefixViable(s: string) {
    exists t :: Ipv4PrefixMatch(s + t) == EXACT_MATCH
  }

  /** A final dot after a field that the scan would reject. */
  predicate BadCuts(c: seq<Cut>) {
    |c| >= 2 && c[|c| - 1] == Cut('.', "") && !GoodField(c[|c| - 2].field, c[|c| - 2].lead == '/')
  }

  /** The text is an address part, a '/' and digits, whatever their value. */
  predicate HasMaskDigits(s: string, a: string, mask: string) {
    s == a + "/" + mask && AllDigits(mask) && AddressPart(a)
  }

  lemma BadCutsStep(first: Cut, rest: seq<Cut>)
    requires rest != []
    ensures |rest| >= 2 ==> (BadCuts([first] + rest) <==> BadCuts(rest))
    ensures |rest| == 1 ==> (BadCuts([first] + rest) <==> rest[0] == Cut('.', "") && !GoodField(first.field, first.lead == '/'))
  {
    hide GoodField;
  }

  lemma CutsContinue(s: string, u: string, lead: char, n: nat)
    requires n < |s| && (forall k :: 0 <= k < n ==> NotSeparator(s[k])) && !NotSeparator(s[n])
    ensures Cuts(s, lead) == [Cut(lead, s[..n])] + Cuts(s[n + 1..], s[n])
    ensures Cuts(s + u, lead) == [Cut(lead, s[..n])] + Cuts(s[n + 1..] + u, s[n])
  {
    hide Cuts;
    CutsUnfold(s, lead, n);
    CutsUnfold(s + u, lead, n);
    assert (s + u)[..n] == s[..n] && (s + u)[n + 1..] == s[n + 1..] + u;
  }

  /** A beginning of the first field. */
  lemma FirstCut(s: string, u: string, lead: char)
    requires forall k :: 0 <= k < |s| ==> NotSeparator(s[k])
    ensures s <= Cuts(s + u, lead)[0].field && Cuts(s, lead) == [Cut(lead, s)]
  {
    hide Cuts;
    CutsUnfold(s, lead, |s|);
    var n := SpanLength(s + u, NotSeparator);
    CutsUnfold(s + u, lead, n);
    assert forall k :: 0 <= k < |s| ==> (s + u)[k] == s[k];
    assert (s + u)[..n] == s + u[..n - |s|];
  }

  lemma BeginningFits(f: string, s: string, lead: char)
    requires GoodField(f, lead == '/') && s <= f
    ensures AllDigits(s) && |s| <= 3 && DigitsValue(s) <= 255
  {
    DigitsValueOfPrefix(f, |s|);
    assert f[..|s|] == s;
  }

  /** Every beginning of an address part is answered "partly", and no bad field precedes its final dot. */
  lemma {:induction false} PartOfAddress(s: string, u: string, dots: nat, lead: char)
    requires dots <= 3 && (lead == '.' || (lead == '/' && dots < 3))
    requires GoodRest(Cuts(s + u, lead), dots)
    ensures PrefixScan(s, dots) == PARTLY_MATCH && !BadCuts(Cuts(s, lead))
    decreases |s|
  {
    hide PrefixScan, Cuts, GoodRest, GoodField, DigitsValue, Dots;
    var n := SpanLength(s, NotSeparator);
    ScanOneField(s, n, dots);
    if n == |s| {
      FirstCut(s, u, lead);
      FirstIsGood(Cuts(s + u, lead), dots);
      BeginningFits(Cuts(s + u, lead)[0].field, s, lead);
      assert s[..n] == s;
    } else {
      CutsContinue(s, u, lead, n);
      var rest := s[n + 1..];
      GoodRestStep(Cut(lead, s[..n]), Cuts(rest + u, s[n]), dots);
      BeginningFits(s[..n], s[..n], lead);
      BadCutsStep(Cut(lead, s[..n]), Cuts(rest, s[n]));
      if s[n] == '/' {
        if dots == 3 { NoFieldAfterThird(Cuts(rest + u, '/')); assert false; }
        PartOfAddress(rest, u, dots, '/');
      } else {
        if dots == 3 { TooManyDots(Cuts(rest + u, '.'), dots + 1); assert false; }
        if rest != "" && !NotSeparator(rest[0]) { EmptyAfterDot(rest + u, dots + 1); assert false; }
        PartOfAddress(rest, u, dots + 1, '.');
      }
    }
  }

  lemma FirstIsGood(c: seq<Cut>, dots: nat)
    requires c != [] && GoodRest(c, dots)
    ensures GoodField(c[0].field, c[0].lead == '/')
  {
    hide GoodField;
  }

  /** The missing fields and a mask. */
  function Padding(fields: nat): string {
    if fields == 0 then "/0" else ".0" + Padding(fields - 1)
  }

  lemma {:induction false} PaddedScan(f: string, dots: nat)
    requires dots <= 3 && AllDigits(f) && |f| <= 3 && DigitsValue(f) <= 255
    ensures PrefixScan(f + Padding(3 - dots), dots) == EXACT_MATCH
    decreases 3 - dots
  {
    hide PrefixScan, DigitsValue;
    var s := f + Padding(3 - dots);
    assert s[..|f|] == f;
    assert forall k :: 0 <= k < |f| ==> s[k] in f;
    ScanOneField(s, |f|, dots);
    OneDigit("0");
    if dots == 3 {
      assert s[|f| + 1..] == "0";
    } else {
      PaddedScan("0", dots + 1);
      assert s[|f| + 1..] == "0" + Padding(3 - (dots + 1));
    }
  }

  /** A text answered "partly" can be completed, unless a bad field precedes its final dot. */
  lemma {:induction false} Completion(s: string, dots: nat, lead: char) returns (t: string)
    requires dots <= 3 && (lead == '.' || lead == '/')
    requires PrefixScan(s, dots) == PARTLY_MATCH && !BadCuts(Cuts(s, lead))
    ensures PrefixScan(s + t, dots) == EXACT_MATCH
    decreases |s|
  {
    hide PrefixScan, Cuts, DigitsValue, GoodField, BadCuts;
    var n := SpanLength(s, NotSeparator);
    ScanOneField(s, n, dots);
    if n == |s| {
      assert s[..n] == s;
      PaddedScan(s, dots);
      t := Padding(3 - dots);
    } else {
      var rest := s[n + 1..];
      CutsContinue(s, "", lead, n);
      BadCutsStep(Cut(lead, s[..n]), Cuts(rest, s[n]));
      if s[n] == '.' && rest == "" {
        CutsUnfold("", '.', 0);
        BeginningFits(s[..n], s[..n], lead);
        t := "0" + Padding(3 - (dots + 1));
        OneDigit("0");
        PaddedScan("0", dots + 1);
        assert (s + t)[n + 1] == '0' && rest + t == t;
      } else if s[n] == '.' {
        NotBadRest(rest, lead, s[..n], '.');
        t := Completion(rest, dots + 1, '.');
        assert (s + t)[n + 1] == s[n + 1];
      } else if dots < 3 {
        NotBadRest(rest, lead, s[..n], '/');
        t := Completion(rest, dots, '/');
        assert rest + t != "" by { NothingScanned(dots); }
      } else {
        t := "0";
        OneDigit("0");
        assert rest == "" && rest + t == t;
      }
      ScanContinues(s, t, n, dots);
    }
  }

  lemma NothingScanned(dots: nat)
    ensures PrefixScan("", dots) != EXACT_MATCH
  {}

  /** A field that ends within `s` is read in `s + t` as it is in `s`. */
  lemma ScanContinues(s: string, t: string, n: nat, dots: nat)
    requires n < |s| && (forall k :: 0 <= k < n ==> NotSeparator(s[k])) && !NotSeparator(s[n])
    requires AllDigits(s[..n]) && n <= 3 && DigitsValue(s[..n]) <= 255 && n + 1 < |s + t|
    requires s[n] == '.' ==> dots < 3 && NotSeparator((s + t)[n + 1])
    ensures PrefixScan(s + t, dots)
      == if s[n] == '.' then PrefixScan(s[n + 1..] + t, dots + 1)
         else if dots < 3 then PrefixScan(s[n + 1..] + t, dots)
         else MaskMatch(s[n + 1..] + t)
  {
    hide PrefixScan, DigitsValue, AllDigits, MaskMatch;
    assert (s + t)[..n] == s[..n] && (s + t)[n + 1..] == s[n + 1..] + t;
    ScanOneField(s + t, n, dots);
  }

  lemma NotBadRest(rest: string, lead: char, field: string, next: char)
    requires !BadCuts([Cut(lead, field)] + Cuts(rest, next))
    ensures !BadCuts(Cuts(rest, next))
  {
    hide Cuts, GoodField;
    if |Cuts(rest, next)| >= 2 { BadCutsStep(Cut(lead, field), Cuts(rest, next)); }
  }

  /** Whatever digits follow the address part, more digits make a mask that is accepted. */
  lemma MaskGrows(a: string, mask: string)
    requires AddressPart(a) && AllDigits(mask)
    ensures PrefixViable(a + "/" + mask)
  {
    hide AddressPart, DigitsValue, AllDigits;
    var five := mask + ['9'] + ['9'] + ['9'] + ['9'] + ['9'];
    var ten := five + ['9'] + ['9'] + ['9'] + ['9'] + ['9'];
    var fifteen := ten + ['9'] + ['9'] + ['9'] + ['9'] + ['9'];
    var whole := fifteen + ['9'] + ['9'] + ['9'] + ['9'] + ['9'];
    FiveDigits(mask, '9', '9', '9', '9', '9');
    FiveDigits(five, '9', '9', '9', '9', '9');
    FiveDigits(ten, '9', '9', '9', '9', '9');
    FiveDigits(fifteen, '9', '9', '9', '9', '9');
    NoSlash(whole);
    WholeScan(a, whole);
    var nines := "99999999999999999999";
    assert a + "/" + mask + nines == a + "/" + whole;
  }

  lemma NoSlash(mask: string)
    requires AllDigits(mask)
    ensures '/' !in mask
  {
    forall k | 0 <= k < |mask| ensures mask[k] != '/' {
      assert mask[k] in mask && IsDigit(mask[k]);
    }
  }

  /** Main result: exactly which texts can still become a prefix: those answered "partly" with no
      bad field before a final dot, and every address part with a '/' and digits, although most of
      these masks are refused as they stand. */
  lemma PrefixViableExactly(s: string)
    ensures PrefixViable(s) <==>
      (Ipv4PrefixMatch(s) == PARTLY_MATCH && !BadCuts(Cuts(s, '/'))) || (exists a, mask :: HasMaskDigits(s, a, mask))
  {
    hide PrefixScan, AddressPart, BadCuts, Cuts, DigitsValue, AllDigits, Atoi;
    if PrefixViable(s) {
      var t :| Ipv4PrefixMatch(s + t) == EXACT_MATCH;
      PrefixLanguage(s + t);
      var a, mask :| IsPrefixText(s + t, a, mask);
      if |s| <= |a| {
        BeginsAddress(s, t, a, mask);
      } else {
        BeginsMask(s, t, a, mask);
      }
    }
    if Ipv4PrefixMatch(s) == PARTLY_MATCH && !BadCuts(Cuts(s, '/')) {
      var t := Completion(s, 0, '/');
    }
    if exists a, mask :: HasMaskDigits(s, a, mask) {
      var a, mask :| HasMaskDigits(s, a, mask);
      MaskGrows(a, mask);
    }
  }

  lemma BeginsAddress(s: string, t: string, a: string, mask: string)
    requires s + t == a + "/" + mask && |s| <= |a| && AddressPart(a)
    ensures Ipv4PrefixMatch(s) == PARTLY_MATCH && !BadCuts(Cuts(s, '/'))
  {
    hide PrefixScan, Cuts, GoodCuts, DigitsValue, BadCuts;
    var u := a[|s|..];
    assert (s + t)[..|s|] == (a + "/" + mask)[..|s|];
    assert s + u == a;
    var c := Cuts(a, '/');
    assert Dots(c) == Dots(c[1..]);
    PartOfAddress(s, u, 0, '/');
  }

  lemma BeginsMask(s: string, t: string, a: string, mask: string)
    requires s + t == a + "/" + mask && |s| > |a| && AddressPart(a) && AllDigits(mask)
    ensures HasMaskDigits(s, a, s[|a| + 1..])
  {
    hide AddressPart;
    var whole := a + "/" + mask;
    assert s == whole[..|s|];
    var m := s[|a| + 1..];
    assert m == mask[..|m|];
    assert s == a + "/" + m;
  }

  /** A mask above 32 is refused, and yet the text can still become a prefix. */
  lemma RefusedButViable(a: string, mask: string)
    requires AddressPart(a) && AllDigits(mask) && Atoi(mask) > 32
    ensures Ipv4PrefixMatch(a + "/" + mask) != EXACT_MATCH && PrefixViable(a + "/" + mask)
  {
    hide AddressPart, DigitsValue, AllDigits, Atoi, Ipv4PrefixMatch;
    NoSlash(mask);
    WholeScan(a, mask);
    MaskGrows(a, mask);
  }

  /** The failing input: every accepted address part followed by /33. */
  lemma ThirtyThree(a: string, mask: string)
    requires AddressPart(a) && mask == "33"
    ensures Ipv4PrefixMatch(a + "/" + mask) != EXACT_MATCH && PrefixViable(a + "/" + mask)
  {
    hide AddressPart, DigitsValue, AllDigits, Ipv4PrefixMatch;
    NoDigits();
    DigitsStep("", '3');
    DigitsStep("" + ['3'], '3');
    assert "" + ['3'] + ['3'] == mask;
    RefusedButViable(a, mask);
  }
}
