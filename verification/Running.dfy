/** Which command a line runs, and with which words, in terms of the texts of the specifications
    and of the line alone. */
module Running {
  import opened Options
  import opened Seqs
  import opened MatchTypes
  import opened Ranges
  import opened Ipv4
  import opened Ipv4Prefix
  import opened Ipv6
  import opened Ipv6Prefix
  import opened Commands
  import opened CText
  import Expansion
  import StrictEngine

  // ---------- Alternatives by their texts ----------

  predicate Begins(alt: string, c: char) {
    alt != "" && alt[0] == c
  }

  predicate BeginsUpper(alt: string) {
    alt != "" && 'A' <= alt[0] <= 'Z'
  }

  /** A literal word. */
  predicate Literal(alt: string) {
    !Begins(alt, '[') && !Begins(alt, '<') && !Begins(alt, '.') && !BeginsUpper(alt)
  }

  /** Accepted by a recogniser; a part of an address is enough for the abbreviated engine. */
  predicate Taken(mode: Mode, r: MatchType) {
    r == EXACT_MATCH || (r == PARTLY_MATCH && mode.Abbreviated?)
  }

  /** How an alternative ranks for a word: 0 when it rejects the word, else the higher the more
      specific it is. */
  function Rank(mode: Mode, word: string, alt: string): nat {
    if Literal(alt) then if word == alt then 9 else if mode.Abbreviated? && word <= alt then 8 else 0
    else if Begins(alt, '.') then 7
    else if Begins(alt, '<') then if RangeMatch(alt, word) then 6 else 0
    else if alt == "X:X::X:X" then if Taken(mode, Ipv6Match(word)) then 5 else 0
    else if alt == "X:X::X:X/M" then if Taken(mode, Ipv6PrefixMatch(word)) then 4 else 0
    else if alt == "A.B.C.D" then if Taken(mode, Ipv4Match(word)) then 3 else 0
    else if alt == "A.B.C.D/M" then if Taken(mode, Ipv4PrefixMatch(word)) then 2 else 0
    else 1
  }

  /** The match types are these ranks: a word in full comes before its abbreviations, these before
      a '.', a range, the addresses and prefixes, and last any other variable or option, which
      accepts every word. */
  lemma ScoreIsRank(mode: Mode, word: string, alt: string)
    ensures Score(mode, word, alt) == Rank(mode, word, alt)
    ensures IsKeyword(alt) <==> Literal(alt)
  {}

  /** Exactly which alternatives accept every word, in either engine: those that begin with '.' or
      '[', and those that begin with a capital letter but are no address. */
  lemma AcceptsEveryWordExactly(mode: Mode, alt: string)
    ensures (forall word: string :: Score(mode, word, alt) != NO_MATCH) <==>
      Begins(alt, '.') || Begins(alt, '[')
      || (BeginsUpper(alt) && alt !in {"X:X::X:X", "X:X::X:X/M", "A.B.C.D", "A.B.C.D/M"})
  {
    hide Ipv6Match, Ipv6PrefixMatch, Ipv4Match, Ipv4PrefixMatch, RangeMatch;
    var other := alt + "!";
    assert alt <= other && other != alt && !(other <= alt);
    Refused(other, alt);
    assert Score(mode, other, alt) == Rank(mode, other, alt) by { ScoreIsRank(mode, other, alt); }
    forall word: string ensures Score(mode, word, alt) == Rank(mode, word, alt) { ScoreIsRank(mode, word, alt); }
    hide Score;
  }

  lemma Refused(word: string, alt: string)
    requires word == alt + "!"
    ensures alt in {"X:X::X:X", "X:X::X:X/M"} ==> Ipv6Match(word) == NO_MATCH && Ipv6PrefixMatch(word) == NO_MATCH
    ensures alt in {"A.B.C.D", "A.B.C.D/M"} ==> Ipv4Match(word) == NO_MATCH && Ipv4PrefixMatch(word) == NO_MATCH
    ensures Begins(alt, '<') ==> !RangeMatch(alt, word)
  {
    hide Ipv4Match, Ipv4PrefixMatch, RangeMatch;
    assert word[|alt|] == '!' && !IsAddressChar('!');
    assert !OnlyPrefixChars(word) && !OnlyAddressChars(word);
    if Begins(alt, '<') { NoNumber(alt, word); }
    if alt in {"A.B.C.D", "A.B.C.D/M"} { NoAddress(word); }
  }

  lemma NoNumber(range: string, word: string)
    requires word != "" && word[0] == '<'
    ensures !RangeMatch(range, word)
  {
    hide Bound;
    assert SpanLength(word, IsSpace) == 0 && word[0..] == word;
    assert word[0] in word;
  }

  lemma NoAddress(word: string)
    requires word != "" && word[0] == 'A'
    ensures Ipv4Match(word) == NO_MATCH && Ipv4PrefixMatch(word) == NO_MATCH
  {
    hide Ipv4.Fields, Verdict, PrefixScan;
    var n, m := SpanLength(word, NotDot), SpanLength(word, NotSeparator);
    assert word[0] in word[..n] && word[0] in word[..m];
    FirstField(word, n);
    VerdictBadFirst(word[..n], if n == |word| then [] else Ipv4.Fields(word[n + 1..]), 0);
    assert [word[..n]] + [] == [word[..n]] && (n == |word| ==> word[..n] == word);
    ScanOneField(word, m, 0);
  }

  // ---------- The arguments ----------

  predicate LoneDot(slots: seq<Slot>, j: nat) {
    j < |slots| && |slots[j]| == 1 && Begins(slots[j][0].cmd, '.')
  }

  /** Word `i` is handed to the command: a lone '.' alternative stands at its place or before, or its
      slot offers a choice, a variable, a range or an option. */
  predicate Handed(slots: seq<Slot>, i: nat) {
    || (exists j :: 0 <= j <= i && LoneDot(slots, j))
    || (i < |slots| && |slots[i]| != 1)
    || (i < |slots| && |slots[i]| == 1
        && (BeginsUpper(slots[i][0].cmd) || Begins(slots[i][0].cmd, '<') || Begins(slots[i][0].cmd, '[')))
  }

  /** `p` lists the places, below `count`, of the words that are handed over. */
  ghost predicate Places(slots: seq<Slot>, count: nat, p: seq<nat>) {
    Ascending(p) && forall k: nat :: k in p <==> k < count && Handed(slots, k)
  }

  /** Every word has a slot, or a lone '.' takes those that have none. */
  predicate InBounds(slots: seq<Slot>, count: nat) {
    count <= |slots| || exists j :: 0 <= j < |slots| && LoneDot(slots, j)
  }

  function WordsAt(words: seq<string>, p: seq<nat>): (r: seq<string>)
    requires forall i :: 0 <= i < |p| ==> p[i] < |words|
    ensures |r| == |p| && forall i :: 0 <= i < |r| ==> r[i] == words[p[i]]
  {
    seq(|p|, i requires 0 <= i < |p| => words[p[i]])
  }

  lemma HandedIsArgument(slots: seq<Slot>, i: nat)
    ensures Handed(slots, i) <==> IsArgument(slots, i)
  {
    forall j: nat ensures LoneDot(slots, j) <==> LoneVararg(slots, j) {}
    if VarargBefore(slots, i + 1) {
      var j :| 0 <= j < i + 1 && LoneVararg(slots, j);
      assert j <= i && LoneDot(slots, j);
    }
    if j :| 0 <= j <= i && LoneDot(slots, j) {
      assert j < i + 1 && LoneVararg(slots, j);
    }
  }

  lemma PlacesArePositions(slots: seq<Slot>, count: nat, p: seq<nat>)
    requires Places(slots, count, p)
    ensures p == Positions(slots, count)
  {
    hide Positions, Handed;
    var q := Positions(slots, count);
    forall k: nat ensures k in p <==> k in q {
      HandedIsArgument(slots, k);
      if k in q { var i :| 0 <= i < |q| && q[i] == k; }
    }
    OneList(p, q);
  }

  lemma BoundsExactly(slots: seq<Slot>, count: nat)
    ensures InBounds(slots, count) <==> count <= |slots| || VarargBefore(slots, |slots|)
  {
    forall j: nat ensures LoneDot(slots, j) <==> LoneVararg(slots, j) {}
    if j :| 0 <= j < |slots| && LoneDot(slots, j) {
      assert LoneVararg(slots, j);
    }
  }

  /** Main result: what becomes of a selected command. Read within its slots, it runs with exactly
      the words handed over when these are at most 24, and is refused when they are more; read past
      its slots, it is refused only if 25 words had been handed over by then. */
  lemma SelectedRunsExactly(mode: Mode, table: Table, words: seq<string>, e: Element, p: seq<nat>, q: seq<nat>)
    requires Select(Narrow(mode, words, table, 0)) == Chosen(e)
    requires Places(e.slots, |words|, p) && Places(e.slots, |e.slots|, q)
    ensures forall i :: 0 <= i < |p| ==> p[i] < |words|
    ensures Execute(mode, table, words) ==
      if InBounds(e.slots, |words|) then if |p| <= 24 then Run(e, WordsAt(words, p)) else ErrExceedArgcMax
      else if |q| <= 24 then Overrun else ErrExceedArgcMax
  {
    hide Positions, Narrow, Handed, InBounds, Choose;
    PlacesArePositions(e.slots, |words|, p);
    PlacesArePositions(e.slots, |e.slots|, q);
    BoundsExactly(e.slots, |words|);
    assert |words| > |e.slots| ==> |p| >= |q| by {
      if |words| > |e.slots| { Longer(e.slots, |e.slots|, |words|); }
    }
    assert WordsAt(words, p) == Arguments(e.slots, words);
  }

  lemma {:induction false} Longer(slots: seq<Slot>, m: nat, n: nat)
    requires m <= n
    ensures |Positions(slots, m)| <= |Positions(slots, n)|
    decreases n
  {
    hide IsArgument;
    if m < n { Longer(slots, m, n - 1); }
  }

  // ---------- Lines of keywords ----------

  /** The first `n` words stand, in full, in the slots of the entry. */
  predicate Spelled(x: Option<Element>, words: seq<string>, n: nat)
    requires n <= |words|
  {
    x.Some? && forall i :: 0 <= i < n ==> Expansion.HasText(SlotAt(x, i), words[i])
  }

  /** The entry spells the whole line and needs no more words. */
  predicate Ready(x: Option<Element>, words: seq<string>) {
    Spelled(x, words, |words|) && |words| >= x.value.cmdsize
  }

  predicate OnlyReady(table: Table, words: seq<string>, k: nat) {
    k < |table| && Ready(table[k], words) && forall j :: 0 <= j < |table| && j != k ==> !Ready(table[j], words)
  }

  function SpelledTable(table: Table, words: seq<string>, n: nat): (r: Table)
    requires n <= |words|
    ensures |r| == |table|
  {
    seq(|table|, k requires 0 <= k < |table| => if Spelled(table[k], words, n) then table[k] else None)
  }

  lemma SpelledOnce(x: Option<Element>, words: seq<string>, n: nat)
    requires n < |words|
    ensures Spelled(x, words, n + 1) <==> Spelled(x, words, n) && Expansion.HasText(SlotAt(x, n), words[n])
  {
    hide Expansion.HasText, SlotAt;
  }

  lemma SpelledStep(mode: Mode, table: Table, words: seq<string>, n: nat, k0: nat)
    requires n < |words| && Literal(words[n]) && k0 < |table| && Spelled(table[k0], words, n + 1)
    ensures var t := SpelledTable(table, words, n);
      && Best(mode, words[n], t, n) == EXACT_MATCH && Expansion.Verdict(mode, words[n], t, n) == Clear
      && Expansion.Next(mode, words[n], t, n) == SpelledTable(table, words, n + 1)
  {
    hide Best, Expansion.Verdict, Expansion.Next, Spelled, Expansion.HasText, SlotAt;
    var t := SpelledTable(table, words, n);
    ScoreIsRank(mode, words[n], words[n]);
    SpelledOnce(table[k0], words, n);
    assert t[k0] == table[k0];
    Expansion.KeywordKeeps(mode, words[n], t, n);
    StrictEngine.NextLength(mode, words[n], t, n);
    forall k | 0 <= k < |table|
      ensures Expansion.Next(mode, words[n], t, n)[k] == SpelledTable(table, words, n + 1)[k]
    {
      SpelledOnce(table[k], words, n);
      if !Spelled(table[k], words, n) { NoText(n, words[n]); }
    }
  }

  lemma NoText(index: nat, text: string)
    ensures !Expansion.HasText(SlotAt(None, index), text)
  {}

  lemma {:induction false} SpelledNarrows(mode: Mode, table: Table, words: seq<string>, n: nat, k0: nat)
    requires n <= |words| && (forall i :: 0 <= i < |words| ==> Literal(words[i]))
    requires k0 < |table| && Spelled(table[k0], words, |words|)
    ensures Narrow(mode, words[n..], SpelledTable(table, words, n), n)
      == Narrowed(SpelledTable(table, words, |words|), |words|, false)
    decreases |words| - n
  {
    hide Best, Expansion.Verdict, Expansion.Next, Spelled, Literal;
    if n < |words| {
      assert Spelled(table[k0], words, n + 1) by { SpelledLess(table[k0], words, n + 1); }
      SpelledStep(mode, table, words, n, k0);
      StrictEngine.NarrowGo(mode, words[n..], SpelledTable(table, words, n), n);
      assert words[n..][1..] == words[n + 1..];
      SpelledNarrows(mode, table, words, n + 1, k0);
    } else {
      assert words[n..] == [];
    }
  }

  lemma SpelledLess(x: Option<Element>, words: seq<string>, n: nat)
    requires n <= |words| && Spelled(x, words, |words|)
    ensures Spelled(x, words, n)
  {}

  /** Main result for lines of keywords that some command spells, in either engine: the line is
      incomplete when every command that spells it needs more words, runs the only one that needs
      none, and is ambiguous when there are several. */
  lemma KeywordLineExactly(mode: Mode, table: Table, words: seq<string>, k0: nat)
    requires forall i :: 0 <= i < |words| ==> Literal(words[i])
    requires k0 < |table| && Spelled(table[k0], words, |words|)
    ensures (forall k :: 0 <= k < |table| ==> !Ready(table[k], words)) ==> Execute(mode, table, words) == ErrIncomplete
    ensures (exists j, k :: 0 <= j < k < |table| && Ready(table[j], words) && Ready(table[k], words)) ==>
      Execute(mode, table, words) == ErrAmbiguous
    ensures forall k :: 0 <= k < |table| && OnlyReady(table, words, k) ==>
        Select(Narrow(mode, words, table, 0)) == Chosen(table[k].value) && InBounds(table[k].value.slots, |words|)
  {
    hide Narrow, Spelled, Literal, Extract;
    var live := SpelledTable(table, words, |words|);
    SpelledNarrows(mode, table, words, 0, k0);
    AllSpelled(mode, table, words, k0);
    assert live[k0].Some? by { SpelledSome(table[k0], words); }
    forall k | 0 <= k < |table| ensures Complete(live[k], |words|, false) <==> Ready(table[k], words) {
      if Spelled(table[k], words, |words|) { SpelledSome(table[k], words); }
    }
    forall k | 0 <= k < |table| && OnlyReady(table, words, k)
      ensures Select(Narrow(mode, words, table, 0)) == Chosen(table[k].value)
      ensures InBounds(table[k].value.slots, |words|)
    {
      assert OnlyComplete(live, |words|, false, k);
      EnoughSpelled(table[k], words);
    }
    if j, k :| 0 <= j < k < |table| && Ready(table[j], words) && Ready(table[k], words) {
      assert Complete(live[j], |words|, false) && Complete(live[k], |words|, false);
    }
  }

  lemma SpelledSome(x: Option<Element>, words: seq<string>)
    requires Spelled(x, words, |words|)
    ensures x.Some?
  {}

  lemma EnoughSpelled(x: Option<Element>, words: seq<string>)
    requires Ready(x, words)
    ensures InBounds(x.value.slots, |words|)
  {
    if words != [] { assert Expansion.HasText(SlotAt(x, |words| - 1), words[|words| - 1]); }
  }

  /** Before the first word the live entries are those of the table. */
  lemma AllSpelled(mode: Mode, table: Table, words: seq<string>, k0: nat)
    requires k0 < |table|
    ensures SpelledTable(table, words, 0) == table && words[0..] == words
  {
    forall k | 0 <= k < |table| ensures SpelledTable(table, words, 0)[k] == table[k] {}
  }

  // ---------- One word, any table ----------

  /** The greatest rank of an alternative at the place of the word. */
  predicate Greatest(mode: Mode, word: string, table: Table, index: nat, hi: nat) {
    && (forall k, d :: 0 <= k < |table| && d in SlotAt(table[k], index) ==> Rank(mode, word, d.cmd) <= hi)
    && (hi == 0 || exists k, d :: 0 <= k < |table| && d in SlotAt(table[k], index) && Rank(mode, word, d.cmd) == hi)
  }

  /** The entry has an alternative for the word. */
  predicate Admits(mode: Mode, word: string, x: Option<Element>, index: nat) {
    exists d :: d in SlotAt(x, index) && Rank(mode, word, d.cmd) > 0
  }

  /** The alternatives that count when `hi` is the greatest rank: those of that rank; but every one
      when that is a prefix or a plain variable, and every one that reads as a range when that is a range. */
  predicate Counts(mode: Mode, word: string, alt: string, hi: nat) {
    if hi == 1 || hi == 2 || hi == 4 then true else if hi == 6 then RangeMatch(alt, word) else Rank(mode, word, alt) == hi
  }

  predicate Keeps(mode: Mode, word: string, x: Option<Element>, index: nat, hi: nat) {
    Admits(mode, word, x, index) && exists d :: d in SlotAt(x, index) && Counts(mode, word, d.cmd, hi)
  }

  /** The text counts in some entry that has an alternative for the word. */
  predicate CountedText(mode: Mode, word: string, table: Table, index: nat, hi: nat, text: string) {
    exists k, d :: 0 <= k < |table| && Admits(mode, word, table[k], index)
      && d in SlotAt(table[k], index) && d.cmd == text && Counts(mode, word, text, hi)
  }

  ghost predicate TwoTexts(mode: Mode, word: string, table: Table, index: nat, hi: nat) {
    exists a, b :: CountedText(mode, word, table, index, hi, a) && CountedText(mode, word, table, index, hi, b) && a != b
  }

  /** The word is only a part of a prefix, and that is its best reading. */
  predicate PartOfPrefix(word: string, hi: nat) {
    (hi == 4 && Ipv6PrefixMatch(word) == PARTLY_MATCH) || (hi == 2 && Ipv4PrefixMatch(word) == PARTLY_MATCH)
  }

  lemma AdmitsIsAccepts(mode: Mode, word: string, x: Option<Element>, index: nat)
    ensures Admits(mode, word, x, index) <==> Accepts(mode, word, SlotAt(x, index))
    ensures Admits(mode, word, x, index) ==> x.Some?
  {
    hide Rank, Score;
    forall d: Desc ensures Score(mode, word, d.cmd) == Rank(mode, word, d.cmd) { ScoreIsRank(mode, word, d.cmd); }
  }

  lemma BestIsGreatest(mode: Mode, word: string, table: Table, index: nat, hi: MatchType)
    requires Greatest(mode, word, table, index, hi)
    ensures Best(mode, word, table, index) == hi
  {
    hide Rank, Score, Best;
    forall d: Desc ensures Score(mode, word, d.cmd) == Rank(mode, word, d.cmd) { ScoreIsRank(mode, word, d.cmd); }
    if hi != 0 {
      var k, d :| 0 <= k < |table| && d in SlotAt(table[k], index) && Rank(mode, word, d.cmd) == hi;
      assert Scores(mode, word, table, index, hi);
    }
    Expansion.BestIs(mode, word, table, index, hi);
  }

  /** The ambiguity pass counts an alternative as a hit exactly when it counts here. */
  lemma HitCounts(mode: Mode, word: string, alt: string, hi: MatchType, best: string)
    requires word != "" && hi > 1 && hi != 7 && Rank(mode, word, best) == hi && Rank(mode, word, alt) <= hi
    ensures Hit(hi, word, alt) <==> Counts(mode, word, alt, hi)
  {
    if hi >= 8 { assert Literal(best) && word[0] == best[0]; }
  }

  lemma RankBounds(mode: Mode, word: string, alt: string)
    ensures Rank(mode, word, alt) <= 9
  {}

  /** What each entry's hits are, after the filter. */
  lemma KeptHits(mode: Mode, word: string, table: Table, index: nat, hi: MatchType, k: nat)
    requires word != "" && hi > 1 && hi != 7 && Greatest(mode, word, table, index, hi) && k < |table|
    ensures var kept := Filter(mode, word, table, index);
      && |kept| == |table| && kept[k] == (if Admits(mode, word, table[k], index) then table[k] else None)
      && (forall d :: d in SlotAt(table[k], index) ==> (Hit(hi, word, d.cmd) <==> Counts(mode, word, d.cmd, hi)))
  {
    hide Rank, Score, Hit, Counts, Filter;
    StrictEngine.FilterAt(mode, word, table, index, k);
    AdmitsIsAccepts(mode, word, table[k], index);
    var j, best :| 0 <= j < |table| && best in SlotAt(table[j], index) && Rank(mode, word, best.cmd) == hi;
    forall d | d in SlotAt(table[k], index) ensures Hit(hi, word, d.cmd) <==> Counts(mode, word, d.cmd, hi) {
      HitCounts(mode, word, d.cmd, hi, best.cmd);
    }
  }

  lemma TextHits(mode: Mode, word: string, table: Table, index: nat, hi: MatchType, text: string)
    requires word != "" && hi > 1 && hi != 7 && Greatest(mode, word, table, index, hi)
    ensures HitText(hi, word, Filter(mode, word, table, index), index, text)
      <==> CountedText(mode, word, table, index, hi, text)
  {
    hide Greatest, Hit, Counts, Filter, Admits, SlotAt;
    var kept := Filter(mode, word, table, index);
    forall k: nat | k < |table|
      ensures |kept| == |table| && kept[k] == (if Admits(mode, word, table[k], index) then table[k] else None)
      ensures forall d :: d in SlotAt(table[k], index) ==> (Hit(hi, word, d.cmd) <==> Counts(mode, word, d.cmd, hi))
    {
      KeptHits(mode, word, table, index, hi, k);
    }
    if |table| == 0 { assert |kept| == 0 by { FilterLength(mode, word, table, index); } }
    NoSlot(index);
    if k, d :| 0 <= k < |kept| && d in SlotAt(kept[k], index) && d.cmd == text && Hit(hi, word, text) {
      assert kept[k] == table[k];
    }
    if CountedText(mode, word, table, index, hi, text) {
      var k, d :| 0 <= k < |table| && Admits(mode, word, table[k], index)
        && d in SlotAt(table[k], index) && d.cmd == text && Counts(mode, word, text, hi);
      assert kept[k] == table[k];
    }
  }

  lemma FilterLength(mode: Mode, word: string, table: Table, index: nat)
    ensures |Filter(mode, word, table, index)| == |table|
  {
    hide Filter;
  }

  lemma NoSlot(index: nat)
    ensures SlotAt(None, index) == []
  {}

  lemma EntryKept(mode: Mode, word: string, table: Table, index: nat, hi: MatchType, k: nat)
    requires word != "" && hi != 0 && hi != 7 && Greatest(mode, word, table, index, hi) && k < |table|
    ensures |Expansion.Next(mode, word, table, index)| == |table|
    ensures Expansion.Next(mode, word, table, index)[k] == if Keeps(mode, word, table[k], index, hi) then table[k] else None
  {
    hide Greatest, Hit, Counts, Filter, Best, Admits, Expansion.Next, Accepts;
    StrictEngine.NextLength(mode, word, table, index);
    StrictEngine.NextAt(mode, word, table, index, k);
    BestIsGreatest(mode, word, table, index, hi);
    AdmitsIsAccepts(mode, word, table[k], index);
    if hi > 1 {
      KeptHits(mode, word, table, index, hi, k);
    } else if Admits(mode, word, table[k], index) {
      PlainHits(mode, word, table, index, k);
    }
    NotKept(mode, word, table[k], index, hi);
  }

  lemma NotKept(mode: Mode, word: string, x: Option<Element>, index: nat, hi: nat)
    ensures Keeps(mode, word, x, index, hi) ==> Admits(mode, word, x, index)
  {}

  lemma PlainHits(mode: Mode, word: string, table: Table, index: nat, k: nat)
    requires Greatest(mode, word, table, index, 1) && k < |table| && Admits(mode, word, table[k], index)
    ensures HasHit(EXTEND_MATCH, word, SlotAt(table[k], index)) && Keeps(mode, word, table[k], index, 1)
  {
    hide Rank;
    var d :| d in SlotAt(table[k], index) && Rank(mode, word, d.cmd) > 0;
    PlainHit(mode, word, d.cmd);
    assert Counts(mode, word, d.cmd, 1);
  }

  lemma PlainHit(mode: Mode, word: string, alt: string)
    requires Rank(mode, word, alt) == 1
    ensures Hit(EXTEND_MATCH, word, alt)
  {}

  lemma VerdictExactly(mode: Mode, word: string, table: Table, index: nat, hi: MatchType)
    requires word != "" && hi != 7 && Greatest(mode, word, table, index, hi)
    ensures Expansion.Verdict(mode, word, table, index) ==
      if (hi == 8 || hi == 6) && TwoTexts(mode, word, table, index, hi) then Clash
      else if PartOfPrefix(word, hi) then Partial
      else Clear
  {
    hide Greatest, Best, Filter, HitText, CountedText;
    BestIsGreatest(mode, word, table, index, hi);
    if hi == 0 {
      StrictEngine.NoMatchClear(mode, word, table, index);
    } else if hi == 1 {
      StrictEngine.ExtendClear(mode, word, table, index);
    } else {
      forall text: string
        ensures HitText(hi, word, Filter(mode, word, table, index), index, text)
          <==> CountedText(mode, word, table, index, hi, text)
      {
        TextHits(mode, word, table, index, hi, text);
      }
      SomeAlternative(mode, word, table, index, hi);
    }
  }

  lemma SomeAlternative(mode: Mode, word: string, table: Table, index: nat, hi: MatchType)
    requires hi != 0 && Greatest(mode, word, table, index, hi)
    ensures AnyAlternative(Filter(mode, word, table, index), index)
  {
    hide Rank, Filter;
    var k, d :| 0 <= k < |table| && d in SlotAt(table[k], index) && Rank(mode, word, d.cmd) == hi;
    assert Admits(mode, word, table[k], index);
    AdmitsIsAccepts(mode, word, table[k], index);
    StrictEngine.FilterAt(mode, word, table, index, k);
    assert SlotAt(Filter(mode, word, table, index)[k], index) != [];
  }

  /** Main result on one word, for every table: with no alternative that accepts it every command is
      dropped; a '.' as the best alternative ends the loop; two different abbreviated words, or ranges,
      are ambiguous; a part of a prefix is no match; and else the commands are kept that have an
      alternative for the word and one that counts. */
  lemma WordExactly(mode: Mode, word: string, table: Table, index: nat, hi: nat)
    requires word != "" && Greatest(mode, word, table, index, hi)
    ensures hi <= 9 && var n := Narrow(mode, [word], table, index);
      if hi == 7 then
        n.Narrowed? && n.vararg && n.index == index && |n.table| == |table|
        && forall k :: 0 <= k < |table| ==> n.table[k] == if Admits(mode, word, table[k], index) then table[k] else None
      else if (hi == 8 || hi == 6) && TwoTexts(mode, word, table, index, hi) then n == Failed(ErrAmbiguous)
      else if PartOfPrefix(word, hi) then n == Failed(ErrNoMatch)
      else
        n.Narrowed? && !n.vararg && n.index == index + 1 && |n.table| == |table|
        && forall k :: 0 <= k < |table| ==>
          n.table[k] == if hi != 0 && Keeps(mode, word, table[k], index, hi) then table[k] else None
  {
    hide Rank, Greatest, Filter, Best, Survivors, Commands.Ambiguous, Keeps, TwoTexts, PartOfPrefix, Admits;
    AtMostNine(mode, word, table, index, hi);
    BestIsGreatest(mode, word, table, index, hi);
    assert [word][1..] == [];
    FilterLength(mode, word, table, index);
    if hi == 7 {
      forall k | 0 <= k < |table|
        ensures Filter(mode, word, table, index)[k] == if Admits(mode, word, table[k], index) then table[k] else None
      {
        AdmitsIsAccepts(mode, word, table[k], index);
        StrictEngine.FilterAt(mode, word, table, index, k);
      }
    } else {
      VerdictExactly(mode, word, table, index, hi);
      StrictEngine.NextLength(mode, word, table, index);
      forall k | 0 <= k < |table|
        ensures Expansion.Next(mode, word, table, index)[k]
          == if hi != 0 && Keeps(mode, word, table[k], index, hi) then table[k] else None
      {
        if hi == 0 {
          NothingAdmitted(mode, word, table, index, k);
          StrictEngine.NextAt(mode, word, table, index, k);
        } else {
          EntryKept(mode, word, table, index, hi, k);
        }
      }
    }
  }

  lemma NothingAdmitted(mode: Mode, word: string, table: Table, index: nat, k: nat)
    requires Greatest(mode, word, table, index, 0) && k < |table|
    ensures !Accepts(mode, word, SlotAt(table[k], index))
  {
    hide Rank, Accepts;
    AdmitsIsAccepts(mode, word, table[k], index);
  }

  lemma AtMostNine(mode: Mode, word: string, table: Table, index: nat, hi: nat)
    requires Greatest(mode, word, table, index, hi)
    ensures hi <= 9
  {
    hide Rank;
    if hi != 0 {
      var k, d :| 0 <= k < |table| && d in SlotAt(table[k], index) && Rank(mode, word, d.cmd) == hi;
      RankBounds(mode, word, d.cmd);
    }
  }

  // ---------- One command ----------

  /** No slot offers a choice. */
  predicate Single(e: Element) {
    forall i :: 0 <= i < |e.slots| ==> |e.slots[i]| == 1
  }

  /** The alternative accepts the word, and not as a part of a prefix. */
  predicate FitsWord(mode: Mode, word: string, alt: string) {
    Rank(mode, word, alt) > 0 && !PartOfPrefix(word, Rank(mode, word, alt))
  }

  /** The first `n` words fit the slots, none of which is a '.'. */
  predicate FitsUpTo(mode: Mode, e: Element, words: seq<string>, n: nat)
    requires Single(e)
  {
    n <= |words| && n <= |e.slots|
    && forall i :: 0 <= i < n ==> !Begins(e.slots[i][0].cmd, '.') && FitsWord(mode, words[i], e.slots[i][0].cmd)
  }

  /** The words before slot `m` fit, and it is a '.', which takes this word and all others. */
  predicate DotReached(mode: Mode, e: Element, words: seq<string>, m: nat)
    requires Single(e)
  {
    m < |words| && m < |e.slots| && FitsUpTo(mode, e, words, m) && Begins(e.slots[m][0].cmd, '.')
  }

  lemma AloneGreatest(mode: Mode, word: string, e: Element, i: nat)
    requires Single(e)
    ensures Greatest(mode, word, [Some(e)], i, if i < |e.slots| then Rank(mode, word, e.slots[i][0].cmd) else 0)
    ensures i < |e.slots| ==> e.slots[i][0] in SlotAt(Some(e), i)
  {
    hide Rank;
    var table: Table := [Some(e)];
    if i < |e.slots| {
      assert e.slots[i] == [e.slots[i][0]];
      assert e.slots[i][0] in SlotAt(table[0], i);
    }
  }

  lemma AloneAdmits(mode: Mode, word: string, e: Element, i: nat)
    requires Single(e) && i < |e.slots|
    ensures Admits(mode, word, Some(e), i) <==> Rank(mode, word, e.slots[i][0].cmd) > 0
  {
    hide Rank;
    assert e.slots[i][0] in SlotAt(Some(e), i);
  }

  lemma AloneKeeps(mode: Mode, word: string, e: Element, i: nat)
    requires Single(e) && i < |e.slots| && Rank(mode, word, e.slots[i][0].cmd) > 0
    ensures Keeps(mode, word, Some(e), i, Rank(mode, word, e.slots[i][0].cmd))
  {
    var d := e.slots[i][0];
    assert d in SlotAt(Some(e), i);
    AloneCounts(mode, word, d.cmd);
    hide Rank, Counts;
    AloneAdmits(mode, word, e, i);
  }

  lemma AloneCounts(mode: Mode, word: string, alt: string)
    requires Rank(mode, word, alt) > 0
    ensures Counts(mode, word, alt, Rank(mode, word, alt))
  {}

  lemma AloneTexts(mode: Mode, word: string, e: Element, i: nat, hi: nat)
    requires Single(e) && i < |e.slots|
    ensures !TwoTexts(mode, word, [Some(e)], i, hi)
  {
    hide Rank, Counts, Admits;
    forall text: string | CountedText(mode, word, [Some(e)], i, hi, text) ensures text == e.slots[i][0].cmd {
      var table: Table := [Some(e)];
      var k, d :| 0 <= k < |table| && Admits(mode, word, table[k], i) && d in SlotAt(table[k], i)
        && d.cmd == text && Counts(mode, word, text, hi);
      assert SlotAt(table[k], i) == [e.slots[i][0]];
    }
  }

  lemma RankSeven(mode: Mode, word: string, alt: string)
    ensures Rank(mode, word, alt) == 7 <==> Begins(alt, '.')
    ensures PartOfPrefix(word, 7) == PartOfPrefix(word, 0) == false
  {}

  lemma AloneStep(mode: Mode, word: string, e: Element, i: nat)
    requires Single(e) && word != ""
    ensures i >= |e.slots| || !(Begins(e.slots[i][0].cmd, '.') || FitsWord(mode, word, e.slots[i][0].cmd)) ==>
      StrictEngine.StepOf(mode, word, [Some(e)], i) == StrictEngine.Fail(ErrNoMatch)
    ensures i < |e.slots| && Begins(e.slots[i][0].cmd, '.') ==>
      StrictEngine.StepOf(mode, word, [Some(e)], i) == StrictEngine.Stop([Some(e)])
    ensures i < |e.slots| && !Begins(e.slots[i][0].cmd, '.') && FitsWord(mode, word, e.slots[i][0].cmd) ==>
      StrictEngine.StepOf(mode, word, [Some(e)], i) == StrictEngine.Go([Some(e)])
  {
    hide Rank, Greatest, Best, Filter, Expansion.Next, Expansion.Verdict, TwoTexts, PartOfPrefix, StrictEngine.Dead, Keeps, Admits;
    var table: Table := [Some(e)];
    var hi := if i < |e.slots| then Rank(mode, word, e.slots[i][0].cmd) else 0;
    AloneGreatest(mode, word, e, i);
    AtMostNine(mode, word, table, i, hi);
    BestIsGreatest(mode, word, table, i, hi);
    StrictEngine.NextAt(mode, word, table, i, 0);
    StrictEngine.FilterAt(mode, word, table, i, 0);
    AdmitsIsAccepts(mode, word, table[0], i);
    if i < |e.slots| {
      RankSeven(mode, word, e.slots[i][0].cmd);
      AloneAdmits(mode, word, e, i);
      AloneTexts(mode, word, e, i, hi);
    } else {
      RankSeven(mode, word, "");
    }
    if hi == 7 {
      assert Filter(mode, word, table, i) == table;
    } else {
      VerdictExactly(mode, word, table, i, hi);
      if hi == 0 {
        NothingAdmitted(mode, word, table, i, 0);
        DeadTable();
      } else {
        AloneKeeps(mode, word, e, i);
        EntryKept(mode, word, table, i, hi, 0);
        assert Expansion.Next(mode, word, table, i) == table;
        LiveTable(e);
      }
    }
  }

  lemma DeadTable()
    ensures forall t: Table :: |t| == 1 && t[0].None? ==> StrictEngine.Dead(t)
  {}

  lemma LiveTable(e: Element)
    ensures !StrictEngine.Dead([Some(e)])
  {
    assert [Some(e)][0].Some?;
  }

  lemma {:induction false} AloneSelects(mode: Mode, e: Element, words: seq<string>, i: nat)
    requires Single(e) && FitsUpTo(mode, e, words, i) && forall k :: 0 <= k < |words| ==> words[k] != ""
    ensures Select(Narrow(mode, words[i..], [Some(e)], i)) ==
      if exists m :: i <= m < |words| && DotReached(mode, e, words, m) then Chosen(e)
      else if FitsUpTo(mode, e, words, |words|) then
        if |words| >= e.cmdsize then Chosen(e) else Choice.Rejected(ErrIncomplete)
      else Choice.Rejected(ErrNoMatch)
    decreases |words| - i
  {
    hide Begins, FitsWord, StrictEngine.StepOf, Narrow, StrictEngine.Dead, Choose;
    if i == |words| {
      assert words[i..] == [];
      EmptyNarrow(mode, [Some(e)], i);
      ChooseOne(e, i, false);
    } else {
      AloneStep(mode, words[i], e, i);
      assert words[i..][0] == words[i] && words[i..][1..] == words[i + 1..];
      StrictEngine.NarrowByStep(mode, words[i..], [Some(e)], i);
      ChooseOne(e, i, true);
      if FitsUpTo(mode, e, words, i + 1) {
        AloneSelects(mode, e, words, i + 1);
      } else if i < |e.slots| && Begins(e.slots[i][0].cmd, '.') {
        assert DotReached(mode, e, words, i);
      }
    }
  }

  lemma EmptyNarrow(mode: Mode, table: Table, index: nat)
    ensures Narrow(mode, [], table, index) == Narrowed(table, index, false)
  {}

  lemma ChooseOne(e: Element, index: nat, vararg: bool)
    ensures Choose([Some(e)], index, vararg) ==
      if vararg || index >= e.cmdsize then Chosen(e) else Choice.Rejected(ErrIncomplete)
  {
    var table: Table := [Some(e)];
    if vararg || index >= e.cmdsize { assert OnlyComplete(table, index, vararg, 0); }
    assert table[0].Some?;
  }

  /** Main result for a command alone, none of whose slots offers a choice: it is selected when the
      words fit its slots and none of those it needs is missing, or when they fit as far as a '.';
      the line is incomplete when only words are missing, and no match otherwise. */
  lemma OneCommandExactly(mode: Mode, e: Element, words: seq<string>)
    requires Single(e) && forall k :: 0 <= k < |words| ==> words[k] != ""
    ensures Select(Narrow(mode, words, [Some(e)], 0)) ==
      if exists m :: 0 <= m < |words| && DotReached(mode, e, words, m) then Chosen(e)
      else if FitsUpTo(mode, e, words, |words|) then
        if |words| >= e.cmdsize then Chosen(e) else Choice.Rejected(ErrIncomplete)
      else Choice.Rejected(ErrNoMatch)
  {
    hide Narrow, DotReached, Choose;
    assert words[0..] == words;
    AloneSelects(mode, e, words, 0);
  }
}
