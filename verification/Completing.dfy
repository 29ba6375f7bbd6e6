/** cmd_complete_command: completion of the last word of a line. */
module Completing {
  import opened Options
  import opened MatchTypes
  import opened Vectors
  import opened Commands
  import opened Engine
  import CText
  import Expansion
  import Running
  import StrictEngine

  // ---------- Longest common prefixes ----------

  function CommonPrefix(a: string, b: string): (p: string)
    ensures p <= a && p <= b
  {
    if a == "" || b == "" || a[0] != b[0] then "" else [a[0]] + CommonPrefix(a[1..], b[1..])
  }

  /** The longest string all of `cs` start with. */
  function LongestCommonPrefix(cs: seq<string>): string
    requires cs != []
  {
    if |cs| == 1 then cs[0] else CommonPrefix(LongestCommonPrefix(cs[..|cs| - 1]), cs[|cs| - 1])
  }

  lemma {:induction false} CommonPrefixIsGreatest(a: string, b: string, p: string)
    requires p <= a && p <= b
    ensures p <= CommonPrefix(a, b)
  {
    if p != "" {
      assert a[0] == p[0] == b[0];
      CommonPrefixIsGreatest(a[1..], b[1..], p[1..]);
    }
  }

  lemma {:induction false} CommonPrefixOfPrefix(p: string, a: string, b: string)
    requires p <= a
    ensures |CommonPrefix(p, b)| == if |p| < |CommonPrefix(a, b)| then |p| else |CommonPrefix(a, b)|
  {
    if p != "" && b != "" && a[0] == b[0] {
      assert p[0] == a[0];
      CommonPrefixOfPrefix(p[1..], a[1..], b[1..]);
    }
  }

  /** `LongestCommonPrefix` is what its name says. */
  lemma {:induction false} LongestCommonPrefixExactly(cs: seq<string>, p: string)
    requires cs != []
    ensures p <= LongestCommonPrefix(cs) <==> forall k :: 0 <= k < |cs| ==> p <= cs[k]
    decreases |cs|
  {
    hide CommonPrefix;
    if |cs| > 1 {
      var front, last := cs[..|cs| - 1], cs[|cs| - 1];
      LongestCommonPrefixExactly(front, p);
      var all := LongestCommonPrefix(front);
      if forall k :: 0 <= k < |cs| ==> p <= cs[k] {
        assert forall k :: 0 <= k < |front| ==> front[k] == cs[k];
        CommonPrefixIsGreatest(all, last, p);
      }
      if p <= CommonPrefix(all, last) {
        forall k | 0 <= k < |cs| ensures p <= cs[k] {
          assert k < |front| ==> front[k] == cs[k];
        }
      }
    }
  }

  /** cmd_lcd: the minimum over neighbours. */
  method CmdLcd(matched: seq<string>) returns (lcd: int)
    ensures lcd == if |matched| < 2 then 0 else |LongestCommonPrefix(matched)|
  {
    hide LongestCommonPrefix, CommonPrefix;
    if |matched| < 2 { return 0; }
    lcd := -1;
    var i := 1;
    while i < |matched|
      invariant 1 <= i <= |matched|
      invariant lcd == if i == 1 then -1 else |LongestCommonPrefix(matched[..i])|
    {
      var s1, s2 := matched[i - 1], matched[i];
      var j := 0;
      while j < |s1| && j < |s2| && s1[j] == s2[j]
        invariant j <= |s1| && j <= |s2|
        invariant |CommonPrefix(s1, s2)| == j + |CommonPrefix(s1[j..], s2[j..])|
      {
        CommonPrefixStep(s1[j..], s2[j..]);
        assert s1[j..][1..] == s1[j + 1..] && s2[j..][1..] == s2[j + 1..];
        j := j + 1;
      }
      CommonPrefixStep(s1[j..], s2[j..]);
      NextNeighbour(matched, i);
      if lcd < 0 {
        lcd := j;
      } else if lcd > j {
        lcd := j;
      }
      i := i + 1;
    }
    assert matched[..i] == matched;
  }

  lemma CommonPrefixStep(a: string, b: string)
    ensures a == "" || b == "" || a[0] != b[0] ==> CommonPrefix(a, b) == ""
    ensures a != "" && b != "" && a[0] == b[0] ==> |CommonPrefix(a, b)| == 1 + |CommonPrefix(a[1..], b[1..])|
  {}

  /** Taking one more string in shortens the prefix to what it shares with its neighbour. */
  lemma NextNeighbour(cs: seq<string>, i: nat)
    requires 1 <= i < |cs|
    ensures var shared := |CommonPrefix(cs[i - 1], cs[i])|;
      var before := |LongestCommonPrefix(cs[..i])|;
      |LongestCommonPrefix(cs[..i + 1])| == if i == 1 || shared < before then shared else before
  {
    hide CommonPrefix;
    assert cs[..i + 1][..i] == cs[..i];
    var before := LongestCommonPrefix(cs[..i]);
    if i == 1 {
      assert before == cs[0];
    } else {
      LongestCommonPrefixExactly(cs[..i], before);
      assert before <= cs[..i][i - 1];
      CommonPrefixOfPrefix(before, cs[i - 1], cs[i]);
    }
  }

  // ---------- Candidates ----------

  /** cmd_entry_function: whether it returns the alternative or NULL. */
  predicate IsCandidate(word: Option<string>, alt: string) {
    !IsOption(alt) && !IsVariable(alt) && !IsVararg(alt) && !IsIpv4(alt) && !IsIpv4Prefix(alt) && !IsRange(alt)
    && (word.None? || word.value <= alt)
  }

  function SlotCandidates(word: Option<string>, slot: Slot): seq<string> {
    if slot == [] then []
    else
      var last := slot[|slot| - 1].cmd;
      SlotCandidates(word, slot[..|slot| - 1]) + if IsCandidate(word, last) then [last] else []
  }

  function TableCandidates(word: Option<string>, table: Table, index: nat): seq<string> {
    if table == [] then []
    else TableCandidates(word, table[..|table| - 1], index) + SlotCandidates(word, SlotAt(table[|table| - 1], index))
  }

  /** The first occurrences, in order. */
  function Distinct(s: seq<string>): (r: seq<string>)
    ensures forall c :: c in r <==> c in s
    ensures forall i, j :: 0 <= i < j < |r| ==> r[i] != r[j]
  {
    if s == [] then []
    else
      var front, last := Distinct(s[..|s| - 1]), s[|s| - 1];
      assert s == s[..|s| - 1] + [last];
      if last in front then front else front + [last]
  }

  function Candidates(word: Option<string>, table: Table, index: nat): seq<string> {
    Distinct(TableCandidates(word, table, index))
  }

  lemma {:induction false} SlotCandidatesAre(word: Option<string>, slot: Slot, c: string)
    ensures c in SlotCandidates(word, slot) <==> IsCandidate(word, c) && exists d :: d in slot && d.cmd == c
    decreases |slot|
  {
    hide IsCandidate;
    if slot != [] {
      var front, last := slot[..|slot| - 1], slot[|slot| - 1];
      assert slot == front + [last];
      SlotCandidatesAre(word, front, c);
    }
  }

  /** The candidates are the keywords of the live slots that start with the typed text. */
  lemma {:induction false} TableCandidatesAre(word: Option<string>, table: Table, index: nat, c: string)
    ensures c in TableCandidates(word, table, index) <==>
      IsCandidate(word, c) && exists k :: 0 <= k < |table| && Expansion.HasText(SlotAt(table[k], index), c)
    decreases |table|
  {
    hide IsCandidate, SlotAt;
    if table != [] {
      var n := |table| - 1;
      var front := table[..n];
      TableCandidatesAre(word, front, index, c);
      SlotCandidatesAre(word, SlotAt(table[n], index), c);
      if exists k :: 0 <= k < |table| && Expansion.HasText(SlotAt(table[k], index), c) {
        var k :| 0 <= k < |table| && Expansion.HasText(SlotAt(table[k], index), c);
        assert k < n ==> front[k] == table[k];
      }
      if k :| 0 <= k < |front| && Expansion.HasText(SlotAt(front[k], index), c) {
        assert front[k] == table[k];
      }
    }
  }

  // ---------- The function ----------

  datatype Status = Ambiguous | NothingToDo | NoMatch

  datatype Result =
    | Failure(status: Status)
    | FullMatch(candidate: string)
    | Extended(text: string)
    | Listed(candidates: seq<string>)

  /** The filtering by the preceding words. A '.' does not end it, and an incomplete prefix
      (answer 2 of the ambiguity pass) is passed over; `None` is an ambiguity. */
  ghost function Preceding(words: seq<string>, table: Table, index: nat): Option<Table>
    decreases |words|
  {
    if words == [] then Some(table)
    else
      var t := Best(Abbreviated, words[0], table, index);
      var kept := Filter(Abbreviated, words[0], table, index);
      match Commands.Ambiguous(t, words[0], kept, index)
      case Clash => None
      case Partial => Preceding(words[1..], kept, index + 1)
      case Clear => Preceding(words[1..], Survivors(t, words[0], kept, index), index + 1)
  }

  function Answer(cs: seq<string>, word: Option<string>): Result {
    if cs == [] then Failure(if word.None? then NothingToDo else NoMatch)
    else if |cs| == 1 then FullMatch(cs[0])
    else if word.Some? && LongestCommonPrefix(cs) != "" && |word.value| < |LongestCommonPrefix(cs)| then
      Extended(LongestCommonPrefix(cs))
    else Listed(cs)
  }

  ghost function CompleteSpec(words: seq<string>, word: Option<string>, table: Table): Result {
    match Preceding(words, table, 0)
    case None => Failure(Ambiguous)
    case Some(live) => Answer(Candidates(word, live, |words|), word)
  }

  /** The line: all its words are set except possibly the last, which is NULL after a blank. */
  predicate IsLine(s: seq<Option<string>>) {
    s != [] && AllSet(s[..|s| - 1])
  }

  method FilterPreceding(vline: Vector<string>, v: Vector<Element>) returns (ambiguous: bool)
    requires vline.Valid() && IsLine(vline.Slots()) && v.Valid()
    requires v.index as object != vline.index
    modifies v.index
    ensures v.Valid()
    ensures var words := Words(vline.Slots()[..vline.max - 1]);
      Preceding(words, old(v.Slots()), 0) == if ambiguous then None else Some(v.Slots())
  {
    hide Best, Filter, Survivors, Commands.Ambiguous;
    ghost var line := vline.Slots();
    ghost var words := Words(line[..vline.max - 1]);
    ghost var start := v.Slots();
    var i := 0;
    assert words[0..] == words;
    while i < vline.max - 1
      invariant v.Valid() && i <= vline.max - 1 && vline.Slots() == line
      invariant Preceding(words, start, 0) == Preceding(words[i..], v.Slots(), i)
    {
      ghost var table := v.Slots();
      var command := vline.index[i].value;
      assert command == words[i] && words[i..][1..] == words[i + 1..];
      var t := FilterVector(Abbreviated, command, v, i);
      FilterReaches(Abbreviated, command, table, i);
      var ret := IsCmdAmbiguous(command, v, i, t);
      if ret == 1 { return true; }
      i := i + 1;
    }
    assert words[i..] == [];
    return false;
  }

  /** The candidates of one slot, added to those collected so far. */
  method CollectSlot(word: Option<string>, descvec: Slot, collected: seq<string>, ghost seen: seq<string>)
    returns (matchvec: seq<string>)
    requires collected == Distinct(seen)
    ensures matchvec == Distinct(seen + SlotCandidates(word, descvec))
  {
    hide IsCandidate, Distinct;
    matchvec := collected;
    ghost var added: seq<string> := [];
    assert seen + added == seen;
    for j := 0 to |descvec|
      invariant added == SlotCandidates(word, descvec[..j]) && matchvec == Distinct(seen + added)
    {
      assert descvec[..j + 1][..j] == descvec[..j];
      var cmd := descvec[j].cmd;
      if IsCandidate(word, cmd) {
        DistinctStep(seen + added, cmd);
        assert seen + added + [cmd] == seen + (added + [cmd]);
        added := added + [cmd];
        if cmd !in matchvec { matchvec := matchvec + [cmd]; }
      }
    }
    assert descvec[..|descvec|] == descvec;
  }

  method CollectCandidates(word: Option<string>, v: Vector<Element>, index: nat) returns (matchvec: seq<string>)
    requires v.Valid()
    ensures matchvec == Candidates(word, v.Slots(), index)
  {
    hide SlotCandidates, TableCandidates, Distinct;
    ghost var table := v.Slots();
    matchvec := [];
    TableCandidatesStep(word, table, index, 0);
    for i := 0 to v.max
      invariant matchvec == Distinct(TableCandidates(word, table[..i], index))
    {
      TableCandidatesStep(word, table, index, i);
      if v.index[i].Some? && index < |v.index[i].value.slots| {
        matchvec := CollectSlot(word, v.index[i].value.slots[index], matchvec, TableCandidates(word, table[..i], index));
      }
    }
    assert table[..v.max] == table;
  }

  lemma TableCandidatesStep(word: Option<string>, table: Table, index: nat, i: nat)
    requires i <= |table|
    ensures TableCandidates(word, table[..0], index) == [] && Distinct([]) == []
    ensures i < |table| ==>
      TableCandidates(word, table[..i + 1], index)
      == TableCandidates(word, table[..i], index) + SlotCandidates(word, SlotAt(table[i], index))
    ensures i < |table| && SlotAt(table[i], index) == [] ==>
      TableCandidates(word, table[..i + 1], index) == TableCandidates(word, table[..i], index)
  {
    if i < |table| {
      assert table[..i + 1][..i] == table[..i];
      assert TableCandidates(word, table[..i], index) + [] == TableCandidates(word, table[..i], index);
    }
  }

  lemma DistinctStep(s: seq<string>, c: string)
    ensures Distinct(s + [c]) == if c in Distinct(s) then Distinct(s) else Distinct(s) + [c]
  {
    assert (s + [c])[..|s|] == s;
  }

  /** cmd_complete_command on a node's command vector, which is only read. */
  method CompleteCommand(vline: Vector<string>, node: Vector<Element>) returns (r: Result)
    requires vline.Valid() && IsLine(vline.Slots()) && node.Valid()
    ensures r == CompleteSpec(Words(vline.Slots()[..vline.max - 1]), vline.Slots()[vline.max - 1], node.Slots())
  {
    hide Preceding, Candidates, LongestCommonPrefix;
    var v := node.Copy();
    var index := vline.max - 1;
    var ambiguous := FilterPreceding(vline, v);
    if ambiguous { return Failure(Ambiguous); }
    var word := vline.index[index];
    var matchvec := CollectCandidates(word, v, index);
    if matchvec == [] { return Failure(if word.None? then NothingToDo else NoMatch); }
    if |matchvec| == 1 { return FullMatch(matchvec[0]); }
    if word.Some? {
      var lcd := CmdLcd(matchvec);
      LongestCommonPrefixExactly(matchvec, LongestCommonPrefix(matchvec));
      if lcd != 0 && |word.value| < lcd { return Extended(matchvec[0][..lcd]); }
    }
    return Listed(matchvec);
  }

  // ---------- What completion guarantees ----------

  lemma CandidateIsKeyword(word: Option<string>, c: string)
    requires IsCandidate(word, c)
    ensures IsKeyword(c)
  {}

  lemma CandidateKeyword(word: Option<string>, live: Table, index: nat, c: string)
    requires c in Candidates(word, live, index)
    ensures IsKeyword(c) && exists k :: 0 <= k < |live| && Expansion.HasText(SlotAt(live[k], index), c)
    ensures word.Some? ==> word.value <= c
  {
    TableCandidatesAre(word, live, index, c);
    CandidateIsKeyword(word, c);
  }

  /** Any candidate, put in the place of the typed word, is an exact match and leaves exactly the
      live commands that have it there, in either engine. */
  lemma CandidateIsExact(mode: Mode, word: Option<string>, live: Table, index: nat, c: string)
    requires c in Candidates(word, live, index)
    ensures Best(mode, c, live, index) == EXACT_MATCH && Expansion.Verdict(mode, c, live, index) == Clear
    ensures forall k :: 0 <= k < |live| ==>
      Expansion.Next(mode, c, live, index)[k] == if Expansion.HasText(SlotAt(live[k], index), c) then live[k] else None
  {
    hide Candidates, Best;
    CandidateKeyword(word, live, index, c);
    Expansion.KeywordKeeps(mode, c, live, index);
  }

  predicate SharedByAll(p: string, cs: seq<string>) {
    forall c :: c in cs ==> p <= c
  }

  /** A keyword of a live slot that starts with the typed text. */
  predicate Offered(word: Option<string>, live: Table, index: nat, c: string) {
    && Running.Literal(c) && (word.None? || word.value <= c)
    && exists k :: 0 <= k < |live| && Expansion.HasText(SlotAt(live[k], index), c)
  }

  lemma CandidatesAreOffered(word: Option<string>, live: Table, index: nat, c: string)
    ensures c in Candidates(word, live, index) <==> Offered(word, live, index, c)
  {
    hide SlotAt, TableCandidates;
    TableCandidatesAre(word, live, index, c);
    assert IsCandidate(word, c) <==> Running.Literal(c) && (word.None? || word.value <= c);
  }

  /** A text all offered words begin with. */
  ghost predicate Shared(word: Option<string>, live: Table, index: nat, p: string) {
    forall c: string :: Offered(word, live, index, c) ==> p <= c
  }

  /** `p` is the longest such text. */
  ghost predicate LongestShared(word: Option<string>, live: Table, index: nat, p: string) {
    Shared(word, live, index, p) && forall q: string :: Shared(word, live, index, q) ==> q <= p
  }

  ghost predicate OfferedTwo(word: Option<string>, live: Table, index: nat) {
    exists a, b :: Offered(word, live, index, a) && Offered(word, live, index, b) && a != b
  }

  /** The typed word can be continued: several words are offered, and share more than is typed. */
  ghost predicate Extends(word: Option<string>, live: Table, index: nat, t: string) {
    word.Some? && OfferedTwo(word, live, index) && LongestShared(word, live, index, t) && |t| > |word.value|
  }

  lemma LongestSharedIs(word: Option<string>, live: Table, index: nat, t: string)
    requires Candidates(word, live, index) != []
    ensures LongestShared(word, live, index, t) <==> t == LongestCommonPrefix(Candidates(word, live, index))
  {
    hide Candidates, LongestCommonPrefix, Offered;
    var cs := Candidates(word, live, index);
    var l := LongestCommonPrefix(cs);
    forall q: string ensures Shared(word, live, index, q) <==> q <= l {
      LongestCommonPrefixExactly(cs, q);
      forall c: string ensures c in cs <==> Offered(word, live, index, c) { CandidatesAreOffered(word, live, index, c); }
      assert forall k :: 0 <= k < |cs| ==> cs[k] in cs;
    }
    assert l <= l && Shared(word, live, index, l);
    hide Shared;
    if LongestShared(word, live, index, t) { SamePrefix(t, l); }
  }

  lemma SamePrefix(a: string, b: string)
    requires a <= b && b <= a
    ensures a == b
  {}

  lemma OfferedCount(word: Option<string>, live: Table, index: nat)
    ensures var cs := Candidates(word, live, index);
      && (|cs| >= 2 <==> OfferedTwo(word, live, index))
      && (|cs| == 0 <==> forall c: string :: !Offered(word, live, index, c))
      && (forall c: string :: |cs| == 1 && c == cs[0] <==> Offered(word, live, index, c) && !OfferedTwo(word, live, index))
  {
    hide TableCandidates, Offered;
    var cs := Candidates(word, live, index);
    forall c: string ensures c in cs <==> Offered(word, live, index, c) { CandidatesAreOffered(word, live, index, c); }
    if |cs| >= 2 { assert cs[0] in cs && cs[1] in cs && cs[0] != cs[1]; }
    if |cs| == 1 { assert cs[0] in cs; }
  }

  /** Main result on the answers: nothing offered is no match, or nothing to do after a blank; one word
      is a full match; several are listed, unless a word is typed and they share more than it. */
  lemma AnswersExactly(words: seq<string>, word: Option<string>, table: Table, live: Table)
    requires Preceding(words, table, 0) == Some(live)
    ensures var r, n := CompleteSpec(words, word, table), |words|;
      && (r == Failure(NothingToDo) <==> word.None? && forall c: string :: !Offered(word, live, n, c))
      && (r == Failure(NoMatch) <==> word.Some? && forall c: string :: !Offered(word, live, n, c))
      && (forall c: string :: r == FullMatch(c) <==> Offered(word, live, n, c) && !OfferedTwo(word, live, n))
      && (forall t: string :: r == Extended(t) <==> Extends(word, live, n, t))
      && (r.Listed? <==> OfferedTwo(word, live, n) && forall t: string :: !Extends(word, live, n, t))
      && (r.Listed? ==> forall c: string :: c in r.candidates <==> Offered(word, live, n, c))
      && (r.Listed? ==> forall i, j :: 0 <= i < j < |r.candidates| ==> r.candidates[i] != r.candidates[j])
  {
    hide Offered, LongestCommonPrefix, TableCandidates, LongestShared, OfferedTwo;
    var n := |words|;
    var cs := Candidates(word, live, n);
    OfferedCount(word, live, n);
    forall c: string ensures c in cs <==> Offered(word, live, n, c) { CandidatesAreOffered(word, live, n, c); }
    if cs != [] {
      forall t: string ensures LongestShared(word, live, n, t) <==> t == LongestCommonPrefix(cs) {
        LongestSharedIs(word, live, n, t);
      }
      assert Extends(word, live, n, LongestCommonPrefix(cs)) <==> Answer(cs, word).Extended?;
    }
  }

  lemma {:induction false} DistinctGrows(s: seq<string>, t: seq<string>)
    ensures Distinct(s) <= Distinct(s + t)
    decreases |t|
  {
    hide Distinct;
    if t == [] {
      assert s + t == s;
    } else {
      var front, last := t[..|t| - 1], t[|t| - 1];
      DistinctGrows(s, front);
      DistinctStep(s + front, last);
      assert s + t == s + front + [last];
    }
  }

  /** The words are listed in the order of the commands, and within a slot in the order of its
      alternatives: what comes later only adds at the end. */
  lemma OfferedInOrder(word: Option<string>, live: Table, x: Option<Element>, index: nat, slot: Slot, d: Desc)
    ensures Candidates(word, live, index) <= Candidates(word, live + [x], index)
    ensures SlotCandidates(word, slot) <= SlotCandidates(word, slot + [d])
  {
    hide SlotCandidates, Distinct, IsCandidate;
    var table := live + [x];
    assert table[..|live|] == live;
    TableCandidatesStep(word, table, index, |live|);
    assert table[..|table|] == table;
    DistinctGrows(TableCandidates(word, live, index), SlotCandidates(word, SlotAt(x, index)));
    SlotCandidatesGrow(word, slot, d);
  }

  lemma SlotCandidatesGrow(word: Option<string>, slot: Slot, d: Desc)
    ensures SlotCandidates(word, slot) <= SlotCandidates(word, slot + [d])
  {
    assert (slot + [d])[..|slot|] == slot;
  }

  /** Only an ambiguity among the preceding words is an error of its own. */
  lemma AmbiguousExactly(words: seq<string>, word: Option<string>, table: Table)
    ensures CompleteSpec(words, word, table) == Failure(Ambiguous) <==> Preceding(words, table, 0).None?
  {
    hide Candidates, Preceding, LongestCommonPrefix;
  }

  /** The text of CMD_COMPLETE_MATCH is longer than the typed word, is shared by all candidates,
      and no longer text is. */
  lemma ExtensionIsMaximal(cs: seq<string>, word: Option<string>)
    requires Answer(cs, word).Extended?
    requires word.Some? ==> SharedByAll(word.value, cs)
    ensures var text := Answer(cs, word).text;
      && |cs| >= 2 && word.Some? && word.value <= text && word.value != text
      && SharedByAll(text, cs)
      && (forall p: string :: SharedByAll(p, cs) ==> p <= text)
  {
    hide LongestCommonPrefix;
    var text := LongestCommonPrefix(cs);
    LongestCommonPrefixExactly(cs, text);
    LongestCommonPrefixExactly(cs, word.value);
    forall p: string | SharedByAll(p, cs) ensures p <= text {
      LongestCommonPrefixExactly(cs, p);
      assert forall k :: 0 <= k < |cs| ==> cs[k] in cs;
    }
  }

  /** Completing once more after the extension finds the same candidates. */
  lemma ExtensionKeepsCandidates(word: Option<string>, live: Table, index: nat)
    requires Answer(Candidates(word, live, index), word).Extended?
    ensures var cs := Candidates(word, live, index);
      var text := Answer(cs, word).text;
      && Candidates(Some(text), live, index) == cs
      && Answer(cs, Some(text)) == Listed(cs)
  {
    hide Candidates;
    var cs := Candidates(word, live, index);
    assert SharedByAll(word.value, cs) by {
      forall c | c in cs ensures word.value <= c { CandidateKeyword(word, live, index, c); }
    }
    ExtensionIsMaximal(cs, word);
    hide Answer;
    var text := Answer(cs, word).text;
    SameCandidates(word, Some(text), live, index);
    AnswerOnExtension(cs, word);
  }

  lemma AnswerOnExtension(cs: seq<string>, word: Option<string>)
    requires Answer(cs, word).Extended?
    ensures Answer(cs, Some(Answer(cs, word).text)) == Listed(cs)
  {
    hide LongestCommonPrefix;
  }

  /** Two typed texts that select the same candidates of the table do so in the same order. */
  lemma SameCandidates(word: Option<string>, text: Option<string>, live: Table, index: nat)
    requires word.Some? && text.Some? && word.value <= text.value
    requires forall c :: c in Candidates(word, live, index) ==> text.value <= c
    ensures Candidates(text, live, index) == Candidates(word, live, index)
  {
    forall c | c in TableCandidates(word, live, index) ensures text.value <= c {
      assert c in Candidates(word, live, index);
    }
    SameTableCandidates(word, text, live, index);
  }

  lemma {:induction false} SameTableCandidates(word: Option<string>, text: Option<string>, table: Table, index: nat)
    requires word.Some? && text.Some? && word.value <= text.value
    requires forall c :: c in TableCandidates(word, table, index) ==> text.value <= c
    ensures TableCandidates(text, table, index) == TableCandidates(word, table, index)
    decreases |table|
  {
    hide IsCandidate, SlotCandidates, SlotAt;
    if table != [] {
      var n := |table| - 1;
      var slot := SlotAt(table[n], index);
      var front := TableCandidates(word, table[..n], index);
      assert forall c :: c in front ==> c in front + SlotCandidates(word, slot);
      assert forall c :: c in SlotCandidates(word, slot) ==> c in front + SlotCandidates(word, slot);
      assert TableCandidates(word, table, index) == front + SlotCandidates(word, slot);
      SameTableCandidates(word, text, table[..n], index);
      SameSlotCandidates(word, text, slot);
    }
  }

  lemma {:induction false} SameSlotCandidates(word: Option<string>, text: Option<string>, slot: Slot)
    requires word.Some? && text.Some? && word.value <= text.value
    requires forall c :: c in SlotCandidates(word, slot) ==> text.value <= c
    ensures SlotCandidates(text, slot) == SlotCandidates(word, slot)
    decreases |slot|
  {
    if slot != [] {
      var front, last := slot[..|slot| - 1], slot[|slot| - 1].cmd;
      forall c | c in SlotCandidates(word, front) ensures text.value <= c {
        assert c in SlotCandidates(word, slot);
      }
      SameSlotCandidates(word, text, front);
      if IsCandidate(word, last) {
        assert SlotCandidates(word, slot) == SlotCandidates(word, front) + [last];
        assert last in SlotCandidates(word, slot);
      }
    }
  }

  // ---------- Completion and execution ----------

  lemma {:induction false} NarrowAppend(mode: Mode, words: seq<string>, word: string, table: Table, index: nat)
    requires var n := Narrow(mode, words, table, index); n.Narrowed? && !n.vararg
    ensures var n := Narrow(mode, words, table, index);
      Narrow(mode, words + [word], table, index) == Narrow(mode, [word], n.table, n.index)
    decreases |words|
  {
    hide Best, Filter, Survivors, Commands.Ambiguous;
    if words == [] {
      assert words + [word] == [word];
    } else {
      assert (words + [word])[1..] == words[1..] + [word];
      assert (words + [word])[0] == words[0];
      var t := Best(mode, words[0], table, index);
      NarrowAppend(mode, words[1..], word, Survivors(t, words[0], Filter(mode, words[0], table, index), index), index + 1);
    }
  }

  lemma {:induction false} FailureStays(mode: Mode, words: seq<string>, word: string, table: Table, index: nat)
    requires Narrow(mode, words, table, index).Failed?
    ensures Narrow(mode, words + [word], table, index) == Narrow(mode, words, table, index)
    decreases |words|
  {
    hide Best, Filter, Survivors, Commands.Ambiguous;
    assert (words + [word])[1..] == words[1..] + [word];
    assert (words + [word])[0] == words[0];
    var t := Best(mode, words[0], table, index);
    var next := Survivors(t, words[0], Filter(mode, words[0], table, index), index);
    if Narrow(mode, words[1..], next, index + 1).Failed? { FailureStays(mode, words[1..], word, next, index + 1); }
  }

  /** Some word on the way is part of a prefix: the ambiguity pass answers 2. */
  ghost predicate PartialOnTheWay(words: seq<string>, table: Table, index: nat)
    decreases |words|
  {
    words != [] && (
      var t := Best(Abbreviated, words[0], table, index);
      WordIsPartial(t, words[0])
      || (t != VARARG_MATCH && Expansion.Verdict(Abbreviated, words[0], table, index) == Clear
          && PartialOnTheWay(words[1..], Expansion.Next(Abbreviated, words[0], table, index), index + 1)))
  }

  lemma PartialVerdict(word: string, table: Table, index: nat)
    ensures WordIsPartial(Best(Abbreviated, word, table, index), word)
      <==> Expansion.Verdict(Abbreviated, word, table, index) == Partial
    ensures WordIsPartial(Best(Abbreviated, word, table, index), word) ==> Best(Abbreviated, word, table, index) != VARARG_MATCH
  {
    hide Best, Filter;
    if WordIsPartial(Best(Abbreviated, word, table, index), word) { StrictEngine.PartialFails(word, table, index); }
  }

  /** That is the only way for the loop over the words to end in "no match". */
  lemma {:induction false} PartialExactly(words: seq<string>, table: Table, index: nat)
    ensures Narrow(Abbreviated, words, table, index) == Failed(ErrNoMatch) <==> PartialOnTheWay(words, table, index)
    decreases |words|
  {
    hide Best, Filter, Survivors, WordIsPartial, Commands.Ambiguous;
    if words != [] {
      PartialVerdict(words[0], table, index);
      PartialExactly(words[1..], Expansion.Next(Abbreviated, words[0], table, index), index + 1);
    }
  }

  lemma {:induction false} DeadPreceding(words: seq<string>, table: Table, index: nat)
    requires StrictEngine.Dead(table)
    ensures Preceding(words, table, index).Some? && StrictEngine.Dead(Preceding(words, table, index).value)
    decreases |words|
  {
    hide Best, Filter, Survivors, Commands.Ambiguous, StrictEngine.Dead;
    if words != [] {
      StrictEngine.DeadAccepts(Abbreviated, words[0], table, index);
      StrictEngine.NothingAccepted(Abbreviated, words[0], table, index);
      StrictEngine.NoMatchClear(Abbreviated, words[0], table, index);
      DeadPreceding(words[1..], Expansion.Next(Abbreviated, words[0], table, index), index + 1);
    }
  }

  /** After a '.' alternative the ambiguity pass finds no hit and drops everything. */
  lemma VarargDrops(word: string, table: Table, index: nat)
    requires Best(Abbreviated, word, table, index) == VARARG_MATCH
    ensures Expansion.Verdict(Abbreviated, word, table, index) == Clear
    ensures StrictEngine.Dead(Expansion.Next(Abbreviated, word, table, index))
  {
    hide Best, Filter;
  }

  /** Completion is left with what execution is left with; after a '.' alternative, which ends the
      loop of the one only, it has nothing to offer. */
  ghost predicate NarrowsAlike(words: seq<string>, table: Table, index: nat) {
    var n := Narrow(Abbreviated, words, table, index);
    match Preceding(words, table, index)
    case None => n == Failed(ErrAmbiguous)
    case Some(live) =>
      n.Narrowed? && if n.vararg then StrictEngine.Dead(live) else live == n.table && n.index == index + |words|
  }

  /** Main result for all lines: the preceding words narrow for completion as for execution, if and
      only if none of them is part of a prefix where that is the best match. */
  lemma PrecedingExactly(words: seq<string>, table: Table, index: nat)
    ensures NarrowsAlike(words, table, index) <==> !PartialOnTheWay(words, table, index)
  {
    hide PartialOnTheWay, Narrow, Preceding;
    PartialExactly(words, table, index);
    if !PartialOnTheWay(words, table, index) { WholeNarrowsAlike(words, table, index); }
  }

  lemma {:induction false} WholeNarrowsAlike(words: seq<string>, table: Table, index: nat)
    requires !PartialOnTheWay(words, table, index)
    ensures NarrowsAlike(words, table, index)
    decreases |words|
  {
    hide Best, Filter, Survivors, WordIsPartial, Commands.Ambiguous, StrictEngine.Dead;
    if words != [] {
      var t := Best(Abbreviated, words[0], table, index);
      var next := Expansion.Next(Abbreviated, words[0], table, index);
      PartialVerdict(words[0], table, index);
      if t == VARARG_MATCH {
        VarargDrops(words[0], table, index);
        DeadPreceding(words[1..], next, index + 1);
      } else if Expansion.Verdict(Abbreviated, words[0], table, index) == Clear {
        WholeNarrowsAlike(words[1..], next, index + 1);
      }
    }
  }

  /** Execution accepts the word after the others: it goes on with the live commands that have it
      there, of which there is at least one. */
  ghost predicate AcceptedNext(words: seq<string>, c: string, live: Table, table: Table) {
    var n := Narrow(Abbreviated, words + [c], table, 0);
    && n == Narrowed(Expansion.Next(Abbreviated, c, live, |words|), |words| + 1, false)
    && (forall k :: 0 <= k < |live| ==>
          n.table[k] == if Expansion.HasText(SlotAt(live[k], |words|), c) then live[k] else None)
    && (exists k :: 0 <= k < |live| && n.table[k].Some?)
  }

  /** Main result: a word that completion offers is accepted by execution, exactly and unambiguously,
      if and only if no word before it is part of a prefix; otherwise the line is unknown to it. */
  lemma CompletedWordExactly(words: seq<string>, word: Option<string>, table: Table, c: string)
    requires var live := Preceding(words, table, 0); live.Some? && c in Candidates(word, live.value, |words|)
    ensures AcceptedNext(words, c, Preceding(words, table, 0).value, table) <==> !PartialOnTheWay(words, table, 0)
    ensures PartialOnTheWay(words, table, 0) ==> Narrow(Abbreviated, words + [c], table, 0) == Failed(ErrNoMatch)
  {
    hide Candidates, Narrow, Preceding, PartialOnTheWay, AcceptedNext;
    var live := Preceding(words, table, 0).value;
    if PartialOnTheWay(words, table, 0) {
      PartialExactly(words, table, 0);
      FailureStays(Abbreviated, words, c, table, 0);
      FailedIsNotAccepted(words, c, live, table);
    } else {
      PrecedingExactly(words, table, 0);
      CandidateKeyword(word, live, |words|, c);
      NotOfferedByDead(live, |words|, c);
      OfferedIsAccepted(words, word, table, c);
    }
  }

  lemma FailedIsNotAccepted(words: seq<string>, c: string, live: Table, table: Table)
    requires Narrow(Abbreviated, words + [c], table, 0).Failed?
    ensures !AcceptedNext(words, c, live, table)
  {
    hide Narrow, Expansion.Next;
  }

  lemma NotOfferedByDead(live: Table, index: nat, c: string)
    requires exists k :: 0 <= k < |live| && Expansion.HasText(SlotAt(live[k], index), c)
    ensures !StrictEngine.Dead(live)
  {}

  lemma OfferedIsAccepted(words: seq<string>, word: Option<string>, table: Table, c: string)
    requires var n := Narrow(Abbreviated, words, table, 0);
      n.Narrowed? && !n.vararg && n.index == |words| && Preceding(words, table, 0) == Some(n.table)
      && c in Candidates(word, n.table, |words|)
    ensures AcceptedNext(words, c, Preceding(words, table, 0).value, table)
  {
    hide Candidates, Narrow, Preceding, Filter, Survivors;
    var live := Narrow(Abbreviated, words, table, 0).table;
    NarrowAppend(Abbreviated, words, c, table, 0);
    CandidateKeyword(word, live, |words|, c);
    CandidateIsExact(Abbreviated, word, live, |words|, c);
    OneWord(c, live, |words|);
    var k :| 0 <= k < |live| && Expansion.HasText(SlotAt(live[k], |words|), c);
    assert live[k].Some?;
  }

  lemma OneWord(word: string, table: Table, index: nat)
    requires Best(Abbreviated, word, table, index) != VARARG_MATCH
    requires Expansion.Verdict(Abbreviated, word, table, index) == Clear
    ensures Narrow(Abbreviated, [word], table, index)
      == Narrowed(Expansion.Next(Abbreviated, word, table, index), index + 1, false)
  {
    hide Best, Filter, Survivors, Commands.Ambiguous;
    assert [word][1..] == [];
  }

  // ---------- Why partial prefixes are the exception ----------

  /** The specification "A.B.C.D/M foo" and a word that is part of a prefix: completion offers "foo"
      after it, and execution rejects the line. */
  lemma PartialPrefixOffers(e: Element, word: string)
    requires e.slots == [[Desc("A.B.C.D/M", None)], [Desc("foo", None)]] && Ipv4Prefix.Ipv4PrefixMatch(word) == PARTLY_MATCH
    ensures Preceding([word], [Some(e)], 0) == Some([Some(e)])
    ensures "foo" in Candidates(None, [Some(e)], 1)
    ensures Narrow(Abbreviated, [word, "foo"], [Some(e)], 0) == Failed(ErrNoMatch)
  {
    var table: Table := [Some(e)];
    PartialPrefixKept(e.slots[0][0], word, table);
    FooOffered(e.slots[1][0], table);
    hide Best, Filter, Candidates, Survivors, Commands.Ambiguous, Expansion.Verdict;
    PartialVerdict(word, table, 0);
    assert [word][1..] == [];
    assert PartialOnTheWay([word], table, 0);
    PartialExactly([word], table, 0);
    FailureStays(Abbreviated, [word], "foo", table, 0);
    assert [word] + ["foo"] == [word, "foo"];
  }

  lemma PartialPrefixKept(d: Desc, word: string, table: Table)
    requires d.cmd == "A.B.C.D/M" && |table| == 1 && SlotAt(table[0], 0) == [d]
    requires Ipv4Prefix.Ipv4PrefixMatch(word) == PARTLY_MATCH
    ensures Best(Abbreviated, word, table, 0) == IPV4_PREFIX_MATCH && Filter(Abbreviated, word, table, 0) == table
  {
    assert Score(Abbreviated, word, d.cmd) == IPV4_PREFIX_MATCH;
    hide Score, Best, Filter;
    assert d in SlotAt(table[0], 0);
    assert Scores(Abbreviated, word, table, 0, IPV4_PREFIX_MATCH);
    Expansion.BestIs(Abbreviated, word, table, 0, IPV4_PREFIX_MATCH);
    StrictEngine.FilterAt(Abbreviated, word, table, 0, 0);
  }

  lemma FooOffered(d: Desc, table: Table)
    requires d.cmd == "foo" && |table| == 1 && SlotAt(table[0], 1) == [d]
    ensures "foo" in Candidates(None, table, 1)
  {
    hide TableCandidates;
    assert d in SlotAt(table[0], 1);
    TableCandidatesAre(None, table, 1, "foo");
  }

  /** Such words exist: every digit is one. */
  lemma DigitIsPartOfPrefix(word: string)
    requires |word| == 1 && CText.IsDigit(word[0])
    ensures Ipv4Prefix.Ipv4PrefixMatch(word) == PARTLY_MATCH
  {
    hide Ipv4Prefix.PrefixScan;
    Ipv4Prefix.OneDigit(word);
    assert word[..1] == word;
    Ipv4Prefix.ScanOneField(word, 1, 0);
  }
}
