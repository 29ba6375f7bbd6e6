/** Abbreviations mean the keyword they abbreviate, in both engines. */
module Expansion {
  import opened Options
  import opened MatchTypes
  import opened Commands

  // ---------- One word ----------

  /** The table after one word that neither failed nor ended the loop. */
  function Next(mode: Mode, word: string, table: Table, index: nat): Table {
    Survivors(Best(mode, word, table, index), word, Filter(mode, word, table, index), index)
  }

  ghost function Verdict(mode: Mode, word: string, table: Table, index: nat): Ambiguity {
    Ambiguous(Best(mode, word, table, index), word, Filter(mode, word, table, index), index)
  }

  /** The word is an abbreviation that the ambiguity pass lets through. */
  ghost predicate Abbreviates(word: string, table: Table, index: nat) {
    Best(Abbreviated, word, table, index) == PARTLY_MATCH && Verdict(Abbreviated, word, table, index) == Clear
  }

  /** The keyword shared by all survivors of an abbreviation; any other word stands for itself. */
  ghost function Expanded(word: string, table: Table, index: nat): string {
    var kept := Filter(Abbreviated, word, table, index);
    if Abbreviates(word, table, index) && exists c :: HitText(PARTLY_MATCH, word, kept, index, c) then
      var c :| HitText(PARTLY_MATCH, word, kept, index, c); c
    else word
  }

  ghost function Expand(words: seq<string>, table: Table, index: nat): seq<string>
    decreases |words|
  {
    if words == [] then []
    else
      [Expanded(words[0], table, index)]
      + if Best(Abbreviated, words[0], table, index) == VARARG_MATCH || Verdict(Abbreviated, words[0], table, index) != Clear
        then words[1..]
        else Expand(words[1..], Next(Abbreviated, words[0], table, index), index + 1)
  }

  // ---------- Scores ----------

  lemma BestIs(mode: Mode, word: string, table: Table, index: nat, t: MatchType)
    requires t == NO_MATCH || Scores(mode, word, table, index, t)
    requires forall k, d :: 0 <= k < |table| && d in SlotAt(table[k], index) ==> Score(mode, word, d.cmd) <= t
    ensures Best(mode, word, table, index) == t
  {}

  lemma ScoreAtMostBest(mode: Mode, word: string, table: Table, index: nat, k: nat, d: Desc)
    requires k < |table| && d in SlotAt(table[k], index)
    ensures Score(mode, word, d.cmd) <= Best(mode, word, table, index)
  {
    hide Score;
    assert Scores(mode, word, table, index, Score(mode, word, d.cmd));
  }

  lemma KeywordScore(mode: Mode, word: string, alt: string)
    requires IsKeyword(alt)
    ensures Score(mode, word, alt) == EXACT_MATCH <==> word == alt
    ensures mode.Abbreviated? ==> (Score(mode, word, alt) == PARTLY_MATCH <==> word <= alt && word != alt)
  {
    assert !IsIpv4(alt) && !IsIpv4Prefix(alt) && !IsIpv6(alt) && !IsIpv6Prefix(alt) && !IsRange(alt);
  }

  lemma PartlyScoreIsKeyword(word: string, alt: string)
    requires Score(Abbreviated, word, alt) == PARTLY_MATCH
    ensures IsKeyword(alt) && word <= alt && word != alt
  {}

  // ---------- A word that abbreviates ----------

  lemma ExpandedFacts(word: string, table: Table, index: nat)
    requires Abbreviates(word, table, index)
    ensures var keyword := Expanded(word, table, index);
      && IsKeyword(keyword) && word <= keyword && word != keyword
      && HitText(PARTLY_MATCH, word, Filter(Abbreviated, word, table, index), index, keyword)
      && (forall c :: HitText(PARTLY_MATCH, word, Filter(Abbreviated, word, table, index), index, c) ==> c == keyword)
  {
    hide Score;
    var kept := Filter(Abbreviated, word, table, index);
    assert Scores(Abbreviated, word, table, index, PARTLY_MATCH);
    var k, d :| 0 <= k < |table| && d in SlotAt(table[k], index) && Score(Abbreviated, word, d.cmd) == PARTLY_MATCH;
    PartlyScoreIsKeyword(word, d.cmd);
    assert Accepts(Abbreviated, word, SlotAt(table[k], index));
    assert kept[k] == table[k];
    assert HitText(PARTLY_MATCH, word, kept, index, d.cmd);
  }

  predicate HasText(slot: Slot, text: string) {
    exists d :: d in slot && d.cmd == text
  }

  /** An exact keyword keeps, in either engine, the elements whose slot holds that keyword. */
  lemma KeywordKeeps(mode: Mode, keyword: string, table: Table, index: nat)
    requires IsKeyword(keyword)
    requires exists k :: 0 <= k < |table| && HasText(SlotAt(table[k], index), keyword)
    ensures Best(mode, keyword, table, index) == EXACT_MATCH && Verdict(mode, keyword, table, index) == Clear
    ensures forall k :: 0 <= k < |table| ==>
      Next(mode, keyword, table, index)[k] == if HasText(SlotAt(table[k], index), keyword) then table[k] else None
  {
    hide Score;
    KeywordScore(mode, keyword, keyword);
    var k0 :| 0 <= k0 < |table| && HasText(SlotAt(table[k0], index), keyword);
    var d0 :| d0 in SlotAt(table[k0], index) && d0.cmd == keyword;
    assert Scores(mode, keyword, table, index, EXACT_MATCH);
    var kept := Filter(mode, keyword, table, index);
    forall k | 0 <= k < |table|
      ensures HasHit(EXACT_MATCH, keyword, SlotAt(kept[k], index)) <==> HasText(SlotAt(table[k], index), keyword)
    {
      var slot := SlotAt(table[k], index);
      if HasText(slot, keyword) {
        var d :| d in slot && d.cmd == keyword;
        assert Accepts(mode, keyword, slot);
        assert Hit(EXACT_MATCH, keyword, d.cmd);
      }
    }
  }

  lemma AbbreviationKeeps(word: string, table: Table, index: nat)
    requires Abbreviates(word, table, index)
    ensures var keyword := Expanded(word, table, index);
      && (exists k :: 0 <= k < |table| && HasText(SlotAt(table[k], index), keyword))
      && forall k :: 0 <= k < |table| ==>
        Next(Abbreviated, word, table, index)[k] == if HasText(SlotAt(table[k], index), keyword) then table[k] else None
  {
    hide Score, Expanded;
    var keyword := Expanded(word, table, index);
    var kept := Filter(Abbreviated, word, table, index);
    ExpandedFacts(word, table, index);
    KeywordScore(Abbreviated, word, keyword);
    forall k | 0 <= k < |table|
      ensures HasHit(PARTLY_MATCH, word, SlotAt(kept[k], index)) <==> HasText(SlotAt(table[k], index), keyword)
    {
      var slot := SlotAt(table[k], index);
      if HasText(slot, keyword) {
        var d :| d in slot && d.cmd == keyword;
        assert Accepts(Abbreviated, word, slot);
        assert Hit(PARTLY_MATCH, word, d.cmd);
      }
      if HasHit(PARTLY_MATCH, word, SlotAt(kept[k], index)) {
        var d :| d in SlotAt(kept[k], index) && Hit(PARTLY_MATCH, word, d.cmd);
        assert HitText(PARTLY_MATCH, word, kept, index, d.cmd);
      }
    }
    var k, d :| 0 <= k < |kept| && d in SlotAt(kept[k], index) && d.cmd == keyword && Hit(PARTLY_MATCH, word, keyword);
    assert HasText(SlotAt(table[k], index), keyword);
  }

  /** Replacing an abbreviation by its keyword leaves the same live table, in both engines. */
  lemma ExpansionStep(mode: Mode, word: string, table: Table, index: nat)
    requires Abbreviates(word, table, index)
    ensures var keyword := Expanded(word, table, index);
      && Best(mode, keyword, table, index) == EXACT_MATCH && Verdict(mode, keyword, table, index) == Clear
      && Next(mode, keyword, table, index) == Next(Abbreviated, word, table, index)
  {
    hide Score, Expanded, Best, Abbreviates;
    ExpandedFacts(word, table, index);
    AbbreviationKeeps(word, table, index);
    KeywordKeeps(mode, Expanded(word, table, index), table, index);
  }

  /** Main result for the abbreviated engine: any line leads to the same narrowing as its
      expansion. */
  lemma {:induction false} ExpandPreserves(words: seq<string>, table: Table, index: nat)
    ensures Narrow(Abbreviated, Expand(words, table, index), table, index) == Narrow(Abbreviated, words, table, index)
    decreases |words|
  {
    hide Score, Expanded, Best, Abbreviates, Ambiguous, Survivors, Filter;
    if words != [] {
      var word, rest := words[0], words[1..];
      var line := Expand(words, table, index);
      var next := Next(Abbreviated, word, table, index);
      ExpandPreserves(rest, next, index + 1);
      if Abbreviates(word, table, index) {
        AbbreviatesMeans(word, table, index);
        ExpansionStep(Abbreviated, word, table, index);
        assert line[1..] == Expand(rest, next, index + 1);
      } else {
        NotAbbreviated(word, table, index);
        assert line[0] == word;
        if Best(Abbreviated, word, table, index) != VARARG_MATCH && Verdict(Abbreviated, word, table, index) == Clear {
          assert line[1..] == Expand(rest, next, index + 1);
        } else {
          assert line == words;
        }
      }
    }
  }

  lemma AbbreviatesMeans(word: string, table: Table, index: nat)
    requires Abbreviates(word, table, index)
    ensures Best(Abbreviated, word, table, index) == PARTLY_MATCH && Verdict(Abbreviated, word, table, index) == Clear
  {}

  lemma NotAbbreviated(word: string, table: Table, index: nat)
    requires !Abbreviates(word, table, index)
    ensures Expanded(word, table, index) == word
  {}

  /** A word that is itself a keyword. */
  lemma ExactStep(mode: Mode, word: string, table: Table, index: nat)
    requires Best(Abbreviated, word, table, index) == EXACT_MATCH
    ensures Best(mode, word, table, index) == EXACT_MATCH
    ensures Verdict(mode, word, table, index) == Clear
    ensures Next(mode, word, table, index) == Next(Abbreviated, word, table, index)
  {
    hide Score, Best;
    ExactKeyword(word, table, index);
    KeywordKeeps(mode, word, table, index);
    KeywordKeeps(Abbreviated, word, table, index);
  }

  lemma ExactKeyword(word: string, table: Table, index: nat)
    requires Best(Abbreviated, word, table, index) == EXACT_MATCH
    ensures IsKeyword(word) && exists k :: 0 <= k < |table| && HasText(SlotAt(table[k], index), word)
  {
    hide Score;
    var k, d :| 0 <= k < |table| && d in SlotAt(table[k], index) && Score(Abbreviated, word, d.cmd) == EXACT_MATCH;
    ExactScoreIsKeyword(word, d.cmd);
    assert HasText(SlotAt(table[k], index), word);
  }

  lemma ExactScoreIsKeyword(word: string, alt: string)
    requires Score(Abbreviated, word, alt) == EXACT_MATCH
    ensures IsKeyword(alt) && word == alt
  {}

  lemma AbbreviatesIf(word: string, table: Table, index: nat)
    requires Best(Abbreviated, word, table, index) == PARTLY_MATCH && Verdict(Abbreviated, word, table, index) == Clear
    ensures Abbreviates(word, table, index)
  {}

  lemma NotAbbreviatedIf(word: string, table: Table, index: nat)
    requires Best(Abbreviated, word, table, index) != PARTLY_MATCH
    ensures Expanded(word, table, index) == word
  {}

  // ---------- Whole commands ----------

  lemma {:induction false} ExpandLength(words: seq<string>, table: Table, index: nat)
    ensures |Expand(words, table, index)| == |words|
    decreases |words|
  {
    hide Expanded, Best, Verdict, Next;
    if words != [] {
      ExpandLength(words[1..], Next(Abbreviated, words[0], table, index), index + 1);
    }
  }

  /** What a line that ran is turned into when its abbreviations are written out: the same
      element, with the arguments taken from the same positions of the expanded line. */
  function OnLine(o: Outcome, line: seq<string>): Outcome {
    match o
    case Run(e, _) => Run(e, Arguments(e.slots, line))
    case _ => o
  }

  lemma SameNarrowingSameOutcome(c: Choice, words: seq<string>, line: seq<string>)
    requires |line| == |words|
    requires c.Rejected? ==> !c.failure.Run?
    ensures c.Chosen? ==> Extract(c.element, line) == OnLine(Extract(c.element, words), line)
  {}

  /** Writing the abbreviations of a line out does not change which command runs, nor any error. */
  lemma ExpandedLineRunsAlike(table: Table, words: seq<string>)
    ensures var line := Expand(words, table, 0);
      Execute(Abbreviated, table, line) == OnLine(Execute(Abbreviated, table, words), line)
  {
    hide Narrow, Expand, Extract, Choose;
    ExpandPreserves(words, table, 0);
    ExpandLength(words, table, 0);
    NarrowFailures(Abbreviated, words, table, 0);
    var c := Select(Narrow(Abbreviated, words, table, 0));
    ChooseFailures(Narrow(Abbreviated, words, table, 0));
    SameNarrowingSameOutcome(c, words, Expand(words, table, 0));
  }
}
