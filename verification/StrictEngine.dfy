/** When the strict engine treats a line, its abbreviations written out, as the abbreviated engine
    treats the line as typed. */
module StrictEngine {
  import opened Options
  import opened MatchTypes
  import opened Commands
  import opened Expansion

  // ---------- One word ----------

  predicate Dead(table: Table) {
    forall k :: 0 <= k < |table| ==> table[k].None?
  }

  /** What one word comes to. A table without live elements ends in "no match" whatever follows,
      and is the same as that error here. */
  datatype Step = Stop(table: Table) | Fail(failure: Outcome) | Go(table: Table)

  ghost function StepOf(mode: Mode, word: string, table: Table, index: nat): Step {
    if Best(mode, word, table, index) == VARARG_MATCH then Stop(Filter(mode, word, table, index))
    else
      match Verdict(mode, word, table, index)
      case Clash => Fail(ErrAmbiguous)
      case Partial => Fail(ErrNoMatch)
      case Clear =>
        if Dead(Next(mode, word, table, index)) then Fail(ErrNoMatch) else Go(Next(mode, word, table, index))
  }

  /** The strict filter keeps what the abbreviated filter keeps. */
  predicate FiltersAgree(word: string, table: Table, index: nat) {
    forall k :: 0 <= k < |table| && Accepts(Abbreviated, word, SlotAt(table[k], index)) ==>
      Accepts(Strict, word, SlotAt(table[k], index))
  }

  predicate NothingStrict(word: string, table: Table, index: nat) {
    forall k :: 0 <= k < |table| ==> !Accepts(Strict, word, SlotAt(table[k], index))
  }

  /** The strict filter keeps exactly the elements with an address alternative. */
  predicate StrictKeepsAddresses(word: string, table: Table, index: nat) {
    forall k :: 0 <= k < |table| ==>
      (Accepts(Strict, word, SlotAt(table[k], index)) <==> HasHit(IPV4_MATCH, word, SlotAt(table[k], index)))
  }

  /** The strict filter keeps the elements whose range holds the word. */
  predicate StrictKeepsRanges(word: string, table: Table, index: nat) {
    forall k :: 0 <= k < |table| ==>
      HasHit(RANGE_MATCH, word, SlotAt(table[k], index)) && Accepts(Abbreviated, word, SlotAt(table[k], index)) ==>
        Accepts(Strict, word, SlotAt(table[k], index))
  }

  ghost predicate StrictRangesClash(word: string, table: Table, index: nat) {
    Best(Strict, word, table, index) == RANGE_MATCH
    && Clashes(RANGE_MATCH, word, Filter(Strict, word, table, index), index)
  }

  /** The condition, by the match type of the abbreviated engine. */
  ghost predicate StrictFollows(word: string, table: Table, index: nat) {
    var t := Best(Abbreviated, word, table, index);
    if t == IPV4_PREFIX_MATCH then Ipv4Prefix.Ipv4PrefixMatch(word) == EXACT_MATCH || NothingStrict(word, table, index)
    else if t == IPV4_MATCH then Ipv4.Ipv4Match(word) == EXACT_MATCH || StrictKeepsAddresses(word, table, index)
    else if t == IPV6_PREFIX_MATCH then
      if Ipv6Prefix.Ipv6PrefixMatch(word) == EXACT_MATCH then FiltersAgree(word, table, index)
      else NothingStrict(word, table, index)
    else if t == RANGE_MATCH then StrictRangesClash(word, table, index) || StrictKeepsRanges(word, table, index)
    else if t == VARARG_MATCH then FiltersAgree(word, table, index)
    else if t == PARTLY_MATCH then Verdict(Abbreviated, word, table, index) == Clear || StrictRangesClash(word, table, index)
    else true
  }

  // ---------- Scores ----------

  /** The strict score is the abbreviated one or a rejection, and is a rejection only of keywords
      and of texts that are parts of addresses. */
  lemma StrictScore(word: string, alt: string)
    ensures var a, s := Score(Abbreviated, word, alt), Score(Strict, word, alt);
      && (s == a || s == NO_MATCH)
      && (a != s ==> a == PARTLY_MATCH
                     || (a == IPV4_MATCH && Ipv4.Ipv4Match(word) == PARTLY_MATCH)
                     || (a == IPV4_PREFIX_MATCH && Ipv4Prefix.Ipv4PrefixMatch(word) == PARTLY_MATCH)
                     || (a == IPV6_PREFIX_MATCH && Ipv6Prefix.Ipv6PrefixMatch(word) == PARTLY_MATCH))
      && s != PARTLY_MATCH
  {}

  /** Accepted by a recogniser, which for the strict engine must be exact. */
  predicate Accepted(mode: Mode, r: MatchType) {
    r == EXACT_MATCH || (mode.Abbreviated? && r == PARTLY_MATCH)
  }

  /** What the recognisers say when an alternative of their type accepts. */
  lemma RecogniserAccepts(mode: Mode, word: string, alt: string)
    ensures var r := Score(mode, word, alt);
      && (r == IPV4_MATCH ==> Accepted(mode, Ipv4.Ipv4Match(word)))
      && (r == IPV4_PREFIX_MATCH ==> Accepted(mode, Ipv4Prefix.Ipv4PrefixMatch(word)))
      && (r == IPV6_PREFIX_MATCH ==> Accepted(mode, Ipv6Prefix.Ipv6PrefixMatch(word)))
      && (r == IPV6_MATCH ==> Ipv6.Ipv6Match(word) == EXACT_MATCH)
  {}

  lemma ScoreHits(mode: Mode, word: string, alt: string)
    requires Score(mode, word, alt) != NO_MATCH && Score(mode, word, alt) != VARARG_MATCH
    ensures Hit(Score(mode, word, alt), word, alt)
  {}

  /** Some alternative has the best score. */
  lemma BestScored(mode: Mode, word: string, table: Table, index: nat) returns (k: nat, d: Desc)
    requires Best(mode, word, table, index) != NO_MATCH
    ensures k < |table| && d in SlotAt(table[k], index) && Score(mode, word, d.cmd) == Best(mode, word, table, index)
    ensures table[k].Some? && Filter(mode, word, table, index)[k] == table[k]
  {
    hide Score;
    k, d :| 0 <= k < |table| && d in SlotAt(table[k], index) && Score(mode, word, d.cmd) == Best(mode, word, table, index);
    assert Accepts(mode, word, SlotAt(table[k], index));
  }

  /** The strict score of an alternative is at most the abbreviated best. */
  lemma StrictAtMost(word: string, table: Table, index: nat)
    ensures Best(Strict, word, table, index) <= Best(Abbreviated, word, table, index)
  {
    hide Score, Best, Filter;
    if Best(Strict, word, table, index) != NO_MATCH {
      var k, d := BestScored(Strict, word, table, index);
      StrictScore(word, d.cmd);
      ScoreAtMostBest(Abbreviated, word, table, index, k, d);
    }
  }

  /** The strict best is at least every strict score. */
  lemma StrictAccepted(word: string, table: Table, index: nat, k: nat) returns (d: Desc)
    requires k < |table| && Accepts(Strict, word, SlotAt(table[k], index))
    ensures d in SlotAt(table[k], index) && NO_MATCH < Score(Strict, word, d.cmd) <= Best(Strict, word, table, index)
    ensures Accepts(Abbreviated, word, SlotAt(table[k], index))
  {
    hide Score, Best;
    d :| d in SlotAt(table[k], index) && Score(Strict, word, d.cmd) != NO_MATCH;
    ScoreAtMostBest(Strict, word, table, index, k, d);
    StrictScore(word, d.cmd);
  }

  // ---------- Steps that always agree ----------

  /** The same scores lead to the same step. */
  lemma SameScoresSameStep(word: string, table: Table, index: nat)
    requires forall k, d :: 0 <= k < |table| && d in SlotAt(table[k], index) ==>
      Score(Strict, word, d.cmd) == Score(Abbreviated, word, d.cmd)
    ensures StepOf(Strict, word, table, index) == StepOf(Abbreviated, word, table, index)
  {
    SameScoresSameBest(word, table, index);
    hide Score, Best, Ambiguous, Survivors;
    assert Filter(Strict, word, table, index) == Filter(Abbreviated, word, table, index);
  }

  lemma SameScoresSameBest(word: string, table: Table, index: nat)
    requires forall k, d :: 0 <= k < |table| && d in SlotAt(table[k], index) ==>
      Score(Strict, word, d.cmd) == Score(Abbreviated, word, d.cmd)
    ensures Best(Strict, word, table, index) == Best(Abbreviated, word, table, index)
  {
    hide Score, Best, Filter;
    var t := Best(Abbreviated, word, table, index);
    StrictAtMost(word, table, index);
    if t != NO_MATCH {
      var k, d := BestScored(Abbreviated, word, table, index);
      ScoreAtMostBest(Strict, word, table, index, k, d);
    }
  }

  /** Where no partial reading of the word is live, the engines score alike. */
  lemma SameScores(word: string, table: Table, index: nat)
    requires var t := Best(Abbreviated, word, table, index);
      && t < PARTLY_MATCH
      && (t >= IPV4_MATCH ==> Ipv4.Ipv4Match(word) != PARTLY_MATCH)
      && (t >= IPV4_PREFIX_MATCH ==> Ipv4Prefix.Ipv4PrefixMatch(word) != PARTLY_MATCH)
      && (t >= IPV6_PREFIX_MATCH ==> Ipv6Prefix.Ipv6PrefixMatch(word) != PARTLY_MATCH)
    ensures forall k, d :: 0 <= k < |table| && d in SlotAt(table[k], index) ==>
      Score(Strict, word, d.cmd) == Score(Abbreviated, word, d.cmd)
  {
    hide Score, Best;
    forall k, d | 0 <= k < |table| && d in SlotAt(table[k], index)
      ensures Score(Strict, word, d.cmd) == Score(Abbreviated, word, d.cmd)
    {
      StrictScore(word, d.cmd);
      ScoreAtMostBest(Abbreviated, word, table, index, k, d);
    }
  }

  // ---------- The table of a step ----------

  /** Below the ranges the ambiguity pass finds no clash, and a prefix that was scored strictly is
      a whole one. */
  lemma StrictClear(word: string, table: Table, index: nat)
    requires Best(Strict, word, table, index) < RANGE_MATCH
    ensures Verdict(Strict, word, table, index) == Clear
  {
    hide Score, Best, Filter;
    var b := Best(Strict, word, table, index);
    if b != NO_MATCH {
      var k, d := BestScored(Strict, word, table, index);
      RecogniserAccepts(Strict, word, d.cmd);
    }
  }

  /** The table is dead only when nothing was accepted. */
  lemma NextIsLive(mode: Mode, word: string, table: Table, index: nat)
    requires Best(mode, word, table, index) != VARARG_MATCH
    ensures Dead(Next(mode, word, table, index)) <==> Best(mode, word, table, index) == NO_MATCH
  {
    hide Score, Best, Filter, Hit;
    var b := Best(mode, word, table, index);
    if b != NO_MATCH {
      var k, d := BestScored(mode, word, table, index);
      ScoreHits(mode, word, d.cmd);
      assert Next(mode, word, table, index)[k] == table[k];
    } else {
      NothingAccepted(mode, word, table, index);
    }
  }

  lemma NothingAccepted(mode: Mode, word: string, table: Table, index: nat)
    ensures Best(mode, word, table, index) == NO_MATCH <==>
      forall k :: 0 <= k < |table| ==> !Accepts(mode, word, SlotAt(table[k], index))
    ensures Best(mode, word, table, index) == NO_MATCH ==> Dead(Filter(mode, word, table, index))
    ensures Best(mode, word, table, index) == NO_MATCH ==> Dead(Next(mode, word, table, index))
  {
    hide Score, Best;
    if Best(mode, word, table, index) != NO_MATCH {
      var k, d := BestScored(mode, word, table, index);
      assert Accepts(mode, word, SlotAt(table[k], index));
    } else {
      forall k | 0 <= k < |table| ensures !Accepts(mode, word, SlotAt(table[k], index)) {
        forall d | d in SlotAt(table[k], index) ensures Score(mode, word, d.cmd) == NO_MATCH {
          ScoreAtMostBest(mode, word, table, index, k, d);
        }
      }
      DeadStays(Best(mode, word, table, index), word, Filter(mode, word, table, index), index);
    }
  }

  lemma DeadStays(t: MatchType, word: string, table: Table, index: nat)
    requires Dead(table)
    ensures Dead(Survivors(t, word, table, index))
  {}

  lemma FilterAt(mode: Mode, word: string, table: Table, index: nat, k: nat)
    requires k < |table|
    ensures |Filter(mode, word, table, index)| == |table|
    ensures Filter(mode, word, table, index)[k] == if Accepts(mode, word, SlotAt(table[k], index)) then table[k] else None
    ensures Accepts(mode, word, SlotAt(table[k], index)) ==> table[k].Some?
  {
    hide Score;
  }

  lemma NextAt(mode: Mode, word: string, table: Table, index: nat, k: nat)
    requires k < |table|
    ensures |Next(mode, word, table, index)| == |table|
    ensures var slot := SlotAt(table[k], index);
      Next(mode, word, table, index)[k]
      == if Accepts(mode, word, slot) && HasHit(Best(mode, word, table, index), word, slot) then table[k] else None
  {
    hide Score, Best, Hit, Accepts;
    FilterAt(mode, word, table, index, k);
    hide Filter;
  }

  lemma GoesOn(mode: Mode, word: string, table: Table, index: nat)
    requires Best(mode, word, table, index) != VARARG_MATCH && Best(mode, word, table, index) != NO_MATCH
    requires Verdict(mode, word, table, index) == Clear
    ensures StepOf(mode, word, table, index) == Go(Next(mode, word, table, index))
  {
    hide Best, Verdict, Next, Dead;
    NextIsLive(mode, word, table, index);
  }

  // ---------- Each match type ----------

  /** A '.' alternative ends the loop with what the filter kept. */
  lemma VarargStep(word: string, table: Table, index: nat)
    requires Best(Abbreviated, word, table, index) == VARARG_MATCH
    ensures StepOf(Strict, word, table, index) == StepOf(Abbreviated, word, table, index) <==> FiltersAgree(word, table, index)
  {
    hide Score, Best, Filter, Accepts;
    SameBest(word, table, index);
    FiltersEqual(word, table, index);
  }

  /** An alternative of the best type that is scored alike makes the best the same. */
  lemma SameBest(word: string, table: Table, index: nat)
    requires var t := Best(Abbreviated, word, table, index);
      && NO_MATCH < t < PARTLY_MATCH
      && (t == IPV4_MATCH ==> Ipv4.Ipv4Match(word) == EXACT_MATCH)
      && (t == IPV4_PREFIX_MATCH ==> Ipv4Prefix.Ipv4PrefixMatch(word) == EXACT_MATCH)
      && (t == IPV6_PREFIX_MATCH ==> Ipv6Prefix.Ipv6PrefixMatch(word) == EXACT_MATCH)
    ensures Best(Strict, word, table, index) == Best(Abbreviated, word, table, index)
  {
    hide Score, Best, Filter;
    StrictAtMost(word, table, index);
    var k, d := BestScored(Abbreviated, word, table, index);
    StrictScore(word, d.cmd);
    ScoreAtMostBest(Strict, word, table, index, k, d);
  }

  lemma FiltersEqual(word: string, table: Table, index: nat)
    ensures Filter(Strict, word, table, index) == Filter(Abbreviated, word, table, index) <==> FiltersAgree(word, table, index)
  {
    hide Score, Best, Filter, Accepts;
    var a, s := Filter(Abbreviated, word, table, index), Filter(Strict, word, table, index);
    forall k | 0 <= k < |table|
      ensures s[k] == a[k] <==>
        (Accepts(Abbreviated, word, SlotAt(table[k], index)) ==> Accepts(Strict, word, SlotAt(table[k], index)))
    {
      FilterAt(Abbreviated, word, table, index, k);
      FilterAt(Strict, word, table, index, k);
      if Accepts(Strict, word, SlotAt(table[k], index)) { var d := StrictAccepted(word, table, index, k); }
    }
    FilterLengths(word, table, index);
  }

  lemma FilterLengths(word: string, table: Table, index: nat)
    ensures |Filter(Strict, word, table, index)| == |Filter(Abbreviated, word, table, index)| == |table|
  {
    hide Score, Accepts;
  }

  /** Every alternative counts as a hit of a prefix type. */
  lemma PrefixKeepsAll(mode: Mode, word: string, table: Table, index: nat)
    requires var b := Best(mode, word, table, index);
      (b == IPV4_PREFIX_MATCH && Ipv4Prefix.Ipv4PrefixMatch(word) != NO_MATCH)
      || (b == IPV6_PREFIX_MATCH && Ipv6Prefix.Ipv6PrefixMatch(word) != NO_MATCH)
    ensures Next(mode, word, table, index) == Filter(mode, word, table, index)
  {
    hide Score, Best, Filter, Next;
    var b := Best(mode, word, table, index);
    NextLength(mode, word, table, index);
    forall k | 0 <= k < |table| ensures Next(mode, word, table, index)[k] == Filter(mode, word, table, index)[k] {
      NextAt(mode, word, table, index, k);
      FilterAt(mode, word, table, index, k);
      var slot := SlotAt(table[k], index);
      if Accepts(mode, word, slot) {
        var d :| d in slot && Score(mode, word, d.cmd) != NO_MATCH;
        assert Hit(b, word, d.cmd);
      }
    }
  }

  lemma NextLength(mode: Mode, word: string, table: Table, index: nat)
    ensures |Next(mode, word, table, index)| == |Filter(mode, word, table, index)| == |table|
  {
    hide Score, Best, Accepts, HasHit;
  }

  /** A whole IPv6 prefix. */
  lemma WholePrefix6(word: string, table: Table, index: nat)
    requires Best(Abbreviated, word, table, index) == IPV6_PREFIX_MATCH && Ipv6Prefix.Ipv6PrefixMatch(word) == EXACT_MATCH
    ensures StepOf(Strict, word, table, index) == StepOf(Abbreviated, word, table, index) <==> FiltersAgree(word, table, index)
  {
    hide Score, Best, Filter, Next, FiltersAgree;
    SameBest(word, table, index);
    PrefixKeepsAll(Abbreviated, word, table, index);
    PrefixKeepsAll(Strict, word, table, index);
    GoesOn(Abbreviated, word, table, index);
    GoesOn(Strict, word, table, index);
    FiltersEqual(word, table, index);
  }

  /** A partial prefix is an error for the abbreviated engine; for the strict one it is not there. */
  lemma PartialPrefix(word: string, table: Table, index: nat)
    requires WordIsPartial(Best(Abbreviated, word, table, index), word)
    ensures StepOf(Strict, word, table, index) == StepOf(Abbreviated, word, table, index) <==> NothingStrict(word, table, index)
    ensures StepOf(Abbreviated, word, table, index) == Fail(ErrNoMatch)
  {
    hide Score, Best, Filter, Next, Accepts, Dead;
    PartialFails(word, table, index);
    PartialUnseen(word, table, index);
    StrictClear(word, table, index);
    NextIsLive(Strict, word, table, index);
    NothingAccepted(Strict, word, table, index);
  }

  lemma PartialFails(word: string, table: Table, index: nat)
    requires WordIsPartial(Best(Abbreviated, word, table, index), word)
    ensures Verdict(Abbreviated, word, table, index) == Partial
  {
    hide Score, Best, Filter;
    var k, d := BestScored(Abbreviated, word, table, index);
    assert SlotAt(Filter(Abbreviated, word, table, index)[k], index) != [];
  }

  lemma PartialUnseen(word: string, table: Table, index: nat)
    requires WordIsPartial(Best(Abbreviated, word, table, index), word)
    ensures Best(Strict, word, table, index) < Best(Abbreviated, word, table, index)
  {
    hide Score, Best, Filter;
    StrictAtMost(word, table, index);
    if Best(Strict, word, table, index) != NO_MATCH {
      var k, d := BestScored(Strict, word, table, index);
      RecogniserAccepts(Strict, word, d.cmd);
    }
  }

  /** A whole IPv4 address, or an IPv6 one: what differs between the filters has no such
      alternative. */
  lemma WholeAddress(word: string, table: Table, index: nat)
    requires var t := Best(Abbreviated, word, table, index);
      t == IPV6_MATCH || (t == IPV4_MATCH && Ipv4.Ipv4Match(word) == EXACT_MATCH)
    ensures StepOf(Strict, word, table, index) == StepOf(Abbreviated, word, table, index)
  {
    hide Score, Best, Filter, Next, Accepts, Hit, HasHit, Verdict;
    var t := Best(Abbreviated, word, table, index);
    SameBest(word, table, index);
    AddressClear(Abbreviated, word, table, index);
    AddressClear(Strict, word, table, index);
    GoesOn(Abbreviated, word, table, index);
    GoesOn(Strict, word, table, index);
    if t == IPV6_MATCH { WordIsIpv6(word, table, index); }
    NextLength(Abbreviated, word, table, index);
    NextLength(Strict, word, table, index);
    forall k | 0 <= k < |table| ensures Next(Strict, word, table, index)[k] == Next(Abbreviated, word, table, index)[k] {
      NextAt(Abbreviated, word, table, index, k);
      NextAt(Strict, word, table, index, k);
      AddressAccepted(Abbreviated, word, SlotAt(table[k], index), t);
      AddressAccepted(Strict, word, SlotAt(table[k], index), t);
    }
    assert Next(Strict, word, table, index) == Next(Abbreviated, word, table, index);
  }

  lemma AddressClear(mode: Mode, word: string, table: Table, index: nat)
    requires Best(mode, word, table, index) == IPV4_MATCH || Best(mode, word, table, index) == IPV6_MATCH
    ensures Verdict(mode, word, table, index) == Clear
  {
    hide Best, Filter;
  }

  lemma WordIsIpv6(word: string, table: Table, index: nat)
    requires Best(Abbreviated, word, table, index) == IPV6_MATCH
    ensures Ipv6.Ipv6Match(word) == EXACT_MATCH
  {
    hide Score, Best, Filter;
    var k, d := BestScored(Abbreviated, word, table, index);
    RecogniserAccepts(Abbreviated, word, d.cmd);
  }

  lemma AddressAccepted(mode: Mode, word: string, slot: Slot, t: MatchType)
    requires (t == IPV6_MATCH && Ipv6.Ipv6Match(word) == EXACT_MATCH)
      || (t == IPV4_MATCH && Accepted(mode, Ipv4.Ipv4Match(word)))
    ensures HasHit(t, word, slot) ==> Accepts(mode, word, slot)
  {
    hide Score, Hit;
    if HasHit(t, word, slot) {
      var d :| d in slot && Hit(t, word, d.cmd);
      AddressScores(mode, word, d.cmd, t);
    }
  }

  lemma AddressScores(mode: Mode, word: string, alt: string, t: MatchType)
    requires (t == IPV6_MATCH && Ipv6.Ipv6Match(word) == EXACT_MATCH)
      || (t == IPV4_MATCH && Accepted(mode, Ipv4.Ipv4Match(word)))
    requires Hit(t, word, alt)
    ensures Score(mode, word, alt) == t
  {}

  /** A part of an IPv4 address: the abbreviated engine goes on with the elements that have the
      address, the strict one with whatever else accepts the word. */
  lemma PartialAddress(word: string, table: Table, index: nat)
    requires Best(Abbreviated, word, table, index) == IPV4_MATCH && Ipv4.Ipv4Match(word) == PARTLY_MATCH
    ensures StepOf(Strict, word, table, index) == StepOf(Abbreviated, word, table, index)
      <==> StrictKeepsAddresses(word, table, index)
  {
    hide Score, Best, Filter, Next, Accepts, Hit, HasHit, Verdict, Dead;
    AddressClear(Abbreviated, word, table, index);
    GoesOn(Abbreviated, word, table, index);
    AddressUnseen(word, table, index);
    StrictClear(word, table, index);
    NextIsLive(Strict, word, table, index);
    NextIsLive(Abbreviated, word, table, index);
    StrictKeepsFiltered(word, table, index);
    NextLength(Abbreviated, word, table, index);
    NextLength(Strict, word, table, index);
    var a, s := Next(Abbreviated, word, table, index), Filter(Strict, word, table, index);
    forall k | 0 <= k < |table|
      ensures s[k] == a[k] <==>
        (Accepts(Strict, word, SlotAt(table[k], index)) <==> HasHit(IPV4_MATCH, word, SlotAt(table[k], index)))
    {
      NextAt(Abbreviated, word, table, index, k);
      FilterAt(Strict, word, table, index, k);
      FilterAt(Abbreviated, word, table, index, k);
      AddressAccepted(Abbreviated, word, SlotAt(table[k], index), IPV4_MATCH);
    }
    assert s == a <==> StrictKeepsAddresses(word, table, index);
  }

  lemma AddressUnseen(word: string, table: Table, index: nat)
    requires Best(Abbreviated, word, table, index) == IPV4_MATCH && Ipv4.Ipv4Match(word) == PARTLY_MATCH
    ensures Best(Strict, word, table, index) < IPV4_MATCH
  {
    hide Score, Best, Filter;
    StrictAtMost(word, table, index);
    if Best(Strict, word, table, index) != NO_MATCH {
      var k, d := BestScored(Strict, word, table, index);
      RecogniserAccepts(Strict, word, d.cmd);
    }
  }

  /** Below the addresses the ambiguity pass drops nothing that the strict filter kept. */
  lemma StrictKeepsFiltered(word: string, table: Table, index: nat)
    requires Best(Strict, word, table, index) < IPV4_MATCH
    ensures Next(Strict, word, table, index) == Filter(Strict, word, table, index)
  {
    hide Score, Best, Filter, Next, Accepts, Hit;
    var b := Best(Strict, word, table, index);
    if b != NO_MATCH {
      var k, d := BestScored(Strict, word, table, index);
      RecogniserAccepts(Strict, word, d.cmd);
    }
    NextLength(Strict, word, table, index);
    forall k | 0 <= k < |table| ensures Next(Strict, word, table, index)[k] == Filter(Strict, word, table, index)[k] {
      NextAt(Strict, word, table, index, k);
      FilterAt(Strict, word, table, index, k);
      if Accepts(Strict, word, SlotAt(table[k], index)) {
        var d := StrictAccepted(word, table, index, k);
        LowScoreHits(word, d.cmd, b);
      }
    }
  }

  lemma LowScoreHits(word: string, alt: string, b: MatchType)
    requires NO_MATCH < Score(Strict, word, alt) <= b < IPV4_MATCH
    requires b == IPV4_PREFIX_MATCH ==> Score(Strict, word, alt) == b || Ipv4Prefix.Ipv4PrefixMatch(word) != NO_MATCH
    ensures Hit(b, word, alt)
  {}

  /** Ranges: the strict engine sees fewer hits, and so fewer clashes. */
  lemma RangeStep(word: string, table: Table, index: nat)
    requires Best(Abbreviated, word, table, index) == RANGE_MATCH
    ensures StepOf(Strict, word, table, index) == StepOf(Abbreviated, word, table, index)
      <==> StrictRangesClash(word, table, index) || StrictKeepsRanges(word, table, index)
  {
    hide Score, Best, Filter, Next, Accepts, Hit, HasHit, Dead, Clashes, StrictKeepsRanges;
    SameBest(word, table, index);
    RangeVerdict(Abbreviated, word, table, index);
    RangeVerdict(Strict, word, table, index);
    ClashCarries(word, table, index);
    if !StrictRangesClash(word, table, index) {
      RangeNext(word, table, index);
      if StrictKeepsRanges(word, table, index) {
        ClashCarriesBack(word, table, index);
        RangeGoes(Abbreviated, word, table, index);
        RangeGoes(Strict, word, table, index);
      } else {
        RangeGoes(Strict, word, table, index);
        RangeGoes(Abbreviated, word, table, index);
      }
    }
  }

  lemma RangeVerdict(mode: Mode, word: string, table: Table, index: nat)
    requires Best(mode, word, table, index) == RANGE_MATCH
    ensures Verdict(mode, word, table, index)
      == if Clashes(RANGE_MATCH, word, Filter(mode, word, table, index), index) then Clash else Clear
  {
    hide Best, Filter, Clashes;
  }

  lemma RangeGoes(mode: Mode, word: string, table: Table, index: nat)
    requires Best(mode, word, table, index) == RANGE_MATCH
    ensures StepOf(mode, word, table, index)
      == if Clashes(RANGE_MATCH, word, Filter(mode, word, table, index), index) then Fail(ErrAmbiguous)
         else Go(Next(mode, word, table, index))
  {
    hide Best, Filter, Clashes, Next, Dead, Verdict;
    RangeVerdict(mode, word, table, index);
    NextIsLive(mode, word, table, index);
  }

  lemma RangeNext(word: string, table: Table, index: nat)
    requires Best(Abbreviated, word, table, index) == Best(Strict, word, table, index) == RANGE_MATCH
    ensures Next(Strict, word, table, index) == Next(Abbreviated, word, table, index) <==> StrictKeepsRanges(word, table, index)
  {
    hide Score, Best, Filter, Next, Accepts, HasHit;
    var a, s := Next(Abbreviated, word, table, index), Next(Strict, word, table, index);
    NextLength(Abbreviated, word, table, index);
    NextLength(Strict, word, table, index);
    forall k | 0 <= k < |table|
      ensures s[k] == a[k] <==>
        (HasHit(RANGE_MATCH, word, SlotAt(table[k], index)) && Accepts(Abbreviated, word, SlotAt(table[k], index)) ==>
           Accepts(Strict, word, SlotAt(table[k], index)))
    {
      NextAt(Abbreviated, word, table, index, k);
      NextAt(Strict, word, table, index, k);
      FilterAt(Abbreviated, word, table, index, k);
      if Accepts(Strict, word, SlotAt(table[k], index)) { var d := StrictAccepted(word, table, index, k); }
    }
  }

  /** What the strict engine hits, the abbreviated one hits too. */
  lemma HitCarries(word: string, table: Table, index: nat, text: string)
    requires HitText(RANGE_MATCH, word, Filter(Strict, word, table, index), index, text)
    ensures HitText(RANGE_MATCH, word, Filter(Abbreviated, word, table, index), index, text)
  {
    hide Score, Best, Filter, Accepts, Hit;
    var a, s := Filter(Abbreviated, word, table, index), Filter(Strict, word, table, index);
    var k, d :| 0 <= k < |s| && d in SlotAt(s[k], index) && d.cmd == text && Hit(RANGE_MATCH, word, text);
    FilterLengths(word, table, index);
    FilterAt(Strict, word, table, index, k);
    FilterAt(Abbreviated, word, table, index, k);
    if Accepts(Strict, word, SlotAt(table[k], index)) { var e := StrictAccepted(word, table, index, k); }
    assert d in SlotAt(a[k], index);
  }

  lemma ClashCarries(word: string, table: Table, index: nat)
    ensures Clashes(RANGE_MATCH, word, Filter(Strict, word, table, index), index) ==>
      Clashes(RANGE_MATCH, word, Filter(Abbreviated, word, table, index), index)
  {
    hide HitText, Filter;
    var a, s := Filter(Abbreviated, word, table, index), Filter(Strict, word, table, index);
    if Clashes(RANGE_MATCH, word, s, index) {
      var c1, c2 :| HitText(RANGE_MATCH, word, s, index, c1) && HitText(RANGE_MATCH, word, s, index, c2) && c1 != c2;
      HitCarries(word, table, index, c1);
      HitCarries(word, table, index, c2);
    }
  }

  lemma HitCarriesBack(word: string, table: Table, index: nat, text: string)
    requires StrictKeepsRanges(word, table, index)
    requires HitText(RANGE_MATCH, word, Filter(Abbreviated, word, table, index), index, text)
    ensures HitText(RANGE_MATCH, word, Filter(Strict, word, table, index), index, text)
  {
    hide Score, Best, Filter, Accepts, Hit;
    var a, s := Filter(Abbreviated, word, table, index), Filter(Strict, word, table, index);
    var k, d :| 0 <= k < |a| && d in SlotAt(a[k], index) && d.cmd == text && Hit(RANGE_MATCH, word, text);
    FilterLengths(word, table, index);
    FilterAt(Strict, word, table, index, k);
    FilterAt(Abbreviated, word, table, index, k);
    assert HasHit(RANGE_MATCH, word, SlotAt(table[k], index));
    assert d in SlotAt(s[k], index);
  }

  lemma ClashCarriesBack(word: string, table: Table, index: nat)
    requires StrictKeepsRanges(word, table, index)
    ensures Clashes(RANGE_MATCH, word, Filter(Abbreviated, word, table, index), index) ==>
      Clashes(RANGE_MATCH, word, Filter(Strict, word, table, index), index)
  {
    hide HitText, Filter, StrictKeepsRanges;
    var a, s := Filter(Abbreviated, word, table, index), Filter(Strict, word, table, index);
    if Clashes(RANGE_MATCH, word, a, index) {
      var c1, c2 :| HitText(RANGE_MATCH, word, a, index, c1) && HitText(RANGE_MATCH, word, a, index, c2) && c1 != c2;
      HitCarriesBack(word, table, index, c1);
      HitCarriesBack(word, table, index, c2);
    }
  }

  // ---------- Keywords ----------

  /** An abbreviation, written out for the strict engine when it is not ambiguous. */
  lemma AbbreviationStep(word: string, table: Table, index: nat)
    requires Best(Abbreviated, word, table, index) == PARTLY_MATCH
    ensures StepOf(Strict, Expanded(word, table, index), table, index) == StepOf(Abbreviated, word, table, index)
      <==> Verdict(Abbreviated, word, table, index) == Clear || StrictRangesClash(word, table, index)
  {
    hide Score, Best, Filter, Next, Verdict, Expanded, Abbreviates, StrictRangesClash;
    if Verdict(Abbreviated, word, table, index) == Clear {
      AbbreviatesIf(word, table, index);
      ExpansionStep(Strict, word, table, index);
    } else {
      NotClearNotAbbreviated(word, table, index);
      AmbiguousAbbreviation(word, table, index);
    }
  }

  lemma NotClearNotAbbreviated(word: string, table: Table, index: nat)
    requires Best(Abbreviated, word, table, index) == PARTLY_MATCH && Verdict(Abbreviated, word, table, index) != Clear
    ensures Expanded(word, table, index) == word && Verdict(Abbreviated, word, table, index) == Clash
  {
    hide Best, Filter;
  }

  lemma AmbiguousAbbreviation(word: string, table: Table, index: nat)
    ensures StepOf(Strict, word, table, index) == Fail(ErrAmbiguous) <==> StrictRangesClash(word, table, index)
  {
    hide Score, Best, Filter, Next, Clashes, Dead;
    if Best(Strict, word, table, index) == RANGE_MATCH {
      RangeGoes(Strict, word, table, index);
    } else {
      StrictNeverPartly(word, table, index);
      OtherTypesNoClash(word, table, index);
    }
  }

  lemma StrictNeverPartly(word: string, table: Table, index: nat)
    ensures Best(Strict, word, table, index) != PARTLY_MATCH
  {
    hide Score, Best, Filter;
    if Best(Strict, word, table, index) != NO_MATCH {
      var k, d := BestScored(Strict, word, table, index);
      StrictScore(word, d.cmd);
    }
  }

  lemma OtherTypesNoClash(word: string, table: Table, index: nat)
    requires Best(Strict, word, table, index) != PARTLY_MATCH && Best(Strict, word, table, index) != RANGE_MATCH
    ensures Verdict(Strict, word, table, index) != Clash
  {
    hide Best, Filter;
  }

  lemma KeywordStep(word: string, table: Table, index: nat)
    requires Best(Abbreviated, word, table, index) == EXACT_MATCH
    ensures StepOf(Strict, word, table, index) == StepOf(Abbreviated, word, table, index)
  {
    hide Score, Best, Filter, Next, Verdict, Dead;
    ExactStep(Strict, word, table, index);
    ExactStep(Abbreviated, word, table, index);
  }

  // ---------- The exact condition ----------

  /** Main result for one word: the strict engine does with the word, written out, what the
      abbreviated engine does with it as typed, if and only if the condition holds. */
  lemma StepsAgreeExactly(word: string, table: Table, index: nat)
    ensures StepOf(Strict, Expanded(word, table, index), table, index) == StepOf(Abbreviated, word, table, index)
      <==> StrictFollows(word, table, index)
  {
    hide Score, Best, Filter, Next, Verdict, Expanded, StepOf, FiltersAgree, NothingStrict, StrictKeepsAddresses,
         StrictRangesClash, StrictKeepsRanges, Scores;
    var t := Best(Abbreviated, word, table, index);
    if t == PARTLY_MATCH {
      AbbreviationStep(word, table, index);
    } else {
      NotAbbreviatedIf(word, table, index);
      if t == VARARG_MATCH {
        VarargStep(word, table, index);
      } else if t == EXACT_MATCH {
        KeywordStep(word, table, index);
      } else if t == RANGE_MATCH {
        RangeStep(word, table, index);
      } else if t == IPV6_MATCH {
        WholeAddress(word, table, index);
      } else if t == NO_MATCH || t == EXTEND_MATCH {
        SameScores(word, table, index);
        SameScoresSameStep(word, table, index);
      } else {
        AddressStep(word, table, index);
      }
    }
  }

  /** The three types whose recogniser tells parts from wholes. */
  lemma AddressStep(word: string, table: Table, index: nat)
    requires Best(Abbreviated, word, table, index) in {IPV4_MATCH, IPV4_PREFIX_MATCH, IPV6_PREFIX_MATCH}
    ensures StepOf(Strict, word, table, index) == StepOf(Abbreviated, word, table, index)
      <==> StrictFollows(word, table, index)
  {
    hide Score, Best, Filter, Next, Verdict, StepOf, FiltersAgree, NothingStrict, StrictKeepsAddresses, Scores;
    var t := Best(Abbreviated, word, table, index);
    var k, d := BestScored(Abbreviated, word, table, index);
    RecogniserAccepts(Abbreviated, word, d.cmd);
    if WordIsPartial(t, word) {
      PartialPrefix(word, table, index);
    } else if t == IPV6_PREFIX_MATCH {
      WholePrefix6(word, table, index);
    } else if t == IPV4_PREFIX_MATCH {
      SameScores(word, table, index);
      SameScoresSameStep(word, table, index);
    } else if Ipv4.Ipv4Match(word) == EXACT_MATCH {
      WholeAddress(word, table, index);
    } else {
      PartialAddress(word, table, index);
    }
  }

  // ---------- Whole lines ----------

  /** The condition for every word up to the one that ends the loop. */
  ghost predicate FollowsRun(words: seq<string>, table: Table, index: nat)
    decreases |words|
  {
    words == [] || (
      && StrictFollows(words[0], table, index)
      && (StepOf(Abbreviated, words[0], table, index).Go? ==>
            FollowsRun(words[1..], StepOf(Abbreviated, words[0], table, index).table, index + 1)))
  }

  /** A dead table stays dead, and selects nothing. */
  lemma {:induction false} DeadNarrow(mode: Mode, words: seq<string>, table: Table, index: nat)
    requires Dead(table)
    ensures Narrow(mode, words, table, index).Narrowed? && !Narrow(mode, words, table, index).vararg
    ensures Dead(Narrow(mode, words, table, index).table)
    decreases |words|
  {
    hide Score, Best, Filter, Next, Accepts, Dead, Verdict;
    if words != [] {
      DeadAccepts(mode, words[0], table, index);
      NothingAccepted(mode, words[0], table, index);
      NoMatchClear(mode, words[0], table, index);
      DeadNarrow(mode, words[1..], Next(mode, words[0], table, index), index + 1);
      NarrowGo(mode, words, table, index);
    }
  }

  lemma DeadAccepts(mode: Mode, word: string, table: Table, index: nat)
    requires Dead(table)
    ensures forall k :: 0 <= k < |table| ==> !Accepts(mode, word, SlotAt(table[k], index))
  {
    hide Score;
  }

  lemma NoMatchClear(mode: Mode, word: string, table: Table, index: nat)
    requires Best(mode, word, table, index) == NO_MATCH
    ensures Verdict(mode, word, table, index) == Clear
  {
    hide Best, Filter;
  }

  lemma NarrowGo(mode: Mode, words: seq<string>, table: Table, index: nat)
    requires words != [] && Best(mode, words[0], table, index) != VARARG_MATCH
    requires Verdict(mode, words[0], table, index) == Clear
    ensures Narrow(mode, words, table, index) == Narrow(mode, words[1..], Next(mode, words[0], table, index), index + 1)
  {
    hide Best, Filter, Survivors, Ambiguous;
  }

  lemma DeadSelects(n: Narrowing)
    requires n.Narrowed? && Dead(n.table)
    ensures Select(n) == Rejected(ErrNoMatch)
  {}

  /** What a step says about the narrowing of the whole line. */
  lemma NarrowByStep(mode: Mode, words: seq<string>, table: Table, index: nat)
    requires words != []
    ensures var n := Narrow(mode, words, table, index);
      match StepOf(mode, words[0], table, index)
      case Stop(t) => n == Narrowed(t, index, true)
      case Fail(f) => Select(n) == Rejected(f) && (n.Narrowed? ==> Dead(n.table))
      case Go(t) => n == Narrow(mode, words[1..], t, index + 1)
  {
    hide Score, Best, Filter, Survivors, Ambiguous, Dead, Choose;
    if Best(mode, words[0], table, index) != VARARG_MATCH && Verdict(mode, words[0], table, index) == Clear {
      NarrowGo(mode, words, table, index);
      if Dead(Next(mode, words[0], table, index)) {
        DeadNarrow(mode, words[1..], Next(mode, words[0], table, index), index + 1);
        DeadSelects(Narrow(mode, words, table, index));
      }
    }
  }

  lemma ExpandHead(words: seq<string>, table: Table, index: nat)
    requires words != []
    ensures var line := Expand(words, table, index);
      && line != [] && line[0] == Expanded(words[0], table, index)
      && (StepOf(Abbreviated, words[0], table, index).Go? ==>
            line[1..] == Expand(words[1..], StepOf(Abbreviated, words[0], table, index).table, index + 1))
  {
    hide Score, Best, Filter, Survivors, Ambiguous, Dead, Expanded;
  }

  /** Main result for whole lines: where every step follows, the strict engine selects for the
      expanded line what the abbreviated engine selects for the typed one, and is left with the
      same table unless none is live. */
  lemma {:induction false} StrictAgrees(words: seq<string>, table: Table, index: nat)
    requires FollowsRun(words, table, index)
    ensures var s := Narrow(Strict, Expand(words, table, index), table, index);
      var a := Narrow(Abbreviated, words, table, index);
      Select(s) == Select(a) && (a.Narrowed? && !Dead(a.table) ==> s == a)
    decreases |words|
  {
    hide StrictFollows, StepOf, Expanded, Select, Dead;
    if words != [] {
      var line := Expand(words, table, index);
      ExpandHead(words, table, index);
      StepsAgreeExactly(words[0], table, index);
      hide Narrow, Expand;
      NarrowByStep(Abbreviated, words, table, index);
      NarrowByStep(Strict, line, table, index);
      var step := StepOf(Abbreviated, words[0], table, index);
      if step.Go? { StrictAgrees(words[1..], step.table, index + 1); }
    }
  }

  /** The strict engine runs the written-out line as the abbreviated engine runs the typed one. */
  lemma StrictRunsExpandedLine(table: Table, words: seq<string>)
    requires FollowsRun(words, table, 0)
    ensures AgreeOn(words, table)
  {
    hide Narrow, Expand, Extract, Choose, FollowsRun;
    StrictAgrees(words, table, 0);
    ExpandLength(words, table, 0);
    NarrowFailures(Abbreviated, words, table, 0);
    var c := Select(Narrow(Abbreviated, words, table, 0));
    ChooseFailures(Narrow(Abbreviated, words, table, 0));
    SameNarrowingSameOutcome(c, words, Expand(words, table, 0));
  }

  /** Both engines return the same error, or run the same command with arguments from the same
      positions, the strict one on the line written out. */
  ghost predicate AgreeOn(words: seq<string>, table: Table) {
    var line := Expand(words, table, 0);
    Execute(Strict, table, line) == OnLine(Execute(Abbreviated, table, words), line)
  }

  // ---------- Keywords ----------

  /** Every word is a keyword or an unambiguous abbreviation of one. */
  ghost predicate KeywordRun(words: seq<string>, table: Table, index: nat)
    decreases |words|
  {
    words == [] || (
      var t := Best(Abbreviated, words[0], table, index);
      && (t == EXACT_MATCH || t == PARTLY_MATCH)
      && Verdict(Abbreviated, words[0], table, index) == Clear
      && KeywordRun(words[1..], Next(Abbreviated, words[0], table, index), index + 1))
  }

  lemma {:induction false} KeywordRunFollows(words: seq<string>, table: Table, index: nat)
    requires KeywordRun(words, table, index)
    ensures FollowsRun(words, table, index)
    decreases |words|
  {
    hide Best, Verdict, Next;
    if words != [] { KeywordRunFollows(words[1..], Next(Abbreviated, words[0], table, index), index + 1); }
  }

  /** Main result for keywords: a line of keywords and abbreviations, written out, is run alike by
      both engines, and as the abbreviated engine runs the line as it was typed. */
  lemma KeywordLineRunsAlike(table: Table, words: seq<string>)
    requires KeywordRun(words, table, 0)
    ensures var line := Expand(words, table, 0);
      Execute(Strict, table, line) == Execute(Abbreviated, table, line) == OnLine(Execute(Abbreviated, table, words), line)
  {
    hide KeywordRun, FollowsRun, Execute, Expand, OnLine;
    KeywordRunFollows(words, table, 0);
    StrictRunsExpandedLine(table, words);
    ExpandedLineRunsAlike(table, words);
  }

  // ---------- Conditions on the table or on the words alone ----------

  /** No abbreviation on the way is ambiguous. */
  ghost predicate UnambiguousRun(words: seq<string>, table: Table, index: nat)
    decreases |words|
  {
    words == [] || (
      && Unambiguous(words[0], table, index)
      && (StepOf(Abbreviated, words[0], table, index).Go? ==>
            UnambiguousRun(words[1..], StepOf(Abbreviated, words[0], table, index).table, index + 1)))
  }

  ghost predicate Unambiguous(word: string, table: Table, index: nat) {
    Best(Abbreviated, word, table, index) == PARTLY_MATCH ==> Verdict(Abbreviated, word, table, index) == Clear
  }

  /** No recogniser calls the word part of an address. */
  predicate NoPartialAddress(word: string) {
    Ipv4.Ipv4Match(word) != PARTLY_MATCH
    && Ipv4Prefix.Ipv4PrefixMatch(word) != PARTLY_MATCH
    && Ipv6Prefix.Ipv6PrefixMatch(word) != PARTLY_MATCH
  }

  /** No command has an address or prefix alternative of a kind that is matched in parts. */
  predicate AddressFree(table: Table) {
    forall k, i, d :: 0 <= k < |table| && table[k].Some? && 0 <= i < |table[k].value.slots| && d in table[k].value.slots[i] ==>
      !IsIpv4(d.cmd) && !IsIpv4Prefix(d.cmd) && !IsIpv6Prefix(d.cmd)
  }

  lemma FollowsIf(word: string, table: Table, index: nat)
    requires NoPartialAddress(word) || AddressFree(table)
    requires Unambiguous(word, table, index)
    ensures StrictFollows(word, table, index)
  {
    hide Score, Best, Filter, Verdict, Scores, AddressFree, StrictRangesClash;
    var t := Best(Abbreviated, word, table, index);
    if t != NO_MATCH && t < PARTLY_MATCH {
      var k, d := BestScored(Abbreviated, word, table, index);
      RecogniserAccepts(Abbreviated, word, d.cmd);
      AgreeIf(word, table, index);
      if AddressFree(table) { AddressScoreNeeds(word, table, k, index, d); }
    }
  }

  lemma AddressScoreNeeds(word: string, table: Table, k: nat, index: nat, d: Desc)
    requires k < |table| && d in SlotAt(table[k], index) && AddressFree(table)
    ensures Score(Abbreviated, word, d.cmd) !in {IPV4_MATCH, IPV4_PREFIX_MATCH, IPV6_PREFIX_MATCH}
  {}

  lemma AgreeIf(word: string, table: Table, index: nat)
    requires NoPartialAddress(word) || AddressFree(table)
    requires Best(Abbreviated, word, table, index) < PARTLY_MATCH
    ensures FiltersAgree(word, table, index)
  {
    hide Score, Best, AddressFree;
    forall k | 0 <= k < |table| && Accepts(Abbreviated, word, SlotAt(table[k], index))
      ensures Accepts(Strict, word, SlotAt(table[k], index))
    {
      var d :| d in SlotAt(table[k], index) && Score(Abbreviated, word, d.cmd) != NO_MATCH;
      ScoreAtMostBest(Abbreviated, word, table, index, k, d);
      StrictScore(word, d.cmd);
      if AddressFree(table) { AddressScoreNeeds(word, table, k, index, d); }
    }
  }

  lemma StepKeepsAddressFree(word: string, table: Table, index: nat)
    requires AddressFree(table) && StepOf(Abbreviated, word, table, index).Go?
    ensures AddressFree(StepOf(Abbreviated, word, table, index).table)
  {
    hide Score, Best, Filter, Next, Accepts, HasHit, Dead;
    var next := Next(Abbreviated, word, table, index);
    NextLength(Abbreviated, word, table, index);
    forall k | 0 <= k < |table| ensures next[k] == table[k] || next[k].None? { NextAt(Abbreviated, word, table, index, k); }
  }

  /** On a table without such alternatives every unambiguous line is treated alike, numbers at
      ranges and at '.' alternatives included. */
  lemma {:induction false} AddressFreeFollows(words: seq<string>, table: Table, index: nat)
    requires AddressFree(table) && UnambiguousRun(words, table, index)
    ensures FollowsRun(words, table, index)
    decreases |words|
  {
    hide AddressFree, StrictFollows, StepOf, Unambiguous;
    if words != [] {
      FollowsIf(words[0], table, index);
      if StepOf(Abbreviated, words[0], table, index).Go? {
        StepKeepsAddressFree(words[0], table, index);
        AddressFreeFollows(words[1..], StepOf(Abbreviated, words[0], table, index).table, index + 1);
      }
    }
  }

  lemma {:induction false} WholeWordsFollow(words: seq<string>, table: Table, index: nat)
    requires (forall i :: 0 <= i < |words| ==> NoPartialAddress(words[i])) && UnambiguousRun(words, table, index)
    ensures FollowsRun(words, table, index)
    decreases |words|
  {
    hide NoPartialAddress, StrictFollows, StepOf, Unambiguous;
    if words != [] {
      FollowsIf(words[0], table, index);
      if StepOf(Abbreviated, words[0], table, index).Go? {
        WholeWordsFollow(words[1..], StepOf(Abbreviated, words[0], table, index).table, index + 1);
      }
    }
  }

  // ---------- A table that tells the engines apart ----------

  function Variables(n: nat): (slots: seq<Slot>)
    ensures |slots| == n && forall i :: 0 <= i < n ==> slots[i] == [Desc("WORD", None)]
  {
    if n == 0 then [] else Variables(n - 1) + [[Desc("WORD", None)]]
  }

  /** A command with `n` variables before a last alternative. */
  function After(n: nat, last: string, func: nat): (e: Element)
    ensures |e.slots| == n + 1 && e.slots[n] == [Desc(last, None)]
    ensures forall i :: 0 <= i < n ==> e.slots[i] == [Desc("WORD", None)]
  {
    Element(last, Variables(n) + [[Desc(last, None)]], n + 1, false, func)
  }

  /** The address that a word is part of. */
  function Rival(word: string): string {
    if Ipv4.Ipv4Match(word) == PARTLY_MATCH then "A.B.C.D"
    else if Ipv4Prefix.Ipv4PrefixMatch(word) == PARTLY_MATCH then "A.B.C.D/M"
    else "X:X::X:X/M"
  }

  /** Two commands, one with a '.' where the other has the address. */
  function Contest(n: nat, word: string): Table {
    [Some(After(n, ".LINE", 1)), Some(After(n, Rival(word), 2))]
  }

  /** Before that place every word is a variable for both. */
  lemma VariableStep(mode: Mode, n: nat, word: string, table: Table, index: nat)
    requires index < n && table == Contest(n, word)
    ensures forall w :: Best(mode, w, table, index) == EXTEND_MATCH && Verdict(mode, w, table, index) == Clear
                        && Next(mode, w, table, index) == table
  {
    hide After, Score, Best, Filter, Next, Verdict;
    var d := Desc("WORD", None);
    assert SlotAt(table[0], index) == [d] && SlotAt(table[1], index) == [d];
    forall w
      ensures Best(mode, w, table, index) == EXTEND_MATCH && Verdict(mode, w, table, index) == Clear
              && Next(mode, w, table, index) == table
    {
      VariableScore(mode, w, table, index, d);
    }
  }

  lemma VariableScore(mode: Mode, w: string, table: Table, index: nat, d: Desc)
    requires d.cmd == "WORD" && |table| == 2 && SlotAt(table[0], index) == [d] && SlotAt(table[1], index) == [d]
    ensures Best(mode, w, table, index) == EXTEND_MATCH && Verdict(mode, w, table, index) == Clear
    ensures Next(mode, w, table, index) == table
  {
    assert Score(mode, w, d.cmd) == EXTEND_MATCH && Hit(EXTEND_MATCH, w, d.cmd);
    hide Score, Hit, Best, Next, Filter;
    assert d in SlotAt(table[0], index) && d in SlotAt(table[1], index);
    assert Scores(mode, w, table, index, EXTEND_MATCH);
    BestIs(mode, w, table, index, EXTEND_MATCH);
    ExtendClear(mode, w, table, index);
    NextLength(mode, w, table, index);
    forall k | 0 <= k < 2 ensures Next(mode, w, table, index)[k] == table[k] { NextAt(mode, w, table, index, k); }
  }

  lemma ExtendClear(mode: Mode, word: string, table: Table, index: nat)
    requires Best(mode, word, table, index) == EXTEND_MATCH
    ensures Verdict(mode, word, table, index) == Clear
  {
    hide Best, Filter;
  }

  /** The strict engine drops the address, the abbreviated one keeps it. */
  lemma ContestStep(n: nat, word: string, table: Table)
    requires table == Contest(n, word) && !NoPartialAddress(word)
    ensures Best(Strict, word, table, n) == Best(Abbreviated, word, table, n) == VARARG_MATCH
    ensures Filter(Strict, word, table, n) == [table[0], None] && Filter(Abbreviated, word, table, n) == table
  {
    hide After, NoPartialAddress, Rival;
    var d0, d1 := Desc(".LINE", None), Desc(Rival(word), None);
    assert SlotAt(table[0], n) == [d0] && SlotAt(table[1], n) == [d1];
    ContestScores(word);
    ContestBest(Strict, word, table, n, d0, d1);
    ContestBest(Abbreviated, word, table, n, d0, d1);
  }

  lemma ContestScores(word: string)
    requires !NoPartialAddress(word)
    ensures Score(Strict, word, Rival(word)) == NO_MATCH
    ensures NO_MATCH < Score(Abbreviated, word, Rival(word)) < VARARG_MATCH
  {}

  lemma ContestBest(mode: Mode, word: string, table: Table, n: nat, d0: Desc, d1: Desc)
    requires |table| == 2 && SlotAt(table[0], n) == [d0] && SlotAt(table[1], n) == [d1] && d0.cmd == ".LINE"
    requires Score(mode, word, d1.cmd) < VARARG_MATCH
    ensures Best(mode, word, table, n) == VARARG_MATCH
    ensures Filter(mode, word, table, n) == [table[0], if Score(mode, word, d1.cmd) == NO_MATCH then None else table[1]]
  {
    assert Score(mode, word, d0.cmd) == VARARG_MATCH;
    hide Score, Best, Filter;
    assert d0 in SlotAt(table[0], n) && d1 in SlotAt(table[1], n);
    assert Scores(mode, word, table, n, VARARG_MATCH);
    BestIs(mode, word, table, n, VARARG_MATCH);
    FilterAt(mode, word, table, n, 0);
    FilterAt(mode, word, table, n, 1);
  }

  lemma {:induction false} ContestNarrow(mode: Mode, words: seq<string>, n: nat, j: nat, table: Table)
    requires j <= n < |words| && !NoPartialAddress(words[n]) && table == Contest(n, words[n])
    ensures Narrow(mode, words[j..], table, j) == Narrowed(Filter(mode, words[n], table, n), n, true)
    ensures Expand(words[j..], table, j) == words[j..]
    ensures UnambiguousRun(words[j..], table, j)
    decreases n - j
  {
    hide Score, Best, Filter, Next, Verdict, Contest, NoPartialAddress, Expanded, Dead;
    var rest := words[j..];
    if j < n {
      VariableStep(Abbreviated, n, words[n], table, j);
      VariableStep(mode, n, words[n], table, j);
      ContestNarrow(mode, words, n, j + 1, table);
      assert rest[1..] == words[j + 1..];
      NarrowGo(mode, rest, table, j);
      NotAbbreviatedIf(rest[0], table, j);
      assert rest == [rest[0]] + rest[1..];
    } else {
      ContestStep(n, words[n], table);
      NotAbbreviatedIf(rest[0], table, j);
      assert rest == [rest[0]] + rest[1..];
    }
  }

  lemma ChooseOfTwo(e: Element, f: Element, index: nat)
    ensures Choose([Some(e), None], index, true) == Chosen(e)
    ensures Choose([Some(e), Some(f)], index, true) == Choice.Rejected(ErrAmbiguous)
  {
    var one, two: Table := [Some(e), None], [Some(e), Some(f)];
    assert Complete(one[0], index, true) && OnlyComplete(one, index, true, 0);
    assert Complete(two[0], index, true) && Complete(two[1], index, true);
  }

  /** A word that is part of an address and not a whole one, wherever it stands in a line: where a
      '.' alternative competes with that address, the strict engine gets as far as the '.' command,
      the abbreviated one finds the line ambiguous. */
  lemma PartialAddressDiverges(words: seq<string>, n: nat)
    requires n < |words| && !NoPartialAddress(words[n])
    ensures var table := Contest(n, words[n]);
      && UnambiguousRun(words, table, 0) && Expand(words, table, 0) == words
      && Execute(Strict, table, words) == Extract(table[0].value, words)
      && Execute(Abbreviated, table, words) == ErrAmbiguous
      && !AgreeOn(words, table)
  {
    hide Score, Best, Filter, Narrow, Choose, Extract, Expand, NoPartialAddress, After, UnambiguousRun;
    var table := Contest(n, words[n]);
    assert words[0..] == words;
    ContestNarrow(Strict, words, n, 0, table);
    ContestNarrow(Abbreviated, words, n, 0, table);
    ContestStep(n, words[n], table);
    ChooseOfTwo(table[0].value, table[1].value, n);
    NeverAmbiguous(table[0].value, words);
  }

  lemma NeverAmbiguous(e: Element, words: seq<string>)
    ensures Extract(e, words) != ErrAmbiguous
  {}

  /** Main result for lines: the engines agree on every table on which no abbreviation is ambiguous,
      if and only if no word of the line is part of an address. */
  lemma WholeWordsExactly(words: seq<string>)
    ensures (forall table: Table :: UnambiguousRun(words, table, 0) ==> AgreeOn(words, table))
      <==> forall i :: 0 <= i < |words| ==> NoPartialAddress(words[i])
  {
    hide NoPartialAddress, UnambiguousRun, AgreeOn, Contest, FollowsRun;
    if forall i :: 0 <= i < |words| ==> NoPartialAddress(words[i]) {
      forall table: Table | UnambiguousRun(words, table, 0) ensures AgreeOn(words, table) {
        WholeWordsFollow(words, table, 0);
        StrictRunsExpandedLine(table, words);
      }
    } else {
      var n: nat :| n < |words| && !NoPartialAddress(words[n]);
      PartialAddressDiverges(words, n);
    }
  }
}
