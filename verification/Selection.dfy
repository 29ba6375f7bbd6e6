/** What a command that was selected satisfies, and when reading its slots stays in bounds. */
module Selection {
  import opened Options
  import opened MatchTypes
  import opened Commands

  /** How many words the loop over the line matched. */
  function MatchedWords(n: Narrowing): nat
    requires n.Narrowed?
  {
    if n.vararg then n.index + 1 else n.index
  }

  /** Entry `k` of the narrowed table is NULL or the entry it started as, accepting every matched word. */
  predicate Survived(mode: Mode, words: seq<string>, table: Table, index: nat, n: Narrowing)
    requires n.Narrowed?
  {
    && |n.table| == |table|
    && index <= n.index
    && (if n.vararg then n.index < index + |words| else n.index == index + |words|)
    && forall k :: 0 <= k < |table| && n.table[k].Some? ==>
      && n.table[k] == table[k]
      && forall i :: index <= i < MatchedWords(n) ==> Accepts(mode, words[i - index], SlotAt(table[k], i))
  }

  predicate HasVararg(slot: Slot) {
    exists d :: d in slot && IsVararg(d.cmd)
  }

  lemma VarargScore(mode: Mode, word: string, alt: string)
    ensures Score(mode, word, alt) == VARARG_MATCH ==> IsVararg(alt)
  {}

  lemma FilterKeeps(mode: Mode, word: string, table: Table, index: nat, k: nat)
    requires k < |table| && Filter(mode, word, table, index)[k].Some?
    ensures Filter(mode, word, table, index)[k] == table[k] && Accepts(mode, word, SlotAt(table[k], index))
  {}

  lemma SurvivorsKeep(t: MatchType, word: string, table: Table, index: nat, k: nat)
    requires k < |table| && Survivors(t, word, table, index)[k].Some?
    ensures Survivors(t, word, table, index)[k] == table[k] && HasHit(t, word, SlotAt(table[k], index))
  {}

  lemma {:induction false} NarrowSurvived(mode: Mode, words: seq<string>, table: Table, index: nat)
    ensures var n := Narrow(mode, words, table, index);
      n.Narrowed? ==> Survived(mode, words, table, index, n)
    decreases |words|
  {
    hide Accepts, Filter, Survivors, Best, Ambiguous, SlotAt;
    var n := Narrow(mode, words, table, index);
    if words != [] && n.Narrowed? {
      var word, rest := words[0], words[1..];
      var kept := Filter(mode, word, table, index);
      if n.vararg && n.index == index {
        VarargStops(mode, words, table, index);
        forall k: nat | k < |table| && kept[k].Some? ensures kept[k] == table[k] && Accepts(mode, word, SlotAt(table[k], index)) {
          FilterKeeps(mode, word, table, index, k);
        }
      } else {
        NarrowGoesOn(mode, words, table, index);
        var t := Best(mode, word, table, index);
        var next := Survivors(t, word, kept, index);
        NarrowSurvived(mode, rest, next, index + 1);
        forall k: nat | k < |table| && n.table[k].Some?
          ensures n.table[k] == table[k]
          ensures forall i :: index <= i < MatchedWords(n) ==> Accepts(mode, words[i - index], SlotAt(table[k], i))
        {
          SurvivorsKeep(t, word, kept, index, k);
          FilterKeeps(mode, word, table, index, k);
          forall i | index <= i < MatchedWords(n) ensures Accepts(mode, words[i - index], SlotAt(table[k], i)) {
            if i > index { assert words[i - index] == rest[i - (index + 1)]; }
          }
        }
      }
    }
  }

  lemma {:induction false} NarrowIndex(mode: Mode, words: seq<string>, table: Table, index: nat)
    ensures var n := Narrow(mode, words, table, index); n.Narrowed? ==> n.index >= index
    decreases |words|
  {
    hide Best, Filter, Survivors, Ambiguous;
    if words != [] {
      var t := Best(mode, words[0], table, index);
      NarrowIndex(mode, words[1..], Survivors(t, words[0], Filter(mode, words[0], table, index), index), index + 1);
    }
  }

  lemma VarargStops(mode: Mode, words: seq<string>, table: Table, index: nat)
    requires words != []
    requires var n := Narrow(mode, words, table, index); n.Narrowed? && n.vararg && n.index == index
    ensures Narrow(mode, words, table, index) == Narrowed(Filter(mode, words[0], table, index), index, true)
    ensures Best(mode, words[0], table, index) == VARARG_MATCH
  {
    hide Best, Filter, Survivors, Ambiguous;
    var t := Best(mode, words[0], table, index);
    NarrowIndex(mode, words[1..], Survivors(t, words[0], Filter(mode, words[0], table, index), index), index + 1);
  }

  lemma NarrowGoesOn(mode: Mode, words: seq<string>, table: Table, index: nat)
    requires words != []
    requires var n := Narrow(mode, words, table, index); n.Narrowed? && !(n.vararg && n.index == index)
    ensures var t := Best(mode, words[0], table, index);
      Narrow(mode, words, table, index)
      == Narrow(mode, words[1..], Survivors(t, words[0], Filter(mode, words[0], table, index), index), index + 1)
  {
    hide Best, Filter, Survivors, Ambiguous;
  }

  /** When a '.' alternative ended the loop, some live element has it at that position. */
  lemma {:induction false} VarargIsLive(mode: Mode, words: seq<string>, table: Table, index: nat)
    requires var n := Narrow(mode, words, table, index); n.Narrowed? && n.vararg
    ensures var n := Narrow(mode, words, table, index);
      exists k :: 0 <= k < |n.table| && n.table[k].Some? && HasVararg(SlotAt(n.table[k], n.index))
    decreases |words|
  {
    hide Best, Filter, Survivors, Ambiguous, SlotAt;
    var n := Narrow(mode, words, table, index);
    if n.index == index {
      VarargStops(mode, words, table, index);
      VarargKept(mode, words[0], table, index);
    } else {
      NarrowGoesOn(mode, words, table, index);
      var t := Best(mode, words[0], table, index);
      VarargIsLive(mode, words[1..], Survivors(t, words[0], Filter(mode, words[0], table, index), index), index + 1);
    }
  }

  lemma VarargKept(mode: Mode, word: string, table: Table, index: nat)
    requires Best(mode, word, table, index) == VARARG_MATCH
    ensures var kept := Filter(mode, word, table, index);
      exists k :: 0 <= k < |kept| && kept[k].Some? && HasVararg(SlotAt(kept[k], index))
  {
    hide Score;
    var k, d :| 0 <= k < |table| && d in SlotAt(table[k], index) && Score(mode, word, d.cmd) == VARARG_MATCH;
    VarargScore(mode, word, d.cmd);
    assert Accepts(mode, word, SlotAt(table[k], index));
    assert Filter(mode, word, table, index)[k] == table[k];
  }

  // ---------- The chosen element ----------

  /** The element accepts each of the first `count` words at its position. */
  predicate AcceptsWords(mode: Mode, words: seq<string>, e: Element, count: nat) {
    count <= |words| && forall i :: 0 <= i < count ==> Accepts(mode, words[i], SlotAt(Some(e), i))
  }

  lemma ChosenIsOnlyComplete(n: Narrowing) returns (k: nat)
    requires Select(n).Chosen?
    ensures n.Narrowed? && OnlyComplete(n.table, n.index, n.vararg, k) && n.table[k] == Some(Select(n).element)
  {
    k :| OnlyComplete(n.table, n.index, n.vararg, k);
  }

  /** A command that runs is an entry of the table that accepts every matched word; every other
      entry was dropped on the way or still lacks mandatory words. */
  lemma SelectionSound(mode: Mode, table: Table, words: seq<string>) returns (k: nat)
    requires Execute(mode, table, words).Run?
    ensures var e := Execute(mode, table, words).element;
      var n := Narrow(mode, words, table, 0);
      && k < |table| && table[k] == Some(e) && n.Narrowed?
      && (n.vararg || n.index == |words|)
      && AcceptsWords(mode, words, e, MatchedWords(n))
      && (n.vararg || |words| >= e.cmdsize)
      && |n.table| == |table|
      && (forall j :: 0 <= j < |table| && j != k ==>
            n.table[j] == None || (!n.vararg && n.table[j] == table[j] && |words| < table[j].value.cmdsize))
    ensures var r := Execute(mode, table, words);
      |r.argv| < CMD_ARGC_MAX && r.argv == Arguments(r.element.slots, words)
  {
    hide Accepts, Narrow, Positions;
    var n := Narrow(mode, words, table, 0);
    NarrowSurvived(mode, words, table, 0);
    NarrowFailures(mode, words, table, 0);
    k := ChosenIsOnlyComplete(n);
    forall i | 0 <= i < MatchedWords(n) ensures Accepts(mode, words[i], SlotAt(n.table[k], i)) {
      assert Accepts(mode, words[i - 0], SlotAt(table[k], i));
    }
    assert AcceptsWords(mode, words, n.table[k].value, MatchedWords(n));
  }

  // ---------- Reading the slots ----------

  /** Every '.' alternative is the only one in its slot. */
  predicate DotsAreAlone(e: Element) {
    forall i :: 0 <= i < |e.slots| && HasVararg(e.slots[i]) ==> |e.slots[i]| == 1
  }

  predicate TableDotsAreAlone(table: Table) {
    forall k :: 0 <= k < |table| && table[k].Some? ==> DotsAreAlone(table[k].value)
  }

  /** Without a '.' ending the loop the chosen element has a slot for every word. */
  lemma EnoughSlots(mode: Mode, table: Table, words: seq<string>)
    requires var n := Narrow(mode, words, table, 0); n.Narrowed? && !n.vararg && Select(n).Chosen?
    ensures |words| <= |Select(Narrow(mode, words, table, 0)).element.slots|
  {
    hide Narrow;
    var n := Narrow(mode, words, table, 0);
    NarrowSurvived(mode, words, table, 0);
    var k := ChosenIsOnlyComplete(n);
    if words != [] {
      assert Accepts(mode, words[|words| - 1], SlotAt(table[k], |words| - 1));
    }
  }

  /** A '.' that ended the loop belongs to the chosen element: every live one is complete. */
  lemma VarargIsChosen(mode: Mode, table: Table, words: seq<string>)
    requires var n := Narrow(mode, words, table, 0); n.Narrowed? && n.vararg && Select(n).Chosen?
    ensures var n := Narrow(mode, words, table, 0);
      var slots := Select(n).element.slots;
      n.index < |slots| && HasVararg(slots[n.index]) && n.index < |words|
  {
    hide Narrow;
    var n := Narrow(mode, words, table, 0);
    NarrowSurvived(mode, words, table, 0);
    VarargIsLive(mode, words, table, 0);
    var k := ChosenIsOnlyComplete(n);
    var j :| 0 <= j < |n.table| && n.table[j].Some? && HasVararg(SlotAt(n.table[j], n.index));
    assert Complete(n.table[j], n.index, true);
    assert j == k;
  }

  /** Main result on bounds: a '.' that is always alone in its slot keeps every read in bounds. */
  lemma NoOverrun(mode: Mode, table: Table, words: seq<string>)
    requires TableDotsAreAlone(table)
    ensures Execute(mode, table, words) != Overrun
  {
    hide Narrow, Positions;
    var n := Narrow(mode, words, table, 0);
    NarrowFailures(mode, words, table, 0);
    NarrowSurvived(mode, words, table, 0);
    if Select(n).Chosen? {
      var e := Select(n).element;
      var k := ChosenIsOnlyComplete(n);
      assert DotsAreAlone(e);
      if n.vararg {
        VarargIsChosen(mode, table, words);
        var d :| d in e.slots[n.index] && IsVararg(d.cmd);
        assert LoneVararg(e.slots, n.index);
      } else {
        EnoughSlots(mode, table, words);
      }
    }
  }

  /** Exactly which runs read past the slots: a '.' ended the loop, no slot of the chosen command
      is a lone '.', the line is longer than the command and fewer than the maximum number of
      arguments were found by then. */
  lemma OverrunExactly(mode: Mode, table: Table, words: seq<string>)
    ensures var n := Narrow(mode, words, table, 0);
      Execute(mode, table, words) == Overrun <==>
      && n.Narrowed? && n.vararg && Select(n).Chosen?
      && var slots := Select(n).element.slots;
        && (forall i :: 0 <= i < |slots| ==> !LoneVararg(slots, i))
        && |words| > |slots|
        && |Positions(slots, |slots|)| < CMD_ARGC_MAX
  {
    hide Narrow, Positions;
    var n := Narrow(mode, words, table, 0);
    NarrowFailures(mode, words, table, 0);
    if Select(n).Chosen? {
      var k := ChosenIsOnlyComplete(n);
      if !n.vararg { EnoughSlots(mode, table, words); }
    }
  }

  /** A command shares the slot of a '.' alternative, has none with a '.' alone, and is shorter than
      the line, with room for arguments left at its end: what the table and the line must show. */
  predicate MayOverrun(mode: Mode, words: seq<string>, e: Element, i: nat) {
    && i < |e.slots| < |words|
    && HasVararg(e.slots[i]) && |e.slots[i]| > 1
    && (forall j :: 0 <= j < |e.slots| ==> !LoneVararg(e.slots, j))
    && |Positions(e.slots, |e.slots|)| < CMD_ARGC_MAX
    && AcceptsWords(mode, words, e, i + 1)
  }

  /** A line can only overrun through such a command: when no entry of the table is one, no read
      leaves the slots. */
  lemma OverrunNeeds(mode: Mode, table: Table, words: seq<string>) returns (k: nat, i: nat)
    requires Execute(mode, table, words) == Overrun
    ensures k < |table| && table[k].Some? && MayOverrun(mode, words, table[k].value, i)
  {
    hide Accepts, Narrow, Positions, Execute;
    OverrunExactly(mode, table, words);
    var n := Narrow(mode, words, table, 0);
    NarrowSurvived(mode, words, table, 0);
    VarargIsChosen(mode, table, words);
    k := ChosenIsOnlyComplete(n);
    i := n.index;
    var slots := n.table[k].value.slots;
    var d: Desc :| d in slots[i] && IsVararg(d.cmd);
    assert |slots[i]| == 1 ==> LoneVararg(slots, i);
    forall j | 0 <= j < i + 1 ensures Accepts(mode, words[j], SlotAt(n.table[k], j)) {
      assert Accepts(mode, words[j - 0], SlotAt(table[k], j));
    }
  }

  /** The overrun is reachable: the specification "(.A|b)" and a line of two words. */
  lemma OverrunExample(e: Element, line: seq<string>)
    requires e == Element("(.A|b)", [[Desc(".A", None), Desc("b", None)]], 1, false, 0) && line == ["x", "y"]
    ensures Execute(Abbreviated, [Some(e)], line) == Overrun
  {
    var table: Table := [Some(e)];
    DotScores(table, e.slots[0][0], e.slots[0][1]);
    hide Best, Filter, Accepts, Execute;
    assert Narrow(Abbreviated, line, table, 0) == Narrowed(table, 0, true);
    assert OnlyComplete(table, 0, true, 0);
    assert !LoneVararg(e.slots, 0);
    OverrunExactly(Abbreviated, table, line);
  }

  lemma DotScores(table: Table, dot: Desc, key: Desc)
    requires dot.cmd == ".A" && key.cmd == "b" && |table| == 1 && SlotAt(table[0], 0) == [dot, key]
    ensures Best(Abbreviated, "x", table, 0) == VARARG_MATCH && Filter(Abbreviated, "x", table, 0) == table
  {
    assert Score(Abbreviated, "x", ".A") == VARARG_MATCH && Score(Abbreviated, "x", "b") == NO_MATCH;
    hide Score;
    assert dot in SlotAt(table[0], 0);
    assert Scores(Abbreviated, "x", table, 0, VARARG_MATCH);
    assert forall t: MatchType :: t > VARARG_MATCH ==> !Scores(Abbreviated, "x", table, 0, t);
    assert Accepts(Abbreviated, "x", SlotAt(table[0], 0));
  }
}
