/** The command engine as command.c runs it: in place, on a copy of the node's vector. */
module Engine {
  import opened Options
  import opened MatchTypes
  import opened Vectors
  import opened Ranges
  import opened Ipv4
  import opened Ipv4Prefix
  import opened Ipv6
  import opened Ipv6Prefix
  import opened Commands

  // ---------- Filtering ----------

  /** The alternatives of one element against the word: the inner loop of the two filters. The
      running match type is raised, and `matched` tells whether any alternative accepted. */
  method MatchSlot(mode: Mode, command: string, slot: Slot, running: MatchType)
    returns (matchType: MatchType, matched: nat)
    ensures matched > 0 <==> Accepts(mode, command, slot)
    ensures matchType >= running && forall d :: d in slot ==> Score(mode, command, d.cmd) <= matchType
    ensures matchType == running || exists d :: d in slot && Score(mode, command, d.cmd) == matchType
  {
    matchType, matched := running, 0;
    for j := 0 to |slot|
      invariant matchType >= running
      invariant matched > 0 <==> exists i :: 0 <= i < j && Score(mode, command, slot[i].cmd) != NO_MATCH
      invariant forall i :: 0 <= i < j ==> Score(mode, command, slot[i].cmd) <= matchType
      invariant matchType == running || exists i :: 0 <= i < j && Score(mode, command, slot[i].cmd) == matchType
    {
      var score := MatchAlternative(mode, command, slot[j].cmd);
      if score != NO_MATCH {
        if matchType < score { matchType := score; }
        matched := matched + 1;
      }
    }
  }

  /** The chain of tests on one alternative. */
  method MatchAlternative(mode: Mode, command: string, str: string) returns (score: MatchType)
    ensures score == Score(mode, command, str)
  {
    if IsVararg(str) {
      return VARARG_MATCH;
    } else if IsRange(str) {
      return if RangeMatch(str, command) then RANGE_MATCH else NO_MATCH;
    } else if IsIpv6(str) {
      var r := CmdIpv6Match(command);
      return if Passes(mode, r) then IPV6_MATCH else NO_MATCH;
    } else if IsIpv6Prefix(str) {
      return if Passes(mode, Ipv6PrefixMatch(command)) then IPV6_PREFIX_MATCH else NO_MATCH;
    } else if IsIpv4(str) {
      var r := CmdIpv4Match(command);
      return if Passes(mode, r) then IPV4_MATCH else NO_MATCH;
    } else if IsIpv4Prefix(str) {
      var r := CmdIpv4PrefixMatch(command);
      return if Passes(mode, r) then IPV4_PREFIX_MATCH else NO_MATCH;
    } else if IsOption(str) || IsVariable(str) {
      return EXTEND_MATCH;
    } else if command == str {
      return EXACT_MATCH;
    } else if mode.Abbreviated? && command <= str {
      return PARTLY_MATCH;
    }
    return NO_MATCH;
  }

  /** cmd_filter_by_completion (`Abbreviated`) and cmd_filter_by_string (`Strict`): elements that
      reject the word become NULL in place. */
  method FilterVector(mode: Mode, command: string, v: Vector<Element>, index: nat) returns (matchType: MatchType)
    requires v.Valid()
    modifies v.index
    ensures v.Valid()
    ensures v.Slots() == Filter(mode, command, old(v.Slots()), index)
    ensures matchType == Best(mode, command, old(v.Slots()), index)
  {
    hide Score, Accepts;
    ghost var table := v.Slots();
    matchType := NO_MATCH;
    for i := 0 to v.max
      invariant v.Valid()
      invariant forall k :: i <= k < v.max ==> v.index[k] == table[k]
      invariant forall k :: 0 <= k < i ==>
        v.index[k] == if Accepts(mode, command, SlotAt(table[k], index)) then table[k] else None
      invariant forall k, d :: 0 <= k < i && d in SlotAt(table[k], index) ==> Score(mode, command, d.cmd) <= matchType
      invariant matchType == NO_MATCH || Scores(mode, command, table, index, matchType)
    {
      if v.index[i].Some? {
        var element := v.index[i].value;
        if index >= |element.slots| {
          NothingAccepted(mode, command);
          v.index[i] := None;
        } else {
          var matched;
          matchType, matched := MatchSlot(mode, command, element.slots[index], matchType);
          if matched == 0 { v.index[i] := None; }
        }
      } else {
        NothingAccepted(mode, command);
      }
    }
    BestIs(mode, command, table, index, matchType);
    FilterIs(mode, command, table, index, v.Slots());
  }

  lemma NothingAccepted(mode: Mode, word: string)
    ensures !Accepts(mode, word, [])
  {}

  lemma BestIs(mode: Mode, word: string, table: Table, index: nat, t: MatchType)
    requires t == NO_MATCH || Scores(mode, word, table, index, t)
    requires forall k, d :: 0 <= k < |table| && d in SlotAt(table[k], index) ==> Score(mode, word, d.cmd) <= t
    ensures Best(mode, word, table, index) == t
  {
    hide Score;
  }

  lemma FilterIs(mode: Mode, word: string, table: Table, index: nat, r: Table)
    requires |r| == |table|
    requires forall k :: 0 <= k < |table| ==> r[k] == if Accepts(mode, word, SlotAt(table[k], index)) then table[k] else None
    ensures r == Filter(mode, word, table, index)
  {
    hide Accepts;
  }

  // ---------- The ambiguity pass ----------

  /** What the switch statement of is_cmd_ambiguous does with one alternative: whether it is
      compared with the text remembered so far, and whether it is a match. */
  method TestAlternative(command: string, str: string, t: MatchType) returns (hit: bool, partial: bool)
    ensures hit == Hit(t, command, str)
    ensures partial == WordIsPartial(t, command)
  {
    hit, partial := false, false;
    if t == EXACT_MATCH {
      hit := !(IsOption(str) || IsVariable(str)) && command == str;
    } else if t == PARTLY_MATCH {
      hit := !(IsOption(str) || IsVariable(str)) && command <= str;
    } else if t == RANGE_MATCH {
      hit := RangeMatch(str, command);
    } else if t == IPV6_MATCH {
      hit := IsIpv6(str);
    } else if t == IPV6_PREFIX_MATCH {
      var ret := Ipv6PrefixMatch(command);
      hit, partial := ret != NO_MATCH, ret == PARTLY_MATCH;
    } else if t == IPV4_MATCH {
      hit := IsIpv4(str);
    } else if t == IPV4_PREFIX_MATCH {
      var ret := CmdIpv4PrefixMatch(command);
      hit, partial := ret != NO_MATCH, ret == PARTLY_MATCH;
    } else if t == EXTEND_MATCH {
      hit := IsOption(str) || IsVariable(str);
    }
  }

  /** Whether different texts make the type ambiguous. */
  predicate Compares(t: MatchType) { t == PARTLY_MATCH || t == RANGE_MATCH }

  /** The alternatives of one element: the inner loop of is_cmd_ambiguous. */
  method TestSlot(command: string, slot: Slot, t: MatchType, remembered: Option<string>)
    returns (ret: int, hits: nat, matched: Option<string>)
    ensures ret in {0, 1, 2}
    ensures ret == 2 <==> WordIsPartial(t, command) && slot != []
    ensures ret == 1 ==>
      (&& Compares(t) && remembered != matched && matched.Some?
       && (exists d :: d in slot && d.cmd == matched.value && Hit(t, command, d.cmd))
       && (remembered.Some? || exists d :: d in slot && d.cmd != matched.value && Hit(t, command, d.cmd)))
    ensures ret == 0 ==> (hits > 0 <==> HasHit(t, command, slot))
    ensures ret == 0 && Compares(t) ==> forall d :: d in slot && Hit(t, command, d.cmd) ==> matched == Some(d.cmd)
    ensures ret == 0 && matched != remembered ==>
      (&& remembered.None? && Compares(t) && matched.Some?
       && exists d :: d in slot && d.cmd == matched.value && Hit(t, command, d.cmd))
  {
    hide Hit, WordIsPartial;
    ret, hits, matched := 0, 0, remembered;
    for j := 0 to |slot|
      invariant hits > 0 <==> exists i :: 0 <= i < j && Hit(t, command, slot[i].cmd)
      invariant j > 0 ==> !WordIsPartial(t, command)
      invariant Compares(t) ==> forall i :: 0 <= i < j && Hit(t, command, slot[i].cmd) ==> matched == Some(slot[i].cmd)
      invariant matched == remembered
        || (remembered.None? && Compares(t) && matched.Some?
            && exists i :: 0 <= i < j && slot[i].cmd == matched.value && Hit(t, command, slot[i].cmd))
    {
      var str := slot[j].cmd;
      var hit, partial := TestAlternative(command, str, t);
      if hit {
        if Compares(t) {
          if matched.Some? && matched.value != str {
            PartialNeverCompares(t, command);
            return 1, hits, Some(str);
          }
          matched := Some(str);
        }
        if partial {
          PartialIsHit(t, command, str);
          return 2, hits, matched;
        }
        hits := hits + 1;
      } else {
        PartialIsHit(t, command, str);
      }
    }
  }

  lemma PartialNeverCompares(t: MatchType, word: string)
    requires Compares(t)
    ensures !WordIsPartial(t, word)
  {}

  lemma PartialIsHit(t: MatchType, word: string, alt: string)
    ensures WordIsPartial(t, word) ==> Hit(t, word, alt)
  {}

  function AmbiguityCode(a: Ambiguity): int {
    match a
    case Clear => 0
    case Clash => 1
    case Partial => 2
  }

  /** Every live element has an alternative at `index`: true after a filtering pass. */
  predicate AllReach(table: Table, index: nat) {
    forall k :: 0 <= k < |table| && table[k].Some? ==> SlotAt(table[k], index) != []
  }

  lemma FilterReaches(mode: Mode, word: string, table: Table, index: nat)
    ensures AllReach(Filter(mode, word, table, index), index)
  {}

  /** All the texts hit so far are the remembered one. */
  predicate OneText(t: MatchType, word: string, table: Table, index: nat, matched: Option<string>, n: nat)
    requires n <= |table|
  {
    forall k, d :: 0 <= k < n && d in SlotAt(table[k], index) && Hit(t, word, d.cmd) ==> matched == Some(d.cmd)
  }

  /** is_cmd_ambiguous */
  method IsCmdAmbiguous(command: string, v: Vector<Element>, index: nat, t: MatchType) returns (ret: int)
    requires v.Valid() && AllReach(v.Slots(), index)
    modifies v.index
    ensures v.Valid()
    ensures ret == AmbiguityCode(Ambiguous(t, command, old(v.Slots()), index))
    ensures ret == 0 ==> v.Slots() == Survivors(t, command, old(v.Slots()), index)
    ensures ret == 2 ==> v.Slots() == old(v.Slots())
  {
    hide Hit, HasHit, WordIsPartial, Ambiguous;
    ghost var table := v.Slots();
    var matched: Option<string> := None;
    ghost var looked := false;
    for i := 0 to v.max
      invariant v.Valid()
      invariant forall k :: i <= k < v.max ==> v.index[k] == table[k]
      invariant forall k :: 0 <= k < i ==> v.index[k] == if HasHit(t, command, SlotAt(table[k], index)) then table[k] else None
      invariant Compares(t) ==> OneText(t, command, table, index, matched, i)
      invariant matched.Some? ==> HitText(t, command, table, index, matched.value)
      invariant forall k :: 0 <= k < i && table[k].Some? ==> !WordIsPartial(t, command)
      invariant WordIsPartial(t, command) ==> v.Slots() == table
    {
      if v.index[i].Some? {
        var slot := v.index[i].value.slots[index];
        assert slot == SlotAt(table[i], index);
        var code, hits, text := TestSlot(command, slot, t, matched);
        if code == 1 {
          ClashFound(t, command, table, index, i, matched, text.value);
          return 1;
        }
        if code == 2 {
          PartialFound(t, command, table, index, i);
          return 2;
        }
        matched := text;
        if hits == 0 { v.index[i] := None; }
      } else {
        NothingHit(t, command);
      }
    }
    NothingFound(t, command, table, index, matched);
    SurvivorsAre(t, command, table, index, v.Slots());
    return 0;
  }

  lemma NothingHit(t: MatchType, word: string)
    ensures !HasHit(t, word, [])
  {}

  lemma ClashFound(t: MatchType, word: string, table: Table, index: nat, i: nat, matched: Option<string>, text: string)
    requires i < |table| && Compares(t) && matched != Some(text)
    requires matched.Some? ==> HitText(t, word, table, index, matched.value)
    requires exists d :: d in SlotAt(table[i], index) && d.cmd == text && Hit(t, word, d.cmd)
    requires matched.Some? || exists d :: d in SlotAt(table[i], index) && d.cmd != text && Hit(t, word, d.cmd)
    ensures Ambiguous(t, word, table, index) == Clash
  {
    hide Hit;
    assert HitText(t, word, table, index, text);
    if matched.None? {
      var d :| d in SlotAt(table[i], index) && d.cmd != text && Hit(t, word, d.cmd);
      assert HitText(t, word, table, index, d.cmd);
    }
  }

  lemma PartialFound(t: MatchType, word: string, table: Table, index: nat, i: nat)
    requires i < |table| && WordIsPartial(t, word) && SlotAt(table[i], index) != []
    ensures Ambiguous(t, word, table, index) == Partial
  {}

  lemma NothingFound(t: MatchType, word: string, table: Table, index: nat, matched: Option<string>)
    requires Compares(t) ==> OneText(t, word, table, index, matched, |table|)
    requires forall k :: 0 <= k < |table| && table[k].Some? ==> !WordIsPartial(t, word)
    ensures Ambiguous(t, word, table, index) == Clear
  {
    hide Hit;
  }

  lemma SurvivorsAre(t: MatchType, word: string, table: Table, index: nat, r: Table)
    requires |r| == |table|
    requires forall k :: 0 <= k < |table| ==> r[k] == if HasHit(t, word, SlotAt(table[k], index)) then table[k] else None
    ensures r == Survivors(t, word, table, index)
  {
    hide HasHit;
  }

  // ---------- Execution ----------

  predicate AllSet<T>(s: seq<Option<T>>) {
    forall k :: 0 <= k < |s| ==> s[k].Some?
  }

  /** The words of a line vector. */
  function Words(s: seq<Option<string>>): (w: seq<string>)
    requires AllSet(s)
    ensures |w| == |s| && forall k :: 0 <= k < |s| ==> w[k] == s[k].value
  {
    seq(|s|, k requires 0 <= k < |s| => s[k].value)
  }

  /** The loop over the first `count` words, on the copied vector: all words when executing, all
      but the last when describing. `failed` is the error it returned. */
  method NarrowVector(mode: Mode, vline: Vector<string>, count: nat, v: Vector<Element>)
    returns (failed: Option<Outcome>, index: nat, vararg: bool)
    requires vline.Valid() && count <= vline.max && AllSet(vline.Slots()[..count]) && v.Valid()
    requires v.index as object != vline.index
    modifies v.index
    ensures v.Valid()
    ensures Narrow(mode, Words(vline.Slots()[..count]), old(v.Slots()), 0)
      == if failed.Some? then Failed(failed.value) else Narrowed(v.Slots(), index, vararg)
  {
    hide Best, Filter, Survivors, Ambiguous;
    ghost var line := vline.Slots();
    ghost var words := Words(line[..count]);
    ghost var start := v.Slots();
    index := 0;
    assert words[0..] == words;
    while index < count
      invariant v.Valid() && index <= count && vline.Slots() == line
      invariant Narrow(mode, words, start, 0) == Narrow(mode, words[index..], v.Slots(), index)
    {
      ghost var table := v.Slots();
      var command := vline.index[index].value;
      assert command == words[index] && words[index..][1..] == words[index + 1..];
      var t := FilterVector(mode, command, v, index);
      if t == VARARG_MATCH { return None, index, true; }
      FilterReaches(mode, command, table, index);
      var ret := IsCmdAmbiguous(command, v, index, t);
      if ret == 1 { return Some(ErrAmbiguous), index, false; }
      if ret == 2 { return Some(ErrNoMatch), index, false; }
      index := index + 1;
    }
    assert words[index..] == [];
    return None, index, false;
  }

  /** The matched-count check. */
  method CountMatched(v: Vector<Element>, index: nat, vararg: bool) returns (choice: Choice)
    requires v.Valid()
    ensures choice == Choose(v.Slots(), index, vararg)
  {
    hide Choose;
    ghost var table := v.Slots();
    var matchedElement: Option<Element> := None;
    var matchedCount, incompleteCount := 0, 0;
    ghost var a, b := 0, 0;
    for i := 0 to v.max
      invariant matchedCount >= 0 && incompleteCount >= 0
      invariant matchedCount == 0 ==> forall k :: 0 <= k < i ==> !Complete(table[k], index, vararg)
      invariant matchedCount == 1 ==>
        a < i && Complete(table[a], index, vararg) && matchedElement == table[a]
        && forall k :: 0 <= k < i && k != a ==> !Complete(table[k], index, vararg)
      invariant matchedCount > 1 ==>
        a < b < i && Complete(table[a], index, vararg) && Complete(table[b], index, vararg)
      invariant incompleteCount > 0 <==> exists k :: 0 <= k < i && table[k].Some? && !Complete(table[k], index, vararg)
    {
      if v.index[i].Some? {
        var element := v.index[i].value;
        if vararg || index >= element.cmdsize {
          matchedElement := Some(element);
          if matchedCount == 0 { a := i; } else if matchedCount == 1 { b := i; }
          matchedCount := matchedCount + 1;
        } else {
          incompleteCount := incompleteCount + 1;
        }
      }
    }
    ChooseByCount(table, index, vararg, matchedCount, incompleteCount, a, b);
    if matchedCount == 0 {
      return Choice.Rejected(if incompleteCount > 0 then ErrIncomplete else ErrNoMatch);
    }
    if matchedCount > 1 { return Choice.Rejected(ErrAmbiguous); }
    return Chosen(matchedElement.value);
  }

  lemma ChooseByCount(table: Table, index: nat, vararg: bool, matched: nat, incomplete: nat, a: nat, b: nat)
    requires matched == 0 ==> forall k :: 0 <= k < |table| ==> !Complete(table[k], index, vararg)
    requires matched == 1 ==>
      a < |table| && Complete(table[a], index, vararg)
      && forall k :: 0 <= k < |table| && k != a ==> !Complete(table[k], index, vararg)
    requires matched > 1 ==>
      a < b < |table| && Complete(table[a], index, vararg) && Complete(table[b], index, vararg)
    requires incomplete > 0 <==> exists k :: 0 <= k < |table| && table[k].Some? && !Complete(table[k], index, vararg)
    ensures Choose(table, index, vararg)
      == if matched == 0 then Choice.Rejected(if incomplete > 0 then ErrIncomplete else ErrNoMatch)
         else if matched > 1 then Choice.Rejected(ErrAmbiguous)
         else Chosen(table[a].value)
  {
    if matched == 1 {
      assert OnlyComplete(table, index, vararg, a);
    }
  }

  lemma {:induction false} PositionsGrow(slots: seq<Slot>, m: nat, n: nat)
    requires m <= n
    ensures |Positions(slots, m)| <= |Positions(slots, n)|
    decreases n
  {
    if m < n { PositionsGrow(slots, m, n - 1); }
  }

  /** What the argument loop does with word `i` before `varflag` is set: read the slot there. */
  method ReadSlot(slots: seq<Slot>, i: nat) returns (varflag: bool, argument: bool)
    requires i < |slots| && !VarargBefore(slots, i)
    ensures varflag == VarargBefore(slots, i + 1) && argument == IsArgument(slots, i)
  {
    var slot := slots[i];
    varflag, argument := false, true;
    if |slot| == 1 {
      var str := slot[0].cmd;
      if IsVararg(str) { varflag := true; }
      argument := varflag || IsVariable(str) || IsOption(str);
    }
    VarargSoFar(slots, i);
  }

  /** The argument loop. The local array is as large as the C one, so every write is in bounds;
      a read beyond the element's slots, which C leaves undefined, ends it as `Overrun`. */
  method ExtractArguments(element: Element, vline: Vector<string>) returns (o: Outcome)
    requires vline.Valid() && AllSet(vline.Slots())
    ensures o == Extract(element, Words(vline.Slots()))
  {
    hide Extract, Words, AllSet, Reached, VarargBefore, IsArgument;
    var slots := element.slots;
    ghost var line := vline.Slots();
    ghost var words := Words(line);
    var varflag, argc := false, 0;
    var argv := new string[CMD_ARGC_MAX](_ => "");
    ReachedFirst(element, words);
    assert argv[..0] == [];
    for i := 0 to vline.max
      invariant vline.Slots() == line && argc < CMD_ARGC_MAX
      invariant Reached(element, words, i, varflag, argv[..argc])
    {
      if !varflag && i == |slots| {
        ReachedSlots(element, words, argv[..argc]);
        return Overrun;
      }
      InSlots(element, words, i, varflag, argv[..argc]);
      ghost var args := argv[..argc];
      var more, argument := ReadWord(slots, i, varflag);
      ReachedMore(element, words, i, varflag, args, more, argument);
      if argument {
        SetAt(line, i);
        argv[argc] := vline.index[i].value;
        argc := argc + 1;
      }
      varflag := more;
      assert argv[..argc] == if argument then args + [words[i]] else args;
      if argc >= CMD_ARGC_MAX {
        return ErrExceedArgcMax;
      }
    }
    ReachedEnd(element, words, varflag, argv[..argc]);
    return Run(element, argv[..argc]);
  }

  /** The first `i` words are read, and gave the arguments `args`. */
  ghost predicate Reached(element: Element, words: seq<string>, i: nat, varflag: bool, args: seq<string>) {
    && varflag == VarargBefore(element.slots, i) && (i <= |element.slots| || varflag)
    && i <= |words| && |args| < CMD_ARGC_MAX && args == Taken(element.slots, words, i)
  }

  lemma ReachedFirst(element: Element, words: seq<string>)
    ensures Reached(element, words, 0, false, [])
  {
    hide VarargBefore, Positions, Taken;
    VarargSoFar(element.slots, 0);
    TakenStep(element.slots, words, 0);
  }

  lemma InSlots(element: Element, words: seq<string>, i: nat, varflag: bool, args: seq<string>)
    requires Reached(element, words, i, varflag, args) && (varflag || i != |element.slots|)
    ensures varflag == VarargBefore(element.slots, i) && (varflag || i < |element.slots|)
  {
    hide VarargBefore, Positions, Taken;
  }

  lemma ReachedSlots(element: Element, words: seq<string>, args: seq<string>)
    requires Reached(element, words, |element.slots|, false, args) && |words| > |element.slots|
    ensures Extract(element, words) == Overrun
  {
    hide VarargBefore, Positions, Taken, Extract;
    StopsAtSlots(element, words);
  }

  lemma ReachedMore(element: Element, words: seq<string>, i: nat, before: bool, args: seq<string>, varflag: bool, argument: bool)
    requires Reached(element, words, i, before, args) && i < |words|
    requires varflag == VarargBefore(element.slots, i + 1) && argument == IsArgument(element.slots, i)
    requires i + 1 <= |element.slots| || varflag
    ensures var more := if argument then args + [words[i]] else args;
      if |more| < CMD_ARGC_MAX then Reached(element, words, i + 1, varflag, more)
      else Extract(element, words) == ErrExceedArgcMax
  {
    hide VarargBefore, IsArgument, Positions, Taken, Extract;
    TakenStep(element.slots, words, i);
    if |Taken(element.slots, words, i + 1)| >= CMD_ARGC_MAX {
      TooManyArguments(element, i + 1, words);
    }
  }

  lemma ReachedEnd(element: Element, words: seq<string>, varflag: bool, args: seq<string>)
    requires Reached(element, words, |words|, varflag, args)
    ensures Extract(element, words) == Run(element, args)
  {
    hide VarargBefore, Positions, Taken, Extract;
    RunsToEnd(element, words);
  }

  /** Once `varflag` is set every word is an argument and no slot is read. */
  method ReadWord(slots: seq<Slot>, i: nat, before: bool) returns (varflag: bool, argument: bool)
    requires before == VarargBefore(slots, i) && (before || i < |slots|)
    ensures varflag == VarargBefore(slots, i + 1) && argument == IsArgument(slots, i)
    ensures i + 1 <= |slots| || varflag
  {
    varflag, argument := true, true;
    VarargSoFar(slots, i);
    if !before {
      varflag, argument := ReadSlot(slots, i);
    }
  }

  lemma SetAt(line: seq<Option<string>>, i: nat)
    requires AllSet(line) && i < |line|
    ensures line[i].Some? && Words(line)[i] == line[i].value
  {}

  /** The arguments among the first `n` words. */
  function Taken(slots: seq<Slot>, words: seq<string>, n: nat): (r: seq<string>)
    requires n <= |words|
    ensures |r| == |Positions(slots, n)|
  {
    var p := Positions(slots, n);
    seq(|p|, i requires 0 <= i < |p| => words[p[i]])
  }

  lemma TakenStep(slots: seq<Slot>, words: seq<string>, i: nat)
    requires i <= |words|
    ensures Taken(slots, words, 0) == []
    ensures i < |words| ==>
      Taken(slots, words, i + 1) == Taken(slots, words, i) + if IsArgument(slots, i) then [words[i]] else []
  {
    hide IsArgument;
  }

  lemma StopsAtSlots(element: Element, words: seq<string>)
    requires |words| > |element.slots| && !VarargBefore(element.slots, |element.slots|)
    requires |Taken(element.slots, words, |element.slots|)| < CMD_ARGC_MAX
    ensures Extract(element, words) == Overrun
  {}

  lemma TooManyArguments(element: Element, i: nat, words: seq<string>)
    requires i <= |words| && |Taken(element.slots, words, i)| >= CMD_ARGC_MAX
    requires i <= |element.slots| || VarargBefore(element.slots, i)
    ensures Extract(element, words) == ErrExceedArgcMax
  {
    hide Positions;
    var slots := element.slots;
    PositionsGrow(slots, i, |words|);
    if i <= |slots| {
      PositionsGrow(slots, i, |slots|);
    } else {
      VarargWithinSlots(slots, i);
    }
  }

  lemma RunsToEnd(element: Element, words: seq<string>)
    requires |words| <= |element.slots| || VarargBefore(element.slots, |words|)
    requires |Taken(element.slots, words, |words|)| < CMD_ARGC_MAX
    ensures Extract(element, words) == Run(element, Taken(element.slots, words, |words|))
  {
    hide Positions;
    if |words| > |element.slots| { VarargWithinSlots(element.slots, |words|); }
  }

  /** How the flag and the argument test develop from one word to the next. */
  lemma VarargSoFar(slots: seq<Slot>, i: nat)
    ensures !VarargBefore(slots, 0)
    ensures VarargBefore(slots, i + 1) <==>
      VarargBefore(slots, i) || (i < |slots| && |slots[i]| == 1 && IsVararg(slots[i][0].cmd))
    ensures IsArgument(slots, i) <==>
      VarargBefore(slots, i + 1)
      || (i < |slots| && (|slots[i]| != 1 || IsVariable(slots[i][0].cmd) || IsOption(slots[i][0].cmd)))
  {
    assert VarargBefore(slots, i + 1) <==> VarargBefore(slots, i) || LoneVararg(slots, i) by {
      if LoneVararg(slots, i) { assert 0 <= i < i + 1; }
    }
  }

  lemma VarargWithinSlots(slots: seq<Slot>, n: nat)
    requires VarargBefore(slots, n)
    ensures VarargBefore(slots, |slots|)
  {}

  /** cmd_execute_command (`Abbreviated`) and cmd_execute_command_strict (`Strict`) on a node's
      command vector, which is only read. */
  method ExecuteCommand(mode: Mode, node: Vector<Element>, vline: Vector<string>) returns (o: Outcome)
    requires node.Valid() && vline.Valid() && AllSet(vline.Slots())
    ensures o == Execute(mode, node.Slots(), Words(vline.Slots()))
  {
    hide Narrow, Choose, Extract;
    var cmdVector := node.Copy();
    assert vline.Slots()[..vline.max] == vline.Slots();
    var failed, index, vararg := NarrowVector(mode, vline, vline.max, cmdVector);
    if failed.Some? { return failed.value; }
    var choice := CountMatched(cmdVector, index, vararg);
    match choice
    case Rejected(f) => return f;
    case Chosen(e) => o := ExtractArguments(e, vline);
  }
}
