/** cmd_describe_command: the list shown for '?'. */
module Describing {
  import opened Options
  import opened MatchTypes
  import opened Vectors
  import opened Ranges
  import opened Ipv4
  import opened Ipv4Prefix
  import opened Ipv6
  import opened Ipv6Prefix
  import opened Commands
  import opened Engine
  import Completing
  import Expansion
  import Selection

  const CR := Desc("<cr>", Some(""))

  /** Whether '?' lists an alternative: always when no word is typed yet. */
  predicate Describes(word: Option<string>, alt: string) {
    word.None? || Score(Abbreviated, word.value, alt) != NO_MATCH
  }

  /** cmd_entry_function_desc; a NULL word passes every test of the chain. */
  method EntryFunctionDesc(src: Option<string>, dst: string) returns (shown: bool)
    ensures shown == Describes(src, dst)
  {
    if src.None? { return true; }
    var word := src.value;
    if IsVararg(dst) { return true; }
    if IsRange(dst) { return RangeMatch(dst, word); }
    if IsIpv6(dst) { var r := CmdIpv6Match(word); return r != NO_MATCH; }
    if IsIpv6Prefix(dst) { return Ipv6PrefixMatch(word) != NO_MATCH; }
    if IsIpv4(dst) { var r := CmdIpv4Match(word); return r != NO_MATCH; }
    if IsIpv4Prefix(dst) { var r := CmdIpv4PrefixMatch(word); return r != NO_MATCH; }
    if IsOption(dst) || IsVariable(dst) { return true; }
    return word <= dst;
  }

  // ---------- The list ----------

  function Shown(word: Option<string>, slot: Slot): seq<Desc> {
    if slot == [] then []
    else
      var last := slot[|slot| - 1];
      Shown(word, slot[..|slot| - 1]) + if Describes(word, last.cmd) then [last] else []
  }

  /** What one live entry contributes: "<cr>" when it ends where the line ends. */
  function EntryShown(word: Option<string>, x: Option<Element>, index: nat): seq<Desc> {
    if x.None? then []
    else if word.None? && index == |x.value.slots| then [CR]
    else Shown(word, SlotAt(x, index))
  }

  function TableShown(word: Option<string>, table: Table, index: nat): seq<Desc> {
    if table == [] then []
    else TableShown(word, table[..|table| - 1], index) + EntryShown(word, table[|table| - 1], index)
  }

  predicate HasText(s: seq<Desc>, text: string) {
    exists d :: d in s && d.cmd == text
  }

  /** The first description of each text. */
  function DistinctTexts(s: seq<Desc>): (r: seq<Desc>)
    ensures forall d :: d in r ==> d in s
    ensures forall text: string :: HasText(r, text) <==> HasText(s, text)
    ensures forall i, j :: 0 <= i < j < |r| ==> r[i].cmd != r[j].cmd
  {
    if s == [] then []
    else
      var front, last := DistinctTexts(s[..|s| - 1]), s[|s| - 1];
      assert s == s[..|s| - 1] + [last];
      assert forall text: string :: HasText(s, text) <==> HasText(s[..|s| - 1], text) || text == last.cmd;
      if HasText(front, last.cmd) then front else
        assert forall text: string :: HasText(front + [last], text) <==> HasText(front, text) || text == last.cmd by {
          assert forall d :: d in front + [last] <==> d in front || d == last;
        }
        front + [last]
  }

  function LastSlots(table: Table): seq<Desc> {
    if table == [] then []
    else
      var x := table[|table| - 1];
      LastSlots(table[..|table| - 1]) + if x.Some? && x.value.slots != [] then x.value.slots[|x.value.slots| - 1] else []
  }

  /** `Varargs` is the early return after a '.' alternative, which leaves the status unset. */
  datatype Result = Failure(failure: Outcome) | Described(descs: seq<Desc>) | Varargs(descs: seq<Desc>)

  /** The table after the filtering by the word being typed. */
  function Current(word: Option<string>, live: Table, index: nat): Table {
    if word.Some? then Filter(Abbreviated, word.value, live, index) else live
  }

  ghost function DescribeSpec(words: seq<string>, word: Option<string>, table: Table): Result {
    match Narrow(Abbreviated, words, table, 0)
    case Failed(f) => Failure(f)
    case Narrowed(live, index, vararg) =>
      if vararg then Varargs(LastSlots(live) + [CR])
      else
        var descs := DistinctTexts(TableShown(word, Current(word, live, index), index));
        if descs == [] then Failure(ErrNoMatch) else Described(descs)
  }

  // ---------- Collecting ----------

  lemma DistinctTextsStep(s: seq<Desc>, d: Desc)
    ensures DistinctTexts([]) == []
    ensures DistinctTexts(s + [d]) == if HasText(DistinctTexts(s), d.cmd) then DistinctTexts(s) else DistinctTexts(s) + [d]
  {
    assert (s + [d])[..|s|] == s;
  }

  lemma ShownStep(word: Option<string>, slot: Slot, j: nat)
    requires j <= |slot|
    ensures Shown(word, slot[..0]) == [] && slot[..|slot|] == slot
    ensures j < |slot| ==>
      Shown(word, slot[..j + 1]) == Shown(word, slot[..j]) + if Describes(word, slot[j].cmd) then [slot[j]] else []
  {
    if j < |slot| { assert slot[..j + 1][..j] == slot[..j]; }
  }

  lemma TableShownStep(word: Option<string>, table: Table, index: nat, i: nat)
    requires i <= |table|
    ensures TableShown(word, table[..0], index) == [] && table[..|table|] == table
    ensures i < |table| ==>
      TableShown(word, table[..i + 1], index) == TableShown(word, table[..i], index) + EntryShown(word, table[i], index)
  {
    if i < |table| { assert table[..i + 1][..i] == table[..i]; }
  }

  /** desc_unique_string */
  method DescUniqueString(v: seq<Desc>, str: string) returns (present: bool)
    ensures present == HasText(v, str)
  {
    for i := 0 to |v|
      invariant forall k :: 0 <= k < i ==> v[k].cmd != str
    {
      if v[i].cmd == str { return true; }
    }
    return false;
  }

  method AddDesc(matchvec: seq<Desc>, d: Desc, ghost seen: seq<Desc>) returns (r: seq<Desc>)
    requires matchvec == DistinctTexts(seen)
    ensures r == DistinctTexts(seen + [d])
  {
    hide DistinctTexts, HasText;
    DistinctTextsStep(seen, d);
    var present := DescUniqueString(matchvec, d.cmd);
    return if present then matchvec else matchvec + [d];
  }

  method CollectSlot(word: Option<string>, descvec: Slot, collected: seq<Desc>, ghost seen: seq<Desc>)
    returns (matchvec: seq<Desc>)
    requires collected == DistinctTexts(seen)
    ensures matchvec == DistinctTexts(seen + Shown(word, descvec))
  {
    hide DistinctTexts, Shown, Describes;
    matchvec := collected;
    ghost var added := [];
    assert seen + added == seen;
    ShownStep(word, descvec, 0);
    for j := 0 to |descvec|
      invariant added == Shown(word, descvec[..j]) && matchvec == DistinctTexts(seen + added)
    {
      ShownStep(word, descvec, j);
      var shown := EntryFunctionDesc(word, descvec[j].cmd);
      if shown {
        matchvec := AddDesc(matchvec, descvec[j], seen + added);
        assert seen + added + [descvec[j]] == seen + (added + [descvec[j]]);
        added := added + [descvec[j]];
      } else {
        assert added + [] == added;
      }
    }
  }

  method CollectShown(word: Option<string>, v: Vector<Element>, index: nat) returns (matchvec: seq<Desc>)
    requires v.Valid()
    requires forall k :: 0 <= k < v.max && v.index[k].Some? ==>
      if word.Some? then index < |v.index[k].value.slots| else index <= |v.index[k].value.slots|
    ensures matchvec == DistinctTexts(TableShown(word, v.Slots(), index))
  {
    hide DistinctTexts, Shown, TableShown;
    ghost var table := v.Slots();
    matchvec := [];
    TableShownStep(word, table, index, 0);
    DistinctTextsStep([], CR);
    for i := 0 to v.max
      invariant matchvec == DistinctTexts(TableShown(word, table[..i], index))
    {
      ghost var seen := TableShown(word, table[..i], index);
      TableShownStep(word, table, index, i);
      if v.index[i].Some? {
        var strvec := v.index[i].value.slots;
        if word.None? && index == |strvec| {
          matchvec := AddDesc(matchvec, CR, seen);
        } else {
          matchvec := CollectSlot(word, strvec[index], matchvec, seen);
        }
      } else {
        assert seen + [] == seen;
      }
    }
  }

  method CollectLastSlots(v: Vector<Element>) returns (matchvec: seq<Desc>)
    requires v.Valid()
    requires forall k :: 0 <= k < v.max && v.index[k].Some? ==> v.index[k].value.slots != []
    ensures matchvec == LastSlots(v.Slots())
  {
    ghost var table := v.Slots();
    matchvec := [];
    for i := 0 to v.max
      invariant matchvec == LastSlots(table[..i])
    {
      assert table[..i + 1][..i] == table[..i];
      if v.index[i].Some? {
        var strvec := v.index[i].value.slots;
        ghost var before := matchvec;
        var descvec := strvec[|strvec| - 1];
        for k := 0 to |descvec|
          invariant matchvec == before + descvec[..k]
        {
          matchvec := matchvec + [descvec[k]];
        }
      }
    }
    assert table[..v.max] == table;
  }

  /** The part after the loop over the preceding words. */
  method DescribeLive(word: Option<string>, v: Vector<Element>, index: nat) returns (r: Result)
    requires v.Valid()
    requires forall k :: 0 <= k < v.max && v.index[k].Some? ==> index <= |v.index[k].value.slots|
    modifies v.index
    ensures var descs := DistinctTexts(TableShown(word, Current(word, old(v.Slots()), index), index));
      r == if descs == [] then Failure(ErrNoMatch) else Described(descs)
  {
    hide TableShown, DistinctTexts, Filter;
    if word.Some? {
      FilteredReach(word.value, v.Slots(), index);
      var t := FilterVector(Abbreviated, word.value, v, index);
      assert forall k :: 0 <= k < v.max ==> v.index[k] == v.Slots()[k];
    }
    var matchvec := CollectShown(word, v, index);
    return if matchvec == [] then Failure(ErrNoMatch) else Described(matchvec);
  }

  /** cmd_describe_command on a node's command vector, which is only read. */
  method DescribeCommand(vline: Vector<string>, node: Vector<Element>) returns (r: Result)
    requires vline.Valid() && Completing.IsLine(vline.Slots()) && node.Valid()
    ensures r == DescribeSpec(Words(vline.Slots()[..vline.max - 1]), vline.Slots()[vline.max - 1], node.Slots())
  {
    hide Narrow, TableShown, DistinctTexts, Filter, LastSlots, Current;
    var v := node.Copy();
    var index := vline.max - 1;
    var word := vline.index[index];
    ghost var words := Words(vline.Slots()[..index]);
    var failed, matched, vararg := NarrowVector(Abbreviated, vline, index, v);
    if failed.Some? { return Failure(failed.value); }
    LiveSlots(words, node.Slots());
    assert forall k :: 0 <= k < v.max ==> v.index[k] == v.Slots()[k];
    if vararg {
      var last := CollectLastSlots(v);
      return Varargs(last + [CR]);
    }
    r := DescribeLive(word, v, index);
  }

  /** Live elements are long enough for the words matched so far. */
  lemma LiveSlots(words: seq<string>, table: Table)
    requires Narrow(Abbreviated, words, table, 0).Narrowed?
    ensures var n := Narrow(Abbreviated, words, table, 0);
      && (if n.vararg then n.index < |words| else n.index == |words|)
      && forall k :: 0 <= k < |n.table| && n.table[k].Some? ==>
           |n.table[k].value.slots| >= n.index && (n.vararg ==> n.table[k].value.slots != [])
  {
    hide Narrow, Accepts;
    var n := Narrow(Abbreviated, words, table, 0);
    Selection.NarrowSurvived(Abbreviated, words, table, 0);
    forall k | 0 <= k < |n.table| && n.table[k].Some?
      ensures |n.table[k].value.slots| >= n.index && (n.vararg ==> n.table[k].value.slots != [])
    {
      var m := Selection.MatchedWords(n);
      if m > 0 {
        assert Accepts(Abbreviated, words[m - 1 - 0], SlotAt(table[k], m - 1));
        NothingAccepted(Abbreviated, words[m - 1]);
      }
    }
  }

  lemma FilteredReach(word: string, table: Table, index: nat)
    ensures var r := Filter(Abbreviated, word, table, index);
      forall k :: 0 <= k < |r| && r[k].Some? ==> index < |r[k].value.slots|
  {}

  // ---------- "<cr>" and execution ----------

  /** Some live command ends exactly where the line does. */
  predicate EndsHere(live: Table, index: nat) {
    exists k :: 0 <= k < |live| && live[k].Some? && |live[k].value.slots| == index
  }

  lemma {:induction false} ShownText(word: Option<string>, slot: Slot, text: string)
    ensures HasText(Shown(word, slot), text) <==> exists d :: d in slot && d.cmd == text && Describes(word, text)
    decreases |slot|
  {
    hide Describes;
    if slot != [] {
      var front, last := slot[..|slot| - 1], slot[|slot| - 1];
      assert slot == front + [last];
      ShownText(word, front, text);
      assert Shown(word, slot) == Shown(word, front) + if Describes(word, last.cmd) then [last] else [];
    }
  }

  /** The text `text` is shown after a blank exactly when it is an alternative at that place of a
      live command, or it is "<cr>" and a live command ends there. */
  lemma {:induction false} ShownAfterBlank(table: Table, index: nat, text: string)
    ensures HasText(TableShown(None, table, index), text) <==>
      || (exists k, d :: 0 <= k < |table| && d in SlotAt(table[k], index) && d.cmd == text)
      || (text == "<cr>" && EndsHere(table, index))
    decreases |table|
  {
    hide SlotAt, Shown;
    if table != [] {
      var n := |table| - 1;
      var front := table[..n];
      ShownAfterBlank(front, index, text);
      ShownText(None, SlotAt(table[n], index), text);
      var before, entry := TableShown(None, front, index), EntryShown(None, table[n], index);
      assert HasText(before + entry, text) <==> HasText(before, text) || HasText(entry, text) by {
        assert forall d :: d in before + entry <==> d in before || d in entry;
      }
      assert forall k :: 0 <= k < n ==> front[k] == table[k];
      EntryText(table[n], index, text);
    }
  }

  lemma EntryText(x: Option<Element>, index: nat, text: string)
    ensures HasText(EntryShown(None, x, index), text) <==>
      || (exists d :: d in SlotAt(x, index) && d.cmd == text)
      || (text == "<cr>" && x.Some? && |x.value.slots| == index)
  {
    ShownText(None, SlotAt(x, index), text);
    if x.Some? && index == |x.value.slots| {
      assert CR in [CR];
    }
  }

  lemma {:induction false} ShownTyped(word: string, table: Table, index: nat, text: string)
    ensures HasText(TableShown(Some(word), table, index), text) <==>
      Describes(Some(word), text) && exists k, d :: 0 <= k < |table| && d in SlotAt(table[k], index) && d.cmd == text
    decreases |table|
  {
    hide SlotAt, Shown, Describes;
    if table != [] {
      var n := |table| - 1;
      var front := table[..n];
      ShownTyped(word, front, index, text);
      ShownText(Some(word), SlotAt(table[n], index), text);
      EntryTyped(word, table[n], index);
      var before, entry := TableShown(Some(word), front, index), EntryShown(Some(word), table[n], index);
      assert HasText(before + entry, text) <==> HasText(before, text) || HasText(entry, text) by {
        assert forall d :: d in before + entry <==> d in before || d in entry;
      }
      assert forall k :: 0 <= k < n ==> front[k] == table[k];
    }
  }

  lemma EntryTyped(word: string, x: Option<Element>, index: nat)
    ensures EntryShown(Some(word), x, index) == Shown(Some(word), SlotAt(x, index))
  {
    assert Shown(Some(word), []) == [];
  }

  /** Filtering by the typed word drops no element with an alternative that is listed for it. */
  lemma FilterKeepsListed(word: string, live: Table, index: nat, text: string)
    requires Describes(Some(word), text)
    ensures var kept := Filter(Abbreviated, word, live, index);
      (exists k, d :: 0 <= k < |kept| && d in SlotAt(kept[k], index) && d.cmd == text)
      <==> exists k, d :: 0 <= k < |live| && d in SlotAt(live[k], index) && d.cmd == text
  {
    hide Score;
    var kept := Filter(Abbreviated, word, live, index);
    if exists k, d :: 0 <= k < |live| && d in SlotAt(live[k], index) && d.cmd == text {
      var k, d :| 0 <= k < |live| && d in SlotAt(live[k], index) && d.cmd == text;
      assert Accepts(Abbreviated, word, SlotAt(live[k], index));
      assert d in SlotAt(kept[k], index);
    }
    if exists k, d :: 0 <= k < |kept| && d in SlotAt(kept[k], index) && d.cmd == text {
      var k, d :| 0 <= k < |kept| && d in SlotAt(kept[k], index) && d.cmd == text;
      assert d in SlotAt(live[k], index);
    }
  }

  /** Main result for a typed word: the texts listed are exactly those of the alternatives of live
      commands, at that place, that the abbreviated filter accepts the word for. */
  lemma TypedShownExactly(words: seq<string>, word: string, table: Table, text: string)
    requires var n := Narrow(Abbreviated, words, table, 0); n.Narrowed? && !n.vararg
    ensures var live := Narrow(Abbreviated, words, table, 0).table;
      var r := DescribeSpec(words, Some(word), table);
      (r.Described? && HasText(r.descs, text)) <==>
        Score(Abbreviated, word, text) != NO_MATCH
        && exists k, d :: 0 <= k < |live| && d in SlotAt(live[k], |words|) && d.cmd == text
  {
    hide Narrow, TableShown, Score, Filter;
    LiveSlots(words, table);
    var live := Narrow(Abbreviated, words, table, 0).table;
    var current := Filter(Abbreviated, word, live, |words|);
    ShownTyped(word, current, |words|, text);
    if Describes(Some(word), text) { FilterKeepsListed(word, live, |words|, text); }
    var all := TableShown(Some(word), current, |words|);
    assert HasText(DistinctTexts(all), text) <==> HasText(all, text);
  }

  /** The description after a blank shows "<cr>": apart from a specification that spells it out,
      exactly when a live command ends where the line does. */
  lemma CrShownExactly(words: seq<string>, table: Table)
    requires var n := Narrow(Abbreviated, words, table, 0); n.Narrowed? && !n.vararg
    ensures var live := Narrow(Abbreviated, words, table, 0).table;
      var r := DescribeSpec(words, None, table);
      (r.Described? && HasText(r.descs, "<cr>")) <==>
        EndsHere(live, |words|) || (exists k, d :: 0 <= k < |live| && d in SlotAt(live[k], |words|) && d.cmd == "<cr>")
  {
    hide Narrow, TableShown;
    LiveSlots(words, table);
    var live := Narrow(Abbreviated, words, table, 0).table;
    ShownAfterBlank(live, |words|, "<cr>");
    var all := TableShown(None, live, |words|);
    assert HasText(DistinctTexts(all), "<cr>") <==> HasText(all, "<cr>");
  }

  /** Some live command has all its mandatory words. */
  predicate AnyComplete(live: Table, count: nat) {
    exists k :: 0 <= k < |live| && live[k].Some? && live[k].value.cmdsize <= count
  }

  /** Executing the words gets past the matched-count check exactly when a live command has all
      its mandatory words. */
  lemma CompleteExactly(words: seq<string>, table: Table)
    requires var n := Narrow(Abbreviated, words, table, 0); n.Narrowed? && !n.vararg
    ensures AnyComplete(Narrow(Abbreviated, words, table, 0).table, |words|) <==>
      Execute(Abbreviated, table, words) !in {ErrIncomplete, ErrNoMatch}
  {
    hide Narrow, Positions, Arguments, Overruns;
    LiveSlots(words, table);
    var n := Narrow(Abbreviated, words, table, 0);
    if AnyComplete(n.table, |words|) {
      var k :| 0 <= k < |n.table| && n.table[k].Some? && n.table[k].value.cmdsize <= |words|;
      assert Complete(n.table[k], |words|, false);
    }
    if exists k :: 0 <= k < |n.table| && Complete(n.table[k], |words|, false) {
      var k :| 0 <= k < |n.table| && Complete(n.table[k], |words|, false);
      assert AnyComplete(n.table, |words|);
    }
  }

  /** Main result: where a command's end is offered, executing the line is neither incomplete nor
      unknown. */
  lemma CrMeansExecutable(words: seq<string>, table: Table)
    requires Installed(table)
    requires var n := Narrow(Abbreviated, words, table, 0); n.Narrowed? && !n.vararg && EndsHere(n.table, |words|)
    ensures Execute(Abbreviated, table, words) !in {ErrIncomplete, ErrNoMatch}
  {
    hide Narrow, Accepts, Execute;
    var n := Narrow(Abbreviated, words, table, 0);
    Selection.NarrowSurvived(Abbreviated, words, table, 0);
    var k :| 0 <= k < |n.table| && n.table[k].Some? && |n.table[k].value.slots| == |words|;
    assert n.table[k] == table[k];
    CompleteExactly(words, table);
  }

  /** Some live command needs no more words, but none ends there, and none spells out "<cr>". */
  predicate EndHidden(live: Table, count: nat) {
    && AnyComplete(live, count)
    && (forall k :: 0 <= k < |live| && live[k].Some? ==> |live[k].value.slots| != count)
    && (forall k, d :: 0 <= k < |live| && d in SlotAt(live[k], count) ==> d.cmd != "<cr>")
  }

  /** Main result: exactly when the end is offered of every line whose execution is neither
      incomplete nor unknown: unless the live commands that need no more words have optional words
      to come, and nothing else puts the end on the list. */
  lemma CrOfferedExactly(words: seq<string>, table: Table)
    requires var n := Narrow(Abbreviated, words, table, 0); n.Narrowed? && !n.vararg
    ensures var live := Narrow(Abbreviated, words, table, 0).table;
      var r := DescribeSpec(words, None, table);
      (Execute(Abbreviated, table, words) !in {ErrIncomplete, ErrNoMatch} ==> r.Described? && HasText(r.descs, "<cr>"))
      <==> !EndHidden(live, |words|)
  {
    hide Narrow, Execute, DescribeSpec, AnyComplete;
    CrShownExactly(words, table);
    CompleteExactly(words, table);
  }

  lemma {:induction false} FailureStays(words: seq<string>, more: seq<string>, table: Table)
    requires Narrow(Abbreviated, words, table, 0).Failed?
    ensures Narrow(Abbreviated, words + more, table, 0) == Narrow(Abbreviated, words, table, 0)
    decreases |more|
  {
    hide Narrow;
    if more == [] {
      assert words + more == words;
    } else {
      Completing.FailureStays(Abbreviated, words, more[0], table, 0);
      FailureStays(words + [more[0]], more[1..], table);
      assert words + [more[0]] + more[1..] == words + more;
    }
  }

  /** Where '?' reports an error about the preceding words, no line that begins with them can be
      executed: it ends in the same error, however it goes on. */
  lemma FailuresAgree(words: seq<string>, word: Option<string>, more: seq<string>, table: Table)
    requires Narrow(Abbreviated, words, table, 0).Failed?
    ensures DescribeSpec(words, word, table).Failure?
    ensures Execute(Abbreviated, table, words + more) == DescribeSpec(words, word, table).failure
  {
    hide Narrow;
    FailureStays(words, more, table);
  }

  /** The converse fails: a trailing option makes a line executable whose end is not offered. */
  lemma OptionHidesCr(e: Element, words: seq<string>)
    requires e == Element("list [all]", [[Desc("list", None)], [Desc("[all]", None)]], 1, false, 0) && words == ["list"]
    ensures Installed([Some(e)])
    ensures Execute(Abbreviated, [Some(e)], words) == Run(e, [])
    ensures DescribeSpec(words, None, [Some(e)]) == Described([Desc("[all]", None)])
  {
    hide Narrow, CmdSize, Positions, Choose, Extract, TableShown, DistinctTexts, Installed;
    ListInstalled(e);
    ListNarrows(e, words);
    ListRuns(e, words);
    OneShown(e, e.slots[1][0]);
  }

  lemma ListInstalled(e: Element)
    requires |e.slots| == 2 && e.slots[0] == [Desc("list", None)] && e.slots[1] == [Desc("[all]", None)] && e.cmdsize == 1
    ensures Installed([Some(e)])
  {
    assert e.slots[1..] == [e.slots[1]];
    assert CmdSize([e.slots[1]]) == 0;
    assert CmdSize(e.slots) == 1;
    hide CmdSize;
  }

  lemma ListRuns(e: Element, words: seq<string>)
    requires |e.slots| == 2 && e.slots[0] == [Desc("list", None)] && e.cmdsize == 1 && |words| == 1
    ensures Choose([Some(e)], 1, false) == Chosen(e) && Extract(e, words) == Run(e, [])
  {
    var table: Table := [Some(e)];
    assert OnlyComplete(table, 1, false, 0);
    assert !IsArgument(e.slots, 0) by { assert !LoneVararg(e.slots, 0); }
    assert Positions(e.slots, 1) == [];
    assert Arguments(e.slots, words) == [];
  }

  lemma OneShown(e: Element, d: Desc)
    requires |e.slots| == 2 && e.slots[1] == [d]
    ensures TableShown(None, [Some(e)], 1) == [d] && DistinctTexts([d]) == [d]
  {
    var table: Table := [Some(e)];
    assert table[..0] == [] && [d][..0] == [];
    assert Shown(None, [d]) == [d];
    assert EntryShown(None, table[0], 1) == [d];
    DistinctTextsStep([], d);
    assert [] + [d] == [d];
  }

  lemma ListNarrows(e: Element, words: seq<string>)
    requires |e.slots| == 2 && |words| == 1 && e.slots[0] == [Desc(words[0], None)] && IsKeyword(words[0])
    ensures Narrow(Abbreviated, words, [Some(e)], 0) == Narrowed([Some(e)], 1, false)
  {
    hide Best, Expansion.Next, Expansion.Verdict, Expansion.HasText, SlotAt, Narrow, IsKeyword;
    var table: Table := [Some(e)];
    var next := Expansion.Next(Abbreviated, words[0], table, 0);
    HoldsItsWord(e, words[0]);
    Expansion.KeywordKeeps(Abbreviated, words[0], table, 0);
    assert |next| == 1 by { NextLength(words[0], table); }
    assert next == table;
    Completing.OneWord(words[0], table, 0);
    assert words == [words[0]];
  }

  lemma HoldsItsWord(e: Element, word: string)
    requires e.slots != [] && e.slots[0] == [Desc(word, None)]
    ensures Expansion.HasText(SlotAt(Some(e), 0), word)
  {
    assert e.slots[0][0] in SlotAt(Some(e), 0);
  }

  lemma NextLength(word: string, table: Table)
    ensures |Expansion.Next(Abbreviated, word, table, 0)| == |table|
  {
    hide Filter, Survivors, Best;
  }

  // ---------- Which descriptions are listed ----------

  predicate InLastSlot(x: Option<Element>, d: Desc) {
    x.Some? && x.value.slots != [] && d in x.value.slots[|x.value.slots| - 1]
  }

  lemma {:induction false} LastSlotsAre(table: Table, d: Desc)
    ensures d in LastSlots(table) <==> exists k :: 0 <= k < |table| && InLastSlot(table[k], d)
    decreases |table|
  {
    hide InLastSlot;
    if table != [] {
      var n := |table| - 1;
      var front := table[..n];
      LastSlotsAre(front, d);
      LastSlotsMore(table, d);
      hide LastSlots;
      forall k | 0 <= k < n ensures front[k] == table[k] {}
    }
  }

  lemma LastSlotsMore(table: Table, d: Desc)
    requires table != []
    ensures d in LastSlots(table) <==> d in LastSlots(table[..|table| - 1]) || InLastSlot(table[|table| - 1], d)
  {}

  /** Main result for a '.' before the end of the line: all alternatives of the last slots of the live
      commands are listed, with their descriptions, and then "<cr>". */
  lemma VarargsExactly(words: seq<string>, word: Option<string>, table: Table) returns (listed: seq<Desc>)
    requires var n := Narrow(Abbreviated, words, table, 0); n.Narrowed? && n.vararg
    ensures DescribeSpec(words, word, table) == Varargs(listed + [Desc("<cr>", Some(""))])
    ensures var live := Narrow(Abbreviated, words, table, 0).table;
      forall d: Desc :: d in listed <==> exists k :: 0 <= k < |live| && InLastSlot(live[k], d)
  {
    hide Narrow, LastSlots;
    var live := Narrow(Abbreviated, words, table, 0).table;
    listed := LastSlots(live);
    forall d: Desc ensures d in listed <==> exists k :: 0 <= k < |live| && InLastSlot(live[k], d) {
      LastSlotsAre(live, d);
    }
  }

  lemma {:induction false} ShownIsAlternative(word: Option<string>, slot: Slot, d: Desc)
    requires d in Shown(word, slot)
    ensures d in slot
    decreases |slot|
  {
    hide Describes;
    var front, last := slot[..|slot| - 1], slot[|slot| - 1];
    assert slot == front + [last];
    if d in Shown(word, front) { ShownIsAlternative(word, front, d); }
  }

  lemma {:induction false} ListedIsShown(word: Option<string>, table: Table, index: nat, d: Desc)
    requires d in TableShown(word, table, index)
    ensures exists k :: 0 <= k < |table| && d in EntryShown(word, table[k], index)
    decreases |table|
  {
    hide EntryShown;
    var n := |table| - 1;
    var front := table[..n];
    if d in TableShown(word, front, index) {
      ListedIsShown(word, front, index, d);
      var k :| 0 <= k < |front| && d in EntryShown(word, front[k], index);
      assert table[k] == front[k];
    } else {
      assert d in EntryShown(word, table[n], index);
    }
  }

  /** What is listed is an alternative of a live command at that place, with its own description, or
      "<cr>" without one; and no text is listed twice. */
  lemma DescribedAreAlternatives(words: seq<string>, word: Option<string>, table: Table, i: nat)
    requires var n := Narrow(Abbreviated, words, table, 0); n.Narrowed? && !n.vararg
    requires var r := DescribeSpec(words, word, table); r.Described? && i < |r.descs|
    ensures var live := Narrow(Abbreviated, words, table, 0).table;
      var descs := DescribeSpec(words, word, table).descs;
      && (forall j :: 0 <= j < i ==> descs[j].cmd != descs[i].cmd)
      && ((exists k :: 0 <= k < |live| && descs[i] in SlotAt(live[k], |words|))
          || (word.None? && descs[i] == Desc("<cr>", Some("")) && EndsHere(live, |words|)))
  {
    hide Narrow, TableShown, Filter;
    LiveSlots(words, table);
    var live := Narrow(Abbreviated, words, table, 0).table;
    var current := Current(word, live, |words|);
    var d := DescribeSpec(words, word, table).descs[i];
    ListedIsShown(word, current, |words|, d);
    var k :| 0 <= k < |current| && d in EntryShown(word, current[k], |words|);
    CurrentEntry(word, live, |words|, k);
    if word.None? && current[k].Some? && |words| == |current[k].value.slots| {
      assert d == CR;
    } else {
      ShownIsAlternative(word, SlotAt(current[k], |words|), d);
    }
  }

  lemma CurrentEntry(word: Option<string>, live: Table, index: nat, k: nat)
    requires k < |Current(word, live, index)|
    ensures |Current(word, live, index)| == |live|
    ensures Current(word, live, index)[k] == live[k] || (word.Some? && Current(word, live, index)[k].None?)
  {
    hide Accepts;
  }

  lemma {:induction false} DistinctTextsGrow(s: seq<Desc>, t: seq<Desc>)
    ensures DistinctTexts(s) <= DistinctTexts(s + t)
    decreases |t|
  {
    hide DistinctTexts;
    if t == [] {
      assert s + t == s;
    } else {
      var front, last := t[..|t| - 1], t[|t| - 1];
      DistinctTextsGrow(s, front);
      DistinctTextsStep(s + front, last);
      assert s + t == s + front + [last];
    }
  }

  /** The list follows the order of the commands, and within a slot that of its alternatives, and of
      two with the same text shows the first: what comes later only adds at the end. */
  lemma ListedInOrder(word: Option<string>, live: Table, x: Option<Element>, index: nat, slot: Slot, d: Desc)
    ensures DistinctTexts(TableShown(word, live, index)) <= DistinctTexts(TableShown(word, live + [x], index))
    ensures Shown(word, slot) <= Shown(word, slot + [d])
    ensures LastSlots(live) <= LastSlots(live + [x])
  {
    hide DistinctTexts, Shown, EntryShown;
    var table := live + [x];
    assert table[..|live|] == live;
    DistinctTextsGrow(TableShown(word, live, index), EntryShown(word, x, index));
    ShownGrows(word, slot, d);
  }

  lemma ShownGrows(word: Option<string>, slot: Slot, d: Desc)
    ensures Shown(word, slot) <= Shown(word, slot + [d])
  {
    hide Describes;
    assert (slot + [d])[..|slot|] == slot;
  }

  /** Some live command has something to show at that place: an alternative that accepts the typed
      word; or after a blank any alternative, or its end. */
  predicate SomethingToShow(word: Option<string>, live: Table, index: nat) {
    if word.Some? then
      exists k, d :: 0 <= k < |live| && d in SlotAt(live[k], index) && Score(Abbreviated, word.value, d.cmd) != NO_MATCH
    else EndsHere(live, index) || exists k, d :: 0 <= k < |live| && d in SlotAt(live[k], index)
  }

  /** Main result on the errors of '?': a failure of the preceding words is passed on, and "no match" is
      the answer when nothing can be shown; in all other cases there is a list. */
  lemma FailuresExactly(words: seq<string>, word: Option<string>, table: Table)
    ensures var n, r := Narrow(Abbreviated, words, table, 0), DescribeSpec(words, word, table);
      && (n.Failed? ==> r == Failure(n.failure))
      && (n.Narrowed? && n.vararg ==> r.Varargs?)
      && (n.Narrowed? && !n.vararg ==>
            if SomethingToShow(word, n.table, |words|) then r.Described? && r.descs != [] else r == Failure(ErrNoMatch))
  {
    hide Narrow, TableShown, Filter, SomethingToShow;
    var n := Narrow(Abbreviated, words, table, 0);
    if n.Narrowed? && !n.vararg {
      LiveSlots(words, table);
      ShownOrNothing(word, n.table, |words|);
    }
  }

  lemma ShownOrNothing(word: Option<string>, live: Table, index: nat)
    ensures DistinctTexts(TableShown(word, Current(word, live, index), index)) != []
      <==> SomethingToShow(word, live, index)
  {
    hide TableShown, Filter, SlotAt, Score;
    var all := TableShown(word, Current(word, live, index), index);
    var descs := DistinctTexts(all);
    if descs != [] {
      var d := descs[0];
      assert d in descs && HasText(all, d.cmd);
      TextIsShown(word, live, index, d.cmd);
    }
    if SomethingToShow(word, live, index) {
      if word.None? && EndsHere(live, index) {
        TextIsShown(word, live, index, "<cr>");
      } else if word.None? {
        var k, d :| 0 <= k < |live| && d in SlotAt(live[k], index);
        TextIsShown(word, live, index, d.cmd);
      } else {
        var k, d :| 0 <= k < |live| && d in SlotAt(live[k], index) && Score(Abbreviated, word.value, d.cmd) != NO_MATCH;
        TextIsShown(word, live, index, d.cmd);
      }
    }
  }

  lemma TextIsShown(word: Option<string>, live: Table, index: nat, text: string)
    ensures HasText(TableShown(word, Current(word, live, index), index), text) <==>
      if word.Some? then
        Score(Abbreviated, word.value, text) != NO_MATCH
        && exists k, d :: 0 <= k < |live| && d in SlotAt(live[k], index) && d.cmd == text
      else
        (exists k, d :: 0 <= k < |live| && d in SlotAt(live[k], index) && d.cmd == text)
        || (text == "<cr>" && EndsHere(live, index))
  {
    hide TableShown, Filter, SlotAt, Score;
    if word.Some? {
      var current := Filter(Abbreviated, word.value, live, index);
      ShownTyped(word.value, current, index, text);
      if Describes(word, text) { FilterKeepsListed(word.value, live, index, text); }
    } else {
      ShownAfterBlank(live, index, text);
    }
  }
}
