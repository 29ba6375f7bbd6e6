/** cmd_sort_node: sorting a node's table, and the alternatives inside its commands, cannot be
    seen by executing commands. */
module Sorting {
  import opened Options
  import opened Seqs
  import ConfigLines
  import LinkLists
  import opened CText
  import opened MatchTypes
  import opened Commands

  // ---------- Rearranged tables ----------

  /** The same command, the alternatives of its slots in another order. */
  predicate SameCommand(e: Element, f: Element) {
    && f == e.(slots := f.slots)
    && |e.slots| == |f.slots|
    && forall i :: 0 <= i < |e.slots| ==> multiset(e.slots[i]) == multiset(f.slots[i])
  }

  predicate SameEntry(x: Option<Element>, y: Option<Element>) {
    match (x, y)
    case (None, None) => true
    case (Some(e), Some(f)) => SameCommand(e, f)
    case _ => false
  }

  /** `p` and `q` are inverse maps between the positions of two sequences. */
  predicate Bijection(n: nat, p: seq<nat>, q: seq<nat>) {
    && |p| == n && |q| == n
    && (forall k :: 0 <= k < n ==> p[k] < n && q[k] < n)
    && (forall k :: 0 <= k < n ==> q[p[k]] == k && p[q[k]] == k)
  }

  /** Entry `k` of `b` is entry `p[k]` of `a`, up to the order of alternatives. */
  predicate Rearranged(a: Table, b: Table, p: seq<nat>, q: seq<nat>) {
    && |a| == |b|
    && Bijection(|a|, p, q)
    && forall k :: 0 <= k < |a| ==> SameEntry(a[p[k]], b[k])
  }

  lemma SameSlots(x: Option<Element>, y: Option<Element>, index: nat)
    requires SameEntry(x, y)
    ensures multiset(SlotAt(x, index)) == multiset(SlotAt(y, index))
    ensures |SlotAt(x, index)| == |SlotAt(y, index)|
    ensures forall d :: d in SlotAt(x, index) <==> d in SlotAt(y, index)
  {
    var s, t := SlotAt(x, index), SlotAt(y, index);
    assert |multiset(s)| == |s| && |multiset(t)| == |t|;
    assert forall d :: d in s <==> d in multiset(s);
    assert forall d :: d in t <==> d in multiset(t);
  }

  lemma RearrangedBack(a: Table, b: Table, p: seq<nat>, q: seq<nat>)
    requires Rearranged(a, b, p, q)
    ensures Rearranged(b, a, q, p)
  {
    forall k | 0 <= k < |a| ensures SameEntry(b[q[k]], a[k]) {
      assert SameEntry(a[p[q[k]]], b[q[k]]);
    }
  }

  // ---------- One word ----------

  lemma ScoresForward(mode: Mode, word: string, a: Table, b: Table, p: seq<nat>, q: seq<nat>, index: nat, t: MatchType)
    requires Rearranged(a, b, p, q) && Scores(mode, word, b, index, t)
    ensures Scores(mode, word, a, index, t)
  {
    hide Score;
    var k, d :| 0 <= k < |b| && d in SlotAt(b[k], index) && Score(mode, word, d.cmd) == t;
    SameSlots(a[p[k]], b[k], index);
    assert d in SlotAt(a[p[k]], index);
  }

  lemma BestSame(mode: Mode, word: string, a: Table, b: Table, p: seq<nat>, q: seq<nat>, index: nat)
    requires Rearranged(a, b, p, q)
    ensures Best(mode, word, a, index) == Best(mode, word, b, index)
  {
    hide Scores, Rearranged;
    RearrangedBack(a, b, p, q);
    var t, u := Best(mode, word, a, index), Best(mode, word, b, index);
    if t != NO_MATCH { ScoresForward(mode, word, b, a, q, p, index, t); }
    if u != NO_MATCH { ScoresForward(mode, word, a, b, p, q, index, u); }
  }

  lemma AcceptsSame(mode: Mode, word: string, x: Option<Element>, y: Option<Element>, index: nat)
    requires SameEntry(x, y)
    ensures Accepts(mode, word, SlotAt(x, index)) <==> Accepts(mode, word, SlotAt(y, index))
  {
    hide Score;
    SameSlots(x, y, index);
  }

  lemma HasHitSame(t: MatchType, word: string, x: Option<Element>, y: Option<Element>, index: nat)
    requires SameEntry(x, y)
    ensures HasHit(t, word, SlotAt(x, index)) <==> HasHit(t, word, SlotAt(y, index))
  {
    hide Hit;
    SameSlots(x, y, index);
  }

  lemma FilterSame(mode: Mode, word: string, a: Table, b: Table, p: seq<nat>, q: seq<nat>, index: nat)
    requires Rearranged(a, b, p, q)
    ensures Rearranged(Filter(mode, word, a, index), Filter(mode, word, b, index), p, q)
  {
    hide Accepts, SlotAt, SameCommand;
    forall k | 0 <= k < |a|
      ensures SameEntry(Filter(mode, word, a, index)[p[k]], Filter(mode, word, b, index)[k])
    {
      AcceptsSame(mode, word, a[p[k]], b[k], index);
    }
  }

  lemma SurvivorsSame(t: MatchType, word: string, a: Table, b: Table, p: seq<nat>, q: seq<nat>, index: nat)
    requires Rearranged(a, b, p, q)
    ensures Rearranged(Survivors(t, word, a, index), Survivors(t, word, b, index), p, q)
  {
    hide HasHit, SlotAt, SameCommand;
    forall k | 0 <= k < |a|
      ensures SameEntry(Survivors(t, word, a, index)[p[k]], Survivors(t, word, b, index)[k])
    {
      HasHitSame(t, word, a[p[k]], b[k], index);
    }
  }

  lemma HitTextForward(t: MatchType, word: string, a: Table, b: Table, p: seq<nat>, q: seq<nat>, index: nat, text: string)
    requires Rearranged(a, b, p, q) && HitText(t, word, b, index, text)
    ensures HitText(t, word, a, index, text)
  {
    hide Hit;
    var k, d :| 0 <= k < |b| && d in SlotAt(b[k], index) && d.cmd == text && Hit(t, word, text);
    SameSlots(a[p[k]], b[k], index);
    assert d in SlotAt(a[p[k]], index);
  }

  lemma VerdictForward(t: MatchType, word: string, a: Table, b: Table, p: seq<nat>, q: seq<nat>, index: nat)
    requires Rearranged(a, b, p, q)
    ensures Clashes(t, word, b, index) ==> Clashes(t, word, a, index)
    ensures AnyAlternative(b, index) ==> AnyAlternative(a, index)
  {
    hide HitText;
    if Clashes(t, word, b, index) {
      var c1, c2 :| HitText(t, word, b, index, c1) && HitText(t, word, b, index, c2) && c1 != c2;
      HitTextForward(t, word, a, b, p, q, index, c1);
      HitTextForward(t, word, a, b, p, q, index, c2);
    }
    if AnyAlternative(b, index) {
      var k :| 0 <= k < |b| && SlotAt(b[k], index) != [];
      SameSlots(a[p[k]], b[k], index);
      assert SlotAt(a[p[k]], index) != [];
    }
  }

  lemma AmbiguousSame(t: MatchType, word: string, a: Table, b: Table, p: seq<nat>, q: seq<nat>, index: nat)
    requires Rearranged(a, b, p, q)
    ensures Ambiguous(t, word, a, index) == Ambiguous(t, word, b, index)
  {
    hide Rearranged, Clashes, AnyAlternative;
    RearrangedBack(a, b, p, q);
    VerdictForward(t, word, a, b, p, q, index);
    VerdictForward(t, word, b, a, q, p, index);
  }

  // ---------- Whole lines ----------

  predicate SameNarrowing(m: Narrowing, n: Narrowing, p: seq<nat>, q: seq<nat>) {
    match (m, n)
    case (Failed(f), Failed(g)) => f == g
    case (Narrowed(a, i, v), Narrowed(b, j, w)) => i == j && v == w && Rearranged(a, b, p, q)
    case _ => false
  }

  lemma {:induction false} NarrowSame(mode: Mode, words: seq<string>, a: Table, b: Table, p: seq<nat>, q: seq<nat>, index: nat)
    requires Rearranged(a, b, p, q)
    ensures SameNarrowing(Narrow(mode, words, a, index), Narrow(mode, words, b, index), p, q)
    decreases |words|
  {
    hide Best, Filter, Survivors, Ambiguous, Rearranged;
    if words != [] {
      var word := words[0];
      BestSame(mode, word, a, b, p, q, index);
      var t := Best(mode, word, a, index);
      var keptA, keptB := Filter(mode, word, a, index), Filter(mode, word, b, index);
      FilterSame(mode, word, a, b, p, q, index);
      AmbiguousSame(t, word, keptA, keptB, p, q, index);
      SurvivorsSame(t, word, keptA, keptB, p, q, index);
      NarrowSame(mode, words[1..], Survivors(t, word, keptA, index), Survivors(t, word, keptB, index), p, q, index + 1);
    }
  }

  predicate SameChoice(c: Choice, d: Choice) {
    match (c, d)
    case (Rejected(f), Rejected(g)) => f == g
    case (Chosen(e), Chosen(f)) => SameCommand(e, f)
    case _ => false
  }

  lemma CompleteSame(a: Table, b: Table, p: seq<nat>, q: seq<nat>, index: nat, vararg: bool, k: nat)
    requires Rearranged(a, b, p, q) && k < |b|
    ensures p[k] < |a| && (Complete(a[p[k]], index, vararg) <==> Complete(b[k], index, vararg))
    ensures a[p[k]].Some? <==> b[k].Some?
  {}

  lemma OnlyCompleteForward(a: Table, b: Table, p: seq<nat>, q: seq<nat>, index: nat, vararg: bool, k: nat)
    requires Rearranged(a, b, p, q) && OnlyComplete(b, index, vararg, k)
    ensures OnlyComplete(a, index, vararg, p[k])
  {
    CompleteSame(a, b, p, q, index, vararg, k);
    forall j | 0 <= j < |a| && j != p[k] ensures !Complete(a[j], index, vararg) {
      CompleteSame(a, b, p, q, index, vararg, q[j]);
    }
  }

  lemma CountsForward(a: Table, b: Table, p: seq<nat>, q: seq<nat>, index: nat, vararg: bool)
    requires Rearranged(a, b, p, q)
    ensures (exists k :: 0 <= k < |b| && Complete(b[k], index, vararg)) ==>
      exists k :: 0 <= k < |a| && Complete(a[k], index, vararg)
    ensures (exists k :: 0 <= k < |b| && b[k].Some?) ==> exists k :: 0 <= k < |a| && a[k].Some?
    ensures (exists k: nat :: OnlyComplete(b, index, vararg, k)) ==> exists k: nat :: OnlyComplete(a, index, vararg, k)
  {
    if k :| 0 <= k < |b| && Complete(b[k], index, vararg) {
      CompleteSame(a, b, p, q, index, vararg, k);
    }
    if k :| 0 <= k < |b| && b[k].Some? {
      CompleteSame(a, b, p, q, index, vararg, k);
    }
    if k: nat :| OnlyComplete(b, index, vararg, k) {
      OnlyCompleteForward(a, b, p, q, index, vararg, k);
    }
  }

  lemma ChooseSame(a: Table, b: Table, p: seq<nat>, q: seq<nat>, index: nat, vararg: bool)
    requires Rearranged(a, b, p, q)
    ensures SameChoice(Choose(a, index, vararg), Choose(b, index, vararg))
  {
    hide Rearranged, OnlyComplete, Complete, SameCommand, Choose;
    CountsForward(a, b, p, q, index, vararg);
    RearrangedBack(a, b, p, q);
    CountsForward(b, a, q, p, index, vararg);
    ChooseByCounts(a, index, vararg);
    ChooseByCounts(b, index, vararg);
    if k: nat :| OnlyComplete(b, index, vararg, k) {
      OnlyIsSame(a, b, p, q, index, vararg, k);
    }
  }

  lemma ChooseByCounts(a: Table, index: nat, vararg: bool)
    ensures (exists k: nat :: OnlyComplete(a, index, vararg, k)) <==> Choose(a, index, vararg).Chosen?
    ensures Choose(a, index, vararg).Rejected? ==>
      (Choose(a, index, vararg).failure
       == if exists k :: 0 <= k < |a| && Complete(a[k], index, vararg) then ErrAmbiguous
          else if exists k :: 0 <= k < |a| && a[k].Some? then ErrIncomplete
          else ErrNoMatch)
  {
    if k: nat :| OnlyComplete(a, index, vararg, k) {
      assert Complete(a[k], index, vararg);
    }
  }

  lemma OnlyIsSame(a: Table, b: Table, p: seq<nat>, q: seq<nat>, index: nat, vararg: bool, k: nat)
    requires Rearranged(a, b, p, q) && OnlyComplete(b, index, vararg, k)
    ensures SameChoice(Choose(a, index, vararg), Choose(b, index, vararg))
  {
    hide SameCommand, Choose;
    OnlyCompleteForward(a, b, p, q, index, vararg, k);
    OnlyIsChosen(a, index, vararg, p[k]);
    OnlyIsChosen(b, index, vararg, k);
    assert SameEntry(a[p[k]], b[k]);
  }

  lemma OnlyIsChosen(a: Table, index: nat, vararg: bool, k: nat)
    requires OnlyComplete(a, index, vararg, k)
    ensures Choose(a, index, vararg) == Chosen(a[k].value)
  {}

  // ---------- Arguments ----------

  lemma SameArgumentSlots(e: Element, f: Element, i: nat)
    requires SameCommand(e, f)
    ensures LoneVararg(e.slots, i) <==> LoneVararg(f.slots, i)
    ensures i < |e.slots| ==> |e.slots[i]| == |f.slots[i]| && (|e.slots[i]| == 1 ==> e.slots[i] == f.slots[i])
  {
    if i < |e.slots| {
      var s, t := e.slots[i], f.slots[i];
      assert |multiset(s)| == |s| && |multiset(t)| == |t|;
      if |s| == 1 {
        assert s[0] in multiset(t);
        assert t == [t[0]];
      }
    }
  }

  lemma SameVarargBefore(e: Element, f: Element, n: nat)
    requires SameCommand(e, f)
    ensures VarargBefore(e.slots, n) <==> VarargBefore(f.slots, n)
  {
    hide LoneVararg;
    forall i: nat ensures LoneVararg(e.slots, i) <==> LoneVararg(f.slots, i) { SameArgumentSlots(e, f, i); }
  }

  lemma {:induction false} SamePositions(e: Element, f: Element, n: nat)
    requires SameCommand(e, f)
    ensures Positions(e.slots, n) == Positions(f.slots, n)
  {
    if n > 0 {
      SamePositions(e, f, n - 1);
      SameVarargBefore(e, f, n);
      SameArgumentSlots(e, f, n - 1);
      hide VarargBefore, SameCommand;
      assert IsArgument(e.slots, n - 1) <==> IsArgument(f.slots, n - 1);
    }
  }

  /** The same return code; when a command runs, the same command with the same arguments. */
  predicate SameOutcome(o: Outcome, r: Outcome) {
    match (o, r)
    case (Run(e, argv), Run(f, argw)) => SameCommand(e, f) && argv == argw
    case (Run(_, _), _) => false
    case (_, Run(_, _)) => false
    case _ => o == r
  }

  lemma ExtractSame(e: Element, f: Element, words: seq<string>)
    requires SameCommand(e, f)
    ensures SameOutcome(Extract(e, words), Extract(f, words))
  {
    hide Positions, VarargBefore;
    SamePositions(e, f, |words|);
    SamePositions(e, f, |e.slots|);
    SameVarargBefore(e, f, |e.slots|);
  }

  /** Main result: rearranging a table changes nothing about executing a line on it. */
  lemma RearrangementInvisible(mode: Mode, a: Table, b: Table, p: seq<nat>, q: seq<nat>, words: seq<string>)
    requires Rearranged(a, b, p, q)
    ensures SameOutcome(Execute(mode, a, words), Execute(mode, b, words))
  {
    hide Rearranged, Extract, Choose, SameCommand, Narrow;
    NarrowSame(mode, words, a, b, p, q, 0);
    NarrowFailures(mode, words, a, 0);
    NarrowFailures(mode, words, b, 0);
    var m, n := Narrow(mode, words, a, 0), Narrow(mode, words, b, 0);
    if m.Narrowed? {
      ChooseSame(m.table, n.table, p, q, m.index, m.vararg);
      var c, d := Select(m), Select(n);
      if c.Chosen? {
        ExtractSame(c.element, d.element, words);
      } else {
        ChooseFailures(m);
        ChooseFailures(n);
      }
    }
  }

  // ---------- qsort ----------

  predicate Permuted(before: Table, after: Table, p: seq<nat>, q: seq<nat>) {
    && |before| == |after|
    && Bijection(|before|, p, q)
    && forall k :: 0 <= k < |before| ==> after[k] == before[p[k]]
  }

  /** What qsort() by cmp_node may make of a table without NULL entries. */
  ghost predicate SortedTable(before: Table, after: Table) {
    && (exists p, q :: Permuted(before, after, p, q))
    && (forall k :: 0 <= k < |after| ==> after[k].Some?)
    && forall i, j :: 0 <= i < j < |after| ==> !Less(after[j].value.text, after[i].value.text)
  }

  /** What qsort() by cmp_desc may make of a slot. */
  predicate SortedSlot(before: Slot, after: Slot) {
    && multiset(before) == multiset(after)
    && forall i, j :: 0 <= i < j < |after| ==> !Less(after[j].cmd, after[i].cmd)
  }

  function LastSlot(e: Element): Slot {
    if e.slots == [] then [] else e.slots[|e.slots| - 1]
  }

  predicate LastSlotSorted(e: Element, f: Element) {
    && f == e.(slots := f.slots)
    && |e.slots| == |f.slots|
    && (forall i :: 0 <= i < |e.slots| - 1 ==> e.slots[i] == f.slots[i])
    && SortedSlot(LastSlot(e), LastSlot(f))
  }

  /** cmd_sort_node on one node: first the table is sorted, then each command's last slot. */
  ghost predicate NodeSorted(before: Table, after: Table) {
    exists middle :: SortedTable(before, middle) && LastSlotsSorted(middle, after)
  }

  predicate LastSlotsSorted(middle: Table, after: Table) {
    && |after| == |middle|
    && (forall k :: 0 <= k < |middle| ==> middle[k].Some? && after[k].Some?)
    && forall k :: 0 <= k < |middle| ==> LastSlotSorted(middle[k].value, after[k].value)
  }

  lemma LastSlotIsSame(e: Element, f: Element)
    requires LastSlotSorted(e, f)
    ensures SameCommand(e, f)
  {
    forall i | 0 <= i < |e.slots| ensures multiset(e.slots[i]) == multiset(f.slots[i]) {
      assert i < |e.slots| - 1 || (e.slots[i] == LastSlot(e) && f.slots[i] == LastSlot(f));
    }
  }

  lemma SortedIsRearranged(before: Table, middle: Table, after: Table) returns (p: seq<nat>, q: seq<nat>)
    requires SortedTable(before, middle) && LastSlotsSorted(middle, after)
    ensures Rearranged(before, after, p, q)
  {
    hide SameCommand, LastSlotSorted;
    p, q :| Permuted(before, middle, p, q);
    forall k | 0 <= k < |before| ensures SameEntry(before[p[k]], after[k]) {
      LastSlotIsSame(middle[k].value, after[k].value);
    }
  }

  /** cmd_sort_node cannot be observed by executing a line, in either engine. */
  lemma SortingInvisible(mode: Mode, before: Table, after: Table, words: seq<string>)
    requires NodeSorted(before, after)
    ensures SameOutcome(Execute(mode, before, words), Execute(mode, after, words))
  {
    hide SortedTable, LastSlotsSorted, Execute;
    var middle :| SortedTable(before, middle) && LastSlotsSorted(middle, after);
    var p, q := SortedIsRearranged(before, middle, after);
    RearrangementInvisible(mode, before, after, p, q, words);
  }

  // ---------- There is a sorted table ----------

  predicate Ascends(texts: seq<string>) {
    forall i, j :: 0 <= i < j < |texts| ==> !Less(texts[j], texts[i])
  }

  /** Where a text goes among sorted ones. */
  lemma InsertPlace(texts: seq<string>, t: string) returns (k: nat)
    requires Ascends(texts)
    ensures k <= |texts| && Ascends(With(texts, k, t))
  {
    hide Less;
    k := LinkLists.Place(ConfigLines.Strcmp, texts, t);
    forall i | 0 <= i < |texts|
      ensures i < k ==> !Less(t, texts[i])
      ensures i >= k ==> !Less(texts[i], t)
    {
      if i < k {
        assert ConfigLines.Strcmp(t, texts[i]) >= 0;
        ConfigLines.LessIrreflexive(t);
      } else if Less(texts[i], t) {
        assert ConfigLines.Strcmp(t, texts[k]) < 0;
        ConfigLines.LessTransitive(texts[i], t, texts[k]);
        ConfigLines.LessIrreflexive(texts[k]);
        assert false;
      }
    }
  }

  function Texts(slot: Slot): (r: seq<string>)
    ensures |r| == |slot| && forall i :: 0 <= i < |slot| ==> r[i] == slot[i].cmd
  {
    seq(|slot|, i requires 0 <= i < |slot| => slot[i].cmd)
  }

  lemma WithMultiset<T>(s: seq<T>, k: nat, x: T)
    requires k <= |s|
    ensures multiset(With(s, k, x)) == multiset(s) + multiset{x}
  {
    assert s == s[..k] + s[k..];
  }

  lemma {:induction false} SlotSortable(before: Slot) returns (after: Slot)
    ensures SortedSlot(before, after)
    decreases |before|
  {
    hide Less;
    after := [];
    if before != [] {
      var n := |before| - 1;
      var front := SlotSortable(before[..n]);
      assert Ascends(Texts(front));
      var k := InsertPlace(Texts(front), before[n].cmd);
      after := With(front, k, before[n]);
      WithMultiset(front, k, before[n]);
      assert before == before[..n] + [before[n]];
      assert Texts(after) == With(Texts(front), k, before[n].cmd);
      assert forall i :: 0 <= i < |after| ==> after[i].cmd == Texts(after)[i];
    }
  }

  function Names(table: Table): (r: seq<string>)
    requires forall k :: 0 <= k < |table| ==> table[k].Some?
    ensures |r| == |table| && forall i :: 0 <= i < |table| ==> r[i] == table[i].value.text
  {
    seq(|table|, i requires 0 <= i < |table| => table[i].value.text)
  }

  /** Position `n` put in at place `k`. */
  function Placed(p: seq<nat>, k: nat, n: nat): (r: seq<nat>)
    requires k <= |p|
    ensures |r| == |p| + 1
  {
    p[..k] + [n] + p[k..]
  }

  lemma PlacedAt(p: seq<nat>, k: nat, n: nat, i: nat)
    requires k <= |p| && i <= |p|
    ensures Placed(p, k, n)[i] == if i < k then p[i] else if i == k then n else p[i - 1]
  {}

  /** The positions from place `k` on move up by one, and `k` comes last. */
  function Moved(q: seq<nat>, k: nat): (r: seq<nat>)
    ensures |r| == |q| + 1
  {
    seq(|q|, i requires 0 <= i < |q| => if q[i] < k then q[i] else q[i] + 1) + [k]
  }

  lemma MovedAt(q: seq<nat>, k: nat, i: nat)
    requires i <= |q|
    ensures Moved(q, k)[i] == if i == |q| then k else if q[i] < k then q[i] else q[i] + 1
  {}

  lemma BijectionAt(n: nat, p: seq<nat>, q: seq<nat>, k: nat)
    requires Bijection(n, p, q)
    ensures |p| == |q| == n
    ensures k < n ==> p[k] < n && q[k] < n && q[p[k]] == k && p[q[k]] == k
  {}

  lemma PlacedThenMoved(n: nat, p: seq<nat>, q: seq<nat>, k: nat, i: nat)
    requires Bijection(n, p, q) && k <= n && i <= n
    ensures |p| == |q| == n && Placed(p, k, n)[i] <= n && Moved(q, k)[Placed(p, k, n)[i]] == i
  {
    hide Bijection, Placed, Moved;
    BijectionAt(n, p, q, i);
    if i > k { BijectionAt(n, p, q, i - 1); }
    PlacedAt(p, k, n, i);
    MovedAt(q, k, Placed(p, k, n)[i]);
  }

  lemma MovedThenPlaced(n: nat, p: seq<nat>, q: seq<nat>, k: nat, i: nat)
    requires Bijection(n, p, q) && k <= n && i <= n
    ensures |p| == |q| == n && Moved(q, k)[i] <= n && Placed(p, k, n)[Moved(q, k)[i]] == i
  {
    hide Bijection, Placed, Moved;
    BijectionAt(n, p, q, i);
    MovedAt(q, k, i);
    PlacedAt(p, k, n, Moved(q, k)[i]);
  }

  lemma BijectionMore(n: nat, p: seq<nat>, q: seq<nat>, k: nat)
    requires Bijection(n, p, q) && k <= n
    ensures |p| == n && Bijection(n + 1, Placed(p, k, n), Moved(q, k))
  {
    hide Placed, Moved;
    BijectionAt(n, p, q, 0);
    var p1, q1 := Placed(p, k, n), Moved(q, k);
    forall i | 0 <= i < n + 1 ensures p1[i] < n + 1 && q1[p1[i]] == i { PlacedThenMoved(n, p, q, k, i); }
    forall i | 0 <= i < n + 1 ensures q1[i] < n + 1 && p1[q1[i]] == i { MovedThenPlaced(n, p, q, k, i); }
  }

  lemma PermutedMore(before: Table, after: Table, p: seq<nat>, q: seq<nat>, k: nat)
    requires before != [] && k <= |after| && Permuted(before[..|before| - 1], after, p, q)
    ensures |p| == |after| == |before| - 1
    ensures var n := |before| - 1;
      Permuted(before, With(after, k, before[n]), Placed(p, k, n), Moved(q, k))
  {
    hide Placed, Moved, Bijection;
    var n := |before| - 1;
    EntryAt(before, after, p, q, 0);
    BijectionMore(n, p, q, k);
    var next, p1 := With(after, k, before[n]), Placed(p, k, n);
    forall i | 0 <= i < n + 1 ensures p1[i] < n + 1 && next[i] == before[p1[i]] {
      PlacedThenMoved(n, p, q, k, i);
      PlacedAt(p, k, n, i);
      EntryAt(before, after, p, q, i);
      if i > k { EntryAt(before, after, p, q, i - 1); }
    }
  }

  lemma EntryAt(before: Table, after: Table, p: seq<nat>, q: seq<nat>, i: nat)
    requires before != [] && Permuted(before[..|before| - 1], after, p, q)
    ensures |after| == |p| == |before| - 1
    ensures i < |after| ==> p[i] < |before| && after[i] == before[p[i]]
  {}

  predicate AllSome(table: Table) {
    forall k :: 0 <= k < |table| ==> table[k].Some?
  }

  lemma {:induction false} TableSortable(before: Table) returns (after: Table, p: seq<nat>, q: seq<nat>)
    requires AllSome(before)
    ensures AllSome(after) && Ascends(Names(after)) && Permuted(before, after, p, q)
    decreases |before|
  {
    hide Less, Ascends, Permuted, Placed, Moved;
    after, p, q := [], [], [];
    if before == [] {
      NothingPermuted();
    } else {
      var n := |before| - 1;
      var front, r, s := TableSortable(before[..n]);
      var k := InsertPlace(Names(front), before[n].value.text);
      PermutedMore(before, front, r, s, k);
      after, p, q := With(front, k, before[n]), Placed(r, k, n), Moved(s, k);
      assert AllSome(after);
      assert Names(after) == With(Names(front), k, before[n].value.text);
    }
  }

  lemma NothingPermuted()
    ensures Permuted([], [], [], []) && Ascends(Names([]))
  {}

  lemma SortedIfAscends(before: Table, after: Table, p: seq<nat>, q: seq<nat>)
    requires AllSome(after) && Ascends(Names(after)) && Permuted(before, after, p, q)
    ensures SortedTable(before, after)
  {
    hide Less, Permuted;
    forall i, j | 0 <= i < j < |after| ensures !Less(after[j].value.text, after[i].value.text) {
      assert !Less(Names(after)[j], Names(after)[i]);
    }
  }

  lemma {:induction false} LastSlotsSortable(middle: Table) returns (after: Table)
    requires forall k :: 0 <= k < |middle| ==> middle[k].Some?
    ensures LastSlotsSorted(middle, after)
    decreases |middle|
  {
    hide LastSlotSorted;
    after := [];
    if middle != [] {
      var n := |middle| - 1;
      var front := LastSlotsSortable(middle[..n]);
      var f := CommandSortable(middle[n].value);
      after := front + [Some(f)];
      assert forall k :: 0 <= k < n ==> middle[..n][k] == middle[k];
    }
  }

  lemma CommandSortable(e: Element) returns (f: Element)
    ensures LastSlotSorted(e, f)
  {
    hide SortedSlot;
    var slot := SlotSortable(LastSlot(e));
    if e.slots == [] {
      f := e;
      assert SortedSlot([], []) by { NothingToSort(); }
    } else {
      f := e.(slots := e.slots[..|e.slots| - 1] + [slot]);
    }
  }

  lemma NothingToSort()
    ensures SortedSlot([], [])
  {}

  /** Every table without holes has a sorted one, in which the commands ascend by their texts, and the
      alternatives of each last slot by theirs. */
  lemma NodeSortable(before: Table) returns (after: Table)
    requires forall k :: 0 <= k < |before| ==> before[k].Some?
    ensures NodeSorted(before, after) && |after| == |before|
    ensures forall i, j :: 0 <= i < j < |after| ==>
      after[i].Some? && after[j].Some? && ConfigLines.Strcmp(after[i].value.text, after[j].value.text) <= 0
    ensures forall k, i, j :: 0 <= k < |after| && after[k].Some? && 0 <= i < j < |LastSlot(after[k].value)| ==>
      ConfigLines.Strcmp(LastSlot(after[k].value)[i].cmd, LastSlot(after[k].value)[j].cmd) <= 0
  {
    hide Less, LastSlot, Permuted;
    var middle, p, q := TableSortable(before);
    SortedIfAscends(before, middle, p, q);
    after := LastSlotsSortable(middle);
    assert |after| == |before| by { PermutedLength(before, middle, p, q); }
    forall a, b | !Less(b, a) ensures ConfigLines.Strcmp(a, b) <= 0 {
      if a != b { ConfigLines.LessConnects(a, b); }
    }
    forall k | 0 <= k < |after|
      ensures after[k].Some? && after[k].value.text == middle[k].value.text
      ensures SortedSlot(LastSlot(middle[k].value), LastSlot(after[k].value))
    {
      assert LastSlotSorted(middle[k].value, after[k].value);
    }
    hide SortedTable, LastSlotsSorted;
    forall i, j | 0 <= i < j < |after|
      ensures ConfigLines.Strcmp(after[i].value.text, after[j].value.text) <= 0
    {
      assert !Less(Names(middle)[j], Names(middle)[i]);
    }
    forall k, i, j | 0 <= k < |after| && 0 <= i < j < |LastSlot(after[k].value)|
      ensures ConfigLines.Strcmp(LastSlot(after[k].value)[i].cmd, LastSlot(after[k].value)[j].cmd) <= 0
    {
      assert SortedSlot(LastSlot(middle[k].value), LastSlot(after[k].value));
    }
  }

  lemma PermutedLength(before: Table, after: Table, p: seq<nat>, q: seq<nat>)
    requires Permuted(before, after, p, q)
    ensures |before| == |after|
  {}
}
