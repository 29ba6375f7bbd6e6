/** The command table of command.c and what its two engines mean.
    A node's command vector is a table of elements some of whose slots are NULL; an element is a
    sequence of slots, and a slot the sequence of its alternatives. */
module Commands {
  import opened Options
  import opened MatchTypes
  import opened Ranges
  import opened Ipv4
  import opened Ipv4Prefix
  import opened Ipv6
  import opened Ipv6Prefix

  datatype Desc = Desc(cmd: string, doc: Option<string>)

  type Slot = seq<Desc>

  /** `func` stands for the opaque handler, `daemon` for a non-zero daemon field. */
  datatype Element = Element(text: string, slots: seq<Slot>, cmdsize: nat, daemon: bool, func: nat)

  type Table = seq<Option<Element>>

  // ---------- The classification macros of command.h ----------

  predicate IsOption(s: string) { s != "" && s[0] == '[' }
  predicate IsVariable(s: string) { s != "" && ('A' <= s[0] <= 'Z' || s[0] == '<') }
  predicate IsVararg(s: string) { s != "" && s[0] == '.' }
  predicate IsRange(s: string) { s != "" && s[0] == '<' }
  predicate IsIpv4(s: string) { s == "A.B.C.D" }
  predicate IsIpv4Prefix(s: string) { s == "A.B.C.D/M" }
  predicate IsIpv6(s: string) { s == "X:X::X:X" }
  predicate IsIpv6Prefix(s: string) { s == "X:X::X:X/M" }

  /** The alternatives that stand for a literal word. */
  predicate IsKeyword(s: string) { !IsOption(s) && !IsVariable(s) && !IsVararg(s) }

  /** How many leading slots are mandatory: up to the first that is a lone option. */
  function CmdSize(slots: seq<Slot>): (n: nat)
    ensures n <= |slots|
    ensures forall i :: 0 <= i < n ==> !(|slots[i]| == 1 && IsOption(slots[i][0].cmd))
    ensures n < |slots| ==> |slots[n]| == 1 && IsOption(slots[n][0].cmd)
  {
    if slots == [] || (|slots[0]| == 1 && IsOption(slots[0][0].cmd)) then 0 else 1 + CmdSize(slots[1..])
  }

  /** The element's size field is what cmd_install_element computes. */
  predicate Installed(table: Table) {
    forall k :: 0 <= k < |table| && table[k].Some? ==> table[k].value.cmdsize == CmdSize(table[k].value.slots)
  }

  // ---------- Filtering ----------

  /** `Abbreviated` is cmd_filter_by_completion, `Strict` is cmd_filter_by_string. */
  datatype Mode = Abbreviated | Strict

  predicate Passes(mode: Mode, r: MatchType) {
    if mode.Strict? then r == EXACT_MATCH else r != NO_MATCH
  }

  /** What one alternative says about one word; NO_MATCH when it rejects the word. */
  function Score(mode: Mode, word: string, alt: string): MatchType {
    if IsVararg(alt) then VARARG_MATCH
    else if IsRange(alt) then if RangeMatch(alt, word) then RANGE_MATCH else NO_MATCH
    else if IsIpv6(alt) then if Passes(mode, Ipv6Match(word)) then IPV6_MATCH else NO_MATCH
    else if IsIpv6Prefix(alt) then if Passes(mode, Ipv6PrefixMatch(word)) then IPV6_PREFIX_MATCH else NO_MATCH
    else if IsIpv4(alt) then if Passes(mode, Ipv4Match(word)) then IPV4_MATCH else NO_MATCH
    else if IsIpv4Prefix(alt) then if Passes(mode, Ipv4PrefixMatch(word)) then IPV4_PREFIX_MATCH else NO_MATCH
    else if IsOption(alt) || IsVariable(alt) then EXTEND_MATCH
    else if word == alt then EXACT_MATCH
    else if mode.Abbreviated? && word <= alt then PARTLY_MATCH
    else NO_MATCH
  }

  /** The slot a live element has at `index`; no alternatives for a NULL entry or a short element. */
  function SlotAt(x: Option<Element>, index: nat): Slot {
    if x.Some? && index < |x.value.slots| then x.value.slots[index] else []
  }

  predicate Accepts(mode: Mode, word: string, slot: Slot) {
    exists d :: d in slot && Score(mode, word, d.cmd) != NO_MATCH
  }

  predicate Scores(mode: Mode, word: string, table: Table, index: nat, t: MatchType) {
    exists k, d :: 0 <= k < |table| && d in SlotAt(table[k], index) && Score(mode, word, d.cmd) == t
  }

  function Highest(mode: Mode, word: string, table: Table, index: nat, bound: MatchType): (t: MatchType)
    ensures t <= bound && (t == NO_MATCH || Scores(mode, word, table, index, t))
    ensures forall u: MatchType :: t < u <= bound ==> !Scores(mode, word, table, index, u)
  {
    if bound == NO_MATCH || Scores(mode, word, table, index, bound) then bound
    else Highest(mode, word, table, index, bound - 1)
  }

  /** The match type a filtering pass returns: the best score of any alternative. */
  function Best(mode: Mode, word: string, table: Table, index: nat): MatchType {
    Highest(mode, word, table, index, EXACT_MATCH)
  }

  /** The table a filtering pass leaves. */
  function Filter(mode: Mode, word: string, table: Table, index: nat): (r: Table)
    ensures |r| == |table|
  {
    seq(|table|, k requires 0 <= k < |table| =>
      if Accepts(mode, word, SlotAt(table[k], index)) then table[k] else None)
  }

  // ---------- The ambiguity pass ----------

  /** Whether is_cmd_ambiguous counts the alternative as a match of type `t`. The two prefix
      types look at the word only, and the range type at any alternative. */
  predicate Hit(t: MatchType, word: string, alt: string) {
    if t == EXACT_MATCH then !IsOption(alt) && !IsVariable(alt) && word == alt
    else if t == PARTLY_MATCH then !IsOption(alt) && !IsVariable(alt) && word <= alt
    else if t == RANGE_MATCH then RangeMatch(alt, word)
    else if t == IPV6_MATCH then IsIpv6(alt)
    else if t == IPV6_PREFIX_MATCH then Ipv6PrefixMatch(word) != NO_MATCH
    else if t == IPV4_MATCH then IsIpv4(alt)
    else if t == IPV4_PREFIX_MATCH then Ipv4PrefixMatch(word) != NO_MATCH
    else if t == EXTEND_MATCH then IsOption(alt) || IsVariable(alt)
    else false
  }

  predicate HasHit(t: MatchType, word: string, slot: Slot) {
    exists d :: d in slot && Hit(t, word, d.cmd)
  }

  predicate HitText(t: MatchType, word: string, table: Table, index: nat, text: string) {
    exists k, d :: 0 <= k < |table| && d in SlotAt(table[k], index) && d.cmd == text && Hit(t, word, text)
  }

  datatype Ambiguity = Clear | Clash | Partial

  predicate WordIsPartial(t: MatchType, word: string) {
    (t == IPV6_PREFIX_MATCH && Ipv6PrefixMatch(word) == PARTLY_MATCH)
    || (t == IPV4_PREFIX_MATCH && Ipv4PrefixMatch(word) == PARTLY_MATCH)
  }

  predicate AnyAlternative(table: Table, index: nat) {
    exists k :: 0 <= k < |table| && SlotAt(table[k], index) != []
  }

  /** Two different texts were hit, for the two types that care. */
  ghost predicate Clashes(t: MatchType, word: string, table: Table, index: nat) {
    (t == PARTLY_MATCH || t == RANGE_MATCH)
    && exists c1, c2 :: HitText(t, word, table, index, c1) && HitText(t, word, table, index, c2) && c1 != c2
  }

  /** is_cmd_ambiguous' return value: 1 is `Clash`, 2 is `Partial`. */
  ghost function Ambiguous(t: MatchType, word: string, table: Table, index: nat): Ambiguity {
    if Clashes(t, word, table, index) then Clash
    else if WordIsPartial(t, word) && AnyAlternative(table, index) then Partial
    else Clear
  }

  /** The table the ambiguity pass leaves when it returns 0. */
  function Survivors(t: MatchType, word: string, table: Table, index: nat): (r: Table)
    ensures |r| == |table|
  {
    seq(|table|, k requires 0 <= k < |table| =>
      if HasHit(t, word, SlotAt(table[k], index)) then table[k] else None)
  }

  // ---------- Word by word ----------

  /** The results of the execute functions. `Overrun` is a read past the end of the chosen
      element's slots, which the C code does not guard against. */
  datatype Outcome =
    | ErrNoMatch
    | ErrAmbiguous
    | ErrIncomplete
    | ErrExceedArgcMax
    | Run(element: Element, argv: seq<string>)
    | Overrun

  /** What the loop over the words ends with: a failure, or the live table, the number of words
      consumed and whether a '.' alternative ended the loop. */
  datatype Narrowing = Failed(failure: Outcome) | Narrowed(table: Table, index: nat, vararg: bool)

  ghost function Narrow(mode: Mode, words: seq<string>, table: Table, index: nat): Narrowing
    decreases |words|
  {
    if words == [] then Narrowed(table, index, false)
    else
      var t := Best(mode, words[0], table, index);
      var kept := Filter(mode, words[0], table, index);
      if t == VARARG_MATCH then Narrowed(kept, index, true)
      else
        match Ambiguous(t, words[0], kept, index)
        case Clash => Failed(ErrAmbiguous)
        case Partial => Failed(ErrNoMatch)
        case Clear => Narrow(mode, words[1..], Survivors(t, words[0], kept, index), index + 1)
  }

  // ---------- The matched-count check ----------

  datatype Choice = Rejected(failure: Outcome) | Chosen(element: Element)

  predicate Complete(x: Option<Element>, index: nat, vararg: bool) {
    x.Some? && (vararg || index >= x.value.cmdsize)
  }

  ghost predicate OnlyComplete(table: Table, index: nat, vararg: bool, k: nat) {
    k < |table| && Complete(table[k], index, vararg)
    && forall j :: 0 <= j < |table| && j != k ==> !Complete(table[j], index, vararg)
  }

  ghost function Choose(table: Table, index: nat, vararg: bool): Choice {
    if forall k :: 0 <= k < |table| ==> !Complete(table[k], index, vararg) then
      Rejected(if exists k :: 0 <= k < |table| && table[k].Some? then ErrIncomplete else ErrNoMatch)
    else if exists k: nat :: OnlyComplete(table, index, vararg, k) then
      var k: nat :| OnlyComplete(table, index, vararg, k);
      Chosen(table[k].value)
    else Rejected(ErrAmbiguous)
  }

  ghost function Select(n: Narrowing): Choice {
    match n
    case Failed(f) => Rejected(f)
    case Narrowed(table, index, vararg) => Choose(table, index, vararg)
  }

  /** The loop over the words fails in two ways only. */
  lemma {:induction false} NarrowFailures(mode: Mode, words: seq<string>, table: Table, index: nat)
    ensures Narrow(mode, words, table, index).Failed? ==>
      Narrow(mode, words, table, index).failure in {ErrAmbiguous, ErrNoMatch}
    decreases |words|
  {
    hide Best, Filter, Survivors, Ambiguous;
    if words != [] {
      var t := Best(mode, words[0], table, index);
      NarrowFailures(mode, words[1..], Survivors(t, words[0], Filter(mode, words[0], table, index), index), index + 1);
    }
  }

  lemma ChooseFailures(n: Narrowing)
    requires n.Failed? ==> n.failure in {ErrAmbiguous, ErrNoMatch}
    ensures Select(n).Rejected? ==> Select(n).failure in {ErrAmbiguous, ErrNoMatch, ErrIncomplete}
  {}

  // ---------- Arguments ----------

  const CMD_ARGC_MAX := 25

  predicate LoneVararg(slots: seq<Slot>, i: nat) {
    i < |slots| && |slots[i]| == 1 && IsVararg(slots[i][0].cmd)
  }

  /** A slot before the first `n` consisted of a '.' alternative only. */
  predicate VarargBefore(slots: seq<Slot>, n: nat) {
    exists i :: 0 <= i < n && LoneVararg(slots, i)
  }

  /** Whether word `i` is handed to the command. */
  predicate IsArgument(slots: seq<Slot>, i: nat) {
    VarargBefore(slots, i + 1)
    || (i < |slots|
        && (|slots[i]| != 1 || IsVariable(slots[i][0].cmd) || IsOption(slots[i][0].cmd)))
  }

  /** The positions, below `n`, of the words handed to the command, in order. */
  function Positions(slots: seq<Slot>, n: nat): (p: seq<nat>)
    ensures |p| <= n
    ensures forall i :: 0 <= i < |p| ==> p[i] < n && IsArgument(slots, p[i])
    ensures forall i, j :: 0 <= i < j < |p| ==> p[i] < p[j]
    ensures forall k :: 0 <= k < n && IsArgument(slots, k) ==> k in p
  {
    if n == 0 then [] else Positions(slots, n - 1) + if IsArgument(slots, n - 1) then [n - 1] else []
  }

  function Arguments(slots: seq<Slot>, words: seq<string>): seq<string> {
    var p := Positions(slots, |words|);
    seq(|p|, i requires 0 <= i < |p| => words[p[i]])
  }

  /** The argument loop leaves the element's slots before anything stops it. */
  predicate Overruns(slots: seq<Slot>, count: nat) {
    count > |slots| && !VarargBefore(slots, |slots|) && |Positions(slots, |slots|)| < CMD_ARGC_MAX
  }

  function Extract(element: Element, words: seq<string>): Outcome {
    if Overruns(element.slots, |words|) then Overrun
    else if |Positions(element.slots, |words|)| >= CMD_ARGC_MAX then ErrExceedArgcMax
    else Run(element, Arguments(element.slots, words))
  }

  /** cmd_execute_command (`Abbreviated`) and cmd_execute_command_strict (`Strict`). */
  ghost function Execute(mode: Mode, table: Table, words: seq<string>): Outcome {
    match Select(Narrow(mode, words, table, 0))
    case Rejected(f) => f
    case Chosen(e) => Extract(e, words)
  }
}
