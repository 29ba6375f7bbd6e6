/** cmd_ipv6_match of command.c and the language it accepts. */
module Ipv6 {
  import opened Options
  import opened MatchTypes

  predicate IsHex(c: char) {
    '0' <= c <= '9' || 'a' <= c <= 'f' || 'A' <= c <= 'F'
  }

  /** The characters strspn() lets through. */
  predicate IsAddressChar(c: char) {
    IsHex(c) || c == ':' || c == '.' || c == '%'
  }

  predicate OnlyAddressChars(s: string) {
    forall k :: 0 <= k < |s| ==> IsAddressChar(s[k])
  }

  predicate CharAt(s: string, i: nat, c: char) {
    i < |s| && s[i] == c
  }

  // ---------- The state machine ----------

  datatype State = Start | Colon | Double | Addr | Dot

  datatype Machine = Machine(state: State, sp: nat, colons: int, nums: int, doubled: bool)

  const INITIAL := Machine(Start, 0, 0, 0, false)

  /** One pass through the switch statement; `None` is the answer "no match". */
  function Switch(s: string, i: nat, m: Machine): Option<Machine>
    requires i < |s|
  {
    match m.state
    case Start =>
      if s[i] == ':' then
        if i + 1 < |s| && s[i + 1] != ':' then None else Some(m.(colons := m.colons - 1, state := Colon))
      else Some(m.(sp := i, state := Addr))
    case Colon =>
      if CharAt(s, i + 1, ':') then Some(m.(colons := m.colons + 1, state := Double))
      else Some(m.(colons := m.colons + 1, sp := i + 1, state := Addr))
    case Double =>
      if m.doubled || CharAt(s, i + 1, ':') then None
      else Some(Machine(Addr, i + 1, if i + 1 < |s| then m.colons + 1 else m.colons, m.nums + 1, true))
    case Addr =>
      if CharAt(s, i + 1, ':') || i + 1 == |s| then
        if i - m.sp > 3 then None else Some(m.(nums := m.nums + 1, state := Colon))
      else if CharAt(s, i + 1, '.') then Some(m.(state := Dot))
      else Some(m)
    case Dot =>
      Some(m.(state := Addr))
  }

  predicate OverBudget(m: Machine) {
    m.nums > 8 || m.colons > 7
  }

  /** The rest of the run. Leaving the start state consumes no character. */
  predicate AcceptsFrom(s: string, i: nat, m: Machine)
    requires i <= |s|
    decreases |s| - i, if m.state.Start? then 1 else 0
  {
    i == |s|
    || (var next := Switch(s, i, m);
        next.Some?
        && if m.state.Start? then AcceptsFrom(s, i, next.value)
           else !OverBudget(next.value) && AcceptsFrom(s, i + 1, next.value))
  }

  function Ipv6Match(s: string): (r: MatchType)
    ensures r == NO_MATCH || r == EXACT_MATCH
  {
    if OnlyAddressChars(s) && AcceptsFrom(s, 0, INITIAL) then EXACT_MATCH else NO_MATCH
  }

  method CmdIpv6Match(str: string) returns (r: MatchType)
    ensures r == Ipv6Match(str)
  {
    if !OnlyAddressChars(str) { return NO_MATCH; }
    var state, sp, colons, nums, doubled := Start, 0, 0, 0, false;
    var i := 0;
    while i < |str|
      invariant i <= |str|
      invariant AcceptsFrom(str, 0, INITIAL) == AcceptsFrom(str, i, Machine(state, sp, colons, nums, doubled))
      decreases |str| - i, if state.Start? then 1 else 0
    {
      match state {
        case Start =>
          if str[i] == ':' {
            if i + 1 < |str| && str[i + 1] != ':' { return NO_MATCH; }
            colons := colons - 1;
            state := Colon;
          } else {
            sp := i;
            state := Addr;
          }
          continue;
        case Colon =>
          colons := colons + 1;
          if i + 1 < |str| && str[i + 1] == ':' {
            state := Double;
          } else {
            sp := i + 1;
            state := Addr;
          }
        case Double =>
          if doubled { return NO_MATCH; }
          if i + 1 < |str| && str[i + 1] == ':' { return NO_MATCH; }
          if i + 1 < |str| { colons := colons + 1; }
          sp := i + 1;
          state := Addr;
          doubled := true;
          nums := nums + 1;
        case Addr =>
          if i + 1 == |str| || str[i + 1] == ':' {
            if i - sp > 3 { return NO_MATCH; }
            nums := nums + 1;
            state := Colon;
          }
          if i + 1 < |str| && str[i + 1] == '.' { state := Dot; }
        case Dot =>
          state := Addr;
      }
      if nums > 8 { return NO_MATCH; }
      if colons > 7 { return NO_MATCH; }
      i := i + 1;
    }
    return EXACT_MATCH;
  }

  // ---------- Addresses: forms 1 and 2 of section 2.2 of RFC 4291 ----------

  predicate IsGroup(g: string) {
    1 <= |g| <= 4 && forall k :: 0 <= k < |g| ==> IsHex(g[k])
  }

  predicate AllGroups(gs: seq<string>) {
    forall k :: 0 <= k < |gs| ==> IsGroup(gs[k])
  }

  /** The groups, separated by single colons. */
  function Join(gs: seq<string>): string {
    if gs == [] then "" else if |gs| == 1 then gs[0] else gs[0] + ":" + Join(gs[1..])
  }

  /** `Compressed` stands for "::" between two runs of groups, replacing at least one group. */
  datatype Address = Full(groups: seq<string>) | Compressed(left: seq<string>, right: seq<string>)

  predicate WellFormed(a: Address) {
    match a
    case Full(gs) => |gs| == 8 && AllGroups(gs)
    case Compressed(l, r) => |l| + |r| <= 7 && AllGroups(l) && AllGroups(r)
  }

  function Text(a: Address): string {
    match a
    case Full(gs) => Join(gs)
    case Compressed(l, r) => Join(l) + "::" + Join(r)
  }

  predicate HexAndColons(s: string) {
    forall k :: 0 <= k < |s| ==> IsHex(s[k]) || s[k] == ':'
  }

  // ---------- The machine, group by group ----------

  /** Where the group that starts at `i` ends. */
  function GroupEnd(s: string, i: nat): (j: nat)
    requires i <= |s|
    ensures i <= j <= |s| && forall k :: i <= k < j ==> s[k] != ':'
    ensures j < |s| ==> s[j] == ':'
    decreases |s| - i
  {
    if i == |s| || s[i] == ':' then i else GroupEnd(s, i + 1)
  }

  /** The machine's answer from the first character of a group, `n` groups (a "::" counted as
      one) lying before it. At a group's start `colons` and `nums` agree. */
  predicate GroupFrom(s: string, i: nat, n: nat, doubled: bool)
    requires i < |s|
    decreases |s| - i
  {
    var j := GroupEnd(s, i);
    && i < j <= i + 4 && n < 8
    && (j == |s|
        || (n < 7
            && (j + 1 == |s|
                || if s[j + 1] == ':' then
                     !doubled && (j + 2 == |s| || (n < 6 && GroupFrom(s, j + 2, n + 2, true)))
                   else GroupFrom(s, j + 1, n + 1, doubled))))
  }

  predicate AddressFrom(s: string) {
    s == "" || s == ":" || s == "::"
    || (s[0] != ':' && GroupFrom(s, 0, 0, false))
    || (|s| > 2 && s[..2] == "::" && GroupFrom(s, 2, 1, true))
  }

  lemma {:induction false} WithinGroup(s: string, i: nat, m: Machine)
    requires i < |s| && HexAndColons(s) && s[i] != ':'
    requires m.state.Addr? && m.sp <= i && !OverBudget(m)
    ensures var j := GroupEnd(s, i);
      AcceptsFrom(s, i, m) <==>
      j - m.sp <= 4 && m.nums < 8 && AcceptsFrom(s, j, m.(nums := m.nums + 1, state := Colon))
    decreases |s| - i
  {
    var j := GroupEnd(s, i);
    assert !CharAt(s, i + 1, '.');
    if i + 1 < |s| && s[i + 1] != ':' {
      assert Switch(s, i, m) == Some(m);
      WithinGroup(s, i + 1, m);
      assert GroupEnd(s, i + 1) == j;
    } else {
      assert j == i + 1;
    }
  }

  lemma {:induction false} MachineFromGroup(s: string, i: nat, n: nat, doubled: bool)
    requires i < |s| && HexAndColons(s) && s[i] != ':' && n <= 7
    ensures AcceptsFrom(s, i, Machine(Addr, i, n, n, doubled)) <==> GroupFrom(s, i, n, doubled)
    decreases |s| - i
  {
    var m := Machine(Addr, i, n, n, doubled);
    WithinGroup(s, i, m);
    var j := GroupEnd(s, i);
    var atColon := Machine(Colon, i, n, n + 1, doubled);
    if j < |s| && j - i <= 4 {
      if CharAt(s, j + 1, ':') {
        var atDouble := Machine(Double, i, n + 1, n + 1, doubled);
        assert Switch(s, j, atColon) == Some(atDouble);
        assert AcceptsFrom(s, j, atColon) <==> n + 1 <= 7 && AcceptsFrom(s, j + 1, atDouble);
        if n + 1 <= 7 { MachineAtDouble(s, j + 1, n + 1, i, doubled); }
      } else if j + 1 < |s| {
        assert Switch(s, j, atColon) == Some(Machine(Addr, j + 1, n + 1, n + 1, doubled));
        if n + 1 <= 7 { MachineFromGroup(s, j + 1, n + 1, doubled); }
      }
    }
  }

  lemma {:induction false} MachineAtDouble(s: string, i: nat, n: nat, sp: nat, doubled: bool)
    requires i < |s| && HexAndColons(s) && s[i] == ':' && n <= 7
    ensures AcceptsFrom(s, i, Machine(Double, sp, n, n, doubled)) <==>
      !doubled && (i + 1 == |s| || (n < 7 && GroupFrom(s, i + 1, n + 1, true)))
    decreases |s| - i
  {
    var m := Machine(Double, sp, n, n, doubled);
    if i + 1 < |s| && s[i + 1] == ':' {
      assert GroupEnd(s, i + 1) == i + 1;
      assert Switch(s, i, m) == None;
    } else if !doubled && i + 1 < |s| {
      assert Switch(s, i, m) == Some(Machine(Addr, i + 1, n + 1, n + 1, true));
      if n + 1 <= 7 { MachineFromGroup(s, i + 1, n + 1, true); }
    } else if !doubled {
      assert Switch(s, i, m) == Some(Machine(Addr, i + 1, n, n + 1, true));
    }
  }

  lemma MachineFromStart(s: string)
    requires HexAndColons(s)
    ensures Ipv6Match(s) == EXACT_MATCH <==> AddressFrom(s)
  {
    assert OnlyAddressChars(s);
    if s == "" {
    } else if s[0] == ':' {
      var atColon := Machine(Colon, 0, -1, 0, false);
      if |s| > 1 && s[1] == ':' {
        assert Switch(s, 0, INITIAL) == Some(atColon);
        var atDouble := Machine(Double, 0, 0, 0, false);
        assert Switch(s, 0, atColon) == Some(atDouble);
        MachineAtDouble(s, 1, 0, 0, false);
        assert s[..2] == "::";
        assert AcceptsFrom(s, 0, atColon) == AcceptsFrom(s, 1, atDouble);
        assert |s| == 2 ==> s == "::";
      } else if |s| == 1 {
        assert s == ":";
        assert Switch(s, 0, INITIAL) == Some(atColon);
        assert Switch(s, 0, atColon) == Some(Machine(Addr, 1, 0, 0, false));
        assert AcceptsFrom(s, 0, atColon);
      }
    } else {
      assert Switch(s, 0, INITIAL) == Some(Machine(Addr, 0, 0, 0, false));
      MachineFromGroup(s, 0, 0, false);
    }
  }

  // ---------- From the machine's language to addresses ----------

  /** `a` may follow `n` groups of an address, `doubled` saying whether "::" is among them. */
  predicate Fits(a: Address, n: nat, doubled: bool) {
    match a
    case Full(gs) => gs != [] && AllGroups(gs) && if doubled then n + |gs| <= 8 else n + |gs| == 8
    case Compressed(l, r) => !doubled && l != [] && AllGroups(l) && AllGroups(r) && n + |l| + |r| <= 7
  }

  function Prepend(g: string, a: Address): Address {
    match a
    case Full(gs) => Full([g] + gs)
    case Compressed(l, r) => Compressed([g] + l, r)
  }

  lemma PrependText(g: string, a: Address, n: nat, doubled: bool)
    requires IsGroup(g) && Fits(a, n + 1, doubled)
    ensures Fits(Prepend(g, a), n, doubled) && Text(Prepend(g, a)) == g + ":" + Text(a)
  {
    match a
    case Full(gs) =>
      assert ([g] + gs)[1..] == gs;
    case Compressed(l, r) =>
      assert ([g] + l)[1..] == l;
      assert Join([g] + l) == g + ":" + Join(l);
      assert Join([g] + l) + "::" + Join(r) == g + ":" + (Join(l) + "::" + Join(r));
  }

  /** The text breaks off inside or just after the group `g`. */
  lemma CompleteLast(g: string, colon: bool, n: nat, doubled: bool) returns (a: Address, t: string)
    requires IsGroup(g) && n < if colon then 7 else 8
    ensures Fits(a, n, doubled) && (if colon then g + ":" else g) + t == Text(a)
    ensures doubled ==> a.Full?
  {
    var text := if colon then g + ":" else g;
    assert Join([g]) == g && Join([]) == "";
    if colon && doubled {
      assert [g, "0"][1..] == ["0"];
      assert Join([g, "0"]) == g + ":" + Join(["0"]) == text + "0";
      return Full([g, "0"]), "0";
    } else if doubled || n == 7 {
      assert text + "" == g;
      return Full([g]), "";
    } else {
      t := if colon then ":" else "::";
      assert text + t == g + "::" == g + "::" + "";
      return Compressed([g], []), t;
    }
  }

  /** The text breaks off after "::", or an address remainder `b` follows it. */
  lemma CompleteDouble(g: string, n: nat, rest: string, b: Address, t: string)
    requires IsGroup(g) && n < 7
    requires rest + t == "" || (n < 6 && Fits(b, n + 2, true) && rest + t == Text(b))
    ensures var a := Compressed([g], if rest + t == "" then [] else b.groups);
      Fits(a, n, false) && (g + "::" + rest) + t == Text(a)
  {
    var right := if rest + t == "" then [] else b.groups;
    assert Join([g]) == g && Join(right) == rest + t;
    assert (g + "::" + rest) + t == g + "::" + (rest + t);
  }

  /** An accepted text can be completed to an address. */
  lemma {:induction false} Completion(s: string, i: nat, n: nat, doubled: bool) returns (a: Address, t: string)
    requires i < |s| && HexAndColons(s) && GroupFrom(s, i, n, doubled)
    ensures Fits(a, n, doubled) && s[i..] + t == Text(a)
    ensures doubled ==> a.Full?
    decreases |s| - i
  {
    hide Text, Join, Fits, GroupEnd;
    var j := GroupEnd(s, i);
    var g := s[i..j];
    assert IsGroup(g);
    if j + 1 >= |s| {
      a, t := CompleteLast(g, j < |s|, n, doubled);
      assert s[i..] == if j < |s| then g + ":" else g;
    } else if s[j + 1] == ':' {
      var rest := s[j + 2..];
      assert s[i..] == g + "::" + rest;
      a, t := Full([]), "";
      if j + 2 < |s| { a, t := Completion(s, j + 2, n + 2, true); }
      CompleteDouble(g, n, rest, a, t);
      a := Compressed([g], if rest + t == "" then [] else a.groups);
    } else {
      var rest := s[j + 1..];
      assert s[i..] == g + ":" + rest;
      a, t := Completion(s, j + 1, n + 1, doubled);
      PrependText(g, a, n, doubled);
      assert (g + ":" + rest) + t == g + ":" + (rest + t);
      a := Prepend(g, a);
    }
  }

  // ---------- From addresses to the machine's language ----------

  lemma JoinStartsWithGroup(gs: seq<string>)
    requires gs != [] && AllGroups(gs)
    ensures |Join(gs)| >= |gs[0]| && Join(gs)[..|gs[0]|] == gs[0] && IsHex(Join(gs)[0])
    ensures |gs| > 1 ==> Join(gs) == gs[0] + ":" + Join(gs[1..])
  {
    assert IsGroup(gs[0]);
  }

  /** An address remainder is its first group, and then nothing, ":" and a remainder, or "::"
      and further groups. */
  lemma FirstGroup(a: Address, n: nat, doubled: bool) returns (g: string, tail: string, b: Address)
    requires Fits(a, n, doubled)
    ensures IsGroup(g)
    ensures n < 8 && (Text(a) == g || (n < 7 && Text(a) == g + ":" + tail && tail != ""))
    ensures Text(a) != g && tail[0] != ':' ==> Fits(b, n + 1, doubled) && tail == Text(b)
    ensures Text(a) != g && tail[0] == ':' ==>
      !doubled && (tail == ":" || (n < 6 && Fits(b, n + 2, true) && tail == ":" + Text(b)))
  {
    var gs := if a.Full? then a.groups else a.left;
    g, tail, b := gs[0], "", a;
    JoinStartsWithGroup(gs);
    assert IsGroup(g);
    if |gs| > 1 {
      b := if a.Full? then Full(gs[1..]) else Compressed(gs[1..], a.right);
      tail := Text(b);
      JoinStartsWithGroup(gs[1..]);
      if a.Compressed? {
        assert (g + ":" + Join(gs[1..])) + "::" + Join(a.right) == g + ":" + (Join(gs[1..]) + "::" + Join(a.right));
      }
    } else if a.Compressed? {
      b := Full(a.right);
      tail := ":" + Join(a.right);
      assert g + "::" + Join(a.right) == g + ":" + tail;
    }
  }

  /** Every prefix of an address is accepted. */
  lemma {:induction false} PrefixAccepted(s: string, i: nat, n: nat, doubled: bool, a: Address)
    requires i < |s| && Fits(a, n, doubled) && s[i..] <= Text(a)
    ensures s[i] != ':' && GroupFrom(s, i, n, doubled)
    decreases |s| - i
  {
    hide Text, Join, Fits, GroupFrom, GroupEnd, IsGroup;
    var g, tail, b := FirstGroup(a, n, doubled);
    var j := InsideGroup(s, i, g, Text(a));
    if j < |s| {
      AfterColon(s, i, g, tail);
      if j + 1 < |s| {
        if tail[0] != ':' {
          PrefixAccepted(s, j + 1, n + 1, doubled, b);
        } else if j + 2 < |s| {
          assert tail == "" + ":" + tail[1..];
          AfterColon(s, j + 1, "", tail[1..]);
          PrefixAccepted(s, j + 2, n + 2, true, b);
        }
      }
    }
    GroupFromUnfolded(s, i, j, n, doubled);
  }

  lemma GroupFromUnfolded(s: string, i: nat, j: nat, n: nat, doubled: bool)
    requires i < |s| && j == GroupEnd(s, i)
    requires i < j <= i + 4 && n < if j < |s| then 7 else 8
    requires j + 1 < |s| && s[j + 1] != ':' ==> GroupFrom(s, j + 1, n + 1, doubled)
    requires j + 1 < |s| && s[j + 1] == ':' ==> !doubled && (j + 2 < |s| ==> n < 6 && GroupFrom(s, j + 2, n + 2, true))
    ensures GroupFrom(s, i, n, doubled)
  {}

  lemma InsideGroup(s: string, i: nat, g: string, text: string) returns (j: nat)
    requires i < |s| && IsGroup(g) && s[i..] <= text
    requires text == g || (g <= text && text[|g|] == ':')
    ensures s[i] != ':' && j == GroupEnd(s, i)
    ensures i < j <= i + 4
    ensures j < |s| ==> j == i + |g| && text != g
  {
    j := if |s| - i <= |g| then |s| else i + |g|;
    assert text[..|g|] == g;
    assert forall k :: i <= k < j ==> s[k] == s[i..][k - i] && s[k] == g[k - i];
    if j < |s| { assert s[j] == s[i..][|g|]; }
    EndOfGroup(s, i, j);
  }

  lemma EndOfGroup(s: string, i: nat, j: nat)
    requires i <= j <= |s| && (forall k :: i <= k < j ==> s[k] != ':') && (j < |s| ==> s[j] == ':')
    ensures GroupEnd(s, i) == j
  {}

  lemma AfterColon(s: string, i: nat, g: string, tail: string)
    requires i + |g| < |s| && s[i..] <= g + ":" + tail
    ensures s[i + |g|] == ':' && s[i + |g| + 1..] <= tail
    ensures i + |g| + 1 < |s| ==> tail != [] && s[i + |g| + 1] == tail[0]
  {
    var all := g + ":" + tail;
    assert s[i..][|g|] == all[|g|] == ':';
    forall k | 0 <= k < |s| - (i + |g| + 1) ensures s[i + |g| + 1..][k] == tail[k] {
      assert s[i..][|g| + 1 + k] == all[|g| + 1 + k];
    }
  }

  // ---------- Main result ----------

  ghost predicate AddressPrefix(s: string) {
    exists a :: WellFormed(a) && s <= Text(a)
  }

  lemma AcceptedIsAddressPrefix(s: string)
    requires HexAndColons(s) && AddressFrom(s)
    ensures AddressPrefix(s)
  {
    hide GroupFrom, Join, HexAndColons, AllGroups, Text;
    if s == "" || s == ":" || s == "::" {
      LeadingDouble([]);
      assert WellFormed(Compressed([], [])) && s <= Text(Compressed([], []));
    } else if s[0] != ':' {
      var a, t := Completion(s, 0, 0, false);
      assert s[0..] == s;
      assert WellFormed(a) && s <= Text(a);
    } else {
      var b, t := Completion(s, 2, 1, true);
      var a := Compressed([], b.groups);
      LeadingDouble(b.groups);
      assert s == "::" + s[2..];
      assert Text(a) == "::" + (s[2..] + t) == s + t;
      assert AllGroups([]) by { LeadingDouble([]); }
      assert WellFormed(a) && s <= Text(a);
    }
  }

  lemma LeadingDouble(right: seq<string>)
    ensures AllGroups([]) && Join([]) == "" && Text(Full(right)) == Join(right)
    ensures Text(Compressed([], right)) == "::" + Join(right)
  {
    assert "" + "::" + Join(right) == "::" + Join(right);
  }

  lemma AddressPrefixIsAccepted(s: string, a: Address)
    requires HexAndColons(s) && WellFormed(a) && s <= Text(a)
    ensures AddressFrom(s)
  {
    hide GroupFrom, Join, HexAndColons, AllGroups;
    LeadingDouble([]);
    assert s[0..] == s;
    if s != "" {
      if a.Full? || a.left != [] {
        PrefixAccepted(s, 0, 0, false, a);
      } else {
        var text := "::" + Join(a.right);
        assert Text(a) == text;
        assert s[0] == ':' && (|s| > 1 ==> s[1] == ':');
        if |s| == 1 { assert s == ":"; }
        if |s| == 2 { assert s == "::"; }
        if |s| > 2 {
          assert text[2..] == Join(a.right) && s[2..] <= text[2..];
          PrefixAccepted(s, 2, 1, true, Full(a.right));
          assert s[..2] == "::";
        }
      }
    }
  }

  /** Over hex digits and colons the machine accepts exactly the (whole or partial) addresses. */
  lemma Ipv6MatchExactly(s: string)
    requires HexAndColons(s)
    ensures Ipv6Match(s) == EXACT_MATCH <==> AddressPrefix(s)
  {
    MachineFromStart(s);
    if AddressFrom(s) { AcceptedIsAddressPrefix(s); }
    if AddressPrefix(s) {
      var a :| WellFormed(a) && s <= Text(a);
      AddressPrefixIsAccepted(s, a);
    }
  }

  // ---------- The alphabet, and addresses with dots ----------

  /** The digits and the other characters of an address, written out. */
  lemma AlphabetExactly(c: char)
    ensures IsHex(c) <==> c in "0123456789abcdefABCDEF"
    ensures IsAddressChar(c) <==> c in "0123456789abcdefABCDEF:.%"
  {
    var hex := "0123456789abcdefABCDEF";
    if IsHex(c) {
      var i := if c <= '9' then c as int - '0' as int
               else if c >= 'a' then 10 + (c as int - 'a' as int) else 16 + (c as int - 'A' as int);
      assert hex[i] == c;
    }
    assert "0123456789abcdefABCDEF:.%" == hex + ":.%";
  }

  /** A hex digit or a dot. */
  predicate IsGroupChar(c: char) {
    IsHex(c) || c == '.'
  }

  /** A last group of more than four characters is refused, dots counted. */
  lemma {:induction false} LongTail(s: string, i: nat, m: Machine)
    requires i < |s| && (m.state.Addr? || m.state.Dot?) && |s| - m.sp > 4
    requires (forall k :: i <= k < |s| ==> IsGroupChar(s[k])) && s[|s| - 1] != '.' && (m.state.Dot? ==> s[i] == '.')
    ensures !AcceptsFrom(s, i, m)
    decreases |s| - i
  {
    hide AcceptsFrom, IsHex;
    UnfoldAccepts(s, i, m);
    if i + 1 < |s| && Switch(s, i, m).Some? && !OverBudget(Switch(s, i, m).value) {
      assert s[i + 1] != ':' by { HexIsNoColon(s[i + 1]); }
      LongTail(s, i + 1, Switch(s, i, m).value);
    }
  }

  lemma HexIsNoColon(c: char)
    requires IsGroupChar(c)
    ensures c != ':'
  {}

  lemma UnfoldAccepts(s: string, i: nat, m: Machine)
    requires i < |s|
    ensures AcceptsFrom(s, i, m) <==>
      var next := Switch(s, i, m);
      next.Some? && if m.state.Start? then AcceptsFrom(s, i, next.value)
                    else !OverBudget(next.value) && AcceptsFrom(s, i + 1, next.value)
  {
    hide Switch;
  }

  /** The machine before character `i` of a text of hex digits and colons. */
  predicate OnTheWay(s: string, i: nat, m: Machine)
    requires i < |s|
  {
    match m.state
    case Start => i == 0
    case Colon => s[i] == ':'
    case Double => s[i] == ':'
    case Addr => s[i] != ':'
    case Dot => false
  }

  lemma {:induction false} ReachesTail(s: string, n: nat, i: nat, m: Machine)
    requires i < n < |s| && |s| - n > 4 && s[n - 1] == ':' && OnTheWay(s, i, m)
    requires forall k :: 0 <= k < n ==> IsHex(s[k]) || s[k] == ':'
    requires (forall k :: n <= k < |s| ==> IsGroupChar(s[k])) && s[n] != '.' && s[|s| - 1] != '.'
    ensures !AcceptsFrom(s, i, m)
    decreases n - i, if m.state.Start? then 1 else 0
  {
    hide AcceptsFrom, IsHex;
    UnfoldAccepts(s, i, m);
    var next := Switch(s, i, m);
    assert s[i + 1] != '.' by { if i + 1 < n { NoDotHere(s[i + 1]); } }
    if next.Some? {
      if m.state.Start? {
        ReachesTail(s, n, i, next.value);
      } else if i + 1 < n {
        if !OverBudget(next.value) { ReachesTail(s, n, i + 1, next.value); }
      } else {
        assert s[n] != ':' by { HexIsNoColon(s[n]); }
        if !OverBudget(next.value) { LongTail(s, n, next.value); }
      }
    }
  }

  lemma NoDotHere(c: char)
    requires IsHex(c) || c == ':'
    ensures c != '.'
  {}

  /** Main result on dots: no address is accepted whose last group, behind hex digits and colons, is
      written with dots and has more than four characters, as that of ::ffff:1.2.3.4. */
  lemma DottedTailRefused(a: string, tail: string)
    requires a != "" && HexAndColons(a) && a[|a| - 1] == ':'
    requires |tail| > 4 && (forall k :: 0 <= k < |tail| ==> IsGroupChar(tail[k]))
    requires tail[0] != '.' && tail[|tail| - 1] != '.'
    ensures Ipv6Match(a + tail) == NO_MATCH
  {
    hide AcceptsFrom, IsHex;
    var s := a + tail;
    assert s[|a| - 1] == ':' && s[|a|] == tail[0] && s[|s| - 1] == tail[|tail| - 1];
    assert forall k :: 0 <= k < |a| ==> s[k] == a[k];
    forall k | |a| <= k < |s| ensures IsGroupChar(s[k]) { assert s[k] == tail[k - |a|]; }
    ReachesTail(s, |a|, 0, INITIAL);
  }
}
