/** cmd_ipv6_prefix_match of command.c. */
module Ipv6Prefix {
  import opened Options
  import opened CText
  import opened MatchTypes
  import opened Ipv6

  datatype PrefixState = PStart | PColon | PDouble | PAddr | PDot | PSlash | PMask

  datatype PrefixMachine =
    PrefixMachine(state: PrefixState, sp: nat, colons: int, nums: int, doubled: bool)

  datatype PrefixStep = Refused | Unfinished | Next(m: PrefixMachine)

  predicate OnlyPrefixChars(s: string) {
    forall k :: 0 <= k < |s| ==> IsAddressChar(s[k]) || s[k] == '/'
  }

  function PrefixSwitch(s: string, i: nat, m: PrefixMachine): PrefixStep
    requires i < |s|
  {
    match m.state
    case PStart =>
      if s[i] == ':' then
        if i + 1 < |s| && s[i + 1] != ':' then Refused
        else Next(m.(colons := m.colons - 1, state := PColon))
      else Next(m.(sp := i, state := PAddr))
    case PColon =>
      if CharAt(s, i + 1, '/') then Refused
      else if CharAt(s, i + 1, ':') then Next(m.(colons := m.colons + 1, state := PDouble))
      else Next(m.(colons := m.colons + 1, sp := i + 1, state := PAddr))
    case PDouble =>
      if m.doubled || CharAt(s, i + 1, ':') then Refused
      else
        var slash := CharAt(s, i + 1, '/');
        Next(PrefixMachine(if slash then PSlash else PAddr, i + 1,
                           if i + 1 < |s| && !slash then m.colons + 1 else m.colons, m.nums + 1, true))
    case PAddr =>
      if i + 1 == |s| || s[i + 1] == ':' || s[i + 1] == '.' || s[i + 1] == '/' then
        if i - m.sp > 3 || (exists k :: m.sp <= k <= i && s[k] == '/') then Refused
        else
          var state := if CharAt(s, i + 1, ':') then PColon
                       else if CharAt(s, i + 1, '.') then PDot
                       else if CharAt(s, i + 1, '/') then PSlash
                       else PAddr;
          Next(m.(sp := if m.sp <= i then i + 1 else m.sp, nums := m.nums + 1, state := state))
      else Next(m)
    case PDot =>
      Next(m.(state := PAddr))
    case PSlash =>
      if i + 1 == |s| then Unfinished else Next(m.(state := PMask))
    case PMask =>
      Next(m)
  }

  /** The mask after strtol() and its narrowing to a C int. */
  function Ipv6Mask(mask: string): MatchType {
    if mask != "" && AllDigits(mask) && 0 <= Atoi(mask) <= 128 then EXACT_MATCH else NO_MATCH
  }

  function PrefixRun(s: string, i: nat, m: PrefixMachine): (r: MatchType)
    requires i <= |s|
    ensures r == NO_MATCH || r == PARTLY_MATCH || r == EXACT_MATCH
    decreases |s| - i, if m.state.PStart? then 1 else 0
  {
    if m.state.PMask? then Ipv6Mask(s[i..])
    else if i == |s| then PARTLY_MATCH
    else
      match PrefixSwitch(s, i, m)
      case Refused => NO_MATCH
      case Unfinished => PARTLY_MATCH
      case Next(next) =>
        if m.state.PStart? then PrefixRun(s, i, next)
        else if next.nums > 11 || next.colons > 7 then NO_MATCH
        else PrefixRun(s, i + 1, next)
  }

  function Ipv6PrefixMatch(s: string): (r: MatchType)
    ensures r == NO_MATCH || r == PARTLY_MATCH || r == EXACT_MATCH
  {
    if OnlyPrefixChars(s) then PrefixRun(s, 0, PREFIX_INITIAL) else NO_MATCH
  }

  const PREFIX_INITIAL := PrefixMachine(PStart, 0, 0, 0, false)

  // ---------- The scan ----------

  method CmdIpv6PrefixMatch(str: string) returns (r: MatchType)
    ensures r == Ipv6PrefixMatch(str)
  {
    hide PrefixSwitch;
    if !OnlyPrefixChars(str) { return NO_MATCH; }
    var m := PREFIX_INITIAL;
    var i := 0;
    while i < |str| && m.state != PMask
      invariant i <= |str| && PrefixRun(str, 0, PREFIX_INITIAL) == PrefixRun(str, i, m)
      decreases |str| - i, if m.state.PStart? then 1 else 0
    {
      var start := m.state == PStart;
      var step := SwitchOnce(str, i, m);
      match step {
        case Refused => return NO_MATCH;
        case Unfinished => return PARTLY_MATCH;
        case Next(next) => m := next;
      }
      if start { continue; }
      if m.nums > 11 { return NO_MATCH; }
      if m.colons > 7 { return NO_MATCH; }
      i := i + 1;
    }
    if m.state != PMask { return PARTLY_MATCH; }
    return Ipv6Mask(str[i..]);
  }

  /** The switch statement, with its variables in place. */
  method SwitchOnce(str: string, i: nat, m: PrefixMachine) returns (step: PrefixStep)
    requires i < |str|
    ensures step == PrefixSwitch(str, i, m)
    ensures m.state.PStart? && step.Next? ==> !step.m.state.PStart?
  {
    var PrefixMachine(state, sp, colons, nums, doubled) := m;
    match state {
      case PStart =>
        if str[i] == ':' {
          if i + 1 < |str| && str[i + 1] != ':' { return Refused; }
          colons := colons - 1;
          state := PColon;
        } else {
          sp := i;
          state := PAddr;
        }
      case PColon =>
        colons := colons + 1;
        if i + 1 < |str| && str[i + 1] == '/' {
          return Refused;
        } else if i + 1 < |str| && str[i + 1] == ':' {
          state := PDouble;
        } else {
          sp := i + 1;
          state := PAddr;
        }
      case PDouble =>
        if doubled { return Refused; }
        if i + 1 < |str| && str[i + 1] == ':' { return Refused; }
        if i + 1 < |str| && str[i + 1] != '/' { colons := colons + 1; }
        sp := i + 1;
        if i + 1 < |str| && str[i + 1] == '/' {
          state := PSlash;
        } else {
          state := PAddr;
        }
        doubled := true;
        nums := nums + 1;
      case PAddr =>
        if i + 1 == |str| || str[i + 1] == ':' || str[i + 1] == '.' || str[i + 1] == '/' {
          if i - sp > 3 { return Refused; }
          while sp <= i
            invariant forall k :: m.sp <= k < sp ==> k < |str| && str[k] != '/'
            invariant m.sp <= sp && (sp == m.sp || sp <= i + 1)
          {
            if str[sp] == '/' { return Refused; }
            sp := sp + 1;
          }
          nums := nums + 1;
          if i + 1 < |str| && str[i + 1] == ':' {
            state := PColon;
          } else if i + 1 < |str| && str[i + 1] == '.' {
            state := PDot;
          } else if i + 1 < |str| && str[i + 1] == '/' {
            state := PSlash;
          }
        }
      case PDot =>
        state := PAddr;
      case PSlash =>
        if i + 1 == |str| { return Unfinished; }
        state := PMask;
      case PMask =>
    }
    return Next(PrefixMachine(state, sp, colons, nums, doubled));
  }

  // ---------- Prefixes without dots ----------

  /** The address does not stop at a single colon. */
  predicate EndsWhole(a: string) {
    a != "" && (a[|a| - 1] != ':' || (|a| >= 2 && a[|a| - 2] == ':'))
  }

  /** Where the two machines stand before character `i` of the address, when they agree. */
  predicate InStep(a: string, i: nat, m: Machine, p: PrefixMachine)
    requires i < |a|
  {
    && p.colons == m.colons && p.nums == m.nums && p.doubled == m.doubled
    && m.colons <= 7
    && match m.state
       case Start => p.state == PStart && i == 0 && m.colons == m.nums == 0
       case Colon => p.state == PColon && a[i] == ':' && m.nums == m.colons + 1 && (i == 0 || a[i - 1] != ':')
       case Double => p.state == PDouble && a[i] == ':' && i > 0 && a[i - 1] == ':' && m.nums == m.colons
       case Addr => p.state == PAddr && a[i] != ':' && m.nums == m.colons && p.sp == m.sp <= i
       case Dot => false
  }

  /** One step inside the address, which `s` begins with: both machines refuse, or both go on. */
  lemma StepTogether(a: string, s: string, i: nat, m: Machine, p: PrefixMachine)
    requires HexAndColons(a) && a <= s && i + 1 < |a| && InStep(a, i, m, p)
    ensures var u, v := Switch(a, i, m), PrefixSwitch(s, i, p);
      if u.None? then v == Refused
      else v.Next? && (if m.state.Start? then InStep(a, i, u.value, v.m)
                       else if OverBudget(u.value) then v.m.nums > 11 || v.m.colons > 7
                       else v.m.nums <= 11 && v.m.colons <= 7 && InStep(a, i + 1, u.value, v.m))
  {
    assert s[i] == a[i] && s[i + 1] == a[i + 1];
    assert forall k :: m.sp <= k <= i ==> s[k] == a[k];
  }

  function AfterSlash(mask: string): MatchType {
    if mask == "" then PARTLY_MATCH else Ipv6Mask(mask)
  }

  lemma AtSlash(a: string, mask: string, p: PrefixMachine)
    requires p.state == PSlash && p.nums <= 11 && p.colons <= 7
    ensures PrefixRun(a + "/" + mask, |a|, p) == AfterSlash(mask)
  {
    hide Ipv6Mask;
    var s := a + "/" + mask;
    assert s[|a| + 1..] == mask;
    if mask != "" { assert PrefixSwitch(s, |a|, p) == Next(p.(state := PMask)); }
  }

  /** The last character of the address. */
  lemma LastStep(a: string, mask: string, m: Machine, p: PrefixMachine)
    requires HexAndColons(a) && a != "" && InStep(a, |a| - 1, m, p) && !m.state.Start?
    ensures PrefixRun(a + "/" + mask, |a| - 1, p) ==
      if AcceptsFrom(a, |a| - 1, m) && EndsWhole(a) then AfterSlash(mask) else NO_MATCH
  {
    hide Ipv6Mask, HexAndColons;
    var s, i := a + "/" + mask, |a| - 1;
    assert s[i] == a[i] && s[i + 1] == '/';
    assert forall k :: 0 <= k <= i ==> s[k] == a[k];
    NoSlash(a);
    var v := PrefixSwitch(s, i, p);
    assert v == Refused || (v.Next? && v.m.state == PSlash && v.m.nums <= 11 && v.m.colons <= 7);
    assert v.Next? <==> Switch(a, i, m).Some? && EndsWhole(a);
    if v.Next? { AtSlash(a, mask, v.m); }
    LastAccepts(a, m);
    PrefixUnfolds(s, i, p);
  }

  lemma NoSlash(a: string)
    requires HexAndColons(a)
    ensures forall k :: 0 <= k < |a| ==> a[k] != '/'
  {}

  lemma LastAccepts(a: string, m: Machine)
    requires a != "" && !m.state.Start? && !m.state.Dot?
    requires m.nums == m.colons + (if m.state.Colon? then 1 else 0) && m.colons <= 7
    ensures AcceptsFrom(a, |a| - 1, m) <==> Switch(a, |a| - 1, m).Some? && !OverBudget(Switch(a, |a| - 1, m).value)
  {}

  lemma PrefixUnfolds(s: string, i: nat, p: PrefixMachine)
    requires i < |s| && !p.state.PMask?
    ensures PrefixRun(s, i, p) ==
      match PrefixSwitch(s, i, p)
      case Refused => NO_MATCH
      case Unfinished => PARTLY_MATCH
      case Next(next) =>
        if p.state.PStart? then PrefixRun(s, i, next)
        else if next.nums > 11 || next.colons > 7 then NO_MATCH
        else PrefixRun(s, i + 1, next)
  {
    hide PrefixSwitch;
  }

  /** The two machines over the whole address. */
  lemma {:induction false} Together(a: string, mask: string, i: nat, m: Machine, p: PrefixMachine)
    requires HexAndColons(a) && i < |a| && InStep(a, i, m, p)
    ensures PrefixRun(a + "/" + mask, i, p) == if AcceptsFrom(a, i, m) && EndsWhole(a) then AfterSlash(mask) else NO_MATCH
    decreases |a| - i, if m.state.Start? then 1 else 0
  {
    var s := a + "/" + mask;
    PrefixUnfolds(s, i, p);
    AcceptsUnfolds(a, i, m);
    if i + 1 < |a| {
      StepTogether(a, s, i, m, p);
      hide InStep, Switch, PrefixSwitch, Ipv6Mask, EndsWhole, HexAndColons, PrefixRun, AcceptsFrom;
      var u, v := Switch(a, i, m), PrefixSwitch(s, i, p);
      if u.Some? {
        if m.state.Start? {
          LeavesStart(a, i, m);
          Together(a, mask, i, u.value, v.m);
        } else if !OverBudget(u.value) {
          Together(a, mask, i + 1, u.value, v.m);
        }
      }
    } else if m.state.Start? {
      hide PrefixRun, AcceptsFrom, Ipv6Mask;
      assert s[0] == a[0] && s[1] == '/';
      if a[0] != ':' { LastStep(a, mask, Switch(a, i, m).value, PrefixSwitch(s, i, p).m); }
    } else {
      LastStep(a, mask, m, p);
    }
  }

  lemma LeavesStart(a: string, i: nat, m: Machine)
    requires i < |a| && m.state.Start? && Switch(a, i, m).Some?
    ensures !Switch(a, i, m).value.state.Start?
  {}

  lemma AcceptsUnfolds(a: string, i: nat, m: Machine)
    requires i < |a|
    ensures AcceptsFrom(a, i, m) <==>
      var next := Switch(a, i, m);
      next.Some? && if m.state.Start? then AcceptsFrom(a, i, next.value)
                    else !OverBudget(next.value) && AcceptsFrom(a, i + 1, next.value)
  {
    hide Switch;
  }

  /** Main result: over hex digits and colons, what precedes the '/' may be the beginning of an
      address that does not stop at a single colon, and what follows it is a mask length. */
  lemma PrefixExactly(a: string, mask: string)
    requires HexAndColons(a)
    ensures Ipv6PrefixMatch(a + "/" + mask) == EXACT_MATCH <==>
      AddressPrefix(a) && EndsWhole(a) && mask != "" && Ipv6Mask(mask) == EXACT_MATCH
  {
    hide PrefixRun, AcceptsFrom, AddressPrefix, HexAndColons;
    Ipv6MatchExactly(a);
    CharsAllowed(a, mask);
    if a == "" {
      LoneSlash(mask);
    } else {
      assert InStep(a, 0, INITIAL, PREFIX_INITIAL);
      Together(a, mask, 0, INITIAL, PREFIX_INITIAL);
    }
  }

  lemma CharsAllowed(a: string, mask: string)
    requires HexAndColons(a)
    ensures OnlyAddressChars(a)
    ensures AllDigits(mask) ==> OnlyPrefixChars(a + "/" + mask)
  {
    var s := a + "/" + mask;
    if AllDigits(mask) {
      forall k | 0 <= k < |s| ensures IsAddressChar(s[k]) || s[k] == '/' {
        if k > |a| { assert s[k] == mask[k - |a| - 1] && s[k] in mask; }
      }
    }
  }

  /** A '/' with nothing before it is refused: it counts as a character of the first group. */
  lemma LoneSlash(mask: string)
    ensures Ipv6PrefixMatch("/" + mask) == NO_MATCH && "" + "/" + mask == "/" + mask
  {
    var s := "/" + mask;
    LoneSlashFrom(s, 0, PREFIX_INITIAL.(state := PAddr));
    PrefixUnfolds(s, 0, PREFIX_INITIAL);
  }

  lemma {:induction false} LoneSlashFrom(s: string, i: nat, p: PrefixMachine)
    requires i < |s| && s[0] == '/' && p.state == PAddr && p.sp == 0
    ensures PrefixRun(s, i, p) == NO_MATCH
    decreases |s| - i
  {
    hide PrefixRun;
    PrefixUnfolds(s, i, p);
    if PrefixSwitch(s, i, p) == Next(p) && p.nums <= 11 && p.colons <= 7 { LoneSlashFrom(s, i + 1, p); }
  }

  /** Exactly when mask lengths are accepted from 0 to 128 only, as they are meant to be: unless a
      greater one has low bits in that range. */
  lemma MaskAsMeant(mask: string)
    requires mask != "" && AllDigits(mask)
    ensures (Ipv6Mask(mask) == EXACT_MATCH <==> DigitsValue(mask) <= 128)
      <==> DigitsValue(mask) <= 128 || DigitsValue(mask) >= 9223372036854775807 || DigitsValue(mask) % 4294967296 > 128
  {
    hide DigitsValue;
  }

  /** The failing inputs: 2^32 and the 128 lengths after it are accepted after every address. */
  lemma HugeMaskAccepted(a: string, mask: string)
    requires HexAndColons(a) && AddressPrefix(a) && EndsWhole(a)
    requires mask != "" && AllDigits(mask) && 4294967296 <= DigitsValue(mask) <= 4294967296 + 128
    ensures Ipv6PrefixMatch(a + "/" + mask) == EXACT_MATCH
  {
    hide DigitsValue, AddressPrefix, Ipv6PrefixMatch, AllDigits, HexAndColons;
    PrefixExactly(a, mask);
  }

  /** What is accepted need not hold a whole address: one group will do. */
  lemma GroupAlone(g: string, mask: string)
    requires IsGroup(g)
    ensures Ipv6PrefixMatch(g + "/" + mask) == EXACT_MATCH <==> mask != "" && Ipv6Mask(mask) == EXACT_MATCH
    ensures forall b :: WellFormed(b) ==> Text(b) != g
  {
    hide Ipv6PrefixMatch, Ipv6Mask, AddressPrefix;
    PrefixExactly(g, mask);
    assert AddressPrefix(g) by { GroupBegins(g); }
    forall b | WellFormed(b) ensures Text(b) != g { HasColon(b); }
  }

  lemma GroupBegins(g: string)
    requires IsGroup(g)
    ensures AddressPrefix(g)
  {
    var b := Compressed([g], []);
    assert Text(b) == g + "::" + "" && g <= Text(b);
  }

  lemma HasColon(b: Address)
    requires WellFormed(b)
    ensures ':' in Text(b)
  {
    hide Join;
    match b {
      case Full(gs) => JoinStartsWithGroup(gs);
      case Compressed(l, r) => assert Text(b)[|Join(l)|] == ':';
    }
  }

  // ---------- Which texts can still become a prefix ----------

  /** Some continuation of the text is accepted. */
  ghost predicate PrefixViable(s: string) {
    exists t :: Ipv6PrefixMatch(s + t) == EXACT_MATCH
  }

  /** The last character when no '/' follows. */
  lemma LastAlone(a: string, m: Machine, p: PrefixMachine)
    requires HexAndColons(a) && a != "" && InStep(a, |a| - 1, m, p) && !m.state.Start?
    ensures PrefixRun(a, |a| - 1, p) == PARTLY_MATCH <==> AcceptsFrom(a, |a| - 1, m)
  {
    hide HexAndColons;
    var i := |a| - 1;
    NoSlash(a);
    var v := PrefixSwitch(a, i, p);
    assert v == Refused || (v.Next? && v.m.state == PAddr);
    LastAccepts(a, m);
    PrefixUnfolds(a, i, p);
  }

  lemma {:induction false} Alone(a: string, i: nat, m: Machine, p: PrefixMachine)
    requires HexAndColons(a) && i < |a| && InStep(a, i, m, p)
    ensures PrefixRun(a, i, p) == PARTLY_MATCH <==> AcceptsFrom(a, i, m)
    decreases |a| - i, if m.state.Start? then 1 else 0
  {
    PrefixUnfolds(a, i, p);
    AcceptsUnfolds(a, i, m);
    if i + 1 < |a| {
      StepTogether(a, a, i, m, p);
      hide InStep, Switch, PrefixSwitch, HexAndColons, PrefixRun, AcceptsFrom;
      var u, v := Switch(a, i, m), PrefixSwitch(a, i, p);
      if u.Some? {
        if m.state.Start? {
          LeavesStart(a, i, m);
          Alone(a, i, u.value, v.m);
        } else if !OverBudget(u.value) {
          Alone(a, i + 1, u.value, v.m);
        }
      }
    } else if m.state.Start? {
      hide PrefixRun, AcceptsFrom;
      if a[0] == ':' {
        LoneColon(a);
      } else {
        LastAlone(a, Switch(a, i, m).value, PrefixSwitch(a, i, p).m);
      }
    } else {
      LastAlone(a, m, p);
    }
  }

  lemma LoneColon(a: string)
    requires |a| == 1 && a[0] == ':'
    ensures PrefixRun(a, 0, PREFIX_INITIAL) == PARTLY_MATCH && AcceptsFrom(a, 0, INITIAL)
  {
    hide AcceptsFrom, PrefixRun;
    var m, p := Machine(Colon, 0, -1, 0, false), PrefixMachine(PColon, 0, -1, 0, false);
    PrefixUnfolds(a, 0, PREFIX_INITIAL);
    AcceptsUnfolds(a, 0, INITIAL);
    assert Switch(a, 0, INITIAL) == Some(m) && PrefixSwitch(a, 0, PREFIX_INITIAL) == Next(p);
    ColonAlone(a, m, p);
  }

  lemma ColonAlone(a: string, m: Machine, p: PrefixMachine)
    requires |a| == 1 && a[0] == ':'
    requires m == Machine(Colon, 0, -1, 0, false) && p == PrefixMachine(PColon, 0, -1, 0, false)
    ensures PrefixRun(a, 0, p) == PARTLY_MATCH && AcceptsFrom(a, 0, m)
  {}

  /** Over hex digits and colons "partly" is answered exactly for the beginnings of addresses. */
  lemma PartlyExactly(a: string)
    requires HexAndColons(a)
    ensures Ipv6PrefixMatch(a) == PARTLY_MATCH <==> AddressPrefix(a)
  {
    hide PrefixRun, AcceptsFrom, AddressPrefix, HexAndColons;
    Ipv6MatchExactly(a);
    CharsAllowed(a, "");
    AloneAllowed(a);
    if a == "" {
      NothingRead(a);
    } else {
      assert InStep(a, 0, INITIAL, PREFIX_INITIAL);
      Alone(a, 0, INITIAL, PREFIX_INITIAL);
    }
  }

  lemma NothingRead(a: string)
    requires a == ""
    ensures PrefixRun(a, 0, PREFIX_INITIAL) == PARTLY_MATCH && AcceptsFrom(a, 0, INITIAL)
  {}

  lemma AloneAllowed(a: string)
    requires HexAndColons(a)
    ensures OnlyPrefixChars(a)
  {}

  /** A group that is too long stays too long. */
  lemma {:induction false} LongGroup(s: string, i: nat, p: PrefixMachine)
    requires i < |s| && p.state == PAddr && i - p.sp > 3
    ensures PrefixRun(s, i, p) == NO_MATCH
    decreases |s| - i
  {
    hide PrefixRun;
    PrefixUnfolds(s, i, p);
    if PrefixSwitch(s, i, p) == Next(p) && p.nums <= 11 && p.colons <= 7 { LongGroup(s, i + 1, p); }
  }

  /** The last character of the beginning, when the text goes on. */
  lemma LastContinues(a: string, s: string, m: Machine, p: PrefixMachine)
    requires HexAndColons(a) && a != "" && a <= s && InStep(a, |a| - 1, m, p) && !m.state.Start?
    requires PrefixRun(s, |a| - 1, p) == EXACT_MATCH
    ensures AcceptsFrom(a, |a| - 1, m)
  {
    hide HexAndColons, PrefixRun, AcceptsFrom;
    var i := |a| - 1;
    assert s[i] == a[i];
    if p.state == PAddr && i - p.sp > 3 { LongGroup(s, i, p); }
    PrefixUnfolds(s, i, p);
    LastAccepts(a, m);
  }

  lemma {:induction false} Continues(a: string, s: string, i: nat, m: Machine, p: PrefixMachine)
    requires HexAndColons(a) && a <= s && i < |a| && InStep(a, i, m, p)
    requires PrefixRun(s, i, p) == EXACT_MATCH
    ensures AcceptsFrom(a, i, m)
    decreases |a| - i, if m.state.Start? then 1 else 0
  {
    PrefixUnfolds(s, i, p);
    AcceptsUnfolds(a, i, m);
    if i + 1 < |a| {
      StepTogether(a, s, i, m, p);
      hide InStep, Switch, PrefixSwitch, HexAndColons, PrefixRun, AcceptsFrom;
      var u, v := Switch(a, i, m), PrefixSwitch(s, i, p);
      if m.state.Start? {
        LeavesStart(a, i, m);
        Continues(a, s, i, u.value, v.m);
      } else {
        Continues(a, s, i + 1, u.value, v.m);
      }
    } else if m.state.Start? {
      hide PrefixRun, AcceptsFrom;
      OneCharacter(a);
    } else {
      LastContinues(a, s, m, p);
    }
  }

  lemma OneCharacter(a: string)
    requires |a| == 1 && HexAndColons(a)
    ensures AcceptsFrom(a, 0, INITIAL)
  {}

  lemma {:induction false} JoinChars(gs: seq<string>)
    requires AllGroups(gs)
    ensures HexAndColons(Join(gs)) && (gs != [] ==> Join(gs) != "" && IsHex(Join(gs)[|Join(gs)| - 1]))
  {
    hide IsHex;
    if gs != [] {
      assert IsGroup(gs[0]);
      JoinChars(gs[1..]);
    }
  }

  lemma WholeText(b: Address)
    requires WellFormed(b)
    ensures HexAndColons(Text(b)) && EndsWhole(Text(b)) && AddressPrefix(Text(b))
  {
    hide Join;
    match b {
      case Full(gs) => JoinChars(gs);
      case Compressed(l, r) =>
        JoinChars(l);
        JoinChars(r);
        NoneJoined();
    }
  }

  lemma NoneJoined()
    ensures Join([]) == ""
  {}

  lemma ZeroMask()
    ensures Ipv6Mask("0") == EXACT_MATCH
  {
    NoDigits();
    DigitsStep("", '0');
    assert "" + ['0'] == "0";
  }

  /** Main result: over hex digits and colons, exactly the beginnings of addresses can still become
      a prefix, and those are the texts answered "partly". */
  lemma PrefixViableExactly(a: string)
    requires HexAndColons(a)
    ensures PrefixViable(a) <==> AddressPrefix(a)
    ensures PrefixViable(a) <==> Ipv6PrefixMatch(a) == PARTLY_MATCH
  {
    hide PrefixRun, AcceptsFrom, HexAndColons, WellFormed, Text, Ipv6Mask, EndsWhole;
    PartlyExactly(a);
    if PrefixViable(a) {
      var t :| Ipv6PrefixMatch(a + t) == EXACT_MATCH;
      Ipv6MatchExactly(a);
      CharsAllowed(a, "");
      if a == "" {
        NothingRead(a);
      } else {
        StartInStep(a);
        Continues(a, a + t, 0, INITIAL, PREFIX_INITIAL);
      }
    }
    if AddressPrefix(a) {
      var b :| WellFormed(b) && a <= Text(b);
      WholeText(b);
      ZeroMask();
      PrefixExactly(Text(b), "0");
      var t := Text(b)[|a|..] + "/0";
      assert a + t == Text(b) + "/" + "0";
    }
  }

  lemma StartInStep(a: string)
    requires a != ""
    ensures InStep(a, 0, INITIAL, PREFIX_INITIAL)
  {}

  lemma SlashAnswered(a: string)
    requires HexAndColons(a)
    ensures Ipv6PrefixMatch(a + "/") == PARTLY_MATCH <==> AddressPrefix(a) && EndsWhole(a)
  {
    hide PrefixRun, AcceptsFrom, AddressPrefix, HexAndColons;
    Ipv6MatchExactly(a);
    NoDigits();
    CharsAllowed(a, "");
    assert a + "/" + "" == a + "/";
    if a == "" {
      LoneSlash("");
    } else {
      StartInStep(a);
      Together(a, "", 0, INITIAL, PREFIX_INITIAL);
    }
  }

  /** After the '/' "partly" is answered exactly where a mask can follow. */
  lemma SlashExactly(a: string)
    requires HexAndColons(a)
    ensures PrefixViable(a + "/") <==> AddressPrefix(a) && EndsWhole(a)
    ensures Ipv6PrefixMatch(a + "/") == PARTLY_MATCH <==> AddressPrefix(a) && EndsWhole(a)
  {
    hide AddressPrefix, HexAndColons, Ipv6Mask, EndsWhole, Ipv6PrefixMatch;
    SlashAnswered(a);
    if PrefixViable(a + "/") {
      var t :| Ipv6PrefixMatch(a + "/" + t) == EXACT_MATCH;
      PrefixExactly(a, t);
    }
    if AddressPrefix(a) && EndsWhole(a) {
      ZeroMask();
      PrefixExactly(a, "0");
      assert Ipv6PrefixMatch(a + "/" + "0") == EXACT_MATCH;
    }
  }

  // ---------- Addresses with dots ----------

  /** One to three hex digits. */
  predicate IsPart(q: string) {
    1 <= |q| <= 3 && forall k :: 0 <= k < |q| ==> IsHex(q[k])
  }

  /** Up to the first character of a last group, which `a` ends with, behind a colon. */
  lemma {:induction false} ReachGroup(a: string, s: string, i: nat, m: Machine, p: PrefixMachine) returns (q: PrefixMachine)
    requires HexAndColons(a) && a <= s && i < |a| && InStep(a, i, m, p)
    requires |a| >= 2 && a[|a| - 2] == ':' && a[|a| - 1] != ':' && (i == |a| - 1 ==> p.sp == i)
    ensures q.state == PAddr && q.sp == |a| - 1 && q.nums == q.colons <= 7
    ensures PrefixRun(s, i, p) == if AcceptsFrom(a, i, m) then PrefixRun(s, |a| - 1, q) else NO_MATCH
    decreases |a| - i, if m.state.Start? then 1 else 0
  {
    PrefixUnfolds(s, i, p);
    AcceptsUnfolds(a, i, m);
    q := PrefixMachine(PAddr, |a| - 1, 0, 0, false);
    if i + 1 < |a| {
      StepTogether(a, s, i, m, p);
      if !m.state.Start? { GroupStarts(a, s, i, m, p); }
      hide InStep, Switch, PrefixSwitch, HexAndColons, PrefixRun, AcceptsFrom;
      var u, v := Switch(a, i, m), PrefixSwitch(s, i, p);
      if u.Some? {
        if m.state.Start? {
          LeavesStart(a, i, m);
          q := ReachGroup(a, s, i, u.value, v.m);
        } else if !OverBudget(u.value) {
          q := ReachGroup(a, s, i + 1, u.value, v.m);
        }
      }
    } else {
      q := p;
      assert m.state.Addr?;
      hide PrefixRun, AcceptsFrom;
      LastAccepts(a, m);
    }
  }

  /** The colon before the group sets its start. */
  lemma GroupStarts(a: string, s: string, i: nat, m: Machine, p: PrefixMachine)
    requires HexAndColons(a) && a <= s && i + 1 < |a| && InStep(a, i, m, p) && !m.state.Start?
    requires i + 2 == |a| ==> a[i] == ':' && a[i + 1] != ':'
    ensures i + 2 == |a| && PrefixSwitch(s, i, p).Next? ==> PrefixSwitch(s, i, p).m.sp == i + 1
  {
    assert s[i] == a[i] && s[i + 1] == a[i + 1];
  }

  /** A run of hex digits up to a dot or the slash. */
  lemma {:induction false} PartRun(s: string, i: nat, n: nat, p: PrefixMachine)
    requires i < n < |s| && (s[n] == '.' || s[n] == '/') && forall k :: i <= k < n ==> IsHex(s[k])
    requires p.state == PAddr && p.sp <= i && n - p.sp <= 4 && p.nums <= 10 && p.colons <= 7
    requires forall k :: p.sp <= k < i ==> s[k] != '/'
    ensures PrefixRun(s, i, p) ==
      PrefixRun(s, n, p.(sp := n, nums := p.nums + 1, state := if s[n] == '.' then PDot else PSlash))
    decreases n - i
  {
    hide PrefixRun, IsHex;
    PrefixUnfolds(s, i, p);
    HexIsPlain(s[i]);
    if i + 1 < n {
      HexIsPlain(s[i + 1]);
      assert PrefixSwitch(s, i, p) == Next(p);
      PartRun(s, i + 1, n, p);
    } else {
      assert forall k :: p.sp <= k <= i ==> s[k] != '/';
    }
  }

  lemma HexIsPlain(c: char)
    requires IsHex(c)
    ensures c != '/' && c != '.' && c != ':'
  {}

  lemma DotRun(s: string, n: nat, p: PrefixMachine)
    requires n < |s| && p.state == PDot && p.nums <= 11 && p.colons <= 7
    ensures PrefixRun(s, n, p) == PrefixRun(s, n + 1, p.(state := PAddr))
  {
    hide PrefixRun;
    PrefixUnfolds(s, n, p);
  }

  /** A part and the dot behind it. */
  lemma PartAndDot(s: string, i: nat, n: nat, p: PrefixMachine)
    requires i < n < |s| && s[n] == '.' && forall k :: i <= k < n ==> IsHex(s[k])
    requires p.state == PAddr && p.sp <= i && n - p.sp <= 4 && p.nums <= 10 && p.colons <= 7
    requires forall k :: p.sp <= k < i ==> s[k] != '/'
    ensures PrefixRun(s, i, p) == PrefixRun(s, n + 1, p.(sp := n, nums := p.nums + 1))
  {
    hide PrefixRun;
    PartRun(s, i, n, p);
    DotRun(s, n, p.(sp := n, nums := p.nums + 1, state := PDot));
  }

  function Quad(p1: string, p2: string, p3: string, p4: string): string {
    p1 + "." + p2 + "." + p3 + "." + p4
  }

  /** The four parts, from the first character on, and the mask. */
  lemma QuadRun(a: string, p1: string, p2: string, p3: string, p4: string, mask: string, q: PrefixMachine)
    requires IsPart(p1) && IsPart(p2) && IsPart(p3) && IsPart(p4)
    requires q.state == PAddr && q.sp == |a| && q.nums == q.colons <= 7
    ensures PrefixRun(a + Quad(p1, p2, p3, p4) + "/" + mask, |a|, q) == AfterSlash(mask)
  {
    hide PrefixRun, AfterSlash, IsHex, Quad, IsPart;
    var text := a + Quad(p1, p2, p3, p4);
    var s := text + "/" + mask;
    var n1, n2, n3, n4 := QuadAt(a, p1, p2, p3, p4, "/" + mask);
    assert text + ("/" + mask) == s;
    var q1 := q.(sp := n1, nums := q.nums + 1);
    var q2 := q.(sp := n2, nums := q.nums + 2);
    var q3 := q.(sp := n3, nums := q.nums + 3);
    PartAndDot(s, |a|, n1, q);
    PartAndDot(s, n1 + 1, n2, q1);
    PartAndDot(s, n2 + 1, n3, q2);
    PartRun(s, n3 + 1, n4, q3);
    AtSlash(text, mask, q3.(sp := n4, nums := q.nums + 4, state := PSlash));
  }

  /** Where the parts end. */
  lemma QuadAt(a: string, p1: string, p2: string, p3: string, p4: string, rest: string)
    returns (n1: nat, n2: nat, n3: nat, n4: nat)
    requires IsPart(p1) && IsPart(p2) && IsPart(p3) && IsPart(p4) && rest != "" && rest[0] == '/'
    ensures |a| < n1 <= |a| + 3 && n1 + 1 < n2 <= n1 + 4 && n2 + 1 < n3 <= n2 + 4 && n3 + 1 < n4 <= n3 + 4
    ensures n4 == |a + Quad(p1, p2, p3, p4)|
    ensures var s := a + Quad(p1, p2, p3, p4) + rest;
      && n4 < |s| && s[n1] == '.' && s[n2] == '.' && s[n3] == '.' && s[n4] == '/'
      && (forall k :: |a| <= k < n1 ==> IsHex(s[k])) && (forall k :: n1 + 1 <= k < n2 ==> IsHex(s[k]))
      && (forall k :: n2 + 1 <= k < n3 ==> IsHex(s[k])) && (forall k :: n3 + 1 <= k < n4 ==> IsHex(s[k]))
  {
    hide IsHex;
    n1 := |a| + |p1|;
    n2 := n1 + 1 + |p2|;
    n3 := n2 + 1 + |p3|;
    n4 := n3 + 1 + |p4|;
  }

  /** Main result on dots: an address prefix may end in four parts between dots, behind hex digits and
      colons that a group may follow, as in ::ffff:1.2.3.4/96. */
  lemma DottedPrefixExactly(a: string, p1: string, p2: string, p3: string, p4: string, mask: string)
    requires a != "" && HexAndColons(a) && a[|a| - 1] == ':'
    requires IsPart(p1) && IsPart(p2) && IsPart(p3) && IsPart(p4) && AllDigits(mask)
    ensures Ipv6PrefixMatch(a + Quad(p1, p2, p3, p4) + "/" + mask) ==
      if AddressPrefix(a + p1[..1]) then AfterSlash(mask) else NO_MATCH
  {
    hide PrefixRun, AcceptsFrom, AddressPrefix, AfterSlash;
    var b, s := a + p1[..1], a + Quad(p1, p2, p3, p4) + "/" + mask;
    assert b[|a|] == p1[0] && HexAndColons(b);
    assert Quad(p1, p2, p3, p4)[0] == p1[0];
    assert b <= s;
    DottedChars(a, p1, p2, p3, p4, mask);
    Ipv6MatchExactly(b);
    CharsAllowed(b, "");
    HexIsPlain(p1[0]);
    StartInStep(b);
    var q := ReachGroup(b, s, 0, INITIAL, PREFIX_INITIAL);
    QuadRun(a, p1, p2, p3, p4, mask, q);
  }

  lemma DottedChars(a: string, p1: string, p2: string, p3: string, p4: string, mask: string)
    requires HexAndColons(a) && IsPart(p1) && IsPart(p2) && IsPart(p3) && IsPart(p4) && AllDigits(mask)
    ensures OnlyPrefixChars(a + Quad(p1, p2, p3, p4) + "/" + mask)
  {
    hide OnlyPrefixChars, IsHex;
    AddressChars(a);
    PartChars(p1);
    PartChars(p2);
    PartChars(p3);
    PartChars(p4);
    CharsJoin(p1, ".");
    CharsJoin(p1 + ".", p2);
    CharsJoin(p1 + "." + p2, ".");
    CharsJoin(p1 + "." + p2 + ".", p3);
    CharsJoin(p1 + "." + p2 + "." + p3, ".");
    CharsJoin(p1 + "." + p2 + "." + p3 + ".", p4);
    CharsJoin(a, Quad(p1, p2, p3, p4));
    CharsJoin(a + Quad(p1, p2, p3, p4), "/");
    DigitChars(mask);
    CharsJoin(a + Quad(p1, p2, p3, p4) + "/", mask);
    Separators();
  }

  lemma Separators()
    ensures OnlyPrefixChars(".") && OnlyPrefixChars("/")
  {}

  lemma AddressChars(a: string)
    requires HexAndColons(a)
    ensures OnlyPrefixChars(a)
  {}

  lemma PartChars(q: string)
    requires IsPart(q)
    ensures OnlyPrefixChars(q)
  {}

  lemma CharsJoin(a: string, b: string)
    ensures OnlyPrefixChars(a) && OnlyPrefixChars(b) ==> OnlyPrefixChars(a + b)
  {}

  lemma DigitChars(mask: string)
    requires AllDigits(mask)
    ensures OnlyPrefixChars(mask)
  {
    assert forall k :: 0 <= k < |mask| ==> mask[k] in mask;
  }
}
