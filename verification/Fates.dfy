/** What becomes of one request of the scheduler over a whole run. */
module Fates {
  import opened TimeVals
  import opened Seqs
  import opened Scheduler
  import opened SchedulerRuns

  /** An event is still queued at a position, has been delivered, or has been cancelled. */
  datatype Fate = Queued(position: nat) | Delivery | Cancellation

  /** What one operation does to the event at a position. */
  function FateOf(s: State, op: Op, i: nat): Fate
    requires i < |s.event|
  {
    if LeavesEvents(s, op, i) then if op.OpFetch? then Delivery else Cancellation
    else
      match op
      case OpCancel(kind, j) => Queued(if kind == Event && j < i then i - 1 else i)
      case OpCancelEvent(arg) => Queued(|ByArg(s.event[..i], arg, false)|)
      case OpFetch(turns) => Queued(if turns == [] then i else i - 1)
      case _ => Queued(i)
  }

  /** A fetch that gets as far as looking at the events. */
  predicate Fetches(op: Op) {
    op.OpFetch? && op.turns != []
  }

  /** The fate is true: the event is found at that position, or was delivered, or was cancelled. */
  lemma FateIsTrue(s: State, op: Op, i: nat)
    requires Enabled(s, op) && i < |s.event|
    ensures match FateOf(s, op, i)
      case Queued(p) =>
        p < |Step(s, op).event| && Step(s, op).event[p] == s.event[i] && p + (if Fetches(op) then 1 else 0) <= i
      case Delivery => Delivered(s, op) == multiset{s.event[i]} && Fetches(op) && i == 0
      case Cancellation => s.event[i] in Cancelled(s, op) && op.OpFetch? == false
  {
    hide Fetch, ByArg, TimerPlace, FirstExpired;
    LeaversAccounted(s, op, i);
    match op {
      case OpFetch(turns) => FetchTakesHead(s, turns);
      case OpCancelEvent(arg) =>
        if s.event[i].arg != arg { ByArgAt(s.event, arg, i); }
      case _ =>
    }
  }

  lemma FetchTakesHead(s: State, turns: seq<Turn>)
    requires s.event != []
    ensures Fetch(s, turns).state.event == if turns == [] then s.event else s.event[1..]
  {
    hide Fetch;
    FetchUnfolded(s, turns);
  }

  /** An event with another argument ends up behind those with another argument before it. */
  lemma {:induction false} ByArgAt(tasks: seq<Task>, arg: int, i: nat)
    requires i < |tasks| && tasks[i].arg != arg
    ensures var p := |ByArg(tasks[..i], arg, false)|;
      p <= i && p < |ByArg(tasks, arg, false)| && ByArg(tasks, arg, false)[p] == tasks[i]
  {
    var n := |tasks| - 1;
    var front := tasks[..n];
    if i < n {
      ByArgAt(front, arg, i);
      assert front[..i] == tasks[..i];
    }
  }

  /** The fate of the event over a run. */
  ghost function FateOver(s: State, ops: seq<Op>, i: nat): Fate
    requires EnabledRun(s, ops) && i < |s.event|
    decreases |ops|
  {
    if ops == [] then Queued(i)
    else
      FateIsTrue(s, ops[0], i);
      match FateOf(s, ops[0], i)
      case Queued(p) => FateOver(Step(s, ops[0]), ops[1..], p)
      case fate => fate
  }

  function FetchCount(ops: seq<Op>): nat {
    if ops == [] then 0 else (if Fetches(ops[0]) then 1 else 0) + FetchCount(ops[1..])
  }

  /** Main result: the event at position `i` is delivered or cancelled by the time of the (i+1)-th
      fetch, over every run; as long as it is queued, every fetch has brought it nearer the head. */
  lemma {:induction false} EventIsServed(s: State, ops: seq<Op>, i: nat)
    requires EnabledRun(s, ops) && i < |s.event|
    ensures match FateOver(s, ops, i)
      case Queued(p) =>
        p + FetchCount(ops) <= i && p < |After(s, ops).event| && After(s, ops).event[p] == s.event[i]
      case Delivery => s.event[i] in LedgerOf(s, ops).delivered
      case Cancellation => s.event[i] in LedgerOf(s, ops).cancelled
    ensures FetchCount(ops) > i ==> !FateOver(s, ops, i).Queued?
    decreases |ops|
  {
    hide Step, Enabled, FateOf, Delivered, Cancelled, Accepted;
    if ops != [] {
      FateIsTrue(s, ops[0], i);
      if FateOf(s, ops[0], i).Queued? {
        EventIsServed(Step(s, ops[0]), ops[1..], FateOf(s, ops[0], i).position);
      }
    }
  }

  predicate CancelsNoEvent(op: Op) {
    !op.OpCancelEvent? && (op.OpCancel? ==> op.kind != Event)
  }

  /** Main result without cancellations: the event at position `i` is delivered by the (i+1)-th fetch,
      neither sooner nor later. */
  lemma {:induction false} ServedExactly(s: State, ops: seq<Op>, i: nat)
    requires EnabledRun(s, ops) && i < |s.event| && forall k :: 0 <= k < |ops| ==> CancelsNoEvent(ops[k])
    ensures FateOver(s, ops, i) == if FetchCount(ops) > i then Delivery else Queued(i - FetchCount(ops))
    decreases |ops|
  {
    hide Step, Enabled;
    if ops != [] {
      FateIsTrue(s, ops[0], i);
      OneFetch(s, ops[0], i);
      if FateOf(s, ops[0], i).Queued? {
        ServedExactly(Step(s, ops[0]), ops[1..], FateOf(s, ops[0], i).position);
      }
    }
  }

  lemma OneFetch(s: State, op: Op, i: nat)
    requires i < |s.event| && CancelsNoEvent(op)
    ensures FateOf(s, op, i) == if !Fetches(op) then Queued(i) else if i == 0 then Delivery else Queued(i - 1)
  {}

  // ---------- Ready threads ----------

  /** A fetch that gets as far as looking at the ready threads, when there is one. */
  predicate ReachesReady(s: State, op: Op) {
    Fetches(op) && s.event == [] && FirstExpired(s.timer, op.turns[0].now) == |s.timer|
  }

  /** What one operation does to the ready thread at a position. */
  function ReadyFate(s: State, op: Op, i: nat): Fate
    requires i < |s.ready|
  {
    if ReachesReady(s, op) then if i == 0 then Delivery else Queued(i - 1)
    else
      match op
      case OpCancel(kind, j) =>
        if kind == Ready && j == i then Cancellation else Queued(if kind == Ready && j < i then i - 1 else i)
      case _ => Queued(i)
  }

  lemma ReadyFateIsTrue(s: State, op: Op, i: nat)
    requires Enabled(s, op) && i < |s.ready|
    ensures match ReadyFate(s, op, i)
      case Queued(p) =>
        p < |Step(s, op).ready| && Step(s, op).ready[p] == s.ready[i] && p + (if ReachesReady(s, op) then 1 else 0) <= i
      case Delivery => Delivered(s, op) == multiset{s.ready[i]} && ReachesReady(s, op) && i == 0
      case Cancellation => s.ready[i] in Cancelled(s, op) && op.OpFetch? == false
  {
    hide Fetch, ByArg, TimerPlace, FirstExpired;
    match op {
      case OpFetch(turns) => FetchUnfolded(s, turns);
      case _ =>
    }
  }

  /** The fate of the ready thread over a run. */
  ghost function ReadyFateOver(s: State, ops: seq<Op>, i: nat): Fate
    requires EnabledRun(s, ops) && i < |s.ready|
    decreases |ops|
  {
    if ops == [] then Queued(i)
    else
      ReadyFateIsTrue(s, ops[0], i);
      match ReadyFate(s, ops[0], i)
      case Queued(p) => ReadyFateOver(Step(s, ops[0]), ops[1..], p)
      case fate => fate
  }

  /** How many fetches of a run find no event and no expired timer at first. */
  ghost function ReadyCount(s: State, ops: seq<Op>): nat
    requires EnabledRun(s, ops)
    decreases |ops|
  {
    if ops == [] then 0 else (if ReachesReady(s, ops[0]) then 1 else 0) + ReadyCount(Step(s, ops[0]), ops[1..])
  }

  /** Main result: the ready thread at position `i` is delivered or cancelled by the time of the
      (i+1)-th fetch that finds no event and no expired timer, over every run. */
  lemma {:induction false} ReadyIsServed(s: State, ops: seq<Op>, i: nat)
    requires EnabledRun(s, ops) && i < |s.ready|
    ensures match ReadyFateOver(s, ops, i)
      case Queued(p) =>
        p + ReadyCount(s, ops) <= i && p < |After(s, ops).ready| && After(s, ops).ready[p] == s.ready[i]
      case Delivery => s.ready[i] in LedgerOf(s, ops).delivered
      case Cancellation => s.ready[i] in LedgerOf(s, ops).cancelled
    ensures ReadyCount(s, ops) > i ==> !ReadyFateOver(s, ops, i).Queued?
    decreases |ops|
  {
    hide Step, Enabled, ReadyFate, Delivered, Cancelled, Accepted, ReachesReady;
    if ops != [] {
      ReadyFateIsTrue(s, ops[0], i);
      if ReadyFate(s, ops[0], i).Queued? {
        ReadyIsServed(Step(s, ops[0]), ops[1..], ReadyFate(s, ops[0], i).position);
      }
    }
  }

  /** Main result without cancellations of ready threads: it is delivered by exactly that fetch. */
  lemma {:induction false} ReadyServedExactly(s: State, ops: seq<Op>, i: nat)
    requires EnabledRun(s, ops) && i < |s.ready|
    requires forall k :: 0 <= k < |ops| && ops[k].OpCancel? ==> ops[k].kind != Ready
    ensures ReadyFateOver(s, ops, i) == if ReadyCount(s, ops) > i then Delivery else Queued(i - ReadyCount(s, ops))
    decreases |ops|
  {
    hide Step, Enabled, ReachesReady;
    if ops != [] {
      ReadyFateIsTrue(s, ops[0], i);
      if ReadyFate(s, ops[0], i).Queued? {
        ReadyServedExactly(Step(s, ops[0]), ops[1..], ReadyFate(s, ops[0], i).position);
      }
    }
  }

  // ---------- Timers ----------

  /** What one operation does to the timer at a position. */
  function TimerFate(s: State, op: Op, i: nat): Fate
    requires i < |s.timer|
  {
    match op
    case OpTimer(_, _, now, delay) =>
      Queued(if i < TimerPlace(s.timer, TimeVal(now.sec + delay, now.usec)) then i else i + 1)
    case OpCancel(kind, j) =>
      if kind == Timer && j == i then Cancellation else Queued(if kind == Timer && j < i then i - 1 else i)
    case OpFetch(turns) =>
      var f := Fetch(s, turns);
      if f.Got? && f.from == Timer then if i == 0 then Delivery else Queued(i - 1) else Queued(i)
    case _ => Queued(i)
  }

  lemma TimerFateIsTrue(s: State, op: Op, i: nat)
    requires Inv(s) && Enabled(s, op) && i < |s.timer|
    ensures match TimerFate(s, op, i)
      case Queued(p) => p < |Step(s, op).timer| && Step(s, op).timer[p] == s.timer[i]
      case Delivery => Delivered(s, op) == multiset{s.timer[i]} && i == 0
      case Cancellation => s.timer[i] in Cancelled(s, op) && op.OpFetch? == false
  {
    hide Inv, Fetch, ByArg, TimerPlace, FirstExpired, AddTimer, Without;
    match op {
      case OpFetch(turns) => FetchTimers(s, turns);
      case OpTimer(func, arg, now, delay) => Shifted(s, func, arg, now, delay, i);
      case OpCancel(kind, j) => if kind == Timer && j != i { StaysWithout(s.timer, j, i); }
      case _ =>
    }
  }

  lemma Shifted(s: State, func: int, arg: int, now: TimeVal, delay: int, i: nat)
    requires i < |s.timer|
    ensures var t, n := AddTimer(s, func, arg, now, delay), TimerPlace(s.timer, TimeVal(now.sec + delay, now.usec));
      var p := if i < n then i else i + 1;
      p < |t.timer| && t.timer[p] == s.timer[i]
  {
    hide TimerPlace;
  }

  lemma StaysWithout<T>(tasks: seq<T>, j: nat, i: nat)
    requires i < |tasks| && j < |tasks| && i != j
    ensures var p := if j < i then i - 1 else i;
      p < |Without(tasks, j)| && Without(tasks, j)[p] == tasks[i]
  {}

  /** A fetch takes the first timer, or leaves them all. */
  lemma {:induction false} FetchTimers(s: State, turns: seq<Turn>)
    requires Inv(s) && forall k :: 0 <= k < |turns| ==> Normal(turns[k].now) && Normal(turns[k].later)
    ensures var f := Fetch(s, turns);
      if f.Got? && f.from == Timer then s.timer != [] && f.task == s.timer[0] && f.state.timer == s.timer[1..]
      else f.state.timer == s.timer
    decreases |turns|
  {
    hide Inv, OneTurn;
    if turns != [] {
      var f := OneTurn(s, turns[0]);
      TurnTimers(s, turns[0]);
      FetchInv(s, [turns[0]]);
      OneTurnFetch(s, turns[0]);
      if f.Waiting? { FetchTimers(f.state, turns[1..]); }
    }
  }

  lemma OneTurnFetch(s: State, turn: Turn)
    ensures Fetch(s, [turn]).state == OneTurn(s, turn).state
  {
    hide OneTurn;
    var f := OneTurn(s, turn);
    assert [turn][1..] == [];
    NoTurnsLeft(f.state);
  }

  lemma TurnTimers(s: State, turn: Turn)
    requires Inv(s) && Normal(turn.now)
    ensures var f := OneTurn(s, turn);
      if f.Got? && f.from == Timer then s.timer != [] && f.task == s.timer[0] && f.state.timer == s.timer[1..]
      else f.state.timer == s.timer
  {
    hide FirstExpired, Inv, Expired, ByFd;
    ScanFindsHead(s, turn.now);
  }

  /** The fate of the timer over a run. */
  ghost function TimerFateOver(s: State, ops: seq<Op>, i: nat): Fate
    requires Inv(s) && EnabledRun(s, ops) && i < |s.timer|
    decreases |ops|
  {
    if ops == [] then Queued(i)
    else
      TimerFateIsTrue(s, ops[0], i);
      StepKeepsInv(s, ops[0]);
      match TimerFate(s, ops[0], i)
      case Queued(p) => TimerFateOver(Step(s, ops[0]), ops[1..], p)
      case fate => fate
  }

  /** The fate is true: the timer is found at that position, or was delivered, or was cancelled. */
  lemma {:induction false} TimerIsTracked(s: State, ops: seq<Op>, i: nat)
    requires Inv(s) && EnabledRun(s, ops) && i < |s.timer|
    ensures match TimerFateOver(s, ops, i)
      case Queued(p) => p < |After(s, ops).timer| && After(s, ops).timer[p] == s.timer[i]
      case Delivery => s.timer[i] in LedgerOf(s, ops).delivered
      case Cancellation => s.timer[i] in LedgerOf(s, ops).cancelled
    decreases |ops|
  {
    hide Inv, Step, Enabled, TimerFate, Delivered, Cancelled, Accepted;
    if ops != [] {
      TimerFateIsTrue(s, ops[0], i);
      StepKeepsInv(s, ops[0]);
      if TimerFate(s, ops[0], i).Queued? {
        TimerIsTracked(Step(s, ops[0]), ops[1..], TimerFate(s, ops[0], i).position);
      }
    }
  }

  /** Main result: no timer overtakes another. Over every run, when a timer has been delivered those
      that were before it have been delivered or cancelled, and those still queued keep their order. */
  lemma {:induction false} NoOvertaking(s: State, ops: seq<Op>, i: nat, j: nat)
    requires Inv(s) && EnabledRun(s, ops) && i < j < |s.timer|
    ensures TimerFateOver(s, ops, j) == Delivery ==> !TimerFateOver(s, ops, i).Queued?
    ensures TimerFateOver(s, ops, i).Queued? && TimerFateOver(s, ops, j).Queued? ==>
      TimerFateOver(s, ops, i).position < TimerFateOver(s, ops, j).position
    decreases |ops|
  {
    hide Inv, Step, Enabled, EnabledRun, TimerFate, TimerFateOver;
    TimerFateUnfolds(s, ops, i);
    TimerFateUnfolds(s, ops, j);
    if ops != [] {
      FatesInOrder(s, ops[0], i, j);
      var f, g := TimerFate(s, ops[0], i), TimerFate(s, ops[0], j);
      if f.Queued? && g.Queued? {
        NoOvertaking(Step(s, ops[0]), ops[1..], f.position, g.position);
      }
    }
  }

  /** One step of `TimerFateOver`. */
  lemma TimerFateUnfolds(s: State, ops: seq<Op>, i: nat)
    requires Inv(s) && EnabledRun(s, ops) && i < |s.timer|
    ensures ops == [] ==> TimerFateOver(s, ops, i) == Queued(i)
    ensures ops != [] ==>
      && Enabled(s, ops[0]) && EnabledRun(Step(s, ops[0]), ops[1..]) && Inv(Step(s, ops[0]))
      && var f := TimerFate(s, ops[0], i);
        if f.Queued? then f.position < |Step(s, ops[0]).timer|
          && TimerFateOver(s, ops, i) == TimerFateOver(Step(s, ops[0]), ops[1..], f.position)
        else TimerFateOver(s, ops, i) == f
  {
    hide Inv, Step, Enabled, TimerFate;
    if ops != [] {
      TimerFateIsTrue(s, ops[0], i);
      StepKeepsInv(s, ops[0]);
    }
  }

  /** One operation keeps two timers in their order, and delivers the later one in no case. */
  lemma FatesInOrder(s: State, op: Op, i: nat, j: nat)
    requires i < j < |s.timer|
    ensures var f, g := TimerFate(s, op, i), TimerFate(s, op, j);
      g != Delivery && (f.Queued? && g.Queued? ==> f.position < g.position)
  {
    hide TimerPlace, Fetch;
  }

  lemma EqualIsNotBefore(timer: seq<Task>, i: nat)
    requires i < |timer|
    ensures TimerPlace(timer, Deadline(timer[i])) <= i
  {
    hide TimerPlace;
    assert TimevalCmp(Deadline(timer[i]), Deadline(timer[i])) == 0;
  }

  /** Main result: of timers with equal deadlines the last one added is delivered first. Whatever
      timer with that deadline is pending, the new one is placed before it, and the older one is
      delivered only after the new one has been delivered or cancelled. */
  lemma LastInFirstOut(s: State, func: int, arg: int, now: TimeVal, delay: int, i: nat, ops: seq<Op>)
    requires Inv(s) && Normal(now) && i < |s.timer| && Deadline(s.timer[i]) == TimeVal(now.sec + delay, now.usec)
    requires EnabledRun(AddTimer(s, func, arg, now, delay), ops)
    ensures var t := AddTimer(s, func, arg, now, delay);
      var n := TimerPlace(s.timer, TimeVal(now.sec + delay, now.usec));
      && Inv(t) && n <= i && i + 1 < |t.timer| && t.timer[i + 1] == s.timer[i]
      && t.timer[n] == Task(func, arg, Sands(TimeVal(now.sec + delay, now.usec)))
      && (TimerFateOver(t, ops, i + 1) == Delivery ==> !TimerFateOver(t, ops, n).Queued?)
  {
    hide Inv, EnabledRun, TimerFateOver, TimerPlace;
    var n := TimerPlace(s.timer, TimeVal(now.sec + delay, now.usec));
    StepKeepsInv(s, OpTimer(func, arg, now, delay));
    assert n <= i by { EqualIsNotBefore(s.timer, i); }
    NoOvertaking(AddTimer(s, func, arg, now, delay), ops, n, i + 1);
  }
}
