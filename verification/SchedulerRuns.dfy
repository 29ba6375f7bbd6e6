/** What every run of the scheduler keeps. */
module SchedulerRuns {
  import opened Options
  import opened TimeVals
  import opened Seqs
  import opened Scheduler

  // ---------- The invariant ----------

  predicate AllFds(tasks: seq<Task>) {
    forall t :: t in tasks ==> t.payload.Fd?
  }

  predicate DistinctFds(tasks: seq<Task>) {
    forall i, j :: 0 <= i < j < |tasks| ==> FdOf(tasks[i]) != FdOf(tasks[j])
  }

  /** A descriptor list and its descriptor set agree. */
  predicate Agree(tasks: seq<Task>, fds: set<int>) {
    AllFds(tasks) && DistinctFds(tasks) && fds == Fds(tasks)
  }

  predicate AllTimers(tasks: seq<Task>) {
    forall t :: t in tasks ==> t.payload.Sands? && Normal(t.payload.sands)
  }

  predicate Sorted(tasks: seq<Task>) {
    forall i, j :: 0 <= i < j < |tasks| ==> Micros(Deadline(tasks[i])) <= Micros(Deadline(tasks[j]))
  }

  predicate AllVals(tasks: seq<Task>) {
    forall t :: t in tasks ==> t.payload.Val?
  }

  predicate Inv(s: State) {
    && Agree(s.read, s.readfd)
    && Agree(s.write, s.writefd)
    && AllTimers(s.timer) && Sorted(s.timer)
    && AllVals(s.event)
    && AllFds(s.ready)
    && s.alloc == |s.read| + |s.write| + |s.timer| + |s.event| + |s.ready| + s.unused
  }

  lemma AgreeAppend(tasks: seq<Task>, fds: set<int>, t: Task)
    requires Agree(tasks, fds) && t.payload.Fd? && FdOf(t) !in fds
    ensures Agree(tasks + [t], fds + {FdOf(t)})
  {
    var r := tasks + [t];
    assert r[|tasks|] == t;
    forall i, j | 0 <= i < j < |r| ensures FdOf(r[i]) != FdOf(r[j]) {
      assert i < |tasks| && tasks[i] in tasks;
    }
    assert forall u :: u in r <==> u in tasks || u == t;
  }

  lemma AgreeRemove(tasks: seq<Task>, fds: set<int>, i: nat)
    requires Agree(tasks, fds) && i < |tasks|
    ensures Agree(Without(tasks, i), fds - {FdOf(tasks[i])})
  {
    var r := Without(tasks, i);
    assert forall k :: 0 <= k < |r| ==> r[k] == tasks[if k < i then k else k + 1];
    forall t | t in tasks && FdOf(t) != FdOf(tasks[i]) ensures t in r {
      var k :| 0 <= k < |tasks| && tasks[k] == t;
      assert r[if k < i then k else k - 1] == t;
    }
    forall t | t in r ensures t in tasks && FdOf(t) != FdOf(tasks[i]) {
      var k :| 0 <= k < |r| && r[k] == t;
      assert tasks[if k < i then k else k + 1] == t;
    }
  }

  /** A new timer goes after every earlier deadline and before every later one. */
  lemma TimerPlaceSplits(timer: seq<Task>, task: Task, k: nat)
    requires AllTimers(timer) && Sorted(timer) && task.payload.Sands? && Normal(task.payload.sands) && k < |timer|
    ensures k < TimerPlace(timer, Deadline(task)) ==> Micros(Deadline(timer[k])) <= Micros(Deadline(task))
    ensures k >= TimerPlace(timer, Deadline(task)) ==> Micros(Deadline(task)) <= Micros(Deadline(timer[k]))
  {
    hide TimerPlace, TimevalCmp, Micros;
    var n := TimerPlace(timer, Deadline(task));
    assert timer[k] in timer;
    CmpOrdersMicros(Deadline(task), Deadline(timer[k]));
    if k >= n {
      assert timer[n] in timer;
      CmpOrdersMicros(Deadline(task), Deadline(timer[n]));
    }
  }

  lemma SortedInsert(timer: seq<Task>, task: Task)
    requires AllTimers(timer) && Sorted(timer) && task.payload.Sands? && Normal(task.payload.sands)
    ensures var n := TimerPlace(timer, Deadline(task));
      AllTimers(timer[..n] + [task] + timer[n..]) && Sorted(timer[..n] + [task] + timer[n..])
  {
    hide TimerPlace, Micros, Deadline;
    var n := TimerPlace(timer, Deadline(task));
    var r := timer[..n] + [task] + timer[n..];
    assert forall k :: 0 <= k < |r| ==> r[k] == if k < n then timer[k] else if k == n then task else timer[k - 1];
    forall k: nat | k < |timer|
      ensures k < n ==> Micros(Deadline(timer[k])) <= Micros(Deadline(task))
      ensures k >= n ==> Micros(Deadline(task)) <= Micros(Deadline(timer[k]))
    {
      TimerPlaceSplits(timer, task, k);
    }
  }

  lemma SubseqSorted(timer: seq<Task>, i: nat)
    requires AllTimers(timer) && Sorted(timer) && i < |timer|
    ensures AllTimers(Without(timer, i)) && Sorted(Without(timer, i))
  {
    var r := Without(timer, i);
    assert forall k :: 0 <= k < |r| ==> r[k] == timer[if k < i then k else k + 1];
  }

  lemma WithoutSubset<T>(tasks: seq<T>, i: nat)
    requires i < |tasks|
    ensures |Without(tasks, i)| == |tasks| - 1 && forall t :: t in Without(tasks, i) ==> t in tasks
  {}

  lemma {:induction false} ByArgSubset(tasks: seq<Task>, arg: int, keep: bool)
    ensures forall t :: t in ByArg(tasks, arg, keep) <==> t in tasks && (t.arg == arg) == keep
  {
    if tasks != [] {
      ByArgSubset(tasks[..|tasks| - 1], arg, keep);
      assert tasks == tasks[..|tasks| - 1] + [tasks[|tasks| - 1]];
    }
  }

  /** Two parts of a sequence, one of which gains its next entry. */
  lemma SplitMore<T>(front: seq<T>, last: T, a: seq<T>, b: seq<T>)
    requires multiset(a) + multiset(b) == multiset(front)
    ensures multiset(a + [last]) + multiset(b) == multiset(front + [last])
    ensures multiset(a) + multiset(b + [last]) == multiset(front + [last])
  {}

  lemma {:induction false} ByArgSplits(tasks: seq<Task>, arg: int)
    ensures |ByArg(tasks, arg, true)| + |ByArg(tasks, arg, false)| == |tasks|
    ensures multiset(ByArg(tasks, arg, true)) + multiset(ByArg(tasks, arg, false)) == multiset(tasks)
  {
    if tasks != [] {
      var front, last := tasks[..|tasks| - 1], tasks[|tasks| - 1];
      ByArgSplits(front, arg);
      SplitMore(front, last, ByArg(front, arg, true), ByArg(front, arg, false));
      assert tasks == front + [last];
    }
  }

  lemma {:induction false} ByFdSubset(tasks: seq<Task>, fds: set<int>, keep: bool)
    ensures forall t :: t in ByFd(tasks, fds, keep) <==> t in tasks && (FdOf(t) in fds) == keep
  {
    hide FdOf;
    if tasks != [] {
      ByFdSubset(tasks[..|tasks| - 1], fds, keep);
      assert tasks == tasks[..|tasks| - 1] + [tasks[|tasks| - 1]];
    }
  }

  lemma {:induction false} ByFdSplits(tasks: seq<Task>, fds: set<int>)
    ensures |ByFd(tasks, fds, true)| + |ByFd(tasks, fds, false)| == |tasks|
    ensures multiset(ByFd(tasks, fds, true)) + multiset(ByFd(tasks, fds, false)) == multiset(tasks)
  {
    hide FdOf;
    if tasks != [] {
      var front, last := tasks[..|tasks| - 1], tasks[|tasks| - 1];
      ByFdSplits(front, fds);
      SplitMore(front, last, ByFd(front, fds, true), ByFd(front, fds, false));
      assert tasks == front + [last];
    }
  }

  lemma DistinctAppend(r: seq<Task>, last: Task)
    requires DistinctFds(r) && forall t :: t in r ==> FdOf(t) != FdOf(last)
    ensures DistinctFds(r + [last])
  {
    hide FdOf;
    forall k | 0 <= k < |r| ensures FdOf(r[k]) != FdOf(last) { assert r[k] in r; }
  }

  lemma {:induction false} ByFdDistinct(tasks: seq<Task>, fds: set<int>, keep: bool)
    requires DistinctFds(tasks)
    ensures DistinctFds(ByFd(tasks, fds, keep))
  {
    hide FdOf;
    if tasks != [] {
      var front, last := tasks[..|tasks| - 1], tasks[|tasks| - 1];
      ByFdDistinct(front, fds, keep);
      ByFdSubset(front, fds, keep);
      var r := ByFd(front, fds, keep);
      forall t | t in r ensures FdOf(t) != FdOf(last) {
        var i :| 0 <= i < |front| && front[i] == t;
        assert tasks[i] == t;
      }
      hide DistinctFds;
      DistinctAppend(r, last);
    }
  }

  /** Selecting moves exactly the selected descriptors out of a list and its set. */
  lemma AgreeSelect(tasks: seq<Task>, fds: set<int>, selected: set<int>)
    requires Agree(tasks, fds)
    ensures Agree(ByFd(tasks, selected, false), fds - Fds(ByFd(tasks, selected, true)))
    ensures Fds(ByFd(tasks, selected, true)) == fds * selected
    ensures AllFds(ByFd(tasks, selected, true))
  {
    ByFdSubset(tasks, selected, true);
    ByFdSubset(tasks, selected, false);
    ByFdDistinct(tasks, selected, false);
    hide ByFd, DistinctFds;
  }

  // ---------- Every operation keeps the invariant ----------

  lemma ProcessInv(s: State, r: set<int>, w: set<int>)
    requires Inv(s)
    ensures Inv(Process(s, r, w)) && Pending(Process(s, r, w)) == Pending(s)
  {
    hide ByFd, Agree;
    AgreeSelect(s.read, s.readfd, r);
    AgreeSelect(s.write, s.writefd, w);
    ByFdSplits(s.read, r);
    ByFdSplits(s.write, w);
  }

  lemma RunInv(s: State, kind: Kind, i: nat)
    requires Inv(s) && (kind == Timer || kind == Event || kind == Ready) && i < |ListOf(s, kind)|
    ensures Inv(Run(s, kind, i).state)
    ensures Run(s, kind, i).Got? && Pending(Run(s, kind, i).state) + Delivery(Run(s, kind, i)) == Pending(s)
  {
    var tasks := ListOf(s, kind);
    WithoutSubset(tasks, i);
    WithoutMultiset(tasks, i);
    if kind == Timer { SubseqSorted(tasks, i); }
    assert kind == Event ==> AllVals(Without(tasks, i));
    assert kind == Ready ==> AllFds(Without(tasks, i));
    hide Without, Agree, AllTimers, Sorted, AllVals, AllFds;
  }

  lemma WithoutMultiset<T>(tasks: seq<T>, i: nat)
    requires i < |tasks|
    ensures multiset(Without(tasks, i)) + multiset{tasks[i]} == multiset(tasks)
  {
    assert tasks == tasks[..i] + [tasks[i]] + tasks[i + 1..];
  }

  function Delivery(f: Fetched): multiset<Task> {
    if f.Got? then multiset{f.task} else multiset{}
  }

  lemma NothingDelivered(s: State)
    ensures Pending(s) + multiset{} == Pending(s)
  {}

  /** A fetch keeps the invariant and takes at most the delivered request off the lists. */
  lemma {:induction false} FetchInv(s: State, turns: seq<Turn>)
    requires Inv(s)
    ensures Inv(Fetch(s, turns).state)
    ensures Pending(Fetch(s, turns).state) + Delivery(Fetch(s, turns)) == Pending(s)
    decreases |turns|
  {
    hide Inv, Pending, Process, Run;
    NothingDelivered(s);
    if turns != [] {
      var now := turns[0].now;
      if s.event != [] {
        RunInv(s, Event, 0);
      } else if FirstExpired(s.timer, now) < |s.timer| {
        RunInv(s, Timer, FirstExpired(s.timer, now));
      } else if s.ready != [] {
        RunInv(s, Ready, 0);
      } else {
        match turns[0].wake
        case TimedOut => FetchInv(s, turns[1..]);
        case Interrupted => FetchInv(s, turns[1..]);
        case Broken =>
        case Selected(r, w) =>
          ProcessInv(s, r, w);
          var p := Process(s, r, w);
          if p.ready != [] { RunInv(p, Ready, 0); } else { FetchInv(p, turns[1..]); }
      }
    }
  }

  /** A thread for one more request: unused or newly allocated. */
  lemma TakenIs(s: State)
    ensures var t := Taken(s);
      t == s.(unused := t.unused, alloc := t.alloc) && t.alloc - t.unused == s.alloc - s.unused + 1
  {}

  lemma AppendMultiset<T>(tasks: seq<T>, task: T)
    ensures multiset(tasks + [task]) == multiset(tasks) + multiset{task} && |tasks + [task]| == |tasks| + 1
  {}

  /** One list has gained `task`. */
  lemma OneMore<T>(a: multiset<T>, b: multiset<T>, c: multiset<T>, d: multiset<T>, e: multiset<T>, task: multiset<T>)
    ensures (a + task) + b + c + d + e == a + b + c + d + e + task
    ensures a + (b + task) + c + d + e == a + b + c + d + e + task
    ensures a + b + (c + task) + d + e == a + b + c + d + e + task
    ensures a + b + c + (d + task) + e == a + b + c + d + e + task
    ensures a + b + c + d + (e + task) == a + b + c + d + e + task
  {}

  /** The multisets of the five lists, for use with `OneMore`. */
  lemma OneMorePending(s: State, task: Task)
    ensures var m := multiset{task};
      var (r, w, t, e, y) := (multiset(s.read), multiset(s.write), multiset(s.timer), multiset(s.event), multiset(s.ready));
      (r + m) + w + t + e + y == Pending(s) + m
      && r + (w + m) + t + e + y == Pending(s) + m
      && r + w + (t + m) + e + y == Pending(s) + m
      && r + w + t + (e + m) + y == Pending(s) + m
  {
    OneMore(multiset(s.read), multiset(s.write), multiset(s.timer), multiset(s.event), multiset(s.ready), multiset{task});
  }

  lemma AddReadInv(s: State, func: int, arg: int, fd: int)
    requires Inv(s)
    ensures var op := OpRead(func, arg, fd); Inv(Step(s, op)) && Pending(Step(s, op)) == Pending(s) + Accepted(s, op)
  {
    hide Taken, Agree, AllTimers, Sorted, AllVals, AllFds;
    var task := Task(func, arg, Fd(fd));
    TakenIs(s);
    if fd !in s.readfd {
      AgreeAppend(s.read, s.readfd, task);
      AppendMultiset(s.read, task);
      OneMorePending(s, task);
    }
  }

  lemma AddWriteInv(s: State, func: int, arg: int, fd: int)
    requires Inv(s)
    ensures var op := OpWrite(func, arg, fd); Inv(Step(s, op)) && Pending(Step(s, op)) == Pending(s) + Accepted(s, op)
  {
    hide Taken, Agree, AllTimers, Sorted, AllVals, AllFds;
    var task := Task(func, arg, Fd(fd));
    TakenIs(s);
    if fd !in s.writefd {
      AgreeAppend(s.write, s.writefd, task);
      AppendMultiset(s.write, task);
      OneMorePending(s, task);
    }
  }

  lemma AddTimerInv(s: State, func: int, arg: int, now: TimeVal, delay: int)
    requires Inv(s) && Normal(now)
    ensures var op := OpTimer(func, arg, now, delay); Inv(Step(s, op)) && Pending(Step(s, op)) == Pending(s) + Accepted(s, op)
  {
    var task := Task(func, arg, Sands(TimeVal(now.sec + delay, now.usec)));
    hide Taken, Agree, AllTimers, Sorted, AllVals, AllFds, TimerPlace, Deadline;
    TakenIs(s);
    SortedInsert(s.timer, task);
    InsertMultiset(s.timer, task, TimerPlace(s.timer, Deadline(task)));
    var n := TimerPlace(s.timer, Deadline(task));
    var timer := s.timer[..n] + [task] + s.timer[n..];
    assert AddTimer(s, func, arg, now, delay) == Taken(s).(timer := timer);
    hide AddTimer;
    OneMorePending(s, task);
  }

  lemma AddEventInv(s: State, func: int, arg: int, val: int)
    requires Inv(s)
    ensures var op := OpEvent(func, arg, val); Inv(Step(s, op)) && Pending(Step(s, op)) == Pending(s) + Accepted(s, op)
  {
    var task := Task(func, arg, Val(val));
    assert AllVals(s.event + [task]);
    hide Taken, Agree, AllTimers, Sorted, AllVals, AllFds;
    TakenIs(s);
    AppendMultiset(s.event, task);
    OneMorePending(s, task);
  }

  lemma InsertMultiset<T>(tasks: seq<T>, task: T, n: nat)
    requires n <= |tasks|
    ensures multiset(tasks[..n] + [task] + tasks[n..]) == multiset(tasks) + multiset{task}
    ensures |tasks[..n] + [task] + tasks[n..]| == |tasks| + 1
  {
    assert tasks == tasks[..n] + tasks[n..];
  }

  lemma CancelPending(s: State, kind: Kind, i: nat)
    requires i < |ListOf(s, kind)|
    ensures Pending(Cancel(s, kind, i)) + multiset{ListOf(s, kind)[i]} == Pending(s)
  {
    hide FdOf, Without;
    WithoutMultiset(ListOf(s, kind), i);
  }

  lemma CancelInv(s: State, kind: Kind, i: nat)
    requires Inv(s) && i < |ListOf(s, kind)|
    ensures Inv(Cancel(s, kind, i))
  {
    var tasks := ListOf(s, kind);
    WithoutSubset(tasks, i);
    match kind {
      case Read => AgreeRemove(s.read, s.readfd, i);
      case Write => AgreeRemove(s.write, s.writefd, i);
      case Timer => SubseqSorted(s.timer, i);
      case Event => assert AllVals(Without(tasks, i));
      case Ready => assert AllFds(Without(tasks, i));
    }
    hide Without, FdOf, Agree, AllTimers, Sorted, AllVals, AllFds;
  }

  lemma CancelEventInv(s: State, arg: int)
    requires Inv(s)
    ensures Inv(CancelEvent(s, arg)) && Pending(CancelEvent(s, arg)) + multiset(ByArg(s.event, arg, true)) == Pending(s)
  {
    ByArgSubset(s.event, arg, false);
    ByArgSplits(s.event, arg);
    hide ByArg;
  }

  /** Main result: every operation keeps the invariant, and no request is lost, duplicated or
      changed by it, whatever threads are recycled. */
  lemma StepKeepsInv(s: State, op: Op)
    requires Inv(s) && Enabled(s, op)
    ensures Inv(Step(s, op))
    ensures Pending(Step(s, op)) + Cancelled(s, op) + Delivered(s, op) == Pending(s) + Accepted(s, op)
  {
    hide Inv, Pending;
    match op
    case OpCancel(kind, i) =>
      CancelInv(s, kind, i);
      CancelPending(s, kind, i);
    case OpCancelEvent(arg) =>
      CancelEventInv(s, arg);
    case OpFetch(turns) =>
      FetchInv(s, turns);
    case OpTimer(func, arg, now, delay) =>
      AddTimerInv(s, func, arg, now, delay);
    case OpEvent(func, arg, val) =>
      AddEventInv(s, func, arg, val);
    case OpRead(func, arg, fd) =>
      AddReadInv(s, func, arg, fd);
    case OpWrite(func, arg, fd) =>
      AddWriteInv(s, func, arg, fd);
  }

  // ---------- Runs ----------

  ghost predicate EnabledRun(s: State, ops: seq<Op>)
    decreases |ops|
  {
    ops == [] || (Enabled(s, ops[0]) && EnabledRun(Step(s, ops[0]), ops[1..]))
  }

  ghost function After(s: State, ops: seq<Op>): State
    requires EnabledRun(s, ops)
    decreases |ops|
  {
    if ops == [] then s else After(Step(s, ops[0]), ops[1..])
  }

  /** What a whole run accepted, cancelled and delivered. */
  datatype Ledger = Ledger(accepted: multiset<Task>, cancelled: multiset<Task>, delivered: multiset<Task>)

  ghost function LedgerOf(s: State, ops: seq<Op>): Ledger
    requires EnabledRun(s, ops)
    decreases |ops|
  {
    if ops == [] then Ledger(multiset{}, multiset{}, multiset{})
    else
      var rest := LedgerOf(Step(s, ops[0]), ops[1..]);
      Ledger(Accepted(s, ops[0]) + rest.accepted,
             Cancelled(s, ops[0]) + rest.cancelled,
             Delivered(s, ops[0]) + rest.delivered)
  }

  lemma {:induction false} RunFrom(s: State, ops: seq<Op>)
    requires Inv(s) && EnabledRun(s, ops)
    ensures Inv(After(s, ops))
    ensures Pending(s) + LedgerOf(s, ops).accepted
      == Pending(After(s, ops)) + LedgerOf(s, ops).cancelled + LedgerOf(s, ops).delivered
    decreases |ops|
  {
    hide Inv, Step, Pending, Accepted, Cancelled, Delivered, Enabled;
    if ops != [] {
      var t := Step(s, ops[0]);
      StepKeepsInv(s, ops[0]);
      RunFrom(t, ops[1..]);
      var rest := LedgerOf(t, ops[1..]);
      Balance(Pending(s), Pending(t), Pending(After(t, ops[1..])),
              Accepted(s, ops[0]), Cancelled(s, ops[0]), Delivered(s, ops[0]),
              rest.accepted, rest.cancelled, rest.delivered);
    } else {
      hide LedgerOf, After;
      assert Pending(s) + multiset{} == Pending(s) + multiset{} + multiset{};
    }
  }

  lemma Balance<T>(p: multiset<T>, q: multiset<T>, r: multiset<T>, a: multiset<T>, c: multiset<T>, d: multiset<T>,
                   a': multiset<T>, c': multiset<T>, d': multiset<T>)
    requires q + c + d == p + a && q + a' == r + c' + d'
    ensures p + (a + a') == r + (c + c') + (d + d')
  {
    assert p + (a + a') == (p + a) + a';
    assert q + c + d + a' == (q + a') + c + d;
  }

  /** Main result: after every run from an empty master the invariant holds, and what was accepted
      is exactly what was delivered, cancelled or is still pending. */
  lemma EveryRun(ops: seq<Op>)
    requires EnabledRun(EMPTY, ops)
    ensures Inv(After(EMPTY, ops))
    ensures var l := LedgerOf(EMPTY, ops); l.accepted == l.delivered + l.cancelled + Pending(After(EMPTY, ops))
  {
    EmptyInv();
    hide Inv, Pending, After, LedgerOf;
    RunFrom(EMPTY, ops);
    var l := LedgerOf(EMPTY, ops);
    assert multiset{} + l.accepted == l.accepted;
    assert l.delivered + l.cancelled + Pending(After(EMPTY, ops)) == Pending(After(EMPTY, ops)) + l.cancelled + l.delivered;
  }

  lemma EmptyInv()
    ensures Inv(EMPTY) && Pending(EMPTY) == multiset{}
  {
    assert Fds([]) == {};
  }

  // ---------- Recycling ----------

  /** How many threads are on a list and not unused. */
  function Load(s: State): nat {
    |s.read| + |s.write| + |s.timer| + |s.event| + |s.ready|
  }

  function Max(a: int, b: int): int {
    if a < b then b else a
  }

  lemma {:induction false} FetchAllocates(s: State, turns: seq<Turn>)
    ensures Fetch(s, turns).state.alloc == s.alloc
    decreases |turns|
  {
    if turns != [] {
      OnceAllocates(s, turns[0]);
      hide OneTurn;
      FetchAllocates(OneTurn(s, turns[0]).state, turns[1..]);
    }
  }

  lemma OnceAllocates(s: State, turn: Turn)
    ensures OneTurn(s, turn).state.alloc == s.alloc
  {
    hide FirstExpired, ByFd;
  }

  /** Only a thread_add allocates, and only when no thread is unused. */
  lemma StepAllocatesOne(s: State, op: Op)
    requires Enabled(s, op)
    ensures var t := Step(s, op); t.alloc == s.alloc || (t.alloc == s.alloc + 1 && t.unused == 0)
  {
    hide ByArg, TimerPlace, Fetch, Without, Deadline, FdOf;
    if op.OpFetch? { FetchAllocates(s, op.turns); }
  }

  lemma StepAllocates(s: State, op: Op)
    requires Inv(s) && Enabled(s, op)
    ensures Step(s, op).alloc == Max(s.alloc, Load(Step(s, op)))
  {
    StepKeepsInv(s, op);
    StepAllocatesOne(s, op);
    hide Inv, Enabled, Step, Load;
    LoadIs(s);
    LoadIs(Step(s, op));
  }

  lemma LoadIs(s: State)
    requires Inv(s)
    ensures s.alloc == Load(s) + s.unused
  {
    hide Agree, AllTimers, Sorted, AllVals, AllFds;
  }

  /** The greatest load that a run reaches. */
  ghost function Peak(s: State, ops: seq<Op>): int
    requires EnabledRun(s, ops)
    decreases |ops|
  {
    if ops == [] then Load(s) else Max(Load(s), Peak(Step(s, ops[0]), ops[1..]))
  }

  lemma {:induction false} HighWaterFrom(s: State, ops: seq<Op>)
    requires Inv(s) && EnabledRun(s, ops)
    ensures After(s, ops).alloc == Max(s.alloc, Peak(s, ops))
    decreases |ops|
  {
    LoadIs(s);
    hide Inv, Step, Enabled, Load;
    if ops != [] {
      StepAllocates(s, ops[0]);
      StepKeepsInv(s, ops[0]);
      HighWaterFrom(Step(s, ops[0]), ops[1..]);
      LoadIs(Step(s, ops[0]));
    }
  }

  /** Main result: no more threads are allocated than were ever in use at the same time. */
  lemma HighWater(ops: seq<Op>)
    requires EnabledRun(EMPTY, ops)
    ensures After(EMPTY, ops).alloc == Peak(EMPTY, ops)
  {
    EmptyInv();
    hide Inv;
    HighWaterFrom(EMPTY, ops);
    hide After;
    assert Peak(EMPTY, ops) >= Load(EMPTY);
  }

  // ---------- Priorities ----------

  /** Sorted timers: the scan finds the head, whose deadline is the least, or nothing. */
  lemma ScanFindsHead(s: State, now: TimeVal)
    requires Inv(s) && Normal(now)
    ensures FirstExpired(s.timer, now) == if s.timer != [] && Expired(s.timer[0], now) then 0 else |s.timer|
  {
    var n := FirstExpired(s.timer, now);
    if 0 < n < |s.timer| {
      assert s.timer[0] in s.timer && s.timer[n] in s.timer;
      CmpOrdersMicros(now, Deadline(s.timer[0]));
      CmpOrdersMicros(now, Deadline(s.timer[n]));
      assert false;
    }
  }

  /** Main result: what is delivered without waiting is the head of the events; else the timer
      with the least deadline, if that has been reached; else the head of the ready threads. */
  lemma PollOrder(s: State, now: TimeVal)
    requires Inv(s) && Normal(now)
    ensures s.event != [] ==> Poll(s, now) == Some(Run(s, Event, 0))
    ensures s.event == [] && s.timer != [] && Micros(s.timer[0].payload.sands) <= Micros(now) ==>
      Poll(s, now) == Some(Run(s, Timer, 0))
      && forall t :: t in s.timer ==> Micros(s.timer[0].payload.sands) <= Micros(t.payload.sands)
    ensures s.event == [] && (s.timer == [] || Micros(s.timer[0].payload.sands) > Micros(now)) ==>
      Poll(s, now) == (if s.ready != [] then Some(Run(s, Ready, 0)) else None)
      && forall t :: t in s.timer ==> Micros(t.payload.sands) > Micros(now)
  {
    ScanFindsHead(s, now);
    hide FirstExpired, Run;
    if s.timer != [] {
      assert s.timer[0] in s.timer;
      CmpOrdersMicros(now, Deadline(s.timer[0]));
      forall t | t in s.timer ensures Micros(s.timer[0].payload.sands) <= Micros(t.payload.sands) {
        var i :| 0 <= i < |s.timer| && s.timer[i] == t;
        assert i == 0 || Micros(Deadline(s.timer[0])) <= Micros(Deadline(s.timer[i]));
      }
    }
  }

  // ---------- Queues ----------

  /** `after` holds, in order, the entries of `before` at the positions `kept`, and then new ones. */
  predicate Advances<T(==)>(before: seq<T>, after: seq<T>, kept: seq<nat>) {
    && |kept| <= |after|
    && (forall i :: 0 <= i < |kept| ==> kept[i] < |before| && after[i] == before[kept[i]])
    && (forall i, j :: 0 <= i < j < |kept| ==> kept[i] < kept[j])
  }

  /** No entry moves backwards: what is now at position `i` was at `i` or behind. */
  lemma {:induction false} NeverMovesBack<T>(before: seq<T>, after: seq<T>, kept: seq<nat>, i: nat)
    requires Advances(before, after, kept) && i < |kept|
    ensures kept[i] >= i
    decreases i
  {
    if i > 0 { NeverMovesBack(before, after, kept, i - 1); }
  }

  function Range(low: nat, high: nat): (r: seq<nat>)
    requires low <= high
    decreases high
    ensures |r| == high - low && forall i :: 0 <= i < |r| ==> r[i] == low + i
    ensures forall p: nat :: p in r <==> low <= p < high
  {
    if low == high then [] else Range(low, high - 1) + [high - 1]
  }

  lemma KeptAll<T>(before: seq<T>, added: seq<T>)
    ensures Advances(before, before + added, Range(0, |before|))
  {}

  lemma KeptTail<T>(before: seq<T>)
    requires before != []
    ensures Advances(before, before[1..], Range(1, |before|))
  {}

  lemma KeptOthers<T>(before: seq<T>, i: nat)
    requires i < |before|
    ensures Advances(before, Without(before, i), Range(0, i) + Range(i + 1, |before|))
  {}

  lemma {:induction false} KeptByArg(tasks: seq<Task>, arg: int, keep: bool) returns (kept: seq<nat>)
    ensures Advances(tasks, ByArg(tasks, arg, keep), kept) && |kept| == |ByArg(tasks, arg, keep)|
    ensures forall p: nat :: p < |tasks| ==> (p in kept <==> (tasks[p].arg == arg) == keep)
  {
    kept := [];
    if tasks != [] {
      var n := |tasks| - 1;
      var front := KeptByArg(tasks[..n], arg, keep);
      kept := if (tasks[n].arg == arg) == keep then front + [n] else front;
      KeptOneMore(tasks, ByArg(tasks[..n], arg, keep), front);
    }
  }

  lemma KeptOneMore<T>(before: seq<T>, after: seq<T>, kept: seq<nat>)
    requires before != [] && Advances(before[..|before| - 1], after, kept) && |kept| == |after|
    ensures Advances(before, after, kept)
    ensures Advances(before, after + [before[|before| - 1]], kept + [|before| - 1])
  {
    var n := |before| - 1;
    assert forall i :: 0 <= i < |kept| ==> before[..n][kept[i]] == before[kept[i]];
  }

  /** Whether an operation takes the entry at a position off the queue of events. */
  predicate LeavesEvents(s: State, op: Op, p: nat)
    requires p < |s.event|
  {
    match op
    case OpCancel(kind, i) => kind == Event && i == p
    case OpCancelEvent(arg) => s.event[p].arg == arg
    case OpFetch(turns) => turns != [] && p == 0
    case _ => false
  }

  /** The same for the queue of ready threads. */
  predicate LeavesReadies(s: State, op: Op, p: nat)
    requires p < |s.ready|
  {
    match op
    case OpCancel(kind, i) => kind == Ready && i == p
    case OpFetch(turns) => Fetch(s, turns).Got? && Fetch(s, turns).from == Ready && p == 0
    case _ => false
  }

  /** Such an entry is the one that is delivered, or one that is cancelled. */
  lemma LeaversAccounted(s: State, op: Op, p: nat)
    requires Enabled(s, op)
    ensures p < |s.event| && LeavesEvents(s, op, p) ==>
      if op.OpFetch? then Delivered(s, op) == multiset{s.event[p]} else s.event[p] in Cancelled(s, op)
    ensures p < |s.ready| && LeavesReadies(s, op, p) ==>
      if op.OpFetch? then Delivered(s, op) == multiset{s.ready[p]} else s.ready[p] in Cancelled(s, op)
  {
    hide FirstExpired, Fetch, ByArg;
    match op {
      case OpFetch(turns) => FetchUnfolded(s, turns);
      case OpCancelEvent(arg) => ByArgSubset(s.event, arg, true);
      case _ =>
    }
  }

  /** How many entries of the event (or ready) queue an operation cancels or delivers. */
  function EventsDropped(s: State, op: Op): nat {
    match op
    case OpCancel(kind, _) => if kind == Event then 1 else 0
    case OpCancelEvent(arg) => |ByArg(s.event, arg, true)|
    case OpFetch(turns) => if turns != [] && s.event != [] then 1 else 0
    case _ => 0
  }

  function ReadiesDropped(s: State, op: Op): nat {
    match op
    case OpCancel(kind, _) => if kind == Ready then 1 else 0
    case OpFetch(turns) => if Fetch(s, turns).Got? && Fetch(s, turns).from == Ready && s.ready != [] then 1 else 0
    case _ => 0
  }

  lemma FetchUnfolded(s: State, turns: seq<Turn>)
    ensures turns == [] ==> Fetch(s, turns) == Waiting(s)
    ensures turns != [] && Poll(s, turns[0].now).Some? ==> Some(Fetch(s, turns)) == Poll(s, turns[0].now)
  {}

  lemma KeptNone<T>(after: seq<T>)
    ensures Advances([], after, [])
  {}

  /** A fetch takes the head of the events, or leaves them. */
  lemma FetchEvents(s: State, turns: seq<Turn>) returns (events: seq<nat>)
    ensures Advances(s.event, Fetch(s, turns).state.event, events)
    ensures |events| == |s.event| - EventsDropped(s, OpFetch(turns))
    ensures forall p: nat :: p < |s.event| ==> (p in events <==> !LeavesEvents(s, OpFetch(turns), p))
  {
    hide FirstExpired, Fetch, Advances;
    FetchUnfolded(s, turns);
    if turns == [] {
      KeptAll(s.event, []);
      assert s.event + [] == s.event;
      events := Range(0, |s.event|);
    } else if s.event != [] {
      KeptTail(s.event);
      assert Without(s.event, 0) == s.event[1..];
      events := Range(1, |s.event|);
    } else {
      KeptNone(Fetch(s, turns).state.event);
      events := [];
    }
  }

  /** Of the ready threads a fetch takes at most the head, and others may join at the end. */
  lemma FetchReadies(s: State, turns: seq<Turn>) returns (readies: seq<nat>)
    ensures Advances(s.ready, Fetch(s, turns).state.ready, readies)
    ensures |readies| == |s.ready| - ReadiesDropped(s, OpFetch(turns))
    ensures forall p: nat :: p < |s.ready| ==> (p in readies <==> !LeavesReadies(s, OpFetch(turns), p))
  {
    hide FirstExpired, Fetch, Advances;
    FetchUnfolded(s, turns);
    if s.ready == [] {
      KeptNone(Fetch(s, turns).state.ready);
      readies := [];
    } else if turns != [] && Fetch(s, turns).Got? && Fetch(s, turns).from == Ready {
      KeptTail(s.ready);
      assert Without(s.ready, 0) == s.ready[1..];
      readies := Range(1, |s.ready|);
    } else {
      KeptAll(s.ready, []);
      assert s.ready + [] == s.ready;
      readies := Range(0, |s.ready|);
    }
  }

  lemma QueueStep(s: State, op: Op) returns (events: seq<nat>, readies: seq<nat>)
    requires Enabled(s, op)
    ensures Advances(s.event, Step(s, op).event, events) && |events| == |s.event| - EventsDropped(s, op)
    ensures Advances(s.ready, Step(s, op).ready, readies) && |readies| == |s.ready| - ReadiesDropped(s, op)
    ensures forall p: nat :: p < |s.event| ==> (p in events <==> !LeavesEvents(s, op, p))
    ensures forall p: nat :: p < |s.ready| ==> (p in readies <==> !LeavesReadies(s, op, p))
  {
    hide Advances, Fetch, ByArg, TimerPlace;
    KeptAll(s.event, []);
    KeptAll(s.ready, []);
    assert s.event + [] == s.event && s.ready + [] == s.ready;
    events, readies := Range(0, |s.event|), Range(0, |s.ready|);
    match op {
      case OpEvent(func, arg, val) =>
        KeptAll(s.event, [Task(func, arg, Val(val))]);
      case OpCancel(kind, i) =>
        if kind == Event {
          KeptOthers(s.event, i);
          events := Range(0, i) + Range(i + 1, |s.event|);
        }
        if kind == Ready {
          KeptOthers(s.ready, i);
          readies := Range(0, i) + Range(i + 1, |s.ready|);
        }
      case OpCancelEvent(arg) =>
        events := KeptByArg(s.event, arg, false);
        ByArgSplits(s.event, arg);
      case OpFetch(turns) =>
        events := FetchEvents(s, turns);
        readies := FetchReadies(s, turns);
      case _ =>
    }
  }

  /** Main result: events and ready threads are queues. Whatever the operation, the entries it
      does not cancel or deliver stay in their order, none moves back, and new ones come last; every
      entry that is left out is the one delivered or one that is cancelled. */
  lemma QueuesAdvance(s: State, op: Op) returns (events: seq<nat>, readies: seq<nat>)
    requires Enabled(s, op)
    ensures Advances(s.event, Step(s, op).event, events) && |events| == |s.event| - EventsDropped(s, op)
    ensures Advances(s.ready, Step(s, op).ready, readies) && |readies| == |s.ready| - ReadiesDropped(s, op)
    ensures forall i :: 0 <= i < |events| ==> events[i] >= i
    ensures forall i :: 0 <= i < |readies| ==> readies[i] >= i
    ensures forall p: nat :: p < |s.event| && p !in events ==>
      LeavesEvents(s, op, p) && s.event[p] in Delivered(s, op) + Cancelled(s, op)
    ensures forall p: nat :: p < |s.ready| && p !in readies ==>
      LeavesReadies(s, op, p) && s.ready[p] in Delivered(s, op) + Cancelled(s, op)
  {
    hide *;
    events, readies := QueueStep(s, op);
    forall i | 0 <= i < |events| ensures events[i] >= i { NeverMovesBack(s.event, Step(s, op).event, events, i); }
    forall i | 0 <= i < |readies| ensures readies[i] >= i { NeverMovesBack(s.ready, Step(s, op).ready, readies, i); }
    forall p: nat | p < |s.event| && p !in events ensures s.event[p] in Delivered(s, op) + Cancelled(s, op) {
      LeaversAccounted(s, op, p);
    }
    forall p: nat | p < |s.ready| && p !in readies ensures s.ready[p] in Delivered(s, op) + Cancelled(s, op) {
      LeaversAccounted(s, op, p);
    }
  }
}
