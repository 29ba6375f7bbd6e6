/** The scheduler of thread.c as a state machine over the contents of its lists. */
module Scheduler {
  import opened Options
  import opened TimeVals
  import opened Seqs

  /** The type field of a thread names the list it is on. */
  datatype Kind = Read | Write | Timer | Event | Ready | Unused

  /** The union u. */
  datatype Payload = Val(val: int) | Fd(fd: int) | Sands(sands: TimeVal)

  /** A request: function, argument and payload. */
  datatype Task = Task(func: int, arg: int, payload: Payload)

  /** The six lists (of the unused threads only the number matters), the two descriptor sets and
      the allocation counter. */
  datatype State = State(
    read: seq<Task>, write: seq<Task>, timer: seq<Task>, event: seq<Task>, ready: seq<Task>,
    unused: nat, readfd: set<int>, writefd: set<int>, alloc: int)

  /** thread_master_create */
  const EMPTY := State([], [], [], [], [], 0, {}, {}, 0)

  // ---------- Adding ----------

  /** thread_get: an unused thread if there is one, else a new one. */
  function Taken(s: State): State {
    if s.unused > 0 then s.(unused := s.unused - 1) else s.(alloc := s.alloc + 1)
  }

  function AddRead(s: State, func: int, arg: int, fd: int): State {
    if fd in s.readfd then s
    else
      var t := Taken(s);
      t.(read := t.read + [Task(func, arg, Fd(fd))], readfd := t.readfd + {fd})
  }

  function AddWrite(s: State, func: int, arg: int, fd: int): State {
    if fd in s.writefd then s
    else
      var t := Taken(s);
      t.(write := t.write + [Task(func, arg, Fd(fd))], writefd := t.writefd + {fd})
  }

  function Deadline(t: Task): TimeVal {
    if t.payload.Sands? then t.payload.sands else TimeVal(0, 0)
  }

  /** The first timer that is not before `sands`: the place a new timer goes to. */
  function TimerPlace(timer: seq<Task>, sands: TimeVal): (n: nat)
    ensures n <= |timer|
    ensures forall i :: 0 <= i < n ==> TimevalCmp(sands, Deadline(timer[i])) > 0
    ensures n < |timer| ==> TimevalCmp(sands, Deadline(timer[n])) <= 0
  {
    if timer == [] || TimevalCmp(sands, Deadline(timer[0])) <= 0 then 0 else 1 + TimerPlace(timer[1..], sands)
  }

  /** `now` is the clock reading, `delay` a number of seconds. */
  function AddTimer(s: State, func: int, arg: int, now: TimeVal, delay: int): State {
    var t := Taken(s);
    var task := Task(func, arg, Sands(TimeVal(now.sec + delay, now.usec)));
    var n := TimerPlace(t.timer, Deadline(task));
    t.(timer := t.timer[..n] + [task] + t.timer[n..])
  }

  function AddEvent(s: State, func: int, arg: int, val: int): State {
    var t := Taken(s);
    t.(event := t.event + [Task(func, arg, Val(val))])
  }

  // ---------- Cancelling ----------

  function ListOf(s: State, kind: Kind): seq<Task> {
    match kind
    case Read => s.read
    case Write => s.write
    case Timer => s.timer
    case Event => s.event
    case Ready => s.ready
    case Unused => []
  }

  function WithList(s: State, kind: Kind, tasks: seq<Task>): State {
    match kind
    case Read => s.(read := tasks)
    case Write => s.(write := tasks)
    case Timer => s.(timer := tasks)
    case Event => s.(event := tasks)
    case Ready => s.(ready := tasks)
    case Unused => s
  }

  function FdOf(t: Task): int {
    if t.payload.Fd? then t.payload.fd else -1
  }

  /** thread_cancel of the `i`-th thread of a list. */
  function Cancel(s: State, kind: Kind, i: nat): State
    requires i < |ListOf(s, kind)|
  {
    var task := ListOf(s, kind)[i];
    var t := WithList(s, kind, Without(ListOf(s, kind), i));
    t.(unused := t.unused + 1,
       readfd := if kind == Read then t.readfd - {FdOf(task)} else t.readfd,
       writefd := if kind == Write then t.writefd - {FdOf(task)} else t.writefd)
  }

  /** The requests with (or without) the argument, in order. */
  function ByArg(tasks: seq<Task>, arg: int, keep: bool): (r: seq<Task>)
    ensures |r| <= |tasks|
  {
    if tasks == [] then []
    else
      var last := tasks[|tasks| - 1];
      ByArg(tasks[..|tasks| - 1], arg, keep) + if (last.arg == arg) == keep then [last] else []
  }

  /** thread_cancel_event */
  function CancelEvent(s: State, arg: int): State {
    s.(event := ByArg(s.event, arg, false), unused := s.unused + |ByArg(s.event, arg, true)|)
  }

  // ---------- Fetching ----------

  /** The answers of select(). The descriptor sets are what it leaves in its arguments. */
  datatype Wake = TimedOut | Interrupted | Broken | Selected(readable: set<int>, writable: set<int>)

  /** What the environment supplies for one turn of the loop: the clock reading before the timers
      are looked at, the one before the wait is computed, and the answer of select(). */
  datatype Turn = Turn(now: TimeVal, later: TimeVal, wake: Wake)

  /** `Waiting` is a loop that has used up its turns without returning. */
  datatype Fetched = Got(task: Task, from: Kind, state: State) | Null(state: State) | Waiting(state: State)

  function Expired(t: Task, now: TimeVal): bool {
    TimevalCmp(now, Deadline(t)) >= 0
  }

  /** The first expired timer; the number of timers when none is. */
  function FirstExpired(timer: seq<Task>, now: TimeVal): (n: nat)
    ensures n <= |timer|
    ensures forall i :: 0 <= i < n ==> !Expired(timer[i], now)
    ensures n < |timer| ==> Expired(timer[n], now)
  {
    if timer == [] || Expired(timer[0], now) then 0 else 1 + FirstExpired(timer[1..], now)
  }

  /** thread_run: the thread taken from a list joins the unused ones. */
  function Run(s: State, kind: Kind, i: nat): Fetched
    requires i < |ListOf(s, kind)|
  {
    var t := WithList(s, kind, Without(ListOf(s, kind), i));
    Got(ListOf(s, kind)[i], kind, t.(unused := t.unused + 1))
  }

  /** What is delivered without waiting: events before expired timers before ready threads. */
  function Poll(s: State, now: TimeVal): Option<Fetched> {
    if s.event != [] then Some(Run(s, Event, 0))
    else if FirstExpired(s.timer, now) < |s.timer| then Some(Run(s, Timer, FirstExpired(s.timer, now)))
    else if s.ready != [] then Some(Run(s, Ready, 0))
    else None
  }

  /** The wait for select(): none without timers. */
  function WaitFor(s: State, now: TimeVal): Option<TimeVal> {
    if s.timer == [] then None else Some(Wait(Deadline(s.timer[0]), now))
  }

  /** The requests whose descriptors were (or were not) selected, in order. */
  function ByFd(tasks: seq<Task>, fds: set<int>, keep: bool): (r: seq<Task>)
    ensures |r| <= |tasks|
  {
    if tasks == [] then []
    else
      var last := tasks[|tasks| - 1];
      ByFd(tasks[..|tasks| - 1], fds, keep) + if (FdOf(last) in fds) == keep then [last] else []
  }

  function Fds(tasks: seq<Task>): set<int> {
    set t | t in tasks :: FdOf(t)
  }

  /** thread_process_fd for the two lists. */
  function Process(s: State, readable: set<int>, writable: set<int>): State {
    var r, w := ByFd(s.read, readable, true), ByFd(s.write, writable, true);
    s.(read := ByFd(s.read, readable, false), readfd := s.readfd - Fds(r),
       write := ByFd(s.write, writable, false), writefd := s.writefd - Fds(w),
       ready := s.ready + r + w)
  }

  /** What follows an answer of select(): the head of the ready threads is taken, or the loop goes on. */
  function AfterSelect(s: State, readable: set<int>, writable: set<int>): Fetched {
    var p := Process(s, readable, writable);
    if p.ready != [] then Run(p, Ready, 0) else Waiting(p)
  }

  /** One turn of the loop; `Waiting` when it goes on. */
  function OneTurn(s: State, turn: Turn): Fetched {
    match Poll(s, turn.now)
    case Some(f) => f
    case None =>
      match turn.wake
      case TimedOut => Waiting(s)
      case Interrupted => Waiting(s)
      case Broken => Null(s)
      case Selected(readable, writable) => AfterSelect(s, readable, writable)
  }

  /** thread_fetch against an environment. */
  function Fetch(s: State, turns: seq<Turn>): Fetched
    decreases |turns|
  {
    if turns == [] then Waiting(s)
    else
      var f := OneTurn(s, turns[0]);
      if f.Waiting? then Fetch(f.state, turns[1..]) else f
  }

  /** The time-out of a turn, if it waits at all. */
  function WaitOf(s: State, turn: Turn): seq<Option<TimeVal>> {
    if Poll(s, turn.now).Some? then [] else [WaitFor(s, turn.later)]
  }

  /** The time-outs that thread_fetch gives to select(). */
  function Waits(s: State, turns: seq<Turn>): seq<Option<TimeVal>>
    decreases |turns|
  {
    if turns == [] then []
    else
      var f := OneTurn(s, turns[0]);
      WaitOf(s, turns[0]) + if f.Waiting? then Waits(f.state, turns[1..]) else []
  }

  lemma FetchTurn(s: State, turns: seq<Turn>, i: nat)
    requires i < |turns|
    ensures var f := OneTurn(s, turns[i]);
      && Fetch(s, turns[i..]) == (if f.Waiting? then Fetch(f.state, turns[i + 1..]) else f)
      && Waits(s, turns[i..]) == WaitOf(s, turns[i]) + if f.Waiting? then Waits(f.state, turns[i + 1..]) else []
  {
    hide OneTurn, WaitOf;
    assert turns[i..][1..] == turns[i + 1..];
  }

  lemma NoTurnsLeft(s: State)
    ensures Fetch(s, []) == Waiting(s) && Waits(s, []) == []
  {}

  // ---------- Runs ----------

  datatype Op =
    | OpRead(func: int, arg: int, fd: int)
    | OpWrite(func: int, arg: int, fd: int)
    | OpTimer(func: int, arg: int, now: TimeVal, delay: int)
    | OpEvent(func: int, arg: int, val: int)
    | OpCancel(kind: Kind, i: nat)
    | OpCancelEvent(arg: int)
    | OpFetch(turns: seq<Turn>)

  /** thread_cancel is given a pending thread, and clocks show normal times. */
  predicate Enabled(s: State, op: Op) {
    match op
    case OpCancel(kind, i) => i < |ListOf(s, kind)|
    case OpTimer(_, _, now, _) => Normal(now)
    case OpFetch(turns) => forall k :: 0 <= k < |turns| ==> Normal(turns[k].now) && Normal(turns[k].later)
    case _ => true
  }

  function Step(s: State, op: Op): State
    requires Enabled(s, op)
  {
    match op
    case OpRead(func, arg, fd) => AddRead(s, func, arg, fd)
    case OpWrite(func, arg, fd) => AddWrite(s, func, arg, fd)
    case OpTimer(func, arg, now, delay) => AddTimer(s, func, arg, now, delay)
    case OpEvent(func, arg, val) => AddEvent(s, func, arg, val)
    case OpCancel(kind, i) => Cancel(s, kind, i)
    case OpCancelEvent(arg) => CancelEvent(s, arg)
    case OpFetch(turns) => Fetch(s, turns).state
  }

  /** The requests an operation accepts. */
  function Accepted(s: State, op: Op): multiset<Task> {
    match op
    case OpRead(func, arg, fd) => if fd in s.readfd then multiset{} else multiset{Task(func, arg, Fd(fd))}
    case OpWrite(func, arg, fd) => if fd in s.writefd then multiset{} else multiset{Task(func, arg, Fd(fd))}
    case OpTimer(func, arg, now, delay) => multiset{Task(func, arg, Sands(TimeVal(now.sec + delay, now.usec)))}
    case OpEvent(func, arg, val) => multiset{Task(func, arg, Val(val))}
    case _ => multiset{}
  }

  /** The requests an operation cancels. */
  function Cancelled(s: State, op: Op): multiset<Task>
    requires Enabled(s, op)
  {
    match op
    case OpCancel(kind, i) => multiset{ListOf(s, kind)[i]}
    case OpCancelEvent(arg) => multiset(ByArg(s.event, arg, true))
    case _ => multiset{}
  }

  /** The request an operation delivers. */
  function Delivered(s: State, op: Op): multiset<Task> {
    match op
    case OpFetch(turns) =>
      var f := Fetch(s, turns);
      if f.Got? then multiset{f.task} else multiset{}
    case _ => multiset{}
  }

  /** The requests still on a list. */
  function Pending(s: State): multiset<Task> {
    multiset(s.read) + multiset(s.write) + multiset(s.timer) + multiset(s.event) + multiset(s.ready)
  }
}
