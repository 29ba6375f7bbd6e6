/** What the turns of thread_fetch come to: the answers of select() and the time-outs it is given. */
module Turns {
  import opened Options
  import opened Seqs
  import opened TimeVals
  import opened Scheduler
  import opened SchedulerRuns

  // ---------- Quiet turns ----------

  /** `a` is earlier than `b`. */
  predicate Before(a: TimeVal, b: TimeVal) {
    a.sec < b.sec || (a.sec == b.sec && a.usec < b.usec)
  }

  /** Nothing can be delivered without waiting. */
  predicate Idle(s: State, now: TimeVal) {
    s.event == [] && s.ready == [] && forall i :: 0 <= i < |s.timer| ==> Before(now, Deadline(s.timer[i]))
  }

  predicate SomeSelected(tasks: seq<Task>, fds: set<int>) {
    exists i :: 0 <= i < |tasks| && FdOf(tasks[i]) in fds
  }

  /** Nothing comes of the turn: select() times out, is interrupted, or reports no descriptor that
      a thread waits for. */
  predicate Quiet(s: State, turn: Turn) {
    && Idle(s, turn.now)
    && match turn.wake
       case TimedOut => true
       case Interrupted => true
       case Broken => false
       case Selected(r, w) => !SomeSelected(s.read, r) && !SomeSelected(s.write, w)
  }

  lemma IdleExactly(s: State, now: TimeVal)
    ensures Idle(s, now) <==> Poll(s, now).None?
  {
    hide Run, FirstExpired;
    var n := FirstExpired(s.timer, now);
    if n < |s.timer| {
      assert !Before(now, Deadline(s.timer[n]));
    } else {
      assert forall i :: 0 <= i < |s.timer| ==> !Expired(s.timer[i], now) && Before(now, Deadline(s.timer[i]));
    }
  }

  lemma {:induction false} NoneSelected(tasks: seq<Task>, fds: set<int>)
    ensures SomeSelected(tasks, fds) <==> ByFd(tasks, fds, true) != []
    ensures !SomeSelected(tasks, fds) ==> ByFd(tasks, fds, false) == tasks
    decreases |tasks|
  {
    if tasks != [] {
      var n := |tasks| - 1;
      NoneSelected(tasks[..n], fds);
      assert forall i :: 0 <= i < n ==> tasks[..n][i] == tasks[i];
      assert tasks == tasks[..n] + [tasks[n]];
    }
  }

  /** A turn goes on to the next exactly when it is quiet, and then nothing has changed. */
  lemma QuietExactly(s: State, turn: Turn)
    ensures OneTurn(s, turn).Waiting? <==> Quiet(s, turn)
    ensures Quiet(s, turn) ==> OneTurn(s, turn) == Waiting(s)
  {
    hide Poll, ByFd, Idle, SomeSelected;
    IdleExactly(s, turn.now);
    PollDelivers(s, turn.now);
    if turn.wake.Selected? {
      NoneSelected(s.read, turn.wake.readable);
      NoneSelected(s.write, turn.wake.writable);
      NoFds();
      if Poll(s, turn.now).None? {
        assert s.ready == [] by { IdleReady(s, turn.now); }
        var r, w := ByFd(s.read, turn.wake.readable, true), ByFd(s.write, turn.wake.writable, true);
        assert |Process(s, turn.wake.readable, turn.wake.writable).ready| == |r| + |w|;
      }
    }
  }

  lemma PollDelivers(s: State, now: TimeVal)
    ensures Poll(s, now).Some? ==> Poll(s, now).value.Got?
  {
    hide FirstExpired;
  }

  lemma IdleReady(s: State, now: TimeVal)
    requires Idle(s, now)
    ensures s.ready == []
  {}

  lemma NoFds()
    ensures Fds([]) == {}
  {}

  /** The turns before `i` are quiet. */
  predicate QuietUntil(s: State, turns: seq<Turn>, i: nat) {
    i <= |turns| && forall k :: 0 <= k < i ==> Quiet(s, turns[k])
  }

  lemma {:induction false} SkipQuiet(s: State, turns: seq<Turn>, i: nat)
    requires QuietUntil(s, turns, i)
    ensures Fetch(s, turns) == Fetch(s, turns[i..])
    decreases i
  {
    hide OneTurn, Quiet, Fetch;
    if i == 0 {
      assert turns[0..] == turns;
    } else {
      SkipQuiet(s, turns, i - 1);
      QuietExactly(s, turns[i - 1]);
      FetchTurn(s, turns, i - 1);
    }
  }

  /** Main result: the first turn that is not quiet decides the fetch. When something can be delivered
      it is; else an error of select() other than an interruption ends the fetch with NULL, and the
      descriptors it reports deliver a ready thread. While all turns are quiet the fetch waits. */
  lemma FetchExactly(s: State, turns: seq<Turn>, i: nat)
    requires QuietUntil(s, turns, i)
    ensures i == |turns| ==> Fetch(s, turns) == Waiting(s)
    ensures i < |turns| && !Quiet(s, turns[i]) ==>
      if !Idle(s, turns[i].now) then Fetch(s, turns).Got? && Some(Fetch(s, turns)) == Poll(s, turns[i].now)
      else if turns[i].wake.Broken? then Fetch(s, turns) == Null(s)
      else turns[i].wake.Selected? && Fetch(s, turns).Got? && Fetch(s, turns).from == Ready
  {
    hide Idle, Poll, Process, Fetch;
    SkipQuiet(s, turns, i);
    if i < |turns| {
      FetchTurn(s, turns, i);
      QuietExactly(s, turns[i]);
      IdleExactly(s, turns[i].now);
      PollDelivers(s, turns[i].now);
    } else {
      assert turns[i..] == [];
      NoTurnsLeft(s);
    }
  }

  /** Main result on NULL: it is returned exactly when select() fails, other than by an interruption, at
      a turn where nothing can be delivered, after quiet turns only. */
  lemma {:induction false} NullExactly(s: State, turns: seq<Turn>)
    ensures Fetch(s, turns).Null? <==>
      exists i :: 0 <= i < |turns| && turns[i].wake == Broken && Idle(s, turns[i].now) && QuietUntil(s, turns, i)
  {
    hide Idle, Quiet, Fetch;
    var n := FirstLoud(s, turns);
    FetchExactly(s, turns, n);
    if Fetch(s, turns).Null? { assert turns[n].wake == Broken && QuietUntil(s, turns, n); }
    forall i | 0 <= i < |turns| && turns[i].wake == Broken && QuietUntil(s, turns, i) ensures i == n && !Quiet(s, turns[i]) {
      LoudIsFirst(s, turns, i, n);
    }
  }

  lemma LoudIsFirst(s: State, turns: seq<Turn>, i: nat, n: nat)
    requires i < |turns| && turns[i].wake == Broken && QuietUntil(s, turns, i)
    requires QuietUntil(s, turns, n) && (n < |turns| ==> !Quiet(s, turns[n]))
    ensures i == n && !Quiet(s, turns[i])
  {
    assert !Quiet(s, turns[i]);
    hide Quiet;
  }

  lemma QuietIsIdle(s: State, turn: Turn)
    requires Quiet(s, turn)
    ensures Idle(s, turn.now)
  {}

  lemma {:induction false} FirstLoud(s: State, turns: seq<Turn>) returns (n: nat)
    ensures QuietUntil(s, turns, n) && (n < |turns| ==> !Quiet(s, turns[n]))
  {
    hide Quiet;
    n := 0;
    if turns != [] && Quiet(s, turns[0]) {
      n := FirstLoud(s, turns[1..]);
      n := n + 1;
      assert forall k :: 0 < k < n ==> turns[k] == turns[1..][k - 1];
    }
  }

  /** An interrupted wait changes nothing. */
  lemma InterruptedGoesOn(s: State, turns: seq<Turn>)
    requires turns != [] && turns[0].wake == Interrupted && Idle(s, turns[0].now)
    ensures Fetch(s, turns) == Fetch(s, turns[1..])
  {
    hide Fetch, Idle;
    assert QuietUntil(s, turns, 1);
    SkipQuiet(s, turns, 1);
  }

  // ---------- What select() reports ----------

  function TasksAt(tasks: seq<Task>, p: seq<nat>): (r: seq<Task>)
    requires forall i :: 0 <= i < |p| ==> p[i] < |tasks|
    ensures |r| == |p| && forall i :: 0 <= i < |r| ==> r[i] == tasks[p[i]]
  {
    seq(|p|, i requires 0 <= i < |p| => tasks[p[i]])
  }

  /** `p` lists, in order, the positions of the requests whose descriptors are (or are not) among `fds`. */
  ghost predicate Picks(tasks: seq<Task>, fds: set<int>, keep: bool, p: seq<nat>) {
    && Ascending(p)
    && (forall k: nat :: k in p <==> k < |tasks| && (FdOf(tasks[k]) in fds) == keep)
  }

  lemma PicksBelow(tasks: seq<Task>, fds: set<int>, keep: bool, p: seq<nat>)
    requires Picks(tasks, fds, keep, p)
    ensures forall i :: 0 <= i < |p| ==> p[i] < |tasks|
  {
    assert forall i :: 0 <= i < |p| ==> p[i] in p;
  }

  lemma {:induction false} ByFdPicks(tasks: seq<Task>, fds: set<int>, keep: bool) returns (p: seq<nat>)
    ensures Picks(tasks, fds, keep, p)
    ensures (forall i :: 0 <= i < |p| ==> p[i] < |tasks|) && ByFd(tasks, fds, keep) == TasksAt(tasks, p)
    decreases |tasks|
  {
    hide Picks, TasksAt;
    if tasks == [] {
      p := [];
      NothingPicked(fds, keep);
    } else {
      var n := |tasks| - 1;
      var front := ByFdPicks(tasks[..n], fds, keep);
      p := if (FdOf(tasks[n]) in fds) == keep then front + [n] else front;
      TasksAtMore(tasks, front);
      PicksMore(tasks, fds, keep, front);
    }
  }

  lemma NothingPicked(fds: set<int>, keep: bool)
    ensures Picks([], fds, keep, []) && TasksAt([], []) == []
  {}

  lemma TasksAtMore(tasks: seq<Task>, front: seq<nat>)
    requires tasks != [] && forall i :: 0 <= i < |front| ==> front[i] < |tasks| - 1
    ensures TasksAt(tasks[..|tasks| - 1], front) == TasksAt(tasks, front)
    ensures TasksAt(tasks, front + [|tasks| - 1]) == TasksAt(tasks, front) + [tasks[|tasks| - 1]]
  {
    hide TasksAt;
  }

  lemma PicksMore(tasks: seq<Task>, fds: set<int>, keep: bool, front: seq<nat>)
    requires tasks != [] && Picks(tasks[..|tasks| - 1], fds, keep, front)
    ensures var n := |tasks| - 1; Picks(tasks, fds, keep, if (FdOf(tasks[n]) in fds) == keep then front + [n] else front)
  {
    var n := |tasks| - 1;
    assert forall k :: 0 <= k < n ==> tasks[..n][k] == tasks[k];
    PicksBelow(tasks[..n], fds, keep, front);
    forall k: nat ensures k in front + [n] <==> k in front || k == n {}
  }

  /** Main result on descriptors: the threads whose descriptors are reported become ready in the order
      in which they waited, those that read before those that write, and the first of them is
      delivered; the others wait on in their order. */
  lemma SelectedExactly(s: State, turn: Turn, rs: seq<nat>, ws: seq<nat>, rest: seq<nat>, others: seq<nat>)
    requires turn.wake.Selected? && Idle(s, turn.now) && !Quiet(s, turn)
    requires Picks(s.read, turn.wake.readable, true, rs) && Picks(s.read, turn.wake.readable, false, rest)
    requires Picks(s.write, turn.wake.writable, true, ws) && Picks(s.write, turn.wake.writable, false, others)
    ensures forall i :: 0 <= i < |rs| ==> rs[i] < |s.read|
    ensures forall i :: 0 <= i < |ws| ==> ws[i] < |s.write|
    ensures forall i :: 0 <= i < |rest| ==> rest[i] < |s.read|
    ensures forall i :: 0 <= i < |others| ==> others[i] < |s.write|
    ensures var f := OneTurn(s, turn);
      var moved := TasksAt(s.read, rs) + TasksAt(s.write, ws);
      && f.Got? && moved != [] && f.task == moved[0] && f.state.ready == moved[1..]
      && f.state.read == TasksAt(s.read, rest) && f.state.write == TasksAt(s.write, others)
  {
    hide Poll, Picks, Idle, Quiet, Process, TasksAt;
    PicksBelow(s.read, turn.wake.readable, true, rs);
    PicksBelow(s.read, turn.wake.readable, false, rest);
    PicksBelow(s.write, turn.wake.writable, true, ws);
    PicksBelow(s.write, turn.wake.writable, false, others);
    ProcessedAre(s, turn, rs, ws, rest, others);
    QuietExactly(s, turn);
    IdleExactly(s, turn.now);
    IdleReady(s, turn.now);
    var p := Process(s, turn.wake.readable, turn.wake.writable);
    var moved := TasksAt(s.read, rs) + TasksAt(s.write, ws);
    assert s.ready + moved == moved;
    assert p.ready != [] ==> Without(p.ready, 0) == p.ready[1..];
  }

  lemma ProcessedAre(s: State, turn: Turn, rs: seq<nat>, ws: seq<nat>, rest: seq<nat>, others: seq<nat>)
    requires turn.wake.Selected?
    requires Picks(s.read, turn.wake.readable, true, rs) && Picks(s.read, turn.wake.readable, false, rest)
    requires Picks(s.write, turn.wake.writable, true, ws) && Picks(s.write, turn.wake.writable, false, others)
    requires forall i :: 0 <= i < |rs| ==> rs[i] < |s.read|
    requires forall i :: 0 <= i < |ws| ==> ws[i] < |s.write|
    requires forall i :: 0 <= i < |rest| ==> rest[i] < |s.read|
    requires forall i :: 0 <= i < |others| ==> others[i] < |s.write|
    ensures var p := Process(s, turn.wake.readable, turn.wake.writable);
      && p.ready == s.ready + (TasksAt(s.read, rs) + TasksAt(s.write, ws))
      && p.read == TasksAt(s.read, rest) && p.write == TasksAt(s.write, others)
  {
    hide ByFd, Picks, TasksAt;
    PickedIs(s.read, turn.wake.readable, true, rs);
    PickedIs(s.read, turn.wake.readable, false, rest);
    PickedIs(s.write, turn.wake.writable, true, ws);
    PickedIs(s.write, turn.wake.writable, false, others);
  }

  lemma PickedIs(tasks: seq<Task>, fds: set<int>, keep: bool, p: seq<nat>)
    requires Picks(tasks, fds, keep, p)
    ensures forall i :: 0 <= i < |p| ==> p[i] < |tasks|
    ensures ByFd(tasks, fds, keep) == TasksAt(tasks, p)
  {
    hide ByFd, Picks;
    var q := ByFdPicks(tasks, fds, keep);
    PicksBelow(tasks, fds, keep, p);
    SamePicks(tasks, fds, keep, p, q);
  }

  lemma SamePicks(tasks: seq<Task>, fds: set<int>, keep: bool, p: seq<nat>, q: seq<nat>)
    requires Picks(tasks, fds, keep, p) && Picks(tasks, fds, keep, q)
    ensures p == q
  {
    forall k: nat ensures k in p <==> k in q {}
    OneList(p, q);
  }

  // ---------- The time-outs ----------

  /** How far the deadline of a timer lies ahead, in microseconds. */
  function Ahead(t: Task, now: TimeVal): int {
    (Deadline(t).sec - now.sec) * 1000000 + (Deadline(t).usec - now.usec)
  }

  function Length(t: TimeVal): int {
    t.sec * 1000000 + t.usec
  }

  /** Main result on the time-out: there is none exactly when no timer is pending. It is 10 microseconds
      once some deadline has passed; else it passes no deadline, and ends at one of them or lasts
      at least 10^12 microseconds. */
  lemma WaitExactly(s: State, now: TimeVal)
    requires Inv(s) && Normal(now)
    ensures WaitFor(s, now).None? <==> s.timer == []
    ensures WaitFor(s, now).Some? ==>
      var w := Length(WaitFor(s, now).value);
      if exists t :: t in s.timer && Ahead(t, now) < 0 then w == 10
      else
        && (forall t :: t in s.timer ==> 0 <= w <= Ahead(t, now))
        && ((exists t :: t in s.timer && w == Ahead(t, now)) || w >= 1000000000000)
  {
    if s.timer != [] {
      var head := s.timer[0];
      assert head in s.timer;
      WaitBounds(Deadline(head), now);
      forall t | t in s.timer ensures Ahead(t, now) >= Ahead(head, now) {
        var i :| 0 <= i < |s.timer| && s.timer[i] == t;
        assert i == 0 || Micros(Deadline(s.timer[0])) <= Micros(Deadline(s.timer[i]));
      }
    }
  }

  /** The time-outs of a fetch: a turn has one exactly when nothing can be delivered there, after quiet
      turns only, and it is that of the clock reading before the wait. */
  lemma {:induction false} WaitsAre(s: State, turns: seq<Turn>, i: nat)
    ensures i < |Waits(s, turns)| <==> i < |turns| && Idle(s, turns[i].now) && QuietUntil(s, turns, i)
    ensures i < |Waits(s, turns)| ==> Waits(s, turns)[i] == WaitFor(s, turns[i].later)
    decreases |turns|
  {
    hide OneTurn, Idle, Quiet, WaitFor;
    if turns != [] {
      QuietExactly(s, turns[0]);
      IdleExactly(s, turns[0].now);
      if Quiet(s, turns[0]) { QuietIsIdle(s, turns[0]); }
      if i > 0 {
        WaitsAre(s, turns[1..], i - 1);
        if i < |turns| { assert turns[1..][i - 1] == turns[i]; }
        assert forall k :: 0 < k < |turns| ==> turns[k] == turns[1..][k - 1];
        assert QuietUntil(s, turns, i) <==> Quiet(s, turns[0]) && QuietUntil(s, turns[1..], i - 1);
      }
    }
  }

  /** A request waits behind those made before it. */
  lemma AddedLast(s: State, op: Op)
    requires Enabled(s, op) && (op.OpRead? || op.OpWrite? || op.OpEvent? || op.OpTimer?)
    ensures s.read <= Step(s, op).read && s.write <= Step(s, op).write && s.event <= Step(s, op).event
    ensures s.ready == Step(s, op).ready
  {
    hide TimerPlace;
  }

  // ---------- Bounded waiting ----------

  /** Only time-outs: the clock does not run backwards, and at every turn that waits select() sleeps at
      least as long as the time-out it was given. */
  predicate OnlyTimeouts(s: State, turns: seq<Turn>) {
    && (forall k :: 0 <= k < |turns| ==>
          turns[k].wake == TimedOut && Normal(turns[k].now) && Normal(turns[k].later)
          && !Before(turns[k].later, turns[k].now))
    && (forall k, j :: 0 <= k < |Waits(s, turns)| && k < j < |turns| && j == k + 1 ==>
          Slept(turns[k], Waits(s, turns)[k], turns[j]))
  }

  predicate Slept(turn: Turn, wait: Option<TimeVal>, next: Turn) {
    wait.Some? && Length(next.now) >= Length(turn.later) + Length(wait.value)
  }

  /** How many time-outs a timer can take that lies `left` microseconds ahead: its deadline, cut into
      waits of 10^6 seconds. */
  function MostTimeouts(left: int): nat {
    if left <= 0 then 0 else left / 1000000000000 + 1
  }

  lemma OnlyTimeoutsRest(s: State, turns: seq<Turn>)
    requires turns != [] && OnlyTimeouts(s, turns) && Quiet(s, turns[0])
    ensures OnlyTimeouts(s, turns[1..])
    ensures Waits(s, turns) == [WaitFor(s, turns[0].later)] + Waits(s, turns[1..])
    ensures Fetch(s, turns) == Fetch(s, turns[1..])
  {
    hide Quiet, Fetch, Waits;
    var rest := turns[1..];
    SkipQuiet(s, turns, 1);
    OneWait(s, turns);
    var all, others := Waits(s, turns), Waits(s, rest);
    forall k | 0 <= k < |others| ensures others[k] == all[k + 1] {}
    forall k | 0 <= k < |rest| ensures rest[k] == turns[k + 1] {}
    hide Slept;
    forall k, j | 0 <= k < |others| && k < j < |rest| && j == k + 1
      ensures Slept(rest[k], others[k], rest[j])
    {
      assert Slept(turns[k + 1], all[k + 1], turns[j + 1]);
    }
  }

  lemma OneWait(s: State, turns: seq<Turn>)
    requires turns != [] && Quiet(s, turns[0])
    ensures Waits(s, turns) == [WaitFor(s, turns[0].later)] + Waits(s, turns[1..])
  {
    hide Quiet, OneTurn, WaitFor, Poll;
    QuietExactly(s, turns[0]);
    QuietIsIdle(s, turns[0]);
    IdleExactly(s, turns[0].now);
  }

  lemma OneSleep(left: int, slept: int)
    requires left > 0 && (slept >= left || slept >= 1000000000000)
    ensures MostTimeouts(left - slept) < MostTimeouts(left)
  {}

  /** Main result: with nothing else going on, the first timer is delivered after at most
      floor(left / 10^6 seconds) + 1 time-outs, when the clock advances by the time-outs given. */
  lemma {:induction false} BoundedWaiting(s: State, turns: seq<Turn>)
    requires Inv(s) && s.event == [] && s.ready == [] && s.timer != []
    requires OnlyTimeouts(s, turns)
    requires turns != [] && |turns| > MostTimeouts(Ahead(s.timer[0], turns[0].now))
    ensures Fetch(s, turns) == Run(s, Timer, 0)
    decreases |turns|
  {
    hide Inv, Run, Fetch, Waits, MostTimeouts;
    var left := Ahead(s.timer[0], turns[0].now);
    FirstOrNone(s, turns);
    if left > 0 {
      var later := turns[0].later;
      assert Quiet(s, turns[0]);
      OnlyTimeoutsRest(s, turns);
      WaitsToFirst(s, later);
      assert |turns| >= 2 by { AtLeastOne(left); }
      var w := Length(Waits(s, turns)[0].value);
      assert Slept(turns[0], Waits(s, turns)[0], turns[1]);
      Elapsed(s.timer[0], turns[0].now, later, turns[1].now);
      OneSleep(left, left - Ahead(s.timer[0], turns[1].now));
      BoundedWaiting(s, turns[1..]);
    }
  }

  lemma AtLeastOne(left: int)
    requires left > 0
    ensures MostTimeouts(left) >= 1
  {}

  lemma Elapsed(t: Task, now: TimeVal, later: TimeVal, next: TimeVal)
    requires Normal(now) && Normal(later) && !Before(later, now)
    ensures Ahead(t, later) <= Ahead(t, now)
    ensures Ahead(t, now) - Ahead(t, next) == Length(next) - Length(now)
    ensures Ahead(t, later) == Ahead(t, now) - (Length(later) - Length(now))
  {}

  /** The first timer is delivered once it is due, and nothing is before. */
  lemma FirstOrNone(s: State, turns: seq<Turn>)
    requires Inv(s) && s.event == [] && s.ready == [] && s.timer != [] && turns != [] && Normal(turns[0].now)
    ensures Ahead(s.timer[0], turns[0].now) <= 0 ==> Fetch(s, turns) == Run(s, Timer, 0)
    ensures Ahead(s.timer[0], turns[0].now) > 0 ==> Idle(s, turns[0].now)
  {
    hide Run, FirstExpired, Inv, Fetch;
    PollOrder(s, turns[0].now);
    FetchUnfolded(s, turns);
    IdleExactly(s, turns[0].now);
    assert s.timer[0].payload.Sands? by { HeadIsTimer(s); }
    assert Ahead(s.timer[0], turns[0].now) == Micros(s.timer[0].payload.sands) - Micros(turns[0].now);
  }

  lemma HeadIsTimer(s: State)
    requires Inv(s) && s.timer != []
    ensures s.timer[0].payload.Sands?
  {
    assert s.timer[0] in s.timer;
  }

  /** The time-out reaches the first deadline or lasts as long as any can. */
  lemma WaitsToFirst(s: State, later: TimeVal)
    requires s.timer != []
    ensures WaitFor(s, later).Some?
    ensures var w := Length(WaitFor(s, later).value);
      (Ahead(s.timer[0], later) >= 0 ==> w >= Ahead(s.timer[0], later) || w >= 1000000000000) && w >= 0
  {
    WaitBounds(Deadline(s.timer[0]), later);
  }
}
