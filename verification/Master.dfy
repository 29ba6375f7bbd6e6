/** The thread master of thread.c on the heap. */
module Master {
  import opened Options
  import opened TimeVals
  import opened Seqs
  import opened Scheduler
  import opened SchedulerRuns
  import opened Threads

  /** The values of the THREAD_ type constants. */
  function Code(kind: Kind): nat {
    match kind
    case Read => 0
    case Write => 1
    case Timer => 2
    case Event => 3
    case Ready => 4
    case Unused => 5
  }

  /** A well-formed list whose threads have the type with the given code. */
  ghost predicate Holds(list: ThreadList, code: nat)
    reads list, list.nodes
  {
    && list.Valid() && |list.tasks| == |list.nodes|
    && (forall i :: 0 <= i < |list.nodes| ==> Code(list.nodes[i].kind) == code)
    && (forall i :: 0 <= i < |list.nodes| ==> list.nodes[i].Request() == list.tasks[i])
  }

  lemma Keeps(s: State, op: Op)
    requires Inv(s) && Enabled(s, op)
    ensures Inv(Step(s, op))
  {
    hide Inv, Enabled, Step;
    StepKeepsInv(s, op);
  }

  lemma InvParts(s: State)
    requires Inv(s)
    ensures Agree(s.read, s.readfd) && Agree(s.write, s.writefd) && AllTimers(s.timer)
  {}

  /** What the asserts about descriptor sets need. */
  lemma AgreeHas(tasks: seq<Task>, fds: set<int>, at: nat)
    requires Agree(tasks, fds) && at < |tasks|
    ensures tasks[at].payload.Fd? && FdOf(tasks[at]) in fds
  {
    assert tasks[at] in tasks;
  }

  lemma TimerLinkedIn(s: State, func: int, arg: int, now: TimeVal, delay: int)
    ensures var sands := TimeVal(now.sec + delay, now.usec);
      && TimerPlace(s.timer, sands) <= |Taken(s).timer|
      && AddTimer(s, func, arg, now, delay)
         == Taken(s).(timer := With(Taken(s).timer, TimerPlace(s.timer, sands), Task(func, arg, Sands(sands))))
  {
    hide TimerPlace;
  }

  lemma EmptyHolds(list: ThreadList, code: nat)
    requires list.Valid() && list.nodes == [] && list.tasks == []
    ensures Holds(list, code)
  {}

  /** The six zeroed lists of a new master. */
  method EmptyLists() returns (lists: seq<ThreadList>)
    ensures |lists| == 6 && fresh(lists)
    ensures forall j, k :: 0 <= j < k < 6 ==> lists[j] != lists[k]
    ensures forall k :: 0 <= k < 6 ==> Holds(lists[k], k) && lists[k].nodes == [] && lists[k].tasks == []
  {
    hide ThreadList.Valid, Holds;
    var read := new ThreadList();
    var write := new ThreadList();
    var timer := new ThreadList();
    var event := new ThreadList();
    var ready := new ThreadList();
    var unuse := new ThreadList();
    lists := [read, write, timer, event, ready, unuse];
    forall k | 0 <= k < 6 ensures Holds(lists[k], k) && lists[k].tasks == [] {
      EmptyHolds(lists[k], k);
    }
  }

  /** thread_list_add_before among threads of one type. */
  method AddAmong(list: ThreadList, code: nat, point: Thread, thread: Thread, ghost at: nat)
    requires Holds(list, code) && Code(thread.kind) == code && thread !in list.nodes
    requires at < |list.nodes| && list.nodes[at] == point
    modifies list, list.nodes`next, list.nodes`prev, thread`next, thread`prev
    ensures Holds(list, code) && list.nodes == With(old(list.nodes), at, thread)
    ensures list.tasks == With(old(list.tasks), at, thread.Request())
  {
    hide ThreadList.Valid;
    list.AddBefore(point, thread, at);
  }

  /** thread_list_delete among threads of one type. */
  method DeleteAmong(list: ThreadList, code: nat, thread: Thread, ghost at: nat)
    requires Holds(list, code) && at < |list.nodes| && list.nodes[at] == thread
    modifies list, list.nodes`next, list.nodes`prev
    ensures Holds(list, code) && list.nodes == Without(old(list.nodes), at)
    ensures list.tasks == Without(old(list.tasks), at) && old(list.tasks)[at] == thread.Request()
    ensures thread !in list.nodes && thread.next == null && thread.prev == null
  {
    hide ThreadList.Valid;
    list.Delete(thread, at);
  }

  class ThreadMaster {
    /** The six lists, in the order of the type constants. */
    const lists: seq<ThreadList>
    var readfd: set<int>
    var writefd: set<int>
    var alloc: int
    /** Every thread allocated so far. */
    ghost var all: set<Thread>

    ghost predicate Within(k: nat)
      requires |lists| == 6 && k < 6
      reads this`all, lists
    {
      forall i :: 0 <= i < |lists[k].nodes| ==> lists[k].nodes[i] in all
    }

    /** The six lists are well-formed and, their threads having different types, disjoint. */
    ghost predicate Linked()
      reads this`all, lists, all
    {
      && |lists| == 6
      && (forall j, k :: 0 <= j < k < 6 ==> lists[j] != lists[k])
      && (forall k :: 0 <= k < 6 ==> Within(k) && Holds(lists[k], k))
    }

    /** The abstract state. */
    ghost function Abs(): State
      requires |lists| == 6
      reads this, lists
    {
      State(lists[0].tasks, lists[1].tasks, lists[2].tasks, lists[3].tasks, lists[4].tasks, |lists[5].tasks|,
            readfd, writefd, alloc)
    }

    ghost predicate Valid()
      reads this, lists, all
    {
      Linked() && Inv(Abs())
    }

    /** thread_master_create */
    constructor ()
      ensures Valid() && fresh(lists) && all == {} && Abs() == EMPTY
    {
      hide ThreadList.Valid, Holds;
      var empty := EmptyLists();
      lists := empty;
      readfd, writefd, alloc, all := {}, {}, 0, {};
      new;
      EmptyInv();
      hide Inv;
    }

    /** The threads of one list are on no other. */
    lemma Apart(k: nat)
      requires Linked() && k < 6
      ensures forall j, a, b :: 0 <= j < 6 && j != k && 0 <= a < |lists[j].nodes| && 0 <= b < |lists[k].nodes| ==>
        lists[j].nodes[a] != lists[k].nodes[b]
    {
      hide ThreadList.Valid, Within;
    }

    // ---------- Moving threads ----------

    /** The thread is on no list. */
    ghost predicate Detached(thread: Thread)
      requires Linked()
      reads this`all, lists, all
    {
      thread in all && forall k :: 0 <= k < 6 ==> thread !in lists[k].nodes
    }

    /** thread_list_add on one of the lists. */
    method Append(k: nat, thread: Thread)
      requires Linked() && k < 6 && Detached(thread) && Code(thread.kind) == k
      modifies lists[k], lists[k].nodes`next, thread`next, thread`prev
      ensures Linked() && lists[k].nodes == old(lists[k].nodes) + [thread]
      ensures lists[k].tasks == old(lists[k].tasks) + [thread.Request()]
    {
      hide ThreadList.Valid;
      lists[k].Add(thread);
    }

    /** thread_list_add_before on one of the lists. */
    method Insert(k: nat, point: Thread, thread: Thread, ghost at: nat)
      requires Linked() && k < 6 && Detached(thread) && Code(thread.kind) == k
      requires at < |lists[k].nodes| && lists[k].nodes[at] == point
      modifies lists[k], lists[k].nodes`next, lists[k].nodes`prev, thread`next, thread`prev
      ensures Linked() && lists[k].nodes == With(old(lists[k].nodes), at, thread)
      ensures lists[k].tasks == With(old(lists[k].tasks), at, thread.Request())
    {
      Apart(k);
      hide Holds;
      AddAmong(lists[k], k, point, thread, at);
    }

    /** thread_list_delete on one of the lists. */
    method Unlink(k: nat, thread: Thread, ghost at: nat)
      requires Linked() && k < 6 && at < |lists[k].nodes| && lists[k].nodes[at] == thread
      modifies lists[k], lists[k].nodes`next, lists[k].nodes`prev
      ensures Linked() && lists[k].nodes == Without(old(lists[k].nodes), at)
      ensures lists[k].tasks == Without(old(lists[k].tasks), at) && old(lists[k].tasks)[at] == thread.Request()
      ensures Detached(thread) && thread.next == null && thread.prev == null
    {
      Apart(k);
      hide Holds;
      DeleteAmong(lists[k], k, thread, at);
    }

    /** The assignments of thread_get to a thread that is on no list. */
    method Init(thread: Thread, kind: Kind, func: int, arg: int)
      requires Linked() && Detached(thread)
      modifies thread`kind, thread`func, thread`arg
      ensures Linked() && Detached(thread)
      ensures thread.kind == kind && thread.func == func && thread.arg == arg
    {
      hide ThreadList.Valid;
      thread.Init(kind, func, arg);
    }

    /** Changing the type of a thread that is on no list. */
    method Retype(thread: Thread, kind: Kind)
      requires Linked() && Detached(thread)
      modifies thread`kind
      ensures Linked() && Detached(thread) && thread.kind == kind
    {
      hide ThreadList.Valid;
      thread.kind := kind;
    }

    /** Changing the payload of a thread that is on no list. */
    method Load(thread: Thread, u: Payload)
      requires Linked() && Detached(thread)
      modifies thread`u
      ensures Linked() && Detached(thread) && thread.u == u
    {
      hide ThreadList.Valid;
      thread.u := u;
    }

    /** thread_add_unuse */
    method AddUnuse(thread: Thread)
      requires Linked() && Detached(thread) && thread.next == null && thread.prev == null && thread.kind == Unused
      modifies lists[5], lists[5].nodes`next, thread`next, thread`prev
      ensures Linked() && lists[5].nodes == old(lists[5].nodes) + [thread]
      ensures |lists[5].tasks| == old(|lists[5].tasks|) + 1
    {
      Append(5, thread);
    }

    /** thread_trim_head of a list that is not empty. */
    method TrimHead(k: nat) returns (thread: Thread)
      requires Linked() && k < 6 && lists[k].nodes != []
      modifies lists[k], lists[k].nodes`next, lists[k].nodes`prev
      ensures Linked() && Detached(thread) && thread == old(lists[k].nodes)[0]
      ensures thread.next == null && thread.prev == null
      ensures lists[k].tasks == Without(old(lists[k].tasks), 0) && old(lists[k].tasks)[0] == thread.Request()
    {
      lists[k].HeadIs();
      thread := lists[k].head;
      hide ThreadList.Valid, Holds;
      Unlink(k, thread, 0);
    }

    /** The allocation of a new thread. */
    method Allocate() returns (thread: Thread)
      requires Linked()
      modifies this`alloc, this`all
      ensures Linked() && Detached(thread) && fresh(thread)
      ensures alloc == old(alloc) + 1 && all == old(all) + {thread}
    {
      hide ThreadList.Valid;
      thread := new Thread();
      alloc := alloc + 1;
      all := all + {thread};
    }

    method IsEmpty(k: nat) returns (empty: bool)
      requires Linked() && k < 6
      ensures empty <==> lists[k].nodes == []
      ensures empty <==> lists[k].tasks == []
    {
      hide ThreadList.Valid;
      empty := lists[k].Empty();
    }

    /** thread_get: the thread is on no list yet, but already has its type. */
    method Get(kind: Kind, func: int, arg: int) returns (thread: Thread)
      requires Linked() && kind != Unused
      modifies this`alloc, this`all, lists[5], all
      ensures Linked() && Detached(thread) && Abs() == Taken(old(Abs()))
      ensures thread.kind == kind && thread.func == func && thread.arg == arg
      ensures all == old(all) || (all == old(all) + {thread} && fresh(thread))
    {
      hide ThreadList.Valid, Holds, Linked, Within;
      LinkedSix();
      var empty := IsEmpty(5);
      if empty {
        thread := Allocate();
      } else {
        thread := TrimHead(5);
      }
      Init(thread, kind, func, arg);
    }

    // ---------- Adding ----------

    /** What was allocated stays so, and what else is tracked is new. */
    twostate predicate Grown()
      reads this
    {
      old(all) <= all && forall t :: t in all && t !in old(all) ==> fresh(t)
    }

    /** No other list of pending threads changes. */
    twostate predicate OthersKept(k: nat)
      reads lists
    {
      forall j :: 0 <= j < |lists| && j != k && j != 5 ==> lists[j].nodes == old(lists[j].nodes)
    }

    /** The common part of the thread_add functions that link at the tail. */
    method Enlist(kind: Kind, func: int, arg: int, u: Payload) returns (thread: Thread)
      requires Linked() && kind != Unused
      modifies this`alloc, this`all, lists[Code(kind)], lists[5], all
      ensures Linked() && Grown() && thread in all && thread.kind == kind && thread.Request() == Task(func, arg, u)
      ensures lists[Code(kind)].nodes == old(lists[Code(kind)].nodes) + [thread]
      ensures Abs() == var t := Taken(old(Abs())); WithList(t, kind, ListOf(t, kind) + [Task(func, arg, u)])
    {
      hide ThreadList.Valid, Holds, Linked, Within;
      var k := Code(kind);
      LinkedSix();
      ghost var t := Taken(Abs());
      thread := Get(kind, func, arg);
      LinkedSix();
      Load(thread, u);
      Append(k, thread);
      assert lists[k].tasks == ListOf(t, kind) + [Task(func, arg, u)];
      assert forall j :: 0 <= j < 6 && j != k ==> lists[j].tasks == old(lists[j].tasks) || j == 5;
    }

    lemma LinkedSix()
      requires Linked()
      ensures |lists| == 6 && forall j, k :: 0 <= j < k < 6 ==> lists[j] != lists[k]
      ensures forall k, i :: 0 <= k < 6 && 0 <= i < |lists[k].nodes| ==> lists[k].nodes[i] in all
    {
      assert forall k :: 0 <= k < 6 ==> Within(k);
    }

    /** thread_add_read */
    method AddRead(func: int, arg: int, fd: int) returns (thread: Thread?)
      requires Valid()
      modifies this, lists, all
      ensures Valid() && Grown() && Abs() == Scheduler.AddRead(old(Abs()), func, arg, fd)
      ensures thread == null <==> fd in old(readfd)
      ensures thread != null ==> thread in all && thread.kind == Read && lists[0].nodes == old(lists[0].nodes) + [thread]
      ensures OthersKept(0) && (thread == null ==> lists[0].nodes == old(lists[0].nodes))
      ensures thread != null ==> thread.Request() == Task(func, arg, Fd(fd))
    {
      hide ThreadList.Valid, Holds, Linked, Within, Inv;
      LinkedSix();
      Keeps(Abs(), OpRead(func, arg, fd));
      if fd in readfd {
        return null;
      }
      readfd := readfd + {fd};
      thread := Enlist(Read, func, arg, Fd(fd));
    }

    /** thread_add_write */
    method AddWrite(func: int, arg: int, fd: int) returns (thread: Thread?)
      requires Valid()
      modifies this, lists, all
      ensures Valid() && Grown() && Abs() == Scheduler.AddWrite(old(Abs()), func, arg, fd)
      ensures thread == null <==> fd in old(writefd)
      ensures thread != null ==> thread in all && thread.kind == Write && lists[1].nodes == old(lists[1].nodes) + [thread]
      ensures OthersKept(1) && (thread == null ==> lists[1].nodes == old(lists[1].nodes))
      ensures thread != null ==> thread.Request() == Task(func, arg, Fd(fd))
    {
      hide ThreadList.Valid, Holds, Linked, Within, Inv;
      LinkedSix();
      Keeps(Abs(), OpWrite(func, arg, fd));
      if fd in writefd {
        return null;
      }
      writefd := writefd + {fd};
      thread := Enlist(Write, func, arg, Fd(fd));
    }

    /** thread_add_event */
    method AddEvent(func: int, arg: int, val: int) returns (thread: Thread)
      requires Valid()
      modifies this, lists, all
      ensures Valid() && Grown() && Abs() == Scheduler.AddEvent(old(Abs()), func, arg, val)
      ensures thread in all && thread.kind == Event && lists[3].nodes == old(lists[3].nodes) + [thread] && OthersKept(3)
      ensures thread.Request() == Task(func, arg, Val(val))
    {
      hide ThreadList.Valid, Holds, Linked, Within, Inv;
      LinkedSix();
      Keeps(Abs(), OpEvent(func, arg, val));
      thread := Enlist(Event, func, arg, Val(val));
    }

    /** The scan of thread_add_timer: the first timer that is not before `sands`. */
    method FindPlace(sands: TimeVal) returns (tt: Thread?, ghost at: nat)
      requires Linked() && AllTimers(lists[2].tasks)
      ensures at == TimerPlace(lists[2].tasks, sands)
      ensures var n := TimerPlace(lists[2].tasks, sands);
        tt == if n < |lists[2].nodes| then lists[2].nodes[n] else null
    {
      hide ThreadList.Valid, Linked, Within, TimerPlace;
      LinkedHolds(2);
      var list := lists[2];
      list.HeadIs();
      tt, at := list.head, 0;
      while tt != null
        invariant at <= |list.nodes| && (if at < |list.nodes| then tt == list.nodes[at] else tt == null)
        invariant forall i :: 0 <= i < at ==> TimevalCmp(sands, Deadline(list.tasks[i])) > 0
        decreases |list.nodes| - at
      {
        assert list.nodes[at].Request() == list.tasks[at];
        assert list.tasks[at] in list.tasks;
        if TimevalCmp(sands, tt.u.sands) <= 0 {
          break;
        }
        list.NextIs(at);
        tt, at := tt.next, at + 1;
      }
      assert tt != null ==> TimevalCmp(sands, Deadline(list.tasks[at])) <= 0;
      assert at == TimerPlace(list.tasks, sands);
    }

    lemma LinkedHolds(k: nat)
      requires Linked() && k < 6
      ensures |lists| == 6 && Holds(lists[k], k)
    {}

    /** Linking a timer in. */
    method LinkTimer(thread: Thread, sands: TimeVal)
      requires Linked() && Detached(thread) && thread.kind == Timer && AllTimers(lists[2].tasks)
      modifies lists[2], all
      ensures Linked() && thread.Request() == Task(old(thread.func), old(thread.arg), Sands(sands))
      ensures thread.kind == Timer && |old(lists[2].tasks)| == |old(lists[2].nodes)|
      ensures var n := TimerPlace(old(lists[2].tasks), sands);
        && lists[2].tasks == With(old(lists[2].tasks), n, thread.Request())
        && lists[2].nodes == With(old(lists[2].nodes), n, thread)
    {
      hide ThreadList.Valid, Holds, Linked, Within, TimerPlace, AllTimers;
      LinkedSix();
      Load(thread, Sands(sands));
      var tt, at := FindPlace(sands);
      SameLengths(2);
      LinkedSix();
      if tt != null {
        Insert(2, tt, thread, at);
      } else {
        Append(2, thread);
      }
    }

    lemma SameLengths(k: nat)
      requires Linked() && k < 6
      ensures |lists| == 6 && |lists[k].tasks| == |lists[k].nodes|
    {
      LinkedHolds(k);
    }

    /** thread_add_timer; `now` is the reading of the clock. */
    method AddTimer(func: int, arg: int, now: TimeVal, timer: int) returns (thread: Thread)
      requires Valid() && Normal(now)
      modifies this, lists, all
      ensures Valid() && Grown() && Abs() == Scheduler.AddTimer(old(Abs()), func, arg, now, timer)
      ensures thread in all && thread.kind == Timer && OthersKept(2)
      ensures var n := TimerPlace(old(Abs()).timer, TimeVal(now.sec + timer, now.usec));
        n <= |old(lists[2].nodes)| && lists[2].nodes == With(old(lists[2].nodes), n, thread)
      ensures thread.Request() == Task(func, arg, Sands(TimeVal(now.sec + timer, now.usec)))
    {
      hide ThreadList.Valid, Holds, Linked, Within, Inv, TimerPlace, AllTimers, Taken, Detached;
      LinkedSix();
      Keeps(Abs(), OpTimer(func, arg, now, timer));
      InvParts(Abs());
      TimerLinkedIn(Abs(), func, arg, now, timer);
      thread := EnlistTimer(func, arg, TimeVal(now.sec + timer, now.usec));
    }

    method EnlistTimer(func: int, arg: int, sands: TimeVal) returns (thread: Thread)
      requires Linked() && AllTimers(lists[2].tasks)
      modifies this`alloc, this`all, lists[2], lists[5], all
      ensures Linked() && Grown() && thread in all && thread.kind == Timer && thread.Request() == Task(func, arg, Sands(sands))
      ensures var n := TimerPlace(old(Abs()).timer, sands);
        && n <= |old(lists[2].nodes)| && lists[2].nodes == With(old(lists[2].nodes), n, thread)
        && Abs() == var t := Taken(old(Abs())); t.(timer := With(t.timer, n, Task(func, arg, Sands(sands))))
    {
      hide ThreadList.Valid, Holds, Linked, Within, Inv, TimerPlace, AllTimers;
      LinkedSix();
      SameLengths(2);
      thread := Get(Timer, func, arg);
      LinkTimer(thread, sands);
    }

    // ---------- Cancelling ----------

    /** A thread that is on no list becomes unused. */
    method Recycle(thread: Thread)
      requires Linked() && Detached(thread) && thread.next == null && thread.prev == null
      modifies lists[5], all
      ensures Linked() && |lists[5].tasks| == old(|lists[5].tasks|) + 1
    {
      hide ThreadList.Valid, Holds, Linked, Within;
      LinkedSix();
      Retype(thread, Unused);
      AddUnuse(thread);
    }

    /** Taking a thread off its list and making it an unused one. */
    method Drop(k: nat, thread: Thread, ghost at: nat)
      requires Linked() && k < 5 && at < |lists[k].nodes| && lists[k].nodes[at] == thread
      modifies lists[k], lists[5], all
      ensures Linked() && lists[k].nodes == Without(old(lists[k].nodes), at)
      ensures at < |old(lists[k].tasks)| && lists[k].tasks == Without(old(lists[k].tasks), at)
      ensures |lists[5].tasks| == old(|lists[5].tasks|) + 1
    {
      hide ThreadList.Valid, Holds, Linked, Within;
      LinkedSix();
      SameLengths(k);
      Unlink(k, thread, at);
      LinkedSix();
      Recycle(thread);
    }

    /** thread_cancel of the thread at a place on its list. */
    method Cancel(thread: Thread, ghost at: nat)
      requires Valid() && thread.kind != Unused && at < |lists[Code(thread.kind)].nodes|
      requires lists[Code(thread.kind)].nodes[at] == thread
      modifies this`readfd, this`writefd, lists, all
      ensures Valid() && at < |ListOf(old(Abs()), old(thread.kind))|
      ensures Abs() == Scheduler.Cancel(old(Abs()), old(thread.kind), at)
      ensures OthersKept(Code(old(thread.kind)))
      ensures at < |old(lists[Code(thread.kind)].nodes)|
        && lists[old(Code(thread.kind))].nodes == Without(old(lists[Code(thread.kind)].nodes), at)
    {
      hide ThreadList.Valid, Holds, Linked, Within, Inv, Without, Scheduler.Cancel, Agree;
      LinkedSix();
      InvParts(Abs());
      ghost var s := Abs();
      var kind := thread.kind;
      Withdraw(kind, thread, at);
      Keeps(s, OpCancel(kind, at));
    }

    /** The bit of a thread that waits for a descriptor is cleared; the asserts hold. */
    method ClearFd(thread: Thread, ghost at: nat)
      requires Linked() && thread.kind != Unused && at < |lists[Code(thread.kind)].nodes|
      requires lists[Code(thread.kind)].nodes[at] == thread
      requires Agree(lists[0].tasks, readfd) && Agree(lists[1].tasks, writefd)
      modifies this`readfd, this`writefd
      ensures at < |lists[Code(thread.kind)].tasks|
      ensures var task := lists[Code(thread.kind)].tasks[at];
        && readfd == (if thread.kind == Read then old(readfd) - {FdOf(task)} else old(readfd))
        && writefd == (if thread.kind == Write then old(writefd) - {FdOf(task)} else old(writefd))
    {
      hide ThreadList.Valid, Holds, Linked, Within, Agree;
      LinkedSix();
      TaskAt(Code(thread.kind), at);
      if thread.kind == Read {
        AgreeHas(lists[0].tasks, readfd, at);
        assert thread.u.fd in readfd;
        readfd := readfd - {thread.u.fd};
      } else if thread.kind == Write {
        AgreeHas(lists[1].tasks, writefd, at);
        assert thread.u.fd in writefd;
        writefd := writefd - {thread.u.fd};
      }
    }

    /** The bit of the thread is cleared before it leaves its list. */
    method Withdraw(kind: Kind, thread: Thread, ghost at: nat)
      requires Linked() && kind == thread.kind != Unused && Code(kind) < |lists| == 6
      requires at < |lists[Code(kind)].nodes| && lists[Code(kind)].nodes[at] == thread
      requires Agree(Abs().read, readfd) && Agree(Abs().write, writefd)
      modifies this`readfd, this`writefd, lists, all
      ensures Linked() && at < |ListOf(old(Abs()), kind)|
      ensures Abs() == Scheduler.Cancel(old(Abs()), kind, at)
      ensures OthersKept(Code(kind)) && lists[Code(kind)].nodes == Without(old(lists[Code(kind)].nodes), at)
    {
      hide ThreadList.Valid, Holds, Linked, Within, Without, Agree;
      LinkedSix();
      TaskAt(Code(kind), at);
      ClearFd(thread, at);
      Leave(kind, thread, at);
    }

    /** `Drop` on the abstract state. */
    method Leave(kind: Kind, thread: Thread, ghost at: nat)
      requires Linked() && kind != Unused && at < |lists[Code(kind)].nodes| && lists[Code(kind)].nodes[at] == thread
      modifies lists[Code(kind)], lists[5], all
      ensures Linked() && lists[Code(kind)].nodes == Without(old(lists[Code(kind)].nodes), at)
      ensures at < |ListOf(old(Abs()), kind)|
      ensures Abs() == var t := WithList(old(Abs()), kind, Without(ListOf(old(Abs()), kind), at)); t.(unused := t.unused + 1)
    {
      hide ThreadList.Valid, Holds, Linked, Within, Without;
      LinkedSix();
      var k := Code(kind);
      ghost var s := Abs();
      SameLengths(k);
      assert ListOf(s, kind) == lists[k].tasks;
      Drop(k, thread, at);
    }

    lemma TaskAt(k: nat, at: nat)
      requires Linked() && k < 6 && at < |lists[k].nodes|
      ensures |lists| == 6 && at < |lists[k].tasks| && lists[k].nodes[at].Request() == lists[k].tasks[at]
      ensures Code(lists[k].nodes[at].kind) == k
    {
      LinkedHolds(k);
    }

    /** The requests and the number of unused threads after a prefix of the events has been looked at. */
    ghost predicate Purged(events: seq<Task>, i: nat, arg: int, unused: nat)
      requires |lists| == 6 && i <= |events|
      reads lists
    {
      lists[3].tasks == ByArg(events[..i], arg, false) + events[i..]
      && |lists[5].tasks| == unused + |ByArg(events[..i], arg, true)|
    }

    lemma PurgeNext(events: seq<Task>, i: nat, arg: int)
      requires i < |events|
      ensures ByArg(events[..i + 1], arg, true)
        == ByArg(events[..i], arg, true) + if events[i].arg == arg then [events[i]] else []
      ensures ByArg(events[..i + 1], arg, false)
        == ByArg(events[..i], arg, false) + if events[i].arg == arg then [] else [events[i]]
    {
      assert events[..i + 1][..i] == events[..i];
    }

    /** thread_cancel_event */
    method CancelEvent(arg: int)
      requires Valid()
      modifies lists[3], lists[5], all
      ensures Valid() && Abs() == Scheduler.CancelEvent(old(Abs()), arg)
    {
      hide ThreadList.Valid, Holds, Linked, Within, Inv, Purged, CursorAt, ByArg;
      LinkedSix();
      Keeps(Abs(), OpCancelEvent(arg));
      ghost var events, unused, i := lists[3].tasks, |lists[5].tasks|, 0;
      PurgeStart(arg);
      LinkedHead(3);
      var thread := lists[3].head;
      while thread != null
        invariant Linked() && i <= |events| && Purged(events, i, arg, unused)
        invariant CursorAt(3, |ByArg(events[..i], arg, false)|, thread)
        decreases |events| - i
      {
        thread := PurgeOne(thread, events, i, arg, unused);
        i := i + 1;
      }
      PurgeEnd(events, i, arg, unused);
    }

    lemma PurgeStart(arg: int)
      requires |lists| == 6
      ensures Purged(lists[3].tasks, 0, arg, |lists[5].tasks|) && |ByArg(lists[3].tasks[..0], arg, false)| == 0
    {}

    lemma PurgeEnd(events: seq<Task>, i: nat, arg: int, unused: nat)
      requires Linked() && i <= |events| && Purged(events, i, arg, unused)
      requires CursorAt(3, |ByArg(events[..i], arg, false)|, null)
      ensures lists[3].tasks == ByArg(events, arg, false) && |lists[5].tasks| == unused + |ByArg(events, arg, true)|
    {
      CursorEnd(3, |ByArg(events[..i], arg, false)|);
      hide ByArg, Linked;
      assert events[..i] == events;
    }

    /** A cursor that walks a list. */
    ghost predicate CursorAt(k: nat, at: nat, cursor: Thread?)
      requires |lists| == 6 && k < 6
      reads lists
    {
      at <= |lists[k].nodes| && cursor == if at < |lists[k].nodes| then lists[k].nodes[at] else null
    }

    lemma LinkedHead(k: nat)
      requires Linked() && k < 6
      ensures CursorAt(k, 0, lists[k].head)
    {
      LinkedHolds(k);
      lists[k].HeadIs();
    }

    lemma LinkedNext(k: nat, at: nat)
      requires Linked() && k < 6 && at < |lists[k].nodes|
      ensures CursorAt(k, at + 1, lists[k].nodes[at].next)
    {
      LinkedHolds(k);
      lists[k].NextIs(at);
    }

    lemma CursorEnd(k: nat, at: nat)
      requires Linked() && k < 6 && CursorAt(k, at, null)
      ensures |lists| == 6 && at == |lists[k].tasks|
    {
      SameLengths(k);
    }

    method PurgeOne(t: Thread, ghost events: seq<Task>, ghost i: nat, arg: int, ghost unused: nat) returns (thread: Thread?)
      requires Linked() && i <= |events| && Purged(events, i, arg, unused)
      requires CursorAt(3, |ByArg(events[..i], arg, false)|, t)
      modifies lists[3], lists[5], all
      ensures Linked() && i < |events| && Purged(events, i + 1, arg, unused)
      ensures CursorAt(3, |ByArg(events[..i + 1], arg, false)|, thread)
    {
      hide ThreadList.Valid, Holds, Linked, Within, ByArg;
      LinkedSix();
      ghost var kept := ByArg(events[..i], arg, false);
      SameLengths(3);
      TaskAt(3, |kept|);
      LinkedNext(3, |kept|);
      PurgeNext(events, i, arg);
      thread := t.next;
      if t.arg == arg {
        Drop(3, t, |kept|);
      }
    }

    // ---------- Fetching ----------

    /** thread_timer_wait; `now` is the reading of the clock. */
    method TimerWait(now: TimeVal) returns (wait: Option<TimeVal>)
      requires Valid()
      ensures wait == WaitFor(Abs(), now)
    {
      hide ThreadList.Valid, Holds, Linked, Within, Inv;
      LinkedSix();
      LinkedHead(2);
      InvParts(Abs());
      hide Agree;
      if lists[2].head == null {
        CursorEnd(2, 0);
        return None;
      }
      TaskAt(2, 0);
      assert lists[2].tasks[0] in lists[2].tasks;
      var min := TimevalSubtract(lists[2].head.u.sands, now);
      if min.sec < 0 {
        min := TimeVal(0, 10);
      }
      return Some(min);
    }

    /** thread_run of a thread just taken off the list with the given code. */
    method ThreadRun(thread: Thread) returns (fetch: Task)
      requires Linked() && Detached(thread) && thread.next == null && thread.prev == null
      modifies lists[5], all
      ensures Linked() && fetch == old(thread.Request())
      ensures |lists[5].tasks| == old(|lists[5].tasks|) + 1
    {
      hide ThreadList.Valid, Holds, Linked, Within, Detached;
      fetch := thread.Request();
      Recycle(thread);
    }

    /** thread_trim_head and thread_run, when the list is not empty. */
    method RunHead(kind: Kind) returns (fetch: Task)
      requires Linked() && kind != Unused && lists[Code(kind)].nodes != []
      modifies lists[Code(kind)], lists[5], all
      ensures Linked() && ListOf(old(Abs()), kind) != [] && Got(fetch, kind, Abs()) == Run(old(Abs()), kind, 0)
    {
      hide ThreadList.Valid, Holds, Linked, Within;
      LinkedSix();
      var k := Code(kind);
      SameLengths(k);
      ghost var s := Abs();
      assert ListOf(s, kind) == lists[k].tasks;
      var thread := TrimHead(k);
      LinkedSix();
      fetch := ThreadRun(thread);
    }

    /** The scan of thread_fetch for an expired timer. */
    method FindExpired(now: TimeVal) returns (thread: Thread?, ghost at: nat)
      requires Linked() && AllTimers(lists[2].tasks)
      ensures at == FirstExpired(lists[2].tasks, now)
      ensures var n := FirstExpired(lists[2].tasks, now);
        thread == if n < |lists[2].nodes| then lists[2].nodes[n] else null
    {
      hide ThreadList.Valid, Linked, Within, FirstExpired;
      LinkedHolds(2);
      var list := lists[2];
      list.HeadIs();
      thread, at := list.head, 0;
      while thread != null
        invariant at <= |list.nodes| && (if at < |list.nodes| then thread == list.nodes[at] else thread == null)
        invariant forall i :: 0 <= i < at ==> !Expired(list.tasks[i], now)
        decreases |list.nodes| - at
      {
        assert list.nodes[at].Request() == list.tasks[at];
        assert list.tasks[at] in list.tasks;
        if TimevalCmp(now, thread.u.sands) >= 0 {
          break;
        }
        list.NextIs(at);
        thread, at := thread.next, at + 1;
      }
      assert thread != null ==> Expired(list.tasks[at], now);
      assert at == FirstExpired(list.tasks, now);
    }

    /** The timer part of thread_fetch. */
    method RunTimer(now: TimeVal) returns (fetch: Option<Task>)
      requires Linked() && AllTimers(lists[2].tasks)
      modifies lists[2], lists[5], all
      ensures Linked()
      ensures var s := old(Abs()); var n := FirstExpired(s.timer, now);
        if n < |s.timer| then fetch.Some? && Got(fetch.value, Timer, Abs()) == Run(s, Timer, n)
        else fetch.None? && Abs() == s
    {
      hide ThreadList.Valid, Holds, Linked, Within, AllTimers, FirstExpired;
      LinkedSix();
      SameLengths(2);
      var thread, at := FindExpired(now);
      if thread == null {
        return None;
      }
      ghost var s := Abs();
      Unlink(2, thread, at);
      LinkedSix();
      var task := ThreadRun(thread);
      return Some(task);
    }

    // ---------- Selected descriptors ----------

    /** The lists and the descriptor set after a prefix of a descriptor list has been looked at. */
    ghost predicate Sifted(k: nat, fdset: set<int>, mfdset: set<int>,
                           was: seq<Task>, ready: seq<Task>, had: set<int>, i: nat)
      requires |lists| == 6 && k < 2 && i <= |was|
      reads lists
    {
      && lists[k].tasks == ByFd(was[..i], fdset, false) + was[i..]
      && lists[4].tasks == ready + ByFd(was[..i], fdset, true)
      && mfdset == had - Fds(ByFd(was[..i], fdset, true))
    }

    lemma SiftStart(k: nat, fdset: set<int>, mfdset: set<int>)
      requires |lists| == 6 && k < 2
      ensures Sifted(k, fdset, mfdset, lists[k].tasks, lists[4].tasks, mfdset, 0)
      ensures |ByFd(lists[k].tasks[..0], fdset, false)| == 0
    {
      assert Fds([]) == {};
    }

    lemma SiftEnd(k: nat, fdset: set<int>, mfdset: set<int>, was: seq<Task>, ready: seq<Task>, had: set<int>, i: nat)
      requires Linked() && k < 2 && i <= |was| && Sifted(k, fdset, mfdset, was, ready, had, i)
      requires CursorAt(k, |ByFd(was[..i], fdset, false)|, null)
      ensures lists[k].tasks == ByFd(was, fdset, false) && lists[4].tasks == ready + ByFd(was, fdset, true)
      ensures mfdset == had - Fds(ByFd(was, fdset, true)) && was[..i] == was
    {
      CursorEnd(k, |ByFd(was[..i], fdset, false)|);
      hide ByFd, Linked;
      assert was[..i] == was;
    }

    lemma SiftNext(was: seq<Task>, fdset: set<int>, i: nat)
      requires i < |was|
      ensures ByFd(was[..i + 1], fdset, true)
        == ByFd(was[..i], fdset, true) + if FdOf(was[i]) in fdset then [was[i]] else []
      ensures ByFd(was[..i + 1], fdset, false)
        == ByFd(was[..i], fdset, false) + if FdOf(was[i]) in fdset then [] else [was[i]]
    {
      assert was[..i + 1][..i] == was[..i];
    }

    /** The descriptor of a thread that is still on the list is still in the set. */
    lemma StillSet(was: seq<Task>, fdset: set<int>, had: set<int>, i: nat)
      requires Agree(was, had) && i < |was|
      ensures was[i].payload.Fd? && FdOf(was[i]) in had - Fds(ByFd(was[..i], fdset, true))
    {
      hide ByFd, FdOf;
      AgreeHas(was, had, i);
      ByFdSubset(was[..i], fdset, true);
    }

    lemma FdsMore(tasks: seq<Task>, t: Task)
      ensures Fds(tasks + [t]) == Fds(tasks) + {FdOf(t)}
    {
      assert forall u :: u in tasks + [t] <==> u in tasks || u == t;
    }

    /** Moving a thread whose descriptor was selected to the ready list. */
    method MakeReady(k: nat, thread: Thread, ghost at: nat)
      requires Linked() && k < 2 && at < |lists[k].nodes| && lists[k].nodes[at] == thread
      modifies lists[k], lists[4], all
      ensures Linked() && lists[k].nodes == Without(old(lists[k].nodes), at)
      ensures at < |old(lists[k].tasks)| && lists[k].tasks == Without(old(lists[k].tasks), at)
      ensures lists[4].tasks == old(lists[4].tasks) + [old(lists[k].tasks)[at]]
    {
      hide ThreadList.Valid, Holds, Linked, Within;
      LinkedSix();
      SameLengths(k);
      Unlink(k, thread, at);
      LinkedSix();
      Retype(thread, Ready);
      Append(4, thread);
    }

    /** One turn of the loop of thread_process_fd. */
    method SiftOne(k: nat, thread: Thread, fdset: set<int>, mfdset: set<int>,
                   ghost was: seq<Task>, ghost ready: seq<Task>, ghost had: set<int>, ghost i: nat)
      returns (next: Thread?, moved: bool, rest: set<int>)
      requires Linked() && k < 2 && i <= |was| && Agree(was, had) && Sifted(k, fdset, mfdset, was, ready, had, i)
      requires CursorAt(k, |ByFd(was[..i], fdset, false)|, thread)
      modifies lists[k], lists[4], all
      ensures Linked() && i < |was| && Sifted(k, fdset, rest, was, ready, had, i + 1)
      ensures CursorAt(k, |ByFd(was[..i + 1], fdset, false)|, next)
      ensures |ByFd(was[..i + 1], fdset, true)| == |ByFd(was[..i], fdset, true)| + if moved then 1 else 0
    {
      hide ThreadList.Valid, Holds, Linked, Within, ByFd, Agree, Fds;
      LinkedSix();
      ghost var at, out := |ByFd(was[..i], fdset, false)|, ByFd(was[..i], fdset, true);
      SameLengths(k);
      TaskAt(k, at);
      LinkedNext(k, at);
      assert was[i..] == [was[i]] + was[i + 1..];
      SiftNext(was, fdset, i);
      StillSet(was, fdset, had, i);
      next, moved, rest := thread.next, false, mfdset;
      if thread.u.fd in fdset {
        assert thread.u.fd in mfdset;
        rest := mfdset - {thread.u.fd};
        FdsMore(out, was[i]);
        MakeReady(k, thread, at);
        moved := true;
        assert rest == had - (Fds(out) + {FdOf(was[i])});
        assert ready + out + [was[i]] == ready + (out + [was[i]]);
      } else {
        assert out + [] == out;
      }
    }

    /** thread_process_fd of the read (`k` is 0) or write (`k` is 1) list; `rest` is what it makes
        of the descriptor set `mfdset`. */
    method ProcessFd(k: nat, fdset: set<int>, mfdset: set<int>) returns (ready: nat, rest: set<int>)
      requires Linked() && k < 2 && Agree(lists[k].tasks, mfdset)
      modifies lists[k], lists[4], all
      ensures Linked() && lists[k].tasks == ByFd(old(lists[k].tasks), fdset, false)
      ensures lists[4].tasks == old(lists[4].tasks) + ByFd(old(lists[k].tasks), fdset, true)
      ensures rest == mfdset - Fds(ByFd(old(lists[k].tasks), fdset, true))
      ensures ready == |ByFd(old(lists[k].tasks), fdset, true)|
    {
      hide ThreadList.Valid, Holds, Linked, Within, ByFd, Agree, Fds, Sifted, CursorAt;
      LinkedSix();
      ghost var was, i := lists[k].tasks, 0;
      SiftStart(k, fdset, mfdset);
      LinkedHead(k);
      ready, rest := 0, mfdset;
      var thread := lists[k].head;
      while thread != null
        invariant Linked() && i <= |was| && Sifted(k, fdset, rest, was, old(lists[4].tasks), mfdset, i)
        invariant CursorAt(k, |ByFd(was[..i], fdset, false)|, thread)
        invariant ready == |ByFd(was[..i], fdset, true)|
        decreases |was| - i
      {
        var moved;
        thread, moved, rest := SiftOne(k, thread, fdset, rest, was, old(lists[4].tasks), mfdset, i);
        i := i + 1;
        if moved {
          ready := ready + 1;
        }
      }
      SiftEnd(k, fdset, rest, was, old(lists[4].tasks), mfdset, i);
    }

    /** The part of thread_fetch before it waits. */
    method Poll(now: TimeVal) returns (fetch: Option<Task>, from: Kind)
      requires Linked() && AllTimers(lists[2].tasks)
      modifies lists, all
      ensures Linked()
      ensures Scheduler.Poll(old(Abs()), now) == if fetch.None? then None else Some(Got(fetch.value, from, Abs()))
      ensures fetch.None? ==> Abs() == old(Abs())
    {
      hide ThreadList.Valid, Holds, Linked, Within, AllTimers, FirstExpired, Run;
      LinkedSix();
      var empty := IsEmpty(3);
      if !empty {
        var task := RunHead(Event);
        return Some(task), Event;
      }
      var timer := RunTimer(now);
      if timer.Some? {
        return timer, Timer;
      }
      empty := IsEmpty(4);
      if !empty {
        var task := RunHead(Ready);
        return Some(task), Ready;
      }
      return None, Unused;
    }

    /** The selected descriptors of both lists. */
    method ProcessBoth(readable: set<int>, writable: set<int>)
      requires Valid()
      modifies this`readfd, this`writefd, lists, all
      ensures Valid() && Abs() == Process(old(Abs()), readable, writable)
    {
      hide ThreadList.Valid, Holds, Linked, Within, Inv, Agree, ByFd, Fds;
      LinkedSix();
      ProcessInv(Abs(), readable, writable);
      InvParts(Abs());
      var ready, rest := ProcessFd(0, readable, readfd);
      readfd := rest;
      LinkedSix();
      ready, rest := ProcessFd(1, writable, writefd);
      writefd := rest;
    }

    /** One turn of the loop of thread_fetch. */
    method FetchOnce(turn: Turn) returns (done: bool, fetch: Option<Task>, from: Kind, wait: seq<Option<TimeVal>>)
      requires Valid()
      modifies this`readfd, this`writefd, lists, all
      ensures Linked() && OneTurn(old(Abs()), turn) == Outcome(done, fetch, from)
      ensures !done ==> Valid()
      ensures wait == WaitOf(old(Abs()), turn)
    {
      hide ThreadList.Valid, Holds, Linked, Within, Inv, Scheduler.Poll, Scheduler.AfterSelect, WaitFor;
      LinkedSix();
      InvParts(Abs());
      fetch, from := Poll(turn.now);
      if fetch.Some? {
        return true, fetch, from, [];
      }
      LinkedSix();
      var w := TimerWait(turn.later);
      wait := [w];
      match turn.wake {
        case TimedOut => return false, None, from, wait;
        case Interrupted => return false, None, from, wait;
        case Broken => return true, None, from, wait;
        case Selected(readable, writable) =>
          done, fetch, from := AfterSelect(readable, writable);
      }
    }

    /** The rest of a turn after an answer of select(). */
    method AfterSelect(readable: set<int>, writable: set<int>) returns (done: bool, fetch: Option<Task>, from: Kind)
      requires Valid()
      modifies this`readfd, this`writefd, lists, all
      ensures Linked() && fetch.Some? == done && (!done ==> Valid())
      ensures Outcome(done, fetch, from) == Scheduler.AfterSelect(old(Abs()), readable, writable)
    {
      hide ThreadList.Valid, Holds, Linked, Within, Inv, Run, Process;
      LinkedSix();
      ProcessBoth(readable, writable);
      LinkedSix();
      var empty := IsEmpty(4);
      if empty {
        return false, None, Unused;
      }
      var task := RunHead(Ready);
      return true, Some(task), Ready;
    }

    /** What thread_fetch has come to. */
    ghost function Outcome(done: bool, fetch: Option<Task>, from: Kind): Fetched
      requires |lists| == 6
      reads this, lists
    {
      if !done then Waiting(Abs()) else if fetch.None? then Null(Abs()) else Got(fetch.value, from, Abs())
    }

    /** thread_fetch; not `done` means that it still waits after the last of the turns. `waits` are
        the time-outs given to select(). */
    method Fetch(turns: seq<Turn>) returns (done: bool, fetch: Option<Task>, from: Kind, waits: seq<Option<TimeVal>>)
      requires Valid() && Enabled(Abs(), OpFetch(turns))
      modifies this`readfd, this`writefd, lists, all
      ensures Valid() && Scheduler.Fetch(old(Abs()), turns) == Outcome(done, fetch, from)
      ensures waits == Waits(old(Abs()), turns)
    {
      hide ThreadList.Valid, Holds, Linked, Within, Inv, OneTurn, WaitOf, Scheduler.Fetch, Waits;
      LinkedSix();
      Keeps(Abs(), OpFetch(turns));
      ghost var s := Abs();
      done, fetch, from, waits := false, None, Unused, [];
      var i := 0;
      while i < |turns|
        invariant i <= |turns| && Valid()
        invariant !done && Scheduler.Fetch(s, turns) == Scheduler.Fetch(Abs(), turns[i..])
        invariant Waits(s, turns) == waits + Waits(Abs(), turns[i..])
      {
        LinkedSix();
        FetchTurn(Abs(), turns, i);
        var wait;
        done, fetch, from, wait := FetchOnce(turns[i]);
        waits := waits + wait;
        if done {
          return;
        }
        i := i + 1;
      }
      assert turns[i..] == [];
      NoTurnsLeft(Abs());
    }

    // ---------- Stopping ----------

    /** thread_list_free: its threads are gone, so only the counters are of any use afterwards. */
    method FreeList(list: ThreadList)
      requires list.Valid()
      modifies this`alloc, list`count
      ensures alloc == old(alloc) - old(list.count) && list.count == 0
    {
      list.HeadIs();
      Nexts(list);
      ghost var n, i := |list.nodes|, 0;
      hide ThreadList.Valid;
      var t := list.head;
      while t != null
        invariant i <= n && t == if i < n then list.nodes[i] else null
        invariant list.count == n - i && alloc == old(alloc) - i
        decreases n - i
      {
        var next := t.next;
        list.count := list.count - 1;
        alloc := alloc - 1;
        t, i := next, i + 1;
      }
    }

    lemma Nexts(list: ThreadList)
      requires list.Valid()
      ensures list.count == |list.nodes|
      ensures forall i :: 0 <= i < |list.nodes| ==>
        list.nodes[i].next == if i + 1 < |list.nodes| then list.nodes[i + 1] else null
    {
      forall i | 0 <= i < |list.nodes|
        ensures list.nodes[i].next == if i + 1 < |list.nodes| then list.nodes[i + 1] else null
      {
        list.NextIs(i);
      }
    }

    lemma Counts(k: nat)
      requires Linked() && k < 6
      ensures lists[k].Valid() && lists[k].count == |lists[k].tasks|
    {
      LinkedHolds(k);
    }

    /** thread_master_free: every thread that was ever allocated is freed. */
    method MasterFree()
      requires Valid()
      modifies this`alloc, lists
      ensures alloc == 0
    {
      hide ThreadList.Valid, Holds, Linked, Within;
      LinkedSix();
      forall k | 0 <= k < 6 ensures lists[k].Valid() && lists[k].count == |lists[k].tasks| {
        Counts(k);
      }
      FreeList(lists[0]);
      FreeList(lists[1]);
      FreeList(lists[2]);
      FreeList(lists[3]);
      FreeList(lists[4]);
      FreeList(lists[5]);
    }
  }

  // ---------- Clients ----------

  /** The state after one thread has been taken and recycled: nothing pending has changed. */
  function Recycled(s: State): State {
    Taken(s).(unused := Taken(s).unused + 1)
  }

  /** Cancelling what was added leaves every list and descriptor set as it was. */
  lemma CancelUndoesAddRead(s: State, func: int, arg: int, fd: int)
    requires fd !in s.readfd
    ensures Scheduler.Cancel(AddRead(s, func, arg, fd), Read, |s.read|) == Recycled(s)
  {
    assert Without(s.read + [Task(func, arg, Fd(fd))], |s.read|) == s.read;
    assert s.readfd + {fd} - {fd} == s.readfd;
  }

  lemma CancelUndoesAddWrite(s: State, func: int, arg: int, fd: int)
    requires fd !in s.writefd
    ensures Scheduler.Cancel(AddWrite(s, func, arg, fd), Write, |s.write|) == Recycled(s)
  {
    assert Without(s.write + [Task(func, arg, Fd(fd))], |s.write|) == s.write;
    assert s.writefd + {fd} - {fd} == s.writefd;
  }

  lemma CancelUndoesAddEvent(s: State, func: int, arg: int, val: int)
    ensures Scheduler.Cancel(AddEvent(s, func, arg, val), Event, |s.event|) == Recycled(s)
  {
    assert Without(s.event + [Task(func, arg, Val(val))], |s.event|) == s.event;
  }

  lemma CancelUndoesAddTimer(s: State, func: int, arg: int, now: TimeVal, delay: int)
    ensures var n := TimerPlace(s.timer, TimeVal(now.sec + delay, now.usec));
      Scheduler.Cancel(AddTimer(s, func, arg, now, delay), Timer, n) == Recycled(s)
  {
    hide TimerPlace, AddTimer, With, Without;
    var n := TimerPlace(s.timer, TimeVal(now.sec + delay, now.usec));
    TimerLinkedIn(s, func, arg, now, delay);
    WithoutWith(Taken(s).timer, n, Task(func, arg, Sands(TimeVal(now.sec + delay, now.usec))));
  }

  /** A client that takes an event back. */
  method AddAndCancelEvent(m: ThreadMaster, func: int, arg: int, val: int)
    requires m.Valid()
    modifies m, m.lists, m.all
    ensures m.Valid() && m.Abs() == Recycled(old(m.Abs()))
  {
    hide ThreadMaster.Linked, Inv, Taken;
    m.LinkedSix();
    m.SameLengths(3);
    ghost var s := m.Abs();
    CancelUndoesAddEvent(s, func, arg, val);
    var thread := m.AddEvent(func, arg, val);
    m.Cancel(thread, |s.event|);
  }

  /** A client that takes a timer back from wherever it was linked in. */
  method AddAndCancelTimer(m: ThreadMaster, func: int, arg: int, now: TimeVal, delay: int)
    requires m.Valid() && Normal(now)
    modifies m, m.lists, m.all
    ensures m.Valid() && m.Abs() == Recycled(old(m.Abs()))
  {
    hide ThreadMaster.Linked, Inv, Taken, TimerPlace;
    m.LinkedSix();
    m.SameLengths(2);
    ghost var s := m.Abs();
    CancelUndoesAddTimer(s, func, arg, now, delay);
    var thread := m.AddTimer(func, arg, now, delay);
    m.Cancel(thread, TimerPlace(s.timer, TimeVal(now.sec + delay, now.usec)));
  }

  /** A client that takes a descriptor back. */
  method AddAndCancelRead(m: ThreadMaster, func: int, arg: int, fd: int)
    requires m.Valid() && fd !in m.readfd
    modifies m, m.lists, m.all
    ensures m.Valid() && m.Abs() == Recycled(old(m.Abs()))
  {
    hide ThreadMaster.Linked, Inv, Taken;
    m.LinkedSix();
    m.SameLengths(0);
    ghost var s := m.Abs();
    CancelUndoesAddRead(s, func, arg, fd);
    var thread := m.AddRead(func, arg, fd);
    m.Cancel(thread, |s.read|);
  }

  /** The clients on a new master. */
  method UseNewMaster(func: int, arg: int, fd: int) returns (m: ThreadMaster)
    ensures fresh(m) && m.Valid() && Pending(m.Abs()) == multiset{} && m.alloc == 1
  {
    m := new ThreadMaster();
    hide ThreadMaster.Linked, Inv;
    AddAndCancelRead(m, func, arg, fd);
  }
}
