/** The intrusive lists of thread.c. */
module Threads {
  import opened Seqs
  import opened Scheduler

  class Thread {
    var kind: Kind
    var next: Thread?
    var prev: Thread?
    var func: int
    var arg: int
    var u: Payload

    constructor ()
      ensures kind == Read && next == null && prev == null && func == 0 && arg == 0 && u == Val(0)
    {
      kind, next, prev, func, arg, u := Read, null, null, 0, 0, Val(0);
    }

    /** The assignments of thread_get. */
    method Init(kind: Kind, func: int, arg: int)
      modifies this`kind, this`func, this`arg
      ensures this.kind == kind && this.func == func && this.arg == arg
    {
      this.kind := kind;
      this.func := func;
      this.arg := arg;
    }

    function Request(): Task
      reads this`func, this`arg, this`u
    {
      Task(func, arg, u)
    }
  }

  class ThreadList {
    var head: Thread?
    var tail: Thread?
    var count: int
    /** The threads of the list, in order, and their requests. */
    ghost var nodes: seq<Thread>
    ghost var tasks: seq<Task>

    ghost predicate Valid()
      reads this`head, this`tail, this`count, this`nodes, nodes`next, nodes`prev
    {
      && count == |nodes|
      && (nodes == [] ==> head == null && tail == null)
      && (nodes != [] ==> head == nodes[0] && tail == nodes[|nodes| - 1] && head.prev == null && tail.next == null)
      && (forall i, j :: 0 <= i < j < |nodes| ==> nodes[i] != nodes[j])
      && (forall i, j :: 0 <= i < |nodes| && j == i + 1 && j < |nodes| ==>
            nodes[i].next == nodes[j] && nodes[j].prev == nodes[i])
    }

    constructor ()
      ensures Valid() && nodes == [] && tasks == []
    {
      head, tail, count, nodes, tasks := null, null, 0, [], [];
    }

    lemma HeadIs()
      requires Valid()
      ensures head == if nodes == [] then null else nodes[0]
    {}

    lemma NextIs(i: nat)
      requires Valid() && i < |nodes|
      ensures nodes[i].next == if i + 1 < |nodes| then nodes[i + 1] else null
    {
      assert i + 1 < |nodes| ==> nodes[i].next == nodes[i + 1];
    }

    /** thread_empty */
    method Empty() returns (empty: bool)
      requires Valid()
      ensures empty <==> nodes == []
    {
      return head == null;
    }

    /** thread_list_add */
    method Add(thread: Thread)
      requires Valid() && thread !in nodes
      modifies this`head, this`tail, this`count, this`nodes, this`tasks, thread`next, thread`prev, nodes`next
      ensures Valid() && nodes == old(nodes) + [thread] && tasks == old(tasks) + [thread.Request()]
    {
      thread.next := null;
      thread.prev := tail;
      if tail != null {
        tail.next := thread;
      } else {
        head := thread;
      }
      tail := thread;
      count := count + 1;
      nodes := nodes + [thread];
      tasks := tasks + [thread.Request()];
    }

    /** thread_list_add_before */
    method AddBefore(point: Thread, thread: Thread, ghost at: nat)
      requires Valid() && thread !in nodes && at < |nodes| == |tasks| && nodes[at] == point
      modifies this`head, this`count, this`nodes, this`tasks, thread`next, thread`prev, nodes`next, nodes`prev
      ensures Valid() && nodes == With(old(nodes), at, thread) && tasks == With(old(tasks), at, thread.Request())
    {
      hide Valid;
      LinkBefore(point, thread, at);
      tasks := With(tasks, at, thread.Request());
    }

    method LinkBefore(point: Thread, thread: Thread, ghost at: nat)
      requires Valid() && thread !in nodes && at < |nodes| && nodes[at] == point
      modifies this`head, this`count, this`nodes, thread`next, thread`prev, nodes`next, nodes`prev
      ensures Valid() && nodes == old(nodes)[..at] + [thread] + old(nodes)[at..]
    {
      assert at > 0 ==> point.prev == nodes[at - 1];
      thread.next := point;
      thread.prev := point.prev;
      if point.prev != null {
        point.prev.next := thread;
      } else {
        head := thread;
      }
      point.prev := thread;
      count := count + 1;
      nodes := nodes[..at] + [thread] + nodes[at..];
    }

    /** thread_list_delete */
    method Delete(thread: Thread, ghost at: nat)
      requires Valid() && at < |nodes| == |tasks| && nodes[at] == thread
      modifies this`head, this`tail, this`count, this`nodes, this`tasks, nodes`next, nodes`prev
      ensures Valid() && nodes == Without(old(nodes), at) && tasks == Without(old(tasks), at)
      ensures thread !in nodes && thread.next == null && thread.prev == null
    {
      TakenOut(at);
      hide Valid;
      Unlink(thread, at);
      tasks := Without(tasks, at);
    }

    lemma TakenOut(at: nat)
      requires Valid() && at < |nodes|
      ensures nodes[at] !in Without(nodes, at)
    {}

    method Unlink(thread: Thread, ghost at: nat)
      requires Valid() && at < |nodes| && nodes[at] == thread
      modifies this`head, this`tail, this`count, this`nodes, nodes`next, nodes`prev
      ensures Valid() && nodes == old(nodes)[..at] + old(nodes)[at + 1..]
      ensures thread.next == null && thread.prev == null
    {
      assert at > 0 ==> thread.prev == nodes[at - 1];
      assert at + 1 < |nodes| ==> thread.next == nodes[at + 1];
      if thread.next != null {
        thread.next.prev := thread.prev;
      } else {
        tail := thread.prev;
      }
      if thread.prev != null {
        thread.prev.next := thread.next;
      } else {
        head := thread.next;
      }
      thread.next := null;
      thread.prev := null;
      count := count - 1;
      nodes := nodes[..at] + nodes[at + 1..];
    }
  }
}
