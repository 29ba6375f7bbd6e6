/** linklist.c: doubly linked lists of data. */
module LinkLists {
  import opened Options
  import opened Seqs

  // ---------- What the operations do to the data ----------

  /** The first entry that `val` is less than: the place listnode_add_sort gives it. */
  function Place<T>(cmp: (T, T) -> int, items: seq<T>, val: T): (n: nat)
    ensures n <= |items|
    ensures forall i :: 0 <= i < n ==> cmp(val, items[i]) >= 0
    ensures n < |items| ==> cmp(val, items[n]) < 0
  {
    if items == [] || cmp(val, items[0]) < 0 then 0 else 1 + Place(cmp, items[1..], val)
  }

  /** listnode_add_sort; without a comparison it adds at the tail. */
  function Added<T>(cmp: Option<(T, T) -> int>, items: seq<T>, val: T): seq<T> {
    With(items, if cmp.None? then |items| else Place(cmp.value, items, val), val)
  }

  /** list_add_list */
  function AddedAll<T>(cmp: Option<(T, T) -> int>, items: seq<T>, more: seq<T>): seq<T>
    decreases |more|
  {
    if more == [] then items else AddedAll(cmp, Added(cmp, items, more[0]), more[1..])
  }

  /** The first place of a value, or the length. */
  function Find<T(==)>(items: seq<T>, val: T): (n: nat)
    ensures n <= |items|
    ensures forall i :: 0 <= i < n ==> items[i] != val
    ensures n < |items| ==> items[n] == val
  {
    if items == [] || items[0] == val then 0 else 1 + Find(items[1..], val)
  }

  /** listnode_delete */
  function Deleted<T(==)>(items: seq<T>, val: T): seq<T> {
    var n := Find(items, val);
    if n < |items| then Without(items, n) else items
  }

  // ---------- The lists ----------

  class Node<T> {
    const data: T
    var next: Node?<T>
    var prev: Node?<T>

    /** listnode_new */
    constructor (data: T)
      ensures this.data == data && next == null && prev == null
    {
      this.data := data;
      next, prev := null, null;
    }
  }

  class List<T(==)> {
    var head: Node?<T>
    var tail: Node?<T>
    var count: int
    const cmp: Option<(T, T) -> int>
    /** The nodes in order, and their data. */
    ghost var nodes: seq<Node<T>>
    ghost var items: seq<T>

    ghost predicate Linked()
      reads this`head, this`tail, this`count, this`nodes, nodes`next, nodes`prev
    {
      && count == |nodes|
      && (nodes == [] ==> head == null && tail == null)
      && (nodes != [] ==> head == nodes[0] && tail == nodes[|nodes| - 1] && head.prev == null && tail.next == null)
      && (forall i, j :: 0 <= i < j < |nodes| ==> nodes[i] != nodes[j])
      && (forall i, j :: 0 <= i < |nodes| && j == i + 1 && j < |nodes| ==>
            nodes[i].next == nodes[j] && nodes[j].prev == nodes[i])
    }

    ghost predicate Labelled()
      reads this`nodes, this`items
    {
      |items| == |nodes| && forall i :: 0 <= i < |nodes| ==> nodes[i].data == items[i]
    }

    ghost predicate Valid()
      reads this, nodes`next, nodes`prev
    {
      Linked() && Labelled()
    }

    /** list_new, and the assignment of a comparison. */
    constructor (cmp: Option<(T, T) -> int>)
      ensures Valid() && items == [] && nodes == [] && this.cmp == cmp
    {
      this.cmp := cmp;
      head, tail, count, nodes, items := null, null, 0, [], [];
    }

    /** A cursor that walks the list. */
    ghost predicate CursorAt(at: nat, n: Node?<T>)
      reads this`nodes
    {
      at <= |nodes| && n == if at < |nodes| then nodes[at] else null
    }

    lemma AtHead()
      requires Linked()
      ensures CursorAt(0, head) && (nodes != [] ==> tail == nodes[|nodes| - 1])
      ensures tail == null <==> nodes == []
    {}

    lemma AtNext(at: nat)
      requires Linked() && at < |nodes|
      ensures CursorAt(at + 1, nodes[at].next)
    {
      assert at + 1 < |nodes| ==> nodes[at].next == nodes[at + 1];
    }

    // ---------- Relinking ----------

    method LinkLast(node: Node<T>)
      requires Linked() && node !in nodes && node.next == null
      modifies this`head, this`tail, this`count, this`nodes, node`prev, nodes`next
      ensures Linked() && nodes == old(nodes) + [node]
    {
      node.prev := tail;
      if tail != null {
        tail.next := node;
      } else {
        head := node;
      }
      tail := node;
      count := count + 1;
      nodes := nodes + [node];
    }

    method LinkBefore(n: Node<T>, node: Node<T>, ghost at: nat)
      requires Linked() && node !in nodes && at < |nodes| && nodes[at] == n
      modifies this`head, this`count, this`nodes, node`next, node`prev, nodes`next, nodes`prev
      ensures Linked() && nodes == With(old(nodes), at, node)
    {
      Splice(n, node, at);
      ghost var was := nodes;
      hide Linked, With;
      count := count + 1;
      nodes := With(nodes, at, node);
      Relinked(was, node, at);
    }

    /** The pointers of `LinkBefore`. */
    method Splice(n: Node<T>, node: Node<T>, ghost at: nat)
      requires Linked() && node !in nodes && at < |nodes| && nodes[at] == n
      modifies this`head, node`next, node`prev, nodes`next, nodes`prev
      ensures Spliced(nodes, node, at) && count == |nodes|
    {
      assert at > 0 ==> n.prev == nodes[at - 1];
      node.next := n;
      node.prev := n.prev;
      if n.prev != null {
        n.prev.next := node;
      } else {
        head := node;
      }
      n.prev := node;
    }

    /** The chain of the nodes, with one more node before the one at a place. */
    ghost predicate Spliced(was: seq<Node<T>>, node: Node<T>, at: nat)
      reads this`head, this`tail, node, was
    {
      && at < |was| && node !in was && (forall i, j :: 0 <= i < j < |was| ==> was[i] != was[j])
      && tail == was[|was| - 1] && tail.next == null
      && node.next == was[at] && was[at].prev == node
      && (if at == 0 then head == node && node.prev == null
          else head == was[0] && head.prev == null && node.prev == was[at - 1] && was[at - 1].next == node)
      && (forall i, j :: 0 <= i < |was| && j == i + 1 && j < |was| && j != at ==>
            was[i].next == was[j] && was[j].prev == was[i])
    }

    lemma Relinked(was: seq<Node<T>>, node: Node<T>, at: nat)
      requires Spliced(was, node, at) && nodes == With(was, at, node) && count == |nodes|
      ensures Linked()
    {}

    method LinkAfter(n: Node<T>, node: Node<T>, ghost at: nat)
      requires Linked() && node !in nodes && at < |nodes| && nodes[at] == n
      modifies this`tail, this`count, this`nodes, node`next, node`prev, nodes`next, nodes`prev
      ensures Linked() && nodes == old(nodes)[..at + 1] + [node] + old(nodes)[at + 1..]
    {
      assert at + 1 < |nodes| ==> n.next == nodes[at + 1];
      node.prev := n;
      if n.next == null {
        tail := node;
      } else {
        n.next.prev := node;
      }
      node.next := n.next;
      n.next := node;
      count := count + 1;
      nodes := nodes[..at + 1] + [node] + nodes[at + 1..];
    }

    method Unlink(node: Node<T>, ghost at: nat)
      requires Linked() && at < |nodes| && nodes[at] == node
      modifies this`head, this`tail, this`count, this`nodes, nodes`next, nodes`prev
      ensures Linked() && nodes == old(nodes)[..at] + old(nodes)[at + 1..]
    {
      assert at > 0 ==> node.prev == nodes[at - 1];
      assert at + 1 < |nodes| ==> node.next == nodes[at + 1];
      if node.prev != null {
        node.prev.next := node.next;
      } else {
        head := node.next;
      }
      if node.next != null {
        node.next.prev := node.prev;
      } else {
        tail := node.prev;
      }
      count := count - 1;
      nodes := nodes[..at] + nodes[at + 1..];
    }

    // ---------- Adding ----------

    /** What the lists hold afterwards, they held before or is new. */
    twostate predicate Grown()
      reads this`nodes
    {
      forall i :: 0 <= i < |nodes| ==> nodes[i] in old(nodes) || fresh(nodes[i])
    }

    /** The scan of listnode_add_sort. */
    method FindGreater(compare: (T, T) -> int, val: T) returns (n: Node?<T>, ghost at: nat)
      requires Valid()
      ensures CursorAt(at, n) && at == Place(compare, items, val)
    {
      AtHead();
      n, at := head, 0;
      while n != null
        invariant CursorAt(at, n)
        invariant forall i :: 0 <= i < at ==> compare(val, items[i]) >= 0
        decreases |nodes| - at
      {
        if compare(val, n.data) < 0 {
          break;
        }
        AtNext(at);
        n, at := n.next, at + 1;
      }
    }

    /** listnode_add_sort; the new node is linked in before another as list_add_node_prev does it. */
    method AddSort(val: T)
      requires Valid()
      modifies this, nodes
      ensures Valid() && Grown() && items == Added(cmp, old(items), val)
    {
      hide Linked, Place;
      if cmp.Some? {
        var n, at := FindGreater(cmp.value, val);
        if n != null {
          AddNodePrev(n, val, at);
          return;
        }
      }
      AddLast(val);
    }

    method AddLast(val: T)
      requires Valid()
      modifies this, nodes
      ensures Valid() && Grown() && items == With(old(items), |old(items)|, val)
    {
      hide Linked;
      var node := new Node(val);
      LinkLast(node);
      items := items + [val];
    }

    /** list_add_node_prev */
    method AddNodePrev(current: Node<T>, val: T, ghost at: nat)
      requires Valid() && at < |nodes| && nodes[at] == current
      modifies this, nodes
      ensures Valid() && Grown() && items == With(old(items), at, val)
    {
      hide Linked;
      var node := new Node(val);
      LinkBefore(current, node, at);
      items := With(items, at, val);
    }

    /** list_add_node_next */
    method AddNodeNext(current: Node<T>, val: T, ghost at: nat)
      requires Valid() && at < |nodes| && nodes[at] == current
      modifies this, nodes
      ensures Valid() && Grown() && items == With(old(items), at + 1, val)
    {
      hide Linked;
      var node := new Node(val);
      LinkAfter(current, node, at);
      items := With(items, at + 1, val);
    }

    /** No node is on both lists. */
    ghost predicate Apart(m: List<T>)
      reads this`nodes, m`nodes
    {
      forall i, j :: 0 <= i < |nodes| && 0 <= j < |m.nodes| ==> nodes[i] != m.nodes[j]
    }

    /** list_add_list */
    method AddList(m: List<T>)
      requires Valid() && m.Valid() && m != this
      requires Apart(m)
      modifies this, nodes
      ensures Valid() && Grown() && items == AddedAll(cmp, old(items), m.items)
      ensures m.Valid() && m.nodes == old(m.nodes) && m.items == old(m.items)
    {
      hide Linked, Added;
      m.AtHead();
      ghost var at := 0;
      var n := m.head;
      assert m.items[0..] == m.items;
      while n != null
        invariant Valid() && Grown() && m.Valid() && m.CursorAt(at, n)
        invariant Apart(m)
        invariant AddedAll(cmp, old(items), m.items) == AddedAll(cmp, items, m.items[at..])
        decreases |m.nodes| - at
      {
        assert m.items[at..][1..] == m.items[at + 1..];
        AddSort(n.data);
        m.AtNext(at);
        n, at := n.next, at + 1;
      }
      assert m.items[at..] == [];
    }

    // ---------- Deleting ----------

    /** list_delete_node */
    method DeleteNode(node: Node<T>, ghost at: nat)
      requires Valid() && at < |nodes| && nodes[at] == node
      modifies this, nodes
      ensures Valid() && nodes == Without(old(nodes), at) && items == Without(old(items), at)
    {
      hide Linked;
      Unlink(node, at);
      items := Without(items, at);
    }

    /** listnode_lookup */
    method Lookup(data: T) returns (node: Node?<T>, ghost at: nat)
      requires Valid()
      ensures CursorAt(at, node) && at == Find(items, data)
      ensures var n := Find(items, data); node == if n < |nodes| then nodes[n] else null
    {
      AtHead();
      node, at := head, 0;
      while node != null
        invariant CursorAt(at, node)
        invariant forall i :: 0 <= i < at ==> items[i] != data
        decreases |nodes| - at
      {
        if data == node.data {
          return;
        }
        AtNext(at);
        node, at := node.next, at + 1;
      }
    }

    /** listnode_delete */
    method Delete(val: T)
      requires Valid()
      modifies this, nodes
      ensures Valid() && items == Deleted(old(items), val)
      ensures forall i :: 0 <= i < |nodes| ==> nodes[i] in old(nodes)
    {
      hide Linked, Find;
      var node, at := Lookup(val);
      if node != null {
        DeleteNode(node, at);
      }
    }

    /** listnode_head */
    method Head() returns (data: Option<T>)
      requires Valid()
      ensures data == if items == [] then None else Some(items[0])
    {
      AtHead();
      if head == null {
        return None;
      }
      return Some(head.data);
    }
  }
}
