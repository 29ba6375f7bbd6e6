/** What sorted insertion keeps, for every comparison that orders its values. */
module SortedLists {
  import opened Options
  import opened Seqs
  import opened LinkLists

  /** The comparison is one of a total preorder. */
  ghost predicate Orders<T(!new)>(cmp: (T, T) -> int) {
    && (forall a, b :: cmp(a, b) < 0 <==> cmp(b, a) > 0)
    && (forall a, b, c :: cmp(a, b) <= 0 && cmp(b, c) <= 0 ==> cmp(a, c) <= 0)
  }

  lemma Flip<T(!new)>(cmp: (T, T) -> int, a: T, b: T)
    requires Orders(cmp)
    ensures (cmp(a, b) < 0 <==> cmp(b, a) > 0) && (cmp(a, b) == 0 <==> cmp(b, a) == 0)
  {
    assert cmp(b, a) < 0 <==> cmp(a, b) > 0;
  }

  lemma Trans<T(!new)>(cmp: (T, T) -> int, a: T, b: T, c: T)
    requires Orders(cmp) && cmp(a, b) <= 0 && cmp(b, c) <= 0
    ensures cmp(a, c) <= 0
    ensures cmp(a, b) < 0 || cmp(b, c) < 0 ==> cmp(a, c) < 0
  {
    Flip(cmp, a, c);
    if cmp(a, c) == 0 {
      assert cmp(b, a) <= 0 && cmp(c, b) <= 0;
    }
  }

  predicate SortedBy<T>(cmp: (T, T) -> int, items: seq<T>) {
    forall i, j :: 0 <= i < j < |items| ==> cmp(items[i], items[j]) <= 0
  }

  /** The values that compare equal to a key, in order. */
  function EqualTo<T>(cmp: (T, T) -> int, items: seq<T>, key: T): (r: seq<T>)
  {
    if items == [] then []
    else (if cmp(key, items[0]) == 0 then [items[0]] else []) + EqualTo(cmp, items[1..], key)
  }

  lemma AddedFront<T>(cmp: (T, T) -> int, items: seq<T>, val: T)
    ensures Added(Some(cmp), items, val) ==
      if items == [] || cmp(val, items[0]) < 0 then [val] + items
      else [items[0]] + Added(Some(cmp), items[1..], val)
  {
    if items != [] && cmp(val, items[0]) >= 0 {
      var n := Place(cmp, items[1..], val);
      assert Place(cmp, items, val) == 1 + n;
      hide Place;
      assert items[..1 + n] == [items[0]] + items[1..][..n];
    }
  }

  /** Without a comparison a value is added at the tail. */
  lemma AddedAtTail<T>(items: seq<T>, val: T)
    ensures Added(None, items, val) == items + [val]
  {}

  lemma {:induction false} AddedMembers<T>(cmp: (T, T) -> int, items: seq<T>, val: T)
    ensures multiset(Added(Some(cmp), items, val)) == multiset(items) + multiset{val}
  {
    var n := Place(cmp, items, val);
    assert items == items[..n] + items[n..];
  }

  /** Main result: sorted insertion keeps the list sorted and puts the value after every value it
      compares equal to and before every greater one. */
  lemma AddedSorted<T(!new)>(cmp: (T, T) -> int, items: seq<T>, val: T)
    requires Orders(cmp) && SortedBy(cmp, items)
    ensures SortedBy(cmp, Added(Some(cmp), items, val))
    ensures forall i :: 0 <= i < |items| ==> (i < Place(cmp, items, val) <==> cmp(items[i], val) <= 0)
  {
    hide Orders, Place;
    var n, r := Place(cmp, items, val), Added(Some(cmp), items, val);
    forall i | 0 <= i < |items| ensures i < n <==> cmp(items[i], val) <= 0 {
      PlaceParts(cmp, items, val, i);
    }
    forall i, j | 0 <= i < j < |r| ensures cmp(r[i], r[j]) <= 0 {
      if j == n { PlaceParts(cmp, items, val, i); }
      if i == n { PlaceParts(cmp, items, val, j - 1); }
    }
  }

  lemma PlaceParts<T(!new)>(cmp: (T, T) -> int, items: seq<T>, val: T, i: nat)
    requires Orders(cmp) && SortedBy(cmp, items) && i < |items|
    ensures if i < Place(cmp, items, val) then cmp(items[i], val) <= 0 else cmp(val, items[i]) < 0 && cmp(items[i], val) > 0
  {
    hide Orders, Place;
    var n := Place(cmp, items, val);
    Flip(cmp, items[i], val);
    if n < i {
      Trans(cmp, val, items[n], items[i]);
      Flip(cmp, val, items[i]);
    }
  }

  /** Insertion is stable: among equal values the new one comes last. */
  lemma {:induction false} AddedStable<T(!new)>(cmp: (T, T) -> int, items: seq<T>, val: T, key: T)
    requires Orders(cmp) && SortedBy(cmp, items)
    ensures EqualTo(cmp, Added(Some(cmp), items, val), key)
      == EqualTo(cmp, items, key) + if cmp(key, val) == 0 then [val] else []
  {
    hide Orders, Added;
    AddedFront(cmp, items, val);
    if items == [] {
      EqualFront(cmp, val, items, key);
    } else {
      if cmp(val, items[0]) < 0 {
        if cmp(key, val) == 0 { NoneEqual(cmp, items, val, key); }
        EqualFront(cmp, val, items, key);
      } else {
        AddedStable(cmp, items[1..], val, key);
        EqualFront(cmp, items[0], Added(Some(cmp), items[1..], val), key);
      }
    }
  }

  lemma EqualFront<T>(cmp: (T, T) -> int, first: T, rest: seq<T>, key: T)
    ensures EqualTo(cmp, [first] + rest, key) == (if cmp(key, first) == 0 then [first] else []) + EqualTo(cmp, rest, key)
  {
    assert ([first] + rest)[1..] == rest;
  }

  lemma {:induction false} NoneEqual<T(!new)>(cmp: (T, T) -> int, items: seq<T>, val: T, key: T)
    requires Orders(cmp) && SortedBy(cmp, items) && cmp(key, val) == 0
    requires items != [] && cmp(val, items[0]) < 0
    ensures EqualTo(cmp, items, key) == []
  {
    hide Orders;
    Trans(cmp, key, val, items[0]);
    if |items| > 1 {
      Trans(cmp, val, items[0], items[1]);
      NoneEqual(cmp, items[1..], val, key);
    }
  }

  lemma AddedAllFront<T>(cmp: Option<(T, T) -> int>, items: seq<T>, more: seq<T>)
    requires more != []
    ensures AddedAll(cmp, items, more) == AddedAll(cmp, Added(cmp, items, more[0]), more[1..])
  {}

  /** Main result: adding the entries of another list merges it in, stably: the result is sorted,
      holds the entries of both, and those that compare equal keep their order, the list's own first. */
  lemma {:induction false} AddedAllMerges<T(!new)>(cmp: (T, T) -> int, items: seq<T>, more: seq<T>, key: T)
    requires Orders(cmp) && SortedBy(cmp, items)
    ensures var r := AddedAll(Some(cmp), items, more);
      && SortedBy(cmp, r)
      && multiset(r) == multiset(items) + multiset(more)
      && EqualTo(cmp, r, key) == EqualTo(cmp, items, key) + EqualTo(cmp, more, key)
    decreases |more|
  {
    hide Orders, SortedBy, Added, AddedAll, EqualTo;
    if more == [] {
      assert AddedAll(Some(cmp), items, more) == items && EqualTo(cmp, more, key) == [] by { AddedNone(cmp, items, key); }
    } else {
      AddedAllFront(Some(cmp), items, more);
      assert more == [more[0]] + more[1..];
      EqualFront(cmp, more[0], more[1..], key);
      AddedSorted(cmp, items, more[0]);
      AddedStable(cmp, items, more[0], key);
      AddedMembers(cmp, items, more[0]);
      AddedAllMerges(cmp, Added(Some(cmp), items, more[0]), more[1..], key);
      assert multiset(more) == multiset{more[0]} + multiset(more[1..]);
    }
  }

  lemma AddedNone<T>(cmp: (T, T) -> int, items: seq<T>, key: T)
    ensures AddedAll(Some(cmp), items, []) == items && EqualTo(cmp, [], key) == []
  {}

  /** A sorted list is determined by its groups of equal values: there is one stable merge. */
  lemma {:induction false} GroupsDetermine<T(!new)>(cmp: (T, T) -> int, a: seq<T>, b: seq<T>)
    requires Orders(cmp) && SortedBy(cmp, a) && SortedBy(cmp, b)
    requires SameGroups(cmp, a, b)
    ensures a == b
  {
    NoGroups(cmp, a, b);
    hide Orders, SortedBy, EqualTo, SameGroups;
    if a != [] && b != [] {
      SameHead(cmp, a, b);
      SameGroupsRest(cmp, a[0], a[1..], b[1..]) by {
        assert a == [a[0]] + a[1..] && b == [a[0]] + b[1..];
      }
      SortedRest(cmp, a);
      SortedRest(cmp, b);
      GroupsDetermine(cmp, a[1..], b[1..]);
      assert a == [a[0]] + a[1..] && b == [b[0]] + b[1..];
    }
  }

  ghost predicate SameGroups<T(!new)>(cmp: (T, T) -> int, a: seq<T>, b: seq<T>) {
    forall key :: EqualTo(cmp, a, key) == EqualTo(cmp, b, key)
  }

  lemma NoGroups<T(!new)>(cmp: (T, T) -> int, a: seq<T>, b: seq<T>)
    requires Orders(cmp) && SameGroups(cmp, a, b)
    ensures a == [] <==> b == []
  {
    hide Orders;
    if a != [] { HasItself(cmp, a); }
    if b != [] { HasItself(cmp, b); }
  }

  lemma SortedRest<T>(cmp: (T, T) -> int, a: seq<T>)
    requires SortedBy(cmp, a) && a != []
    ensures SortedBy(cmp, a[1..])
  {}

  lemma SameGroupsRest<T(!new)>(cmp: (T, T) -> int, first: T, a: seq<T>, b: seq<T>)
    requires SameGroups(cmp, [first] + a, [first] + b)
    ensures SameGroups(cmp, a, b)
  {
    forall key ensures EqualTo(cmp, a, key) == EqualTo(cmp, b, key) {
      EqualRest(cmp, first, a, b, key);
    }
  }

  lemma EqualRest<T(!new)>(cmp: (T, T) -> int, first: T, a: seq<T>, b: seq<T>, key: T)
    requires EqualTo(cmp, [first] + a, key) == EqualTo(cmp, [first] + b, key)
    ensures EqualTo(cmp, a, key) == EqualTo(cmp, b, key)
  {
    EqualFront(cmp, first, a, key);
    EqualFront(cmp, first, b, key);
    hide EqualTo;
    var f := if cmp(key, first) == 0 then [first] else [];
    var x, y := EqualTo(cmp, a, key), EqualTo(cmp, b, key);
    assert (f + x)[|f|..] == x && (f + y)[|f|..] == y;
  }

  lemma HasItself<T(!new)>(cmp: (T, T) -> int, a: seq<T>)
    requires Orders(cmp) && a != []
    ensures EqualTo(cmp, a, a[0]) != [] && EqualTo(cmp, a, a[0])[0] == a[0]
  {
    hide Orders;
    Flip(cmp, a[0], a[0]);
  }

  lemma SameHead<T(!new)>(cmp: (T, T) -> int, a: seq<T>, b: seq<T>)
    requires Orders(cmp) && SortedBy(cmp, a) && SortedBy(cmp, b) && a != [] && b != []
    requires SameGroups(cmp, a, b)
    ensures a[0] == b[0]
  {
    hide Orders, SortedBy, EqualTo;
    HasItself(cmp, a);
    HasItself(cmp, b);
    NotBefore(cmp, a, b[0]);
    NotBefore(cmp, b, a[0]);
    Flip(cmp, a[0], b[0]);
    EqualFront(cmp, b[0], b[1..], a[0]);
    assert b == [b[0]] + b[1..];
  }

  /** The head of a sorted list is not after a key that has equals in it. */
  lemma {:induction false} NotBefore<T(!new)>(cmp: (T, T) -> int, a: seq<T>, key: T)
    requires Orders(cmp) && SortedBy(cmp, a) && EqualTo(cmp, a, key) != []
    ensures a != [] && cmp(a[0], key) <= 0
  {
    hide Orders;
    Flip(cmp, key, a[0]);
    if cmp(key, a[0]) != 0 {
      NotBefore(cmp, a[1..], key);
      Trans(cmp, a[0], a[1], key);
    }
  }

  // ---------- Undoing ----------

  lemma {:induction false} FindFirst<T>(items: seq<T>, val: T, n: nat)
    requires n < |items| && items[n] == val && forall i :: 0 <= i < n ==> items[i] != val
    ensures Find(items, val) == n
  {
    if n > 0 { FindFirst(items[1..], val, n - 1); }
  }

  /** listnode_delete takes out what listnode_add_sort put in, when it was not there before. */
  lemma DeleteUndoesAdd<T>(cmp: Option<(T, T) -> int>, items: seq<T>, val: T)
    requires val !in items
    ensures Deleted(Added(cmp, items, val), val) == items
  {
    var n := if cmp.None? then |items| else Place(cmp.value, items, val);
    hide Place, Find;
    FindFirst(With(items, n, val), val, n);
    WithoutWith(items, n, val);
  }
}
