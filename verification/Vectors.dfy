/** vector.c: a growing array of pointers. A NULL pointer is `None`; the abstract value of a
    vector is the sequence of its slots below `max`. */
module Vectors {
  import opened Options

  /** Indices are unsigned ints; doubling an allocation of less than 2^31 slots cannot wrap. */
  const INDEX_LIMIT: nat := 0x8000_0000

  /** The allocation after vector_ensure: doubled until slot `num` exists. */
  function Grown(alloced: nat, num: nat): (r: nat)
    requires alloced > 0
    ensures r > num && r >= alloced
    ensures r == alloced || r <= 2 * num
    decreases num - alloced
  {
    if alloced > num then alloced else Grown(2 * alloced, num)
  }

  /** The position of the first NULL slot, or the length. */
  function FirstEmpty<T>(s: seq<Option<T>>): (n: nat)
    ensures n <= |s|
    ensures forall i :: 0 <= i < n ==> s[i].Some?
    ensures n < |s| ==> s[n] == None
  {
    if s == [] || s[0] == None then 0 else 1 + FirstEmpty(s[1..])
  }

  /** The slots after storing `val` at `i`; the gap, if there is one, is NULL. */
  function Stored<T>(s: seq<Option<T>>, i: nat, val: Option<T>): (r: seq<Option<T>>)
    ensures |r| == if i < |s| then |s| else i + 1
    ensures r[i] == val
    ensures forall k :: 0 <= k < |r| && k != i ==> r[k] == if k < |s| then s[k] else None
  {
    if i < |s| then s[i := val] else s + seq(i - |s|, _ => None) + [val]
  }

  /** The slots without the NULL slots at the end. */
  function Trimmed<T>(s: seq<Option<T>>): (r: seq<Option<T>>)
    ensures r <= s && (r == [] || r[|r| - 1].Some?)
    ensures forall k :: |r| <= k < |s| ==> s[k] == None
  {
    if s != [] && s[|s| - 1] == None then Trimmed(s[..|s| - 1]) else s
  }

  lemma {:induction false} TrimmedAt<T>(s: seq<Option<T>>, n: nat)
    requires n <= |s| && forall k :: n <= k < |s| ==> s[k] == None
    requires n > 0 ==> s[n - 1] != None
    ensures Trimmed(s) == s[..n]
  {
    if n < |s| {
      TrimmedAt(s[..|s| - 1], n);
      assert s[..|s| - 1][..n] == s[..n];
    } else {
      assert s[..n] == s;
    }
  }

  function NonEmpty<T>(s: seq<Option<T>>): (n: nat)
    ensures n <= |s|
  {
    if s == [] then 0 else NonEmpty(s[..|s| - 1]) + if s[|s| - 1].Some? then 1 else 0
  }

  class Vector<T(==)> {
    var max: nat
    var alloced: nat
    var index: array<Option<T>>

    ghost predicate Valid()
      reads this, index
    {
      && 0 < alloced == index.Length
      && max <= alloced
      && forall i :: max <= i < alloced ==> index[i] == None
    }

    function Slots(): (s: seq<Option<T>>)
      requires max <= index.Length
      reads this, index
      ensures |s| == max
    {
      index[..max]
    }

    /** vector_init */
    constructor (size: nat)
      ensures Valid() && fresh(index)
      ensures Slots() == [] && alloced == if size == 0 then 1 else size
    {
      var n := if size == 0 then 1 else size;
      alloced := n;
      max := 0;
      index := new Option<T>[n](_ => None);
    }

    /** vector_copy */
    method Copy() returns (v: Vector<T>)
      requires Valid()
      ensures fresh(v) && fresh(v.index) && v.Valid()
      ensures v.Slots() == Slots() && v.alloced == alloced
    {
      v := new Vector<T>(alloced);
      v.max := max;
      forall i | 0 <= i < index.Length { v.index[i] := index[i]; }
    }

    /** vector_ensure */
    method Ensure(num: nat)
      requires Valid() && num < INDEX_LIMIT
      modifies this
      ensures Valid() && max == old(max) && Slots() == old(Slots())
      ensures alloced == Grown(old(alloced), num)
      ensures if num < old(alloced) then index == old(index) else fresh(index) && alloced <= 2 * num
      decreases num - alloced
    {
      if alloced > num { return; }
      var grown := new Option<T>[alloced * 2](_ => None);
      forall i | 0 <= i < alloced { grown[i] := index[i]; }
      ghost var slots := Slots();
      index := grown;
      alloced := alloced * 2;
      assert Slots() == slots;
      if alloced <= num { Ensure(num); }
    }

    /** vector_empty_slot */
    method EmptySlot() returns (i: nat)
      requires Valid()
      ensures i == FirstEmpty(Slots())
    {
      if max == 0 { return 0; }
      i := 0;
      while i < max
        invariant i <= max
        invariant FirstEmpty(Slots()) == i + FirstEmpty(Slots()[i..])
      {
        if index[i] == None { return; }
        assert Slots()[i..][1..] == Slots()[i + 1..];
        i := i + 1;
      }
    }

    /** vector_set */
    method Set(val: Option<T>) returns (i: nat)
      requires Valid() && max < INDEX_LIMIT
      modifies this, index
      ensures Valid() && (index == old(index) || fresh(index))
      ensures i == FirstEmpty(old(Slots())) && Slots() == Stored(old(Slots()), i, val)
    {
      i := EmptySlot();
      Ensure(i);
      index[i] := val;
      if max <= i { max := i + 1; }
    }

    /** vector_set_index */
    method SetIndex(i: nat, val: Option<T>)
      requires Valid() && i < INDEX_LIMIT
      modifies this, index
      ensures Valid() && (index == old(index) || fresh(index))
      ensures Slots() == Stored(old(Slots()), i, val)
    {
      Ensure(i);
      index[i] := val;
      if max <= i { max := i + 1; }
    }

    /** vector_lookup */
    method Lookup(i: nat) returns (val: Option<T>)
      requires Valid()
      ensures val == if i < |Slots()| then Slots()[i] else None
    {
      if i >= max { return None; }
      return index[i];
    }

    /** vector_lookup_ensure */
    method LookupEnsure(i: nat) returns (val: Option<T>)
      requires Valid() && i < INDEX_LIMIT
      modifies this
      ensures Valid() && Slots() == old(Slots()) && i < alloced
      ensures index == old(index) || fresh(index)
      ensures val == if i < |Slots()| then Slots()[i] else None
    {
      Ensure(i);
      return index[i];
    }

    /** vector_unset */
    method Unset(i: nat)
      requires Valid()
      modifies this, index
      ensures Valid() && index == old(index)
      ensures i + 1 == old(max) ==> Slots() == Trimmed(old(Slots())[..i])
      ensures i + 1 < old(max) ==> Slots() == old(Slots())[i := None]
      ensures i >= old(max) ==> Slots() == old(Slots())
    {
      hide Trimmed;
      if i >= alloced { return; }
      index[i] := None;
      if i + 1 == max {
        ghost var front := old(Slots())[..i];
        max := max - 1;
        var k := i;
        while k > 0 && index[k - 1] == None
          invariant k == max <= i && index == old(index) && alloced == old(alloced)
          invariant forall j :: k <= j < i ==> index[j] == None
          modifies this
        {
          k := k - 1;
          max := max - 1;
        }
        assert forall j :: 0 <= j < i ==> front[j] == index[j];
        assert Slots() == front[..k];
        TrimmedAt(front, k);
      }
    }

    /** vector_count */
    method Count() returns (count: nat)
      requires Valid()
      ensures count == NonEmpty(Slots())
    {
      count := 0;
      for i := 0 to max
        invariant count == NonEmpty(Slots()[..i])
      {
        assert Slots()[..i + 1][..i] == Slots()[..i];
        if index[i] != None { count := count + 1; }
      }
      assert Slots()[..max] == Slots();
    }
  }

  // ---------- Consequences ----------

  /** Storing in the least empty slot raises the number of used slots by one, and never moves or
      drops a value: a vector that is only filled by vector_set has no holes. */
  lemma StoreAtFirstEmpty<T>(s: seq<Option<T>>, val: Option<T>)
    ensures var r := Stored(s, FirstEmpty(s), val);
      && (forall k :: 0 <= k < |s| && s[k].Some? ==> r[k] == s[k])
      && ((forall k :: 0 <= k < |s| ==> s[k].Some?) ==> r == s + [val])
      && NonEmpty(r) == NonEmpty(s) + if val.Some? then 1 else 0
  {
    hide NonEmpty, FirstEmpty;
    var i := FirstEmpty(s);
    if i < |s| {
      NonEmptyUpdate(s, i, val);
    } else {
      NonEmptyAppend(s, val);
      assert Stored(s, i, val) == s + [val];
    }
  }

  lemma NonEmptyAppend<T>(s: seq<Option<T>>, val: Option<T>)
    ensures NonEmpty(s + [val]) == NonEmpty(s) + if val.Some? then 1 else 0
  {
    assert (s + [val])[..|s|] == s;
  }

  lemma {:induction false} NonEmptyUpdate<T>(s: seq<Option<T>>, i: nat, val: Option<T>)
    requires i < |s| && s[i] == None
    ensures NonEmpty(s[i := val]) == NonEmpty(s) + if val.Some? then 1 else 0
  {
    var n := |s| - 1;
    if i == n {
      assert s[i := val][..n] == s[..n];
    } else {
      NonEmptyUpdate(s[..n], i, val);
      assert s[i := val][..n] == s[..n][i := val];
    }
  }

  function Doubled(alloced: nat, times: nat): nat
    decreases times
  {
    if times == 0 then alloced else Doubled(2 * alloced, times - 1)
  }

  /** The allocation is doubled until it reaches slot `num` and not once more; starting below
      2^32 and looking for a slot below 2^31 it stays within 32 bits. */
  lemma {:induction false} GrownIsLeastDoubling(alloced: nat, num: nat) returns (times: nat)
    requires alloced > 0
    ensures Grown(alloced, num) == Doubled(alloced, times) > num
    ensures times > 0 ==> Doubled(alloced, times - 1) <= num
    ensures num < 0x8000_0000 && alloced < 0x1_0000_0000 ==> Grown(alloced, num) < 0x1_0000_0000
    ensures num < 0x8000_0000 <==> num < INDEX_LIMIT
    decreases num - alloced
  {
    times := 0;
    if alloced <= num {
      times := GrownIsLeastDoubling(2 * alloced, num);
      times := times + 1;
    }
  }
}
