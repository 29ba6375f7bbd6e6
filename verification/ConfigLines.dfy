/** The sorted lines of vtysh_config.c. */
module ConfigLines {
  import opened Options
  import opened Seqs
  import opened CText
  import opened LinkLists
  import opened SortedLists

  /** The sign of strcmp(). */
  function Strcmp(a: string, b: string): int {
    if a == b then 0 else if Less(a, b) then -1 else 1
  }

  const LINE_CMP: Option<(string, string) -> int> := Some(Strcmp)

  // ---------- strcmp() orders strings ----------

  lemma {:induction false} LessIrreflexive(a: string)
    ensures !Less(a, a)
  {
    if a != [] { LessIrreflexive(a[1..]); }
  }

  lemma {:induction false} LessConnects(a: string, b: string)
    requires a != b
    ensures Less(a, b) != Less(b, a)
  {
    if a != [] && b != [] && a[0] == b[0] {
      assert a == [a[0]] + a[1..] && b == [b[0]] + b[1..];
      LessConnects(a[1..], b[1..]);
    }
  }

  lemma {:induction false} LessTransitive(a: string, b: string, c: string)
    requires Less(a, b) && Less(b, c)
    ensures Less(a, c)
  {
    if a != [] && a[0] == b[0] == c[0] { LessTransitive(a[1..], b[1..], c[1..]); }
  }

  /** Strings are totally ordered (and only equal ones compare equal). */
  lemma StrcmpOrders()
    ensures Orders(Strcmp)
  {
    hide Less;
    forall a, b ensures Strcmp(a, b) < 0 <==> Strcmp(b, a) > 0 {
      if a != b { LessConnects(a, b); }
    }
    forall a, b, c | Strcmp(a, b) <= 0 && Strcmp(b, c) <= 0 ensures Strcmp(a, c) <= 0 {
      if a != b && b != c { LessTransitive(a, b, c); }
    }
  }

  /** The first different character decides, and a beginning comes before what continues it. */
  lemma {:induction false} StrcmpDirection(p: string, x: char, s: string, y: char, t: string)
    requires x < y
    ensures Strcmp(p + [x] + s, p + [y] + t) < 0 && Strcmp(p, p + [x] + s) < 0
  {
    var a, b := p + [x] + s, p + [y] + t;
    assert |a| > |p| && a[|p|] == x && b[|p|] == y;
    DirectionFrom(p, a, b);
  }

  lemma {:induction false} DirectionFrom(p: string, a: string, b: string)
    requires p <= a && p <= b && |p| < |a| && |p| < |b| && a[|p|] < b[|p|]
    ensures Less(a, b) && Less(p, a)
  {
    if p != [] { DirectionFrom(p[1..], a[1..], b[1..]); }
  }

  // ---------- The operations on the lines ----------

  /** config_add_line of the text that the format makes; an empty one is not added. */
  function LineAdded(items: seq<string>, info: string): seq<string> {
    if info == "" then items else Added(LINE_CMP, items, info)
  }

  /** The first line that begins with the text, or the number of lines: strncmp() over strlen(). */
  function FirstLeft(items: seq<string>, line: string): (n: nat)
    ensures n <= |items|
    ensures forall i :: 0 <= i < n ==> !(line <= items[i])
    ensures n < |items| ==> line <= items[n]
  {
    if items == [] || line <= items[0] then 0 else 1 + FirstLeft(items[1..], line)
  }

  function LeftDeleted(items: seq<string>, line: string): seq<string> {
    var n := FirstLeft(items, line);
    if n < |items| then Without(items, n) else items
  }

  method ConfigAddLine(config: List<string>, info: string)
    requires config.Valid() && config.cmp == LINE_CMP
    modifies config, config.nodes
    ensures config.Valid() && config.Grown() && config.items == LineAdded(old(config.items), info)
  {
    if |info| > 0 {
      config.AddSort(info);
    }
  }

  method ConfigDelLine(config: List<string>, line: string)
    requires config.Valid()
    modifies config, config.nodes
    ensures config.Valid() && config.items == Deleted(old(config.items), line)
    ensures forall i :: 0 <= i < |config.nodes| ==> config.nodes[i] in old(config.nodes)
  {
    config.AtHead();
    var nn := config.head;
    ghost var at := 0;
    while nn != null
      invariant config.Valid() && config.CursorAt(at, nn)
      invariant config.items == old(config.items) && config.nodes == old(config.nodes)
      invariant forall i :: 0 <= i < at ==> config.items[i] != line
      decreases |config.nodes| - at
    {
      var pnt := nn.data;
      if pnt == line {
        config.Delete(pnt);
        return;
      }
      config.AtNext(at);
      nn, at := nn.next, at + 1;
    }
  }

  method ConfigDelLineByLeft(config: List<string>, line: string)
    requires config.Valid()
    modifies config, config.nodes
    ensures config.Valid() && config.items == LeftDeleted(old(config.items), line)
    ensures forall i :: 0 <= i < |config.nodes| ==> config.nodes[i] in old(config.nodes)
  {
    hide List.Linked, FirstLeft;
    var found, at := ConfigFindByLeft(config, line);
    if found.Some? {
      FirstLeftIsFind(config.items, line);
      config.Delete(found.value);
    }
  }

  /** The common scan of config_del_line_byleft and config_get_line_byleft. */
  method ConfigFindByLeft(config: List<string>, line: string) returns (pnt: Option<string>, ghost at: nat)
    requires config.Valid()
    ensures at == FirstLeft(config.items, line)
    ensures var n := FirstLeft(config.items, line);
      pnt == if n < |config.items| then Some(config.items[n]) else None
  {
    config.AtHead();
    var nn := config.head;
    at := 0;
    while nn != null
      invariant config.CursorAt(at, nn)
      invariant forall i :: 0 <= i < at ==> !(line <= config.items[i])
      decreases |config.nodes| - at
    {
      if line <= nn.data {
        return Some(nn.data), at;
      }
      config.AtNext(at);
      nn, at := nn.next, at + 1;
    }
    return None, at;
  }

  method ConfigGetLineByLeft(config: List<string>, line: string) returns (pnt: Option<string>)
    requires config.Valid()
    ensures var n := FirstLeft(config.items, line);
      pnt == if n < |config.items| then Some(config.items[n]) else None
  {
    hide List.Valid, FirstLeft;
    ghost var at;
    pnt, at := ConfigFindByLeft(config, line);
  }

  /** The first line with a beginning is also the first of its own text. */
  lemma FirstLeftIsFind(items: seq<string>, line: string)
    ensures var n := FirstLeft(items, line); n < |items| ==> Find(items, items[n]) == n
  {
    hide FirstLeft, Find;
    var n := FirstLeft(items, line);
    if n < |items| { FindFirst(items, items[n], n); }
  }

  // ---------- Properties ----------

  lemma WithoutSorted(items: seq<string>, n: nat)
    requires SortedBy(Strcmp, items) && n < |items|
    ensures SortedBy(Strcmp, Without(items, n))
  {
    hide Strcmp;
    var r := Without(items, n);
    assert forall i :: 0 <= i < |r| ==> r[i] == items[if i < n then i else i + 1];
  }

  /** The lines stay sorted. */
  lemma LinesStaySorted(items: seq<string>, line: string)
    requires SortedBy(Strcmp, items)
    ensures SortedBy(Strcmp, LineAdded(items, line))
    ensures SortedBy(Strcmp, Deleted(items, line)) && SortedBy(Strcmp, LeftDeleted(items, line))
  {
    hide Orders, Strcmp, Find, FirstLeft, Added, SortedBy, Without;
    StrcmpOrders();
    AddedSorted(Strcmp, items, line);
    if Find(items, line) < |items| { WithoutSorted(items, Find(items, line)); }
    if FirstLeft(items, line) < |items| { WithoutSorted(items, FirstLeft(items, line)); }
  }

  /** Adding adds that line and nothing else, but no empty one; deleting takes away one such line. */
  lemma LinesCounted(items: seq<string>, line: string)
    ensures multiset(LineAdded(items, line)) == multiset(items) + if line == "" then multiset{} else multiset{line}
    ensures multiset(Deleted(items, line)) == multiset(items) - multiset{line}
  {
    hide Place, Find, Strcmp, Added, Without;
    AddedMembers(Strcmp, items, line);
    var n := Find(items, line);
    if n < |items| { WithoutOne(items, n); }
  }

  /** Deleting by a beginning takes away one line that has it, if there is one. */
  lemma LeftCounted(items: seq<string>, line: string) returns (n: nat)
    ensures n == |items| ==> LeftDeleted(items, line) == items && forall k :: 0 <= k < |items| ==> !(line <= items[k])
    ensures n < |items| ==> line <= items[n] && multiset(LeftDeleted(items, line)) == multiset(items) - multiset{items[n]}
    ensures n <= |items|
  {
    hide FirstLeft, Without;
    n := FirstLeft(items, line);
    if n < |items| { WithoutOne(items, n); }
  }

  lemma WithoutOne(items: seq<string>, n: nat)
    requires n < |items|
    ensures multiset(Without(items, n)) == multiset(items) - multiset{items[n]}
  {
    assert items == items[..n] + [items[n]] + items[n + 1..];
  }

  /** Main result: deleting a line undoes adding it, even when the same line was there before. */
  lemma DelUndoesAdd(items: seq<string>, line: string)
    requires SortedBy(Strcmp, items) && line != ""
    ensures Deleted(LineAdded(items, line), line) == items
  {
    hide Orders, Place, Find, SortedBy, Strcmp;
    var n, m := Place(Strcmp, items, line), Find(items, line);
    var added := With(items, n, line);
    assert LineAdded(items, line) == added;
    var first := if m < n then m else n;
    forall i | m <= i < n ensures items[i] == line { BetweenEqual(items, line, m, i); }
    assert added[first] == line && forall i :: 0 <= i < first ==> added[i] != line;
    FindFirst(added, line, first);
    assert Without(added, first) == items;
  }

  /** Whatever stands between a line and the place of the same line is that line. */
  lemma BetweenEqual(items: seq<string>, line: string, m: nat, i: nat)
    requires SortedBy(Strcmp, items) && m <= i < |items| && items[m] == line && i < Place(Strcmp, items, line)
    ensures items[i] == line
  {
    hide Orders, Place, Less;
    StrcmpOrders();
    AddedSorted(Strcmp, items, line);
    assert Strcmp(items[i], line) <= 0;
    if m < i {
      assert Strcmp(items[m], items[i]) <= 0;
      Flip(Strcmp, line, items[i]);
    }
  }

  /** Main result: what config_get_line_byleft finds is the least line with the beginning. */
  lemma ByLeftFindsLeast(items: seq<string>, line: string, k: nat)
    requires SortedBy(Strcmp, items) && k < |items| && line <= items[k]
    ensures FirstLeft(items, line) <= k && Strcmp(items[FirstLeft(items, line)], items[k]) <= 0
  {
    hide FirstLeft, Less;
    var n := FirstLeft(items, line);
    if n < k { assert Strcmp(items[n], items[k]) <= 0; }
  }

  lemma {:induction false} BetweenBeginnings(a: string, b: string, c: string, line: string)
    requires line <= a && line <= c && !Less(b, a) && !Less(c, b)
    ensures line <= b
  {
    if line != [] && b != [] && b[0] == a[0] {
      BetweenBeginnings(a[1..], b[1..], c[1..], line[1..]);
    }
  }

  /** Main result: the lines with a common beginning stand together, so that deleting by that
      beginning again and again removes one block. */
  lemma BeginningsAreABlock(items: seq<string>, line: string, i: nat, j: nat, k: nat)
    requires SortedBy(Strcmp, items) && i <= j <= k < |items|
    requires line <= items[i] && line <= items[k]
    ensures line <= items[j]
  {
    if i < j < k {
      assert Strcmp(items[i], items[j]) <= 0 && Strcmp(items[j], items[k]) <= 0;
      hide Less;
      NotGreater(items[i], items[j]);
      NotGreater(items[j], items[k]);
      BetweenBeginnings(items[i], items[j], items[k], line);
    }
  }

  lemma NotGreater(a: string, b: string)
    requires Strcmp(a, b) <= 0
    ensures !Less(b, a)
  {
    hide Less;
    if a == b { LessIrreflexive(a); } else { LessConnects(a, b); }
  }
}
