/** The configuration of vtysh_config.c on the heap: a vector of sorted lists. */
module ConfigStore {
  import opened Options
  import opened CText
  import opened Vectors
  import opened LinkLists
  import opened SortedLists
  import opened ConfigLines
  import opened Configs
  import opened Dumps

  lemma StrictUnique(items: seq<Config>, i: nat, j: nat)
    requires StrictNames(items) && i < |items| && j < |items| && items[i].name == items[j].name
    ensures i == j
  {
    hide Less;
    LessIrreflexive(items[i].name);
  }

  /** The loop of config_get over a list, which goes on to the end. */
  method FindConfig(master: List<Config>, line: string) returns (config: Option<Config>)
    requires master.Valid() && StrictNames(master.items)
    ensures config == Named(master.items, line)
  {
    hide NameAt, StrictNames;
    master.AtHead();
    config := None;
    var nn := master.head;
    ghost var at := 0;
    ghost var n := NameAt(master.items, line);
    while nn != null
      invariant master.CursorAt(at, nn)
      invariant config == if n < at then Some(master.items[n]) else None
      decreases |master.nodes| - at
    {
      var configLoop := nn.data;
      if configLoop.name == line {
        if n < |master.items| { StrictUnique(master.items, n, at); }
        config := Some(configLoop);
      }
      master.AtNext(at);
      nn, at := nn.next, at + 1;
    }
  }

  // ---------- Printing ----------

  ghost function GroupOf(config: Config): Group
    reads config.line
  {
    Group(config.name, config.line.items)
  }

  ghost function GroupsOf(items: seq<Config>): (r: seq<Group>)
    reads set c | c in items :: c.line
    ensures |r| == |items| && forall i :: 0 <= i < |items| ==> r[i] == GroupOf(items[i])
  {
    if items == [] then [] else [GroupOf(items[0])] + GroupsOf(items[1..])
  }

  /** The sections in the order of their indices. */
  ghost function AllGroups(s: Sections): seq<Group>
    reads set i, k | 0 <= i < |s| && s[i].Some? && 0 <= k < |s[i].value| :: s[i].value[k].line
  {
    if s == [] then [] else (if s[0].None? then [] else GroupsOf(s[0].value)) + AllGroups(s[1..])
  }

  method DumpConfig(config: Config) returns (out: string)
    requires config.line.Valid()
    ensures out == GroupText(GroupOf(config))
  {
    hide Flat;
    NothingFlat();
    FlatOne(config.name);
    FlatOne("!");
    var lines := config.line;
    lines.AtHead();
    if lines.head == null {
      return "";
    }
    assert [config.name] + Indented(lines.items[..0]) == [config.name];
    out := config.name + "\n";
    var nm := lines.head;
    ghost var at := 0;
    while nm != null
      invariant lines.CursorAt(at, nm)
      invariant out == Flat([config.name] + Indented(lines.items[..at]))
      decreases |lines.nodes| - at
    {
      IndentedMore(config.name, lines.items, at);
      out := out + " " + nm.data + "\n";
      lines.AtNext(at);
      nm, at := nm.next, at + 1;
    }
    assert lines.items[..at] == lines.items;
    FlatJoin([config.name] + Indented(lines.items), ["!"]);
    out := out + "!\n";
  }

  lemma IndentedMore(name: string, lines: seq<string>, at: nat)
    requires at < |lines|
    ensures Flat([name] + Indented(lines[..at + 1])) == Flat([name] + Indented(lines[..at])) + " " + lines[at] + "\n"
  {
    hide Flat;
    assert lines[..at + 1][..at] == lines[..at];
    var before := [name] + Indented(lines[..at]);
    assert [name] + Indented(lines[..at + 1]) == before + [" " + lines[at]];
    hide Indented;
    FlatMore(before, " " + lines[at]);
  }

  lemma FlatMore(before: seq<string>, line: string)
    ensures Flat(before + [line]) == Flat(before) + line + "\n"
  {
    hide Flat;
    FlatJoin(before, [line]);
    FlatOne(line);
  }

  method DumpMaster(master: List<Config>) returns (out: string)
    requires master.Valid() && forall k :: 0 <= k < |master.items| ==> master.items[k].line.Valid()
    ensures out == GroupsText(GroupsOf(master.items))
  {
    hide List.Linked, GroupText, GroupsText, GroupsOf;
    ghost var groups := GroupsOf(master.items);
    master.AtHead();
    out := "";
    var nn := master.head;
    ghost var at := 0;
    while nn != null
      invariant master.CursorAt(at, nn)
      invariant out + GroupsText(groups[at..]) == GroupsText(groups)
      decreases |master.nodes| - at
    {
      GroupsMore(groups, at);
      var group := DumpConfig(nn.data);
      out := out + group;
      master.AtNext(at);
      nn, at := nn.next, at + 1;
    }
    assert groups[at..] == [];
    NoGroupsText();
    assert out == GroupsText(groups);
  }

  lemma GroupsMore(groups: seq<Group>, at: nat)
    requires at < |groups|
    ensures GroupsText(groups[at..]) == GroupText(groups[at]) + GroupsText(groups[at + 1..])
  {
    assert groups[at..][1..] == groups[at + 1..];
  }

  lemma AllGroupsMore(s: Sections, i: nat)
    requires i < |s|
    ensures GroupsText(AllGroups(s[i..])) ==
      (if s[i].None? then "" else GroupsText(GroupsOf(s[i].value))) + GroupsText(AllGroups(s[i + 1..]))
  {
    assert s[i..][1..] == s[i + 1..];
    NoGroupsText();
    hide GroupsText, GroupsOf;
    TextsJoin(if s[i].None? then [] else GroupsOf(s[i].value), AllGroups(s[i + 1..]));
  }

  /** The configurations are printed by index, and those of an index in the order of its list. */
  lemma {:induction false} GroupsInOrder(a: Sections, b: Sections, items: seq<Config>)
    ensures AllGroups(a + b) == AllGroups(a) + AllGroups(b)
    ensures AllGroups([Some(items)]) == GroupsOf(items) && AllGroups([None]) == []
    ensures forall i :: 0 <= i < |items| ==> GroupsOf(items)[i] == Group(items[i].name, items[i].line.items)
  {
    hide GroupsOf, AllGroups;
    NoSections();
    var one: Sections, none: Sections := [Some(items)], [None];
    FirstSection(one);
    FirstSection(none);
    assert one[1..] == [] && none[1..] == [];
    if a == [] {
      assert a + b == b;
    } else {
      GroupsInOrder(a[1..], b, items);
      assert (a + b)[1..] == a[1..] + b && (a + b)[0] == a[0];
      FirstSection(a);
      FirstSection(a + b);
    }
  }

  lemma NoSections()
    ensures AllGroups([]) == []
  {}

  lemma FirstSection(s: Sections)
    requires s != []
    ensures AllGroups(s) == (if s[0].None? then [] else GroupsOf(s[0].value)) + AllGroups(s[1..])
  {
    hide GroupsOf;
  }

  class Store {
    /** config_top and configvec */
    const top: List<string>
    const configvec: Vector<List<Config>>
    /** The slots of the vector, what their lists hold, and the lists and nodes in use. */
    ghost var masters: seq<Option<List<Config>>>
    ghost var sections: Sections
    ghost var lists: set<List<Config>>
    ghost var nodes: set<Node<Config>>
    /** The lists of lines and their nodes, and the configurations they belong to. */
    ghost var lines: set<List<string>>
    ghost var lineNodes: set<Node<string>>
    ghost var configs: set<Config>

    /** A list with what it holds. */
    ghost predicate Held(l: List<Config>, items: seq<Config>)
      requires l in lists
      reads this`lists, this`nodes, lists, nodes
    {
      && (forall i :: 0 <= i < |l.nodes| ==> l.nodes[i] in nodes)
      && l.Valid() && l.cmp == CONFIG_CMP && l.items == items
    }

    /** Every slot of the vector has its section. */
    ghost predicate Matched()
      reads this`masters, this`sections, this`lists, this`nodes, lists, nodes
    {
      && |masters| == |sections|
      && forall i :: 0 <= i < |masters| ==>
          if masters[i].None? then sections[i].None?
          else masters[i].value in lists && sections[i].Some? && Held(masters[i].value, sections[i].value)
    }

    /** No list is in two slots, and no node on two lists. */
    ghost predicate Disjoint()
      requires Matched()
      reads this`masters, this`sections, this`lists, this`nodes, lists, nodes
    {
      forall i, j :: 0 <= i < |masters| && 0 <= j < |masters| && i != j && masters[i].Some? && masters[j].Some? ==>
        masters[i].value != masters[j].value && masters[i].value.Apart(masters[j].value)
    }

    /** The index: a vector of sorted lists. */
    ghost predicate Indexed()
      reads this`masters, this`sections, this`lists, this`nodes, configvec, configvec.index, lists, nodes
    {
      && configvec.Valid() && configvec.Slots() == masters
      && Matched() && Disjoint() && Sorted(sections)
    }

    /** A sorted list of lines. */
    ghost predicate LineOk(l: List<string>)
      requires l in lines
      reads this`lines, this`lineNodes, lines, lineNodes
    {
      && (forall i :: 0 <= i < |l.nodes| ==> l.nodes[i] in lineNodes)
      && l.Valid() && l.cmp == LINE_CMP && SortedBy(Strcmp, l.items)
    }

    ghost predicate LinesOk()
      reads this`lines, this`lineNodes, lines, lineNodes
    {
      forall l :: l in lines ==> LineOk(l)
    }

    ghost predicate LinesApart()
      reads this`lines, lines
    {
      forall l, m :: l in lines && m in lines && l != m ==> l.Apart(m)
    }

    /** There is a list of lines at the top, and one for every configuration. */
    ghost predicate Owned()
      reads this`lines, this`configs
    {
      && top in lines
      && (forall c :: c in configs ==> c.line in lines && c.line != top)
      && (forall c, d :: c in configs && d in configs && c != d ==> c.line != d.line)
    }

    ghost predicate Lined()
      reads this`lines, this`lineNodes, this`configs, lines, lineNodes
    {
      LinesOk() && LinesApart() && Owned()
    }

    ghost predicate Valid()
      reads this, configvec, configvec.index, lists, nodes, lines, lineNodes
    {
      Indexed() && Lined() && Known(sections, configs)
    }

    /** config_init */
    constructor ()
      ensures Valid() && sections == [] && top.items == []
      ensures fresh(top) && fresh(configvec) && fresh(configvec.index)
      ensures lists == {} && nodes == {} && lines == {top} && lineNodes == {} && configs == {}
    {
      top := new List<string>(LINE_CMP);
      configvec := new Vector<List<Config>>(1);
      masters, sections, lists, nodes, lineNodes, configs := [], [], {}, {}, {}, {};
      lines := {top};
    }

    /** Entering a new list, so far empty, at an index. */
    ghost method Enter(index: nat, master: List<Config>)
      requires Matched() && Disjoint() && Sorted(sections)
      requires master.Valid() && master.cmp == CONFIG_CMP && master.items == [] && master !in lists
      requires index < |masters| ==> masters[index].None?
      modifies this`masters, this`sections, this`lists
      ensures Matched() && Disjoint() && Sorted(sections) && lists == old(lists) + {master}
      ensures masters == Stored(old(masters), index, Some(master)) && sections == Stored(old(sections), index, Some([]))
    {
      hide List.Valid, StrictNames;
      NoNodes(master);
      assert StrictNames([]) by { NoNames(); }
      masters := Stored(masters, index, Some(master));
      sections := Stored(sections, index, Some([]));
      lists := lists + {master};
    }

    lemma NoNodes(master: List<Config>)
      requires master.Valid() && master.items == []
      ensures master.nodes == []
    {}

    lemma NoNames()
      ensures StrictNames([])
    {}

    /** The list of an index, created if it is not there. */
    method OpenMaster(index: nat) returns (master: List<Config>)
      requires Indexed() && index < INDEX_LIMIT
      modifies this`masters, this`sections, this`lists, configvec, configvec.index
      ensures Indexed() && sections == Opened(old(sections), index)
      ensures configvec.index == old(configvec.index) || fresh(configvec.index)
      ensures index < |masters| && masters[index] == Some(master)
      ensures lists == old(lists) || (lists == old(lists) + {master} && fresh(master))
      ensures nodes == old(nodes)
      ensures master.Valid() && master.items == Items(old(sections), index) && StrictNames(master.items)
    {
      hide List.Valid, Disjoint, Sorted, Held, StrictNames, Stored;
      ItemsOpened(sections, index, index);
      master := Opening(index);
      SectionOf(index);
      SortedItems(sections, index);
    }

    method Opening(index: nat) returns (master: List<Config>)
      requires Indexed() && index < INDEX_LIMIT
      modifies this`masters, this`sections, this`lists, configvec, configvec.index
      ensures Indexed() && sections == Opened(old(sections), index)
      ensures configvec.index == old(configvec.index) || fresh(configvec.index)
      ensures index < |masters| && masters[index] == Some(master)
      ensures lists == old(lists) || (lists == old(lists) + {master} && fresh(master))
      ensures nodes == old(nodes)
    {
      hide List.Valid, Disjoint, Sorted, Held;
      var slot := configvec.LookupEnsure(index);
      if slot.Some? {
        return slot.value;
      }
      hide Matched;
      master := new List<Config>(CONFIG_CMP);
      configvec.SetIndex(index, Some(master));
      Enter(index, master);
    }

    /** A new configuration goes on the list of its index. */
    method Insert(index: nat, master: List<Config>, config: Config)
      requires Indexed() && index < |masters| && masters[index] == Some(master)
      requires Lookup(sections, index, config.name).None?
      modifies this`sections, this`nodes, lists, nodes
      ensures Indexed() && masters == old(masters)
      ensures sections == Got(old(sections), index, config) && fresh(nodes - old(nodes))
    {
      hide List.Valid, StrictNames, Added, Named, Got, Sorted, Disjoint;
      SectionOf(index);
      InsertedSections(index, config);
      GotSorted(sections, index, config);
      hide Matched;
      Push(index, master, config);
    }

    method Push(index: nat, master: List<Config>, config: Config)
      requires Matched() && Disjoint() && index < |masters| && masters[index] == Some(master)
      modifies this`sections, this`nodes, lists, nodes
      ensures Matched() && Disjoint() && fresh(nodes - old(nodes))
      ensures old(Matched()) && sections == old(sections)[index := Some(Added(CONFIG_CMP, old(sections)[index].value, config))]
    {
      hide List.Valid, Added;
      SectionOf(index);
      assert Held(master, sections[index].value);
      master.AddSort(config);
      sections := sections[index := Some(master.items)];
      nodes := nodes + set x | x in master.nodes;
      assert Held(master, sections[index].value);
    }

    lemma SectionOf(index: nat)
      requires Matched() && index < |masters| && masters[index].Some?
      ensures index < |sections| && sections[index].Some? && masters[index].value in lists
      ensures masters[index].value.items == sections[index].value && masters[index].value.Valid()
      ensures Items(sections, index) == sections[index].value
    {
      assert Held(masters[index].value, sections[index].value);
    }

    lemma InsertedSections(index: nat, config: Config)
      requires index < |sections| && sections[index].Some? && Lookup(sections, index, config.name).None?
      ensures Got(sections, index, config) == sections[index := Some(Added(CONFIG_CMP, sections[index].value, config))]
    {}

    /** What the lists of lines held they still hold. */
    twostate predicate LinesKept()
      reads this`lines, lines
    {
      old(lines) <= lines && forall l :: l in old(lines) ==> l.items == old(l.items)
    }

    /** What is tracked now was tracked before or is new. */
    twostate predicate Grown()
      reads this, configvec
    {
      && fresh(lists - old(lists)) && fresh(nodes - old(nodes))
      && fresh(lines - old(lines)) && fresh(lineNodes - old(lineNodes))
      && (configvec.index == old(configvec.index) || fresh(configvec.index))
    }

    /** The part of config_get that finds or creates. */
    method GetIndexed(index: nat, line: string) returns (config: Config, created: bool)
      requires Indexed() && index < INDEX_LIMIT
      modifies this`masters, this`sections, this`lists, this`nodes, configvec, configvec.index, lists, nodes
      ensures Indexed() && Lookup(sections, index, line) == Some(config)
      ensures config.name == line && sections == Got(old(sections), index, config)
      ensures created == Lookup(old(sections), index, line).None?
      ensures fresh(lists - old(lists)) && fresh(nodes - old(nodes))
      ensures configvec.index == old(configvec.index) || fresh(configvec.index)
      ensures created ==>
        && fresh(config) && fresh(config.line) && config.index == index
        && config.line.Valid() && config.line.items == [] && config.line.cmp == LINE_CMP
    {
      hide List.Valid, Indexed, Matched, Named, Items, Lookup, StrictNames, Opened, Configs.Got, Stored, Added;
      ghost var was := sections;
      var master := OpenMaster(index);
      var found := FindConfig(master, line);
      if found.Some? {
        FoundCase(was, index, found.value);
        return found.value, false;
      }
      config := new Config(index, line);
      CreatedCase(was, index, config);
      Insert(index, master, config);
      created := true;
    }

    /** A new configuration brings its list of lines. */
    ghost method Own(config: Config)
      requires Lined() && config !in configs && config.line !in lines
      requires config.line.Valid() && config.line.items == [] && config.line.cmp == LINE_CMP
      modifies this`lines, this`configs
      ensures Lined() && lines == old(lines) + {config.line} && configs == old(configs) + {config}
    {
      hide List.Valid;
      NoLineNodes(config.line);
      lines := lines + {config.line};
      configs := configs + {config};
    }

    lemma NoLineNodes(l: List<string>)
      requires l.Valid() && l.items == []
      ensures l.nodes == []
    {}

    /** config_get */
    method Get(index: nat, line: string) returns (config: Config)
      requires Valid() && index < INDEX_LIMIT
      modifies this, configvec, configvec.index, lists, nodes
      ensures Valid() && Grown() && LinesKept()
      ensures Lookup(sections, index, line) == Some(config) && config in configs
      ensures config.name == line && sections == Got(old(sections), index, config)
      ensures Lookup(old(sections), index, line).Some? ==> Lookup(old(sections), index, line) == Some(config)
      ensures Lookup(old(sections), index, line).None? ==>
        fresh(config) && fresh(config.line) && config.index == index && config.line.items == []
    {
      hide List.Valid, Indexed, Lined, Known, Configs.Got, Lookup;
      ghost var was := sections;
      var created;
      config, created := GetIndexed(index, line);
      GotKnown(was, index, config, configs);
      if created {
        Own(config);
      } else {
        GotFinds(was, index, config, index, line);
        LookupIsKnown(was, index, line, config, configs);
        assert configs + {config} == configs;
      }
    }

    // ---------- The lines ----------

    /** config_add_line on one of the lists of lines. */
    method AddLine(l: List<string>, info: string)
      requires Valid() && l in lines
      modifies l, l.nodes, this`lineNodes
      ensures Valid() && l.items == LineAdded(old(l.items), info)
      ensures OtherLinesKept(l) && fresh(lineNodes - old(lineNodes))
    {
      hide List.Valid, Indexed, Lined, Known, LineAdded;
      AddLineTo(l, info);
    }

    method AddLineTo(l: List<string>, info: string)
      requires Lined() && l in lines
      modifies l, l.nodes, this`lineNodes
      ensures Lined() && l.items == LineAdded(old(l.items), info)
      ensures OtherLinesKept(l) && fresh(lineNodes - old(lineNodes))
    {
      hide List.Valid, LineAdded, SortedBy, Owned;
      LinesStaySorted(l.items, info);
      LineHeld(l);
      ConfigAddLine(l, info);
      Track(l);
    }

    /** The nodes of a list that has grown are tracked. */
    ghost method Track(l: List<string>)
      requires l in lines && l.Valid() && l.cmp == LINE_CMP && SortedBy(Strcmp, l.items)
      requires forall m :: m in lines && m != l ==> LineOk(m)
      requires LinesApart() && Owned()
      modifies this`lineNodes
      ensures Lined() && lineNodes == old(lineNodes) + set i | 0 <= i < |l.nodes| :: l.nodes[i]
    {
      hide List.Valid, SortedBy, Owned;
      lineNodes := lineNodes + set i | 0 <= i < |l.nodes| :: l.nodes[i];
    }

    /** config_del_line on one of the lists of lines. */
    method DelLine(l: List<string>, line: string)
      requires Valid() && l in lines
      modifies l, l.nodes
      ensures Valid() && l.items == Deleted(old(l.items), line) && OtherLinesKept(l)
    {
      hide List.Valid, Indexed, Lined, Known, Deleted;
      DelLineFrom(l, line);
    }

    method DelLineFrom(l: List<string>, line: string)
      requires Lined() && l in lines
      modifies l, l.nodes
      ensures Lined() && l.items == Deleted(old(l.items), line) && OtherLinesKept(l)
    {
      hide List.Valid, Deleted, SortedBy, Owned;
      LinesStaySorted(l.items, line);
      LineHeld(l);
      ConfigDelLine(l, line);
    }

    /** config_del_line_byleft on one of the lists of lines. */
    method DelLineByLeft(l: List<string>, line: string)
      requires Valid() && l in lines
      modifies l, l.nodes
      ensures Valid() && l.items == LeftDeleted(old(l.items), line) && OtherLinesKept(l)
    {
      hide List.Valid, Indexed, Lined, Known, LeftDeleted;
      DelLineByLeftFrom(l, line);
    }

    method DelLineByLeftFrom(l: List<string>, line: string)
      requires Lined() && l in lines
      modifies l, l.nodes
      ensures Lined() && l.items == LeftDeleted(old(l.items), line) && OtherLinesKept(l)
    {
      hide List.Valid, LeftDeleted, SortedBy, Owned;
      LinesStaySorted(l.items, line);
      LineHeld(l);
      ConfigDelLineByLeft(l, line);
    }

    /** config_get_line_byleft on one of the lists of lines: the least line with the beginning. */
    method GetLineByLeft(l: List<string>, line: string) returns (pnt: Option<string>)
      requires Valid() && l in lines
      ensures pnt.None? ==> forall k :: 0 <= k < |l.items| ==> !(line <= l.items[k])
      ensures pnt.Some? ==> pnt.value in l.items && line <= pnt.value
      ensures pnt.Some? ==> forall k :: 0 <= k < |l.items| && line <= l.items[k] ==> Strcmp(pnt.value, l.items[k]) <= 0
    {
      hide List.Valid, FirstLeft, Strcmp, SortedBy;
      LineHeld(l);
      pnt := ConfigGetLineByLeft(l, line);
      forall k | 0 <= k < |l.items| && line <= l.items[k]
        ensures pnt.Some? && Strcmp(pnt.value, l.items[k]) <= 0
      {
        ByLeftFindsLeast(l.items, line, k);
      }
    }

    /** The other lists of lines are as they were. */
    twostate predicate OtherLinesKept(l: List<string>)
      reads this`lines, lines
    {
      lines == old(lines) && forall m :: m in lines && m != l ==> m.items == old(m.items)
    }

    lemma LineHeld(l: List<string>)
      requires Lined() && l in lines
      ensures l.Valid() && l.cmp == LINE_CMP && SortedBy(Strcmp, l.items)
      ensures forall i :: 0 <= i < |l.nodes| ==> l.nodes[i] in lineNodes
    {
      assert LineOk(l);
    }

    // ---------- Printing ----------

    /** config_dump: the text it prints, when the current time is shown as `date`. */
    method Dump(date: string) returns (out: string)
      requires Valid()
      ensures out == DumpText(date, top.items, AllGroups(sections))
    {
      hide List.Valid, Disjoint, Sorted, GroupsText, AllGroups, GroupsOf, Matched, Known, LinesOk, LinesApart;
      LineHeld(top);
      var head := DumpTop(date);
      out := "";
      var i := 0;
      assert sections[0..] == sections && |masters| == |sections| by { Lengths(); }
      while i < configvec.max
        invariant i <= |sections| == configvec.max
        invariant out + GroupsText(AllGroups(sections[i..])) == GroupsText(AllGroups(sections))
      {
        AllGroupsMore(sections, i);
        var text := DumpSlot(i);
        out := out + text;
        i := i + 1;
      }
      assert sections[i..] == [];
      NothingLeft();
      assert out == GroupsText(AllGroups(sections));
      out := head + out;
    }

    lemma Lengths()
      requires Matched()
      ensures |masters| == |sections|
    {}

    method DumpSlot(i: nat) returns (text: string)
      requires Valid() && i < |masters|
      ensures i < |sections|
      ensures text == if sections[i].None? then "" else GroupsText(GroupsOf(sections[i].value))
    {
      hide List.Valid, Disjoint, Sorted, GroupsText, GroupsOf, Known, Lined;
      assert configvec.index[i] == masters[i];
      if configvec.index[i].None? {
        return "";
      }
      SectionOf(i);
      LinesHeld(i);
      text := DumpMaster(configvec.index[i].value);
    }

    /** Every configuration of a section has a well-formed list of lines. */
    lemma LinesHeld(i: nat)
      requires Lined() && Known(sections, configs) && i < |sections| && sections[i].Some?
      ensures forall k :: 0 <= k < |sections[i].value| ==> sections[i].value[k].line.Valid()
    {
      hide LinesOk, LinesApart;
      forall k | 0 <= k < |sections[i].value| ensures sections[i].value[k].line.Valid() {
        assert sections[i].value[k] in Items(sections, i);
        LineHeld(sections[i].value[k].line);
      }
    }

    lemma NothingLeft()
      ensures GroupsText(AllGroups([])) == ""
    {}

    method DumpTop(date: string) returns (out: string)
      requires top.Valid()
      ensures out == TopText(date, top.items)
    {
      hide Flat;
      top.AtHead();
      FlatOne(WRITED + date);
      FlatOne("!");
      assert [WRITED + date] + top.items[..0] == [WRITED + date];
      out := WRITED + date + "\n";
      var nn := top.head;
      ghost var at := 0;
      while nn != null
        invariant top.CursorAt(at, nn)
        invariant out == Flat([WRITED + date] + top.items[..at])
        decreases |top.nodes| - at
      {
        TopMore(date, top.items, at);
        out := out + nn.data + "\n";
        top.AtNext(at);
        nn, at := nn.next, at + 1;
      }
      assert top.items[..at] == top.items;
      FlatJoin([WRITED + date] + top.items, ["!"]);
      out := out + "!\n";
    }

    lemma TopMore(date: string, lines: seq<string>, at: nat)
      requires at < |lines|
      ensures Flat([WRITED + date] + lines[..at + 1]) == Flat([WRITED + date] + lines[..at]) + lines[at] + "\n"
    {
      hide Flat;
      var before := [WRITED + date] + lines[..at];
      assert [WRITED + date] + lines[..at + 1] == before + [lines[at]];
      FlatMore(before, lines[at]);
    }
  }

  // ---------- A client ----------

  lemma AddedToNone<T>(cmp: Option<(T, T) -> int>, val: T)
    ensures Added(cmp, [], val) == [val]
  {}

  lemma OneSection(s: Sections, config: Config)
    requires s == Got([], 0, config)
    ensures AllGroups(s) == [GroupOf(config)]
  {
    AddedToNone(CONFIG_CMP, config);
    hide Added;
    assert Opened([], 0) == [Some([])];
    assert s == [Some([config])];
    hide Configs.Got;
    assert GroupsOf([config]) == [GroupOf(config)];
    assert AllGroups(s[1..]) == [];
  }

  lemma OneGroupText(name: string, line: string, date: string)
    ensures DumpText(date, [], [Group(name, [line])]) ==
      "#Writed on " + date + "\n!\n" + name + "\n " + line + "\n!\n"
  {
    hide Flat, GroupsText, TopText;
    var g := Group(name, [line]);
    OneTopText(date);
    OneGroup(g, line);
    assert [g] + [] == [g];
    FrontText(g, []);
    NoGroupsText();
  }

  lemma OneTopText(date: string)
    ensures TopText(date, []) == "#Writed on " + date + "\n!\n"
  {
    hide Flat;
    assert [WRITED + date] + [] + ["!"] == [WRITED + date] + ["!"];
    FlatMore([WRITED + date], "!");
    FlatOne(WRITED + date);
  }

  lemma OneGroup(g: Group, line: string)
    requires g.lines == [line]
    ensures GroupText(g) == g.name + "\n " + line + "\n!\n"
  {
    hide Flat, Indented, GroupLines;
    var head, body := [g.name], [g.name] + [" " + line];
    OneGroupLines(g, line);
    FlatMore(body, "!");
    FlatMore(head, " " + line);
    FlatOne(g.name);
    assert Flat(body) == g.name + "\n" + (" " + line) + "\n";
    BreaksJoin(g.name, line);
  }

  lemma OneGroupLines(g: Group, line: string)
    requires g.lines == [line]
    ensures GroupLines(g) == [g.name] + [" " + line] + ["!"]
  {
    hide Indented;
    assert Indented(g.lines) == [" " + line];
  }

  lemma BreaksJoin(name: string, line: string)
    ensures name + "\n" + (" " + line) + "\n" + "!" + "\n" == name + "\n " + line + "\n!\n"
  {
    assert "\n" + " " == "\n " && "\n" + "!" + "\n" == "\n!\n";
    assert name + "\n" + (" " + line) == name + ("\n" + " ") + line;
    var front := name + "\n " + line;
    assert front + "\n" + "!" + "\n" == front + ("\n" + "!" + "\n");
  }

  /** The configuration found or created last, with its list of lines. */
  lemma OwnsItsLines(store: Store, config: Config)
    requires store.Valid() && config in store.configs
    ensures config.line in store.lines && config.line != store.top
    ensures forall i :: 0 <= i < |config.line.nodes| ==> config.line.nodes[i] in store.lineNodes
  {
    hide Store.Indexed, Store.LinesApart, List.Valid;
    store.LineHeld(config.line);
  }

  /** A configuration found twice, with one line added, printed. */
  method Session(name: string, line: string, date: string) returns (out: string)
    requires line != ""
    ensures out == "#Writed on " + date + "\n!\n" + name + "\n " + line + "\n!\n"
  {
    hide Store.Indexed, Store.Lined, Known, Configs.Got, Lookup, AllGroups, GroupsText, DumpText;
    var store := new Store();
    var config := store.Get(0, name);
    var again := store.Get(0, name);
    assert again == config;
    OwnsItsLines(store, config);
    SameGot(config);
    store.AddLine(again.line, line);
    AddedToNone(LINE_CMP, line);
    assert GroupOf(config) == Group(name, [line]);
    OneSection(store.sections, config);
    out := store.Dump(date);
    OneGroupText(name, line, date);
  }

  lemma SameGot(config: Config)
    ensures Got(Got([], 0, config), 0, config) == Got([], 0, config)
    ensures Lookup([], 0, config.name).None?
  {}
}
