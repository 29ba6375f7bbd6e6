/** The configuration of vtysh_config.c: named groups of lines, found or created. */
module Configs {
  import opened Options
  import opened Seqs
  import opened CText
  import opened Vectors
  import opened LinkLists
  import opened ConfigLines

  class Config {
    const index: nat
    const name: string
    const line: List<string>

    /** config_new, and the assignments of config_get. */
    constructor (index: nat, name: string)
      ensures this.index == index && this.name == name && fresh(line)
      ensures line.Valid() && line.items == [] && line.cmp == LINE_CMP
    {
      this.index, this.name := index, name;
      var empty := new List<string>(LINE_CMP);
      line := empty;
    }
  }

  /** config_cmp */
  const CONFIG_CMP: Option<(Config, Config) -> int> := Some((c1: Config, c2: Config) => Strcmp(c1.name, c2.name))

  /** Strictly sorted by name, and therefore without a name twice. */
  predicate StrictNames(items: seq<Config>) {
    forall i, j :: 0 <= i < j < |items| ==> Less(items[i].name, items[j].name)
  }

  /** The place of the name, or the length. */
  function NameAt(items: seq<Config>, name: string): (n: nat)
    ensures n <= |items|
    ensures forall i :: 0 <= i < n ==> items[i].name != name
    ensures n < |items| ==> items[n].name == name
  {
    if items == [] || items[0].name == name then 0 else 1 + NameAt(items[1..], name)
  }

  /** The configuration with a name. */
  function Named(items: seq<Config>, name: string): (config: Option<Config>)
    ensures config.Some? ==> config.value in items && config.value.name == name
  {
    var n := NameAt(items, name);
    if n < |items| then Some(items[n]) else None
  }

  // ---------- The sections ----------

  /** A section per index, if there is one: its configurations in the order of its list. */
  type Sections = seq<Option<seq<Config>>>

  function Items(s: Sections, index: nat): seq<Config> {
    if index < |s| && s[index].Some? then s[index].value else []
  }

  /** The configuration with an index and a name. */
  function Lookup(s: Sections, index: nat, name: string): Option<Config> {
    Named(Items(s, index), name)
  }

  /** The section is there afterwards. */
  function Opened(s: Sections, index: nat): Sections {
    if index < |s| && s[index].Some? then s else Stored(s, index, Some([]))
  }

  /** config_get, which creates `config` when there is none of that name. */
  function Got(s: Sections, index: nat, config: Config): Sections {
    if Lookup(s, index, config.name).Some? then Opened(s, index)
    else Opened(s, index)[index := Some(Added(CONFIG_CMP, Items(s, index), config))]
  }

  predicate Sorted(s: Sections) {
    forall i :: 0 <= i < |s| && s[i].Some? ==> StrictNames(s[i].value)
  }

  lemma ItemsOpened(s: Sections, index: nat, other: nat)
    ensures index < |Opened(s, index)| && Opened(s, index)[index].Some?
    ensures Items(Opened(s, index), other) == Items(s, other)
  {}

  lemma GotOpened(s: Sections, index: nat, config: Config)
    ensures Got(Opened(s, index), index, config) == Got(s, index, config)
  {
    ItemsOpened(s, index, index);
    hide Named, Items, Added;
  }

  lemma ItemsGot(s: Sections, index: nat, config: Config, other: nat)
    ensures Items(Got(s, index, config), other) ==
      if other == index && Lookup(s, index, config.name).None? then Added(CONFIG_CMP, Items(s, index), config)
      else Items(s, other)
  {
    ItemsOpened(s, index, other);
    hide Opened, Lookup, Added;
  }

  lemma PlacedAround(items: seq<Config>, config: Config, i: nat)
    requires StrictNames(items) && NameAt(items, config.name) == |items| && i < |items|
    ensures if i < Place(CONFIG_CMP.value, items, config) then Less(items[i].name, config.name)
      else Less(config.name, items[i].name)
  {
    hide Place, NameAt, Less;
    var n := Place(CONFIG_CMP.value, items, config);
    LessConnects(items[i].name, config.name);
    if n < i { LessTransitive(config.name, items[n].name, items[i].name); }
  }

  lemma WithStrict(items: seq<Config>, config: Config, n: nat)
    requires StrictNames(items) && n <= |items|
    requires forall i :: 0 <= i < n ==> Less(items[i].name, config.name)
    requires forall i :: n <= i < |items| ==> Less(config.name, items[i].name)
    ensures StrictNames(With(items, n, config))
  {
    hide Less;
  }

  /** A new name goes where it keeps the names strictly sorted. */
  lemma AddedStrict(items: seq<Config>, config: Config)
    requires StrictNames(items) && NameAt(items, config.name) == |items|
    ensures StrictNames(Added(CONFIG_CMP, items, config))
  {
    hide Place, NameAt, Less, StrictNames, With;
    var n := Place(CONFIG_CMP.value, items, config);
    forall i | 0 <= i < n ensures Less(items[i].name, config.name) { PlacedAround(items, config, i); }
    forall i | n <= i < |items| ensures Less(config.name, items[i].name) { PlacedAround(items, config, i); }
    WithStrict(items, config, n);
    assert Added(CONFIG_CMP, items, config) == With(items, n, config);
  }

  lemma SortedItems(s: Sections, index: nat)
    requires Sorted(s)
    ensures StrictNames(Items(s, index))
  {}

  /** config_get keeps every section strictly sorted by name. */
  lemma GotSorted(s: Sections, index: nat, config: Config)
    requires Sorted(s)
    ensures Sorted(Got(s, index, config))
  {
    hide StrictNames, Added;
    var r := Got(s, index, config);
    forall i | 0 <= i < |r| && r[i].Some? ensures StrictNames(r[i].value) {
      SortedItems(s, i);
      ItemsGot(s, index, config, i);
      assert r[i].value == Items(r, i);
      if i == index && Lookup(s, index, config.name).None? { AddedStrict(Items(s, index), config); }
    }
  }

  /** Every configuration of a section is one of `configs`. */
  ghost predicate Known(s: Sections, configs: set<Config>) {
    forall i, c :: 0 <= i < |s| && c in Items(s, i) ==> c in configs
  }

  lemma LookupIsKnown(s: Sections, index: nat, name: string, config: Config, configs: set<Config>)
    requires Known(s, configs) && Lookup(s, index, name) == Some(config)
    ensures config in configs
  {
    ItemsBeyond(s, index, config);
  }

  lemma GotKnown(s: Sections, index: nat, config: Config, configs: set<Config>)
    requires Known(s, configs)
    ensures Known(Got(s, index, config), configs + {config})
  {
    hide Got, Added, Items, Lookup;
    var r := Got(s, index, config);
    forall i, c | 0 <= i < |r| && c in Items(r, i) ensures c in configs + {config} {
      ItemsGot(s, index, config, i);
      AddedHolds(Items(s, index), config, c);
      ItemsBeyond(s, i, c);
    }
  }

  lemma AddedHolds(items: seq<Config>, config: Config, c: Config)
    ensures c in Added(CONFIG_CMP, items, config) ==> c in items || c == config
  {
    hide Place;
  }

  lemma ItemsBeyond(s: Sections, i: nat, c: Config)
    ensures c in Items(s, i) ==> i < |s|
  {}

  // ---------- Find or create ----------

  lemma {:induction false} NameAtIs(items: seq<Config>, name: string, k: nat)
    requires k <= |items| && (forall i :: 0 <= i < k ==> items[i].name != name)
    requires k < |items| ==> items[k].name == name
    ensures NameAt(items, name) == k
  {
    if k > 0 { NameAtIs(items[1..], name, k - 1); }
  }

  lemma NamedWith(items: seq<Config>, n: nat, config: Config, name: string)
    requires n <= |items| && Named(items, config.name).None?
    ensures Named(With(items, n, config), name) == if name == config.name then Some(config) else Named(items, name)
  {
    hide NameAt;
    var m, r := NameAt(items, name), With(items, n, config);
    if name == config.name {
      NameAtIs(r, name, n);
    } else {
      NameAtIs(r, name, if m < n then m else m + 1);
    }
  }

  /** Main result: config_get makes the configuration of its index and name be found (the one that
      was there before, if there was one) and changes no other. */
  lemma GotFinds(s: Sections, index: nat, config: Config, other: nat, name: string)
    ensures Lookup(Got(s, index, config), other, name) ==
      if other == index && name == config.name && Lookup(s, index, name).None? then Some(config)
      else Lookup(s, other, name)
  {
    ItemsGot(s, index, config, other);
    hide Named, Items, Got, Place;
    if other == index && Lookup(s, index, config.name).None? {
      NamedWith(Items(s, index), Place(CONFIG_CMP.value, Items(s, index), config), config, name);
    }
  }

  lemma FoundCase(s: Sections, index: nat, config: Config)
    requires Named(Items(s, index), config.name) == Some(config)
    ensures Got(s, index, config) == Opened(s, index)
    ensures Lookup(s, index, config.name) == Lookup(Opened(s, index), index, config.name) == Some(config)
  {
    ItemsOpened(s, index, index);
    hide Named, Items, Opened;
  }

  lemma CreatedCase(s: Sections, index: nat, config: Config)
    requires Named(Items(s, index), config.name).None?
    ensures Got(Opened(s, index), index, config) == Got(s, index, config)
    ensures Lookup(s, index, config.name).None? && Lookup(Opened(s, index), index, config.name).None?
    ensures Lookup(Got(s, index, config), index, config.name) == Some(config)
  {
    GotOpened(s, index, config);
    ItemsOpened(s, index, index);
    GotFinds(s, index, config, index, config.name);
    hide Named, Items, Opened, Got;
  }

  /** The sections after a run of config_get calls. */
  function GotAll(s: Sections, configs: seq<Config>): Sections
    decreases |configs|
  {
    if configs == [] then s else GotAll(Got(s, configs[0].index, configs[0]), configs[1..])
  }

  /** Main result: in every configuration that config_get calls can reach, every section is strictly
      sorted by name, and whoever was found once is found by the same index and name ever after. */
  lemma {:induction false} EveryConfiguration(s: Sections, configs: seq<Config>, index: nat, name: string)
    requires Sorted(s)
    ensures Sorted(GotAll(s, configs))
    ensures Lookup(s, index, name).Some? ==> Lookup(GotAll(s, configs), index, name) == Lookup(s, index, name)
    decreases |configs|
  {
    hide Sorted, Lookup, Got;
    if configs != [] {
      GotSorted(s, configs[0].index, configs[0]);
      GotFinds(s, configs[0].index, configs[0], index, name);
      EveryConfiguration(Got(s, configs[0].index, configs[0]), configs[1..], index, name);
    }
  }
}
