/** Loading and deploying service configs, as in api_manager_impl.cc. */
module ApiManager {
  import opened Wrappers
  import opened WeightedSelector

  /** The parts of a service config that loading looks at. */
  datatype Service = Service(name: string, id: string)

  /** A config text with its weight. */
  datatype Weighted = Weighted(text: string, weight: int)

  /** What turns a config text into a service; None for a text that is refused. */
  type Creator = string -> Option<Service>

  /** What has been loaded: the service name ("" before there is one), the context of each config
      id, and the entries of the selector once there is one. */
  datatype Loaded = Loaded(name: string, contexts: map<string, Service>, entries: Option<seq<(string, int)>>)

  const NOTHING := Loaded("", map[], None)

  // ---------- loading a list

  /** The service name after a config: the first name given stays, another one is refused. */
  function NameAfter(create: Creator, name: string, text: string): Option<string> {
    var service := create(text);
    if service.None? || (name != "" && service.value.name != name) then None
    else Some(service.value.name)
  }

  /** The service name after a list of configs, None as soon as one is refused. */
  function NameAfterAll(create: Creator, name: string, configs: seq<Weighted>): Option<string>
    decreases |configs|
  {
    if configs == [] then Some(name)
    else
      var next := NameAfter(create, name, configs[0].text);
      if next.None? then None else NameAfterAll(create, next.value, configs[1..])
  }

  predicate Loads(create: Creator, name: string, configs: seq<Weighted>) {
    configs != [] && NameAfterAll(create, name, configs).Some?
  }

  function IdOf(create: Creator, text: string): string {
    var service := create(text);
    if service.None? then "" else service.value.id
  }

  /** The entries that the selector gets: the ids of the configs with their weights. */
  function Entries(create: Creator, configs: seq<Weighted>): (r: seq<(string, int)>)
    ensures |r| == |configs|
    ensures forall i :: 0 <= i < |r| ==> r[i] == (IdOf(create, configs[i].text), configs[i].weight)
  {
    seq(|configs|, i requires 0 <= i < |configs| => (IdOf(create, configs[i].text), configs[i].weight))
  }

  /** After one config: a config id that is known keeps its context. */
  function Added(create: Creator, l: Loaded, text: string): Loaded {
    var name, service := NameAfter(create, l.name, text), create(text);
    if name.None? || service.None? then l
    else
      var known := service.value.id in l.contexts;
      l.(name := name.value, contexts := if known then l.contexts else l.contexts[service.value.id := service.value])
  }

  /** The configs before the first refused one are added. */
  function AddedAll(create: Creator, l: Loaded, configs: seq<Weighted>): Loaded
    decreases |configs|
  {
    if configs == [] || NameAfter(create, l.name, configs[0].text).None? then l
    else AddedAll(create, Added(create, l, configs[0].text), configs[1..])
  }

  function Deploy(create: Creator, l: Loaded, configs: seq<Weighted>): Loaded {
    var added := AddedAll(create, l, configs);
    if Loads(create, l.name, configs) then added.(entries := Some(Entries(create, configs))) else added
  }

  /** Every text is a config of the service. */
  ghost predicate AllNamed(create: Creator, name: string, configs: seq<Weighted>) {
    forall i :: 0 <= i < |configs| ==>
      create(configs[i].text).Some? && create(configs[i].text).value.name == name
  }

  lemma AllNamedStep(create: Creator, name: string, configs: seq<Weighted>)
    requires configs != []
    ensures AllNamed(create, name, configs) <==>
            && create(configs[0].text).Some? && create(configs[0].text).value.name == name
            && AllNamed(create, name, configs[1..])
  {
    assert forall i :: 0 < i < |configs| ==> configs[i] == configs[1..][i - 1];
  }

  /** A list that starts from a known name loads exactly when every config has that name. */
  lemma {:induction false} LoadsMeans(create: Creator, name: string, configs: seq<Weighted>)
    requires name != ""
    ensures NameAfterAll(create, name, configs) == if AllNamed(create, name, configs) then Some(name) else None
    decreases |configs|
  {
    if configs != [] {
      LoadsMeans(create, name, configs[1..]);
      AllNamedStep(create, name, configs);
    }
  }

  // ---------- what every deployment keeps

  /** Contexts are added, never replaced. */
  ghost predicate Extends(before: map<string, Service>, after: map<string, Service>) {
    forall id :: id in before ==> id in after && after[id] == before[id]
  }

  /** Every id that the selector can return has a context. */
  ghost predicate Sound(l: Loaded) {
    && (forall id :: id in l.contexts ==> l.contexts[id].id == id && l.contexts[id].name in {l.name, ""})
    && (l.entries.Some? ==> l.entries.value != [] && HaveContexts(l.entries.value, l.contexts))
  }

  ghost predicate HaveContexts(entries: seq<(string, int)>, contexts: map<string, Service>) {
    forall i :: 0 <= i < |entries| ==> entries[i].0 in contexts
  }

  lemma AddedKeeps(create: Creator, l: Loaded, text: string)
    requires Sound(l)
    ensures var a := Added(create, l, text);
            && Sound(a) && Extends(l.contexts, a.contexts) && a.entries == l.entries
            && (NameAfter(create, l.name, text).Some? ==> IdOf(create, text) in a.contexts)
  {
  }

  lemma {:induction false} AddedAllKeeps(create: Creator, l: Loaded, configs: seq<Weighted>)
    requires Sound(l)
    ensures var a := AddedAll(create, l, configs);
            && Sound(a) && Extends(l.contexts, a.contexts) && a.entries == l.entries
            && (NameAfterAll(create, l.name, configs).Some? ==> HaveContexts(Entries(create, configs), a.contexts))
    decreases |configs|
  {
    if configs != [] && NameAfter(create, l.name, configs[0].text).Some? {
      var next := Added(create, l, configs[0].text);
      AddedKeeps(create, l, configs[0].text);
      AddedAllKeeps(create, next, configs[1..]);
      assert forall i :: 0 < i < |configs| ==> configs[i] == configs[1..][i - 1];
      if NameAfterAll(create, l.name, configs).Some? {
        forall i | 0 <= i < |configs|
          ensures Entries(create, configs)[i].0 in AddedAll(create, l, configs).contexts
        {
          if i > 0 { assert Entries(create, configs)[i] == Entries(create, configs[1..])[i - 1]; }
        }
      }
    }
  }

  lemma DeployKeeps(create: Creator, l: Loaded, configs: seq<Weighted>)
    requires Sound(l)
    ensures Sound(Deploy(create, l, configs)) && Extends(l.contexts, Deploy(create, l, configs).contexts)
  {
    AddedAllKeeps(create, l, configs);
  }

  // ---------- any sequence of lists

  function DeployAll(create: Creator, l: Loaded, lists: seq<seq<Weighted>>): Loaded
    decreases |lists|
  {
    if lists == [] then l else DeployAll(create, Deploy(create, l, lists[0]), lists[1..])
  }

  /** The list at an index loads when its turn comes. */
  predicate LoadsAt(create: Creator, l: Loaded, lists: seq<seq<Weighted>>, k: nat)
    requires k < |lists|
  {
    Loads(create, DeployAll(create, l, lists[..k]).name, lists[k])
  }

  lemma LoadsAtShift(create: Creator, l: Loaded, lists: seq<seq<Weighted>>, k: nat)
    requires 0 < k < |lists|
    ensures LoadsAt(create, l, lists, k) <==> LoadsAt(create, Deploy(create, l, lists[0]), lists[1..], k - 1)
  {
    assert lists[..k][1..] == lists[1..][..k - 1];
  }

  ghost predicate NoneLoads(create: Creator, l: Loaded, lists: seq<seq<Weighted>>) {
    forall k :: 0 <= k < |lists| ==> !LoadsAt(create, l, lists, k)
  }

  ghost predicate LastToLoad(create: Creator, l: Loaded, lists: seq<seq<Weighted>>, k: nat) {
    k < |lists| && LoadsAt(create, l, lists, k) && forall j :: k < j < |lists| ==> !LoadsAt(create, l, lists, j)
  }

  lemma NoneLoadsShift(create: Creator, l: Loaded, lists: seq<seq<Weighted>>)
    requires lists != []
    ensures NoneLoads(create, Deploy(create, l, lists[0]), lists[1..]) <==>
            forall k :: 0 < k < |lists| ==> !LoadsAt(create, l, lists, k)
  {
    var next, rest := Deploy(create, l, lists[0]), lists[1..];
    forall k | 0 < k < |lists| ensures LoadsAt(create, l, lists, k) <==> LoadsAt(create, next, rest, k - 1) {
      LoadsAtShift(create, l, lists, k);
    }
    assert forall k :: 0 <= k < |rest| ==> (LoadsAt(create, next, rest, k) <==> LoadsAt(create, l, lists, k + 1));
  }

  /** A selector appears, and changes, only when a list loads. */
  lemma {:induction false} SelectorStays(create: Creator, l: Loaded, lists: seq<seq<Weighted>>)
    requires NoneLoads(create, l, lists)
    ensures DeployAll(create, l, lists).entries == l.entries
    decreases |lists|
  {
    if lists != [] {
      NoneLoadsShift(create, l, lists);
      SelectorStays(create, Deploy(create, l, lists[0]), lists[1..]);
      EntriesAreUntouched(create, l, lists[0]);
      assert !LoadsAt(create, l, lists, 0);
    }
  }

  /** It is that of the last list that loaded. */
  lemma {:induction false} SelectorIsLastLoaded(create: Creator, l: Loaded, lists: seq<seq<Weighted>>, k: nat)
    requires LastToLoad(create, l, lists, k)
    ensures DeployAll(create, l, lists).entries == Some(Entries(create, lists[k]))
    decreases |lists|
  {
    var next, rest := Deploy(create, l, lists[0]), lists[1..];
    if k == 0 {
      NoneLoadsShift(create, l, lists);
      SelectorStays(create, next, rest);
    } else {
      forall j | 0 < j < |lists| ensures LoadsAt(create, l, lists, j) <==> LoadsAt(create, next, rest, j - 1) {
        LoadsAtShift(create, l, lists, j);
      }
      assert forall j :: k - 1 < j < |rest| ==> (LoadsAt(create, next, rest, j) <==> LoadsAt(create, l, lists, j + 1));
      SelectorIsLastLoaded(create, next, rest, k - 1);
    }
  }

  lemma {:induction false} EntriesAreUntouched(create: Creator, l: Loaded, configs: seq<Weighted>)
    ensures AddedAll(create, l, configs).entries == l.entries
    decreases |configs|
  {
    if configs != [] && NameAfter(create, l.name, configs[0].text).Some? {
      EntriesAreUntouched(create, Added(create, l, configs[0].text), configs[1..]);
    }
  }

  // ---------- contexts without a selector

  lemma {:induction false} LastLoadExists(create: Creator, l: Loaded, lists: seq<seq<Weighted>>, n: nat)
    returns (k: nat)
    requires n <= |lists| && !NoneLoads(create, l, lists)
    requires forall j :: n <= j < |lists| ==> !LoadsAt(create, l, lists, j)
    ensures LastToLoad(create, l, lists, k)
  {
    if LoadsAt(create, l, lists, n - 1) {
      k := n - 1;
    } else {
      k := LastLoadExists(create, l, lists, n - 1);
    }
  }

  /** Some list begins with a text that is a config. */
  ghost predicate SomeFirstIsConfig(create: Creator, lists: seq<seq<Weighted>>) {
    exists k :: 0 <= k < |lists| && lists[k] != [] && create(lists[k][0].text).Some?
  }

  lemma {:induction false} ContextsStay(create: Creator, l: Loaded, lists: seq<seq<Weighted>>)
    requires Sound(l)
    ensures Sound(DeployAll(create, l, lists)) && Extends(l.contexts, DeployAll(create, l, lists).contexts)
    decreases |lists|
  {
    if lists != [] {
      DeployKeeps(create, l, lists[0]);
      ContextsStay(create, Deploy(create, l, lists[0]), lists[1..]);
    }
  }

  lemma FirstConfigCounts(create: Creator, configs: seq<Weighted>)
    ensures configs == [] || create(configs[0].text).None? ==> Deploy(create, NOTHING, configs) == NOTHING
    ensures configs != [] && create(configs[0].text).Some? ==>
              IdOf(create, configs[0].text) in Deploy(create, NOTHING, configs).contexts
  {
    if configs != [] && create(configs[0].text).Some? {
      var next := Added(create, NOTHING, configs[0].text);
      AddedKeeps(create, NOTHING, configs[0].text);
      AddedAllKeeps(create, next, configs[1..]);
    }
  }

  /** From nothing, there are contexts exactly when some list began with a config. */
  lemma {:induction false} WhenContexts(create: Creator, lists: seq<seq<Weighted>>)
    ensures DeployAll(create, NOTHING, lists).contexts != map[] <==> SomeFirstIsConfig(create, lists)
    decreases |lists|
  {
    if lists != [] {
      var first, rest := lists[0], lists[1..];
      FirstConfigCounts(create, first);
      if first == [] || create(first[0].text).None? {
        WhenContexts(create, rest);
        assert forall k :: 0 < k < |lists| ==> lists[k] == rest[k - 1];
        assert forall k :: 0 <= k < |rest| ==> rest[k] == lists[k + 1];
      } else {
        DeployKeeps(create, NOTHING, first);
        ContextsStay(create, Deploy(create, NOTHING, first), rest);
        assert IdOf(create, first[0].text) in DeployAll(create, NOTHING, lists).contexts;
      }
    }
  }

  /** There are contexts but no selector exactly when no list has loaded although some list began
      with a config: its later configs were refused. */
  lemma ContextsWithoutSelector(create: Creator, lists: seq<seq<Weighted>>)
    ensures var l := DeployAll(create, NOTHING, lists);
            l.contexts != map[] && l.entries.None? <==>
            NoneLoads(create, NOTHING, lists) && SomeFirstIsConfig(create, lists)
  {
    WhenContexts(create, lists);
    if NoneLoads(create, NOTHING, lists) {
      SelectorStays(create, NOTHING, lists);
    } else {
      var k := LastLoadExists(create, NOTHING, lists, |lists|);
      SelectorIsLastLoaded(create, NOTHING, lists, k);
    }
  }

  /** Such a start: the second of two configs is no config. */
  lemma FirstListFailsLate()
    ensures var create := (text: string) => if text == "a" then Some(Service("service", "1")) else None;
            DeployAll(create, NOTHING, [[Weighted("a", 50), Weighted("b", 50)]]) ==
            Loaded("service", map["1" := Service("service", "1")], None)
  {
    var create := (text: string) => if text == "a" then Some(Service("service", "1")) else None;
    var a, b := Weighted("a", 50), Weighted("b", 50);
    assert [a, b][1..] == [b] && [[a, b]][1..] == [];
    var one := Loaded("service", map["1" := Service("service", "1")], None);
    assert Added(create, NOTHING, "a") == one;
    assert AddedAll(create, one, [b]) == one;
    assert NameAfterAll(create, "service", [b]).None?;
  }

  lemma FirstAccepted(create: Creator, l: Loaded, configs: seq<Weighted>)
    requires Sound(l)
    ensures l.contexts == map[] ==>
              (Deploy(create, l, configs).contexts == map[] <==>
               configs == [] || NameAfter(create, l.name, configs[0].text).None?)
  {
    if configs != [] && NameAfter(create, l.name, configs[0].text).Some? {
      AddedKeeps(create, l, configs[0].text);
      AddedAllKeeps(create, Added(create, l, configs[0].text), configs[1..]);
      assert IdOf(create, configs[0].text) in Deploy(create, l, configs).contexts;
    }
  }

  // ---------- the object

  datatype Selection =
    | NoService
    | NullSelector
    | Selected(service: Service)

  class ApiManager {
    const create: Creator
    var serviceName: string
    var contexts: map<string, Service>
    var selector: WeightedSelector?

    ghost function View(): Loaded
      reads this
    {
      Loaded(serviceName, contexts, if selector == null then None else Some(selector.list))
    }

    ghost predicate Valid()
      reads this, selector
    {
      Sound(View()) && (selector != null ==> selector.Valid())
    }

    constructor (create: Creator)
      ensures Valid() && this.create == create && View() == NOTHING
    {
      this.create, serviceName, contexts, selector := create, "", map[], null;
    }

    /** Loads one config; a config id that is known keeps its context. */
    method AddConfig(text: string) returns (configId: Option<string>)
      requires Valid()
      modifies this`serviceName, this`contexts
      ensures Valid() && View() == Added(create, old(View()), text)
      ensures Extends(old(contexts), contexts)
      ensures configId == if NameAfter(create, old(serviceName), text).None? then None else Some(IdOf(create, text))
      ensures configId.Some? ==> configId.value in contexts
    {
      AddedKeeps(create, View(), text);
      var service := create(text);
      if service.None? { return None; }
      if serviceName == "" {
        serviceName := service.value.name;
      } else if service.value.name != serviceName {
        return None;
      }
      if service.value.id !in contexts {
        contexts := contexts[service.value.id := service.value];
      }
      configId := Some(service.value.id);
    }

    /** Loads the configs up to the first refused one. */
    method AddConfigs(configs: seq<Weighted>) returns (list: Option<seq<(string, int)>>)
      requires Valid()
      modifies this`serviceName, this`contexts
      ensures Valid() && View() == AddedAll(create, old(View()), configs)
      ensures list == if NameAfterAll(create, old(serviceName), configs).None? then None
                      else Some(Entries(create, configs))
    {
      var entries: seq<(string, int)> := [];
      for i := 0 to |configs|
        invariant Valid()
        invariant AddedAll(create, View(), configs[i..]) == AddedAll(create, old(View()), configs)
        invariant NameAfterAll(create, serviceName, configs[i..]) == NameAfterAll(create, old(serviceName), configs)
        invariant entries == Entries(create, configs[..i])
      {
        assert configs[i..][0] == configs[i] && configs[i..][1..] == configs[i + 1..];
        var configId := AddConfig(configs[i].text);
        if configId.None? {
          return None;
        }
        entries := entries + [(configId.value, configs[i].weight)];
      }
      assert configs[..|configs|] == configs;
      return Some(entries);
    }

    /** Loads a list of configs and deploys it as a whole. When one is refused the selector
        that was there stays. */
    method AddAndDeployConfigs(configs: seq<Weighted>) returns (ok: bool)
      requires Valid()
      modifies this
      ensures Valid() && View() == Deploy(create, old(View()), configs)
      ensures Extends(old(contexts), contexts)
      ensures ok <==> Loads(create, old(serviceName), configs)
      ensures !ok ==> selector == old(selector)
      ensures ok ==> selector != null && fresh(selector) && selector.Selected == 0
                     && selector.list == Entries(create, configs)
      ensures old(contexts) == map[] ==>
                (contexts == map[] <==> configs == [] || NameAfter(create, old(serviceName), configs[0].text).None?)
    {
      DeployKeeps(create, View(), configs);
      FirstAccepted(create, View(), configs);
      var list := AddConfigs(configs);
      if list.None? || list.value == [] {
        return false;
      }
      selector := new WeightedSelector(list.value);
      ok := true;
    }

    /** The context of the next selected config; without contexts there is none, and contexts
        without a selector are followed into a null pointer. */
    method SelectService() returns (r: Selection)
      requires Valid()
      modifies selector
      ensures Valid() && View() == old(View())
      ensures r.NoService? <==> contexts == map[]
      ensures r.NullSelector? <==> contexts != map[] && selector == null
      ensures r.Selected? ==>
                var pick := selector.list[PickAt(Weights(selector.list), old(selector.Selected))].0;
                pick in contexts && r.service == contexts[pick] && r.service.id == pick
    {
      if contexts == map[] { return NoService; }
      if selector == null { return NullSelector; }
      var name := selector.Select();
      if name in contexts {
        return Selected(contexts[name]);
      }
      return NoService;
    }
  }
}
