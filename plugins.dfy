/**
 * The source registry (`SourceRegistry`): two dictionaries from names to
 * source classes and to factories, with registration, lookup, listing and
 * removal.
 */
module Plugins {
  import opened Wrappers
  import opened Strings
  import opened Ordering
  import opened Exceptions

  /** What `hasattr` and `callable` see of a class attribute. */
  datatype Member = Method | Attribute

  /** A source class, seen through its attributes. */
  datatype SourceClass = SourceClass(members: map<string, Member>)

  /** A factory function, known by its identity only: calling it is outside the model. */
  datatype Factory = Factory(id: nat)

  /** What `get` instantiates. */
  datatype Provider = ByFactory(f: Factory) | ByClass(c: SourceClass)

  const RequiredMethods: seq<string> := ["lcu_usd_exchange", "price_deflator", "validate"]

  /** The class has every required method, and each is callable. */
  predicate Conforms(c: SourceClass) {
    forall k :: 0 <= k < |RequiredMethods| ==> RequiredMethods[k] in c.members && c.members[RequiredMethods[k]] == Method
  }

  /** The two dictionaries of a registry. */
  datatype State = State(sources: map<string, SourceClass>, factories: map<string, Factory>)

  predicate Registered(s: State, name: string) {
    name in s.sources || name in s.factories
  }

  /** `register(name, source_class, factory, override=…)` */
  function Registration(s: State, name: string, cls: Option<SourceClass>, factory: Option<Factory>, override: bool): (r: Outcome<State>)
    ensures cls.None? && factory.None? ==> r == Fail(Plugin("Must provide either source_class or factory", Some(name)))
    ensures r.Fail? <==> (cls.None? && factory.None?) || (!override && name in s.sources) || (cls.Some? && !Conforms(cls.value))
    ensures r.Fail? ==> r.error.cls == PluginError
    ensures r.Ok? ==> Registered(r.value, name)
    ensures r.Ok? ==> r.value.sources == (if cls.Some? then s.sources[name := cls.value] else s.sources)
    ensures r.Ok? ==> r.value.factories == (if factory.Some? then s.factories[name := factory.value] else s.factories)
  {
    if cls.None? && factory.None? then
      Fail(Plugin("Must provide either source_class or factory", Some(name)))
    else if !override && name in s.sources then
      Fail(Plugin("Source '" + name + "' already registered. Use override=True to replace.", Some(name)))
    else if cls.Some? && !Conforms(cls.value) then
      Fail(Plugin("Source class must implement SourceProtocol", Some(name)))
    else
      Ok(State(if cls.Some? then s.sources[name := cls.value] else s.sources,
               if factory.Some? then s.factories[name := factory.value] else s.factories))
  }

  /** `unregister(name)` */
  function Removal(s: State, name: string): (r: Outcome<State>)
    ensures r.Fail? <==> !Registered(s, name)
    ensures r.Fail? ==> r.error == Plugin("Cannot unregister '" + name + "': not found", Some(name))
    ensures r.Ok? ==> !Registered(r.value, name)
    ensures r.Ok? ==> forall n :: n != name ==> (n in r.value.sources <==> n in s.sources) && (n in r.value.factories <==> n in s.factories)
    ensures r.Ok? ==> forall n :: n != name && n in s.sources ==> r.value.sources[n] == s.sources[n]
    ensures r.Ok? ==> forall n :: n != name && n in s.factories ==> r.value.factories[n] == s.factories[n]
  {
    if !Registered(s, name) then Fail(Plugin("Cannot unregister '" + name + "': not found", Some(name)))
    else Ok(State(s.sources - {name}, s.factories - {name}))
  }

  /** Registering a new name and then removing it gives back the registry. */
  lemma RegisterUnregister(s: State, name: string, cls: Option<SourceClass>, factory: Option<Factory>, override: bool)
    requires !Registered(s, name)
    requires Registration(s, name, cls, factory, override).Ok?
    ensures Removal(Registration(s, name, cls, factory, override).value, name) == Ok(s)
  {
    var t := Registration(s, name, cls, factory, override).value;
    assert t.sources - {name} == s.sources;
    assert t.factories - {name} == s.factories;
  }

  /** Registration leaves every other name as it was. */
  lemma RegisterKeepsOthers(s: State, name: string, cls: Option<SourceClass>, factory: Option<Factory>, override: bool, other: string)
    requires other != name && Registration(s, name, cls, factory, override).Ok?
    ensures var t := Registration(s, name, cls, factory, override).value;
            (other in t.sources <==> other in s.sources) && (other in t.sources ==> t.sources[other] == s.sources[other])
            && (other in t.factories <==> other in s.factories) && (other in t.factories ==> t.factories[other] == s.factories[other])
  {
  }

  /** What `get` builds for a name: the factory first, then the class. */
  function Lookup(s: State, name: string): (p: Option<Provider>)
    ensures p.None? <==> !Registered(s, name)
    ensures name in s.factories ==> p == Some(ByFactory(s.factories[name]))
    ensures name !in s.factories && name in s.sources ==> p == Some(ByClass(s.sources[name]))
  {
    if name in s.factories then Some(ByFactory(s.factories[name]))
    else if name in s.sources then Some(ByClass(s.sources[name]))
    else None
  }

  /** The order `sorted` puts names in. */
  function NameLt(): (string, string) -> bool {
    (a: string, b: string) => LexLt(a, b)
  }

  lemma NameLtIsStrictTotalOrder()
    ensures StrictTotalOrder(NameLt())
  {
    forall a: string ensures !NameLt()(a, a) { LexLtIrreflexive(a); }
    forall a: string, b: string, c: string | NameLt()(a, b) && NameLt()(b, c) ensures NameLt()(a, c) {
      LexLtTransitive(a, b, c);
    }
    forall a: string, b: string | a != b ensures NameLt()(a, b) || NameLt()(b, a) { LexLtTotal(a, b); }
  }

  class SourceRegistry {
    var sources: map<string, SourceClass>
    var factories: map<string, Factory>

    function Current(): State
      reads this
    {
      State(sources, factories)
    }

    /** An empty registry. */
    constructor ()
      ensures sources == map[] && factories == map[]
    {
      sources := map[];
      factories := map[];
    }

    /** `_check_protocol_conformance`: every required method exists and is callable. */
    method CheckProtocolConformance(c: SourceClass) returns (ok: bool)
      ensures ok <==> Conforms(c)
    {
      var k := 0;
      while k < |RequiredMethods|
        invariant 0 <= k <= |RequiredMethods|
        invariant forall q :: 0 <= q < k ==> RequiredMethods[q] in c.members && c.members[RequiredMethods[q]] == Method
      {
        var m := RequiredMethods[k];
        if m !in c.members || c.members[m] != Method {
          return false;
        }
        k := k + 1;
      }
      return true;
    }

    /** `register`: on error the registry is unchanged. */
    method Register(name: string, cls: Option<SourceClass>, factory: Option<Factory>, override: bool) returns (err: Option<Error>)
      modifies this
      ensures var r := Registration(old(Current()), name, cls, factory, override);
              if r.Ok? then err.None? && Current() == r.value else err == Some(r.error) && Current() == old(Current())
    {
      if cls.None? && factory.None? {
        return Some(Plugin("Must provide either source_class or factory", Some(name)));
      }
      if !override && name in sources {
        return Some(Plugin("Source '" + name + "' already registered. Use override=True to replace.", Some(name)));
      }
      if cls.Some? {
        var ok := CheckProtocolConformance(cls.value);
        if !ok {
          return Some(Plugin("Source class must implement SourceProtocol", Some(name)));
        }
        sources := sources[name := cls.value];
      }
      if factory.Some? {
        factories := factories[name := factory.value];
      }
      return None;
    }

    /** `list_sources`: the names of both dictionaries, sorted and without duplicates. */
    method ListSources() returns (names: seq<string>)
      ensures StrictlySorted(NameLt(), names)
      ensures forall n :: n in names <==> Registered(Current(), n)
    {
      NameLtIsStrictTotalOrder();
      var remaining := sources.Keys + factories.Keys;
      names := [];
      while remaining != {}
        invariant StrictlySorted(NameLt(), names)
        invariant Elems(names) + remaining == sources.Keys + factories.Keys
        decreases |remaining|
      {
        var n :| n in remaining;
        InsertCorrect(NameLt(), names, n);
        names := Insert(NameLt(), names, n);
        remaining := remaining - {n};
      }
      assert forall n :: n in names <==> n in Elems(names);
    }

    predicate IsRegistered(name: string)
      reads this
    {
      Registered(Current(), name)
    }

    /**
     * `get(name, **kwargs)`: the factory, else the class, is called. `attempt`
     * gives the exception text when that call raises.
     */
    method Get(name: string, attempt: Provider -> Option<string>) returns (r: Outcome<Provider>)
      ensures Lookup(Current(), name).Some? && attempt(Lookup(Current(), name).value).None? ==> r == Ok(Lookup(Current(), name).value)
      ensures name in factories && attempt(ByFactory(factories[name])).Some? ==>
                r == Fail(Plugin("Factory function failed: " + attempt(ByFactory(factories[name])).value, Some(name)))
      ensures name !in factories && name in sources && attempt(ByClass(sources[name])).Some? ==>
                r == Fail(Plugin("Source instantiation failed: " + attempt(ByClass(sources[name])).value, Some(name)))
      ensures !IsRegistered(name) ==> r.Fail? && r.error.cls == PluginError
      ensures !IsRegistered(name) ==>
                exists names :: StrictlySorted(NameLt(), names) && (forall n :: n in names <==> Registered(Current(), n)) &&
                  r == Fail(Plugin("Source '" + name + "' not found. Available sources: " + ListRepr(names), Some(name)))
    {
      if name in factories {
        var e := attempt(ByFactory(factories[name]));
        if e.Some? {
          return Fail(Plugin("Factory function failed: " + e.value, Some(name)));
        }
        return Ok(ByFactory(factories[name]));
      }
      if name in sources {
        var e := attempt(ByClass(sources[name]));
        if e.Some? {
          return Fail(Plugin("Source instantiation failed: " + e.value, Some(name)));
        }
        return Ok(ByClass(sources[name]));
      }
      var available := ListSources();
      return Fail(Plugin("Source '" + name + "' not found. Available sources: " + ListRepr(available), Some(name)));
    }

    /** `unregister(name)`: on error the registry is unchanged. */
    method Unregister(name: string) returns (err: Option<Error>)
      modifies this
      ensures var r := Removal(old(Current()), name);
              if r.Ok? then err.None? && Current() == r.value else err == Some(r.error) && Current() == old(Current())
    {
      if !IsRegistered(name) {
        return Some(Plugin("Cannot unregister '" + name + "': not found", Some(name)));
      }
      sources := sources - {name};
      factories := factories - {name};
      return None;
    }
  }
}
