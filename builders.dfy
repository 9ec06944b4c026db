/*
  The fluent builders of the registry: the argument-source list, the `NewDefinition`
  builder that `Registry::one` and `Registry::one_of` hand out, and the `One` and
  `OneOf` builders that pass what they collected to a finalizer.

  A builder in the library is consumed and returned by each setter; here it is an
  object the setters update in place, which is the same sequence of states.
*/
module Builders {
  import opened Common
  import opened RegistryModel
  import opened Registries

  // ---------------------------------------------------------------------------
  // Argument sources

  /** The ids of the definitions whose values are passed as arguments, in order. */
  class ArgumentBuilder {
    var argSources: seq<Id>

    constructor ()
      ensures argSources == []
    {
      argSources := [];
    }

    /** `set_arg_sources`: empty the list, then push the sources one by one. */
    method SetArgSources(sources: seq<Id>)
      modifies this
      ensures argSources == sources
    {
      argSources := [];
      var i := 0;
      while i < |sources|
        invariant 0 <= i <= |sources|
        invariant argSources == sources[..i]
      {
        PushArgSource(sources[i]);
        i := i + 1;
      }
    }

    /** `set_arg_source`: the list becomes exactly this one source. */
    method SetArgSource(source: Id)
      modifies this
      ensures argSources == [source]
    {
      argSources := [];
      PushArgSource(source);
    }

    /** `push_arg_source`: one more source at the end. */
    method PushArgSource(source: Id)
      modifies this
      ensures argSources == old(argSources) + [source]
    {
      argSources := argSources + [source];
    }
  }

  // ---------------------------------------------------------------------------
  // NewDefinition

  datatype NewDefinitionParams = NewDefinitionParams(collectionId: Option<Id>, id: Id, value: MetaFactory)

  /** The state after the corrected `NewDefinition::insert`: the group a definition
      names is registered (when it is absent) before the definition is stored. */
  function Inserted(st: RegistryState, p: NewDefinitionParams, args: seq<Id>): RegistryState
  {
    var grouped :=
      if p.collectionId.Some? then DefineGroupIfNotExists(st, p.collectionId.value, AggregateOf(p.value.resultType))
      else st;
    RegistryModel.Define(grouped, p.collectionId, p.id, p.value, args)
  }

  /** The correction changes only the groups: the definitions and overridden lists are
      those the unchanged `insert` leaves, and the groups are the old ones plus the
      named group, which is added only when it was absent. */
  lemma InsertedDiffersOnlyInGroup(st: RegistryState, p: NewDefinitionParams, args: seq<Id>)
    ensures var fixed := Inserted(st, p, args);
      var written := RegistryModel.Define(st, p.collectionId, p.id, p.value, args);
      && fixed.definitions == written.definitions
      && fixed.overridden == written.overridden
      && (p.collectionId.None? ==> fixed.groups == written.groups)
      && (p.collectionId.Some? ==>
            fixed.groups.Keys == st.groups.Keys + {p.collectionId.value}
            && (forall g :: g in st.groups ==> fixed.groups[g] == st.groups[g]))
  {
  }

  /** The corrected `insert` keeps every group a definition names registered. */
  lemma InsertedKeepsRegistered(st: RegistryState, p: NewDefinitionParams, args: seq<Id>)
    requires GroupsRegistered(st)
    ensures GroupsRegistered(Inserted(st, p, args))
    ensures p.id in Inserted(st, p, args).definitions
  {
    var grouped :=
      if p.collectionId.Some? then DefineGroupIfNotExists(st, p.collectionId.value, AggregateOf(p.value.resultType))
      else st;
    assert grouped.definitions == st.definitions && st.groups.Keys <= grouped.groups.Keys;
    assert p.collectionId.Some? ==> p.collectionId.value in grouped.groups;
  }

  /** The builder `Registry::one` and `Registry::one_of` hand out. */
  class NewDefinition {
    const registry: Registry
    var params: NewDefinitionParams
    const argBuilder: ArgumentBuilder

    /** `NewDefinition::new`: the given parameters and no argument sources. */
    constructor (registry: Registry, collectionId: Option<Id>, id: Id, value: MetaFactory)
      ensures this.registry == registry && params == NewDefinitionParams(collectionId, id, value)
      ensures fresh(argBuilder) && argBuilder.argSources == []
    {
      this.registry := registry;
      params := NewDefinitionParams(collectionId, id, value);
      argBuilder := new ArgumentBuilder();
    }

    /** `with_args`: the argument sources become `sources`. */
    method WithArgs(sources: seq<Id>)
      modifies argBuilder
      ensures argBuilder.argSources == sources
    {
      argBuilder.SetArgSources(sources);
    }

    /** `with_arg`: the argument sources become the single `source`. */
    method WithArg(source: Id)
      modifies argBuilder
      ensures argBuilder.argSources == [source]
    {
      argBuilder.SetArgSource(source);
    }

    /** `add_arg`: one more argument source at the end. */
    method AddArg(source: Id)
      modifies argBuilder
      ensures argBuilder.argSources == old(argBuilder.argSources) + [source]
    {
      argBuilder.PushArgSource(source);
    }

    /** `in_group`: the definition becomes a member of `collectionId`. */
    method InGroup(collectionId: Id)
      modifies this
      ensures params == old(params).(collectionId := Some(collectionId))
    {
      params := params.(collectionId := Some(collectionId));
    }

    /** `with_id`: the definition is stored under `id`. */
    method WithId(id: Id)
      modifies this
      ensures params == old(params).(id := id)
    {
      params := params.(id := id);
    }

    /** `insert` as the library writes it: `define` alone, so a group named through
        `in_group` is never registered. */
    method InsertAsWritten() returns (r: Registry)
      modifies registry
      ensures r == registry
      ensures registry.State() ==
        RegistryModel.Define(old(registry.State()), params.collectionId, params.id, params.value, argBuilder.argSources)
      ensures registry.validators == old(registry.validators)
    {
      registry.Define(params.collectionId, params.id, params.value, argBuilder.argSources);
      r := registry;
    }

    /** `insert`, corrected: register the named group if it is absent, as `one_of` and
        `may_be_empty` do, then `define`. */
    method Insert() returns (r: Registry)
      modifies registry
      ensures r == registry
      ensures registry.State() == Inserted(old(registry.State()), params, argBuilder.argSources)
      ensures registry.validators == old(registry.validators)
    {
      if params.collectionId.Some? {
        registry.DefineGroupIfNotExists(params.collectionId.value, AggregateOf(params.value.resultType));
      }
      registry.Define(params.collectionId, params.id, params.value, argBuilder.argSources);
      r := registry;
    }
  }

  /** `Registry::one`: a builder for a definition under `id`, in no group. */
  method RegistryOne(registry: Registry, id: Id, value: MetaFactory) returns (b: NewDefinition)
    ensures fresh(b) && fresh(b.argBuilder)
    ensures b.registry == registry && b.params == NewDefinitionParams(None, id, value)
    ensures b.argBuilder.argSources == []
  {
    b := new NewDefinition(registry, None, id, value);
  }

  /** `Registry::one_of`: register the group if absent, count one more member, and
      hand out a builder for that member under the id named after the new count. */
  method RegistryOneOf(registry: Registry, collectionId: Id, value: MetaFactory) returns (b: NewDefinition)
    modifies registry
    ensures registry.State() == AddMember(old(registry.State()), collectionId, AggregateOf(value.resultType))
    ensures registry.validators == old(registry.validators)
    ensures fresh(b) && fresh(b.argBuilder)
    ensures b.registry == registry
    ensures b.params ==
      NewDefinitionParams(Some(collectionId), MemberId(collectionId, registry.State().groups[collectionId].memberCount), value)
    ensures b.argBuilder.argSources == []
  {
    var id := registry.NextMemberId(collectionId, value);
    b := new NewDefinition(registry, Some(collectionId), id, value);
  }

  // ---------------------------------------------------------------------------
  // Registrations replayed from an empty registry

  /** The calls that change a registry's definitions and groups, with the corrected
      `NewDefinition::insert`. */
  datatype Registration =
    | InsertOneCall(id: Id, value: MetaFactory)
    | InsertOneOfCall(collectionId: Id, value: MetaFactory)
    | MayBeEmptyCall(collectionId: Id, itemType: TypeName)
    | OneOfStart(collectionId: Id, value: MetaFactory)
    | NewDefinitionInsert(params: NewDefinitionParams, args: seq<Id>)

  function Apply(st: RegistryState, call: Registration): RegistryState
  {
    match call
    case InsertOneCall(id, value) => RegistryModel.Define(st, None, id, value, [])
    case InsertOneOfCall(c, value) =>
      var counted := AddMember(st, c, AggregateOf(value.resultType));
      RegistryModel.Define(counted, Some(c), MemberId(c, counted.groups[c].memberCount), value, [])
    case MayBeEmptyCall(c, itemType) => DefineGroupIfNotExists(st, c, AggregateOf(itemType))
    case OneOfStart(c, value) => AddMember(st, c, AggregateOf(value.resultType))
    case NewDefinitionInsert(p, args) => Inserted(st, p, args)
  }

  /** The state after the calls, oldest first, on a new registry. */
  function Replay(calls: seq<Registration>): RegistryState
  {
    if calls == [] then EmptyRegistry else Apply(Replay(calls[..|calls| - 1]), calls[|calls| - 1])
  }

  /** Every call keeps each group a definition names registered. */
  lemma ApplyKeepsRegistered(st: RegistryState, call: Registration)
    requires GroupsRegistered(st)
    ensures GroupsRegistered(Apply(st, call))
  {
    match call
    case InsertOneCall(id, value) =>
    case InsertOneOfCall(c, value) =>
      var counted := AddMember(st, c, AggregateOf(value.resultType));
      AddMemberProperties(st, c, AggregateOf(value.resultType));
      assert GroupsRegistered(counted);
    case MayBeEmptyCall(c, itemType) =>
    case OneOfStart(c, value) =>
      AddMemberProperties(st, c, AggregateOf(value.resultType));
    case NewDefinitionInsert(p, args) => InsertedKeepsRegistered(st, p, args);
  }

  lemma {:induction false} ReplayRegistered(calls: seq<Registration>)
    ensures GroupsRegistered(Replay(calls))
  {
    if calls != [] {
      ReplayRegistered(calls[..|calls| - 1]);
      ApplyKeepsRegistered(Replay(calls[..|calls| - 1]), calls[|calls| - 1]);
    }
  }

  /** With the corrected `insert` and the corrected dependency check, a registry whose
      validators all pass never makes `compile` panic on an unknown id, however it was
      filled. */
  lemma CorrectedCompileNeverUnknown(calls: seq<Registration>)
    requires CorrectedValidatorsClean(Replay(calls))
    ensures !(BuildAll(Replay(calls)).CompilePanic? && BuildAll(Replay(calls)).reason.UnknownId?)
  {
    ReplayRegistered(calls);
    CleanIsResolvable(Replay(calls));
    CompileNeverUnknown(Replay(calls));
  }

  /** With the corrected `insert` and the validators `Registry::new` installs, a
      registry whose validators all pass and where no id is both a definition and a
      group never makes `compile` panic on an unknown id. */
  lemma UnshadowedCompileNeverUnknown(calls: seq<Registration>)
    requires ValidatorsClean(Replay(calls))
    requires Replay(calls).definitions.Keys !! Replay(calls).groups.Keys
    ensures !(BuildAll(Replay(calls)).CompilePanic? && BuildAll(Replay(calls)).reason.UnknownId?)
  {
    ReplayRegistered(calls);
    CleanResolvesUnshadowed(Replay(calls));
    CompileNeverUnknown(Replay(calls));
  }

  /** `registry.one("a", ..).in_group("g").insert()` on a new registry: as written it
      leaves the registry that makes `compile` panic on the unknown id "g"; corrected,
      "g" is registered. */
  lemma InGroupInsertAsWrittenPanics()
    ensures var p := NewDefinitionParams(Some("g"), "a", MetaFactory([], "T"));
      && RegistryModel.Define(EmptyRegistry, p.collectionId, p.id, p.value, []) == UngroupedDefinitionState()
      && BuildAll(UngroupedDefinitionState()) == CompilePanic(UnknownId("g"))
      && "g" in Inserted(EmptyRegistry, p, []).groups
  {
    UngroupedDefinitionPanics();
  }

  // ---------------------------------------------------------------------------
  // One and OneOf

  datatype OneParams = OneParams(id: Id, value: MetaFactory)

  datatype OneOfParams = OneOfParams(collectionId: Id, id: Id, value: MetaFactory)

  /** The `One` builder: collects argument sources and hands them, with the id and the
      value, to its finalizer. */
  class One {
    const finalizer: Registry
    const params: OneParams
    const argBuilder: ArgumentBuilder

    /** `One::new`. */
    constructor (finalizer: Registry, id: Id, value: MetaFactory)
      ensures this.finalizer == finalizer && params == OneParams(id, value)
      ensures fresh(argBuilder) && argBuilder.argSources == []
    {
      this.finalizer := finalizer;
      params := OneParams(id, value);
      argBuilder := new ArgumentBuilder();
    }

    method WithArgs(sources: seq<Id>)
      modifies argBuilder
      ensures argBuilder.argSources == sources
    {
      argBuilder.SetArgSources(sources);
    }

    method WithArg(source: Id)
      modifies argBuilder
      ensures argBuilder.argSources == [source]
    {
      argBuilder.SetArgSource(source);
    }

    method AddArg(source: Id)
      modifies argBuilder
      ensures argBuilder.argSources == old(argBuilder.argSources) + [source]
    {
      argBuilder.PushArgSource(source);
    }

    /** `insert`: the finalizer receives the id, the value and the sources. */
    method Insert() returns (r: Registry)
      modifies finalizer
      ensures r == finalizer
      ensures finalizer.finalized ==
        old(finalizer.finalized) + [FinalizedOne(params.id, params.value, argBuilder.argSources)]
      ensures finalizer.State() == old(finalizer.State())
    {
      finalizer.FinalizeOne(params.id, params.value, argBuilder.argSources);
      r := finalizer;
    }
  }

  /** The `OneOf` builder: as `One`, with a collection id as well. */
  class OneOf {
    const finalizer: Registry
    const params: OneOfParams
    const argBuilder: ArgumentBuilder

    /** `OneOf::new`. */
    constructor (finalizer: Registry, collectionId: Id, id: Id, value: MetaFactory)
      ensures this.finalizer == finalizer && params == OneOfParams(collectionId, id, value)
      ensures fresh(argBuilder) && argBuilder.argSources == []
    {
      this.finalizer := finalizer;
      params := OneOfParams(collectionId, id, value);
      argBuilder := new ArgumentBuilder();
    }

    method WithArgs(sources: seq<Id>)
      modifies argBuilder
      ensures argBuilder.argSources == sources
    {
      argBuilder.SetArgSources(sources);
    }

    method WithArg(source: Id)
      modifies argBuilder
      ensures argBuilder.argSources == [source]
    {
      argBuilder.SetArgSource(source);
    }

    method AddArg(source: Id)
      modifies argBuilder
      ensures argBuilder.argSources == old(argBuilder.argSources) + [source]
    {
      argBuilder.PushArgSource(source);
    }

    /** `insert`: the finalizer receives the collection id, the id, the value and the
        sources. */
    method Insert() returns (r: Registry)
      modifies finalizer
      ensures r == finalizer
      ensures finalizer.finalized ==
        old(finalizer.finalized) + [FinalizedOneOf(params.collectionId, params.id, params.value, argBuilder.argSources)]
      ensures finalizer.State() == old(finalizer.State())
    {
      finalizer.FinalizeOneOf(params.collectionId, params.id, params.value, argBuilder.argSources);
      r := finalizer;
    }
  }
}
