/** The registry (src/registry/mod.rs): definitions and groups registered by id,
    the validators run by `compile`, and the recursive construction of factories
    with cycle detection along an explicit dependency chain. */
module Registries {
  import opened Common
  import opened RegistryModel
  import opened Validators

  // ---------------------------------------------------------------------------
  // Factories and outcomes

  /** A built factory: one made by a definition's metafactory from its argument
      factories, or a group's aggregate factory over its members' factories. */
  datatype Factory =
    | DefinitionFactory(id: Id, metafactory: MetaFactory, args: seq<Factory>)
    | GroupFactory(id: Id, aggregate: Aggregate, members: seq<Factory>)

  /** The type of the values a factory produces. */
  function FactoryType(f: Factory): TypeName
  {
    match f
    case DefinitionFactory(_, mf, _) => mf.resultType
    case GroupFactory(_, agg, _) => agg.containerType
  }

  /** The fatal failures (`expect`) factory construction can reach. */
  datatype Fatal =
    | UnknownId(id: Id)               // neither a definition nor a group
    | ArgumentTypesDiffer(id: Id)     // the metafactory refuses the argument factories

  /** How one construction ends: a value, a dependency cycle, or a fatal failure. */
  datatype Outcome<T> = Built(value: T) | Cycle(path: seq<Id>) | Panic(reason: Fatal)

  /** A failed outcome, carried over to another result type. */
  function Fail<A, B>(o: Outcome<A>): (r: Outcome<B>)
    requires !o.Built?
    ensures r.Cycle? <==> o.Cycle?
    ensures r.Cycle? ==> r.path == o.path
    ensures r.Panic? ==> r.reason == o.reason
  {
    if o.Cycle? then Cycle(o.path) else Panic(o.reason)
  }

  /** The factories match the metafactory's argument types, one for one. */
  predicate Fits(factories: seq<Factory>, argTypes: seq<TypeName>)
  {
    |factories| == |argTypes| && forall i :: 0 <= i < |factories| ==> FactoryType(factories[i]) == argTypes[i]
  }

  /** Every registered group has an entry in the group map. */
  ghost predicate GroupsCovered(st: RegistryState, groups: map<Id, set<Id>>)
  {
    forall g :: g in st.groups ==> g in groups
  }

  lemma GroupDependenciesCover(st: RegistryState)
    ensures GroupsCovered(st, GroupDependencies(st))
  {
    GroupDependenciesShape(st);
  }

  // ---------------------------------------------------------------------------
  // Resolution, as functions

  /** The first of `sources` already on the chain. */
  function FirstInChain(sources: seq<Id>, chain: seq<Id>): (r: Option<Id>)
    ensures r.None? <==> forall s :: s in sources ==> s !in chain
    ensures r.Some? ==> r.value in sources && r.value in chain
  {
    if sources == [] then None
    else if sources[0] in chain then Some(sources[0])
    else FirstInChain(sources[1..], chain)
  }

  /** The resolvable ids not yet on the chain: the measure that shrinks at every
      nested `create_factory`. */
  ghost function Unvisited(st: RegistryState, chain: seq<Id>): set<Id>
  {
    AllIds(st) - (set x | x in chain)
  }

  lemma VisitShrinks(st: RegistryState, chain: seq<Id>, id: Id)
    requires id in AllIds(st) && id !in chain
    ensures |Unvisited(st, chain + [id])| + 1 == |Unvisited(st, chain)|
  {
    assert Unvisited(st, chain + [id]) == Unvisited(st, chain) - {id};
  }

  /** `create_factory`: push `id` on the chain; a definition first checks its sources
      against the chain and then builds its arguments; otherwise a group checks and
      builds its members in ascending order; an id that is neither is fatal. A source
      already on the chain ends with the chain plus that source as the cycle. */
  ghost function CreateFactorySpec(st: RegistryState, groups: map<Id, set<Id>>, chain: seq<Id>, id: Id): Outcome<Factory>
    requires id !in chain && GroupsCovered(st, groups)
    decreases |Unvisited(st, chain)|, 2, 0
  {
    var c := chain + [id];
    if id in st.definitions then
      var definition := st.definitions[id];
      var found := FirstInChain(definition.argSources, c);
      if found.Some? then Cycle(c + [found.value])
      else
        VisitShrinks(st, chain, id);
        DefinitionFactorySpec(st, groups, c, id, definition)
    else if id in st.groups then
      var members := SortedKeys(groups[id]);
      var found := FirstInChain(members, c);
      if found.Some? then Cycle(c + [found.value])
      else
        VisitShrinks(st, chain, id);
        GroupFactorySpec(st, groups, c, id, st.groups[id], members)
    else Panic(UnknownId(id))
  }

  /** `create_definition_factory`: build every source, then hand the factories to the
      metafactory, which fails fatally unless they fit its argument types. */
  ghost function DefinitionFactorySpec(st: RegistryState, groups: map<Id, set<Id>>, chain: seq<Id>, id: Id,
                                       definition: DefinitionCandidate): Outcome<Factory>
    requires GroupsCovered(st, groups)
    requires forall s :: s in definition.argSources ==> s !in chain
    decreases |Unvisited(st, chain)| + 1, 1, 0
  {
    var args := CreateEachSpec(st, groups, chain, definition.argSources);
    if !args.Built? then Fail(args)
    else if Fits(args.value, definition.metafactory.argTypes) then
      Built(DefinitionFactory(id, definition.metafactory, args.value))
    else Panic(ArgumentTypesDiffer(id))
  }

  /** `create_group_factory`: build every member and aggregate them. */
  ghost function GroupFactorySpec(st: RegistryState, groups: map<Id, set<Id>>, chain: seq<Id>, id: Id,
                                  group: GroupCandidate, members: seq<Id>): Outcome<Factory>
    requires GroupsCovered(st, groups)
    requires forall s :: s in members ==> s !in chain
    decreases |Unvisited(st, chain)| + 1, 1, 0
  {
    var built := CreateEachSpec(st, groups, chain, members);
    if built.Built? then Built(GroupFactory(id, group.aggregate, built.value)) else Fail(built)
  }

  /** Build the factories for `sources` in order, stopping at the first failure. */
  ghost function CreateEachSpec(st: RegistryState, groups: map<Id, set<Id>>, chain: seq<Id>, sources: seq<Id>): Outcome<seq<Factory>>
    requires GroupsCovered(st, groups)
    requires forall s :: s in sources ==> s !in chain
    decreases |Unvisited(st, chain)| + 1, 0, |sources|
  {
    if sources == [] then Built([])
    else
      var head := CreateFactorySpec(st, groups, chain, sources[0]);
      if !head.Built? then Fail(head)
      else
        var tail := CreateEachSpec(st, groups, chain, sources[1..]);
        if tail.Built? then Built([head.value] + tail.value) else tail
  }

  /** The factories built so far in front of what is still to come. */
  function Prepend(done: seq<Factory>, rest: Outcome<seq<Factory>>): Outcome<seq<Factory>>
  {
    if rest.Built? then Built(done + rest.value) else rest
  }

  /** One step of building `rest` in order: a built factory joins those before it,
      and a failure ends the whole list with that failure. */
  lemma EachStep(st: RegistryState, groups: map<Id, set<Id>>, chain: seq<Id>, rest: seq<Id>, done: seq<Factory>)
    requires GroupsCovered(st, groups) && rest != []
    requires forall s :: s in rest ==> s !in chain
    ensures var head := CreateFactorySpec(st, groups, chain, rest[0]);
      var before := Prepend(done, CreateEachSpec(st, groups, chain, rest));
      && (head.Built? ==> before == Prepend(done + [head.value], CreateEachSpec(st, groups, chain, rest[1..])))
      && (!head.Built? ==> before == Fail(head))
  {
    var head := CreateFactorySpec(st, groups, chain, rest[0]);
    var tail := CreateEachSpec(st, groups, chain, rest[1..]);
    if head.Built? && tail.Built? {
      assert done + ([head.value] + tail.value) == (done + [head.value]) + tail.value;
    }
  }

  lemma PrependNothing(rest: Outcome<seq<Factory>>)
    ensures Prepend([], rest) == rest
  {
    if rest.Built? {
      assert [] + rest.value == rest.value;
    }
  }

  // ---------------------------------------------------------------------------
  // Compilation, as functions

  /** How one of `compile`'s two loops ends: it finished, perhaps early at a
      cycle, or a construction failed fatally. */
  datatype LoopOutcome =
    | Finished(factories: map<Id, Factory>, cycle: Option<seq<Id>>)
    | Aborted(reason: Fatal)

  /** One loop of `compile`: build each id with a fresh chain, storing the factory,
      and stop at the first cycle. */
  ghost function BuildLoop(st: RegistryState, groups: map<Id, set<Id>>, ids: seq<Id>, factories: map<Id, Factory>): LoopOutcome
    requires GroupsCovered(st, groups)
  {
    if ids == [] then Finished(factories, None)
    else
      match CreateFactorySpec(st, groups, [], ids[0])
      case Built(f) => BuildLoop(st, groups, ids[1..], factories[ids[0] := f])
      case Cycle(path) => Finished(factories, Some(path))
      case Panic(reason) => Aborted(reason)
  }

  function CycleErrors(cycle: Option<seq<Id>>): seq<CompileError>
  {
    if cycle.Some? then [Circular(CircularDependency(cycle.value))] else []
  }

  /** What `compile` returns: the container's factories, the error summary, or the
      fatal failure it stops at. */
  datatype CompileOutcome =
    | Compiled(factories: map<Id, Factory>)
    | Failed(errors: seq<CompileError>)
    | CompilePanic(reason: Fatal)

  /** `compile` once the validators are clean: the definitions loop in ascending id
      order, then the groups loop over the group map (which runs even when the first
      loop stopped at a cycle); any cycle makes the result an error. */
  ghost function BuildAll(st: RegistryState): CompileOutcome
  {
    var groups := GroupDependencies(st);
    GroupDependenciesCover(st);
    var definitionsLoop := BuildLoop(st, groups, SortedKeys(st.definitions.Keys), map[]);
    if definitionsLoop.Aborted? then CompilePanic(definitionsLoop.reason)
    else
      var groupsLoop := BuildLoop(st, groups, SortedKeys(groups.Keys), definitionsLoop.factories);
      if groupsLoop.Aborted? then CompilePanic(groupsLoop.reason)
      else
        var errors := CycleErrors(definitionsLoop.cycle) + CycleErrors(groupsLoop.cycle);
        if errors == [] then Compiled(groupsLoop.factories) else Failed(errors)
  }

  /** All three validators installed by `Registry::new` report nothing. */
  ghost predicate ValidatorsClean(st: RegistryState)
  {
    ArgumentCountErrors(st) == [] && OverrideErrors(st) == [] && DependencyErrors(st) == {}
  }

  /** The same three checks report nothing when the dependency check is the corrected
      one, which also checks a definition that shares its id with a group. */
  ghost predicate CorrectedValidatorsClean(st: RegistryState)
  {
    ArgumentCountErrors(st) == [] && OverrideErrors(st) == [] && CorrectedDependencyErrors(st) == {}
  }

  /** `after` extends `before`: every validator only appends to the summary. */
  lemma ReportedExtends(v: ValidatorKind, st: RegistryState, before: seq<CompileError>, after: seq<CompileError>)
    requires Reported(v, st, before, after)
    ensures |after| >= |before| && after[..|before|] == before
  {
  }

  lemma ReportedAllStep(vs: seq<ValidatorKind>, v: ValidatorKind, st: RegistryState,
                        before: seq<CompileError>, after: seq<CompileError>)
    requires ReportedAll(vs, st, before) && Reported(v, st, before, after)
    ensures ReportedAll(vs + [v], st, after)
  {
    ReportedExtends(v, st, before, after);
    assert (vs + [v])[..|vs|] == vs;
    assert after[..|before|] == before;
  }

  /** The first of `sources` already on the chain, by a scan in order. */
  method FindInChain(sources: seq<Id>, chain: seq<Id>) returns (found: Option<Id>)
    ensures found == FirstInChain(sources, chain)
  {
    var i := 0;
    while i < |sources|
      invariant 0 <= i <= |sources|
      invariant FirstInChain(sources, chain) == FirstInChain(sources[i..], chain)
    {
      assert sources[i..][1..] == sources[i + 1..];
      if sources[i] in chain {
        return Some(sources[i]);
      }
      i := i + 1;
    }
    return None;
  }

  // ---------------------------------------------------------------------------
  // The registry

  /** A registration the `One` and `OneOf` builders' finalizers hand on to
      `finalize_with_args_one` and `finalize_with_args_one_of`. */
  datatype Finalized =
    | FinalizedOne(id: Id, value: MetaFactory, argSources: seq<Id>)
    | FinalizedOneOf(collectionId: Id, id: Id, value: MetaFactory, argSources: seq<Id>)

  // ---------------------------------------------------------------------------
  // Building factories. `create_factory` and the methods it calls only read the
  // registry (`&self`), so they take its contents as a value.

  /** `create_factory`. */
  method CreateFactory(st: RegistryState, groupMap: map<Id, set<Id>>, chain: seq<Id>, id: Id) returns (r: Outcome<Factory>, chainOut: seq<Id>)
    requires id !in chain && GroupsCovered(st, groupMap)
    ensures r == CreateFactorySpec(st, groupMap, chain, id)
    ensures r.Built? ==> chainOut == chain
    decreases |Unvisited(st, chain)|, 2, 0
  {
    var c := chain + [id];
    chainOut := c;
    if id in st.definitions {
      var definition := st.definitions[id];
      var found := FindInChain(definition.argSources, c);
      if found.Some? {
        chainOut := c + [found.value];
        return Cycle(chainOut), chainOut;
      }
      VisitShrinks(st, chain, id);
      r, chainOut := CreateDefinitionFactory(st, groupMap, c, id, definition);
    } else if id in st.groups {
      var members := SortedElements(groupMap[id]);
      var found := FindInChain(members, c);
      if found.Some? {
        chainOut := c + [found.value];
        return Cycle(chainOut), chainOut;
      }
      VisitShrinks(st, chain, id);
      r, chainOut := CreateGroupFactory(st, groupMap, c, id, st.groups[id], members);
    } else {
      r := Panic(UnknownId(id));
    }
    if |chainOut| > 0 {
      chainOut := chainOut[..|chainOut| - 1];
    }
  }

  /** `create_definition_factory`. */
  method CreateDefinitionFactory(st: RegistryState, groupMap: map<Id, set<Id>>, chain: seq<Id>, id: Id, definition: DefinitionCandidate)
    returns (r: Outcome<Factory>, chainOut: seq<Id>)
    requires GroupsCovered(st, groupMap)
    requires forall s :: s in definition.argSources ==> s !in chain
    ensures r == DefinitionFactorySpec(st, groupMap, chain, id, definition)
    ensures r.Built? ==> chainOut == chain
    decreases |Unvisited(st, chain)| + 1, 1, 0
  {
    var args;
    args, chainOut := CreateEach(st, groupMap, chain, definition.argSources);
    if !args.Built? {
      r := Fail(args);
    } else if Fits(args.value, definition.metafactory.argTypes) {
      r := Built(DefinitionFactory(id, definition.metafactory, args.value));
    } else {
      r := Panic(ArgumentTypesDiffer(id));
    }
  }

  /** `create_group_factory`. */
  method CreateGroupFactory(st: RegistryState, groupMap: map<Id, set<Id>>, chain: seq<Id>, id: Id, group: GroupCandidate, members: seq<Id>)
    returns (r: Outcome<Factory>, chainOut: seq<Id>)
    requires GroupsCovered(st, groupMap)
    requires forall s :: s in members ==> s !in chain
    ensures r == GroupFactorySpec(st, groupMap, chain, id, group, members)
    ensures r.Built? ==> chainOut == chain
    decreases |Unvisited(st, chain)| + 1, 1, 0
  {
    var built;
    built, chainOut := CreateEach(st, groupMap, chain, members);
    if built.Built? {
      r := Built(GroupFactory(id, group.aggregate, built.value));
    } else {
      r := Fail(built);
    }
  }

  /** The loop `create_definition_factory` and `create_group_factory` share: build
      each id in order, and stop at the first one that fails. */
  method CreateEach(st: RegistryState, groupMap: map<Id, set<Id>>, chain: seq<Id>, sources: seq<Id>)
    returns (r: Outcome<seq<Factory>>, chainOut: seq<Id>)
    requires GroupsCovered(st, groupMap)
    requires forall s :: s in sources ==> s !in chain
    ensures r == CreateEachSpec(st, groupMap, chain, sources)
    ensures r.Built? ==> chainOut == chain
    decreases |Unvisited(st, chain)| + 1, 0, |sources|
  {
        ghost var whole := CreateEachSpec(st, groupMap, chain, sources);
    var factories: seq<Factory> := [];
    var rest := sources;
    chainOut := chain;
    PrependNothing(whole);
    while rest != []
      invariant chainOut == chain
      invariant forall s :: s in rest ==> s !in chain
      invariant whole == Prepend(factories, CreateEachSpec(st, groupMap, chain, rest))
      decreases |rest|
    {
      var f, chainAfter := CreateNext(st, groupMap, chain, rest, factories);
      if !f.Built? {
        return Fail(f), chainAfter;
      }
      factories := factories + [f.value];
      rest := rest[1..];
    }
    assert factories + [] == factories;
    r := Built(factories);
  }

  /** One step of `CreateEach`: build the next id. */
  method CreateNext(st: RegistryState, groupMap: map<Id, set<Id>>, chain: seq<Id>, rest: seq<Id>, ghost done: seq<Factory>)
    returns (f: Outcome<Factory>, chainAfter: seq<Id>)
    requires GroupsCovered(st, groupMap) && rest != []
    requires forall s :: s in rest ==> s !in chain
    ensures var before := Prepend(done, CreateEachSpec(st, groupMap, chain, rest));
      && (f.Built? ==> before == Prepend(done + [f.value], CreateEachSpec(st, groupMap, chain, rest[1..])))
      && (!f.Built? ==> before == Fail(f))
    decreases |Unvisited(st, chain)| + 1, 0, 0
  {
    EachStep(st, groupMap, chain, rest, done);
    f, chainAfter := CreateFactory(st, groupMap, chain, rest[0]);
  }

  /** One of `compile`'s loops: build every id in ascending order with a fresh
      chain, and stop at the first cycle. */
  method BuildEach(st: RegistryState, groupMap: map<Id, set<Id>>, ids: set<Id>, factories: map<Id, Factory>) returns (out: LoopOutcome)
    requires GroupsCovered(st, groupMap)
    ensures out == BuildLoop(st, groupMap, SortedKeys(ids), factories)
  {
    var rest := ids;
    var built := factories;
    while rest != {}
      invariant BuildLoop(st, groupMap, SortedKeys(ids), factories) == BuildLoop(st, groupMap, SortedKeys(rest), built)
      decreases |rest|
    {
      var id, rest' := PopLeast(rest);
      assert SortedKeys(rest)[1..] == SortedKeys(rest');
      var f, _ := CreateFactory(st, groupMap, [], id);
      if f.Cycle? {
        return Finished(built, Some(f.path));
      } else if f.Panic? {
        return Aborted(f.reason);
      }
      built := built[id := f.value];
      rest := rest';
    }
    return Finished(built, None);
  }


  class Registry {
    var groups: map<Id, GroupCandidate>
    var definitions: map<Id, DefinitionCandidate>
    var overridden: map<Id, seq<DefinitionCandidate>>
    var validators: seq<ValidatorKind>
    /** The registrations handed on by the builders' finalizers, oldest first. */
    var finalized: seq<Finalized>

    /** The registered groups, definitions and overridden candidates. */
    function State(): RegistryState
      reads this
    {
      RegistryState(groups, definitions, overridden)
    }

    /** `Registry::new`: empty, with the argument-count, override and dependency
        validators, in that order. */
    constructor ()
      ensures State() == EmptyRegistry && validators == DefaultValidators && finalized == []
    {
      groups, definitions, overridden, validators, finalized := map[], map[], map[], [], [];
      new;
      PushValidator(ArgumentCountCheck);
      PushValidator(NoOverridesCheck);
      PushValidator(DependencyCheck);
    }

    method PushValidator(v: ValidatorKind)
      modifies this
      ensures validators == old(validators) + [v] && State() == old(State()) && finalized == old(finalized)
    {
      validators := validators + [v];
    }

    /** `define`: a candidate already under `id` moves to the end of that id's
        overridden list, and the new candidate takes its place. */
    method Define(collectionId: Option<Id>, id: Id, value: MetaFactory, args: seq<Id>)
      modifies this
      ensures State() == RegistryModel.Define(old(State()), collectionId, id, value, args)
      ensures validators == old(validators) && finalized == old(finalized)
    {
      if id in definitions {
        var replaced := definitions[id];
        var earlier := if id in overridden then overridden[id] else [];
        overridden := overridden[id := earlier + [replaced]];
      }
      definitions := definitions[id := DefinitionCandidate(value, args, collectionId)];
    }

    /** `define_group_if_not_exists`. */
    method DefineGroupIfNotExists(collectionId: Id, aggregate: Aggregate)
      modifies this
      ensures State() == RegistryModel.DefineGroupIfNotExists(old(State()), collectionId, aggregate)
      ensures validators == old(validators) && finalized == old(finalized)
    {
      if collectionId !in groups {
        groups := groups[collectionId := NewGroupCandidate(aggregate)];
      }
    }

    /** `insert_one`: a definition without arguments and without a group. */
    method InsertOne(id: Id, value: MetaFactory)
      modifies this
      ensures State() == RegistryModel.Define(old(State()), None, id, value, [])
      ensures validators == old(validators) && finalized == old(finalized)
    {
      Define(None, id, value, []);
    }

    /** The first half of `one_of` and `insert_one_of`: make sure the group exists,
        count one more member, and name the member after the new count. */
    method NextMemberId(collectionId: Id, value: MetaFactory) returns (id: Id)
      modifies this
      ensures State() == AddMember(old(State()), collectionId, AggregateOf(value.resultType))
      ensures id == MemberId(collectionId, State().groups[collectionId].memberCount)
      ensures validators == old(validators) && finalized == old(finalized)
    {
      DefineGroupIfNotExists(collectionId, AggregateOf(value.resultType));
      var group := groups[collectionId];
      groups := groups[collectionId := group.(memberCount := group.memberCount + 1)];
      id := MemberId(collectionId, group.memberCount + 1);
    }

    /** `insert_one_of`: a new member without arguments, under the next member id. */
    method InsertOneOf(collectionId: Id, value: MetaFactory)
      modifies this
      ensures var counted := AddMember(old(State()), collectionId, AggregateOf(value.resultType));
        State() == RegistryModel.Define(counted, Some(collectionId),
                                        MemberId(collectionId, counted.groups[collectionId].memberCount), value, [])
      ensures validators == old(validators) && finalized == old(finalized)
    {
      var id := NextMemberId(collectionId, value);
      Define(Some(collectionId), id, value, []);
    }

    /** `may_be_empty`: register the group of `itemType` values if it is absent. */
    method MayBeEmpty(collectionId: Id, itemType: TypeName)
      modifies this
      ensures State() == RegistryModel.DefineGroupIfNotExists(old(State()), collectionId, AggregateOf(itemType))
      ensures validators == old(validators) && finalized == old(finalized)
    {
      DefineGroupIfNotExists(collectionId, AggregateOf(itemType));
    }

    /** `OneFinalizer for Registry`: hand the id, value and sources on unchanged. */
    method FinalizeOne(id: Id, value: MetaFactory, argSources: seq<Id>)
      modifies this
      ensures finalized == old(finalized) + [FinalizedOne(id, value, argSources)]
      ensures State() == old(State()) && validators == old(validators)
    {
      finalized := finalized + [FinalizedOne(id, value, argSources)];
    }

    /** `OneOfFinalizer for Registry`: hand the collection id, id, value and sources
        on unchanged. */
    method FinalizeOneOf(collectionId: Id, id: Id, value: MetaFactory, argSources: seq<Id>)
      modifies this
      ensures finalized == old(finalized) + [FinalizedOneOf(collectionId, id, value, argSources)]
      ensures State() == old(State()) && validators == old(validators)
    {
      finalized := finalized + [FinalizedOneOf(collectionId, id, value, argSources)];
    }

    /** `collect_group_dependencies`: the members of every named collection, then an
        empty member set for every registered group nobody names. */
    method CollectGroupDependencies() returns (result: map<Id, set<Id>>)
      ensures result == GroupDependencies(State())
    {
      ghost var st := State();
      result := CollectMembers(State());
      GroupMapStart(st);
      var rest := groups.Keys;
      assert st.groups.Keys - rest == {};
      while rest != {}
        invariant rest <= st.groups.Keys
        invariant result == GroupMapOver(st, st.groups.Keys - rest)
        decreases |rest|
      {
        var id, rest' := PopLeast(rest);
        GroupMapStep(st, st.groups.Keys - rest, id, result);
        VisitOneMore(st.groups.Keys, rest, id);
        if id !in result {
          result := result[id := {}];
        }
        rest := rest';
      }
      AllVisited(st.groups.Keys);
      GroupMapEnd(st);
    }

    /** The first loop of `compile`: every validator appends its report. */
    method Validate() returns (summary: seq<CompileError>)
      ensures ReportedAll(validators, State(), summary)
    {
      summary := [];
      var i := 0;
      while i < |validators|
        invariant 0 <= i <= |validators|
        invariant ReportedAll(validators[..i], State(), summary)
      {
        var before := summary;
        summary := RunValidator(validators[i], State(), summary);
        ReportedAllStep(validators[..i], validators[i], State(), before, summary);
        assert validators[..i + 1] == validators[..i] + [validators[i]];
        i := i + 1;
      }
      assert validators[..i] == validators;
    }

    /** The second half of `compile`, reached only with an empty summary: the
        definitions loop, then the groups loop, each stopping at its first cycle. */
    method BuildFactories(groupMap: map<Id, set<Id>>) returns (r: CompileOutcome)
      requires groupMap == GroupDependencies(State())
      ensures r == BuildAll(State())
    {
      GroupDependenciesCover(State());
      var definitionsLoop := BuildEach(State(), groupMap, definitions.Keys, map[]);
      if definitionsLoop.Aborted? {
        return CompilePanic(definitionsLoop.reason);
      }
      var summary := CycleErrors(definitionsLoop.cycle);
      var groupsLoop := BuildEach(State(), groupMap, groupMap.Keys, definitionsLoop.factories);
      if groupsLoop.Aborted? {
        return CompilePanic(groupsLoop.reason);
      }
      summary := summary + CycleErrors(groupsLoop.cycle);
      if summary == [] {
        r := Compiled(groupsLoop.factories);
      } else {
        r := Failed(summary);
      }
    }

    /** `compile`: run the validators and, only if they report nothing, build the
        factories. The summary is the result whenever it is not empty. */
    method Compile() returns (r: CompileOutcome)
      requires validators == DefaultValidators
      ensures ValidatorsClean(State()) ==> r == BuildAll(State())
      ensures !ValidatorsClean(State()) ==> r.Failed? && ReportedAll(DefaultValidators, State(), r.errors)
    {
      var summary := Validate();
      CleanIffEmpty(State(), summary);
      var groupMap := CollectGroupDependencies();
      if summary == [] {
        r := BuildFactories(groupMap);
      } else {
        r := Failed(summary);
      }
    }
  }

  /** The validators `Registry::new` installs leave the summary empty exactly when
      none of them finds anything. */
  lemma CleanIffEmpty(st: RegistryState, s: seq<CompileError>)
    requires ReportedAll(DefaultValidators, st, s)
    ensures s == [] <==> ValidatorsClean(st)
  {
    DefaultReport(st, s);
  }

  /** The group map over the named collections and the registered groups `done`. */
  ghost function GroupMapOver(st: RegistryState, done: set<Id>): map<Id, set<Id>>
  {
    map c | c in CollectionIdsOf(st) + done :: MembersOf(st, c)
  }

  /** A collection with a member is one some definition names. */
  lemma MembersAreNamed(st: RegistryState, c: Id)
    ensures MembersOf(st, c) != {} ==> c in CollectionIdsOf(st)
  {
    if MembersOf(st, c) != {} {
      var id :| id in MembersOf(st, c);
      assert st.definitions[id].collectionId.value == c;
    }
  }

  /** Taking `id` out of the ids still to visit adds it to the visited ones. */
  lemma VisitOneMore(all: set<Id>, rest: set<Id>, id: Id)
    requires id in rest && rest <= all
    ensures (all - rest) + {id} == all - (rest - {id})
  {
  }

  lemma AllVisited(all: set<Id>)
    ensures all - {} == all
  {
  }

  lemma GroupMapStart(st: RegistryState)
    ensures GroupMapOver(st, {}) == CollectionMembers(st)
  {
    assert GroupMapOver(st, {}).Keys == CollectionMembers(st).Keys;
  }

  lemma GroupMapEnd(st: RegistryState)
    ensures GroupMapOver(st, st.groups.Keys) == GroupDependencies(st)
  {
  }

  /** One step of the loop over registered groups. */
  lemma GroupMapStep(st: RegistryState, done: set<Id>, g: Id, m: map<Id, set<Id>>)
    requires m == GroupMapOver(st, done)
    ensures GroupMapOver(st, done + {g}) == if g in m then m else m[g := {}]
  {
    var after := GroupMapOver(st, done + {g});
    if g in m {
      assert after.Keys == m.Keys;
    } else {
      assert after.Keys == m.Keys + {g};
      MembersAreNamed(st, g);
    }
  }


  // ---------------------------------------------------------------------------
  // What a reported cycle is

  /** `a` needs `b`: a definition needs each of its sources, and a registered group
      that is not also a definition needs each of its members. */
  ghost predicate DependsOn(st: RegistryState, groups: map<Id, set<Id>>, a: Id, b: Id)
  {
    if a in st.definitions then b in st.definitions[a].argSources
    else a in st.groups && a in groups && b in groups[a]
  }

  /** The id at position `j` of `path` needs the next one. */
  ghost predicate StepAt(st: RegistryState, groups: map<Id, set<Id>>, path: seq<Id>, j: int)
    requires 0 <= j < |path| - 1
  {
    DependsOn(st, groups, path[j], path[j + 1])
  }

  /** `path` extends `prefix`; from the last id of `prefix` on, each id needs the next;
      and the last id already occurs earlier on the path. */
  ghost predicate CycleFrom(st: RegistryState, groups: map<Id, set<Id>>, prefix: seq<Id>, path: seq<Id>)
  {
    && |prefix| > 0 && |path| > |prefix| && path[..|prefix|] == prefix
    && (forall j :: |prefix| - 1 <= j < |path| - 1 ==> StepAt(st, groups, path, j))
    && path[|path| - 1] in path[..|path| - 1]
  }

  /** A cycle found below a dependency of the chain's last id is a cycle from the
      chain itself. */
  lemma CycleExtend(st: RegistryState, groups: map<Id, set<Id>>, chain: seq<Id>, s: Id, path: seq<Id>)
    requires |chain| > 0 && DependsOn(st, groups, chain[|chain| - 1], s)
    requires CycleFrom(st, groups, chain + [s], path)
    ensures CycleFrom(st, groups, chain, path)
  {
    assert path[..|chain|] == (chain + [s])[..|chain|] == chain;
    assert path[|chain|] == s;
    assert StepAt(st, groups, path, |chain| - 1);
    var last := path[|path| - 1];
    assert last in path[..|path| - 1];
  }

  /** A dependency already on the chain closes a cycle right away. */
  lemma DirectCycle(st: RegistryState, groups: map<Id, set<Id>>, chain: seq<Id>, s: Id)
    requires |chain| > 0 && DependsOn(st, groups, chain[|chain| - 1], s) && s in chain
    ensures CycleFrom(st, groups, chain, chain + [s])
  {
    var path := chain + [s];
    assert path[..|chain|] == chain;
    assert StepAt(st, groups, path, |chain| - 1);
  }

  /** Every cycle `create_factory` reports is genuine: the path is the chain, then
      `id`, then ids each needed by the one before, ending with an id that is already
      on the path. */
  lemma {:induction false} CreateCycleSound(st: RegistryState, groups: map<Id, set<Id>>, chain: seq<Id>, id: Id)
    requires id !in chain && GroupsCovered(st, groups)
    ensures var r := CreateFactorySpec(st, groups, chain, id);
      r.Cycle? ==> CycleFrom(st, groups, chain + [id], r.path)
    decreases |Unvisited(st, chain)|, 2, 0
  {
    var c := chain + [id];
    if id in st.definitions {
      var definition := st.definitions[id];
      var found := FirstInChain(definition.argSources, c);
      if found.Some? {
        DirectCycle(st, groups, c, found.value);
      } else {
        VisitShrinks(st, chain, id);
        DefinitionCycleSound(st, groups, c, id, definition);
      }
    } else if id in st.groups {
      var members := SortedKeys(groups[id]);
      SortedKeysMembers(groups[id]);
      var found := FirstInChain(members, c);
      if found.Some? {
        DirectCycle(st, groups, c, found.value);
      } else {
        VisitShrinks(st, chain, id);
        assert members[0..] == members;
        EachCycleSound(st, groups, c, members, 0);
      }
    }
  }

  lemma {:induction false} DefinitionCycleSound(st: RegistryState, groups: map<Id, set<Id>>, chain: seq<Id>, id: Id,
                                                definition: DefinitionCandidate)
    requires GroupsCovered(st, groups)
    requires forall s :: s in definition.argSources ==> s !in chain
    requires |chain| > 0 && chain[|chain| - 1] == id && id in st.definitions && st.definitions[id] == definition
    ensures var r := DefinitionFactorySpec(st, groups, chain, id, definition);
      r.Cycle? ==> CycleFrom(st, groups, chain, r.path)
    decreases |Unvisited(st, chain)| + 1, 1, 0
  {
    assert definition.argSources[0..] == definition.argSources;
    EachCycleSound(st, groups, chain, definition.argSources, 0);
  }

  /** What `create_factory` builds below `a`, in order: a definition's sources, or a
      group's members. */
  ghost function ChildrenOf(st: RegistryState, groups: map<Id, set<Id>>, a: Id): seq<Id>
  {
    if a in st.definitions then st.definitions[a].argSources
    else if a in groups then SortedKeys(groups[a])
    else []
  }

  lemma ChildNeeded(st: RegistryState, groups: map<Id, set<Id>>, a: Id, k: nat)
    requires a in st.definitions || a in st.groups
    requires k < |ChildrenOf(st, groups, a)|
    ensures DependsOn(st, groups, a, ChildrenOf(st, groups, a)[k])
  {
    if a !in st.definitions && a in groups {
      SortedKeysMembers(groups[a]);
    }
  }

  lemma {:induction false} EachCycleSound(st: RegistryState, groups: map<Id, set<Id>>, chain: seq<Id>, children: seq<Id>, k: nat)
    requires GroupsCovered(st, groups) && k <= |children|
    requires forall s :: s in children[k..] ==> s !in chain
    requires |chain| > 0 && (chain[|chain| - 1] in st.definitions || chain[|chain| - 1] in st.groups)
    requires children == ChildrenOf(st, groups, chain[|chain| - 1])
    ensures var r := CreateEachSpec(st, groups, chain, children[k..]);
      r.Cycle? ==> CycleFrom(st, groups, chain, r.path)
    decreases |Unvisited(st, chain)| + 1, 0, |children| - k
  {
    if k < |children| {
      var s := children[k];
      assert children[k..][0] == s && children[k..][1..] == children[k + 1..];
      var head := CreateFactorySpec(st, groups, chain, s);
      CreateCycleSound(st, groups, chain, s);
      if head.Cycle? {
        ChildNeeded(st, groups, chain[|chain| - 1], k);
        CycleExtend(st, groups, chain, s, head.path);
      } else if head.Built? {
        EachCycleSound(st, groups, chain, children, k + 1);
      }
    }
  }


  // ---------------------------------------------------------------------------
  // When no id is unknown

  /** Every source of every definition is a definition or a registered group. */
  ghost predicate Resolvable(st: RegistryState)
  {
    forall id, s :: id in st.definitions && s in st.definitions[id].argSources ==> s in AllIds(st)
  }

  /** Every member the group map lists is a definition. */
  ghost predicate MembersDefined(st: RegistryState, groups: map<Id, set<Id>>)
  {
    forall g, s :: g in groups && s in groups[g] ==> s in st.definitions
  }

  ghost predicate NotUnknown<T>(o: Outcome<T>)
  {
    !(o.Panic? && o.reason.UnknownId?)
  }

  /** With the argument counts right and the corrected dependency check finding
      nothing, every source names something that exists. */
  lemma CleanIsResolvable(st: RegistryState)
    requires ArgumentCountErrors(st) == [] && CorrectedDependencyErrors(st) == {}
    ensures Resolvable(st)
  {
    ArgumentCountCleanIff(st);
    forall id, s | id in st.definitions && s in st.definitions[id].argSources
      ensures s in AllIds(st)
    {
      var d := st.definitions[id];
      CorrectedDefinitionMissingExact(st, id);
      assert !CountMismatches(d);
      var i :| 0 <= i < |d.argSources| && d.argSources[i] == s;
      assert s in DefinitionArguments(d);
      assert DefinitionArguments(d) - AllIds(st) == {};
      assert s !in DefinitionArguments(d) - AllIds(st);
    }
  }

  /** What the validators as written guarantee: with the argument counts right and no
      dependency reported, every source of a definition that no group of the same id
      replaces names something that exists. When no id is both, that is every source. */
  lemma CleanResolvesUnshadowed(st: RegistryState)
    requires ArgumentCountErrors(st) == [] && DependencyErrors(st) == {}
    ensures forall id, s :: id in st.definitions && id !in st.groups && s in st.definitions[id].argSources ==> s in AllIds(st)
    ensures st.definitions.Keys !! st.groups.Keys ==> Resolvable(st)
  {
    forall id, s | id in st.definitions && id !in st.groups && s in st.definitions[id].argSources
      ensures s in AllIds(st)
    {
      UnshadowedSourceResolves(st, id, s);
    }
  }

  lemma UnshadowedSourceResolves(st: RegistryState, id: Id, s: Id)
    requires ArgumentCountErrors(st) == [] && DependencyErrors(st) == {}
    requires id in st.definitions && id !in st.groups && s in st.definitions[id].argSources
    ensures s in AllIds(st)
  {
    var d := st.definitions[id];
    ArgumentCountCleanIff(st);
    DefinitionMissingExact(st, id);
    assert !CountMismatches(d);
    var i :| 0 <= i < |d.argSources| && d.argSources[i] == s;
    assert s in DefinitionArguments(d);
    assert s !in DefinitionArguments(d) - AllIds(st);
  }

  lemma GroupMembersDefined(st: RegistryState)
    ensures MembersDefined(st, GroupDependencies(st))
  {
    GroupDependenciesShape(st);
  }

  /** `create_factory` never meets an unknown id when every source and member
      resolves. */
  lemma {:induction false} CreateResolves(st: RegistryState, groups: map<Id, set<Id>>, chain: seq<Id>, id: Id)
    requires id !in chain && GroupsCovered(st, groups)
    requires Resolvable(st) && MembersDefined(st, groups) && id in AllIds(st)
    ensures NotUnknown(CreateFactorySpec(st, groups, chain, id))
    decreases |Unvisited(st, chain)|, 2, 0
  {
    var c := chain + [id];
    if id in st.definitions {
      var definition := st.definitions[id];
      if FirstInChain(definition.argSources, c).None? {
        VisitShrinks(st, chain, id);
        EachResolves(st, groups, c, definition.argSources);
      }
    } else {
      var members := SortedKeys(groups[id]);
      SortedKeysMembers(groups[id]);
      if FirstInChain(members, c).None? {
        VisitShrinks(st, chain, id);
        EachResolves(st, groups, c, members);
      }
    }
  }

  lemma {:induction false} EachResolves(st: RegistryState, groups: map<Id, set<Id>>, chain: seq<Id>, sources: seq<Id>)
    requires GroupsCovered(st, groups)
    requires forall s :: s in sources ==> s !in chain
    requires Resolvable(st) && MembersDefined(st, groups)
    requires forall s :: s in sources ==> s in AllIds(st)
    ensures NotUnknown(CreateEachSpec(st, groups, chain, sources))
    decreases |Unvisited(st, chain)| + 1, 0, |sources|
  {
    if sources != [] {
      CreateResolves(st, groups, chain, sources[0]);
      if CreateFactorySpec(st, groups, chain, sources[0]).Built? {
        EachResolves(st, groups, chain, sources[1..]);
      }
    }
  }

  lemma {:induction false} LoopResolves(st: RegistryState, groups: map<Id, set<Id>>, ids: seq<Id>, factories: map<Id, Factory>)
    requires GroupsCovered(st, groups) && Resolvable(st) && MembersDefined(st, groups)
    requires forall id :: id in ids ==> id in AllIds(st)
    ensures var r := BuildLoop(st, groups, ids, factories);
      !(r.Aborted? && r.reason.UnknownId?)
  {
    if ids != [] {
      CreateResolves(st, groups, [], ids[0]);
      var f := CreateFactorySpec(st, groups, [], ids[0]);
      if f.Built? {
        LoopResolves(st, groups, ids[1..], factories[ids[0] := f.value]);
      }
    }
  }

  /** When every argument source names a definition or a registered group (which
      clean validators guarantee, see `CleanIsResolvable` and
      `CleanResolvesUnshadowed`) and every group a definition names is registered,
      `compile` never stops at an unknown id. */
  lemma CompileNeverUnknown(st: RegistryState)
    requires Resolvable(st) && GroupsRegistered(st)
    ensures !(BuildAll(st).CompilePanic? && BuildAll(st).reason.UnknownId?)
  {
    var groups := GroupDependencies(st);
    GroupDependenciesCover(st);
    DefinitionsLoopResolves(st);
    var definitionsLoop := BuildLoop(st, groups, SortedKeys(st.definitions.Keys), map[]);
    if definitionsLoop.Finished? {
      GroupsLoopResolves(st, definitionsLoop.factories);
    }
  }

  /** The first loop of `compile` never meets an unknown id. */
  lemma DefinitionsLoopResolves(st: RegistryState)
    requires Resolvable(st)
    ensures var r := BuildLoop(st, GroupDependencies(st), SortedKeys(st.definitions.Keys), map[]);
      !(r.Aborted? && r.reason.UnknownId?)
  {
    GroupDependenciesCover(st);
    GroupMembersDefined(st);
    SortedKeysMembers(st.definitions.Keys);
    LoopResolves(st, GroupDependencies(st), SortedKeys(st.definitions.Keys), map[]);
  }

  /** The second loop of `compile` never meets an unknown id. */
  lemma GroupsLoopResolves(st: RegistryState, factories: map<Id, Factory>)
    requires Resolvable(st) && GroupsRegistered(st)
    ensures var groups := GroupDependencies(st);
      var r := BuildLoop(st, groups, SortedKeys(groups.Keys), factories);
      !(r.Aborted? && r.reason.UnknownId?)
  {
    var groups := GroupDependencies(st);
    GroupDependenciesCover(st);
    GroupDependenciesKeys(st);
    GroupMembersDefined(st);
    SortedKeysMembers(groups.Keys);
    LoopResolves(st, groups, SortedKeys(groups.Keys), factories);
  }

  // ---------------------------------------------------------------------------
  // What a compiled container holds

  /** `f` is the factory of `id`: a definition's (which shadows a group of the same
      id) built from arguments of the right types, or else a registered group's. */
  ghost predicate FactoryFor(st: RegistryState, id: Id, f: Factory)
  {
    && f.id == id
    && (id in st.definitions ==>
          f.DefinitionFactory? && f.metafactory == st.definitions[id].metafactory
          && Fits(f.args, f.metafactory.argTypes))
    && (id !in st.definitions ==> id in st.groups && f.GroupFactory? && f.aggregate == st.groups[id].aggregate)
  }

  lemma BuiltIsFactoryFor(st: RegistryState, groups: map<Id, set<Id>>, chain: seq<Id>, id: Id)
    requires id !in chain && GroupsCovered(st, groups)
    ensures var r := CreateFactorySpec(st, groups, chain, id);
      r.Built? ==> FactoryFor(st, id, r.value)
  {
  }

  lemma {:induction false} LoopFactories(st: RegistryState, groups: map<Id, set<Id>>, ids: seq<Id>, factories: map<Id, Factory>)
    requires GroupsCovered(st, groups)
    requires forall k :: k in factories ==> FactoryFor(st, k, factories[k])
    ensures var r := BuildLoop(st, groups, ids, factories);
      && (r.Finished? ==> forall k :: k in r.factories ==> FactoryFor(st, k, r.factories[k]))
      && (r.Finished? && r.cycle.None? ==> r.factories.Keys == factories.Keys + (set k | k in ids))
  {
    if ids != [] {
      var f := CreateFactorySpec(st, groups, [], ids[0]);
      if f.Built? {
        BuiltIsFactoryFor(st, groups, [], ids[0]);
        var next := factories[ids[0] := f.value];
        LoopFactories(st, groups, ids[1..], next);
        assert (set k | k in ids) == {ids[0]} + (set k | k in ids[1..]) by {
          assert ids == [ids[0]] + ids[1..];
        }
      }
    }
  }

  /** A successful `compile` has one factory for every definition and every group
      id, each the factory of that id. */
  lemma CompiledHoldsAll(st: RegistryState)
    ensures var r := BuildAll(st);
      r.Compiled? ==>
        && r.factories.Keys == st.definitions.Keys + GroupDependencies(st).Keys
        && forall k :: k in r.factories ==> FactoryFor(st, k, r.factories[k])
  {
    var groups := GroupDependencies(st);
    GroupDependenciesCover(st);
    var ids := SortedKeys(st.definitions.Keys);
    CompiledShape(st);
    TwoLoops(st, groups, ids, SortedKeys(groups.Keys));
    ElementsOfSorted(st.definitions.Keys);
    ElementsOfSorted(groups.Keys);
  }

  /** `compile` succeeds only when both loops finish without a cycle, with the
      factories of the second. */
  lemma CompiledShape(st: RegistryState)
    ensures var groups := GroupDependencies(st);
      GroupsCovered(st, groups) &&
      var r := BuildAll(st);
      r.Compiled? ==>
        var one := BuildLoop(st, groups, SortedKeys(st.definitions.Keys), map[]);
        && one.Finished? && one.cycle.None?
        && var two := BuildLoop(st, groups, SortedKeys(groups.Keys), one.factories);
        && two.Finished? && two.cycle.None? && r.factories == two.factories
  {
    GroupDependenciesCover(st);
  }

  /** Two loops run one after the other without a cycle cover both id lists. */
  lemma TwoLoops(st: RegistryState, groups: map<Id, set<Id>>, first: seq<Id>, second: seq<Id>)
    requires GroupsCovered(st, groups)
    ensures var one := BuildLoop(st, groups, first, map[]);
      one.Finished? && one.cycle.None? ==>
        var two := BuildLoop(st, groups, second, one.factories);
        two.Finished? && two.cycle.None? ==>
          && two.factories.Keys == (set k | k in first) + (set k | k in second)
          && forall k :: k in two.factories ==> FactoryFor(st, k, two.factories[k])
  {
    LoopFactories(st, groups, first, map[]);
    var one := BuildLoop(st, groups, first, map[]);
    if one.Finished? && one.cycle.None? {
      LoopFactories(st, groups, second, one.factories);
      assert one.factories.Keys == (set k | k in first);
    }
  }


  lemma ElementsOfSorted(s: set<string>)
    ensures (set k | k in SortedKeys(s)) == s
  {
    SortedKeysMembers(s);
  }


  // ---------------------------------------------------------------------------
  // Two registries the validators pass that `compile` cannot build

  /** The registry after `one("a", v).in_group("g").insert()` as written: the
      definition names group "g", which nothing registers. */
  function UngroupedDefinitionState(): RegistryState
  {
    RegistryModel.Define(EmptyRegistry, Some("g"), "a", MetaFactory([], "T"), [])
  }

  /** No validator objects to it, yet `compile` reaches the group "g" in its second
      loop and fails on an id that is neither a definition nor a registered group. */
  lemma UngroupedDefinitionPanics()
    ensures ValidatorsClean(UngroupedDefinitionState())
    ensures !GroupsRegistered(UngroupedDefinitionState())
    ensures BuildAll(UngroupedDefinitionState()) == CompilePanic(UnknownId("g"))
  {
    var st := UngroupedDefinitionState();
    var d := DefinitionCandidate(MetaFactory([], "T"), [], Some("g"));
    assert st == RegistryState(map[], map["a" := d], map[]);
    ArgumentCountCleanIff(st);
    UngroupedValidatorsPass();
    UngroupedBuildPanics();
  }

  lemma UngroupedBuildPanics()
    ensures BuildAll(UngroupedDefinitionState()) == CompilePanic(UnknownId("g"))
  {
    var st := UngroupedDefinitionState();
    var d := DefinitionCandidate(MetaFactory([], "T"), [], Some("g"));
    assert st == RegistryState(map[], map["a" := d], map[]);
    UngroupedMembers();
    var groups := GroupDependencies(st);
    GroupDependenciesCover(st);
    SortedKeysSingleton("a");
    SortedKeysSingleton("g");
    assert st.definitions.Keys == {"a"};
    assert ["a"][1..] == [] && ["g"][1..] == [];
    var built := DefinitionFactory("a", d.metafactory, []);
    assert CreateEachSpec(st, groups, ["a"], []) == Built([]);
    assert CreateFactorySpec(st, groups, [], "a") == Built(built);
    assert BuildLoop(st, groups, ["a"], map[]) == Finished(map["a" := built], None);
    assert CreateFactorySpec(st, groups, [], "g") == Panic(UnknownId("g"));
  }

  lemma UngroupedValidatorsPass()
    ensures OverrideErrors(UngroupedDefinitionState()) == []
    ensures DependencyErrors(UngroupedDefinitionState()) == {}
  {
    var st := UngroupedDefinitionState();
    var d := DefinitionCandidate(MetaFactory([], "T"), [], Some("g"));
    assert st == RegistryState(map[], map["a" := d], map[]);
    assert SortedKeys(st.overridden.Keys) == [];
    assert GroupRequirements(st, CollectionMembers(st)) == map[];
    assert DefinitionArguments(d) == {};
    assert RequirementsAsWritten(st) == map["a" := {}];
    assert MissingIn(RequirementsAsWritten(st), "a") == {};
  }

  lemma UngroupedMembers()
    ensures GroupDependencies(UngroupedDefinitionState()) == map["g" := {"a"}]
  {
    var st := UngroupedDefinitionState();
    assert st.definitions["a"].collectionId == Some("g");
    assert CollectionIdsOf(st) == {"g"};
    assert MembersOf(st, "g") == {"a"};
  }

  /** The registry where a definition "g" needing the undefined "nope" hides behind
      the group "g" passes every validator `Registry::new` installs, and `compile` then
      fails on "nope". The corrected dependency check reports it, so with that check
      `compile` returns the error instead. */
  lemma ShadowedDefinitionPanics()
    ensures ValidatorsClean(ShadowedDefinitionState())
    ensures BuildAll(ShadowedDefinitionState()) == CompilePanic(UnknownId("nope"))
    ensures !CorrectedValidatorsClean(ShadowedDefinitionState())
  {
    ShadowedDefinitionMissed();
    ShadowedCountsAndOverrides();
    ShadowedBuildPanics();
  }

  lemma ShadowedCountsAndOverrides()
    ensures ArgumentCountErrors(ShadowedDefinitionState()) == []
    ensures OverrideErrors(ShadowedDefinitionState()) == []
  {
    var st := ShadowedDefinitionState();
    ArgumentCountCleanIff(st);
    assert !CountMismatches(st.definitions["g"]) && !CountMismatches(st.definitions["g`1"]);
    assert st.definitions.Keys == {"g", "g`1"};
    assert SortedKeys(st.overridden.Keys) == [];
  }

  lemma ShadowedBuildPanics()
    ensures BuildAll(ShadowedDefinitionState()) == CompilePanic(UnknownId("nope"))
  {
    var st := ShadowedDefinitionState();
    var groups := GroupDependencies(st);
    GroupDependenciesCover(st);
    assert st.definitions.Keys == {"g", "g`1"};
    assert StrLess("g", "g`1");
    assert IsLeast("g", {"g", "g`1"});
    SortedKeysUnfold({"g", "g`1"}, "g");
    var ids := SortedKeys(st.definitions.Keys);
    assert ids[0] == "g";
    assert ["nope"][1..] == [];
    assert CreateFactorySpec(st, groups, ["g"], "nope") == Panic(UnknownId("nope"));
    assert CreateEachSpec(st, groups, ["g"], ["nope"]) == Panic(UnknownId("nope"));
    assert DefinitionFactorySpec(st, groups, ["g"], "g", st.definitions["g"]) == Panic(UnknownId("nope"));
    assert [] + ["g"] == ["g"];
    assert FirstInChain(["nope"], ["g"]) == None;
    assert CreateFactorySpec(st, groups, [], "g") == Panic(UnknownId("nope"));
    assert BuildLoop(st, groups, ids, map[]) == Aborted(UnknownId("nope"));
  }
}
