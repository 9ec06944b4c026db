/** The checks `compile` runs before it builds any factory (src/registry/validator):
    argument counts, overridden definitions and missing dependencies. Each appends
    its errors to the summary it is given. */
module Validators {
  import opened Common
  import opened RegistryModel

  // ---------------------------------------------------------------------------
  // Argument count

  /** A definition is reported when it names a different number of sources than its
      factory takes. */
  predicate CountMismatches(d: DefinitionCandidate)
  {
    |d.argSources| != |d.metafactory.argTypes|
  }

  function CountErrorOf(st: RegistryState, id: Id): CompileError
    requires id in st.definitions
  {
    CountMismatch(NewArgumentCountMismatch(id, st.definitions[id]))
  }

  /** The argument-count errors for the definitions `ids`, in that order. */
  function CountErrorsFor(st: RegistryState, ids: seq<Id>): seq<CompileError>
  {
    if ids == [] then []
    else
      (if ids[0] in st.definitions && CountMismatches(st.definitions[ids[0]]) then [CountErrorOf(st, ids[0])] else [])
        + CountErrorsFor(st, ids[1..])
  }

  /** What `ArgumentCountValidator` reports, in ascending id order. */
  ghost function ArgumentCountErrors(st: RegistryState): seq<CompileError>
  {
    CountErrorsFor(st, SortedKeys(st.definitions.Keys))
  }

  /** `ArgumentCountValidator::validate`. */
  method ArgumentCountValidate(st: RegistryState, summary: seq<CompileError>) returns (out: seq<CompileError>)
    ensures out == summary + ArgumentCountErrors(st)
  {
    out := summary;
    var rest := st.definitions.Keys;
    while rest != {}
      invariant rest <= st.definitions.Keys
      invariant out + CountErrorsFor(st, SortedKeys(rest)) == summary + ArgumentCountErrors(st)
      decreases |rest|
    {
      var id, rest' := PopLeast(rest);
      ghost var tail := CountErrorsFor(st, SortedKeys(rest'));
      var candidate := st.definitions[id];
      if |candidate.argSources| != |candidate.metafactory.argTypes| {
        assert CountErrorsFor(st, SortedKeys(rest)) == [CountErrorOf(st, id)] + tail;
        out := out + [CountMismatch(NewArgumentCountMismatch(id, candidate))];
      } else {
        assert CountErrorsFor(st, SortedKeys(rest)) == tail;
      }
      rest := rest';
    }
  }

  lemma {:induction false} CountErrorsForMembers(st: RegistryState, ids: seq<Id>, e: CompileError)
    ensures e in CountErrorsFor(st, ids) <==>
      exists i :: 0 <= i < |ids| && ids[i] in st.definitions && CountMismatches(st.definitions[ids[i]])
        && e == CountErrorOf(st, ids[i])
  {
    if ids != [] {
      var tail := ids[1..];
      CountErrorsForMembers(st, tail, e);
      if exists i :: 0 <= i < |tail| && tail[i] in st.definitions && CountMismatches(st.definitions[tail[i]])
          && e == CountErrorOf(st, tail[i])
      {
        var i :| 0 <= i < |tail| && tail[i] in st.definitions && CountMismatches(st.definitions[tail[i]])
          && e == CountErrorOf(st, tail[i]);
        assert ids[i + 1] == tail[i];
      }
      if exists i :: 0 <= i < |ids| && ids[i] in st.definitions && CountMismatches(st.definitions[ids[i]])
          && e == CountErrorOf(st, ids[i])
      {
        var i :| 0 <= i < |ids| && ids[i] in st.definitions && CountMismatches(st.definitions[ids[i]])
          && e == CountErrorOf(st, ids[i]);
        if i > 0 {
          assert tail[i - 1] == ids[i];
        }
      }
    }
  }

  lemma {:induction false} CountErrorsForDistinct(st: RegistryState, ids: seq<Id>)
    requires NoDuplicates(ids)
    ensures NoDuplicates(CountErrorsFor(st, ids))
    ensures forall e :: e in CountErrorsFor(st, ids) ==> e.CountMismatch? && e.mismatch.id in ids
  {
    if ids != [] {
      var tail := ids[1..];
      assert NoDuplicates(tail) by {
        forall i, j | 0 <= i < j < |tail|
          ensures tail[i] != tail[j]
        {
          assert tail[i] == ids[i + 1] && tail[j] == ids[j + 1];
        }
      }
      CountErrorsForDistinct(st, tail);
      forall e | e in CountErrorsFor(st, tail)
        ensures e.mismatch.id != ids[0] && e.mismatch.id in ids
      {
        var k :| 0 <= k < |tail| && tail[k] == e.mismatch.id;
        assert ids[k + 1] == tail[k];
      }
    }
  }

  /** One error per definition whose source count differs from its argument count,
      carrying that definition's lists, and no other error. */
  lemma ArgumentCountErrorsExact(st: RegistryState)
    ensures forall e :: e in ArgumentCountErrors(st) <==>
      exists id :: id in st.definitions && CountMismatches(st.definitions[id]) && e == CountErrorOf(st, id)
    ensures NoDuplicates(ArgumentCountErrors(st))
  {
    var ids := SortedKeys(st.definitions.Keys);
    SortedKeysDistinct(st.definitions.Keys);
    SortedKeysMembers(st.definitions.Keys);
    CountErrorsForDistinct(st, ids);
    forall e
      ensures e in ArgumentCountErrors(st) <==>
        exists id :: id in st.definitions && CountMismatches(st.definitions[id]) && e == CountErrorOf(st, id)
    {
      CountErrorsForMembers(st, ids, e);
      if exists id :: id in st.definitions && CountMismatches(st.definitions[id]) && e == CountErrorOf(st, id) {
        var id :| id in st.definitions && CountMismatches(st.definitions[id]) && e == CountErrorOf(st, id);
        assert id in ids;
        var i :| 0 <= i < |ids| && ids[i] == id;
      }
    }
  }

  /** No argument-count error exactly when every definition's counts agree (an empty
      registry, or definitions without arguments, in particular). */
  lemma ArgumentCountCleanIff(st: RegistryState)
    ensures ArgumentCountErrors(st) == [] <==> forall id :: id in st.definitions ==> !CountMismatches(st.definitions[id])
  {
    ArgumentCountErrorsExact(st);
    if ArgumentCountErrors(st) != [] {
      assert ArgumentCountErrors(st)[0] in ArgumentCountErrors(st);
    } else {
      forall id | id in st.definitions
        ensures !CountMismatches(st.definitions[id])
      {
        assert CountErrorOf(st, id) !in ArgumentCountErrors(st);
      }
    }
  }

  // ---------------------------------------------------------------------------
  // Overrides

  /** The error for an overridden id that still has a definition: its replaced
      candidates, oldest first, followed by the current one. */
  function OverrideErrorOf(st: RegistryState, id: Id): CompileError
    requires id in st.overridden && id in st.definitions
  {
    Duplicates(DuplicateDefinitions(Aliases(id, st.overridden[id] + [st.definitions[id]])))
  }

  function OverrideErrorsFor(st: RegistryState, ids: seq<Id>): seq<CompileError>
  {
    if ids == [] then []
    else
      (if ids[0] in st.overridden && ids[0] in st.definitions then [OverrideErrorOf(st, ids[0])] else [])
        + OverrideErrorsFor(st, ids[1..])
  }

  /** What `NoOverridesValidator` reports, in ascending id order. */
  ghost function OverrideErrors(st: RegistryState): seq<CompileError>
  {
    OverrideErrorsFor(st, SortedKeys(st.overridden.Keys))
  }

  /** `NoOverridesValidator::validate`. */
  method NoOverridesValidate(st: RegistryState, summary: seq<CompileError>) returns (out: seq<CompileError>)
    ensures out == summary + OverrideErrors(st)
  {
    out := summary;
    var rest := st.overridden.Keys;
    while rest != {}
      invariant rest <= st.overridden.Keys
      invariant out + OverrideErrorsFor(st, SortedKeys(rest)) == summary + OverrideErrors(st)
      decreases |rest|
    {
      var id, rest' := PopLeast(rest);
      ghost var tail := OverrideErrorsFor(st, SortedKeys(rest'));
      var duplicates := st.overridden[id];
      if id in st.definitions {
        duplicates := duplicates + [st.definitions[id]];
        var error := NewDuplicateDefinitions(id, duplicates);
        assert OverrideErrorsFor(st, SortedKeys(rest)) == [OverrideErrorOf(st, id)] + tail;
        out := out + [Duplicates(error)];
      } else {
        assert OverrideErrorsFor(st, SortedKeys(rest)) == tail;
      }
      rest := rest';
    }
  }

  lemma {:induction false} OverrideErrorsForMembers(st: RegistryState, ids: seq<Id>, e: CompileError)
    ensures e in OverrideErrorsFor(st, ids) <==>
      exists i :: 0 <= i < |ids| && ids[i] in st.overridden && ids[i] in st.definitions
        && e == OverrideErrorOf(st, ids[i])
  {
    if ids != [] {
      var tail := ids[1..];
      OverrideErrorsForMembers(st, tail, e);
      if exists i :: 0 <= i < |tail| && tail[i] in st.overridden && tail[i] in st.definitions
          && e == OverrideErrorOf(st, tail[i])
      {
        var i :| 0 <= i < |tail| && tail[i] in st.overridden && tail[i] in st.definitions
          && e == OverrideErrorOf(st, tail[i]);
        assert ids[i + 1] == tail[i];
      }
      if exists i :: 0 <= i < |ids| && ids[i] in st.overridden && ids[i] in st.definitions
          && e == OverrideErrorOf(st, ids[i])
      {
        var i :| 0 <= i < |ids| && ids[i] in st.overridden && ids[i] in st.definitions
          && e == OverrideErrorOf(st, ids[i]);
        if i > 0 {
          assert tail[i - 1] == ids[i];
        }
      }
    }
  }

  /** One duplicate error per overridden id that still has a current definition, and
      no other error. */
  lemma OverrideErrorsExact(st: RegistryState)
    ensures forall e :: e in OverrideErrors(st) <==>
      exists id :: id in st.overridden && id in st.definitions && e == OverrideErrorOf(st, id)
  {
    var ids := SortedKeys(st.overridden.Keys);
    SortedKeysMembers(st.overridden.Keys);
    forall e
      ensures e in OverrideErrors(st) <==>
        exists id :: id in st.overridden && id in st.definitions && e == OverrideErrorOf(st, id)
    {
      OverrideErrorsForMembers(st, ids, e);
      if exists id :: id in st.overridden && id in st.definitions && e == OverrideErrorOf(st, id) {
        var id :| id in st.overridden && id in st.definitions && e == OverrideErrorOf(st, id);
        assert id in ids;
        var i :| 0 <= i < |ids| && ids[i] == id;
      }
    }
  }

  lemma SingleOverride(st: RegistryState, id: Id)
    requires st.overridden.Keys == {id} && id in st.definitions
    ensures OverrideErrors(st) == [OverrideErrorOf(st, id)]
  {
    SortedKeysSingleton(id);
    assert SortedKeys(st.overridden.Keys) == [id];
    assert [id][1..] == [];
    assert OverrideErrorsFor(st, [id]) == [OverrideErrorOf(st, id)] + OverrideErrorsFor(st, []);
  }

  /** Defining the same id twice with the same arguments gives one error with a single
      alias counted twice. */
  lemma SameDefinitionTwice(mf: MetaFactory, args: seq<Id>)
    ensures var st := Define(Define(EmptyRegistry, None, "a", mf, args), None, "a", mf, args);
      var errors := OverrideErrors(st);
      && |errors| == 1 && errors[0].Duplicates?
      && |errors[0].duplicates.aliases| == 1
      && forall h :: h in errors[0].duplicates.aliases ==> errors[0].duplicates.aliases[h].count == 2
  {
    var st := Define(Define(EmptyRegistry, None, "a", mf, args), None, "a", mf, args);
    DefinedTwice(mf, args, mf, args);
    SingleOverride(st, "a");
    AliasesOfSame(DefinitionCandidate(mf, args, None));
  }

  /** Defining the same id twice with different paired arguments gives one error with
      two aliases, each counted once. */
  lemma DifferentDefinitionsSameId(first: MetaFactory, firstArgs: seq<Id>, second: MetaFactory, secondArgs: seq<Id>)
    requires ArgumentHash(DefinitionCandidate(first, firstArgs, None)) != ArgumentHash(DefinitionCandidate(second, secondArgs, None))
    ensures var st := Define(Define(EmptyRegistry, None, "a", first, firstArgs), None, "a", second, secondArgs);
      var errors := OverrideErrors(st);
      && |errors| == 1 && errors[0].Duplicates?
      && |errors[0].duplicates.aliases| == 2
      && forall h :: h in errors[0].duplicates.aliases ==> errors[0].duplicates.aliases[h].count == 1
  {
    var st := Define(Define(EmptyRegistry, None, "a", first, firstArgs), None, "a", second, secondArgs);
    DefinedTwice(first, firstArgs, second, secondArgs);
    SingleOverride(st, "a");
    AliasesOfDifferent(DefinitionCandidate(first, firstArgs, None), DefinitionCandidate(second, secondArgs, None));
  }

  /** After two definitions of "a", the first is the only one overridden. */
  lemma DefinedTwice(first: MetaFactory, firstArgs: seq<Id>, second: MetaFactory, secondArgs: seq<Id>)
    ensures var st := Define(Define(EmptyRegistry, None, "a", first, firstArgs), None, "a", second, secondArgs);
      && st.overridden.Keys == {"a"} && "a" in st.definitions
      && st.overridden["a"] + [st.definitions["a"]]
         == [DefinitionCandidate(first, firstArgs, None), DefinitionCandidate(second, secondArgs, None)]
  {
  }

  lemma AliasesOfSame(c: DefinitionCandidate)
    ensures Aliases("a", [c, c]) == map[ArgumentHash(c) := Duplicate(DefinitionFromCandidate("a", c), 2)]
  {
    assert [c, c][..1] == [c] && [c][..0] == [];
    assert Aliases("a", [c]) == map[ArgumentHash(c) := Duplicate(DefinitionFromCandidate("a", c), 1)];
  }

  lemma AliasesOfDifferent(c1: DefinitionCandidate, c2: DefinitionCandidate)
    requires ArgumentHash(c1) != ArgumentHash(c2)
    ensures var m := Aliases("a", [c1, c2]);
      && m.Keys == {ArgumentHash(c1), ArgumentHash(c2)}
      && m[ArgumentHash(c1)].count == 1 && m[ArgumentHash(c2)].count == 1
  {
    assert [c1, c2][..1] == [c1] && [c1][..0] == [];
    assert Aliases("a", [c1]) == map[ArgumentHash(c1) := Duplicate(DefinitionFromCandidate("a", c1), 1)];
  }

  // ---------------------------------------------------------------------------
  // Missing dependencies

  /** The ids a definition's requirement lists: its sources, paired with argument
      types, so sources past the last argument type are dropped. The types are never
      read, so the model keeps only the ids. */
  function DefinitionArguments(d: DefinitionCandidate): set<Id>
  {
    set i | 0 <= i < |d.argSources| && i < |d.metafactory.argTypes| :: d.argSources[i]
  }

  function DefinitionRequirements(st: RegistryState): map<Id, set<Id>>
  {
    map id | id in st.definitions :: DefinitionArguments(st.definitions[id])
  }

  /** A registered group requires its member definitions; a group without members
      requires nothing. */
  function GroupRequirements(st: RegistryState, members: map<Id, set<Id>>): map<Id, set<Id>>
  {
    map g | g in st.groups :: if g in members then members[g] else {}
  }

  /** The requirement map `DependencyValidator` collects: definitions first, then
      groups, so a group replaces a definition with the same id. */
  function RequirementsAsWritten(st: RegistryState): map<Id, set<Id>>
  {
    DefinitionRequirements(st) + GroupRequirements(st, CollectionMembers(st))
  }

  /** The requirement map with the precedence `create_factory` uses: a definition
      shadows a group with the same id. */
  function Requirements(st: RegistryState): map<Id, set<Id>>
  {
    GroupRequirements(st, CollectionMembers(st)) + DefinitionRequirements(st)
  }

  /** The argument ids of requirement `k` that are not requirement ids themselves. */
  function MissingIn(reqs: map<Id, set<Id>>, k: Id): set<Id>
    requires k in reqs
  {
    reqs[k] - reqs.Keys
  }

  function MissingErrorOf(reqs: map<Id, set<Id>>, k: Id): CompileError
    requires k in reqs
  {
    NotFound(DependenciesNotFound(k, MissingIn(reqs, k)))
  }

  /** One error per requirement with a missing argument id, listing exactly those. */
  ghost function MissingErrors(reqs: map<Id, set<Id>>): set<CompileError>
  {
    set k | k in reqs && MissingIn(reqs, k) != {} :: MissingErrorOf(reqs, k)
  }

  /** The errors `DependencyValidator` reports, in no particular order. */
  ghost function DependencyErrors(st: RegistryState): set<CompileError>
  {
    MissingErrors(RequirementsAsWritten(st))
  }

  /** The errors the corrected missing-dependency check reports: it checks every
      definition, including one a group of the same id would replace. */
  ghost function CorrectedDependencyErrors(st: RegistryState): set<CompileError>
  {
    MissingErrors(Requirements(st))
  }

  /** `added` holds each error of `errors` exactly once, in some order. */
  ghost predicate Enumerates(added: seq<CompileError>, errors: set<CompileError>)
  {
    (forall e :: e in added <==> e in errors) && NoDuplicates(added)
  }

  /** The collection ids named by the definitions `ids`. */
  ghost function NamedAmong(st: RegistryState, ids: set<Id>): set<Id>
  {
    set id | id in ids && id in st.definitions && st.definitions[id].collectionId.Some? :: st.definitions[id].collectionId.value
  }

  /** The definitions among `ids` that name collection `c`. */
  ghost function MembersAmong(st: RegistryState, ids: set<Id>, c: Id): set<Id>
  {
    set id | id in ids && id in st.definitions && st.definitions[id].collectionId == Some(c)
  }

  lemma NamedAmongStep(st: RegistryState, ids: set<Id>, id: Id)
    requires id in st.definitions
    ensures NamedAmong(st, ids + {id}) == NamedAmong(st, ids)
      + (if st.definitions[id].collectionId.Some? then {st.definitions[id].collectionId.value} else {})
  {
    var extra := if st.definitions[id].collectionId.Some? then {st.definitions[id].collectionId.value} else {};
    forall c | c in NamedAmong(st, ids + {id})
      ensures c in NamedAmong(st, ids) + extra
    {
      var x :| x in ids + {id} && x in st.definitions && st.definitions[x].collectionId.Some?
        && st.definitions[x].collectionId.value == c;
      if x != id {
        assert x in ids;
      }
    }
  }

  lemma MembersAmongStep(st: RegistryState, ids: set<Id>, id: Id, c: Id)
    requires id in st.definitions
    ensures MembersAmong(st, ids + {id}, c) == MembersAmong(st, ids, c)
      + (if st.definitions[id].collectionId == Some(c) then {id} else {})
  {
  }

  /** The group map restricted to the definitions `ids`. */
  ghost function MembersMap(st: RegistryState, ids: set<Id>): map<Id, set<Id>>
  {
    map c | c in NamedAmong(st, ids) :: MembersAmong(st, ids, c)
  }

  /** Visiting one more definition adds it to the members of the group it names. */
  lemma MembersMapStep(st: RegistryState, ids: set<Id>, id: Id)
    requires id in st.definitions && id !in ids
    ensures var m := MembersMap(st, ids);
      var cid := st.definitions[id].collectionId;
      MembersMap(st, ids + {id}) ==
        if cid.None? then m
        else if cid.value in m then m[cid.value := m[cid.value] + {id}]
        else m[cid.value := {id}]
  {
    var m := MembersMap(st, ids);
    var cid := st.definitions[id].collectionId;
    NamedAmongStep(st, ids, id);
    forall c
      ensures MembersAmong(st, ids + {id}, c) == MembersAmong(st, ids, c) + (if cid == Some(c) then {id} else {})
    {
      MembersAmongStep(st, ids, id, c);
    }
    var m' := MembersMap(st, ids + {id});
    var expected :=
      if cid.None? then m
      else if cid.value in m then m[cid.value := m[cid.value] + {id}]
      else m[cid.value := {id}];
    if cid.Some? && cid.value !in m {
      assert MembersAmong(st, ids, cid.value) == {};
    }
    assert m'.Keys == expected.Keys;
    forall c | c in m'
      ensures m'[c] == expected[c]
    {
    }
    assert m' == expected;
  }

  lemma MembersMapAll(st: RegistryState)
    ensures MembersMap(st, st.definitions.Keys) == CollectionMembers(st)
  {
    assert NamedAmong(st, st.definitions.Keys) == CollectionIdsOf(st);
    forall c
      ensures MembersAmong(st, st.definitions.Keys, c) == MembersOf(st, c)
    {
    }
  }

  /** The group map of `collect_group_dependencies`' first loop and of both group-map
      loops in the validators: every collection id a definition names, with its
      member definitions. The definitions may be visited in any order. */
  method CollectMembers(st: RegistryState) returns (m: map<Id, set<Id>>)
    ensures m == CollectionMembers(st)
  {
    m := map[];
    var rest := st.definitions.Keys;
    ghost var visited: set<Id> := {};
    while rest != {}
      invariant rest + visited == st.definitions.Keys && rest !! visited
      invariant m == MembersMap(st, visited)
      decreases |rest|
    {
      var id :| id in rest;
      MembersMapStep(st, visited, id);
      var candidate := st.definitions[id];
      if candidate.collectionId.Some? {
        var c := candidate.collectionId.value;
        if c in m {
          m := m[c := m[c] + {id}];
        } else {
          m := m[c := {id}];
        }
      }
      rest := rest - {id};
      visited := visited + {id};
    }
    MembersMapAll(st);
    assert visited == st.definitions.Keys;
  }

  /** The inner loop of `DependencyValidator`: the argument ids of requirement `id`
      that are not requirements, visited in any order. */
  method MissingArguments(reqs: map<Id, set<Id>>, id: Id) returns (missing: set<Id>)
    requires id in reqs
    ensures missing == MissingIn(reqs, id)
  {
    missing := {};
    var args := reqs[id];
    ghost var seen: set<Id> := {};
    while args != {}
      invariant args + seen == reqs[id] && args !! seen
      invariant missing == seen - reqs.Keys
      decreases |args|
    {
      var arg :| arg in args;
      if arg !in reqs {
        missing := missing + {arg};
      }
      args := args - {arg};
      seen := seen + {arg};
    }
  }

  /** The reporting loop of `DependencyValidator`: for each requirement, in any order,
      collect the argument ids that are not requirements and report them if there
      are any. */
  method ReportMissing(reqs: map<Id, set<Id>>, summary: seq<CompileError>) returns (out: seq<CompileError>)
    ensures |out| >= |summary| && out[..|summary|] == summary
    ensures Enumerates(out[|summary|..], MissingErrors(reqs))
  {
    var rest := reqs.Keys;
    var found: seq<CompileError> := [];
    ghost var reported: seq<Id> := [];
    while rest != {}
      invariant rest <= reqs.Keys
      invariant ReportedSoFar(reqs, reqs.Keys - rest, found, reported)
      decreases |rest|
    {
      var id :| id in rest;
      var missing := MissingArguments(reqs, id);
      if |missing| > 0 {
        ReportAdds(reqs, reqs.Keys - rest, found, reported, id);
        found := found + [NotFound(DependenciesNotFound(id, missing))];
        reported := reported + [id];
      } else {
        ReportSkips(reqs, reqs.Keys - rest, found, reported, id);
      }
      assert (reqs.Keys - rest) + {id} == reqs.Keys - (rest - {id});
      rest := rest - {id};
    }
    out := summary + found;
    assert out[|summary|..] == found;
    ReportedKeysEnumerate(reqs, found, reported);
  }

  /** `reported` lists, without repeats and in step with the errors `added`, exactly
      the requirements in `visited` with missing arguments. */
  ghost predicate ReportedSoFar(reqs: map<Id, set<Id>>, visited: set<Id>, added: seq<CompileError>, reported: seq<Id>)
  {
    && |added| == |reported|
    && (forall i :: 0 <= i < |reported| ==>
          reported[i] in visited && reported[i] in reqs && MissingIn(reqs, reported[i]) != {}
          && added[i] == MissingErrorOf(reqs, reported[i]))
    && visited <= reqs.Keys
    && (forall k :: k in visited && MissingIn(reqs, k) != {} ==> k in reported)
    && NoDuplicates(reported)
  }

  /** Visiting a requirement with missing arguments and reporting it keeps
      `ReportedSoFar`. */
  lemma ReportAdds(reqs: map<Id, set<Id>>, visited: set<Id>, added: seq<CompileError>, reported: seq<Id>, id: Id)
    requires ReportedSoFar(reqs, visited, added, reported)
    requires id in reqs && id !in visited && MissingIn(reqs, id) != {}
    ensures ReportedSoFar(reqs, visited + {id}, added + [MissingErrorOf(reqs, id)], reported + [id])
  {
    assert id !in reported;
  }

  /** Visiting a requirement whose arguments are all present, and not reporting it,
      keeps `ReportedSoFar`. */
  lemma ReportSkips(reqs: map<Id, set<Id>>, visited: set<Id>, added: seq<CompileError>, reported: seq<Id>, id: Id)
    requires ReportedSoFar(reqs, visited, added, reported)
    requires id in reqs && id !in visited && MissingIn(reqs, id) == {}
    ensures ReportedSoFar(reqs, visited + {id}, added, reported)
  {
  }

  /** Errors made from a duplicate-free list of exactly the requirements with missing
      arguments enumerate the missing-dependency errors. */
  lemma ReportedKeysEnumerate(reqs: map<Id, set<Id>>, added: seq<CompileError>, reported: seq<Id>)
    requires |added| == |reported|
    requires forall i :: 0 <= i < |reported| ==>
      reported[i] in reqs && MissingIn(reqs, reported[i]) != {} && added[i] == MissingErrorOf(reqs, reported[i])
    requires forall k :: k in reqs && MissingIn(reqs, k) != {} ==> k in reported
    requires NoDuplicates(reported)
    ensures Enumerates(added, MissingErrors(reqs))
  {
    forall e | e in MissingErrors(reqs)
      ensures e in added
    {
      var k :| k in reqs && MissingIn(reqs, k) != {} && e == MissingErrorOf(reqs, k);
      var i :| 0 <= i < |reported| && reported[i] == k;
      assert added[i] == e;
    }
    forall i, j | 0 <= i < j < |added|
      ensures added[i] != added[j]
    {
      assert added[i].notFound.id == reported[i];
    }
  }

  /** `DependencyValidator::validate`, with the requirement map in the precedence
      `create_factory` resolves ids by. */
  method DependencyValidate(st: RegistryState, summary: seq<CompileError>) returns (out: seq<CompileError>)
    ensures |out| >= |summary| && out[..|summary|] == summary
    ensures Enumerates(out[|summary|..], CorrectedDependencyErrors(st))
  {
    var groups := CollectMembers(st);
    var definitions := GroupRequirements(st, groups) + DefinitionRequirements(st);
    out := ReportMissing(definitions, summary);
  }

  /** `DependencyValidator::validate` as written: the collected requirement map lets a
      group replace a definition of the same id. */
  method DependencyValidateAsWritten(st: RegistryState, summary: seq<CompileError>) returns (out: seq<CompileError>)
    ensures |out| >= |summary| && out[..|summary|] == summary
    ensures Enumerates(out[|summary|..], DependencyErrors(st))
  {
    var groups := CollectMembers(st);
    var definitions := DefinitionRequirements(st) + GroupRequirements(st, groups);
    out := ReportMissing(definitions, summary);
  }

  /** A definition that no group of the same id replaces is reported exactly when one
      of its paired sources is neither a definition nor a registered group, and the
      error lists exactly those sources. A definition that shares its id with a group
      is never checked: the group's entry takes its place. */
  lemma DefinitionMissingExact(st: RegistryState, id: Id)
    requires id in st.definitions
    ensures id !in st.groups ==>
      var missing := DefinitionArguments(st.definitions[id]) - AllIds(st);
      && (missing != {} ==> NotFound(DependenciesNotFound(id, missing)) in DependencyErrors(st))
      && (forall s :: NotFound(DependenciesNotFound(id, s)) in DependencyErrors(st) ==> s == missing && s != {})
    ensures id in st.groups ==> forall s :: NotFound(DependenciesNotFound(id, s)) !in DependencyErrors(st)
  {
    var reqs := RequirementsAsWritten(st);
    assert reqs.Keys == AllIds(st);
    if id in st.groups {
      GroupsNeverMissing(st, id);
    } else {
      assert reqs[id] == DefinitionArguments(st.definitions[id]);
    }
  }

  /** The corrected check reports every definition exactly when one of its paired
      sources is neither a definition nor a registered group, listing exactly those. */
  lemma CorrectedDefinitionMissingExact(st: RegistryState, id: Id)
    requires id in st.definitions
    ensures var missing := DefinitionArguments(st.definitions[id]) - AllIds(st);
      && (missing != {} ==> NotFound(DependenciesNotFound(id, missing)) in CorrectedDependencyErrors(st))
      && (forall s :: NotFound(DependenciesNotFound(id, s)) in CorrectedDependencyErrors(st) ==> s == missing && s != {})
  {
    var reqs := Requirements(st);
    assert reqs.Keys == AllIds(st);
    assert reqs[id] == DefinitionArguments(st.definitions[id]);
  }

  /** Every member of a registered group is a definition, so a group never causes a
      missing-dependency error. */
  lemma GroupsNeverMissing(st: RegistryState, g: Id)
    requires g in st.groups
    ensures forall s :: NotFound(DependenciesNotFound(g, s)) !in DependencyErrors(st)
  {
    var reqs := RequirementsAsWritten(st);
    assert reqs.Keys == AllIds(st);
    assert reqs[g] <= st.definitions.Keys;
  }

  /** When no id is both a definition and a group, the check as written and the
      corrected one report the same errors. */
  lemma UnshadowedChecksAgree(st: RegistryState)
    requires st.definitions.Keys !! st.groups.Keys
    ensures DependencyErrors(st) == CorrectedDependencyErrors(st)
  {
    var written := RequirementsAsWritten(st);
    var corrected := Requirements(st);
    assert written.Keys == corrected.Keys;
    forall k | k in written
      ensures written[k] == corrected[k]
    {
    }
    assert written == corrected;
  }

  /** The group map depends only on which definitions exist and the groups they name. */
  lemma CollectionMembersFrame(st: RegistryState, st': RegistryState)
    requires st'.definitions.Keys == st.definitions.Keys
    requires forall id :: id in st.definitions ==> st'.definitions[id].collectionId == st.definitions[id].collectionId
    ensures CollectionMembers(st') == CollectionMembers(st)
  {
    forall c
      ensures MembersOf(st', c) == MembersOf(st, c)
    {
    }
    forall c | c in CollectionIdsOf(st)
      ensures c in CollectionIdsOf(st')
    {
      var id :| id in st.definitions && st.definitions[id].collectionId.Some? && st.definitions[id].collectionId.value == c;
      assert st'.definitions[id].collectionId.value == c;
    }
    forall c | c in CollectionIdsOf(st')
      ensures c in CollectionIdsOf(st)
    {
      var id :| id in st'.definitions && st'.definitions[id].collectionId.Some? && st'.definitions[id].collectionId.value == c;
      assert st.definitions[id].collectionId.value == c;
    }
    assert CollectionIdsOf(st') == CollectionIdsOf(st);
  }

  /** Sources past the last argument type are never checked: appending such sources
      to a definition that already names one per argument type changes no report. */
  lemma ExtraSourcesUnchecked(st: RegistryState, id: Id, extra: seq<Id>)
    requires id in st.definitions
    requires |st.definitions[id].argSources| >= |st.definitions[id].metafactory.argTypes|
    ensures var d := st.definitions[id];
      var st' := st.(definitions := st.definitions[id := d.(argSources := d.argSources + extra)]);
      && DependencyErrors(st') == DependencyErrors(st)
      && CorrectedDependencyErrors(st') == CorrectedDependencyErrors(st)
  {
    var d := st.definitions[id];
    var d' := d.(argSources := d.argSources + extra);
    var st' := st.(definitions := st.definitions[id := d']);
    assert DefinitionArguments(d') == DefinitionArguments(d) by {
      forall i | 0 <= i < |d.metafactory.argTypes| && i < |d'.argSources|
        ensures d'.argSources[i] == d.argSources[i]
      {
      }
    }
    CollectionMembersFrame(st, st');
    assert DefinitionRequirements(st') == DefinitionRequirements(st);
    assert Requirements(st') == Requirements(st);
    assert RequirementsAsWritten(st') == RequirementsAsWritten(st);
  }

  /** `ArgumentTypeValidator::validate`: it builds the same group and requirement
      maps as the dependency check, but its final loop over the requirements has an
      empty body, so it never reports anything. */
  method ArgumentTypeValidate(st: RegistryState, summary: seq<CompileError>) returns (out: seq<CompileError>)
    ensures out == summary
  {
    var groups := CollectMembers(st);
    var definitions := DefinitionRequirements(st) + GroupRequirements(st, groups);
    out := summary;
  }

  /** The registry after `one_of("g", v).insert()` and then
      `one("g", f).with_arg("nope").insert()`: a group "g" with member "g`1", and a
      definition also called "g" that needs the undefined "nope". */
  function ShadowedDefinitionState(): RegistryState
  {
    RegistryState(
      map["g" := GroupCandidate("Vec<T>", Aggregate("T", "Vec<T>"), 1)],
      map["g`1" := DefinitionCandidate(MetaFactory([], "T"), [], Some("g")),
          "g" := DefinitionCandidate(MetaFactory(["T"], "T"), ["nope"], None)],
      map[])
  }

  /** The dependency check as written misses the undefined "nope": the group "g"
      replaces the definition "g" in its requirement map. With definitions taking
      precedence, as in `create_factory`, the missing id is reported. */
  lemma ShadowedDefinitionMissed()
    ensures DependencyErrors(ShadowedDefinitionState()) == {}
    ensures CorrectedDependencyErrors(ShadowedDefinitionState()) == {NotFound(DependenciesNotFound("g", {"nope"}))}
  {
    var st := ShadowedDefinitionState();
    ShadowedRequirements();
    var written := map["g`1" := {}, "g" := {"g`1"}];
    assert MissingIn(written, "g") == {} && MissingIn(written, "g`1") == {};
    var reqs := map["g`1" := {}, "g" := {"nope"}];
    assert MissingIn(reqs, "g") == {"nope"} && MissingIn(reqs, "g`1") == {};
    assert MissingErrorOf(reqs, "g") in MissingErrors(reqs);
  }

  lemma ShadowedRequirements()
    ensures RequirementsAsWritten(ShadowedDefinitionState()) == map["g`1" := {}, "g" := {"g`1"}]
    ensures Requirements(ShadowedDefinitionState()) == map["g`1" := {}, "g" := {"nope"}]
  {
    ShadowedDefinitionRequirements();
    ShadowedGroupRequirements();
  }

  lemma ShadowedDefinitionRequirements()
    ensures DefinitionRequirements(ShadowedDefinitionState()) == map["g`1" := {}, "g" := {"nope"}]
  {
    var st := ShadowedDefinitionState();
    assert DefinitionArguments(st.definitions["g"]) == {"nope"} by {
      assert st.definitions["g"].argSources[0] == "nope";
    }
    assert DefinitionArguments(st.definitions["g`1"]) == {};
  }

  lemma ShadowedGroupRequirements()
    ensures GroupRequirements(ShadowedDefinitionState(), CollectionMembers(ShadowedDefinitionState())) == map["g" := {"g`1"}]
  {
    ShadowedMembers();
  }

  lemma ShadowedMembers()
    ensures CollectionMembers(ShadowedDefinitionState()) == map["g" := {"g`1"}]
  {
    var st := ShadowedDefinitionState();
    assert CollectionIdsOf(st) == {"g"} by {
      assert st.definitions["g`1"].collectionId == Some("g");
    }
    assert MembersOf(st, "g") == {"g`1"};
  }

  // ---------------------------------------------------------------------------
  // The validator list

  datatype ValidatorKind = ArgumentCountCheck | NoOverridesCheck | DependencyCheck

  /** The validators `Registry::new` installs, in order. */
  const DefaultValidators: seq<ValidatorKind> := [ArgumentCountCheck, NoOverridesCheck, DependencyCheck]

  /** `after` is `before` followed by what validator `v` reports on `st`. */
  ghost predicate Reported(v: ValidatorKind, st: RegistryState, before: seq<CompileError>, after: seq<CompileError>)
  {
    match v
    case ArgumentCountCheck => after == before + ArgumentCountErrors(st)
    case NoOverridesCheck => after == before + OverrideErrors(st)
    case DependencyCheck =>
      |after| >= |before| && after[..|before|] == before && Enumerates(after[|before|..], DependencyErrors(st))
  }

  /** `Validator::validate`, dispatched on the validator. */
  method RunValidator(v: ValidatorKind, st: RegistryState, summary: seq<CompileError>) returns (out: seq<CompileError>)
    ensures Reported(v, st, summary, out)
  {
    match v
    case ArgumentCountCheck => out := ArgumentCountValidate(st, summary);
    case NoOverridesCheck => out := NoOverridesValidate(st, summary);
    case DependencyCheck => out := DependencyValidateAsWritten(st, summary);
  }

  /** An enumeration is empty exactly when the set it enumerates is. */
  lemma EnumeratesEmpty(added: seq<CompileError>, errors: set<CompileError>)
    requires Enumerates(added, errors)
    ensures added == [] <==> errors == {}
  {
    if added != [] {
      assert added[0] in errors;
    }
    if errors != {} {
      var e :| e in errors;
      assert e in added;
    }
  }

  /** `s` is what the validators `vs`, run in order on an empty summary, report. */
  ghost predicate ReportedAll(vs: seq<ValidatorKind>, st: RegistryState, s: seq<CompileError>)
    decreases |vs|
  {
    if vs == [] then s == []
    else exists k :: 0 <= k <= |s| && ReportedAll(vs[..|vs| - 1], st, s[..k]) && Reported(vs[|vs| - 1], st, s[..k], s)
  }

  /** What the validators `Registry::new` installs report together: the argument-count
      errors in id order, then the override errors in id order, then every
      missing-dependency error once, in some order. The summary stays empty exactly
      when all three find nothing. */
  lemma DefaultReport(st: RegistryState, s: seq<CompileError>)
    requires ReportedAll(DefaultValidators, st, s)
    ensures var fixed := ArgumentCountErrors(st) + OverrideErrors(st);
      && |s| >= |fixed| && s[..|fixed|] == fixed
      && Enumerates(s[|fixed|..], DependencyErrors(st))
    ensures s == [] <==> ArgumentCountErrors(st) == [] && OverrideErrors(st) == [] && DependencyErrors(st) == {}
  {
    DefaultReportParts(st, s);
    var fixed := ArgumentCountErrors(st) + OverrideErrors(st);
    EnumeratesEmpty(s[|fixed|..], DependencyErrors(st));
    EmptyIffPartsEmpty(s, |fixed|);
  }

  /** The summary is the argument-count errors, then the override errors, then the
      missing dependencies in some order. */
  lemma DefaultReportParts(st: RegistryState, s: seq<CompileError>)
    requires ReportedAll(DefaultValidators, st, s)
    ensures var fixed := ArgumentCountErrors(st) + OverrideErrors(st);
      && |s| >= |fixed| && s[..|fixed|] == fixed
      && Enumerates(s[|fixed|..], DependencyErrors(st))
  {
    var fixed := PeelDependencies(st, s);
    PeelOverrides(st, fixed);
  }

  /** The dependency check, last, appends to what the first two reported. */
  lemma PeelDependencies(st: RegistryState, s: seq<CompileError>) returns (fixed: seq<CompileError>)
    requires ReportedAll(DefaultValidators, st, s)
    ensures ReportedAll([ArgumentCountCheck, NoOverridesCheck], st, fixed)
    ensures |s| >= |fixed| && s[..|fixed|] == fixed && Enumerates(s[|fixed|..], DependencyErrors(st))
  {
    assert DefaultValidators[..2] == [ArgumentCountCheck, NoOverridesCheck];
    var k :| 0 <= k <= |s| && ReportedAll(DefaultValidators[..2], st, s[..k]) && Reported(DependencyCheck, st, s[..k], s);
    fixed := s[..k];
  }

  /** The first two checks report the argument-count errors, then the override errors. */
  lemma PeelOverrides(st: RegistryState, s: seq<CompileError>)
    requires ReportedAll([ArgumentCountCheck, NoOverridesCheck], st, s)
    ensures s == ArgumentCountErrors(st) + OverrideErrors(st)
  {
    var vs := [ArgumentCountCheck, NoOverridesCheck];
    assert vs[..1] == [ArgumentCountCheck];
    var k :| 0 <= k <= |s| && ReportedAll(vs[..1], st, s[..k]) && Reported(NoOverridesCheck, st, s[..k], s);
    PeelCounts(st, s[..k]);
  }

  /** The argument-count check alone reports the argument-count errors. */
  lemma PeelCounts(st: RegistryState, s: seq<CompileError>)
    requires ReportedAll([ArgumentCountCheck], st, s)
    ensures s == ArgumentCountErrors(st)
  {
    var vs := [ArgumentCountCheck];
    assert vs[..0] == [];
    var k :| 0 <= k <= |s| && ReportedAll(vs[..0], st, s[..k]) && Reported(ArgumentCountCheck, st, s[..k], s);
  }

  lemma EmptyIffPartsEmpty(s: seq<CompileError>, k: nat)
    requires k <= |s|
    ensures s == [] <==> s[..k] == [] && s[k..] == []
  {
    if s[..k] == [] && s[k..] == [] {
      assert s == s[..k] + s[k..];
    }
  }
}
