# di-rs core, modelled in Dafny

This project models the core of `di`, a dependency-injection library for Rust. The
library has two independent halves, and both are modelled.

The **runtime engine** builds an object together with the objects that must live as
long as it does:

- `Deps` keeps a list of child constructors per parent type.
  `create_deps` runs the list for a new parent and wraps parent and children in a
  `Scope` (module `DepsModel`).
- `Instance` holds a value, either owned outright (`Isolated`) or shared behind a
  mutex (`Shared`). `lock` hands out a guard to the value, and a poisoned mutex is
  reported as an error that still carries the guard (module `Instances`).
- A `Scope` owns the instance and its children. `explode` drops the children first and
  then takes the value back out, failing fatally when other references remain or the
  mutex is poisoned (module `Scopes`). The release of references by dropped children
  is modelled by a reference count and an event log.
- An `Inceptor` keeps two slot tables of live instances of two types. It runs a
  bridging function on every new pair:
  - a new instance takes the lowest empty slot, or is appended;
  - it is paired, in slot order, with every live instance on the other side;
  - destroying a slot empties it, and the table is cut back when that slot was the
    last one in use.

  A `Destructor` is the guard that destroys a slot when it is dropped (module
  `Inceptors`).
- `Collection` is an append-only list (module `Collections`).

The **static registry** collects definitions, checks them, and compiles them into
factories:

- `Registry` keeps, in ordered maps:
  - definition candidates by id;
  - group candidates by id;
  - for each id defined more than once, the candidates that were replaced.
- The builders fill it (module `Builders`):
  - `one`, `one_of` and `NewDefinition`;
  - `insert_one`, `insert_one_of` and `may_be_empty`;
  - the `One` and `OneOf` builders with their finalizers;
  - `ArgumentBuilder`.
- `compile` runs the validators in order. Each one appends its errors to a summary
  (module `Validators`):
  - argument counts;
  - overridden definitions;
  - missing dependencies.
- When the summary is empty, `compile` builds a factory for every definition and then
  for every group, in ascending id order. It stops at the first dependency cycle
  (module `Registries`).
- The registry's error types and how they are made from candidates, including the
  duplicate-definition summary keyed by argument hash, are in module `RegistryModel`.
  The getter errors are in module `GetterErrors`.
- The error printer renders compile errors through an `ErrorWriter`. It is modelled
  as a `TokenWriter` that records every call it receives (modules `ErrorPrinter` and
  `Decimal`).
- The comparison macros derive a lexicographic field-by-field order (module `Macros`).

Modelling choices:

- Rust's ordered maps and sets (`BTreeMap`, `BTreeSet`) are Dafny maps and sets. They
  are iterated in ascending key order (`Common.SortedKeys`, `Common.PopLeast`).
- Types are erased to names (`TypeName`, `TypeTag`).
- A metafactory is modelled by its argument types and result type.
- Operations that update fields in place are methods on classes. What they compute is
  stated by functions, and the lemmas are about those functions.

Where the code and the library's own description differ, the model follows the code:

- The description says a destroyed slot shrinks the live count only when it was the
  most recently inserted one. In the code, every destroyed occupied slot lowers the
  count of occupied slots by one (`Inceptors.ClearSlotProperties`). Only the table
  length waits until the last slot in use is destroyed.
- The validators read `registry.maybe_definitions` and `registry.maybe_groups`, keyed
  by `k.id` and `k.collection_id`. The registry has neither name; it has
  `definitions` and `groups`, keyed by id. The model reads those maps.
- `pretty_print_single` matches only two of the five `CompileError` variants. The
  model's printer accepts exactly those two (`ErrorPrinter.Printable`).
- `ArgumentTypeValidator::validate` has an empty loop body, so it reports nothing.
  The model says exactly that.

## Model

| member | source | states |
|---|---|---|
| `Common.SortedKeys` | src/registry/mod.rs:140-145 | the ascending iteration of an ordered map's keys has as many entries as the key set |
| `Common.SortedKeysMembers` | src/registry/mod.rs:208-221 | ascending iteration visits exactly the keys of the map |
| `Common.SortedKeysSorted` | src/registry/mod.rs:208-221 | ascending iteration is strictly ascending in string order |
| `Common.SortedKeysDistinct` | src/registry/mod.rs:208-221 | ascending iteration visits each key once |
| `Common.SortedKeysUnfold` | src/registry/mod.rs:208-221 | iteration starts at the least key and continues with the rest |
| `Common.SortedKeysSingleton` | src/registry/mod.rs:223-236 | a one-key map is iterated as that key alone |
| `Common.PopLeast` | src/registry/mod.rs:208-221 | one iteration step takes out the least key, and iteration continues over what is left |
| `Common.SortedElements` | src/registry/mod.rs:617 | iterating a `BTreeSet`, such as a group's sources here or the alias keys of a duplicate-definition error at src/error_printer/mod.rs:36, yields its elements in ascending order |
| `Common.StrLessIrreflexive` | src/registry/mod.rs:140-145 | the key order never puts a key before itself |
| `Common.StrLessTransitive` | src/registry/mod.rs:140-145 | the key order is transitive |
| `Common.StrLessTotal` | src/registry/mod.rs:140-145 | any two different keys are ordered one way or the other |
| `Common.StrLessAsymmetric` | src/registry/mod.rs:140-145 | two keys are never ordered both ways |
| `Common.LeastExists` | src/registry/mod.rs:208-221 | every non-empty key set has a least key |
| `Common.LeastUnique` | src/registry/mod.rs:208-221 | the least key is unique |
| `Common.Somes` | src/deps.rs:33-35 | `filter_map` keeps at most as many values as it is given |
| `Common.SomesMembers` | src/deps.rs:33-35 | a value survives `filter_map` exactly when some constructor returned it |
| `Common.SomesAllSome` | src/deps.rs:33-35 | when every entry is `Some`, `filter_map` keeps all of them, in order |
| `Collections.Collection.constructor` | src/collection.rs:21-23 | a new collection is empty |
| `Collections.Collection.Push` | src/collection.rs:25-27 | the item is appended and every earlier item stays in place |
| `Collections.Collection.AsSlice` | src/collection.rs:29-61 | `iter`, `as_ref`, both `into_iter`s and the conversion to `Vec` yield the stored items in insertion order |
| `DepsModel.DepsScope.Deref` | src/deps.rs:71-73 | dereferencing a scope gives its parent object |
| `DepsModel.DepsScope.DerefMut` | src/deps.rs:77-79 | assigning through the scope replaces the parent and keeps the children |
| `DepsModel.RunEach` | src/deps.rs:33-35 | each constructor of the list runs once on the parent, in list order |
| `DepsModel.Deps.constructor` | src/deps.rs:18-22 | a new registry has no constructors for any type |
| `DepsModel.Deps.RegisterChildConstructor` | src/deps.rs:46-58 | the constructor is appended to its parent type's list, which is created when absent; every other type's list is unchanged |
| `DepsModel.Deps.CreateDeps` | src/deps.rs:27-42 | the scope holds the parent unchanged and the `Some` results of its type's constructors in registration order; an unknown type gets no children |
| `DepsModel.CreateDepsChildren` | src/deps.rs:27-42 | a child is in the scope exactly when one of the type's constructors built it |
| `DepsModel.CreateDepsAllBuilt` | src/deps.rs:33-37 | when every constructor builds a child, the scope has one child per constructor, in order |
| `Instances.Lock` | src/constructed.rs:21-37 | `lock` succeeds exactly for an isolated instance or an unpoisoned mutex; either way the guard gives the instance's current value |
| `Instances.AssignThrough` | src/constructed.rs:51-57 | writing through a guard (`deref_mut`) makes the guarded value the written one |
| `Instances.AssignLocked` | src/constructed.rs:21-57 | writing through the guard `lock` returns changes the instance's value |
| `Instances.Downcast` | src/constructed.rs:66-78 | downcasting keeps the storage form (isolated or shared) and the very same value or mutex |
| `Scopes.Scope.FromAnyInstance` | src/scope.rs:14-19 | the scope holds the downcast instance, in the same storage form, and the children as given |
| `Scopes.Scope.Lock` | src/scope.rs:36-38 | the scope's lock is the instance's lock: it fails exactly on a poisoned shared value, and the guard gives the value |
| `Scopes.Scope.GetInstance` | src/scope.rs:40-42 | the instance the scope holds |
| `Scopes.Scope.Explode` | src/scope.rs:21-34 | all children are dropped, in order, before the value is released. An isolated value is returned. A shared value is returned only when the children's releases leave one reference and the mutex is not poisoned; otherwise the call fails at the matching expectation |
| `Scopes.ChildrenDroppedFirst` | src/scope.rs:21-25 | in the drop log of `explode`, every child drop precedes the release of the value |
| `Inceptors.CountOccupied` | src/inceptor.rs:190-192 | the number of live slots is at most the table length |
| `Inceptors.FirstEmpty` | src/inceptor.rs:119-129 | the slot an insertion uses is the lowest empty one, or the table length when none is empty |
| `Inceptors.DropEmptyTail` | src/inceptor.rs:143-149 | the table is cut to a prefix that ends in a live slot (or is empty), and only empty slots are cut |
| `Inceptors.InsertSlotProperties` | src/inceptor.rs:115-135 | an insertion stores the instance at the lowest empty slot, changes no other slot, adds one live slot, and keeps the table invariant (the length equals the high-water counter, and the last slot is live) |
| `Inceptors.ClearSlotProperties` | src/inceptor.rs:94-150 | destroying a live slot removes one live slot and keeps the invariant. Other slots keep their instances. The table keeps its length unless the slot was the last, in which case it shrinks past every empty slot below it |
| `Inceptors.SweepIsSweepValues` | src/inceptor.rs:66-78 | the pairing pass calls the bridge on exactly the live instances of the other side, in slot order, and the first error wins |
| `Inceptors.SweepErrorSticks` | src/inceptor.rs:69-76 | once a call of the pass fails, the pass ends with that error |
| `Inceptors.SweepAlwaysSome` | src/inceptor.rs:69-76 | a bridge that always returns a child yields one child per live slot |
| `Inceptors.IgnoringResultYieldsNothing` | src/inceptor.rs:29-37 | an inceptor made by `new_with_ignored_return_val` never yields a child |
| `Inceptors.KeepingResultYieldsOnePerSlot` | src/inceptor.rs:39-46 | an inceptor made by `new_with_return_val` from a bridge that never fails yields one child per live instance on the other side |
| `Inceptors.InsertIntoVec` | src/inceptor.rs:115-135 | the scan reuses the lowest empty slot or appends, returns that index, and raises the high-water counter to cover it |
| `Inceptors.TruncateIfRemovedIsLast` | src/inceptor.rs:137-150 | nothing changes unless the removed id is the last in use. Otherwise the counter drops past the empty slots below it to just after the highest live slot, and the table is cut to the counter |
| `Inceptors.Inceptor.constructor` | src/inceptor.rs:17-27 | both tables are empty, both counters are zero, and the bridge is the given one |
| `Inceptors.Inceptor.Invoke` | src/inceptor.rs:48-64 | the bridge applied to the instances in the two (live) slots |
| `Inceptors.Inceptor.PairLeft` | src/inceptor.rs:69-76 | the pass of `incept_1` is the reference sweep over the right table |
| `Inceptors.Inceptor.PairRight` | src/inceptor.rs:83-90 | the pass of `incept_2` is the reference sweep over the left table, with the bridge's arguments in the right order |
| `Inceptors.Inceptor.Incept1` | src/inceptor.rs:66-78 | the new instance is inserted on the left and stays there even when the pass fails; the result is its slot and the children, or the pass's error |
| `Inceptors.Inceptor.Incept2` | src/inceptor.rs:80-92 | the mirror image of `incept_1` on the right table |
| `Inceptors.Inceptor.Destroy1` | src/inceptor.rs:94-102 | the left slot is cleared (and the table cut back when it was the last) and the right side is untouched |
| `Inceptors.Inceptor.Destroy2` | src/inceptor.rs:104-112 | the mirror image of `destroy_1` |
| `Inceptors.Destructor.constructor` | src/inceptor.rs:162-171 | the guard records its inceptor, side and slot |
| `Inceptors.Destructor.Drop` | src/inceptor.rs:174-182 | side 1 destroys the left slot, side 2 the right slot, and any other side changes nothing |
| `RegistryModel.AggregateOf` | src/registry/mod.rs:449-451 | the aggregate for values of a type has that item type and the matching list type |
| `RegistryModel.NewGroupCandidate` | src/registry/candidate/mod.rs:44-50 | a new group takes its collection type from the aggregate and has counted no members |
| `RegistryModel.DefineProperties` | src/registry/mod.rs:489-507 | `define` stores the new candidate under its id and moves a replaced candidate to the end of that id's overridden list. It touches no group and no other id |
| `RegistryModel.DefineGroupKeepsExisting` | src/registry/mod.rs:480-487 | the group exists afterwards. An existing group is kept with its member count, a new one starts at zero, and definitions are untouched |
| `RegistryModel.AddMember` | src/registry/mod.rs:301-312 | after counting a member, the group is registered |
| `RegistryModel.AddMemberProperties` | src/registry/mod.rs:301-312 | counting a member creates the group only when absent, adds one to its count, and changes nothing else |
| `RegistryModel.MemberIdsDistinct` | src/registry/mod.rs:307-310 | member ids of one group differ exactly when their numbers differ, and never equal the group id |
| `RegistryModel.GroupDependenciesShape` | src/registry/mod.rs:453-478 | the group map has an entry for every collection a definition names and every registered group. Each entry holds exactly the definitions naming that collection |
| `RegistryModel.GroupDependenciesKeys` | src/registry/mod.rs:453-478 | when every named group is registered, the group map's keys are exactly the registered groups |
| `RegistryModel.ArgumentsFromCandidate` | src/registry/error/mod.rs:198-206 | argument types and sources are paired by position, as far as both lists go |
| `RegistryModel.DefinitionFromCandidate` | src/registry/error/mod.rs:39-51 | the error's definition carries the id, the group, the result type and the paired arguments |
| `RegistryModel.NewArgumentCountMismatch` | src/registry/error/mod.rs:145-158 | the error carries the candidate's argument types and sources unchanged |
| `RegistryModel.ConcatPiecesFront` | src/registry/error/mod.rs:208-218 | the hash is the first argument's `source:type` piece followed by the hash of the rest |
| `RegistryModel.HashDeterminesSources` | src/registry/error/mod.rs:208-218 | for argument lists with the same types, position by position, and no ':' in any source, equal hashes mean equal arguments |
| `RegistryModel.ArgumentHashCollision` | src/registry/error/mod.rs:167-218 | the pieces have no separator between them, so a source "a" of type "Tb:U" and sources "a", "b" of types "T", "U" share the hash "a:Tb:U", and `DuplicateDefinitions::new` files the two different definitions under one alias counted twice; types without ':' collide too |
| `RegistryModel.NewDuplicateDefinitions` | src/registry/error/mod.rs:167-195 | the loop over the candidates builds the alias map of the reference definition |
| `RegistryModel.FirstWithHash` | src/registry/error/mod.rs:167-195 | the index of the first candidate with a given hash, or none |
| `RegistryModel.AliasesCharacterized` | src/registry/error/mod.rs:167-195 | there is one alias per distinct hash. Its count is the number of candidates with that hash, and its definition comes from the first of them |
| `RegistryModel.AliasCountsSum` | src/registry/error/mod.rs:167-195 | every candidate is counted in exactly one alias: the counts sum to the number of candidates |
| `GetterErrors.ToArgError` | src/registry/getter_err.rs:122-140 | only "not found" and definition-type errors are converted, and a converted error is filed under the parent |
| `GetterErrors.ToArgErrorKeepsLookup` | src/registry/getter_err.rs:21-27 | a converted error names the looked-up definition as the argument, with the same requested and found types |
| `GetterErrors.ToArgErrorIdempotent` | src/registry/getter_err.rs:122-140 | converting twice is converting once: an error is filed under its innermost parent |
| `GetterErrors.ToArgErrorInjective` | src/registry/getter_err.rs:122-140 | for the two converted kinds, different lookups give different argument errors |
| `GetterErrors.ToString` | src/registry/getter_err.rs:143-184 | every message names the getter first, in quotes |
| `GetterErrors.NotFoundMessageInjective` | src/registry/getter_err.rs:143-184 | two "not found" messages are equal only for the same name |
| `GetterErrors.MissingArgumentMessage` | src/registry/getter_err.rs:143-184 | a missing argument, once converted, is reported under its parent and names the argument second |
| `Validators.ArgumentCountValidate` | src/registry/validator/argument_count.rs:10-24 | appends the argument-count errors of the registry, in ascending id order |
| `Validators.ArgumentCountErrorsExact` | src/registry/validator/argument_count.rs:10-24 | there is one error, without repeats, for exactly each definition whose source count differs from its argument count |
| `Validators.ArgumentCountCleanIff` | src/registry/validator/argument_count.rs:10-24 | no argument-count error exactly when every definition's counts agree |
| `Validators.NoOverridesValidate` | src/registry/validator/overrides.rs:11-31 | appends the override errors of the registry, in ascending id order |
| `Validators.OverrideErrorsExact` | src/registry/validator/overrides.rs:11-31 | there is one duplicate error for exactly each overridden id that still has a definition, made from its replaced candidates and the current one |
| `Validators.SingleOverride` | src/registry/validator/overrides.rs:11-31 | a single overridden id gives exactly its error |
| `Validators.SameDefinitionTwice` | src/registry/validator/overrides.rs:11-31 | defining an id twice the same way gives one error whose single alias counts 2 |
| `Validators.DifferentDefinitionsSameId` | src/registry/validator/overrides.rs:11-31 | defining an id twice with different arguments gives one error with two aliases, each counted once |
| `Validators.DefinedTwice` | src/registry/mod.rs:489-507 | after two definitions of an id, the first is the only one overridden |
| `Validators.AliasesOfSame` | src/registry/error/mod.rs:167-195 | two equal candidates share one alias with count 2 |
| `Validators.AliasesOfDifferent` | src/registry/error/mod.rs:167-195 | two candidates with different hashes get one alias each |
| `Validators.MembersMapAll` | src/registry/validator/dependencies.rs:24-38 | the validator's group map over all definitions is the collection-membership map |
| `Validators.CollectMembers` | src/registry/validator/dependencies.rs:24-38 | the loop builds the collection-membership map |
| `Validators.MissingArguments` | src/registry/validator/dependencies.rs:79-85 | the inner loop collects exactly the argument ids of a requirement that are not requirements themselves |
| `Validators.ReportMissing` | src/registry/validator/dependencies.rs:77-92 | appends each "dependencies not found" error of the requirement map exactly once, after the summary so far |
| `Validators.DependencyValidate` | src/registry/validator/dependencies.rs:21-93 | corrected, and not installed by `Registry::new`: appends exactly the missing-dependency errors, computed with a definition taking precedence over a group of the same id as in `create_factory` |
| `Validators.DependencyValidateAsWritten` | src/registry/validator/dependencies.rs:21-93 | as written: appends exactly the missing-dependency errors of the requirement map in which a group overwrites a same-id definition |
| `Validators.DefinitionMissingExact` | src/registry/validator/dependencies.rs:42-92 | a definition that shares its id with no group is reported exactly when some source names neither a definition nor a group, and the error lists exactly those sources; one that shares its id with a group is never reported |
| `Validators.CorrectedDefinitionMissingExact` | src/registry/validator/dependencies.rs:42-92 | corrected: every definition is reported exactly when some source names neither a definition nor a group, listing exactly those sources |
| `Validators.UnshadowedChecksAgree` | src/registry/validator/dependencies.rs:42-73 | when no id is both a definition and a group, the check as written and the corrected one report the same errors |
| `Validators.GroupsNeverMissing` | src/registry/validator/dependencies.rs:42-92 | a group's members are definitions, so an id that names a group is never reported |
| `Validators.CollectionMembersFrame` | src/registry/validator/dependencies.rs:24-38 | the group map depends only on which definitions exist and which groups they name |
| `Validators.ExtraSourcesUnchecked` | src/registry/validator/arguments.rs:42-99 | sources past the last argument type never enter the paired arguments, so adding them changes no missing-dependency report, as written or corrected |
| `Validators.ArgumentTypeValidate` | src/registry/validator/arguments.rs:42-99 | reports nothing: the summary is returned unchanged |
| `Validators.ShadowedDefinitionMissed` | src/registry/validator/dependencies.rs:42-73 | as written, the validator reports nothing for a definition "g" with a missing source that shares its id with a group; the corrected one reports it |
| `Validators.ShadowedRequirements` | src/registry/validator/dependencies.rs:42-73 | the two requirement maps for that registry: the group's entry hides the definition's |
| `Validators.ShadowedDefinitionRequirements` | src/registry/validator/dependencies.rs:44-58 | the definitions' requirements for that registry |
| `Validators.ShadowedGroupRequirements` | src/registry/validator/dependencies.rs:59-73 | the groups' requirements for that registry |
| `Validators.ShadowedMembers` | src/registry/validator/dependencies.rs:24-38 | the group map for that registry |
| `Validators.RunValidator` | src/registry/validator/mod.rs:14-20 | each validator appends what it reports to the summary; the dependency check is the one as written |
| `Validators.DefaultReport` | src/registry/mod.rs:158-178 | with the validators of `Registry::new`, the summary is the argument-count errors, then the override errors, then the missing-dependency errors. It is empty exactly when all three are |
| `Validators.DefaultReportParts` | src/registry/mod.rs:199-201 | the summary splits into the first two validators' errors and an enumeration of the third's |
| `Registries.Fail` | src/registry/mod.rs:581-590 | a failure carries over with its kind, cycle path or fatal reason |
| `Registries.GroupDependenciesCover` | src/registry/mod.rs:453-478 | every registered group has an entry in the group map |
| `Registries.FirstInChain` | src/registry/mod.rs:522-527 | no source is on the chain, or the result is a source that is on it |
| `Registries.FindInChain` | src/registry/mod.rs:522-527 | the scan finds the first source already on the chain |
| `Registries.EachStep` | src/registry/mod.rs:581-590 | building the sources in order: a built factory joins those before it, and a failure ends the list with that failure |
| `Registries.CreateFactory` | src/registry/mod.rs:509-569 | `create_factory` computes the reference construction: a definition before a group of the same id, a cycle when a dependency is on the chain, and a fatal stop on an unknown id |
| `Registries.CreateDefinitionFactory` | src/registry/mod.rs:571-603 | builds every source, then the metafactory, failing fatally on a type mismatch |
| `Registries.CreateGroupFactory` | src/registry/mod.rs:605-630 | builds every member, then the aggregate |
| `Registries.CreateEach` | src/registry/mod.rs:581-590 | the loop builds each id in order and stops at the first failure |
| `Registries.CreateNext` | src/registry/mod.rs:581-590 | one step of that loop, stated against the reference |
| `Registries.BuildEach` | src/registry/mod.rs:208-221 | a loop of `compile` builds every id in ascending order with a fresh chain and stops at the first cycle |
| `Registries.Registry.constructor` | src/registry/mod.rs:158-171 | empty, with the argument-count, override and dependency validators in that order |
| `Registries.Registry.PushValidator` | src/registry/mod.rs:173-178 | appends a validator and changes nothing else |
| `Registries.Registry.Define` | src/registry/mod.rs:489-507 | the registry's state becomes that of `define` |
| `Registries.Registry.DefineGroupIfNotExists` | src/registry/mod.rs:480-487 | the registry's state becomes that of `define_group_if_not_exists` |
| `Registries.Registry.InsertOne` | src/registry/mod.rs:270-277 | a definition without arguments and without a group |
| `Registries.Registry.NextMemberId` | src/registry/mod.rs:400-411 | the group is made sure of and one member is counted; the member id carries the new count |
| `Registries.Registry.InsertOneOf` | src/registry/mod.rs:301-320 | a member without arguments, defined under the next member id of its group |
| `Registries.Registry.MayBeEmpty` | src/registry/mod.rs:449-451 | the group of the item type is registered if absent |
| `Registries.Registry.FinalizeOne` | src/registry/one/mod.rs:78-85 | the id, value and sources are handed on unchanged |
| `Registries.Registry.FinalizeOneOf` | src/registry/one_of/mod.rs:81-89 | the collection id, id, value and sources are handed on unchanged |
| `Registries.Registry.CollectGroupDependencies` | src/registry/mod.rs:453-478 | the two loops compute the group map |
| `Registries.Registry.Validate` | src/registry/mod.rs:199-201 | every validator, in order, appends its report |
| `Registries.Registry.BuildFactories` | src/registry/mod.rs:208-243 | the definitions loop, then the groups loop, give the reference result |
| `Registries.Registry.Compile` | src/registry/mod.rs:196-244 | with the validators as written clean, the result is the reference build (which panics where those validators miss a shadowed definition's missing source). Otherwise it is the summary, which is exactly what the validators report |
| `Registries.CleanIffEmpty` | src/registry/mod.rs:199-206 | the summary is empty exactly when no validator finds anything |
| `Registries.GroupMapStep` | src/registry/mod.rs:471-475 | one step of the loop over registered groups adds an empty member set only for a group not yet in the map |
| `Registries.DirectCycle` | src/registry/mod.rs:522-527 | a dependency already on the chain closes a cycle |
| `Registries.CycleExtend` | src/registry/mod.rs:548-553 | a cycle found below a dependency is a cycle from the chain itself |
| `Registries.CreateCycleSound` | src/registry/mod.rs:509-569 | every cycle `create_factory` reports is a genuine dependency path that returns to an id already on it |
| `Registries.DefinitionCycleSound` | src/registry/mod.rs:571-603 | the same for a definition's sources |
| `Registries.EachCycleSound` | src/registry/mod.rs:581-590 | the same for a list of sources or members |
| `Registries.ChildNeeded` | src/registry/mod.rs:509-569 | every id `create_factory` builds below another is a dependency of it |
| `Registries.CleanIsResolvable` | src/registry/validator/dependencies.rs:21-93 | corrected: with clean argument counts and nothing reported by the corrected dependency check, every source names a definition or a registered group |
| `Registries.CleanResolvesUnshadowed` | src/registry/validator/dependencies.rs:21-93 | as written: with clean argument counts and no missing dependency reported, every source of a definition that shares its id with no group names a definition or a registered group; with no shared ids, every source does |
| `Registries.GroupMembersDefined` | src/registry/mod.rs:453-478 | every member the group map lists is a definition |
| `Registries.CreateResolves` | src/registry/mod.rs:509-569 | `create_factory` never meets an unknown id when every source and member resolves |
| `Registries.EachResolves` | src/registry/mod.rs:581-590 | the same for a list of sources |
| `Registries.LoopResolves` | src/registry/mod.rs:208-236 | a loop of `compile` never stops at an unknown id |
| `Registries.DefinitionsLoopResolves` | src/registry/mod.rs:208-221 | the definitions loop never stops at an unknown id |
| `Registries.GroupsLoopResolves` | src/registry/mod.rs:223-236 | the groups loop never stops at an unknown id when every named group is registered |
| `Registries.CompileNeverUnknown` | src/registry/mod.rs:196-244 | with resolvable sources and registered groups, `compile` never panics on an unknown id |
| `Registries.BuiltIsFactoryFor` | src/registry/mod.rs:509-569 | a built factory is the factory of its id: the definition's, with arguments of the right types, or else the group's |
| `Registries.LoopFactories` | src/registry/mod.rs:208-236 | a loop only stores factories of their ids. Without a cycle it stores one for every id it visits |
| `Registries.TwoLoops` | src/registry/mod.rs:208-243 | the two loops without a cycle cover both id lists with correct factories |
| `Registries.CompiledHoldsAll` | src/registry/mod.rs:196-244 | a successful `compile` holds exactly one factory per definition and group id, each the factory of that id |
| `Registries.CompiledShape` | src/registry/mod.rs:239-243 | `compile` succeeds only when both loops finish without a cycle, and returns the second loop's factories |
| `Registries.UngroupedDefinitionPanics` | src/registry/mod.rs:223-236 | a definition in a group nobody registered passes every validator, yet `compile` panics on the group id |
| `Registries.UngroupedBuildPanics` | src/registry/mod.rs:565-568 | the build of that registry stops at the unknown group id |
| `Registries.UngroupedValidatorsPass` | src/registry/validator/dependencies.rs:21-93 | the override and dependency validators find nothing in that registry |
| `Registries.UngroupedMembers` | src/registry/mod.rs:453-478 | the group map for that registry |
| `Registries.ShadowedDefinitionPanics` | src/registry/validator/dependencies.rs:42-73 | the validators `Registry::new` installs pass a registry whose definition, shadowed by a same-id group, has a missing source, and `compile` then panics on it; the corrected dependency check reports it |
| `Registries.ShadowedCountsAndOverrides` | src/registry/validator/argument_count.rs:10-24 | the first two validators find nothing in that registry |
| `Registries.ShadowedBuildPanics` | src/registry/mod.rs:565-568 | the build of that registry stops at the unknown source |
| `Builders.ArgumentBuilder.constructor` | src/registry/argument_builder/mod.rs:6-10 | no sources |
| `Builders.ArgumentBuilder.SetArgSources` | src/registry/argument_builder/mod.rs:12-17 | the sources become exactly the given ones |
| `Builders.ArgumentBuilder.SetArgSource` | src/registry/argument_builder/mod.rs:19-22 | the sources become the single given one |
| `Builders.ArgumentBuilder.PushArgSource` | src/registry/argument_builder/mod.rs:24-26 | one more source at the end |
| `Builders.NewDefinition.constructor` | src/registry/new_definition/mod.rs:63-73 | the parameters as given, and no sources |
| `Builders.NewDefinition.WithArgs` | src/registry/new_definition/mod.rs:89-97 | the sources become the given ones |
| `Builders.NewDefinition.WithArg` | src/registry/new_definition/mod.rs:113-121 | the sources become the single given one |
| `Builders.NewDefinition.AddArg` | src/registry/new_definition/mod.rs:138-146 | one more source at the end |
| `Builders.NewDefinition.InGroup` | src/registry/new_definition/mod.rs:162-170 | the definition joins the given group, and nothing else changes |
| `Builders.NewDefinition.WithId` | src/registry/new_definition/mod.rs:187-195 | the definition is renamed, and nothing else changes |
| `Builders.NewDefinition.InsertAsWritten` | src/registry/new_definition/mod.rs:199-208 | as written: `define` alone, so a group named by `in_group` is never registered |
| `Builders.NewDefinition.Insert` | src/registry/new_definition/mod.rs:199-208 | corrected: the named group is registered when absent, then the definition is stored |
| `Builders.InsertedDiffersOnlyInGroup` | src/registry/new_definition/mod.rs:199-208 | the corrected insert differs from the written one only by registering the named group when it is absent |
| `Builders.InsertedKeepsRegistered` | src/registry/new_definition/mod.rs:199-208 | the corrected insert keeps every named group registered and stores the definition |
| `Builders.RegistryOne` | src/registry/mod.rs:357-366 | a builder for a definition in no group, with no sources |
| `Builders.RegistryOneOf` | src/registry/mod.rs:400-421 | the group is made sure of and a member counted, and the builder is for that member under the new member id |
| `Builders.ApplyKeepsRegistered` | src/registry/mod.rs:449-451 | every registration call (with the corrected insert) keeps each named group registered |
| `Builders.ReplayRegistered` | src/registry/mod.rs:158-171 | any sequence of registration calls on a new registry leaves every named group registered |
| `Builders.CorrectedCompileNeverUnknown` | src/registry/mod.rs:196-244 | corrected: with the corrected insert and the corrected dependency check, a registry whose validators pass never makes `compile` panic on an unknown id |
| `Builders.UnshadowedCompileNeverUnknown` | src/registry/mod.rs:196-244 | with the corrected insert and the validators as written, a registry whose validators pass and where no id is both a definition and a group never makes `compile` panic on an unknown id |
| `Builders.InGroupInsertAsWrittenPanics` | src/registry/new_definition/mod.rs:162-208 | `one("a").in_group("g").insert()` as written leaves "g" unregistered and `compile` panics, while the corrected insert registers "g" |
| `Builders.One.constructor` | src/registry/one/mod.rs:26-35 | the finalizer and parameters as given, and no sources |
| `Builders.One.WithArgs` | src/registry/one/mod.rs:37-45 | the sources become the given ones |
| `Builders.One.WithArg` | src/registry/one/mod.rs:47-55 | the sources become the single given one |
| `Builders.One.AddArg` | src/registry/one/mod.rs:57-65 | one more source at the end |
| `Builders.One.Insert` | src/registry/one/mod.rs:67-71 | the finalizer receives the id, the value and the sources, and the registry's maps are untouched |
| `Builders.OneOf.constructor` | src/registry/one_of/mod.rs:28-38 | the finalizer and parameters as given, and no sources |
| `Builders.OneOf.WithArgs` | src/registry/one_of/mod.rs:40-48 | the sources become the given ones |
| `Builders.OneOf.WithArg` | src/registry/one_of/mod.rs:50-58 | the sources become the single given one |
| `Builders.OneOf.AddArg` | src/registry/one_of/mod.rs:60-68 | one more source at the end |
| `Builders.OneOf.Insert` | src/registry/one_of/mod.rs:70-74 | the finalizer receives the collection id, id, value and sources |
| `Decimal.NatToString` | src/error_printer/mod.rs:39 | `format!("{}", n)`: a non-empty string of digits without a leading zero, except for zero itself |
| `Decimal.NatToStringRoundTrip` | src/error_printer/mod.rs:78 | reading the rendered numeral back gives the number |
| `Decimal.NatToStringInjective` | src/error_printer/mod.rs:78 | different numbers are rendered differently |
| `Decimal.DigitRoundTrip` | src/error_printer/mod.rs:78 | a digit's character reads back as that digit |
| `ErrorPrinter.TokenWriter.constructor` | src/error_printer/mod.rs:5-16 | a writer that has received nothing |
| `ErrorPrinter.PrettyPrintDefinition` | src/error_printer/mod.rs:110-135 | writes the id, the arguments in parentheses only when there are any, then the arrow and the result type |
| `ErrorPrinter.PrintArgumentList` | src/error_printer/mod.rs:114-131 | the parenthesised argument list |
| `ErrorPrinter.PrintArgument` | src/error_printer/mod.rs:119-127 | one argument, with the separator unless it is the last |
| `ErrorPrinter.ArgItemsLayout` | src/error_printer/mod.rs:119-128 | each argument is its source, ": ", its type, and ", " only between arguments |
| `ErrorPrinter.DefinitionTokensLayout` | src/error_printer/mod.rs:110-135 | the printed form of a definition, position by position |
| `ErrorPrinter.DefinitionTokensInjective` | src/error_printer/mod.rs:110-135 | the printed form determines the definition's id, arguments and result type |
| `ErrorPrinter.PrettyPrintMissingDependencies` | src/error_printer/mod.rs:88-108 | one line per argument type: its source when there is one, else "?" |
| `ErrorPrinter.PrintSourceLine` | src/error_printer/mod.rs:91-98 | the line of a type with its source |
| `ErrorPrinter.PrintUnknownLine` | src/error_printer/mod.rs:100-107 | the line of a type without a source |
| `ErrorPrinter.MissingLinesMarked` | src/error_printer/mod.rs:88-108 | exactly the types without a source are marked "?" |
| `ErrorPrinter.MissingLinesEols` | src/error_printer/mod.rs:88-108 | one line per argument type |
| `ErrorPrinter.MissingLinesNames` | src/error_printer/mod.rs:88-108 | the sources are named once each, in order |
| `ErrorPrinter.ExtraTokensNames` | src/error_printer/mod.rs:51-75 | every extra source is named once, in order, whether there is one or several |
| `ErrorPrinter.PrettyPrintSingle` | src/error_printer/mod.rs:25-86 | writes the reference rendering of a duplicate-definitions or argument-count error |
| `ErrorPrinter.PrintDuplicates` | src/error_printer/mod.rs:27-44 | the heading names the first alias's id, then one line per alias in key order |
| `ErrorPrinter.PrintAliasLines` | src/error_printer/mod.rs:37-43 | one line per alias key, in the given order |
| `ErrorPrinter.PrintAliasLine` | src/error_printer/mod.rs:38-42 | the count, " of " and the definition |
| `ErrorPrinter.PrintHeading` | src/error_printer/mod.rs:28-35 | the duplicate-definitions heading |
| `ErrorPrinter.PrintCountMismatch` | src/error_printer/mod.rs:45-84 | writes the reference rendering of an argument-count error |
| `ErrorPrinter.PrintDefinitionHeading` | src/error_printer/mod.rs:46-50 | the argument-count heading naming the definition |
| `ErrorPrinter.PrintMissing` | src/error_printer/mod.rs:76-82 | the count of undefined dependencies and their lines |
| `ErrorPrinter.PrintExtras` | src/error_printer/mod.rs:51-75 | one extra alone, or the leading ones with commas, then the last two joined by " and " |
| `ErrorPrinter.PrintLastTwo` | src/error_printer/mod.rs:72-74 | the last two extras joined by " and " |
| `ErrorPrinter.PrintHeads` | src/error_printer/mod.rs:68-71 | the leading extras, each followed by ", " |
| `ErrorPrinter.ExtraSourcesNamed` | src/error_printer/mod.rs:51-75 | with too many sources, the failing definition and exactly the surplus sources are named |
| `ErrorPrinter.MissingCountAnnounced` | src/error_printer/mod.rs:76-83 | with too few sources, the number announced equals the lines marked "?", every type gets a line, and the sources are named in order |
| `ErrorPrinter.MissingNumberShown` | src/error_printer/mod.rs:78 | the number shown is the count of types without a source |
| `ErrorPrinter.MissingMarksCounted` | src/error_printer/mod.rs:76-83 | the "?" marks number the types without a source |
| `ErrorPrinter.MissingEolsCounted` | src/error_printer/mod.rs:76-83 | one line per argument type plus the final end of line |
| `ErrorPrinter.MissingSourcesNamed` | src/error_printer/mod.rs:76-83 | the definition, then its sources in order |
| `ErrorPrinter.MissingShape` | src/error_printer/mod.rs:76-83 | the heading, a line per argument type and an end of line |
| `ErrorPrinter.AliasesNameTheId` | src/registry/error/mod.rs:167-195 | every alias holds a definition of the duplicated id |
| `ErrorPrinter.OverrideErrorPrintable` | src/error_printer/mod.rs:27-33 | an override error can be printed, and its heading names the id defined more than once |
| `ErrorPrinter.AliasesNotEmpty` | src/error_printer/mod.rs:31 | a non-empty candidate list leaves an alias for `unwrap` to take |
| `ErrorPrinter.CountErrorPrintable` | src/error_printer/mod.rs:45-84 | an argument-count error can always be printed |
| `ErrorPrinter.DuplicateLineCount` | src/error_printer/mod.rs:27-44 | one line per alias after the heading line |
| `Macros.CountExprs` | src/macros/mod.rs:3-6 | the count is the number of expressions |
| `Macros.CmpMany` | src/macros/mod.rs:8-18 | `Equal` exactly when every field compares equal; otherwise the first field result that is not `Equal` |
| `Macros.PartialCmpMany` | src/macros/mod.rs:20-30 | `Some(Equal)` exactly when every field does; otherwise the first field result that is not `Some(Equal)` |
| `Macros.PartialNoneShortCircuits` | src/macros/mod.rs:20-30 | a field that cannot be compared, reached after equal fields, makes the comparison `None` |
| `Macros.EqMany` | src/macros/mod.rs:32-36 | equal exactly when every field is equal |
| `Macros.Pairwise` | src/macros/mod.rs:38-57 | the fields are compared position by position |
| `Macros.OrdEqIffFieldsEqual` | src/macros/mod.rs:38-57 | the derived `eq` holds exactly when every listed field is equal |
| `Macros.OrdEqIsEquality` | src/macros/mod.rs:38-57 | with the fields' own equality, the derived `eq` is equality of the structs |
| `Macros.OrdCmpAgreesWithEq` | src/macros/mod.rs:38-57 | the derived `cmp` is `Equal` exactly when the derived `eq` holds |
| `Macros.OrdPartialAgreesWithCmp` | src/macros/mod.rs:38-57 | the derived `partial_cmp` is `Some` of the derived `cmp` |
| `Macros.OrdCmpAntisymmetric` | src/macros/mod.rs:38-57 | swapping the structs reverses the derived order |
| `Macros.OrdCmpTransitive` | src/macros/mod.rs:38-57 | the derived order is transitive |

## Left out

- `pretty_print` and the terminal writer are left out. They are colour and I/O; the model records the writer calls instead of printing them.
- `ErrorPrinter.PrettyPrintSingle` handles only duplicate-definition and argument-count errors, as the source's match does. The other three errors have no printed form in the source either.
- `ErrorPrinter.PrettyPrintMissingDependencies` requires at most as many sources as types. With more sources, the slice at src/error_printer/mod.rs:100 panics. Its only caller reaches it in that case alone.
- Factory construction is reduced to the argument and result types of a metafactory, and an aggregate to its item and list types. The `metafactory` crate is not part of this model, so a factory cannot be called.
- `Registries.CreateFactory` models the metafactory's type check by `Fits`. The real check happens inside `new_factory`, which is not part of this model.
- `finalize_with_args_one` and `finalize_with_args_one_of` are not shown in the source. `Registries.Registry.FinalizeOne` and `Registries.Registry.FinalizeOneOf` record what the finalizers hand on and do not guess at the registry change.
- The private duplicate of `ArgumentBuilder` in src/registry/new_definition/mod.rs:10-35 behaves like the public one, so it is modelled once.
- `Registries.Registry.NextMemberId` uses an unbounded count. In the source, `member_count` is a `u32`, and wrap-around after 2^32 members is not modelled.
- The factory methods of `Registry` take the registry's state as a value, because they only read `&self`.
- The comparison macros evaluate field comparisons lazily. The model takes every field's result as given, which has the same value because comparisons have no side effects here. Heterogeneous field types are modelled by one type parameter and a comparison per position.
- Concurrency is left out: mutex blocking, `Send`/`Sync`, and the lock around the `Inceptor`. A poisoned lock inside `invoke`, and one taken by `Destructor::drop`, panics in the source; the model does not represent that panic.
- Rust ownership, lifetimes and `Arc` are modelled only through the strong reference count that `explode` checks.
- The engine layer that calls `Deps`, `Inceptor` and `Scope` (`attach`, `bridge`, `create`, `when_ready`, `collectable`) is not part of this model. Child constructors are plain functions from the parent to an optional child.
- `Inceptors.Inceptor.Invoke` requires both slots to be occupied. The source treats anything else as unreachable.
- `Inceptors.Inceptor.Destroy1`, `Inceptors.Inceptor.Destroy2` and `Inceptors.Destructor.Drop` require the slot id to lie inside its table. For an id past the end, the `expect` at src/inceptor.rs:97-99 and 107-109 panics, and the model does not represent that panic. A `Destructor` only ever holds an id its `incept` call handed out.
- `Inceptors.Inceptor.Invoke` leaves out the parent values. The source's bridge takes `&mut T1` and `&mut T2` on the locked parents and may change both, so a later pairing can see what an earlier one wrote. The model's bridge is a fixed function of the two slot handles and cannot write through them.
- `CleanIsResolvable` holds only for the corrected dependency check. With the check as written, clean validators guarantee resolved sources only for definitions that share their id with no group (`Registries.CleanResolvesUnshadowed`); see the second row of Findings.
- `Validators.DependencyValidate`, the corrected check, is not one of the validators `Registry::new` installs. `Registries.Registry.Compile` runs the check as written, as the source does.
- `Instances.Downcast` and `Scopes.Scope.FromAnyInstance` require the boxed type to be the expected one. A mismatch is a fatal `expect` in the source.

## Findings

| source | as written | input that shows it | evidently intended | confidence | as-written member | corrected member |
|---|---|---|---|---|---|---|
| src/registry/new_definition/mod.rs:199-208 | `NewDefinition::insert` only calls `define`, so a group named through `in_group` is never registered; the groups loop of `compile` (src/registry/mod.rs:223-236) then reaches the group id, which is neither a definition nor a group, and the `expect` at src/registry/mod.rs:568 panics | `one("a", v).in_group("g").insert()` followed by `compile()` | register the group when absent, as `one_of` and `may_be_empty` do, so a registry whose validators pass never panics on an unknown id | not executed | `Builders.NewDefinition.InsertAsWritten`, `Builders.InGroupInsertAsWrittenPanics`, `Registries.UngroupedDefinitionPanics` | `Builders.NewDefinition.Insert`, `Builders.CorrectedCompileNeverUnknown` |
| src/registry/validator/dependencies.rs:42-73 | the requirement map is filled from the definitions and then from the groups, so a group overwrites a definition with the same id; that definition's missing source is never reported, while `create_factory` prefers the definition and panics on the missing source | a group "g" with member "g`1", and a definition "g" whose source "nope" does not exist | report every definition's missing sources, with the precedence `create_factory` uses | not executed | `Validators.DependencyValidateAsWritten`, `Validators.ShadowedDefinitionMissed`, `Registries.ShadowedDefinitionPanics` | `Validators.DependencyValidate`, `Registries.CleanIsResolvable`, `Builders.CorrectedCompileNeverUnknown` |
