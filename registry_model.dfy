/** The data of the static registry (src/registry/mod.rs, src/registry/candidate,
    src/registry/error): candidates, the registry state, the state changes `define`
    and `define_group_if_not_exists` make, and the error records `compile` reports.
    Type definitions are opaque names; a metafactory is reduced to the argument types
    it takes and the type of value it produces. */
module RegistryModel {
  import opened Common
  import opened Decimal

  type Id = string
  type TypeName = string

  /** `Box<MetaFactory>`: the argument types of the factory and its result type. */
  datatype MetaFactory = MetaFactory(argTypes: seq<TypeName>, resultType: TypeName)

  /** `Aggregate`: builds the list-valued factory of a group from its members'
      factories. It knows the member type and the type of the list. */
  datatype Aggregate = Aggregate(itemType: TypeName, containerType: TypeName)

  /** The name of the list type a group of `item` values has. */
  function ContainerOf(item: TypeName): TypeName
  {
    "Vec<" + item + ">"
  }

  /** `metafactory.new_aggregate()` and `Aggregate::new::<T>()`: the aggregate for
      values of one type. */
  function AggregateOf(item: TypeName): (a: Aggregate)
    ensures a.itemType == item && a.containerType == ContainerOf(item)
  {
    Aggregate(item, ContainerOf(item))
  }

  datatype DefinitionCandidate = DefinitionCandidate(
    metafactory: MetaFactory,
    argSources: seq<Id>,
    collectionId: Option<Id>)

  datatype GroupCandidate = GroupCandidate(
    collectionTypedef: TypeName,
    aggregate: Aggregate,
    memberCount: nat)

  /** `GroupCandidate::new`: a group with no members counted yet. */
  function NewGroupCandidate(aggregate: Aggregate): (g: GroupCandidate)
    ensures g.aggregate == aggregate && g.collectionTypedef == aggregate.containerType
    ensures g.memberCount == 0
  {
    GroupCandidate(aggregate.containerType, aggregate, 0)
  }

  /** What the registry holds: groups and definitions by id, and for every id that was
      defined more than once, the candidates that were replaced, oldest first. */
  datatype RegistryState = RegistryState(
    groups: map<Id, GroupCandidate>,
    definitions: map<Id, DefinitionCandidate>,
    overridden: map<Id, seq<DefinitionCandidate>>)

  const EmptyRegistry := RegistryState(map[], map[], map[])

  /** The ids a dependency can resolve to: definitions and registered groups. */
  function AllIds(st: RegistryState): set<Id>
  {
    st.definitions.Keys + st.groups.Keys
  }

  /** The candidates replaced so far under `id`. */
  function OverriddenOf(st: RegistryState, id: Id): seq<DefinitionCandidate>
  {
    if id in st.overridden then st.overridden[id] else []
  }

  /** The state after `Registry::define`. */
  function Define(st: RegistryState, collectionId: Option<Id>, id: Id, value: MetaFactory, args: seq<Id>): RegistryState
  {
    var overridden :=
      if id in st.definitions then st.overridden[id := OverriddenOf(st, id) + [st.definitions[id]]]
      else st.overridden;
    st.(definitions := st.definitions[id := DefinitionCandidate(value, args, collectionId)],
        overridden := overridden)
  }

  /** The state after `Registry::define_group_if_not_exists`. */
  function DefineGroupIfNotExists(st: RegistryState, collectionId: Id, aggregate: Aggregate): RegistryState
  {
    if collectionId in st.groups then st
    else st.(groups := st.groups[collectionId := NewGroupCandidate(aggregate)])
  }

  /** `define` installs the new candidate under `id` and moves a candidate it replaces
      to the end of that id's overridden list; no other id is touched. */
  lemma DefineProperties(st: RegistryState, collectionId: Option<Id>, id: Id, value: MetaFactory, args: seq<Id>)
    ensures var st' := Define(st, collectionId, id, value, args);
      && st'.definitions[id] == DefinitionCandidate(value, args, collectionId)
      && st'.groups == st.groups
      && (id in st.definitions ==> OverriddenOf(st', id) == OverriddenOf(st, id) + [st.definitions[id]])
      && (id !in st.definitions ==> OverriddenOf(st', id) == OverriddenOf(st, id))
      && (forall other :: other != id ==>
            OverriddenOf(st', other) == OverriddenOf(st, other)
            && (other in st'.definitions <==> other in st.definitions)
            && (other in st.definitions ==> st'.definitions[other] == st.definitions[other]))
  {
  }

  /** `define_group_if_not_exists` never replaces a group: an existing one keeps its
      member count. */
  lemma DefineGroupKeepsExisting(st: RegistryState, collectionId: Id, aggregate: Aggregate)
    ensures var st' := DefineGroupIfNotExists(st, collectionId, aggregate);
      && collectionId in st'.groups
      && st'.definitions == st.definitions && st'.overridden == st.overridden
      && (collectionId in st.groups ==> st'.groups == st.groups)
      && (collectionId !in st.groups ==> st'.groups[collectionId].memberCount == 0)
      && (forall g :: g != collectionId ==> (g in st'.groups <==> g in st.groups))
  {
  }

  /** The state after `one_of` or `insert_one_of` has made sure the group exists and
      counted one more member for it. */
  function AddMember(st: RegistryState, collectionId: Id, aggregate: Aggregate): (r: RegistryState)
    ensures collectionId in r.groups
  {
    var st1 := DefineGroupIfNotExists(st, collectionId, aggregate);
    var g := st1.groups[collectionId];
    st1.(groups := st1.groups[collectionId := g.(memberCount := g.memberCount + 1)])
  }

  /** Counting a member creates the group only when it is absent, bumps its count by
      one, and leaves everything else alone. */
  lemma AddMemberProperties(st: RegistryState, collectionId: Id, aggregate: Aggregate)
    ensures var r := AddMember(st, collectionId, aggregate);
      && r.definitions == st.definitions && r.overridden == st.overridden
      && r.groups.Keys == st.groups.Keys + {collectionId}
      && (collectionId in st.groups ==>
            r.groups[collectionId] == st.groups[collectionId].(memberCount := st.groups[collectionId].memberCount + 1))
      && (collectionId !in st.groups ==> r.groups[collectionId] == NewGroupCandidate(aggregate).(memberCount := 1))
      && (forall g :: g in st.groups && g != collectionId ==> r.groups[g] == st.groups[g])
  {
  }

  /** The id `one_of` and `insert_one_of` give the n-th member of a group: the
      collection id, a backtick and the member number. */
  function MemberId(collectionId: Id, n: nat): Id
  {
    collectionId + "`" + NatToString(n)
  }

  /** Different members of one group get different ids, and a member id is never the
      group id itself. */
  lemma MemberIdsDistinct(collectionId: Id, m: nat, n: nat)
    ensures MemberId(collectionId, m) == MemberId(collectionId, n) <==> m == n
    ensures MemberId(collectionId, n) != collectionId
  {
    var a, b := MemberId(collectionId, m), MemberId(collectionId, n);
    if a == b {
      assert a[|collectionId| + 1..] == NatToString(m);
      assert b[|collectionId| + 1..] == NatToString(n);
      NatToStringInjective(m, n);
    }
  }

  // ---------------------------------------------------------------------------
  // Group membership

  /** For every collection id some definition names, the ids of the definitions that
      name it. */
  function CollectionMembers(st: RegistryState): map<Id, set<Id>>
  {
    map c | c in CollectionIdsOf(st) :: MembersOf(st, c)
  }

  /** The definitions that name collection `c`. */
  function MembersOf(st: RegistryState, c: Id): set<Id>
  {
    set id | id in st.definitions && st.definitions[id].collectionId == Some(c)
  }

  function CollectionIdsOf(st: RegistryState): set<Id>
  {
    set id | id in st.definitions && st.definitions[id].collectionId.Some? :: st.definitions[id].collectionId.value
  }

  /** What `collect_group_dependencies` computes: every collection id a definition
      names and every registered group, mapped to the ids of its member definitions. */
  function GroupDependencies(st: RegistryState): (m: map<Id, set<Id>>)
  {
    map c | c in CollectionIdsOf(st) + st.groups.Keys :: MembersOf(st, c)
  }

  /** Every group the definitions name has been registered. */
  ghost predicate GroupsRegistered(st: RegistryState)
  {
    forall id :: id in st.definitions && st.definitions[id].collectionId.Some? ==>
      st.definitions[id].collectionId.value in st.groups
  }

  /** The keys of the group map are the registered groups plus the collection ids the
      definitions name; each maps to exactly its member definitions, and a registered
      group nobody names maps to the empty set. */
  lemma GroupDependenciesShape(st: RegistryState)
    ensures forall c :: c in GroupDependencies(st) <==>
      c in st.groups || exists id :: id in st.definitions && st.definitions[id].collectionId == Some(c)
    ensures forall c, id :: c in GroupDependencies(st) ==>
      (id in GroupDependencies(st)[c] <==> id in st.definitions && st.definitions[id].collectionId == Some(c))
    ensures forall c :: c in GroupDependencies(st) && c in CollectionMembers(st) ==>
      GroupDependencies(st)[c] == CollectionMembers(st)[c]
  {
    forall c | exists id :: id in st.definitions && st.definitions[id].collectionId == Some(c)
      ensures c in CollectionIdsOf(st)
    {
      var id :| id in st.definitions && st.definitions[id].collectionId == Some(c);
      assert st.definitions[id].collectionId.value == c;
    }
  }

  /** When every named group is registered, the group map has exactly the registered
      groups as keys. */
  lemma GroupDependenciesKeys(st: RegistryState)
    requires GroupsRegistered(st)
    ensures GroupDependencies(st).Keys == st.groups.Keys
  {
    GroupDependenciesShape(st);
  }

  // ---------------------------------------------------------------------------
  // Errors

  /** `error::Argument`: one dependency of a definition, with its type. */
  datatype Argument = Argument(typedef: TypeName, source: Id)

  /** `error::Definition`. */
  datatype Definition = Definition(id: Id, collectionId: Option<Id>, typedef: TypeName, args: seq<Argument>)

  /** `error::Duplicate`: a definition and how many candidates shared its arguments. */
  datatype Duplicate = Duplicate(definition: Definition, count: nat)

  datatype DuplicateDefinitions = DuplicateDefinitions(aliases: map<string, Duplicate>)

  datatype ArgumentCountMismatch = ArgumentCountMismatch(
    id: Id, collectionId: Option<Id>, typedef: TypeName, argTypes: seq<TypeName>, argSources: seq<Id>)

  datatype DependenciesNotFound = DependenciesNotFound(id: Id, missingDependencies: set<Id>)

  datatype IncorrectDependencyTypes = IncorrectDependencyTypes(
    id: Id, collectionId: Option<Id>, typedef: TypeName, argTypes: seq<TypeName>,
    argSources: seq<Id>, mismatchedTypes: map<nat, TypeName>)

  datatype CircularDependency = CircularDependency(path: seq<Id>)

  datatype CompileError =
    | Duplicates(duplicates: DuplicateDefinitions)
    | CountMismatch(mismatch: ArgumentCountMismatch)
    | NotFound(notFound: DependenciesNotFound)
    | IncorrectTypes(incorrect: IncorrectDependencyTypes)
    | Circular(circular: CircularDependency)

  /** `arguments_from_candidate`: argument types and sources paired by position, as
      far as both lists go. */
  function ArgumentsFromCandidate(c: DefinitionCandidate): (r: seq<Argument>)
    ensures |r| == if |c.metafactory.argTypes| <= |c.argSources| then |c.metafactory.argTypes| else |c.argSources|
    ensures forall i :: 0 <= i < |r| ==> r[i] == Argument(c.metafactory.argTypes[i], c.argSources[i])
  {
    var n := if |c.metafactory.argTypes| <= |c.argSources| then |c.metafactory.argTypes| else |c.argSources|;
    seq(n, i requires 0 <= i < n => Argument(c.metafactory.argTypes[i], c.argSources[i]))
  }

  /** `Definition::from_candidate`. */
  function DefinitionFromCandidate(id: Id, c: DefinitionCandidate): (d: Definition)
    ensures d.id == id && d.collectionId == c.collectionId && d.typedef == c.metafactory.resultType
    ensures d.args == ArgumentsFromCandidate(c)
  {
    Definition(id, c.collectionId, c.metafactory.resultType, ArgumentsFromCandidate(c))
  }

  /** `ArgumentCountMismatch::new`: the candidate's lists, unchanged. */
  function NewArgumentCountMismatch(id: Id, c: DefinitionCandidate): (e: ArgumentCountMismatch)
    ensures e.id == id && e.collectionId == c.collectionId && e.typedef == c.metafactory.resultType
    ensures e.argTypes == c.metafactory.argTypes && e.argSources == c.argSources
  {
    ArgumentCountMismatch(id, c.collectionId, c.metafactory.resultType, c.metafactory.argTypes, c.argSources)
  }

  /** The piece one argument contributes to the argument hash: `source:type`. */
  function HashPiece(a: Argument): string
  {
    a.source + ":" + a.typedef
  }

  function ConcatPieces(args: seq<Argument>): string
  {
    if args == [] then "" else ConcatPieces(args[..|args| - 1]) + HashPiece(args[|args| - 1])
  }

  /** `argument_hash_for_candidate`: the `source:type` pieces of the paired arguments,
      concatenated with no separator. */
  function ArgumentHash(c: DefinitionCandidate): string
  {
    ConcatPieces(ArgumentsFromCandidate(c))
  }

  /** The hash read from the front: the first argument's piece, then the rest. */
  lemma {:induction false} ConcatPiecesFront(args: seq<Argument>)
    requires args != []
    ensures ConcatPieces(args) == HashPiece(args[0]) + ConcatPieces(args[1..])
  {
    if |args| == 1 {
      assert args[1..] == [];
      assert args[..0] == [];
    } else {
      var init := args[..|args| - 1];
      var tail := args[1..];
      var last := HashPiece(args[|args| - 1]);
      ConcatPiecesFront(init);
      assert init[0] == args[0];
      assert init[1..] == tail[..|tail| - 1];
      assert tail[|tail| - 1] == args[|args| - 1];
      assert ConcatPieces(tail) == ConcatPieces(init[1..]) + last;
      assert ConcatPieces(args) == ConcatPieces(init) + last;
    }
  }

  /** The position of the first ':' in `s`, or `|s|` when there is none. */
  function FirstColon(s: string): (r: nat)
    ensures r <= |s|
    ensures r < |s| ==> s[r] == ':'
    ensures forall k :: 0 <= k < r ==> s[k] != ':'
  {
    if s == [] then 0
    else if s[0] == ':' then 0
    else 1 + FirstColon(s[1..])
  }

  lemma {:induction false} FirstColonAfter(x: string, y: string)
    requires ':' !in x
    ensures FirstColon(x + ":" + y) == |x|
  {
    if x != [] {
      assert (x + ":" + y)[1..] == x[1..] + ":" + y;
      FirstColonAfter(x[1..], y);
    }
  }

  /** A source with no ':' is recovered from the front of a piece. */
  lemma SplitAtColon(x: string, y: string, x': string, y': string)
    requires ':' !in x && ':' !in x'
    requires x + ":" + y == x' + ":" + y'
    ensures x == x' && y == y'
  {
    var s := x + ":" + y;
    FirstColonAfter(x, y);
    FirstColonAfter(x', y');
    assert x == s[..|x|] && x' == s[..|x'|];
    assert y == s[|x| + 1..] && y' == s[|x'| + 1..];
  }

  /** No argument's source contains ':'. */
  predicate ColonFreeSources(args: seq<Argument>)
  {
    forall i :: 0 <= i < |args| ==> ':' !in args[i].source
  }

  /** When two argument lists have the same types position by position and no source
      contains ':', the hash tells them apart: equal hashes mean equal arguments. */
  lemma {:induction false} HashDeterminesSources(a: seq<Argument>, b: seq<Argument>)
    requires |a| == |b| && forall i :: 0 <= i < |a| ==> a[i].typedef == b[i].typedef
    requires ColonFreeSources(a) && ColonFreeSources(b)
    requires ConcatPieces(a) == ConcatPieces(b)
    ensures a == b
  {
    if a != [] {
      FirstPieceEqual(a, b);
      HashDeterminesSources(a[1..], b[1..]);
      assert a == [a[0]] + a[1..] && b == [b[0]] + b[1..];
    }
  }

  /** The first arguments agree, and so do the hashes of the rest. */
  lemma FirstPieceEqual(a: seq<Argument>, b: seq<Argument>)
    requires a != [] && b != [] && a[0].typedef == b[0].typedef
    requires ':' !in a[0].source && ':' !in b[0].source
    requires ConcatPieces(a) == ConcatPieces(b)
    ensures a[0] == b[0] && ConcatPieces(a[1..]) == ConcatPieces(b[1..])
  {
    ConcatPiecesFront(a);
    ConcatPiecesFront(b);
    PieceSplit(a[0].source, b[0].source, a[0].typedef, ConcatPieces(a[1..]), ConcatPieces(b[1..]));
  }

  /** Two pieces of the same type, each followed by some text, agree on the source and
      on the text when neither source contains ':'. */
  lemma PieceSplit(x: string, x': string, t: string, y: string, y': string)
    requires ':' !in x && ':' !in x'
    requires x + ":" + t + y == x' + ":" + t + y'
    ensures x == x' && y == y'
  {
    assert x + ":" + t + y == x + ":" + (t + y);
    assert x' + ":" + t + y' == x' + ":" + (t + y');
    SplitAtColon(x, t + y, x', t + y');
    assert y == (t + y)[|t|..] && y' == (t + y')[|t|..];
  }

  /** The pieces are joined with no separator, so different argument lists can share a
      hash: one source "a" of type "Tb:U", and sources "a" and "b" of types "T" and
      "U", both give "a:Tb:U". `DuplicateDefinitions::new` then files the two different
      definitions under one alias, counted twice and shown as the first. Types with no
      ':' do not prevent it: "a" of type "xy" then "" of type "z" collides with "a" of
      type "x" then "y" of type "z". */
  lemma ArgumentHashCollision(id: Id)
    ensures var one := DefinitionCandidate(MetaFactory(["Tb:U"], "R"), ["a"], None);
      var two := DefinitionCandidate(MetaFactory(["T", "U"], "R"), ["a", "b"], None);
      && DefinitionFromCandidate(id, one) != DefinitionFromCandidate(id, two)
      && Aliases(id, [one, two]) == map["a:Tb:U" := Duplicate(DefinitionFromCandidate(id, one), 2)]
    ensures ConcatPieces([Argument("xy", "a"), Argument("z", "")]) == ConcatPieces([Argument("x", "a"), Argument("z", "y")])
  {
    var one := DefinitionCandidate(MetaFactory(["Tb:U"], "R"), ["a"], None);
    var two := DefinitionCandidate(MetaFactory(["T", "U"], "R"), ["a", "b"], None);
    var argsOne := ArgumentsFromCandidate(one);
    var argsTwo := ArgumentsFromCandidate(two);
    assert argsOne == [Argument("Tb:U", "a")];
    assert argsTwo == [Argument("T", "a"), Argument("U", "b")];
    assert argsOne[..0] == [] && argsTwo[..1] == [Argument("T", "a")] && argsTwo[..1][..0] == [];
    assert ArgumentHash(one) == "a:Tb:U";
    assert ArgumentHash(two) == "a:Tb:U";
    assert |DefinitionFromCandidate(id, one).args| != |DefinitionFromCandidate(id, two).args|;
    var pair := [one, two];
    assert pair[..1] == [one] && pair[..1][..0] == [];
    assert Aliases(id, [one]) == map["a:Tb:U" := Duplicate(DefinitionFromCandidate(id, one), 1)];
    AliasesCharacterized(id, pair, "a:Tb:U");
    assert Aliases(id, pair).Keys == {"a:Tb:U"};
    var xs := [Argument("xy", "a"), Argument("z", "")];
    var ys := [Argument("x", "a"), Argument("z", "y")];
    assert xs[..1] == [Argument("xy", "a")] && xs[..1][..0] == [];
    assert ys[..1] == [Argument("x", "a")] && ys[..1][..0] == [];
  }

  /** The aliases `DuplicateDefinitions::new` builds from the first `dups` candidates:
      one entry per distinct argument hash, holding the definition made from the
      first candidate with that hash and the number of candidates that have it. */
  function Aliases(id: Id, dups: seq<DefinitionCandidate>): map<string, Duplicate>
  {
    if dups == [] then map[]
    else
      var m := Aliases(id, dups[..|dups| - 1]);
      var d := dups[|dups| - 1];
      var h := ArgumentHash(d);
      if h in m then m[h := m[h].(count := m[h].count + 1)]
      else m[h := Duplicate(DefinitionFromCandidate(id, d), 1)]
  }

  /** `DuplicateDefinitions::new`. */
  method NewDuplicateDefinitions(id: Id, duplicates: seq<DefinitionCandidate>) returns (r: DuplicateDefinitions)
    ensures r.aliases == Aliases(id, duplicates)
  {
    var aliases: map<string, Duplicate> := map[];
    for i := 0 to |duplicates|
      invariant aliases == Aliases(id, duplicates[..i])
    {
      assert duplicates[..i + 1][..i] == duplicates[..i];
      var hash := ArgumentHash(duplicates[i]);
      if hash in aliases {
        aliases := aliases[hash := aliases[hash].(count := aliases[hash].count + 1)];
      } else {
        aliases := aliases[hash := Duplicate(DefinitionFromCandidate(id, duplicates[i]), 1)];
      }
    }
    assert duplicates[..|duplicates|] == duplicates;
    r := DuplicateDefinitions(aliases);
  }

  /** How many of the candidates have hash `h`. */
  function CountWithHash(dups: seq<DefinitionCandidate>, h: string): nat
  {
    if dups == [] then 0
    else CountWithHash(dups[..|dups| - 1], h) + (if ArgumentHash(dups[|dups| - 1]) == h then 1 else 0)
  }

  /** `r` is the index of the first candidate with hash `h`, or `None` when no
      candidate has it. */
  ghost predicate IsFirstWithHash(dups: seq<DefinitionCandidate>, h: string, r: Option<nat>)
  {
    && (r.Some? ==>
          && r.value < |dups| && ArgumentHash(dups[r.value]) == h
          && forall j :: 0 <= j < r.value ==> ArgumentHash(dups[j]) != h)
    && (r.None? ==> forall j :: 0 <= j < |dups| ==> ArgumentHash(dups[j]) != h)
  }

  /** The index of the first candidate with hash `h`, if any. */
  function FirstWithHash(dups: seq<DefinitionCandidate>, h: string): (r: Option<nat>)
    ensures IsFirstWithHash(dups, h, r)
  {
    if dups == [] then None
    else if ArgumentHash(dups[0]) == h then Some(0)
    else match FirstWithHash(dups[1..], h)
      case None => None
      case Some(k) => Some(k + 1)
  }

  lemma FirstWithHashUnique(dups: seq<DefinitionCandidate>, h: string, r: Option<nat>)
    requires IsFirstWithHash(dups, h, r)
    ensures FirstWithHash(dups, h) == r
  {
  }

  lemma FirstWithHashSnoc(dups: seq<DefinitionCandidate>, d: DefinitionCandidate, h: string)
    ensures FirstWithHash(dups + [d], h) ==
      if FirstWithHash(dups, h).Some? then FirstWithHash(dups, h)
      else if ArgumentHash(d) == h then Some(|dups|) else None
  {
    var e := if FirstWithHash(dups, h).Some? then FirstWithHash(dups, h)
      else if ArgumentHash(d) == h then Some(|dups|) else None;
    assert forall j :: 0 <= j < |dups| ==> (dups + [d])[j] == dups[j];
    assert IsFirstWithHash(dups + [d], h, e);
    FirstWithHashUnique(dups + [d], h, e);
  }

  lemma {:induction false} CountWithHashZero(dups: seq<DefinitionCandidate>, h: string)
    requires forall j :: 0 <= j < |dups| ==> ArgumentHash(dups[j]) != h
    ensures CountWithHash(dups, h) == 0
  {
    if dups != [] {
      CountWithHashZero(dups[..|dups| - 1], h);
    }
  }

  /** One alias per distinct hash among the candidates; its count is the number of
      candidates with that hash, and its definition comes from the first of them. */
  lemma {:induction false} AliasesCharacterized(id: Id, dups: seq<DefinitionCandidate>, h: string)
    ensures h in Aliases(id, dups) <==> FirstWithHash(dups, h).Some?
    ensures h in Aliases(id, dups) ==>
      && Aliases(id, dups)[h].count == CountWithHash(dups, h)
      && Aliases(id, dups)[h].count >= 1
      && Aliases(id, dups)[h].definition == DefinitionFromCandidate(id, dups[FirstWithHash(dups, h).value])
  {
    if dups != [] {
      var init := dups[..|dups| - 1];
      var d := dups[|dups| - 1];
      AliasesCharacterized(id, init, h);
      FirstWithHashSnoc(init, d, h);
      assert init + [d] == dups;
      if FirstWithHash(init, h).Some? {
        assert dups[FirstWithHash(init, h).value] == init[FirstWithHash(init, h).value];
      } else {
        CountWithHashZero(init, h);
      }
    }
  }

  /** The sum of the alias counts. */
  ghost function TotalCount(m: map<string, Duplicate>): nat
    decreases |m.Keys|
  {
    if m == map[] then 0
    else
      var k :| k in m;
      m[k].count + TotalCount(m - {k})
  }

  /** `TotalCount` may start from any key. */
  lemma {:induction false} TotalCountAnyKey(m: map<string, Duplicate>, k: string)
    requires k in m
    ensures TotalCount(m) == m[k].count + TotalCount(m - {k})
    decreases |m.Keys|
  {
    var k' :| k' in m && TotalCount(m) == m[k'].count + TotalCount(m - {k'});
    if k' != k {
      var rest := m - {k'};
      TotalCountAnyKey(rest, k);
      var both := rest - {k};
      TotalCountAnyKey(m - {k}, k');
      assert (m - {k}) - {k'} == both;
    }
  }

  /** Replacing one entry changes the total by the difference of the counts. */
  lemma TotalCountUpdate(m: map<string, Duplicate>, k: string, v: Duplicate)
    ensures k in m ==> TotalCount(m[k := v]) + m[k].count == TotalCount(m) + v.count
    ensures k !in m ==> TotalCount(m[k := v]) == TotalCount(m) + v.count
  {
    TotalCountAnyKey(m[k := v], k);
    if k in m {
      TotalCountAnyKey(m, k);
      assert m[k := v] - {k} == m - {k};
    } else {
      assert m[k := v] - {k} == m;
    }
  }

  /** Every candidate is counted in exactly one alias: the counts add up to the number
      of candidates. */
  lemma {:induction false} AliasCountsSum(id: Id, dups: seq<DefinitionCandidate>)
    ensures TotalCount(Aliases(id, dups)) == |dups|
  {
    if dups != [] {
      var init := dups[..|dups| - 1];
      AliasCountsSum(id, init);
      var m := Aliases(id, init);
      var h := ArgumentHash(dups[|dups| - 1]);
      if h in m {
        TotalCountUpdate(m, h, m[h].(count := m[h].count + 1));
      } else {
        TotalCountUpdate(m, h, Duplicate(DefinitionFromCandidate(id, dups[|dups| - 1]), 1));
      }
    }
  }
}
