/** The child-constructor registry of the runtime engine (src/deps.rs): for every
    parent type, the constructors that build the objects which must live as long as
    a parent of that type. Types are erased, so parents are values of one type `V`
    and children values of one type `Ch`; each registry is keyed by the parent's
    type name. */
module DepsModel {
  import opened Common
  import opened Instances

  /** A child constructor: given the new parent, it may build one child. */
  type ChildConstructor<!V, Ch> = V -> Option<Ch>

  /** `deps::Scope`: the parent object together with the children built for it. */
  datatype DepsScope<V, Ch> = DepsScope(obj: V, childs: seq<Ch>)
  {
    /** `Deref for Scope`. */
    function Deref(): (r: V)
      ensures r == obj
    {
      obj
    }

    /** `DerefMut for Scope`, used for an assignment to the parent: the children stay. */
    function DerefMut(v: V): (r: DepsScope<V, Ch>)
      ensures r.Deref() == v && r.childs == childs
    {
      this.(obj := v)
    }
  }

  /** The constructors registered for `key`, in registration order (none when the key
      was never used). */
  function Registered<V, Ch>(m: map<TypeTag, seq<ChildConstructor<V, Ch>>>, key: TypeTag): seq<ChildConstructor<V, Ch>>
  {
    if key in m then m[key] else []
  }

  /** Each constructor of the list applied once to the parent, in list order. */
  function RunEach<V, Ch>(list: seq<ChildConstructor<V, Ch>>, obj: V): (r: seq<Option<Ch>>)
    ensures |r| == |list|
    ensures forall i :: 0 <= i < |list| ==> r[i] == list[i](obj)
  {
    if list == [] then [] else RunEach(list[..|list| - 1], obj) + [list[|list| - 1](obj)]
  }

  class Deps<V, Ch> {
    var typeChildConstructors: map<TypeTag, seq<ChildConstructor<V, Ch>>>

    /** `Deps::new`: no constructors for any type. */
    constructor ()
      ensures typeChildConstructors == map[]
      ensures forall key :: Registered(typeChildConstructors, key) == []
    {
      typeChildConstructors := map[];
    }

    /** `Deps::register_child_constructor`: appends to the parent type's list, creating
        it when absent; the lists of other types are unchanged. */
    method RegisterChildConstructor(key: TypeTag, ctor: ChildConstructor<V, Ch>)
      modifies this
      ensures key in typeChildConstructors
      ensures Registered(typeChildConstructors, key) == Registered(old(typeChildConstructors), key) + [ctor]
      ensures forall k :: k != key ==> Registered(typeChildConstructors, k) == Registered(old(typeChildConstructors), k)
      ensures typeChildConstructors.Keys == old(typeChildConstructors).Keys + {key}
    {
      if key in typeChildConstructors {
        typeChildConstructors := typeChildConstructors[key := typeChildConstructors[key] + [ctor]];
      } else {
        typeChildConstructors := typeChildConstructors[key := [ctor]];
      }
    }

    /** `Deps::create_deps`: the parent, unchanged, with the `Some` results of its
        type's constructors, each run once, in registration order. */
    function CreateDeps(key: TypeTag, obj: V): (r: DepsScope<V, Ch>)
      reads this
      ensures r.obj == obj
      ensures key !in typeChildConstructors ==> r.childs == []
      ensures r.childs == Somes(RunEach(Registered(typeChildConstructors, key), obj))
      ensures |r.childs| <= |Registered(typeChildConstructors, key)|
    {
      if key in typeChildConstructors then
        DepsScope(obj, Somes(RunEach(typeChildConstructors[key], obj)))
      else
        DepsScope(obj, [])
    }
  }

  /** Every child in the scope was built by one of the type's constructors, and every
      child a constructor built is in the scope. */
  lemma CreateDepsChildren<V, Ch>(deps: Deps<V, Ch>, key: TypeTag, obj: V, c: Ch)
    ensures c in deps.CreateDeps(key, obj).childs <==>
      exists i :: 0 <= i < |Registered(deps.typeChildConstructors, key)|
        && Registered(deps.typeChildConstructors, key)[i](obj) == Some(c)
  {
    var list := Registered(deps.typeChildConstructors, key);
    var results := RunEach(list, obj);
    SomesMembers(results, c);
    if Some(c) in results {
      var i :| 0 <= i < |results| && results[i] == Some(c);
      assert list[i](obj) == Some(c);
    }
  }

  /** When every constructor builds a child, the scope holds one child per constructor,
      in registration order. */
  lemma CreateDepsAllBuilt<V, Ch>(deps: Deps<V, Ch>, key: TypeTag, obj: V)
    requires forall i :: 0 <= i < |Registered(deps.typeChildConstructors, key)| ==>
      Registered(deps.typeChildConstructors, key)[i](obj).Some?
    ensures |deps.CreateDeps(key, obj).childs| == |Registered(deps.typeChildConstructors, key)|
    ensures forall i :: 0 <= i < |Registered(deps.typeChildConstructors, key)| ==>
      deps.CreateDeps(key, obj).childs[i] == Registered(deps.typeChildConstructors, key)[i](obj).value
  {
    SomesAllSome(RunEach(Registered(deps.typeChildConstructors, key), obj));
  }
}
