/** The scope that keeps a constructed value together with the children built for
    it (src/scope.rs). Children are dropped before the value is given up; a ghost
    event log records that order. */
module Scopes {
  import opened Common
  import opened Instances

  /** A child object owned by the scope. The children the inceptor hands out carry a
      destructor that releases one strong reference to the parent's shared cell when
      they are dropped. */
  datatype Child = Child(releasesParent: bool)

  datatype Event = ChildDropped(index: nat) | ValueReleased

  /** How `explode` ends: with the value, or at one of its two fatal expectations. */
  datatype ExplodeOutcome<T> =
    | Exploded(value: T)
    | NotLastReference
    | PoisonedValue

  /** One `ChildDropped` event per child, in order. */
  function DropEvents(n: nat): (r: seq<Event>)
    ensures |r| == n
    ensures forall i :: 0 <= i < n ==> r[i] == ChildDropped(i)
  {
    if n == 0 then [] else DropEvents(n - 1) + [ChildDropped(n - 1)]
  }

  /** How many of the children release a reference to the parent when dropped. */
  function Releasing(childs: seq<Child>): (n: nat)
    ensures n <= |childs|
  {
    if childs == [] then 0
    else Releasing(childs[..|childs| - 1]) + (if childs[|childs| - 1].releasesParent then 1 else 0)
  }

  /** The reference count left after the children release theirs (never below zero). */
  function CountAfter(count: nat, childs: seq<Child>): nat
  {
    if Releasing(childs) <= count then count - Releasing(childs) else 0
  }

  class Scope<T> {
    var obj: Instance<T>
    var childs: seq<Child>
    ghost var events: seq<Event>

    /** `Scope::from_any_instance`: downcasts the instance and keeps the children as
        given. */
    constructor FromAnyInstance(obj: AnyInstance<T>, expected: TypeTag, childs: seq<Child>)
      requires obj.tag == expected
      ensures this.obj == Downcast(obj, expected)
      ensures this.obj.Isolated? <==> obj.AnyIsolated?
      ensures this.childs == childs && events == []
    {
      this.obj := Downcast(obj, expected);
      this.childs := childs;
      events := [];
    }

    /** `Scope::lock` hands out the instance's guard. */
    function Lock(): (r: Result<Guard<T>, Guard<T>>)
      reads this, Footprint(obj)
      ensures r.Ok? <==> obj.Isolated? || !obj.cell.poisoned
      ensures Deref(Guarded(r)) == ValueOf(obj)
    {
      Instances.Lock(obj)
    }

    /** `Scope::get_instance`. */
    function GetInstance(): (r: Instance<T>)
      reads this
      ensures r == obj && Footprint(r) == Footprint(obj)
    {
      obj
    }

    /** `Scope::explode`: drops every child, in order, and only then gives up the
        value. An isolated value comes back unchanged. A shared value comes back only
        when the scope's reference is the last one and the mutex is not poisoned;
        otherwise the call fails fatally. */
    method Explode() returns (r: ExplodeOutcome<T>)
      modifies this, Footprint(obj)
      ensures childs == [] && obj == old(obj)
      ensures events == old(events) + DropEvents(|old(childs)|)
        + (if r.Exploded? then [ValueReleased] else [])
      ensures old(obj).Isolated? ==> r == Exploded(old(obj.owned.value))
      ensures old(obj).Shared? ==>
        var count := CountAfter(old(obj.cell.strongCount), old(childs));
        && (count != 1 ==> r == NotLastReference)
        && (count == 1 && old(obj.cell.poisoned) ==> r == PoisonedValue)
        && (count == 1 && !old(obj.cell.poisoned) ==> r == Exploded(old(obj.cell.value)))
    {
      var n := |childs|;
      var i := 0;
      while i < n
        invariant i <= n == |childs| && childs == old(childs) && obj == old(obj)
        invariant events == old(events) + DropEvents(i)
        invariant ValueOf(obj) == old(ValueOf(obj))
        invariant obj.Shared? ==> obj.cell.poisoned == old(obj.cell.poisoned)
        invariant obj.Shared? ==> obj.cell.strongCount == CountAfter(old(obj.cell.strongCount), childs[..i])
      {
        assert childs[..i + 1][..i] == childs[..i];
        events := events + [ChildDropped(i)];
        if childs[i].releasesParent {
          if obj.Shared? && obj.cell.strongCount > 0 {
            obj.cell.strongCount := obj.cell.strongCount - 1;
          }
        }
        i := i + 1;
      }
      assert childs[..n] == childs;
      childs := [];
      match obj
      case Isolated(owned) =>
        events := events + [ValueReleased];
        r := Exploded(owned.value);
      case Shared(cell) =>
        if cell.strongCount != 1 {
          r := NotLastReference;
        } else if cell.poisoned {
          r := PoisonedValue;
        } else {
          cell.strongCount := 0;
          events := events + [ValueReleased];
          r := Exploded(cell.value);
        }
    }
  }

  /** In the event log of `explode`, every child is dropped before the value is
      released. */
  lemma ChildrenDroppedFirst(n: nat)
    ensures forall i :: 0 <= i < n ==> (DropEvents(n) + [ValueReleased])[i].ChildDropped?
    ensures (DropEvents(n) + [ValueReleased])[n] == ValueReleased
    ensures ValueReleased !in DropEvents(n)
  {
  }
}
