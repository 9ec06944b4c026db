/** How a constructed value is stored (src/constructed.rs): owned outright by its
    scope, or shared behind a reference-counted mutex. The mutex is reduced to its
    poison flag and the reference count; blocking is not modelled. */
module Instances {
  import opened Common

  /** The place an `Isolated` instance keeps its value. */
  class Owned<T> {
    var value: T

    constructor (value: T)
      ensures this.value == value
    {
      this.value := value;
    }
  }

  /** `Arc<Mutex<T>>`: the value behind the mutex, whether a thread panicked while
      holding the lock, and the number of strong references to the allocation. */
  class SharedCell<T> {
    var value: T
    var poisoned: bool
    var strongCount: nat

    constructor (value: T)
      ensures this.value == value && !poisoned && strongCount == 1
    {
      this.value := value;
      poisoned := false;
      strongCount := 1;
    }
  }

  datatype Instance<T> = Isolated(owned: Owned<T>) | Shared(cell: SharedCell<T>)

  /** The heap object that holds the instance's value. */
  function Footprint<T>(inst: Instance<T>): set<object>
  {
    if inst.Isolated? then {inst.owned} else {inst.cell}
  }

  /** The value the instance currently holds. */
  function ValueOf<T>(inst: Instance<T>): T
    reads Footprint(inst)
  {
    if inst.Isolated? then inst.owned.value else inst.cell.value
  }

  /** `MaybeMutexGuard`: either a held mutex guard or a plain mutable borrow. */
  datatype Guard<T> = MutexGuard(cell: SharedCell<T>) | Borrow(owned: Owned<T>)

  function GuardFootprint<T>(g: Guard<T>): set<object>
  {
    if g.Borrow? then {g.owned} else {g.cell}
  }

  /** `Deref for MaybeMutexGuard`: the value the guard gives access to. */
  function Deref<T>(g: Guard<T>): T
    reads GuardFootprint(g)
  {
    if g.Borrow? then g.owned.value else g.cell.value
  }

  /** `DerefMut for MaybeMutexGuard`, used for an assignment through the guard. */
  method AssignThrough<T>(g: Guard<T>, v: T)
    modifies GuardFootprint(g)
    ensures Deref(g) == v
    ensures g.MutexGuard? ==> g.cell.poisoned == old(g.cell.poisoned) && g.cell.strongCount == old(g.cell.strongCount)
  {
    if g.Borrow? {
      g.owned.value := v;
    } else {
      g.cell.value := v;
    }
  }

  /** The guard inside a `LockResult`, whether or not the lock was poisoned. */
  function Guarded<T>(r: Result<Guard<T>, Guard<T>>): Guard<T>
  {
    if r.Ok? then r.value else r.error
  }

  /** `Instance::lock`. An isolated instance is always available; a shared one reports
      a poisoned mutex as an error that still carries a guard to the same value. */
  function Lock<T>(inst: Instance<T>): (r: Result<Guard<T>, Guard<T>>)
    reads Footprint(inst)
    ensures r.Ok? <==> inst.Isolated? || !inst.cell.poisoned
    ensures GuardFootprint(Guarded(r)) == Footprint(inst)
    ensures Deref(Guarded(r)) == ValueOf(inst)
  {
    match inst
    case Isolated(owned) => Ok(Borrow(owned))
    case Shared(cell) =>
      if cell.poisoned then Err(MutexGuard(cell)) else Ok(MutexGuard(cell))
  }

  /** Writing through the guard that `lock` returns changes the instance's value and
      nothing else. */
  method AssignLocked<T>(inst: Instance<T>, v: T)
    modifies Footprint(inst)
    ensures ValueOf(inst) == v
    ensures inst.Shared? ==> inst.cell.poisoned == old(inst.cell.poisoned) && inst.cell.strongCount == old(inst.cell.strongCount)
  {
    var r := Lock(inst);
    AssignThrough(Guarded(r), v);
  }

  /** The name a value's type is known by once it is boxed as `Any`. */
  type TypeTag = string

  /** `AnyInstance`: an instance whose value type is erased. The model keeps the
      payload and records the type it was boxed as. */
  datatype AnyInstance<T> =
    | AnyIsolated(tag: TypeTag, owned: Owned<T>)
    | AnyShared(tag: TypeTag, cell: SharedCell<T>)

  /** `AnyInstance::downcast`: recovers the typed instance, keeping the variant. A
      downcast to a type other than the boxed one is a fatal failure, so it is a
      precondition here. */
  function Downcast<T>(a: AnyInstance<T>, expected: TypeTag): (r: Instance<T>)
    requires a.tag == expected
    ensures r.Isolated? <==> a.AnyIsolated?
    ensures r.Isolated? ==> r.owned == a.owned
    ensures r.Shared? ==> r.cell == a.cell
  {
    match a
    case AnyIsolated(_, owned) => Isolated(owned)
    case AnyShared(_, cell) => Shared(cell)
  }
}
