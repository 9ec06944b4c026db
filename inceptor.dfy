/** The bridge between two parent types: two slot tables of live shared instances,
    a high-water counter per table, and the bridging function that is run for every
    new (left, right) pair. Slots hold opaque shared handles (`Arc<Mutex<T>>`);
    children produced by the bridging function are opaque values. */
module Inceptors {
  import opened Common

  // ---------------------------------------------------------------------------
  // Slot tables, as values

  /** Number of occupied slots. */
  function CountOccupied<H>(s: seq<Option<H>>): (n: nat)
    ensures n <= |s|
  {
    if s == [] then 0
    else CountOccupied(s[..|s| - 1]) + (if s[|s| - 1].Some? then 1 else 0)
  }

  /** The invariant every table of an `Inceptor` keeps: its length is its
      high-water counter, and the last slot is occupied whenever there is one. */
  ghost predicate TableValid<H>(s: seq<Option<H>>, usedSize: nat)
  {
    usedSize == |s| && (|s| > 0 ==> s[|s| - 1].Some?)
  }

  /** The index an insertion uses: the lowest empty slot, or the table length. */
  function FirstEmpty<H>(s: seq<Option<H>>): (i: nat)
    ensures i <= |s|
    ensures forall j :: 0 <= j < i ==> s[j].Some?
    ensures i < |s| ==> s[i].None?
  {
    if s == [] then 0
    else if s[0].None? then 0
    else 1 + FirstEmpty(s[1..])
  }

  /** The table after inserting `v`. */
  function InsertSlot<H>(s: seq<Option<H>>, v: H): seq<Option<H>>
  {
    var i := FirstEmpty(s);
    if i < |s| then s[i := Some(v)] else s + [Some(v)]
  }

  /** Drops empty slots from the end of a table. */
  function DropEmptyTail<H>(s: seq<Option<H>>): (r: seq<Option<H>>)
    ensures |r| <= |s| && r == s[..|r|]
    ensures |r| > 0 ==> r[|r| - 1].Some?
    ensures forall j :: |r| <= j < |s| ==> s[j].None?
  {
    if s == [] || s[|s| - 1].Some? then s
    else DropEmptyTail(s[..|s| - 1])
  }

  /** The table after destroying slot `id`: the slot is emptied and, when it was the
      last one, the table shrinks to one past the highest slot still occupied. */
  function ClearSlot<H>(s: seq<Option<H>>, id: nat): seq<Option<H>>
    requires id < |s|
  {
    if id + 1 == |s| then DropEmptyTail(s[..id]) else s[id := None]
  }

  // ---------------------------------------------------------------------------
  // Properties of the table operations

  lemma {:induction false} CountOccupiedAppend<H>(s: seq<Option<H>>, x: Option<H>)
    ensures CountOccupied(s + [x]) == CountOccupied(s) + (if x.Some? then 1 else 0)
  {
    assert (s + [x])[..|s|] == s;
  }

  lemma {:induction false} CountOccupiedUpdate<H>(s: seq<Option<H>>, i: nat, x: Option<H>)
    requires i < |s|
    ensures CountOccupied(s[i := x]) + (if s[i].Some? then 1 else 0)
         == CountOccupied(s) + (if x.Some? then 1 else 0)
    decreases |s|
  {
    var last := |s| - 1;
    if i == last {
      assert s[i := x][..last] == s[..last];
    } else {
      assert s[i := x][..last] == s[..last][i := x];
      CountOccupiedUpdate(s[..last], i, x);
    }
  }

  lemma {:induction false} CountOccupiedDropEmptyTail<H>(s: seq<Option<H>>)
    ensures CountOccupied(DropEmptyTail(s)) == CountOccupied(s)
    decreases |s|
  {
    if s != [] && s[|s| - 1].None? {
      CountOccupiedDropEmptyTail(s[..|s| - 1]);
    }
  }

  /** Inserting stores `v` at the lowest empty slot (or appends) and changes no
      other slot; the table stays valid and gains one occupant. */
  lemma InsertSlotProperties<H>(s: seq<Option<H>>, v: H)
    requires TableValid(s, |s|)
    ensures var r := InsertSlot(s, v); var i := FirstEmpty(s);
      && TableValid(r, if i + 1 > |s| then i + 1 else |s|)
      && i < |r| && r[i] == Some(v)
      && (forall j :: 0 <= j < |s| && j != i ==> r[j] == s[j])
      && CountOccupied(r) == CountOccupied(s) + 1
  {
    var i := FirstEmpty(s);
    if i < |s| {
      CountOccupiedUpdate(s, i, Some(v));
    } else {
      CountOccupiedAppend(s, Some(v));
    }
  }

  /** Destroying an occupied slot lowers the number of occupants by exactly one and
      keeps the table valid; slots other than `id` that remain keep their contents. */
  lemma ClearSlotProperties<H>(s: seq<Option<H>>, id: nat)
    requires TableValid(s, |s|) && id < |s|
    ensures var r := ClearSlot(s, id);
      && TableValid(r, |r|)
      && CountOccupied(r) == CountOccupied(s) - (if s[id].Some? then 1 else 0)
      && (forall j :: 0 <= j < |r| && j != id ==> r[j] == s[j])
      && (id + 1 != |s| ==> |r| == |s| && r[id].None?)
      && (id + 1 == |s| ==> |r| <= id && (forall j :: |r| <= j < id ==> s[j].None?))
  {
    CountOccupiedUpdate(s, id, None);
    if id + 1 == |s| {
      var t := s[id := None];
      assert t[..id] == s[..id];
      assert t == s[..id] + [None];
      CountOccupiedAppend(s[..id], None);
      CountOccupiedDropEmptyTail(s[..id]);
    }
  }

  /** A table whose prefix of length `u` ends in an occupied slot (or is empty) and
      whose remaining slots are all empty drops exactly to that prefix. */
  lemma {:induction false} DropEmptyTailIsPrefix<H>(s: seq<Option<H>>, u: nat)
    requires u <= |s|
    requires u == 0 || s[u - 1].Some?
    requires forall j :: u <= j < |s| ==> s[j].None?
    ensures DropEmptyTail(s) == s[..u]
    decreases |s|
  {
    if |s| > u {
      DropEmptyTailIsPrefix(s[..|s| - 1], u);
      assert s[..|s| - 1][..u] == s[..u];
    }
  }

  // ---------------------------------------------------------------------------
  // The bridging sweep

  /** Runs `g(a, _)` over the occupied slots in ascending slot order, keeping the
      `Some` results; the first error aborts the sweep. Defined on prefixes, in the
      order the loop of `incept_1`/`incept_2` runs. */
  function Sweep<A, H, C, E>(g: (A, H) -> Result<Option<C>, E>, a: A, slots: seq<Option<H>>): Result<seq<C>, E>
  {
    if slots == [] then Ok([])
    else
      var last := slots[|slots| - 1];
      match Sweep(g, a, slots[..|slots| - 1])
      case Err(e) => Err(e)
      case Ok(rs) =>
        if last.None? then Ok(rs)
        else match g(a, last.value)
          case Err(e) => Err(e)
          case Ok(None) => Ok(rs)
          case Ok(Some(c)) => Ok(rs + [c])
  }

  /** Reference definition: call `g(a, _)` on each live instance from first to last;
      the first error wins, otherwise the `Some` results in order. */
  function SweepValues<A, H, C, E>(g: (A, H) -> Result<Option<C>, E>, a: A, xs: seq<H>): Result<seq<C>, E>
  {
    if xs == [] then Ok([])
    else match g(a, xs[0])
      case Err(e) => Err(e)
      case Ok(o) =>
        match SweepValues(g, a, xs[1..])
        case Err(e) => Err(e)
        case Ok(rs) => Ok((if o.Some? then [o.value] else []) + rs)
  }

  /** One more live instance at the end of the list: one more call, after the others. */
  lemma {:induction false} SweepValuesSnoc<A, H, C, E>(g: (A, H) -> Result<Option<C>, E>, a: A, xs: seq<H>, x: H)
    ensures SweepValues(g, a, xs + [x]) ==
      match SweepValues(g, a, xs)
      case Err(e) => Err(e)
      case Ok(rs) =>
        match g(a, x)
        case Err(e) => Err(e)
        case Ok(None) => Ok(rs)
        case Ok(Some(c)) => Ok(rs + [c])
  {
    if xs == [] {
      assert xs + [x] == [x] && [x][1..] == [];
      assert SweepValues(g, a, []) == Ok([]);
      match g(a, x)
      case Err(e) =>
      case Ok(None) =>
        var empty: seq<C> := [];
        assert SweepValues(g, a, [x]) == Ok(empty + empty);
        assert empty + empty == empty;
      case Ok(Some(c)) => assert [c] + [] == [] + [c];
    } else {
      assert (xs + [x])[0] == xs[0];
      assert (xs + [x])[1..] == xs[1..] + [x];
      SweepValuesSnoc(g, a, xs[1..], x);
      match g(a, xs[0])
      case Err(e) =>
      case Ok(o) =>
        var head := if o.Some? then [o.value] else [];
        match SweepValues(g, a, xs[1..])
        case Err(e) =>
        case Ok(rs) =>
          match g(a, x)
          case Err(e) =>
          case Ok(None) =>
          case Ok(Some(c)) => assert head + (rs + [c]) == (head + rs) + [c];
    }
  }

  /** The sweep visits exactly the occupants, in slot order: it is the reference
      definition applied to the live instances. */
  lemma {:induction false} SweepIsSweepValues<A, H, C, E>(g: (A, H) -> Result<Option<C>, E>, a: A, slots: seq<Option<H>>)
    ensures Sweep(g, a, slots) == SweepValues(g, a, Somes(slots))
    decreases |slots|
  {
    if slots != [] {
      var init := slots[..|slots| - 1];
      SweepIsSweepValues(g, a, init);
      if slots[|slots| - 1].Some? {
        SweepValuesSnoc(g, a, Somes(init), slots[|slots| - 1].value);
      }
    }
  }

  /** Once a prefix of the sweep fails, every longer prefix fails with the same error. */
  lemma {:induction false} SweepErrorSticks<A, H, C, E>(g: (A, H) -> Result<Option<C>, E>, a: A, slots: seq<Option<H>>, k: nat)
    requires k <= |slots|
    requires Sweep(g, a, slots[..k]).Err?
    ensures Sweep(g, a, slots) == Sweep(g, a, slots[..k])
    decreases |slots| - k
  {
    if k < |slots| {
      assert slots[..k + 1][..k] == slots[..k];
      SweepErrorSticks(g, a, slots, k + 1);
    } else {
      assert slots[..k] == slots;
    }
  }

  /** With a bridging function that always returns a child, the sweep yields one
      child per occupied slot. */
  lemma {:induction false} SweepAlwaysSome<A, H, C, E>(g: (A, H) -> Result<Option<C>, E>, a: A, slots: seq<Option<H>>)
    requires forall h :: g(a, h).Ok? && g(a, h).value.Some?
    ensures Sweep(g, a, slots).Ok? && |Sweep(g, a, slots).value| == CountOccupied(slots)
    decreases |slots|
  {
    if slots != [] {
      SweepAlwaysSome(g, a, slots[..|slots| - 1]);
    }
  }

  /** The bridging function with its arguments swapped, as `incept_2` sees it. */
  function Flip<H1, H2, R>(f: (H1, H2) -> R): (H2, H1) -> R
  {
    (y, x) => f(x, y)
  }

  /** `new_with_ignored_return_val`: the bridging function's value is discarded. */
  function IgnoringResult<H1, H2, V, C, E>(f: (H1, H2) -> Result<V, E>): (H1, H2) -> Result<Option<C>, E>
  {
    (x, y) => if f(x, y).Ok? then Ok(None) else Err(f(x, y).error)
  }

  /** `new_with_return_val`: every value of the bridging function becomes a child. */
  function KeepingResult<H1, H2, C, E>(f: (H1, H2) -> Result<C, E>): (H1, H2) -> Result<Option<C>, E>
  {
    (x, y) => if f(x, y).Ok? then Ok(Some(f(x, y).value)) else Err(f(x, y).error)
  }

  /** A bridge built by `new_with_ignored_return_val` never yields a child: the sweep
      either fails or returns no children. */
  lemma {:induction false} IgnoringResultYieldsNothing<H1, H2, V, C, E>(f: (H1, H2) -> Result<V, E>, x: H1, slots: seq<Option<H2>>)
    ensures var r := Sweep(IgnoringResult<H1, H2, V, C, E>(f), x, slots); r.Ok? ==> r.value == []
    decreases |slots|
  {
    if slots != [] {
      IgnoringResultYieldsNothing<H1, H2, V, C, E>(f, x, slots[..|slots| - 1]);
    }
  }

  /** A bridge built by `new_with_return_val` from a function that never fails yields
      one child per live instance on the other side. */
  lemma KeepingResultYieldsOnePerSlot<H1, H2, C, E>(f: (H1, H2) -> Result<C, E>, x: H1, slots: seq<Option<H2>>)
    requires forall y :: f(x, y).Ok?
    ensures Sweep(KeepingResult(f), x, slots).Ok?
    ensures |Sweep(KeepingResult(f), x, slots).value| == CountOccupied(slots)
  {
    SweepAlwaysSome(KeepingResult(f), x, slots);
  }

  // The two free functions that work on one table

  /** `insert_into_vec`: reuse the lowest empty slot or append, and raise the
      high-water counter to cover the slot used. */
  method InsertIntoVec<H>(data: seq<Option<H>>, value: H, usedSize: nat)
    returns (data': seq<Option<H>>, usedSize': nat, index: nat)
    ensures index <= |data|
    ensures forall j :: 0 <= j < index ==> data[j].Some?
    ensures index < |data| ==> data[index].None? && data' == data[index := Some(value)]
    ensures index == |data| ==> data' == data + [Some(value)]
    ensures usedSize' == (if index + 1 > usedSize then index + 1 else usedSize)
  {
    for i := 0 to |data|
      invariant forall j :: 0 <= j < i ==> data[j].Some?
    {
      if data[i].None? {
        data' := data[i := Some(value)];
        usedSize' := if i + 1 > usedSize then i + 1 else usedSize;
        index := i;
        return;
      }
    }
    index := |data|;
    data' := data + [Some(value)];
    usedSize' := if |data'| > usedSize then |data'| else usedSize;
  }

  /** `truncate_to_used_elements_if_removed_id_is_last`: when the removed slot was
      the last one in use, walk the counter down past the empty slots below it and
      cut the table to the new counter. */
  method TruncateIfRemovedIsLast<H>(data: seq<Option<H>>, removedId: nat, usedSize: nat)
    returns (data': seq<Option<H>>, usedSize': nat)
    requires usedSize <= |data|
    ensures removedId + 1 != usedSize ==> data' == data && usedSize' == usedSize
    ensures removedId + 1 == usedSize ==>
      && usedSize' < usedSize
      && data' == data[..usedSize']
      && (usedSize' == 0 || data[usedSize' - 1].Some?)
      && (forall j :: usedSize' <= j < usedSize - 1 ==> data[j].None?)
  {
    if removedId + 1 != usedSize {
      return data, usedSize;
    }
    var u := usedSize;
    while u > 0
      invariant u <= usedSize
      invariant u < usedSize ==> u > 0 && forall j :: u - 1 <= j < usedSize - 1 ==> data[j].None?
      decreases u
    {
      u := u - 1;
      if u == 0 || data[u - 1].Some? {
        break;
      }
    }
    usedSize' := u;
    data' := data[..u];
  }

  // ---------------------------------------------------------------------------
  // The bridge object

  class Inceptor<H1, H2, C, E> {
    var d1: seq<Option<H1>>
    var d2: seq<Option<H2>>
    var usedSize1: nat
    var usedSize2: nat
    const bridge: (H1, H2) -> Result<Option<C>, E>

    ghost predicate Valid()
      reads this
    {
      TableValid(d1, usedSize1) && TableValid(d2, usedSize2)
    }

    /** `Inceptor::new`: both tables empty. */
    constructor (bridge: (H1, H2) -> Result<Option<C>, E>)
      ensures Valid()
      ensures d1 == [] && d2 == [] && usedSize1 == 0 && usedSize2 == 0
      ensures this.bridge == bridge
    {
      d1, d2 := [], [];
      usedSize1, usedSize2 := 0, 0;
      this.bridge := bridge;
    }

    /** `invoke`: run the bridging function on the instances in slots `i1` and `i2`;
      both slots must be occupied (the source treats anything else as unreachable). */
    method Invoke(i1: nat, i2: nat) returns (r: Result<Option<C>, E>)
      requires i1 < |d1| && d1[i1].Some?
      requires i2 < |d2| && d2[i2].Some?
      ensures r == bridge(d1[i1].value, d2[i2].value)
    {
      r := bridge(d1[i1].value, d2[i2].value);
    }

    /** The pairing pass of `incept_1`: run the bridging function on the left
      instance in slot `id` and every occupied right slot, in ascending order. */
    method PairLeft(id: nat) returns (r: Result<seq<C>, E>)
      requires id < |d1| && d1[id].Some?
      ensures r == Sweep(bridge, d1[id].value, d2)
    {
      var results := [];
      for i2 := 0 to |d2|
        invariant Sweep(bridge, d1[id].value, d2[..i2]) == Ok(results)
      {
        assert d2[..i2 + 1][..i2] == d2[..i2];
        if d2[i2].Some? {
          var res := Invoke(id, i2);
          if res.Err? {
            r := Err(res.error);
            SweepErrorSticks(bridge, d1[id].value, d2, i2 + 1);
            return;
          }
          if res.value.Some? {
            results := results + [res.value.value];
          }
        }
      }
      assert d2[..|d2|] == d2;
      r := Ok(results);
    }

    /** The pairing pass of `incept_2`: every occupied left slot, in ascending order,
      with the right instance in slot `id`. */
    method PairRight(id: nat) returns (r: Result<seq<C>, E>)
      requires id < |d2| && d2[id].Some?
      ensures r == Sweep(Flip(bridge), d2[id].value, d1)
    {
      var results := [];
      for i1 := 0 to |d1|
        invariant Sweep(Flip(bridge), d2[id].value, d1[..i1]) == Ok(results)
      {
        assert d1[..i1 + 1][..i1] == d1[..i1];
        if d1[i1].Some? {
          var res := Invoke(i1, id);
          assert res == Flip(bridge)(d2[id].value, d1[i1].value);
          if res.Err? {
            r := Err(res.error);
            SweepErrorSticks(Flip(bridge), d2[id].value, d1, i1 + 1);
            return;
          }
          if res.value.Some? {
            results := results + [res.value.value];
          }
        }
      }
      assert d1[..|d1|] == d1;
      r := Ok(results);
    }

    /** `incept_1`: store a new left instance, then pair it with every occupied
      right slot in ascending order. An error from the bridging function aborts the
      pairing, but the new instance stays in its slot. */
    method Incept1(parent: H1) returns (r: Result<(nat, seq<C>), E>)
      requires Valid()
      modifies this
      ensures Valid()
      ensures d1 == InsertSlot(old(d1), parent) && d2 == old(d2)
      ensures match Sweep(bridge, parent, old(d2))
        case Ok(rs) => r == Ok((FirstEmpty(old(d1)), rs))
        case Err(e) => r == Err(e)
    {
      var id;
      InsertSlotProperties(d1, parent);
      d1, usedSize1, id := InsertIntoVec(d1, parent, usedSize1);
      var paired := PairLeft(id);
      r := if paired.Ok? then Ok((id, paired.value)) else Err(paired.error);
    }

    /** `incept_2`: the mirror image of `incept_1`. */
    method Incept2(parent: H2) returns (r: Result<(nat, seq<C>), E>)
      requires Valid()
      modifies this
      ensures Valid()
      ensures d2 == InsertSlot(old(d2), parent) && d1 == old(d1)
      ensures match Sweep(Flip(bridge), parent, old(d1))
        case Ok(rs) => r == Ok((FirstEmpty(old(d2)), rs))
        case Err(e) => r == Err(e)
    {
      var id;
      InsertSlotProperties(d2, parent);
      d2, usedSize2, id := InsertIntoVec(d2, parent, usedSize2);
      var paired := PairRight(id);
      r := if paired.Ok? then Ok((id, paired.value)) else Err(paired.error);
    }

    /** `destroy_1`: empty slot `id` of the left table (an id past the end is fatal)
      and shrink the table when that slot was the last one in use. */
    method Destroy1(id: nat)
      requires Valid() && id < |d1|
      modifies this
      ensures Valid()
      ensures d1 == ClearSlot(old(d1), id) && d2 == old(d2) && usedSize2 == old(usedSize2)
    {
      ghost var s := d1;
      d1 := d1[id := None];
      d1, usedSize1 := TruncateIfRemovedIsLast(d1, id, usedSize1);
      if id + 1 == |s| {
        assert s[id := None][..id] == s[..id];
        DropEmptyTailIsPrefix(s[..id], usedSize1);
      }
      ClearSlotProperties(s, id);
    }

    /** `destroy_2`: the mirror image of `destroy_1`. */
    method Destroy2(id: nat)
      requires Valid() && id < |d2|
      modifies this
      ensures Valid()
      ensures d2 == ClearSlot(old(d2), id) && d1 == old(d1) && usedSize1 == old(usedSize1)
    {
      ghost var s := d2;
      d2 := d2[id := None];
      d2, usedSize2 := TruncateIfRemovedIsLast(d2, id, usedSize2);
      if id + 1 == |s| {
        assert s[id := None][..id] == s[..id];
        DropEmptyTailIsPrefix(s[..id], usedSize2);
      }
      ClearSlotProperties(s, id);
    }
  }

  /** The guard that removes a slot when the child holding it is dropped: side 1
      destroys a left slot, side 2 a right slot, and any other side does nothing. */
  class Destructor<H1, H2, C, E> {
    const inceptor: Inceptor<H1, H2, C, E>
    const index: nat
    const id: nat

    constructor (inceptor: Inceptor<H1, H2, C, E>, index: nat, id: nat)
      ensures this.inceptor == inceptor && this.index == index && this.id == id
    {
      this.inceptor := inceptor;
      this.index := index;
      this.id := id;
    }

    method Drop()
      requires inceptor.Valid()
      requires index == 1 ==> id < |inceptor.d1|
      requires index == 2 ==> id < |inceptor.d2|
      modifies inceptor
      ensures inceptor.Valid()
      ensures index == 1 ==> inceptor.d1 == ClearSlot(old(inceptor.d1), id) && inceptor.d2 == old(inceptor.d2)
      ensures index == 2 ==> inceptor.d2 == ClearSlot(old(inceptor.d2), id) && inceptor.d1 == old(inceptor.d1)
      ensures index != 1 && index != 2 ==> inceptor.d1 == old(inceptor.d1) && inceptor.d2 == old(inceptor.d2)
    {
      if index == 1 {
        inceptor.Destroy1(id);
      } else if index == 2 {
        inceptor.Destroy2(id);
      }
    }
  }
}
