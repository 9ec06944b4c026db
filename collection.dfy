/** `Collection<T>` (src/collection.rs): an append-only list whose views all yield
    the items in insertion order. */
module Collections {

  class Collection<T> {
    var items: seq<T>

    /** `Collection::new`. */
    constructor ()
      ensures items == []
    {
      items := [];
    }

    /** `Collection::push`: the item goes to the end and earlier items stay. */
    method Push(item: T)
      modifies this
      ensures items == old(items) + [item]
      ensures |items| == |old(items)| + 1 && items[..|old(items)|] == old(items)
    {
      items := items + [item];
    }

    /** `iter`, `as_ref`, both `into_iter`s and the conversion into `Vec`: the stored
        items, in insertion order. */
    function AsSlice(): (r: seq<T>)
      reads this
      ensures |r| == |items| && forall i :: 0 <= i < |r| ==> r[i] == items[i]
    {
      items
    }
  }
}
