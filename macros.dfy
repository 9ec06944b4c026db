// The comparison macros of the registry: lexicographic comparison of a struct's
// fields, listed in order, from which `ord_for` derives `PartialOrd`, `PartialEq`,
// `Eq` and `Ord`.  A macro invocation is modelled by the sequence of the results
// its listed field comparisons produce; a struct by the sequence of its fields,
// compared field by field with a comparison given as a parameter.

module Macros {
  import opened Common

  /** `std::cmp::Ordering`. */
  datatype Ordering = Less | Equal | Greater

  /** The ordering seen from the other side. */
  function Reverse(o: Ordering): Ordering
  {
    match o
    case Less => Greater
    case Equal => Equal
    case Greater => Less
  }

  /** `count_exprs!`: one for the head expression plus the count of the tail. */
  function CountExprs<T>(exprs: seq<T>): (n: nat)
    ensures n == |exprs|
  {
    if exprs == [] then 0 else 1 + CountExprs(exprs[1..])
  }

  /** `expr_cmp_many!`: the results of the field comparisons, at least one, in the
      order the fields are listed; a field is looked at only while every earlier
      one compared `Equal`. */
  function CmpMany(fields: seq<Ordering>): (r: Ordering)
    requires fields != []
    ensures r == Equal <==> forall i :: 0 <= i < |fields| ==> fields[i] == Equal
    ensures r != Equal ==>
      exists i :: 0 <= i < |fields| && fields[i] == r && forall j :: 0 <= j < i ==> fields[j] == Equal
  {
    if |fields| == 1 then fields[0]
    else if fields[0] == Equal then
      var r := CmpMany(fields[1..]);
      assert r != Equal ==> exists i :: 1 <= i < |fields| && fields[i] == r && forall j :: 0 <= j < i ==> fields[j] == Equal by {
        if r != Equal {
          var k :| 0 <= k < |fields| - 1 && fields[1..][k] == r && forall j :: 0 <= j < k ==> fields[1..][j] == Equal;
          assert fields[k + 1] == r;
          assert forall j :: 1 <= j < k + 1 ==> fields[j] == fields[1..][j - 1];
        }
      }
      r
    else fields[0]
  }

  /** `expr_partial_cmp_many!`: the first result that is not `Some(Equal)`, or the
      last one; a `None` therefore ends the comparison. */
  function PartialCmpMany(fields: seq<Option<Ordering>>): (r: Option<Ordering>)
    requires fields != []
    ensures r == Some(Equal) <==> forall i :: 0 <= i < |fields| ==> fields[i] == Some(Equal)
    ensures r != Some(Equal) ==>
      exists i :: 0 <= i < |fields| && fields[i] == r && forall j :: 0 <= j < i ==> fields[j] == Some(Equal)
  {
    if |fields| == 1 then fields[0]
    else if fields[0] == Some(Equal) then
      var r := PartialCmpMany(fields[1..]);
      assert r != Some(Equal) ==> exists i :: 1 <= i < |fields| && fields[i] == r && forall j :: 0 <= j < i ==> fields[j] == Some(Equal) by {
        if r != Some(Equal) {
          var k :| 0 <= k < |fields| - 1 && fields[1..][k] == r && forall j :: 0 <= j < k ==> fields[1..][j] == Some(Equal);
          assert fields[k + 1] == r;
          assert forall j :: 1 <= j < k + 1 ==> fields[j] == fields[1..][j - 1];
        }
      }
      r
    else fields[0]
  }

  /** A field that cannot be compared, reached while every earlier field compared
      equal, makes the whole partial comparison `None`. */
  lemma {:induction false} PartialNoneShortCircuits(fields: seq<Option<Ordering>>, k: nat)
    requires k < |fields| && fields[k].None?
    requires forall j :: 0 <= j < k ==> fields[j] == Some(Equal)
    ensures PartialCmpMany(fields) == None
  {
    if k > 0 {
      assert forall j :: 0 <= j < k - 1 ==> fields[1..][j] == fields[j + 1];
      PartialNoneShortCircuits(fields[1..], k - 1);
    }
  }

  /** `expr_eq_many!`: the conjunction of the field equalities. */
  function EqMany(fields: seq<bool>): (r: bool)
    requires fields != []
    ensures r <==> forall i :: 0 <= i < |fields| ==> fields[i]
  {
    if |fields| == 1 then fields[0]
    else
      var rest := EqMany(fields[1..]);
      assert rest <==> forall i :: 1 <= i < |fields| ==> fields[i] by {
        assert forall i :: 1 <= i < |fields| ==> fields[i] == fields[1..][i - 1];
      }
      fields[0] && rest
  }

  // ---------------------------------------------------------------------------
  // `ord_for!`: a struct is the sequence of its listed fields

  /** Compares two structs field by field with the fields' own comparison. */
  function Pairwise<F, R>(a: seq<F>, b: seq<F>, compare: (F, F) -> R): (r: seq<R>)
    requires |a| == |b|
    ensures |r| == |a|
    ensures forall i :: 0 <= i < |a| ==> r[i] == compare(a[i], b[i])
  {
    if a == [] then [] else [compare(a[0], b[0])] + Pairwise(a[1..], b[1..], compare)
  }

  /** The derived `Ord::cmp`. */
  function OrdCmp<F>(a: seq<F>, b: seq<F>, cmp: (F, F) -> Ordering): Ordering
    requires |a| == |b| > 0
  {
    CmpMany(Pairwise(a, b, cmp))
  }

  /** The derived `PartialOrd::partial_cmp`. */
  function OrdPartialCmp<F>(a: seq<F>, b: seq<F>, partialCmp: (F, F) -> Option<Ordering>): Option<Ordering>
    requires |a| == |b| > 0
  {
    PartialCmpMany(Pairwise(a, b, partialCmp))
  }

  /** The derived `PartialEq::eq`. */
  function OrdEq<F>(a: seq<F>, b: seq<F>, eq: (F, F) -> bool): bool
    requires |a| == |b| > 0
  {
    EqMany(Pairwise(a, b, eq))
  }

  /** Two structs are equal exactly when every listed field is equal. */
  lemma OrdEqIffFieldsEqual<F>(a: seq<F>, b: seq<F>, eq: (F, F) -> bool)
    requires |a| == |b| > 0
    ensures OrdEq(a, b, eq) <==> forall i :: 0 <= i < |a| ==> eq(a[i], b[i])
  {
    var fields := Pairwise(a, b, eq);
    assert forall i :: 0 <= i < |a| ==> fields[i] == eq(a[i], b[i]);
  }

  /** With the fields' own `==`, the derived equality is the structs' equality. */
  lemma OrdEqIsEquality<F>(a: seq<F>, b: seq<F>)
    requires |a| == |b| > 0
    ensures OrdEq(a, b, (x: F, y: F) => x == y) <==> a == b
  {
    OrdEqIffFieldsEqual(a, b, (x: F, y: F) => x == y);
  }

  /** `cmp` is `Equal` exactly when `eq` holds, provided each field's comparison
      agrees with its equality. */
  lemma OrdCmpAgreesWithEq<F>(a: seq<F>, b: seq<F>, cmp: (F, F) -> Ordering, eq: (F, F) -> bool)
    requires |a| == |b| > 0
    requires forall x, y :: cmp(x, y) == Equal <==> eq(x, y)
    ensures OrdCmp(a, b, cmp) == Equal <==> OrdEq(a, b, eq)
  {
    OrdEqIffFieldsEqual(a, b, eq);
    var fields := Pairwise(a, b, cmp);
    assert forall i :: 0 <= i < |a| ==> fields[i] == cmp(a[i], b[i]);
  }

  /** `partial_cmp` is `Some(cmp)` when each field's partial comparison is. */
  lemma {:induction false} OrdPartialAgreesWithCmp<F>(a: seq<F>, b: seq<F>, cmp: (F, F) -> Ordering,
                                                     partialCmp: (F, F) -> Option<Ordering>)
    requires |a| == |b| > 0
    requires forall x, y :: partialCmp(x, y) == Some(cmp(x, y))
    ensures OrdPartialCmp(a, b, partialCmp) == Some(OrdCmp(a, b, cmp))
  {
    if |a| > 1 {
      OrdPartialAgreesWithCmp(a[1..], b[1..], cmp, partialCmp);
      PairwiseTail(a, b, cmp);
      PairwiseTail(a, b, partialCmp);
    }
  }

  /** Swapping the structs reverses the comparison, provided it does so field by field. */
  lemma {:induction false} OrdCmpAntisymmetric<F>(a: seq<F>, b: seq<F>, cmp: (F, F) -> Ordering)
    requires |a| == |b| > 0
    requires forall x, y :: cmp(y, x) == Reverse(cmp(x, y))
    ensures OrdCmp(b, a, cmp) == Reverse(OrdCmp(a, b, cmp))
  {
    if |a| > 1 {
      OrdCmpAntisymmetric(a[1..], b[1..], cmp);
      PairwiseTail(a, b, cmp);
      PairwiseTail(b, a, cmp);
    }
  }

  /** The derived order is transitive when each field's order is transitive and
      compares `Equal` only on equal values. */
  lemma {:induction false} OrdCmpTransitive<F>(a: seq<F>, b: seq<F>, c: seq<F>, cmp: (F, F) -> Ordering)
    requires |a| == |b| == |c| > 0
    requires forall x, y :: cmp(x, y) == Equal <==> x == y
    requires forall x, y, z :: cmp(x, y) == Less && cmp(y, z) == Less ==> cmp(x, z) == Less
    requires OrdCmp(a, b, cmp) == Less && OrdCmp(b, c, cmp) == Less
    ensures OrdCmp(a, c, cmp) == Less
  {
    if |a| > 1 {
      PairwiseTail(a, b, cmp);
      PairwiseTail(b, c, cmp);
      PairwiseTail(a, c, cmp);
      if cmp(a[0], b[0]) == Equal && cmp(b[0], c[0]) == Equal {
        OrdCmpTransitive(a[1..], b[1..], c[1..], cmp);
      }
    }
  }

  /** The field comparisons of two structs: the first field's, then the rest's. */
  lemma PairwiseTail<F, R>(a: seq<F>, b: seq<F>, compare: (F, F) -> R)
    requires |a| == |b| > 1
    ensures Pairwise(a, b, compare)[0] == compare(a[0], b[0])
    ensures Pairwise(a, b, compare)[1..] == Pairwise(a[1..], b[1..], compare)
  {
  }
}
