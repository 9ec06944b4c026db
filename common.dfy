/** Small shared vocabulary: optional values, results, and the ordering Rust's
    `BTreeMap<String, _>` / `BTreeSet<String>` iterate in. */
module Common {

  datatype Option<+T> = None | Some(value: T)

  datatype Result<+T, +E> = Ok(value: T) | Err(error: E)

  /** Strict lexicographic order on strings, code point by code point — the order
      of Rust's `Ord for String` (byte order of UTF-8 agrees with code point order). */
  predicate StrLess(a: string, b: string)
  {
    if a == [] then b != []
    else if b == [] then false
    else a[0] < b[0] || (a[0] == b[0] && StrLess(a[1..], b[1..]))
  }

  lemma {:induction false} StrLessIrreflexive(a: string)
    ensures !StrLess(a, a)
  {
    if a != [] {
      StrLessIrreflexive(a[1..]);
    }
  }

  lemma {:induction false} StrLessTransitive(a: string, b: string, c: string)
    requires StrLess(a, b) && StrLess(b, c)
    ensures StrLess(a, c)
  {
    if a != [] && b != [] && c != [] && a[0] == b[0] && b[0] == c[0] {
      StrLessTransitive(a[1..], b[1..], c[1..]);
    }
  }

  lemma {:induction false} StrLessTotal(a: string, b: string)
    requires a != b
    ensures StrLess(a, b) || StrLess(b, a)
  {
    if a != [] && b != [] && a[0] == b[0] {
      assert a == [a[0]] + a[1..] && b == [b[0]] + b[1..];
      StrLessTotal(a[1..], b[1..]);
    }
  }

  lemma StrLessAsymmetric(a: string, b: string)
    requires StrLess(a, b)
    ensures !StrLess(b, a)
  {
    if StrLess(b, a) {
      StrLessTransitive(a, b, a);
      StrLessIrreflexive(a);
    }
  }

  /** Strictly ascending: the iteration order of a `BTreeSet<String>` or of the keys of
      a `BTreeMap<String, _>`. */
  ghost predicate StrictlySorted(s: seq<string>)
  {
    forall i, j :: 0 <= i < j < |s| ==> StrLess(s[i], s[j])
  }

  predicate IsLeast(m: string, s: set<string>)
  {
    m in s && forall y :: y in s && y != m ==> StrLess(m, y)
  }

  lemma {:induction false} LeastExists(s: set<string>)
    requires s != {}
    ensures exists m :: IsLeast(m, s)
    decreases |s|
  {
    var x :| x in s;
    if s == {x} {
      assert IsLeast(x, s);
    } else {
      LeastExists(s - {x});
      var m :| IsLeast(m, s - {x});
      if StrLess(m, x) {
        assert IsLeast(m, s);
      } else {
        StrLessTotal(m, x);
        forall y | y in s && y != x
          ensures StrLess(x, y)
        {
          if y != m {
            StrLessTransitive(x, m, y);
          }
        }
        assert IsLeast(x, s);
      }
    }
  }

  lemma LeastUnique(m1: string, m2: string, s: set<string>)
    requires IsLeast(m1, s) && IsLeast(m2, s)
    ensures m1 == m2
  {
    if m1 != m2 {
      StrLessAsymmetric(m1, m2);
    }
  }

  /** The elements of a finite set of strings in ascending order. */
  ghost function SortedKeys(s: set<string>): (r: seq<string>)
    ensures |r| == |s|
    decreases |s|
  {
    if s == {} then []
    else
      LeastExists(s);
      var m :| IsLeast(m, s);
      [m] + SortedKeys(s - {m})
  }

  /** Ascending iteration visits exactly the elements of the set. */
  lemma {:induction false} SortedKeysMembers(s: set<string>)
    ensures forall x :: x in s <==> x in SortedKeys(s)
    decreases |s|
  {
    if s != {} {
      LeastExists(s);
      var m :| IsLeast(m, s);
      SortedKeysUnfold(s, m);
      SortedKeysMembers(s - {m});
    }
  }

  lemma {:induction false} SortedKeysSorted(s: set<string>)
    ensures StrictlySorted(SortedKeys(s))
    decreases |s|
  {
    if s != {} {
      LeastExists(s);
      var m :| IsLeast(m, s);
      SortedKeysUnfold(s, m);
      SortedKeysSorted(s - {m});
      var rest := SortedKeys(s - {m});
      SortedKeysMembers(s - {m});
      ConsSorted(m, rest);
    }
  }

  /** An element below everything in a sorted sequence can go in front of it. */
  lemma ConsSorted(m: string, rest: seq<string>)
    requires StrictlySorted(rest)
    requires forall x :: x in rest ==> StrLess(m, x)
    ensures StrictlySorted([m] + rest)
  {
    var r := [m] + rest;
    forall i, j | 0 <= i < j < |r|
      ensures StrLess(r[i], r[j])
    {
      if i == 0 {
        assert r[j] == rest[j - 1];
      } else {
        assert r[i] == rest[i - 1] && r[j] == rest[j - 1];
      }
    }
  }

  /** `SortedKeys` begins with the least element and continues with the rest. */
  lemma SortedKeysUnfold(s: set<string>, m: string)
    requires IsLeast(m, s)
    ensures SortedKeys(s) == [m] + SortedKeys(s - {m})
  {
    var m' :| IsLeast(m', s) && SortedKeys(s) == [m'] + SortedKeys(s - {m'});
    LeastUnique(m, m', s);
  }

  /** Takes the least element out of a non-empty set: one step of an ascending
      `BTreeMap`/`BTreeSet` iteration. */
  method PopLeast(s: set<string>) returns (m: string, rest: set<string>)
    requires s != {}
    ensures m in s && rest == s - {m}
    ensures SortedKeys(s) == [m] + SortedKeys(rest)
  {
    LeastExists(s);
    m :| IsLeast(m, s);
    rest := s - {m};
    SortedKeysUnfold(s, m);
  }

  /** The elements of a `BTreeSet<String>` in iteration order. */
  method SortedElements(s: set<string>) returns (r: seq<string>)
    ensures r == SortedKeys(s)
  {
    r := [];
    var rest := s;
    while rest != {}
      invariant SortedKeys(s) == r + SortedKeys(rest)
      decreases |rest|
    {
      var m, rest' := PopLeast(rest);
      AppendAssoc(r, [m], SortedKeys(rest'));
      r := r + [m];
      rest := rest';
    }
  }

  lemma AppendAssoc<T>(a: seq<T>, b: seq<T>, c: seq<T>)
    ensures a + (b + c) == (a + b) + c
  {
  }

  /** The values of the `Some` entries of a sequence, in order (Rust's `filter_map`
      with the identity, or `flatten` over options). */
  function Somes<T>(s: seq<Option<T>>): (r: seq<T>)
    ensures |r| <= |s|
  {
    if s == [] then []
    else if s[|s| - 1].Some? then Somes(s[..|s| - 1]) + [s[|s| - 1].value]
    else Somes(s[..|s| - 1])
  }

  /** An element survives `Somes` exactly when it was wrapped in some `Some`. */
  lemma {:induction false} SomesMembers<T>(s: seq<Option<T>>, x: T)
    ensures x in Somes(s) <==> Some(x) in s
  {
    if s != [] {
      SomesMembers(s[..|s| - 1], x);
      assert s == s[..|s| - 1] + [s[|s| - 1]];
    }
  }

  /** With no `None` in the sequence, `Somes` drops nothing. */
  lemma {:induction false} SomesAllSome<T>(s: seq<Option<T>>)
    requires forall i :: 0 <= i < |s| ==> s[i].Some?
    ensures |Somes(s)| == |s|
    ensures forall i :: 0 <= i < |s| ==> Somes(s)[i] == s[i].value
  {
    if s != [] {
      SomesAllSome(s[..|s| - 1]);
    }
  }

  /** No element occurs twice. */
  predicate NoDuplicates<T(==)>(s: seq<T>)
  {
    forall i, j :: 0 <= i < j < |s| ==> s[i] != s[j]
  }

  /** Ascending iteration visits each element once. */
  lemma SortedKeysDistinct(s: set<string>)
    ensures NoDuplicates(SortedKeys(s))
  {
    SortedKeysSorted(s);
    var r := SortedKeys(s);
    forall i, j | 0 <= i < j < |r|
      ensures r[i] != r[j]
    {
      if r[i] == r[j] {
        StrLessIrreflexive(r[i]);
      }
    }
  }

  lemma SortedKeysSingleton(x: string)
    ensures SortedKeys({x}) == [x]
  {
    assert IsLeast(x, {x});
    SortedKeysUnfold({x}, x);
    assert {x} - {x} == {};
  }
}
