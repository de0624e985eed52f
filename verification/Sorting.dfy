/** Sorting by a total preorder. The sort is stable, as `Array.prototype.sort` is; where
    Go's unstable `sort.Slice` is modelled, keys are distinct and SortedUnique shows that
    any sort gives the same list. */
module Sorting {
  import opened Permutations

  ghost predicate TotalPreorder<T(!new)>(le: (T, T) -> bool) {
    && (forall x, y :: le(x, y) || le(y, x))
    && (forall x, y, z :: le(x, y) && le(y, z) ==> le(x, z))
  }

  ghost predicate Sorted<T>(s: seq<T>, le: (T, T) -> bool) {
    forall i, j :: 0 <= i < j < |s| ==> le(s[i], s[j])
  }

  function Insert<T>(x: T, s: seq<T>, le: (T, T) -> bool): seq<T> {
    if s == [] || le(x, s[0]) then [x] + s else [s[0]] + Insert(x, s[1..], le)
  }

  function Sort<T>(s: seq<T>, le: (T, T) -> bool): seq<T> {
    if s == [] then [] else Insert(s[0], Sort(s[1..], le), le)
  }

  lemma {:induction false} InsertAdds<T>(x: T, s: seq<T>, le: (T, T) -> bool)
    ensures multiset(Insert(x, s, le)) == multiset{x} + multiset(s)
  {
    if s != [] && !le(x, s[0]) {
      assert s == [s[0]] + s[1..];
      InsertAdds(x, s[1..], le);
    }
  }

  lemma SortedCons<T>(x: T, s: seq<T>, le: (T, T) -> bool)
    requires Sorted(s, le) && forall y :: y in s ==> le(x, y)
    ensures Sorted([x] + s, le)
  {}

  lemma {:induction false} InsertSorted<T(!new)>(x: T, s: seq<T>, le: (T, T) -> bool)
    requires TotalPreorder(le) && Sorted(s, le)
    ensures Sorted(Insert(x, s, le), le)
  {
    if s == [] {
    } else if le(x, s[0]) {
      forall y | y in s ensures le(x, y) { assert le(s[0], y); }
      SortedCons(x, s, le);
    } else {
      var t := Insert(x, s[1..], le);
      InsertSorted(x, s[1..], le);
      InsertAdds(x, s[1..], le);
      forall y | y in t ensures le(s[0], y) {
        assert y in multiset(t);
        assert y == x || y in s[1..];
      }
      SortedCons(s[0], t, le);
    }
  }

  lemma {:induction false} SortSorts<T(!new)>(s: seq<T>, le: (T, T) -> bool)
    requires TotalPreorder(le)
    ensures Sorted(Sort(s, le), le)
    ensures multiset(Sort(s, le)) == multiset(s)
    ensures |Sort(s, le)| == |s|
  {
    if s != [] {
      SortSorts(s[1..], le);
      InsertSorted(s[0], Sort(s[1..], le), le);
      InsertAdds(s[0], Sort(s[1..], le), le);
      assert s == [s[0]] + s[1..];
    }
    assert |multiset(Sort(s, le))| == |multiset(s)|;
  }

  ghost predicate NoTies<T(!new)>(s: seq<T>, le: (T, T) -> bool) {
    forall x, y :: x in s && y in s && le(x, y) && le(y, x) ==> x == y
  }

  lemma Tail<T(!new)>(s: seq<T>, le: (T, T) -> bool)
    requires s != [] && Sorted(s, le)
    ensures Sorted(s[1..], le) && (NoTies(s, le) ==> NoTies(s[1..], le))
    ensures multiset(s[1..]) == multiset(s) - multiset{s[0]}
    ensures s == [s[0]] + s[1..]
  {
    assert s == [s[0]] + s[1..];
  }

  lemma SameHead<T(!new)>(a: seq<T>, b: seq<T>, le: (T, T) -> bool)
    requires multiset(a) == multiset(b) && a != [] && b != [] && Sorted(a, le) && Sorted(b, le)
    requires NoTies(a, le)
    ensures a[0] == b[0]
  {
    assert a[0] in multiset(b) && b[0] in multiset(a);
    var i :| 0 <= i < |a| && a[i] == b[0];
    var j :| 0 <= j < |b| && b[j] == a[0];
  }

  /** Where ties mean equality, a list has one sorted permutation. */
  lemma {:induction false} SortedUnique<T(!new)>(a: seq<T>, b: seq<T>, le: (T, T) -> bool)
    requires multiset(a) == multiset(b) && Sorted(a, le) && Sorted(b, le) && NoTies(a, le)
    ensures a == b
  {
    hide Sorted, NoTies;
    SameLength(a, b);
    if a != [] {
      SameHead(a, b, le);
      Tail(a, le);
      Tail(b, le);
      SortedUnique(a[1..], b[1..], le);
    }
  }

  /** Where ties mean equality, the order of the input does not matter. */
  lemma SortForgetsOrder<T(!new)>(a: seq<T>, b: seq<T>, le: (T, T) -> bool)
    requires TotalPreorder(le) && multiset(a) == multiset(b) && NoTies(a, le)
    ensures Sort(a, le) == Sort(b, le)
  {
    SortSorts(a, le);
    SortSorts(b, le);
    forall x | x in Sort(a, le) ensures x in a {
      assert x in multiset(a);
    }
    SortedUnique(Sort(a, le), Sort(b, le), le);
  }
}
