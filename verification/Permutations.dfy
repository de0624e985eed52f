/** Taking single elements out of lists, to reason about permutations of them. */
module Permutations {

  function Without<T>(s: seq<T>, k: nat): seq<T>
    requires k < |s|
  {
    s[..k] + s[k + 1..]
  }

  lemma WithoutOne<T>(s: seq<T>, k: nat)
    requires k < |s|
    ensures s == (s[..k] + [s[k]]) + s[k + 1..]
    ensures multiset(s) == multiset(Without(s, k)) + multiset{s[k]}
  {
    assert s == (s[..k] + [s[k]]) + s[k + 1..];
  }

  /** The last element of s, found in a permutation of s: without it the two are
      permutations still. */
  lemma FindLast<T>(s: seq<T>, t: seq<T>) returns (k: nat)
    requires multiset(s) == multiset(t) && s != []
    ensures k < |t| && t[k] == s[|s| - 1]
    ensures multiset(s[..|s| - 1]) == multiset(Without(t, k))
  {
    var n := |s| - 1;
    assert s[n] in multiset(t);
    k :| 0 <= k < |t| && t[k] == s[n];
    WithoutOne(s, n);
    WithoutOne(t, k);
    assert Without(s, n) == s[..n];
    hide Without;
    assert multiset(s[..n]) == multiset(s) - multiset{s[n]} == multiset(Without(t, k));
  }

  lemma SameElements<T>(s: seq<T>, t: seq<T>)
    requires multiset(s) == multiset(t)
    ensures forall x :: x in s ==> x in t
    ensures forall x :: x in t ==> x in s
  {
    forall x | x in s ensures x in t { assert x in multiset(t); }
    forall x | x in t ensures x in s { assert x in multiset(s); }
  }

  lemma SameLength<T>(s: seq<T>, t: seq<T>)
    requires multiset(s) == multiset(t)
    ensures |s| == |t|
  {
    assert |multiset(s)| == |s| && |multiset(t)| == |t|;
  }
}
