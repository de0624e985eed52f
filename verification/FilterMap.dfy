/** Keeping and converting the elements of a list, one by one. */
module FilterMap {
  import opened Model
  import opened Permutations

  function Apply<A, B>(s: seq<A>, f: A -> Option<B>): seq<B> {
    if s == [] then [] else
      var rest := Apply(s[..|s| - 1], f);
      match f(s[|s| - 1])
      case None => rest
      case Some(b) => rest + [b]
  }

  lemma {:induction false} Concat<A, B>(s: seq<A>, t: seq<A>, f: A -> Option<B>)
    ensures Apply(s + t, f) == Apply(s, f) + Apply(t, f)
  {
    if t == [] {
      assert s + t == s;
    } else {
      Concat(s, t[..|t| - 1], f);
      assert (s + t)[..|s + t| - 1] == s + t[..|t| - 1];
    }
  }

  lemma {:induction false} Member<A, B>(s: seq<A>, f: A -> Option<B>, b: B) returns (a: A)
    requires b in Apply(s, f)
    ensures a in s && f(a) == Some(b)
  {
    a := s[|s| - 1];
    if f(a) != Some(b) { a := Member(s[..|s| - 1], f, b); }
  }

  lemma {:induction false} Keeps<A, B>(s: seq<A>, f: A -> Option<B>, a: A)
    requires a in s && f(a).Some?
    ensures f(a).value in Apply(s, f)
  {
    if a != s[|s| - 1] { Keeps(s[..|s| - 1], f, a); }
  }

  lemma ApplyWithout<A, B>(t: seq<A>, k: nat, f: A -> Option<B>)
    requires k < |t|
    ensures multiset(Apply(t, f)) == multiset(Apply(Without(t, k), f)) + multiset(Apply([t[k]], f))
  {
    hide Apply;
    var before, after := t[..k], t[k + 1..];
    WithoutOne(t, k);
    Concat(before + [t[k]], after, f);
    Concat(before, [t[k]], f);
    Concat(before, after, f);
  }

  /** Permuting the input permutes the output. */
  lemma {:induction false} Permutes<A, B>(s: seq<A>, t: seq<A>, f: A -> Option<B>)
    requires multiset(s) == multiset(t)
    ensures multiset(Apply(s, f)) == multiset(Apply(t, f))
  {
    SameLength(s, t);
    if s != [] {
      var n := |s| - 1;
      var k := FindLast(s, t);
      ApplyWithout(s, n, f);
      ApplyWithout(t, k, f);
      assert Without(s, n) == s[..n];
      Permutes(s[..n], Without(t, k), f);
    }
  }
}
