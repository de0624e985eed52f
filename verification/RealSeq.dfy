/** Sums, extremes and order of sequences of reals, and the few facts of nonlinear real
    arithmetic that the treemap proofs rest on. */
module RealSeq {

  function Max(a: real, b: real): real { if a < b then b else a }

  function Min(a: real, b: real): real { if a < b then a else b }

  /** A left fold, as `reduce` computes it. */
  function Sum(s: seq<real>): real {
    if s == [] then 0.0 else Sum(s[..|s| - 1]) + s[|s| - 1]
  }

  function MaxOf(s: seq<real>): real
    requires s != []
  {
    if |s| == 1 then s[0] else Max(MaxOf(s[..|s| - 1]), s[|s| - 1])
  }

  function MinOf(s: seq<real>): real
    requires s != []
  {
    if |s| == 1 then s[0] else Min(MinOf(s[..|s| - 1]), s[|s| - 1])
  }

  predicate Positive(s: seq<real>) { forall i :: 0 <= i < |s| ==> s[i] > 0.0 }

  predicate Descending(s: seq<real>) { forall i, j :: 0 <= i < j < |s| ==> s[i] >= s[j] }

  /** Multiplication by name, so that equal factors give equal products at once. */
  function Times(a: real, b: real): real { a * b }

  function Scale(s: seq<real>, c: real): (r: seq<real>)
    ensures |r| == |s|
  {
    if s == [] then [] else Scale(s[..|s| - 1], c) + [Times(s[|s| - 1], c)]
  }

  lemma {:induction false} SumConcat(a: seq<real>, b: seq<real>)
    ensures Sum(a + b) == Sum(a) + Sum(b)
  {
    if b == [] {
      assert a + b == a;
    } else {
      SumConcat(a, b[..|b| - 1]);
      assert (a + b)[..|a + b| - 1] == a + b[..|b| - 1];
    }
  }

  lemma {:induction false} SumSplit(s: seq<real>, k: nat)
    requires k <= |s|
    ensures Sum(s) == Sum(s[..k]) + Sum(s[k..])
  {
    SumConcat(s[..k], s[k..]);
    assert s == s[..k] + s[k..];
  }

  lemma {:induction false} SumPositive(s: seq<real>)
    requires Positive(s)
    ensures Sum(s) >= 0.0 && (s != [] ==> Sum(s) > 0.0)
  {
    if s != [] {
      SumPositive(s[..|s| - 1]);
    }
  }

  lemma Distribute(a: real, b: real, c: real)
    ensures Times(a + b, c) == Times(a, c) + Times(b, c)
  {}

  lemma {:induction false} SumScale(s: seq<real>, c: real)
    ensures Sum(Scale(s, c)) == Times(Sum(s), c)
  {
    if s != [] {
      var front, last := s[..|s| - 1], s[|s| - 1];
      SumScale(front, c);
      var t := Scale(s, c);
      assert t[..|t| - 1] == Scale(front, c);
      Distribute(Sum(front), last, c);
    }
  }

  lemma {:induction false} ExtremesBound(s: seq<real>)
    requires s != [] && Positive(s)
    ensures MaxOf(s) > 0.0 && MinOf(s) > 0.0
  {
    if |s| > 1 {
      ExtremesBound(s[..|s| - 1]);
    }
  }

  lemma {:induction false} ExtremesOfDescending(s: seq<real>)
    requires s != [] && Descending(s)
    ensures MaxOf(s) == s[0] && MinOf(s) == s[|s| - 1]
  {
    if |s| > 1 {
      ExtremesOfDescending(s[..|s| - 1]);
    }
  }

  function Product(a: real, b: real): (r: real)
    requires a > 0.0 && b > 0.0
    ensures r > 0.0
  {
    a * b
  }

  function Square(a: real): (r: real)
    requires a > 0.0
    ensures r > 0.0
  {
    Product(a, a)
  }

  lemma MulPos(a: real, b: real)
    requires a > 0.0 && b > 0.0
    ensures a * b > 0.0
  {}

  lemma MulMono(a: real, b: real, c: real)
    requires a <= b && c >= 0.0
    ensures a * c <= b * c
  {}

  lemma MulStrict(a: real, b: real, c: real)
    requires a < b && c > 0.0
    ensures a * c < b * c
  {}

  lemma DivPos(a: real, b: real)
    requires a > 0.0 && b > 0.0
    ensures a / b > 0.0
  {}

  lemma DivMono(a: real, b: real, c: real)
    requires a <= b && c > 0.0
    ensures a / c <= b / c
  {
    MulMono(a, b, 1.0 / c);
  }

  lemma {:induction false} ScaleAt(s: seq<real>, c: real, i: nat)
    requires i < |s|
    ensures Scale(s, c)[i] == Times(s[i], c)
  {
    if i < |s| - 1 { ScaleAt(s[..|s| - 1], c, i); }
  }

  lemma TimesSign(v: real, c: real)
    requires c > 0.0
    ensures Times(v, c) > 0.0 <==> v > 0.0
  {
    if v > 0.0 { MulPos(v, c); } else { MulMono(v, 0.0, c); }
  }

  lemma TimesMono(a: real, b: real, c: real)
    requires a <= b && c > 0.0
    ensures Times(a, c) <= Times(b, c)
  {
    MulMono(a, b, c);
  }

  lemma ScaleKeeps(s: seq<real>, c: real)
    requires c > 0.0
    ensures Positive(s) ==> Positive(Scale(s, c))
    ensures Descending(s) ==> Descending(Scale(s, c))
  {
    hide Times;
    if Positive(s) {
      forall i | 0 <= i < |s| ensures Scale(s, c)[i] > 0.0 {
        ScaleAt(s, c, i);
        TimesSign(s[i], c);
      }
    }
    if Descending(s) {
      forall i, j | 0 <= i < j < |s| ensures Scale(s, c)[i] >= Scale(s, c)[j] {
        ScaleAt(s, c, i);
        ScaleAt(s, c, j);
        TimesMono(s[j], s[i], c);
      }
    }
  }

  /** A positive numerator over a larger positive denominator is smaller. */
  lemma DivAnti(c: real, u: real, v: real)
    requires c > 0.0 && 0.0 < u <= v
    ensures c / v <= c / u
    ensures u < v ==> c / v < c / u
  {
    MulPos(u, v);
    var q := c / (u * v);
    DivPos(c, u * v);
    assert c / v == u * q;
    assert c / u == v * q;
    MulMono(u, v, q);
    if u < v {
      MulStrict(u, v, q);
    }
  }

  lemma Quotient(a: real, t: real)
    requires t != 0.0
    ensures Times(t, a / t) == a
  {}

  lemma DivAdd(a: real, b: real, c: real)
    requires c != 0.0
    ensures (a + b) / c == a / c + b / c
  {}

  lemma SquareMono(a: real, b: real)
    requires 0.0 < a < b
    ensures a * a < b * b
  {
    MulStrict(a, b, a);
    MulStrict(a, b, b);
  }
}
