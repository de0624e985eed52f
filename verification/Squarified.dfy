/** What a squarified treemap is: rows laid along the shorter side of what is left of a
    rectangle, each row being the prefix of the remaining areas whose worst aspect ratio
    is least. The definition chooses rows by comparing ALL prefixes; it knows nothing of
    the incremental test the program uses. */
module Squarified {
  import opened RealSeq

  datatype Rect = Rect(x: real, y: real, w: real, h: real)

  /** Half-open containment, so that touching rectangles share no point. */
  predicate Contains(r: Rect, px: real, py: real) {
    r.x <= px < r.x + r.w && r.y <= py < r.y + r.h
  }

  predicate Proper(r: Rect) { r.w > 0.0 && r.h > 0.0 }

  predicate AllProper(rects: seq<Rect>) { forall i :: 0 <= i < |rects| ==> Proper(rects[i]) }

  function Area(r: Rect): real { r.w * r.h }

  function Side(r: Rect): real { Min(r.w, r.h) }

  /** How many of the rectangles hold the point. */
  ghost function Cover(rects: seq<Rect>, px: real, py: real): nat {
    if rects == [] then 0
    else Cover(rects[..|rects| - 1], px, py) + (if Contains(rects[|rects| - 1], px, py) then 1 else 0)
  }

  lemma {:induction false} CoverConcat(a: seq<Rect>, b: seq<Rect>, px: real, py: real)
    ensures Cover(a + b, px, py) == Cover(a, px, py) + Cover(b, px, py)
  {
    if b == [] {
      assert a + b == a;
    } else {
      CoverConcat(a, b[..|b| - 1], px, py);
      assert (a + b)[..|a + b| - 1] == a + b[..|b| - 1];
    }
  }

  // ---------- one row ----------

  function Thickness(row: seq<real>, r: Rect): real
    requires Proper(r)
  {
    Sum(row) / Side(r)
  }

  /** A cell `offset` along the shorter side of r: `len` along it, `thickness` across it. */
  function Cell(r: Rect, offset: real, len: real, thickness: real): Rect {
    if r.w < r.h then Rect(r.x + offset, r.y, len, thickness)
    else Rect(r.x, r.y + offset, thickness, len)
  }

  function Strip(row: seq<real>, r: Rect, t: real): (rects: seq<Rect>)
    requires t > 0.0
    ensures |rects| == |row|
  {
    if row == [] then [] else
      var front := row[..|row| - 1];
      Strip(front, r, t) + [Cell(r, Sum(front) / t, row[|row| - 1] / t, t)]
  }

  predicate Row(row: seq<real>, r: Rect) {
    row != [] && Positive(row) && Proper(r)
  }

  lemma RowThick(row: seq<real>, r: Rect)
    requires Row(row, r)
    ensures Sum(row) > 0.0 && Thickness(row, r) > 0.0
    ensures Sum(row) / Thickness(row, r) == Side(r)
  {
    SumPositive(row);
    DivPos(Sum(row), Side(r));
  }

  function RowRects(row: seq<real>, r: Rect): (rects: seq<Rect>)
    requires Row(row, r)
    ensures |rects| == |row|
  {
    RowThick(row, r);
    Strip(row, r, Thickness(row, r))
  }

  function Rest(row: seq<real>, r: Rect): Rect
    requires Proper(r)
  {
    var t := Thickness(row, r);
    if r.w < r.h then r.(y := r.y + t, h := r.h - t) else r.(x := r.x + t, w := r.w - t)
  }

  /** The cells of a strip cover each point of it once and nothing else. */
  lemma {:induction false} StripCover(row: seq<real>, r: Rect, t: real, px: real, py: real)
    requires Positive(row) && t > 0.0
    ensures Cover(Strip(row, r, t), px, py)
         == if Contains(Cell(r, 0.0, Sum(row) / t, t), px, py) then 1 else 0
  {
    if row != [] {
      var front, a := row[..|row| - 1], row[|row| - 1];
      StripCover(front, r, t, px, py);
      DivAdd(Sum(front), a, t);
      DivPos(a, t);
      SumPositive(front);
      DivMono(0.0, Sum(front), t);
    }
  }

  lemma {:induction false} StripAreas(row: seq<real>, r: Rect, t: real)
    requires Positive(row) && t > 0.0
    ensures AllProper(Strip(row, r, t))
    ensures forall i :: 0 <= i < |row| ==> Area(Strip(row, r, t)[i]) == row[i]
  {
    if row != [] {
      var front, a := row[..|row| - 1], row[|row| - 1];
      StripAreas(front, r, t);
      DivPos(a, t);
      assert a / t * t == a;
    }
  }

  // ---------- aspect ratios ----------

  function Aspect(r: Rect): real
    requires Proper(r)
  {
    Max(r.w / r.h, r.h / r.w)
  }

  function WorstAspect(rects: seq<Rect>): real
    requires rects != [] && AllProper(rects)
  {
    var last := Aspect(rects[|rects| - 1]);
    if |rects| == 1 then last else Max(WorstAspect(rects[..|rects| - 1]), last)
  }

  /** The aspect ratio of the largest area of a row, were its cell taller than wide... */
  function Squash(s2: real, side2: real, max: real): real
    requires s2 > 0.0
  {
    side2 * max / s2
  }

  /** ... and of the smallest, the other way round. */
  function Stretch(s2: real, side2: real, min: real): real
    requires side2 > 0.0 && min > 0.0
  {
    MulPos(side2, min);
    s2 / (side2 * min)
  }

  /** The quality the program predicts for a row from its areas alone. */
  function Worst(row: seq<real>, side: real): real
    requires row != [] && Positive(row) && side > 0.0
  {
    SumPositive(row);
    ExtremesBound(row);
    var s2, side2 := Square(Sum(row)), Square(side);
    Max(Squash(s2, side2, MaxOf(row)), Stretch(s2, side2, MinOf(row)))
  }

  lemma CellAspect(r: Rect, offset: real, a: real, t: real)
    requires a > 0.0 && t > 0.0
    ensures a / t > 0.0
    ensures Aspect(Cell(r, offset, a / t, t)) == Max(a / Square(t), Square(t) / a)
  {
    DivPos(a, t);
    var len := a / t;
    assert a == len * t;
    RatioOfProduct(len, t);
  }

  lemma RatioOfProduct(len: real, t: real)
    requires len > 0.0 && t > 0.0
    ensures len * t > 0.0
    ensures len * t / Square(t) == len / t
    ensures Square(t) / (len * t) == t / len
  {
    MulPos(len, t);
    var t2 := Square(t);
    var p, q := len / t, t / len;
    assert len == p * t;
    assert t == q * len;
    assert len * t == p * t2;
    assert t2 == q * (len * t);
  }

  lemma AspectStep(max: real, min: real, a: real, t2: real)
    requires max > 0.0 && min > 0.0 && a > 0.0 && t2 > 0.0
    ensures Max(max, a) / t2 == Max(max / t2, a / t2)
    ensures t2 / Min(min, a) == Max(t2 / min, t2 / a)
  {
    if max < a { DivMono(max, a, t2); } else { DivMono(a, max, t2); }
    if min < a { DivAnti(t2, min, a); } else { DivAnti(t2, a, min); }
  }

  lemma {:induction false} StripAspect(row: seq<real>, r: Rect, t: real)
    requires row != [] && Positive(row) && t > 0.0
    ensures AllProper(Strip(row, r, t)) && MinOf(row) > 0.0
    ensures WorstAspect(Strip(row, r, t)) == Max(MaxOf(row) / Square(t), Square(t) / MinOf(row))
  {
    StripAreas(row, r, t);
    ExtremesBound(row);
    var front, a := row[..|row| - 1], row[|row| - 1];
    CellAspect(r, Sum(front) / t, a, t);
    assert Strip(row, r, t)[..|row| - 1] == Strip(front, r, t);
    if |row| > 1 {
      StripAspect(front, r, t);
      ExtremesBound(front);
      AspectStep(MaxOf(front), MinOf(front), a, Square(t));
    }
  }

  lemma SquareOfProduct(a: real, b: real)
    requires a > 0.0 && b > 0.0
    ensures a * b > 0.0
    ensures Square(a * b) == Square(a) * Square(b)
  {
    MulPos(a, b);
    assert a * b * (a * b) == a * a * (b * b);
  }

  lemma SquashStretch(m: real, s2: real, side2: real, t2: real)
    requires m > 0.0 && s2 > 0.0 && side2 > 0.0 && t2 > 0.0 && t2 * side2 == s2
    ensures m / t2 == Squash(s2, side2, m)
    ensures t2 / m == Stretch(s2, side2, m)
  {
    MulPos(side2, m);
    var p, q := m / t2, t2 / m;
    assert m == p * t2;
    assert t2 == q * m;
    assert side2 * m == p * s2;
    assert s2 == q * (side2 * m);
  }

  lemma ThicknessAspect(m: real, s: real, side: real)
    requires m > 0.0 && s > 0.0 && side > 0.0
    ensures s / side > 0.0
    ensures m / Square(s / side) == Squash(Square(s), Square(side), m)
    ensures Square(s / side) / m == Stretch(Square(s), Square(side), m)
  {
    DivPos(s, side);
    SquareOfProduct(s / side, side);
    assert s / side * side == s;
    SquashStretch(m, Square(s), Square(side), Square(s / side));
  }

  /** Predicted quality is real quality, for either orientation of the row. */
  lemma WorstIsWorstAspect(row: seq<real>, r: Rect)
    requires Row(row, r)
    ensures AllProper(RowRects(row, r))
    ensures WorstAspect(RowRects(row, r)) == Worst(row, Side(r))
  {
    RowThick(row, r);
    StripAspect(row, r, Thickness(row, r));
    ExtremesBound(row);
    ThicknessAspect(MaxOf(row), Sum(row), Side(r));
    ThicknessAspect(MinOf(row), Sum(row), Side(r));
  }

  // ---------- the best prefix ----------

  ghost predicate Areas(items: seq<real>, side: real) {
    items != [] && Positive(items) && side > 0.0
  }

  /** The first k areas make a row no worse than any other prefix would, and no longer
      prefix is as good. */
  ghost predicate IsBest(items: seq<real>, side: real, k: int)
    requires Areas(items, side)
  {
    && 1 <= k <= |items|
    && (forall j :: 1 <= j <= |items| ==> Worst(items[..k], side) <= Worst(items[..j], side))
    && (forall j :: k < j <= |items| ==> Worst(items[..k], side) < Worst(items[..j], side))
  }

  lemma {:induction false} BestExists(items: seq<real>, side: real, n: nat) returns (k: nat)
    requires Areas(items, side) && 1 <= n <= |items|
    ensures 1 <= k <= n
    ensures forall j :: 1 <= j <= n ==> Worst(items[..k], side) <= Worst(items[..j], side)
    ensures forall j :: k < j <= n ==> Worst(items[..k], side) < Worst(items[..j], side)
  {
    if n == 1 {
      k := 1;
    } else {
      k := BestExists(items, side, n - 1);
      if Worst(items[..n], side) <= Worst(items[..k], side) {
        k := n;
      }
    }
  }

  ghost function Best(items: seq<real>, side: real): (k: nat)
    requires Areas(items, side)
    ensures IsBest(items, side, k)
  {
    assert exists k: nat :: IsBest(items, side, k) by {
      var k := BestExists(items, side, |items|);
      assert IsBest(items, side, k);
    }
    var k: nat :| IsBest(items, side, k);
    k
  }

  lemma BestUnique(items: seq<real>, side: real, k: nat)
    requires Areas(items, side) && IsBest(items, side, k)
    ensures k == Best(items, side)
  {
    var b := Best(items, side);
    assert Worst(items[..k], side) <= Worst(items[..b], side);
    assert Worst(items[..b], side) <= Worst(items[..k], side);
  }

  // ---------- why the incremental test finds it ----------

  /** Growing a row of descending areas lowers the squash and raises the stretch. */
  lemma Unimodal(items: seq<real>, side: real, j: nat)
    requires Areas(items, side) && Descending(items) && 1 <= j < |items|
    ensures 0.0 < Sum(items[..j]) < Sum(items[..j + 1])
    ensures Squash(Square(Sum(items[..j + 1])), Square(side), items[0])
          < Squash(Square(Sum(items[..j])), Square(side), items[0])
    ensures Stretch(Square(Sum(items[..j])), Square(side), items[j - 1])
          < Stretch(Square(Sum(items[..j + 1])), Square(side), items[j])
  {
    SumPositive(items[..j]);
    assert items[..j + 1][..j] == items[..j];
    var s, s', side2 := Sum(items[..j]), Sum(items[..j + 1]), Square(side);
    SquareMono(s, s');
    MulPos(side2, items[0]);
    DivAnti(side2 * items[0], Square(s), Square(s'));
    StretchStep(Square(s), Square(s'), side2, items[j - 1], items[j]);
  }

  lemma StretchStep(s: real, s': real, side2: real, a: real, a': real)
    requires 0.0 < s < s' && side2 > 0.0 && a >= a' > 0.0
    ensures Stretch(s, side2, a) < Stretch(s', side2, a')
  {
    MulPos(side2, a);
    MulPos(side2, a');
    MulMono(a', a, side2);
    DivAnti(s, side2 * a', side2 * a);
    MulStrict(s, s', 1.0 / (side2 * a'));
  }

  lemma WorstOfPrefix(items: seq<real>, side: real, j: nat)
    requires Areas(items, side) && Descending(items) && 1 <= j <= |items|
    ensures Sum(items[..j]) > 0.0
    ensures Worst(items[..j], side)
         == Max(Squash(Square(Sum(items[..j])), Square(side), items[0]),
                Stretch(Square(Sum(items[..j])), Square(side), items[j - 1]))
  {
    SumPositive(items[..j]);
    ExtremesOfDescending(items[..j]);
  }

  /** Once one more area makes a row worse, every longer row is at least as bad as that. */
  lemma {:induction false} RejectionIsFinal(items: seq<real>, side: real, k: nat, j: nat)
    requires Areas(items, side) && Descending(items) && 1 <= k < j <= |items|
    requires Worst(items[..k], side) < Worst(items[..k + 1], side)
    ensures Worst(items[..k], side) < Worst(items[..j], side)
    ensures Sum(items[..j]) > 0.0
    ensures Worst(items[..k], side) < Stretch(Square(Sum(items[..j])), Square(side), items[j - 1])
  {
    WorstOfPrefix(items, side, j);
    WorstOfPrefix(items, side, k);
    Unimodal(items, side, j - 1);
    if j > k + 1 {
      RejectionIsFinal(items, side, k, j - 1);
    }
  }

  ghost predicate Accepted(items: seq<real>, side: real, k: nat)
    requires Areas(items, side)
  {
    1 <= k <= |items| && forall j :: 1 <= j <= k ==> Worst(items[..k], side) <= Worst(items[..j], side)
  }

  /** The greedy row is globally optimal: a row grown while it got no worse, and stopped
      by the first area that makes it worse or by the end, is the best prefix. */
  lemma GreedyIsBest(items: seq<real>, side: real, k: nat)
    requires Areas(items, side) && Descending(items) && Accepted(items, side, k)
    requires k == |items| || Worst(items[..k], side) < Worst(items[..k + 1], side)
    ensures IsBest(items, side, k)
  {
    forall j | k < j <= |items| ensures Worst(items[..k], side) < Worst(items[..j], side) {
      RejectionIsFinal(items, side, k, j);
    }
  }

  // ---------- the whole layout ----------

  ghost predicate Fits(items: seq<real>, r: Rect) {
    Positive(items) && r.w >= 0.0 && r.h >= 0.0 && Sum(items) == Area(r)
  }

  lemma FilledIsProper(items: seq<real>, r: Rect)
    requires Fits(items, r) && items != []
    ensures Proper(r)
  {
    SumPositive(items);
  }

  lemma Leftover(s: real, rest: real, side: real, other: real)
    requires side > 0.0 && rest >= 0.0 && s + rest == side * other
    ensures s / side <= other
    ensures side * (other - s / side) == rest
  {
    DivMono(s, side * other, side);
    assert side * other / side == other;
    assert side * (s / side) == s;
  }

  /** What one row leaves of r is filled by the areas left. */
  lemma RestFits(items: seq<real>, k: nat, r: Rect)
    requires Fits(items, r) && 1 <= k <= |items|
    ensures Areas(items, Side(r)) && Row(items[..k], r)
    ensures Thickness(items[..k], r) <= if r.w < r.h then r.h else r.w
    ensures Fits(items[k..], Rest(items[..k], r))
  {
    hide Sum;
    FilledIsProper(items, r);
    SumPositive(items[k..]);
    SumSplit(items, k);
    Leftover(Sum(items[..k]), Sum(items[k..]), Side(r), if r.w < r.h then r.h else r.w);
  }

  ghost function Layout(items: seq<real>, r: Rect): (rects: seq<Rect>)
    requires Fits(items, r)
    ensures |rects| == |items|
    decreases |items|
  {
    if items == [] then [] else
      RestFits(items, 1, r);
      var k := Best(items, Side(r));
      RestFits(items, k, r);
      RowRects(items[..k], r) + Layout(items[k..], Rest(items[..k], r))
  }

  /** A layout opens with a row whose real aspect ratios beat those of every other row
      that could be laid in the same place, and goes on with the layout of the rest. */
  lemma LayoutOpensWithBestRow(items: seq<real>, r: Rect) returns (k: nat)
    requires Fits(items, r) && items != []
    ensures 1 <= k <= |items| && Row(items[..k], r)
    ensures Fits(items[k..], Rest(items[..k], r))
    ensures Layout(items, r) == RowRects(items[..k], r) + Layout(items[k..], Rest(items[..k], r))
    ensures forall j :: 1 <= j <= |items| ==> Row(items[..j], r) && AllProper(RowRects(items[..j], r))
    ensures forall j :: 1 <= j <= |items| ==>
              WorstAspect(RowRects(items[..k], r)) <= WorstAspect(RowRects(items[..j], r))
    ensures forall j :: k < j <= |items| ==>
              WorstAspect(RowRects(items[..k], r)) < WorstAspect(RowRects(items[..j], r))
  {
    RestFits(items, 1, r);
    k := Best(items, Side(r));
    RestFits(items, k, r);
    forall j | 1 <= j <= |items|
      ensures Row(items[..j], r) && AllProper(RowRects(items[..j], r))
      ensures WorstAspect(RowRects(items[..j], r)) == Worst(items[..j], Side(r))
    {
      WorstIsWorstAspect(items[..j], r);
    }
  }

  lemma {:induction false} LayoutAreas(items: seq<real>, r: Rect)
    requires Fits(items, r)
    ensures AllProper(Layout(items, r))
    ensures forall i :: 0 <= i < |items| ==> Area(Layout(items, r)[i]) == items[i]
    decreases |items|
  {
    if items != [] {
      var k := LayoutOpensWithBestRow(items, r);
      RowThick(items[..k], r);
      StripAreas(items[..k], r, Thickness(items[..k], r));
      LayoutAreas(items[k..], Rest(items[..k], r));
    }
  }

  /** Each point of r, and no other, lies in exactly one of the rectangles. */
  ghost predicate Partitions(rects: seq<Rect>, r: Rect) {
    forall px, py :: Cover(rects, px, py) == if Contains(r, px, py) then 1 else 0
  }

  lemma RowAndRest(row: seq<real>, r: Rect, px: real, py: real)
    requires Row(row, r) && Thickness(row, r) <= if r.w < r.h then r.h else r.w
    ensures Cover(RowRects(row, r), px, py) + (if Contains(Rest(row, r), px, py) then 1 else 0)
         == if Contains(r, px, py) then 1 else 0
  {
    RowThick(row, r);
    StripCover(row, r, Thickness(row, r), px, py);
  }

  lemma {:induction false} LayoutCover(items: seq<real>, r: Rect, px: real, py: real)
    requires Fits(items, r)
    ensures Cover(Layout(items, r), px, py) == if Contains(r, px, py) then 1 else 0
    decreases |items|
  {
    if items == [] {
      if Proper(r) { MulPos(r.w, r.h); }
    } else {
      var k := LayoutOpensWithBestRow(items, r);
      var row, rest := items[..k], Rest(items[..k], r);
      LayoutCover(items[k..], rest, px, py);
      RestFits(items, k, r);
      RowAndRest(row, r, px, py);
      CoverConcat(RowRects(row, r), Layout(items[k..], rest), px, py);
    }
  }

  lemma LayoutPartitions(items: seq<real>, r: Rect)
    requires Fits(items, r)
    ensures Partitions(Layout(items, r), r)
  {
    forall px, py ensures Cover(Layout(items, r), px, py) == if Contains(r, px, py) then 1 else 0 {
      LayoutCover(items, r, px, py);
    }
  }

  lemma {:induction false} CoverCounts(rects: seq<Rect>, px: real, py: real, i: nat, j: nat)
    requires i <= j < |rects| && Contains(rects[i], px, py) && Contains(rects[j], px, py)
    ensures Cover(rects, px, py) >= if i < j then 2 else 1
  {
    var n := |rects| - 1;
    if j < n {
      CoverCounts(rects[..n], px, py, i, j);
    } else if i < n {
      CoverCounts(rects[..n], px, py, i, i);
    }
  }

  ghost predicate Within(a: Rect, r: Rect) {
    r.x <= a.x && r.y <= a.y && a.x + a.w <= r.x + r.w && a.y + a.h <= r.y + r.h
  }

  /** A partition by proper rectangles stays inside the outline, and no two of its
      rectangles share a point. */
  lemma PartitionStaysInside(rects: seq<Rect>, r: Rect)
    requires Partitions(rects, r) && AllProper(rects)
    ensures forall i :: 0 <= i < |rects| ==> Within(rects[i], r)
    ensures forall i, j, px, py :: 0 <= i < j < |rects| && Contains(rects[i], px, py) ==> !Contains(rects[j], px, py)
  {
    forall i | 0 <= i < |rects| ensures Within(rects[i], r) {
      var a := rects[i];
      CoverCounts(rects, a.x, a.y, i, i);
      assert Contains(r, a.x, a.y);
      if a.x + a.w > r.x + r.w {
        CoverCounts(rects, Max(a.x, r.x + r.w), a.y, i, i);
      }
      if a.y + a.h > r.y + r.h {
        CoverCounts(rects, a.x, Max(a.y, r.y + r.h), i, i);
      }
    }
    forall i, j, px, py | 0 <= i < j < |rects| && Contains(rects[i], px, py)
      ensures !Contains(rects[j], px, py)
    {
      if Contains(rects[j], px, py) { CoverCounts(rects, px, py, i, j); }
    }
  }

  // ---------- where the rectangles lie ----------

  /** Rectangles side by side from the left edge of r to the right one, along its top; or
      one below the other from the top to the bottom, along its left edge. The former only
      if r is taller than wide. */
  ghost predicate FirstRow(row: seq<Rect>, r: Rect)
    requires row != []
  {
    var last := row[|row| - 1];
    if r.w < r.h then
      && row[0].x == r.x && last.x + last.w == r.x + r.w
      && (forall i :: 0 <= i < |row| ==> row[i].y == r.y && row[i].h == row[0].h)
      && (forall i :: 0 < i < |row| ==> row[i].x == row[i - 1].x + row[i - 1].w)
    else
      && row[0].y == r.y && last.y + last.h == r.y + r.h
      && (forall i :: 0 <= i < |row| ==> row[i].x == r.x && row[i].w == row[0].w)
      && (forall i :: 0 < i < |row| ==> row[i].y == row[i - 1].y + row[i - 1].h)
  }

  /** What is left of r below, or to the right of, a row that a belongs to. */
  function Beyond(a: Rect, r: Rect): Rect {
    if r.w < r.h then Rect(r.x, a.y + a.h, r.w, r.y + r.h - (a.y + a.h))
    else Rect(a.x + a.w, r.y, r.x + r.w - (a.x + a.w), r.h)
  }

  /** Row after row, each along the shorter side of what the ones before it left. */
  ghost predicate InRows(rects: seq<Rect>, r: Rect)
    decreases |rects|
  {
    rects == [] || exists k :: 1 <= k <= |rects| && FirstRow(rects[..k], r) && InRows(rects[k..], Beyond(rects[0], r))
  }

  lemma {:induction false} StripPlaces(row: seq<real>, r: Rect, t: real)
    requires Positive(row) && t > 0.0
    ensures forall i :: 0 <= i < |row| ==>
              Strip(row, r, t)[i] == Cell(r, Sum(row[..i]) / t, row[i] / t, t)
  {
    if row != [] {
      var front := row[..|row| - 1];
      StripPlaces(front, r, t);
      assert forall i :: 0 <= i < |row| ==> row[..i] == if i < |row| - 1 then front[..i] else front;
    }
  }

  lemma RowIsFirst(row: seq<real>, r: Rect)
    requires Row(row, r)
    ensures FirstRow(RowRects(row, r), r)
    ensures Beyond(RowRects(row, r)[0], r) == Rest(row, r)
  {
    RowThick(row, r);
    var t, n := Thickness(row, r), |row| - 1;
    hide Sum, Strip;
    StripPlaces(row, r, t);
    forall i | 0 <= i < |row| ensures Sum(row[..i + 1]) / t == Sum(row[..i]) / t + row[i] / t {
      OneCellFurther(row, i, t);
    }
    assert row[..n + 1] == row && row[..0] == [];
    NoCell(t);
  }

  lemma OneCellFurther(row: seq<real>, i: nat, t: real)
    requires i < |row| && t > 0.0
    ensures Sum(row[..i + 1]) / t == Sum(row[..i]) / t + row[i] / t
  {
    assert row[..i + 1][..i] == row[..i];
    DivAdd(Sum(row[..i]), row[i], t);
  }

  lemma NoCell(t: real)
    requires t > 0.0
    ensures Sum([]) / t == 0.0
  {}

  /** The layout is laid out in rows. */
  lemma {:induction false} LayoutIsInRows(items: seq<real>, r: Rect)
    requires Fits(items, r)
    ensures InRows(Layout(items, r), r)
    decreases |items|
  {
    if items != [] {
      var k := LayoutOpensWithBestRow(items, r);
      var row, rest := RowRects(items[..k], r), Rest(items[..k], r);
      LayoutIsInRows(items[k..], rest);
      RowIsFirst(items[..k], r);
      var rects := Layout(items, r);
      hide Layout, FirstRow, Fits, RowRects, Rest;
      assert rects[..k] == row && rects[k..] == Layout(items[k..], rest) && rects[0] == row[0];
    }
  }

  /** b lies wholly to the right of a, or wholly below it. */
  predicate After(a: Rect, b: Rect) { b.x >= a.x + a.w || b.y >= a.y + a.h }

  lemma {:induction false} RowAdvances(row: seq<Rect>, r: Rect, j: nat)
    requires row != [] && AllProper(row) && FirstRow(row, r) && j < |row|
    ensures row[j].x >= r.x && row[j].y >= r.y
    ensures forall i :: 0 <= i < j ==> After(row[i], row[j])
  {
    if j > 0 {
      RowAdvances(row, r, j - 1);
      assert Proper(row[j - 1]);
      if r.w < r.h {
        RowRuns(row, r, j);
      } else {
        RowStacks(row, r, j);
      }
    }
  }

  lemma {:induction false} RowRuns(row: seq<Rect>, r: Rect, j: nat)
    requires row != [] && AllProper(row) && FirstRow(row, r) && r.w < r.h && j < |row|
    ensures forall i :: 0 <= i < j ==> row[j].x >= row[i].x + row[i].w
  {
    if j > 0 { RowRuns(row, r, j - 1); }
  }

  lemma {:induction false} RowStacks(row: seq<Rect>, r: Rect, j: nat)
    requires row != [] && AllProper(row) && FirstRow(row, r) && r.w >= r.h && j < |row|
    ensures forall i :: 0 <= i < j ==> row[j].y >= row[i].y + row[i].h
  {
    if j > 0 { RowStacks(row, r, j - 1); }
  }

  ghost predicate Advance(rects: seq<Rect>) {
    forall i, j :: 0 <= i < j < |rects| ==> After(rects[i], rects[j])
  }

  ghost predicate From(rects: seq<Rect>, x: real, y: real) {
    forall i :: 0 <= i < |rects| ==> rects[i].x >= x && rects[i].y >= y
  }

  /** Whatever lies beyond a row lies to the right of, or below, all of it. */
  lemma PastRow(row: seq<Rect>, rest: seq<Rect>, r: Rect)
    requires row != [] && AllProper(row) && FirstRow(row, r)
    requires From(rest, Beyond(row[0], r).x, Beyond(row[0], r).y)
    ensures row[0].x == r.x && row[0].y == r.y
    ensures From(row, r.x, r.y) && From(rest, r.x, r.y) && Advance(row)
    ensures forall i, j :: 0 <= i < |row| && 0 <= j < |rest| ==> After(row[i], rest[j])
  {
    forall j | 0 <= j < |row|
      ensures row[j].x >= r.x && row[j].y >= r.y
      ensures forall i :: 0 <= i < j ==> After(row[i], row[j])
    {
      RowAdvances(row, r, j);
    }
    assert Proper(row[0]);
  }

  lemma Join(a: seq<Rect>, b: seq<Rect>, x: real, y: real)
    requires From(a, x, y) && From(b, x, y) && Advance(a) && Advance(b)
    requires forall i, j :: 0 <= i < |a| && 0 <= j < |b| ==> After(a[i], b[j])
    ensures From(a + b, x, y) && Advance(a + b)
  {
    hide After;
  }

  /** Rectangles in rows start at the corner of r, and each lies to the right of, or below,
      every one before it. */
  lemma {:induction false} RowsAdvance(rects: seq<Rect>, r: Rect)
    requires AllProper(rects) && InRows(rects, r)
    ensures rects != [] ==> rects[0].x == r.x && rects[0].y == r.y
    ensures From(rects, r.x, r.y) && Advance(rects)
    decreases |rects|
  {
    if rects != [] {
      var k :| 1 <= k <= |rects| && FirstRow(rects[..k], r) && InRows(rects[k..], Beyond(rects[0], r));
      var row, rest := rects[..k], rects[k..];
      assert rects[0] == row[0] && rects == row + rest;
      RowsAdvance(rest, Beyond(row[0], r));
      hide InRows, FirstRow, Beyond, From, Advance;
      PastRow(row, rest, r);
      Join(row, rest, r.x, r.y);
    }
  }
}
