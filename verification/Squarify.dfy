/** The treemap layout as the program computes it: one pass over the sorted items, growing
    a row and laying it out when the next item would make it worse. */
module Squarify {
  import opened RealSeq
  import opened Permutations
  import opened Sorting
  import opened Squarified

  datatype Item<T> = Item(value: real, tag: T)
  datatype Scaled<T> = Scaled(item: Item<T>, area: real)
  datatype Tile<T> = Tile(rect: Rect, item: Item<T>)

  function Values<T>(items: seq<Item<T>>): (r: seq<real>)
    ensures |r| == |items| && forall i :: 0 <= i < |r| ==> r[i] == items[i].value
  {
    if items == [] then [] else Values(items[..|items| - 1]) + [items[|items| - 1].value]
  }

  function AreasOf<T>(row: seq<Scaled<T>>): (r: seq<real>)
    ensures |r| == |row| && forall i :: 0 <= i < |r| ==> r[i] == row[i].area
  {
    seq(|row|, i requires 0 <= i < |row| => row[i].area)
  }

  function RectsOf<T>(tiles: seq<Tile<T>>): (r: seq<Rect>)
    ensures |r| == |tiles| && forall i :: 0 <= i < |r| ==> r[i] == tiles[i].rect
  {
    seq(|tiles|, i requires 0 <= i < |tiles| => tiles[i].rect)
  }

  function ItemsOf<T>(tiles: seq<Tile<T>>): (r: seq<Item<T>>)
    ensures |r| == |tiles| && forall i :: 0 <= i < |r| ==> r[i] == tiles[i].item
  {
    seq(|tiles|, i requires 0 <= i < |tiles| => tiles[i].item)
  }

  function ScaledItems<T>(row: seq<Scaled<T>>): (r: seq<Item<T>>)
    ensures |r| == |row| && forall i :: 0 <= i < |r| ==> r[i] == row[i].item
  {
    seq(|row|, i requires 0 <= i < |row| => row[i].item)
  }

  function ScaleItems<T>(items: seq<Item<T>>, scale: real): (r: seq<Scaled<T>>)
    ensures |r| == |items|
  {
    if items == [] then [] else
      var last := items[|items| - 1];
      ScaleItems(items[..|items| - 1], scale) + [Scaled(last, Times(last.value, scale))]
  }

  function Descends<T>(): (Item<T>, Item<T>) -> bool {
    (a: Item<T>, b: Item<T>) => a.value >= b.value
  }

  /** The items with a positive value, in their order. */
  function Positives<T>(items: seq<Item<T>>): seq<Item<T>> {
    if items == [] then [] else
      var last := items[|items| - 1];
      Positives(items[..|items| - 1]) + (if last.value > 0.0 then [last] else [])
  }

  /** What the layout draws, in the order it places it. */
  function Drawn<T>(items: seq<Item<T>>): seq<Item<T>> {
    Positives(Sort(items, Descends()))
  }

  predicate NonNegative<T>(items: seq<Item<T>>) {
    forall i :: 0 <= i < |items| ==> items[i].value >= 0.0
  }

  function Total<T>(items: seq<Item<T>>): real {
    if items == [] then 0.0 else Total(items[..|items| - 1]) + items[|items| - 1].value
  }

  // ---------- facts about what is drawn ----------

  lemma {:induction false} TotalIsSum<T>(items: seq<Item<T>>)
    ensures Total(items) == Sum(Values(items))
  {
    if items != [] {
      TotalIsSum(items[..|items| - 1]);
      assert Values(items)[..|items| - 1] == Values(items[..|items| - 1]);
    }
  }

  lemma {:induction false} TotalConcat<T>(a: seq<Item<T>>, b: seq<Item<T>>)
    ensures Total(a + b) == Total(a) + Total(b)
  {
    if b == [] {
      assert a + b == a;
    } else {
      TotalConcat(a, b[..|b| - 1]);
      assert (a + b)[..|a + b| - 1] == a + b[..|b| - 1];
    }
  }

  lemma {:induction false} TotalIsMultiset<T>(a: seq<Item<T>>, b: seq<Item<T>>)
    requires multiset(a) == multiset(b)
    ensures Total(a) == Total(b)
  {
    SameLength(a, b);
    if a != [] {
      var k := FindLast(a, b);
      TotalWithout(b, k);
      TotalIsMultiset(a[..|a| - 1], Without(b, k));
    }
  }

  lemma TotalOfOneMore<T>(a: seq<Item<T>>, it: Item<T>)
    ensures Total(a + [it]) == Total(a) + it.value
  {
    assert (a + [it])[..|a|] == a;
  }

  lemma TotalWithout<T>(b: seq<Item<T>>, k: nat)
    requires k < |b|
    ensures Total(b) == Total(Without(b, k)) + b[k].value
  {
    hide Total;
    var before, after := b[..k], b[k + 1..];
    WithoutOne(b, k);
    TotalConcat(before + [b[k]], after);
    TotalOfOneMore(before, b[k]);
    TotalConcat(before, after);
  }

  lemma {:induction false} PositivesAre<T>(items: seq<Item<T>>)
    ensures forall it :: it in Positives(items) ==> it in items && it.value > 0.0
    ensures forall it :: it in items && it.value > 0.0 ==> it in Positives(items)
  {
    if items != [] {
      var front, last := items[..|items| - 1], items[|items| - 1];
      PositivesAre(front);
      assert items == front + [last];
      assert Positives(items) == Positives(front) + (if last.value > 0.0 then [last] else []);
      hide Positives;
    }
  }

  lemma {:induction false} PositivesSorted<T>(items: seq<Item<T>>)
    requires Sorted(items, Descends())
    ensures Sorted(Positives(items), Descends())
  {
    if items != [] {
      var front, last := items[..|items| - 1], items[|items| - 1];
      PositivesSorted(front);
      PositivesAre(front);
      forall it | it in Positives(front) ensures Descends()(it, last) {
        assert it in front;
        var i :| 0 <= i < |front| && front[i] == it;
        assert Descends()(items[i], items[|items| - 1]);
      }
    }
  }

  /** Leaving out what is not positive keeps the total exactly when nothing is negative. */
  lemma {:induction false} PositivesTotal<T>(items: seq<Item<T>>)
    ensures Total(Positives(items)) >= Total(items)
    ensures NonNegative(items) <==> Total(Positives(items)) == Total(items)
  {
    if items != [] {
      var front, last := items[..|items| - 1], items[|items| - 1];
      PositivesTotal(front);
      if last.value > 0.0 {
        TotalOfOneMore(Positives(front), last);
      } else {
        assert Positives(items) == Positives(front);
      }
      assert NonNegative(items) <==> NonNegative(front) && last.value >= 0.0;
    }
  }

  /** The scaled items the loop does not skip. */
  ghost function Kept<T>(scaled: seq<Scaled<T>>): seq<Scaled<T>> {
    if scaled == [] then [] else
      var last := scaled[|scaled| - 1];
      Kept(scaled[..|scaled| - 1]) + (if last.area > 0.0 then [last] else [])
  }

  lemma {:induction false} KeptPrefix<T>(scaled: seq<Scaled<T>>, i: nat)
    requires i <= |scaled|
    ensures Kept(scaled[..i]) <= Kept(scaled)
  {
    if i < |scaled| {
      KeptPrefix(scaled[..|scaled| - 1], i);
      assert scaled[..|scaled| - 1][..i] == scaled[..i];
    } else {
      assert scaled[..i] == scaled;
    }
  }

  /** An item that is not skipped is the next of those kept. */
  lemma KeptNext<T>(scaled: seq<Scaled<T>>, i: nat)
    requires i < |scaled|
    ensures scaled[i].area <= 0.0 ==> Kept(scaled[..i + 1]) == Kept(scaled[..i])
    ensures scaled[i].area > 0.0 ==>
      var n := |Kept(scaled[..i])|;
      |Kept(scaled[..i + 1])| == n + 1 && n < |Kept(scaled)| && Kept(scaled)[n] == scaled[i]
  {
    assert scaled[..i + 1][..i] == scaled[..i];
    KeptPrefix(scaled, i + 1);
  }

  lemma {:induction false} KeptIsPositives<T>(items: seq<Item<T>>, c: real)
    requires c > 0.0
    ensures Kept(ScaleItems(items, c)) == ScaleItems(Positives(items), c)
  {
    if items != [] {
      var front, last := items[..|items| - 1], items[|items| - 1];
      KeptIsPositives(front, c);
      var scaled := ScaleItems(items, c);
      assert scaled[..|scaled| - 1] == ScaleItems(front, c);
      assert scaled[|scaled| - 1].area > 0.0 <==> last.value > 0.0 by { TimesSign(last.value, c); }
      if last.value > 0.0 {
        var kept := Positives(front) + [last];
        assert kept[..|kept| - 1] == Positives(front);
      } else {
        assert Positives(items) == Positives(front);
      }
    }
  }

  lemma {:induction false} PartsOfScaled<T>(items: seq<Item<T>>, c: real)
    ensures ScaledItems(ScaleItems(items, c)) == items
    ensures AreasOf(ScaleItems(items, c)) == Scale(Values(items), c)
  {
    if items != [] {
      var front, last := items[..|items| - 1], items[|items| - 1];
      PartsOfScaled(front, c);
      assert Values(items)[..|items| - 1] == Values(front);
      var e := Scaled(last, Times(last.value, c));
      assert AreasOf(ScaleItems(front, c) + [e]) == AreasOf(ScaleItems(front, c)) + [e.area];
      assert ScaledItems(ScaleItems(front, c) + [e]) == ScaledItems(ScaleItems(front, c)) + [last];
    }
  }

  lemma DescendsIsTotal<T(!new)>()
    ensures TotalPreorder(Descends<T>())
  {}

  function Factor<T>(items: seq<Item<T>>, w: real, h: real): real
    requires Total(items) > 0.0
  {
    w * h / Total(items)
  }

  ghost function DrawnAreas<T>(items: seq<Item<T>>, w: real, h: real): seq<real>
    requires Total(items) > 0.0
  {
    Scale(Values(Drawn(items)), Factor(items, w, h))
  }

  lemma FactorFills<T>(items: seq<Item<T>>, r: Rect)
    requires Total(items) > 0.0 && Proper(r)
    ensures Factor(items, r.w, r.h) > 0.0
    ensures Times(Total(items), Factor(items, r.w, r.h)) == Area(r)
  {
    MulPos(r.w, r.h);
    DivPos(r.w * r.h, Total(items));
    Quotient(r.w * r.h, Total(items));
  }

  lemma DrawnInOrder<T(!new)>(items: seq<Item<T>>)
    ensures Positive(Values(Drawn(items))) && Descending(Values(Drawn(items)))
  {
    var sorted := Sort(items, Descends());
    DescendsIsTotal<T>();
    SortSorts(items, Descends());
    PositivesAre(sorted);
    PositivesSorted(sorted);
    InOrder(Drawn(items));
  }

  lemma InOrder<T>(items: seq<Item<T>>)
    requires Sorted(items, Descends()) && forall it :: it in items ==> it.value > 0.0
    ensures Positive(Values(items)) && Descending(Values(items))
  {
    forall i, j | 0 <= i < j < |items| ensures items[i].value >= items[j].value {
      assert Descends<T>()(items[i], items[j]);
    }
    assert forall i :: 0 <= i < |items| ==> items[i] in items;
  }

  lemma NonNegativePermutes<T>(a: seq<Item<T>>, b: seq<Item<T>>)
    requires multiset(a) == multiset(b) && NonNegative(a)
    ensures NonNegative(b)
  {
    forall i | 0 <= i < |b| ensures b[i].value >= 0.0 {
      assert b[i] in multiset(a);
      assert b[i] in a;
    }
  }

  lemma DrawnTotal<T(!new)>(items: seq<Item<T>>)
    ensures Sum(Values(Drawn(items))) >= Total(items)
    ensures NonNegative(items) <==> Sum(Values(Drawn(items))) == Total(items)
  {
    var sorted := Sort(items, Descends());
    DescendsIsTotal<T>();
    SortSorts(items, Descends());
    if NonNegative(items) { NonNegativePermutes(items, sorted); }
    if NonNegative(sorted) { NonNegativePermutes(sorted, items); }
    TotalIsMultiset(items, sorted);
    PositivesTotal(sorted);
    TotalIsSum(Positives(sorted));
  }

  /** The areas drawn fill the rectangle exactly when no value is negative; with a negative
      one they add up to more than there is room for. */
  lemma DrawnAreasFill<T(!new)>(items: seq<Item<T>>, r: Rect)
    requires Total(items) > 0.0 && Proper(r)
    ensures Sum(DrawnAreas(items, r.w, r.h)) >= Area(r)
    ensures Sum(DrawnAreas(items, r.w, r.h)) == Area(r) <==> NonNegative(items)
  {
    var c, sum := Factor(items, r.w, r.h), Sum(Values(Drawn(items)));
    DrawnTotal(items);
    FactorFills(items, r);
    SumScale(Values(Drawn(items)), c);
    hide Factor, Area, Drawn;
    MulMono(Total(items), sum, c);
    if Total(items) < sum { MulStrict(Total(items), sum, c); }
  }

  /** The areas drawn descend and fill the rectangle. */
  lemma DrawnFits<T(!new)>(items: seq<Item<T>>, r: Rect)
    requires NonNegative(items) && Total(items) > 0.0 && Proper(r)
    ensures Factor(items, r.w, r.h) > 0.0
    ensures Fits(DrawnAreas(items, r.w, r.h), r) && Descending(DrawnAreas(items, r.w, r.h))
  {
    DrawnInOrder(items);
    DrawnTotal(items);
    FactorFills(items, r);
    ScaledFits(Values(Drawn(items)), Factor(items, r.w, r.h), r);
  }

  lemma ScaledFits(values: seq<real>, c: real, r: Rect)
    requires Positive(values) && Descending(values) && c > 0.0 && Proper(r)
    requires Times(Sum(values), c) == Area(r)
    ensures Fits(Scale(values, c), r) && Descending(Scale(values, c))
  {
    ScaleKeeps(values, c);
    SumScale(values, c);
  }

  // ---------- the program ----------

  lemma StripStep(areas: seq<real>, r: Rect, t: real, i: nat)
    requires t > 0.0 && i < |areas|
    ensures Sum(areas[..i + 1]) / t == Sum(areas[..i]) / t + areas[i] / t
    ensures Strip(areas[..i + 1], r, t)
         == Strip(areas[..i], r, t) + [Cell(r, Sum(areas[..i]) / t, areas[i] / t, t)]
  {
    assert areas[..i + 1][..i] == areas[..i];
    DivAdd(Sum(areas[..i]), areas[i], t);
  }

  /** Lays a row along the shorter side of r and returns what is left of r. */
  method LayoutRow<T>(row: seq<Scaled<T>>, r: Rect) returns (tiles: seq<Tile<T>>, rest: Rect)
    requires Row(AreasOf(row), r)
    ensures RectsOf(tiles) == RowRects(AreasOf(row), r)
    ensures ItemsOf(tiles) == ScaledItems(row)
    ensures rest == Rest(AreasOf(row), r)
  {
    hide Sum, Strip;
    ghost var areas := AreasOf(row);
    RowThick(areas, r);
    var rowArea := Sum(AreasOf(row));
    var horizontal := r.w < r.h;
    var side := if horizontal then r.w else r.h;
    var thickness := rowArea / side;
    var offset := 0.0;
    tiles := [];
    assert areas[..0] == [];
    EmptyStrip(r, thickness);
    for i := 0 to |row|
      invariant |tiles| == i
      invariant offset == Sum(areas[..i]) / thickness
      invariant RectsOf(tiles) == Strip(areas[..i], r, thickness)
      invariant ItemsOf(tiles) == ScaledItems(row)[..i]
    {
      var e := row[i];
      var len := e.area / thickness;
      StripStep(areas, r, thickness, i);
      var rect := if horizontal then Rect(r.x + offset, r.y, len, thickness)
                  else Rect(r.x, r.y + offset, thickness, len);
      AppendTiles(tiles, [Tile(rect, e.item)]);
      tiles := tiles + [Tile(rect, e.item)];
      offset := offset + len;
    }
    assert areas[..|row|] == areas;
    rest := if horizontal then r.(y := r.y + thickness, h := r.h - thickness)
            else r.(x := r.x + thickness, w := r.w - thickness);
  }

  lemma EmptyStrip(r: Rect, t: real)
    requires t > 0.0
    ensures Strip([], r, t) == [] && Sum([]) / t == 0.0
  {}

  /** Laying out a row that cannot be bettered is one unfolding of the layout. */
  lemma Commit(areas: seq<real>, d: nat, k: nat, r: Rect, r0: Rect, done: seq<Rect>)
    requires d + k <= |areas| && Fits(areas, r0) && Fits(areas[d..], r) && Descending(areas)
    requires Layout(areas, r0) == done + Layout(areas[d..], r)
    requires Areas(areas[d..], Side(r)) && Accepted(areas[d..], Side(r), k)
    requires d + k == |areas|
          || Worst(areas[d..][..k], Side(r)) < Worst(areas[d..][..k + 1], Side(r))
    ensures Row(areas[d..][..k], r)
    ensures Fits(areas[d + k..], Rest(areas[d..][..k], r))
    ensures Layout(areas, r0)
         == done + RowRects(areas[d..][..k], r) + Layout(areas[d + k..], Rest(areas[d..][..k], r))
  {
    hide Worst, RowRects, Rest, Fits, IsBest, Accepted;
    var left := areas[d..];
    GreedyIsBest(left, Side(r), k);
    BestUnique(left, Side(r), k);
    RestFits(left, k, r);
    assert left[k..] == areas[d + k..];
  }

  lemma AppendTiles<T>(a: seq<Tile<T>>, b: seq<Tile<T>>)
    ensures RectsOf(a + b) == RectsOf(a) + RectsOf(b)
    ensures ItemsOf(a + b) == ItemsOf(a) + ItemsOf(b)
  {}

  /** Where the loop stands: d of the kept items are laid out as they should be, and the
      next ones make up the row. */
  ghost predicate Laid<T>(kept: seq<Scaled<T>>, r0: Rect, tiles: seq<Tile<T>>, row: seq<Scaled<T>>, r: Rect) {
    var areas, d := AreasOf(kept), |tiles|;
    && d + |row| <= |kept| && row == kept[d..d + |row|]
    && ItemsOf(tiles) == ScaledItems(kept)[..d]
    && Fits(areas, r0) && Fits(areas[d..], r) && Descending(areas)
    && Layout(areas, r0) == RectsOf(tiles) + Layout(areas[d..], r)
    && (row != [] ==> Areas(areas[d..], Side(r)) && Accepted(areas[d..], Side(r), |row|))
  }

  /** The row can be extended by the next kept item, while it gets no worse. */
  lemma Extend<T>(kept: seq<Scaled<T>>, r0: Rect, tiles: seq<Tile<T>>, row: seq<Scaled<T>>, r: Rect)
    requires Laid(kept, r0, tiles, row, r) && |tiles| + |row| < |kept|
    ensures Proper(r) && Positive(AreasOf(row + [kept[|tiles| + |row|]]))
    ensures row == [] || Worst(AreasOf(row + [kept[|tiles| + |row|]]), Side(r)) <= Worst(AreasOf(row), Side(r))
            ==> Laid(kept, r0, tiles, row + [kept[|tiles| + |row|]], r)
  {
    hide Layout, Worst;
    var left := AreasOf(kept)[|tiles|..];
    FilledIsProper(left, r);
    assert AreasOf(row + [kept[|tiles| + |row|]]) == left[..|row| + 1];
    assert AreasOf(row) == left[..|row|];
  }

  lemma Close<T>(kept: seq<Scaled<T>>, r0: Rect, tiles: seq<Tile<T>>, row: seq<Scaled<T>>, r: Rect,
                 laid: seq<Tile<T>>)
    requires Laid(kept, r0, tiles, row, r) && row != []
    requires Proper(r) && Row(AreasOf(row), r)
    requires |tiles| + |row| == |kept|
          || (Positive(AreasOf(row + [kept[|tiles| + |row|]]))
              && Worst(AreasOf(row + [kept[|tiles| + |row|]]), Side(r)) > Worst(AreasOf(row), Side(r)))
    requires RectsOf(laid) == RowRects(AreasOf(row), r) && ItemsOf(laid) == ScaledItems(row)
    ensures Laid(kept, r0, tiles + laid, [], Rest(AreasOf(row), r))
  {
    hide Layout, Worst, RowRects, Rest, Fits, Accepted, Areas;
    var areas, d, k := AreasOf(kept), |tiles|, |row|;
    assert AreasOf(row) == areas[d..][..k];
    if d + k < |kept| {
      assert AreasOf(row + [kept[d + k]]) == areas[d..][..k + 1];
    }
    Commit(areas, d, k, r, r0, RectsOf(tiles));
    AppendTiles(tiles, laid);
    assert ScaledItems(kept)[..d + k] == ScaledItems(kept)[..d] + ScaledItems(row);
  }

  /** One turn of the loop, for an item that is not skipped. */
  method Place<T>(ghost kept: seq<Scaled<T>>, ghost r0: Rect,
                  tiles: seq<Tile<T>>, row: seq<Scaled<T>>, r: Rect, e: Scaled<T>)
    returns (tiles': seq<Tile<T>>, row': seq<Scaled<T>>, r': Rect)
    requires Laid(kept, r0, tiles, row, r)
    requires |tiles| + |row| < |kept| && e == kept[|tiles| + |row|]
    ensures Laid(kept, r0, tiles', row', r') && row' != []
    ensures |tiles'| + |row'| == |tiles| + |row| + 1
  {
    hide Layout, Worst, RowRects, Rest;
    Extend(kept, r0, tiles, row, r);
    if row == [] { return tiles, [e], r; }
    if Worst(AreasOf(row + [e]), Side(r)) <= Worst(AreasOf(row), Side(r)) {
      return tiles, row + [e], r;
    }
    var laid, rest := LayoutRow(row, r);
    Close(kept, r0, tiles, row, r, laid);
    Extend(kept, r0, tiles + laid, [], rest);
    return tiles + laid, [e], rest;
  }

  lemma LaidWhole<T>(kept: seq<Scaled<T>>, r0: Rect, tiles: seq<Tile<T>>, row: seq<Scaled<T>>, r: Rect)
    requires Laid(kept, r0, tiles, row, r) && |tiles| + |row| == |kept|
    ensures row == [] ==> ItemsOf(tiles) == ScaledItems(kept) && RectsOf(tiles) == Layout(AreasOf(kept), r0)
    ensures row != [] ==> Row(AreasOf(row), r)
  {
    if row == [] {
      assert ScaledItems(kept)[..|tiles|] == ScaledItems(kept);
    } else {
      FilledIsProper(AreasOf(kept)[|tiles|..], r);
    }
  }

  lemma NothingLaid<T>(kept: seq<Scaled<T>>, r0: Rect)
    requires Fits(AreasOf(kept), r0) && Descending(AreasOf(kept))
    ensures Laid(kept, r0, [], [], r0)
  {
    hide Fits, Layout;
    assert AreasOf(kept)[0..] == AreasOf(kept);
    assert RectsOf<T>([]) == [] && ItemsOf<T>([]) == [];
  }

  /** The greedy pass over items already sorted and scaled. */
  method PlaceAll<T>(scaled: seq<Scaled<T>>, r0: Rect) returns (tiles: seq<Tile<T>>)
    requires Fits(AreasOf(Kept(scaled)), r0) && Descending(AreasOf(Kept(scaled)))
    ensures ItemsOf(tiles) == ScaledItems(Kept(scaled))
    ensures RectsOf(tiles) == Layout(AreasOf(Kept(scaled)), r0)
  {
    hide Layout, Fits, Laid, Worst;
    tiles := [];
    var r := r0;
    var row: seq<Scaled<T>> := [];
    ghost var kept := Kept(scaled);
    NothingLaid(kept, r0);

    for i := 0 to |scaled|
      invariant Laid(kept, r0, tiles, row, r)
      invariant |Kept(scaled[..i])| == |tiles| + |row|
    {
      var e := scaled[i];
      KeptNext(scaled, i);
      if e.area <= 0.0 { continue; }
      tiles, row, r := Place(kept, r0, tiles, row, r, e);
    }
    assert scaled[..|scaled|] == scaled;
    LaidWhole(kept, r0, tiles, row, r);
    if row != [] {
      hide Row;
      var laid, rest := LayoutRow(row, r);
      Close(kept, r0, tiles, row, r, laid);
      tiles := tiles + laid;
      LaidWhole(kept, r0, tiles, [], rest);
    }
  }

  /** What is drawn is a sorted permutation of the items of positive value. */
  lemma DrawnIsSorted<T(!new)>(items: seq<Item<T>>)
    ensures Sorted(Drawn(items), Descends())
    ensures multiset(Drawn(items)) == multiset(Positives(items))
  {
    var sorted := Sort(items, Descends());
    DescendsIsTotal<T>();
    SortSorts(items, Descends());
    PositivesAre(sorted);
    PositivesSorted(sorted);
    forall it ensures multiset(Drawn(items))[it] == multiset(Positives(items))[it] {
      PositivesCount(items, it);
      PositivesCount(sorted, it);
    }
  }

  lemma {:induction false} PositivesCount<T>(items: seq<Item<T>>, it: Item<T>)
    ensures multiset(Positives(items))[it] == if it.value > 0.0 then multiset(items)[it] else 0
  {
    if items != [] {
      PositivesCount(items[..|items| - 1], it);
      assert items == items[..|items| - 1] + [items[|items| - 1]];
    }
  }

  method Squarify<T(!new)>(items: seq<Item<T>>, x: real, y: real, w: real, h: real)
    returns (tiles: seq<Tile<T>>)
    requires NonNegative(items)
    ensures Total(items) <= 0.0 || w <= 0.0 || h <= 0.0 ==> tiles == []
    ensures Total(items) > 0.0 && w > 0.0 && h > 0.0 ==>
      && ItemsOf(tiles) == Drawn(items)
      && Fits(DrawnAreas(items, w, h), Rect(x, y, w, h))
      && RectsOf(tiles) == Layout(DrawnAreas(items, w, h), Rect(x, y, w, h))
      && AllProper(RectsOf(tiles)) && Partitions(RectsOf(tiles), Rect(x, y, w, h))
      && forall i :: 0 <= i < |tiles| ==>
           Area(tiles[i].rect) == Times(tiles[i].item.value, Factor(items, w, h))
    // Row after row, each along the shorter side of what is left; from the corner on.
    ensures InRows(RectsOf(tiles), Rect(x, y, w, h)) && (tiles != [] ==> tiles[0].rect.x == x && tiles[0].rect.y == y)
    ensures forall i, j :: 0 <= i < j < |tiles| ==>
              || tiles[j].rect.x >= tiles[i].rect.x + tiles[i].rect.w
              || tiles[j].rect.y >= tiles[i].rect.y + tiles[i].rect.h
  {
    hide Layout, InRows, Kept, Fits, Descending, ScaledItems, AreasOf, Partitions, AllProper, Area;
    NoRows(Rect(x, y, w, h));
    var total := Total(items);
    if total <= 0.0 || w <= 0.0 || h <= 0.0 { return []; }
    var sorted := Sort(items, Descends());
    var scale := Factor(items, w, h);
    var scaled := ScaleItems(sorted, scale);
    DrawnFits(items, Rect(x, y, w, h));
    KeptIsPositives(sorted, scale);
    PartsOfScaled(Drawn(items), scale);
    hide Factor, Total, Sort, ScaleItems;
    tiles := PlaceAll(scaled, Rect(x, y, w, h));
    TilesAreLaidOut(items, Rect(x, y, w, h), tiles);
    TilesAdvance(items, Rect(x, y, w, h), tiles);
  }

  lemma NoRows(r: Rect)
    ensures InRows([], r)
  {}

  lemma TilesAdvance<T(!new)>(items: seq<Item<T>>, r: Rect, tiles: seq<Tile<T>>)
    requires Total(items) > 0.0 && Fits(DrawnAreas(items, r.w, r.h), r)
    requires RectsOf(tiles) == Layout(DrawnAreas(items, r.w, r.h), r)
    ensures InRows(RectsOf(tiles), r) && (tiles != [] ==> tiles[0].rect.x == r.x && tiles[0].rect.y == r.y)
    ensures forall i, j :: 0 <= i < j < |tiles| ==>
              || tiles[j].rect.x >= tiles[i].rect.x + tiles[i].rect.w
              || tiles[j].rect.y >= tiles[i].rect.y + tiles[i].rect.h
  {
    hide Layout, InRows, Fits;
    LayoutAreas(DrawnAreas(items, r.w, r.h), r);
    LayoutIsInRows(DrawnAreas(items, r.w, r.h), r);
    RowsAdvance(RectsOf(tiles), r);
    forall i, j | 0 <= i < j < |tiles|
      ensures || tiles[j].rect.x >= tiles[i].rect.x + tiles[i].rect.w
              || tiles[j].rect.y >= tiles[i].rect.y + tiles[i].rect.h
    {
      assert After(RectsOf(tiles)[i], RectsOf(tiles)[j]);
    }
  }

  lemma TilesAreLaidOut<T(!new)>(items: seq<Item<T>>, r: Rect, tiles: seq<Tile<T>>)
    requires NonNegative(items) && Total(items) > 0.0 && Proper(r)
    requires Fits(DrawnAreas(items, r.w, r.h), r) && ItemsOf(tiles) == Drawn(items)
    requires RectsOf(tiles) == Layout(DrawnAreas(items, r.w, r.h), r)
    ensures AllProper(RectsOf(tiles)) && Partitions(RectsOf(tiles), r)
    ensures forall i :: 0 <= i < |tiles| ==>
              Area(tiles[i].rect) == Times(tiles[i].item.value, Factor(items, r.w, r.h))
  {
    hide Layout, Partitions, Area;
    var areas := DrawnAreas(items, r.w, r.h);
    LayoutAreas(areas, r);
    LayoutPartitions(areas, r);
    forall i | 0 <= i < |tiles|
      ensures Area(tiles[i].rect) == Times(tiles[i].item.value, Factor(items, r.w, r.h))
    {
      assert tiles[i].rect == RectsOf(tiles)[i] && tiles[i].item == ItemsOf(tiles)[i];
      ScaleAt(Values(Drawn(items)), Factor(items, r.w, r.h), i);
    }
  }
}
