/** What the page draws for one node: pods turned into items, the long tail folded, the
    rectangle split into a packed and a free part, and the packed part squarified. */
module TreemapView {
  import opened Model
  import Permutations
  import opened RealSeq
  import opened Sorting
  import opened Squarified
  import opened Squarify

  datatype Dimension = CPU | Mem | DiskSpace
  datatype Metric = ByRequests | ByLimits | ByActual

  /** What a tile stands for: one pod, or the pods folded into the "+N more" tile. */
  datatype Tag = One(pod: Pod) | More(folded: nat) {
    function Uid(): string { if One? then pod.uid else MORE }
  }

  datatype Split = Split(packed: Option<Rect>, free: Option<Rect>)

  datatype Plan = Plan(tiles: seq<Tile<Tag>>, free: Option<Rect>)

  const MORE := "__more"
  const MAX_TILES: nat := 40
  const MAX_TILES_RICH: nat := 120

  function Key(r: Resources, dim: Dimension): int {
    if dim.CPU? then r.cpuMillis else r.memBytes
  }

  /** What a pod is sized by; live, the least that leaves room for what it has requested and
      for what it is known to use. */
  function PodValue(pod: Pod, dim: Dimension, metric: Metric): (v: int)
    ensures dim.CPU? && metric.ByRequests? ==> v == pod.requests.cpuMillis
    ensures !dim.CPU? && metric.ByRequests? ==> v == pod.requests.memBytes
    ensures dim.CPU? && metric.ByLimits? ==> v == pod.limits.cpuMillis
    ensures !dim.CPU? && metric.ByLimits? ==> v == pod.limits.memBytes
    ensures dim.CPU? && metric.ByActual? ==>
      && v >= pod.requests.cpuMillis && v >= (if pod.hasUsage then pod.usage.cpuMillis else 0)
      && (v == pod.requests.cpuMillis || v == if pod.hasUsage then pod.usage.cpuMillis else 0)
    ensures !dim.CPU? && metric.ByActual? ==>
      && v >= pod.requests.memBytes && v >= (if pod.hasUsage then pod.usage.memBytes else 0)
      && (v == pod.requests.memBytes || v == if pod.hasUsage then pod.usage.memBytes else 0)
  {
    match metric
    case ByRequests => Key(pod.requests, dim)
    case ByLimits => Key(pod.limits, dim)
    case ByActual =>
      var used := if pod.hasUsage then Key(pod.usage, dim) else 0;
      if Key(pod.requests, dim) < used then used else Key(pod.requests, dim)
  }

  function NodeAlloc(node: Node, dim: Dimension): int {
    if dim.CPU? then node.allocatable.cpuMillis else node.allocatable.memBytes
  }

  function PodItems(pods: seq<Pod>, dim: Dimension, metric: Metric): seq<Item<Tag>> {
    if pods == [] then [] else
      var last := pods[|pods| - 1];
      PodItems(pods[..|pods| - 1], dim, metric)
      + [Item(PodValue(last, dim, metric) as real, One(last))]
  }

  /** Every pod with something to show, largest first. */
  function Shown(node: Node, dim: Dimension, metric: Metric): seq<Item<Tag>> {
    Sort(Positives(PodItems(node.pods, dim, metric)), Descends())
  }

  /** Folds the smallest items into one, so that no more than `most` are left. */
  function Fold(items: seq<Item<Tag>>, most: nat): seq<Item<Tag>>
    requires most >= 1
  {
    if |items| <= most then items
    else items[..most - 1] + [Item(Total(items[most - 1..]), More(|items| - (most - 1)))]
  }

  /** Splits r along its longer side. */
  function SplitFree(r: Rect, freeFrac: real): Split {
    if freeFrac <= 0.005 then Split(Some(r), None)
    else if freeFrac >= 0.995 then Split(None, Some(r))
    else if r.w >= r.h then
      var pw := Times(r.w, 1.0 - freeFrac);
      Split(Some(r.(w := pw)), Some(r.(x := r.x + pw, w := r.w - pw)))
    else
      var ph := Times(r.h, 1.0 - freeFrac);
      Split(Some(r.(h := ph)), Some(r.(y := r.y + ph, h := r.h - ph)))
  }

  function FreeFraction(sum: real, total: real): real {
    if total > 0.0 then (total - sum) / total else 1.0
  }

  function MaxTiles(rich: bool): nat { if rich then MAX_TILES_RICH else MAX_TILES }

  // ---------- folding ----------

  lemma {:induction false} SumNonNegative(items: seq<Item<Tag>>)
    requires NonNegative(items)
    ensures Total(items) >= 0.0
    ensures items != [] && items[0].value > 0.0 ==> Total(items) > 0.0
  {
    if items != [] { SumNonNegative(items[..|items| - 1]); }
  }

  lemma ShownFacts(node: Node, dim: Dimension, metric: Metric)
    ensures Sorted(Shown(node, dim, metric), Descends())
    ensures forall it :: it in Shown(node, dim, metric) ==>
              && it.value > 0.0 && it.tag.One? && it.tag.pod in node.pods
              && it.value == PodValue(it.tag.pod, dim, metric) as real
    ensures forall pod :: pod in node.pods && PodValue(pod, dim, metric) > 0 ==>
              Item(PodValue(pod, dim, metric) as real, One(pod)) in Shown(node, dim, metric)
    ensures NonNegative(Shown(node, dim, metric))
    ensures multiset(Shown(node, dim, metric)) == multiset(Positives(PodItems(node.pods, dim, metric)))
  {
    var items := PodItems(node.pods, dim, metric);
    DescendsIsTotal<Tag>();
    SortSorts(Positives(items), Descends());
    Permutations.SameElements(Shown(node, dim, metric), Positives(items));
    PositivesAre(items);
    PodItemsFacts(node.pods, dim, metric);
    hide Shown, Positives, PodItems, PodValue;
    forall it | it in Shown(node, dim, metric)
      ensures it.value > 0.0 && it.tag.One? && it.tag.pod in node.pods
      ensures it.value == PodValue(it.tag.pod, dim, metric) as real
    {
      assert it in Positives(items);
      assert it in items;
      var i :| 0 <= i < |items| && items[i] == it;
    }
    forall pod | pod in node.pods && PodValue(pod, dim, metric) > 0
      ensures Item(PodValue(pod, dim, metric) as real, One(pod)) in Shown(node, dim, metric)
    {
      var i :| 0 <= i < |node.pods| && node.pods[i] == pod;
      assert items[i] in items;
    }
    forall i | 0 <= i < |Shown(node, dim, metric)| ensures Shown(node, dim, metric)[i].value >= 0.0 {
      assert Shown(node, dim, metric)[i] in Shown(node, dim, metric);
    }
  }

  lemma {:induction false} PodItemsFacts(pods: seq<Pod>, dim: Dimension, metric: Metric)
    ensures |PodItems(pods, dim, metric)| == |pods|
    ensures forall i :: 0 <= i < |pods| ==>
              PodItems(pods, dim, metric)[i] == Item(PodValue(pods[i], dim, metric) as real, One(pods[i]))
  {
    if pods != [] { PodItemsFacts(pods[..|pods| - 1], dim, metric); }
  }

  lemma FoldTotal(items: seq<Item<Tag>>, most: nat)
    requires most >= 1 && NonNegative(items)
    ensures |Fold(items, most)| <= most
    ensures NonNegative(Fold(items, most)) && Total(Fold(items, most)) == Total(items)
  {
    if |items| > most {
      var kept, rest := items[..most - 1], items[most - 1..];
      assert items == kept + rest;
      SumNonNegative(rest);
      TotalConcat(kept, rest);
      var more: Item<Tag> := Item(Total(rest), More(|rest|));
      TotalConcat(kept, [more]);
      assert Total([more]) == more.value by { assert [more][..0] == []; }
    }
  }

  /** Folding loses no value and no pod: the head is kept, the rest is counted and summed
      in one tile, and no folded pod was larger than a pod that kept its own tile. */
  lemma FoldKeeps(items: seq<Item<Tag>>, most: nat) returns (rest: seq<Item<Tag>>)
    requires most >= 1 && NonNegative(items) && Sorted(items, Descends())
    ensures |Fold(items, most)| <= most && Total(Fold(items, most)) == Total(items)
    ensures |items| <= most ==> Fold(items, most) == items && rest == []
    ensures |items| > most ==>
      && Fold(items, most) == items[..most - 1] + [Item(Total(rest), More(|rest|))]
      && items == items[..most - 1] + rest
      && forall i, j :: 0 <= i < most - 1 && 0 <= j < |rest| ==> items[i].value >= rest[j].value
  {
    FoldTotal(items, most);
    rest := if |items| <= most then [] else items[most - 1..];
    forall i, j | |items| > most && 0 <= i < most - 1 && 0 <= j < |rest|
      ensures items[i].value >= rest[j].value
    {
      assert Descends<Tag>()(items[i], items[most - 1 + j]);
    }
  }

  // ---------- the free share ----------

  lemma ShareOfFraction(f: real, sum: real, total: real)
    requires total > 0.0 && Times(total, f) == total - sum
    ensures Times(1.0 - f, total) == sum
    ensures f <= 0.005 <==> sum >= 0.995 * total
    ensures f >= 0.995 <==> sum <= 0.005 * total
    ensures f < 0.995 ==> sum > 0.0
  {
    assert (1.0 - f) * total == total - total * f;
    ShareAgainst(1.0 - f, 0.995, total);
    ShareAgainst(1.0 - f, 0.005, total);
  }

  lemma ShareAgainst(share: real, threshold: real, total: real)
    requires total > 0.0
    ensures share >= threshold <==> Times(share, total) >= threshold * total
    ensures share <= threshold <==> Times(share, total) <= threshold * total
  {
    if share < threshold { MulStrict(share, threshold, total); }
    if share > threshold { MulStrict(threshold, share, total); }
  }

  lemma FreeFractionMeans(sum: real, total: real)
    requires total > 0.0 && 0.0 <= sum <= total
    ensures Times(1.0 - FreeFraction(sum, total), total) == sum
    ensures FreeFraction(sum, total) <= 0.005 <==> sum >= 0.995 * total
    ensures FreeFraction(sum, total) >= 0.995 <==> sum <= 0.005 * total
    ensures FreeFraction(sum, total) < 0.995 ==> sum > 0.0
  {
    Quotient(total - sum, total);
    ShareOfFraction(FreeFraction(sum, total), sum, total);
  }

  /** A part of r across its longer side, at the far end of that. */
  ghost predicate AtFarEnd(free: Rect, r: Rect) {
    if r.w >= r.h then free.y == r.y && free.h == r.h && free.x + free.w == r.x + r.w
    else free.x == r.x && free.w == r.w && free.y + free.h == r.y + r.h
  }

  lemma SplitIsProper(r: Rect, f: real)
    requires Proper(r) && 0.005 < f < 0.995
    ensures SplitFree(r, f).packed.Some? && SplitFree(r, f).free.Some?
    ensures Proper(SplitFree(r, f).packed.value) && Proper(SplitFree(r, f).free.value)
    ensures Area(SplitFree(r, f).packed.value) == Times(1.0 - f, Area(r))
    // The packed part lies at the corner of r, the free one at the far end of the longer side.
    ensures SplitFree(r, f).packed.value.x == r.x && SplitFree(r, f).packed.value.y == r.y
    ensures r.w >= r.h ==> SplitFree(r, f).packed.value.h == r.h
    ensures r.w < r.h ==> SplitFree(r, f).packed.value.w == r.w
    ensures AtFarEnd(SplitFree(r, f).free.value, r)
  {
    if r.w >= r.h { SplitSide(r.w, r.h, f); } else { SplitSide(r.h, r.w, f); }
  }

  /** A split in two proper parts partitions r, and the packed part has its share. */
  lemma SplitPartitions(r: Rect, f: real)
    requires Proper(r) && 0.005 < f < 0.995
    ensures SplitFree(r, f).packed.Some? && SplitFree(r, f).free.Some?
    ensures forall px, py ::
      (if Contains(SplitFree(r, f).packed.value, px, py) then 1 else 0)
      + (if Contains(SplitFree(r, f).free.value, px, py) then 1 else 0)
      == if Contains(r, px, py) then 1 else 0
  {
    hide Times;
    SplitIsProper(r, f);
  }

  lemma SplitSide(side: real, other: real, f: real)
    requires side > 0.0 && 0.0 < f < 1.0
    ensures 0.0 < Times(side, 1.0 - f) < side
    ensures Times(side, 1.0 - f) * other == Times(1.0 - f, side * other)
    ensures other * Times(side, 1.0 - f) == Times(1.0 - f, other * side)
  {
    MulPos(side, 1.0 - f);
    MulStrict(1.0 - f, 1.0, side);
  }

  // ---------- the plan ----------

  /** The area a value would have at the node's own scale. */
  function Share(value: real, r: Rect): real { Times(value, Area(r)) }

  ghost predicate Exactly(t: Tile<Tag>, total: real, r: Rect) {
    Times(Area(t.rect), total) == Share(t.item.value, r)
  }

  /** Exact among the tiles, and too large for the node by a factor of at most 1/0.995. */
  ghost predicate Nearly(t: Tile<Tag>, sum: real, total: real, r: Rect) {
    && Times(Area(t.rect), sum) == Share(t.item.value, r)
    && Share(t.item.value, r) <= Times(Area(t.rect), total)
    && 0.995 * Times(Area(t.rect), total) <= Share(t.item.value, r)
  }

  /** The promise of the picture, for the items drawn and the node's total. */
  ghost predicate ToScale(plan: Plan, items: seq<Item<Tag>>, total: real, r: Rect) {
    var sum := Total(items);
    if total <= 0.0 || sum <= 0.005 * total then
      // Next to nothing is used: no tile, all free.
      plan == Plan([], Some(r))
    else
      && multiset(ItemsOf(plan.tiles)) == multiset(items)
      && AllProper(RectsOf(plan.tiles))
      && (plan.tiles != [] ==> plan.tiles[0].rect.x == r.x && plan.tiles[0].rect.y == r.y)
      && if sum >= 0.995 * total then
           // Next to nothing is free: the tiles share all of r, so each is a little too large.
           && plan.free == None && Partitions(RectsOf(plan.tiles), r)
           && forall i :: 0 <= i < |plan.tiles| ==> Nearly(plan.tiles[i], sum, total, r)
         else
           // Every tile has its exact share, and tiles and free block partition r.
           && plan.free.Some? && Proper(plan.free.value) && AtFarEnd(plan.free.value, r)
           && Partitions(RectsOf(plan.tiles) + [plan.free.value], r)
           && forall i :: 0 <= i < |plan.tiles| ==> Exactly(plan.tiles[i], total, r)
  }

  /** v * (p / s) * s == v * p */
  lemma ScaledShare(v: real, p: real, s: real)
    requires s != 0.0
    ensures Times(Times(v, p / s), s) == Times(v, p)
  {
    Quotient(p, s);
    assert v * (p / s) * s == v * (s * (p / s));
  }

  /** A tile cut from the packed part of a true split has its exact share of r. */
  lemma ExactShare(a: real, v: real, p: real, area: real, f: real, sum: real, total: real)
    requires sum > 0.0 && total > 0.0 && a == Times(v, p / sum)
    requires p == Times(1.0 - f, area) && Times(1.0 - f, total) == sum
    ensures Times(a, total) == Times(v, area)
  {
    ScaledShare(v, p, sum);
    var g := 1.0 - f;
    assert a * sum == v * (g * area);
    assert a * (g * total) == v * (g * area);
    assert g * (a * total - v * area) == 0.0 by {
      assert g * (a * total) == a * (g * total);
      assert g * (v * area) == v * (g * area);
    }
    assert g != 0.0;
  }

  lemma NearlyShare(a: real, v: real, area: real, sum: real, total: real)
    requires sum > 0.0 && 0.995 * total <= sum <= total && a > 0.0
    requires a == Times(v, area / sum)
    ensures Times(a, sum) == Times(v, area)
    ensures Times(v, area) <= Times(a, total)
    ensures 0.995 * Times(a, total) <= Times(v, area)
  {
    ScaledShare(v, area, sum);
    MulMono(sum, total, a);
    MulMono(0.995 * total, sum, a);
    assert 0.995 * total * a == 0.995 * (a * total);
  }

  lemma {:induction false} PositivesAll(items: seq<Item<Tag>>)
    requires forall i :: 0 <= i < |items| ==> items[i].value > 0.0
    ensures Positives(items) == items
  {
    if items != [] {
      PositivesAll(items[..|items| - 1]);
      assert items == items[..|items| - 1] + [items[|items| - 1]];
    }
  }

  /** What the page draws: the node's items, folded. */
  function Picked(node: Node, dim: Dimension, metric: Metric, rich: bool): seq<Item<Tag>> {
    Fold(Shown(node, dim, metric), MaxTiles(rich))
  }

  lemma FoldPositive(items: seq<Item<Tag>>, most: nat)
    requires most >= 1 && forall i :: 0 <= i < |items| ==> items[i].value > 0.0
    ensures forall i :: 0 <= i < |Fold(items, most)| ==> Fold(items, most)[i].value > 0.0
  {
    if |items| > most { SumNonNegative(items[most - 1..]); }
  }

  lemma PickedFacts(node: Node, dim: Dimension, metric: Metric, rich: bool)
    ensures |Picked(node, dim, metric, rich)| <= if rich then 120 else 40
    ensures NonNegative(Picked(node, dim, metric, rich))
    ensures Positives(Picked(node, dim, metric, rich)) == Picked(node, dim, metric, rich)
    ensures Total(Picked(node, dim, metric, rich)) == Total(Shown(node, dim, metric)) >= 0.0
  {
    hide Shown, Total;
    var shown, most := Shown(node, dim, metric), MaxTiles(rich);
    ShownFacts(node, dim, metric);
    FoldTotal(shown, most);
    SumNonNegative(shown);
    assert forall k :: 0 <= k < |shown| ==> shown[k] in shown;
    FoldPositive(shown, most);
    PositivesAll(Fold(shown, most));
  }

  lemma FullPlan(plan: Plan, items: seq<Item<Tag>>, total: real, r: Rect)
    requires NonNegative(items) && Positives(items) == items && Proper(r) && 0.0 < Total(items) <= total
    requires FreeFraction(Total(items), total) <= 0.005
    requires plan.free == None && Drawing(plan.tiles, items, r)
    ensures ToScale(plan, items, total, r)
  {
    hide Factor, Area, Times, Partitions, Exactly, Nearly, Positives;
    FreeFractionMeans(Total(items), total);
    DrawnIsSorted(items);
    hide FreeFraction;
    forall i | 0 <= i < |plan.tiles| ensures Nearly(plan.tiles[i], Total(items), total, r) {
      NearlyTile(plan.tiles[i], items, total, r);
    }
  }

  lemma SplitPlan(plan: Plan, items: seq<Item<Tag>>, total: real, r: Rect)
    requires NonNegative(items) && Positives(items) == items && Proper(r) && 0.0 < Total(items) <= total
    requires 0.005 < FreeFraction(Total(items), total) < 0.995
    requires var split := SplitFree(r, FreeFraction(Total(items), total));
      split.packed.Some? && plan.free == split.free && Drawing(plan.tiles, items, split.packed.value)
    ensures ToScale(plan, items, total, r)
  {
    hide Factor, Area, Times, Partitions, Exactly, Nearly, Positives;
    var f := FreeFraction(Total(items), total);
    var packed := SplitFree(r, f).packed.value;
    FreeFractionMeans(Total(items), total);
    SplitIsProper(r, f);
    SplitPartitions(r, f);
    DrawnIsSorted(items);
    AddFree(RectsOf(plan.tiles), packed, plan.free.value, r);
    hide FreeFraction, SplitFree;
    forall i | 0 <= i < |plan.tiles| ensures Exactly(plan.tiles[i], total, r) {
      ExactTile(plan.tiles[i], items, packed, f, total, r);
    }
  }

  /** The three ways a plan can come out are all to scale. */
  lemma PlanIsToScale(plan: Plan, items: seq<Item<Tag>>, total: real, r: Rect)
    requires NonNegative(items) && Positives(items) == items && Proper(r) && Total(items) <= total
    requires var split := SplitFree(r, FreeFraction(Total(items), total));
      && plan.free == split.free
      && (split.packed.None? || Total(items) <= 0.0 ==> plan.tiles == [])
      && (split.packed.Some? && Total(items) > 0.0 && Proper(split.packed.value) ==>
          Drawing(plan.tiles, items, split.packed.value))
    ensures ToScale(plan, items, total, r)
  {
    var f := FreeFraction(Total(items), total);
    SumNonNegative(items);
    if total > 0.0 { FreeFractionMeans(Total(items), total); }
    hide Drawing, Positives, Total;
    if f >= 0.995 {
      EmptyPlan(plan, items, total, r);
    } else {
      hide ToScale, FreeFraction;
      if f > 0.005 {
        SplitIsProper(r, f);
        SplitPlan(plan, items, total, r);
      } else {
        FullPlan(plan, items, total, r);
      }
    }
  }

  lemma EmptyPlan(plan: Plan, items: seq<Item<Tag>>, total: real, r: Rect)
    requires total <= 0.0 || Total(items) <= 0.005 * total
    requires plan.tiles == [] && plan.free == Some(r)
    ensures ToScale(plan, items, total, r)
  {}

  /** What squarifying the items in r gives. */
  ghost predicate Drawing(tiles: seq<Tile<Tag>>, items: seq<Item<Tag>>, r: Rect)
    requires Total(items) > 0.0
  {
    && ItemsOf(tiles) == Drawn(items)
    && AllProper(RectsOf(tiles)) && Partitions(RectsOf(tiles), r)
    && (tiles != [] ==> tiles[0].rect.x == r.x && tiles[0].rect.y == r.y)
    && forall i :: 0 <= i < |tiles| ==>
         Proper(tiles[i].rect) && Area(tiles[i].rect) == Times(tiles[i].item.value, Factor(items, r.w, r.h))
  }

  lemma FactorOfArea(items: seq<Item<Tag>>, r: Rect)
    requires Total(items) > 0.0
    ensures Factor(items, r.w, r.h) == Area(r) / Total(items)
  {}

  lemma AreaPositive(r: Rect)
    requires Proper(r)
    ensures Area(r) > 0.0
  {
    MulPos(r.w, r.h);
  }

  lemma NearlyTile(t: Tile<Tag>, items: seq<Item<Tag>>, total: real, r: Rect)
    requires Total(items) > 0.0 && 0.995 * total <= Total(items) <= total
    requires Proper(t.rect) && Area(t.rect) == Times(t.item.value, Factor(items, r.w, r.h))
    ensures Nearly(t, Total(items), total, r)
  {
    FactorOfArea(items, r);
    AreaPositive(t.rect);
    hide Area, Factor, Times;
    NearlyShare(Area(t.rect), t.item.value, Area(r), Total(items), total);
  }

  lemma ExactTile(t: Tile<Tag>, items: seq<Item<Tag>>, packed: Rect, f: real, total: real, r: Rect)
    requires Total(items) > 0.0 && total > 0.0
    requires Area(packed) == Times(1.0 - f, Area(r)) && Times(1.0 - f, total) == Total(items)
    requires Area(t.rect) == Times(t.item.value, Factor(items, packed.w, packed.h))
    ensures Exactly(t, total, r)
  {
    FactorOfArea(items, packed);
    hide Area, Factor, Times;
    ExactShare(Area(t.rect), t.item.value, Area(packed), Area(r), f, Total(items), total);
  }

  lemma AddFree(rects: seq<Rect>, packed: Rect, free: Rect, r: Rect)
    requires Partitions(rects, packed)
    requires forall px, py ::
      (if Contains(packed, px, py) then 1 else 0) + (if Contains(free, px, py) then 1 else 0)
      == if Contains(r, px, py) then 1 else 0
    ensures Partitions(rects + [free], r)
  {
    forall px, py ensures Cover(rects + [free], px, py) == if Contains(r, px, py) then 1 else 0 {
      assert (rects + [free])[..|rects|] == rects;
    }
  }

  method Draw(items: seq<Item<Tag>>, r: Rect) returns (tiles: seq<Tile<Tag>>)
    requires NonNegative(items) && Total(items) > 0.0
    ensures Proper(r) ==> Drawing(tiles, items, r)
  {
    hide Partitions, Times, Factor, Area, Layout, Fits, InRows;
    tiles := Squarify.Squarify(items, r.x, r.y, r.w, r.h);
    if Proper(r) {
      forall i | 0 <= i < |tiles|
        ensures Proper(tiles[i].rect) && Area(tiles[i].rect) == Times(tiles[i].item.value, Factor(items, r.w, r.h))
      {
        assert Proper(RectsOf(tiles)[i]);
      }
    }
  }

  /** The layout of one node's picture. */
  method PlanTreemap(node: Node, dim: Dimension, metric: Metric, w: real, h: real, rich: bool)
    returns (plan: Plan)
    requires w > 0.0 && h > 0.0
    ensures var items := Picked(node, dim, metric, rich);
      var alloc := if dim.CPU? then node.allocatable.cpuMillis else node.allocatable.memBytes;
      ToScale(plan, items, Max(alloc as real, Total(items)), Rect(0.0, 0.0, w, h))
    ensures |plan.tiles| <= if rich then 120 else 40
  {
    hide ToScale, Drawing, SplitFree, FreeFraction;
    var alloc := NodeAlloc(node, dim) as real;
    var items := Shown(node, dim, metric);
    var maxTiles := MaxTiles(rich);
    PickedFacts(node, dim, metric, rich);
    if |items| > maxTiles {
      var rest := items[maxTiles - 1..];
      items := items[..maxTiles - 1] + [Item(Total(rest), More(|rest|))];
    }
    var sum := Total(items);
    var total := Max(alloc, sum);
    var freeFrac := FreeFraction(sum, total);
    var split := SplitFree(Rect(0.0, 0.0, w, h), freeFrac);
    var tiles: seq<Tile<Tag>> := [];
    if split.packed.Some? && sum > 0.0 {
      tiles := Draw(items, split.packed.value);
    }
    plan := Plan(tiles, split.free);
    PlanIsToScale(plan, items, total, Rect(0.0, 0.0, w, h));
    AtMostAsMany(plan, items, total, Rect(0.0, 0.0, w, h));
  }

  lemma AtMostAsMany(plan: Plan, items: seq<Item<Tag>>, total: real, r: Rect)
    requires ToScale(plan, items, total, r)
    ensures |plan.tiles| <= |items|
  {
    hide Partitions, Exactly, Nearly;
    if plan.tiles != [] { Permutations.SameLength(ItemsOf(plan.tiles), items); }
  }

  /** The items drawn: all that are shown if those are at most 40, or 120 on the large view;
      else the 39, or 119, largest, and one for all the others, of their sum and number. */
  lemma PickedExactly(node: Node, dim: Dimension, metric: Metric, rich: bool)
    ensures var shown, items := Shown(node, dim, metric), Picked(node, dim, metric, rich);
      var most: nat := if rich then 120 else 40;
      if |shown| <= most then items == shown
      else
        && |items| == most && items[..most - 1] == shown[..most - 1]
        && items[most - 1].tag == More(|shown| - (most - 1))
        && items[most - 1].value == Total(shown[most - 1..])
        && forall i, j :: 0 <= i < most - 1 <= j < |shown| ==> shown[i].value >= shown[j].value
  {
    ShownFacts(node, dim, metric);
    LargestFirst(Shown(node, dim, metric));
    hide Shown, Total, Sorted;
  }

  lemma LargestFirst(items: seq<Item<Tag>>)
    requires Sorted(items, Descends())
    ensures forall i, j :: 0 <= i < j < |items| ==> items[i].value >= items[j].value
  {
    forall i, j | 0 <= i < j < |items| ensures items[i].value >= items[j].value {
      assert Descends<Tag>()(items[i], items[j]);
    }
  }

  // ---------- the element map ----------

  datatype Shape = TileShape(rect: Rect) | FreeShape(rect': Option<Rect>)

  const FREE := "__free"

  ghost function TileShapes(tiles: seq<Tile<Tag>>): map<string, Shape> {
    if tiles == [] then map[] else
      var last := tiles[|tiles| - 1];
      TileShapes(tiles[..|tiles| - 1])[last.item.tag.Uid() := TileShape(last.rect)]
  }

  /** What is on screen for a plan: one element a tile, keyed by pod, and the free block. */
  ghost function Screen(plan: Plan): map<string, Shape> {
    TileShapes(plan.tiles)[FREE := FreeShape(plan.free)]
  }

  /** Elements with distinct keys do not displace one another. */
  lemma {:induction false} TileShapesKeepAll(tiles: seq<Tile<Tag>>)
    requires forall i, j :: 0 <= i < j < |tiles| ==> tiles[i].item.tag.Uid() != tiles[j].item.tag.Uid()
    ensures forall i :: 0 <= i < |tiles| ==>
              && tiles[i].item.tag.Uid() in TileShapes(tiles)
              && TileShapes(tiles)[tiles[i].item.tag.Uid()] == TileShape(tiles[i].rect)
    ensures |TileShapes(tiles)| == |tiles|
  {
    if tiles != [] {
      var front, uid := tiles[..|tiles| - 1], tiles[|tiles| - 1].item.tag.Uid();
      TileShapesKeepAll(front);
      NoShape(front, uid);
    }
  }

  lemma {:induction false} NoShape(tiles: seq<Tile<Tag>>, uid: string)
    requires forall i :: 0 <= i < |tiles| ==> tiles[i].item.tag.Uid() != uid
    ensures uid !in TileShapes(tiles)
  {
    if tiles != [] { NoShape(tiles[..|tiles| - 1], uid); }
  }

  /** No two of the items are drawn by the same element. */
  ghost predicate Unalike(items: seq<Item<Tag>>) {
    forall i, j :: 0 <= i < j < |items| ==> items[i].tag.Uid() != items[j].tag.Uid()
  }

  /** The pods have UIDs of their own, none of them a key of the page's. */
  ghost predicate ProperUids(pods: seq<Pod>) {
    && (forall i, j :: 0 <= i < j < |pods| ==> pods[i].uid != pods[j].uid)
    && (forall i :: 0 <= i < |pods| ==> pods[i].uid != MORE && pods[i].uid != FREE)
  }

  ghost predicate OfPods(items: seq<Item<Tag>>, pods: seq<Pod>) {
    forall i :: 0 <= i < |items| ==> items[i].tag.One? && items[i].tag.pod in pods
  }

  lemma {:induction false} PositivesUnalike(pods: seq<Pod>, dim: Dimension, metric: Metric)
    requires ProperUids(pods)
    ensures Unalike(Positives(PodItems(pods, dim, metric)))
    ensures OfPods(Positives(PodItems(pods, dim, metric)), pods)
  {
    if pods != [] {
      var front, last := pods[..|pods| - 1], pods[|pods| - 1];
      PositivesUnalike(front, dim, metric);
      assert pods == front + [last];
      var it: Item<Tag> := Item(PodValue(last, dim, metric) as real, One(last));
      var items, before := PodItems(pods, dim, metric), Positives(PodItems(front, dim, metric));
      assert items[..|items| - 1] == PodItems(front, dim, metric);
      assert Positives(items) == if it.value > 0.0 then before + [it] else before;
      hide Positives, PodItems;
      UnalikeGrows(before, it, front, last);
    }
  }

  lemma UnalikeGrows(items: seq<Item<Tag>>, it: Item<Tag>, front: seq<Pod>, last: Pod)
    requires Unalike(items) && OfPods(items, front) && it.tag == One(last)
    requires forall pod :: pod in front ==> pod.uid != last.uid
    ensures Unalike(items + [it]) && OfPods(items + [it], front + [last]) && OfPods(items, front + [last])
  {}

  lemma Once(items: seq<Item<Tag>>, i: nat)
    requires Unalike(items) && i < |items|
    ensures multiset(items)[items[i]] == 1
  {
    assert items == items[..i] + [items[i]] + items[i + 1..];
    assert items[i] !in items[..i] && items[i] !in items[i + 1..];
  }

  lemma Twice(items: seq<Item<Tag>>, i: nat, j: nat)
    requires i < j < |items| && items[i] == items[j]
    ensures multiset(items)[items[i]] >= 2
  {
    assert items == items[..j] + items[j..];
    assert items[i] in multiset(items[..j]) && items[j] in multiset(items[j..]) by {
      assert items[..j][i] == items[i] && items[j..][0] == items[j];
    }
  }

  lemma UnalikePermutes(a: seq<Item<Tag>>, b: seq<Item<Tag>>)
    requires multiset(a) == multiset(b) && Unalike(a)
    ensures Unalike(b)
  {
    forall i, j | 0 <= i < j < |b| ensures b[i].tag.Uid() != b[j].tag.Uid() {
      assert b[i] in multiset(a) && b[j] in multiset(a);
      var p :| 0 <= p < |a| && a[p] == b[i];
      var q :| 0 <= q < |a| && a[q] == b[j];
      if b[i] == b[j] {
        Once(a, p);
        Twice(b, i, j);
      }
    }
  }

  lemma ShownUnalike(node: Node, dim: Dimension, metric: Metric)
    requires ProperUids(node.pods)
    ensures Unalike(Shown(node, dim, metric)) && OfPods(Shown(node, dim, metric), node.pods)
  {
    ShownFacts(node, dim, metric);
    PositivesUnalike(node.pods, dim, metric);
    hide Shown;
    UnalikePermutes(Positives(PodItems(node.pods, dim, metric)), Shown(node, dim, metric));
    assert forall i :: 0 <= i < |Shown(node, dim, metric)| ==> Shown(node, dim, metric)[i] in Shown(node, dim, metric);
  }

  /** Nor does folding make two items alike, or an item like the free block. */
  lemma PickedUnalike(node: Node, dim: Dimension, metric: Metric, rich: bool)
    requires ProperUids(node.pods)
    ensures Unalike(Picked(node, dim, metric, rich))
    ensures forall it :: it in Picked(node, dim, metric, rich) ==> it.tag.Uid() != FREE
  {
    ShownUnalike(node, dim, metric);
    hide Shown, Total;
    var shown := Shown(node, dim, metric);
    forall i | 0 <= i < |shown| ensures shown[i].tag.Uid() != MORE && shown[i].tag.Uid() != FREE {
      assert shown[i].tag.pod in node.pods;
    }
  }

  /** Every tile of the plan is on screen where the plan has it, beside the free block, and
      nothing else is. */
  ghost predicate ShowsWhole(screen: map<string, Shape>, plan: Plan) {
    && |screen| == |plan.tiles| + 1
    && FREE in screen && screen[FREE] == FreeShape(plan.free)
    && forall i :: 0 <= i < |plan.tiles| ==>
         var uid := plan.tiles[i].item.tag.Uid();
         uid != FREE && uid in screen && screen[uid] == TileShape(plan.tiles[i].rect)
  }

  lemma ScreenShowsWhole(plan: Plan, items: seq<Item<Tag>>)
    requires plan.tiles == [] || multiset(ItemsOf(plan.tiles)) == multiset(items)
    requires Unalike(items) && forall it :: it in items ==> it.tag.Uid() != FREE
    ensures ShowsWhole(Screen(plan), plan)
  {
    var tiles := plan.tiles;
    if tiles != [] {
      UnalikePermutes(items, ItemsOf(tiles));
      forall i | 0 <= i < |tiles| ensures tiles[i].item.tag.Uid() != FREE {
        assert ItemsOf(tiles)[i] in multiset(items);
      }
      assert forall i, j :: 0 <= i < j < |tiles| ==> ItemsOf(tiles)[i].tag.Uid() != ItemsOf(tiles)[j].tag.Uid();
    }
    TileShapesKeepAll(tiles);
    NoShape(tiles, FREE);
  }

  /** A picture to scale of a node whose pods have proper UIDs is shown whole. */
  lemma PictureIsWhole(plan: Plan, node: Node, dim: Dimension, metric: Metric, rich: bool, total: real, r: Rect)
    requires ToScale(plan, Picked(node, dim, metric, rich), total, r) && ProperUids(node.pods)
    ensures ShowsWhole(Screen(plan), plan)
  {
    PickedUnalike(node, dim, metric, rich);
    hide Picked, Unalike, Screen, ShowsWhole, Partitions, Exactly, Nearly, FreeFraction;
    ScreenShowsWhole(plan, Picked(node, dim, metric, rich));
  }

  class TreemapSvg {
    var tiles: map<string, Shape>

    constructor ()
      ensures tiles == map[]
    {
      tiles := map[];
    }

    /** Redraws the element in place. Whatever it showed before, it then shows the plan. */
    method Render(node: Node, dim: Dimension, metric: Metric, w: real, h: real, rich: bool)
      returns (plan: Plan)
      requires w > 0.0 && h > 0.0
      modifies this
      ensures var items := Picked(node, dim, metric, rich);
        var alloc := if dim.CPU? then node.allocatable.cpuMillis else node.allocatable.memBytes;
        ToScale(plan, items, Max(alloc as real, Total(items)), Rect(0.0, 0.0, w, h))
      ensures tiles == Screen(plan)
      ensures ProperUids(node.pods) ==> ShowsWhole(tiles, plan)
    {
      hide ToScale, Picked, ShowsWhole, ProperUids;
      plan := PlanTreemap(node, dim, metric, w, h, rich);
      if ProperUids(node.pods) {
        var total := Max(NodeAlloc(node, dim) as real, Total(Picked(node, dim, metric, rich)));
        PictureIsWhole(plan, node, dim, metric, rich, total, Rect(0.0, 0.0, w, h));
      }
      Redraw(plan);
    }

    /** Keeps, moves or makes an element for each tile, and removes all others. */
    method Redraw(plan: Plan)
      modifies this
      ensures tiles == Screen(plan)
    {
      var wanted: set<string> := {};
      for i := 0 to |plan.tiles|
        invariant wanted == TileShapes(plan.tiles[..i]).Keys
        invariant forall uid :: uid in wanted ==> uid in tiles && tiles[uid] == TileShapes(plan.tiles[..i])[uid]
      {
        var t := plan.tiles[i];
        assert plan.tiles[..i + 1][..i] == plan.tiles[..i];
        wanted := wanted + {t.item.tag.Uid()};
        tiles := tiles[t.item.tag.Uid() := TileShape(t.rect)];
      }
      assert plan.tiles[..|plan.tiles|] == plan.tiles;
      wanted := wanted + {FREE};
      tiles := tiles[FREE := FreeShape(plan.free)];
      tiles := map uid | uid in tiles && uid in wanted :: tiles[uid];
    }
  }
}
