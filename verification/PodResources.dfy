/** A pod's effective requests and limits, and how they relate to the scheduler's rule for
    ordered init containers, KEP-753, section "Resources calculation for scheduling and
    pod admission". */
module PodResources {
  import opened Model
  import opened Permutations

  datatype ResourceList = ResourceList(cpu: Option<int>, memory: Option<int>)
  /** `restartable` is a restart policy that is set and is Always: a sidecar, when it is
      an init container. */
  datatype Container = Container(requests: ResourceList, limits: ResourceList, restartable: bool)
  datatype PodSpec = PodSpec(containers: seq<Container>, initContainers: seq<Container>)

  function CpuMillis(rl: ResourceList): int { if rl.cpu.Some? then rl.cpu.value else 0 }
  function MemBytes(rl: ResourceList): int { if rl.memory.Some? then rl.memory.value else 0 }

  function Max(a: int, b: int): int { if a < b then b else a }

  /** One resource of one container. */
  type Measure = Container -> int

  const REQ_CPU: Measure := (c: Container) => CpuMillis(c.requests)
  const REQ_MEM: Measure := (c: Container) => MemBytes(c.requests)
  const LIM_CPU: Measure := (c: Container) => CpuMillis(c.limits)
  const LIM_MEM: Measure := (c: Container) => MemBytes(c.limits)

  function Sum(cs: seq<Container>, f: Measure): int {
    if cs == [] then 0 else Sum(cs[..|cs| - 1], f) + f(cs[|cs| - 1])
  }

  function SidecarSum(cs: seq<Container>, f: Measure): int {
    if cs == [] then 0 else
      SidecarSum(cs[..|cs| - 1], f) + (if cs[|cs| - 1].restartable then f(cs[|cs| - 1]) else 0)
  }

  function LargestPlain(cs: seq<Container>, f: Measure): int {
    if cs == [] then 0 else
      var rest := LargestPlain(cs[..|cs| - 1], f);
      if cs[|cs| - 1].restartable then rest else Max(rest, f(cs[|cs| - 1]))
  }

  /** What the program computes, one resource at a time. */
  function Effective(spec: PodSpec, f: Measure): int {
    var side := SidecarSum(spec.initContainers, f);
    Max(Sum(spec.containers, f) + side, LargestPlain(spec.initContainers, f) + side)
  }

  method EffectiveResources(spec: PodSpec) returns (requests: Resources, limits: Resources)
    ensures requests == Resources(Effective(spec, REQ_CPU), Effective(spec, REQ_MEM))
    ensures limits == Resources(Effective(spec, LIM_CPU), Effective(spec, LIM_MEM))
    ensures |spec.containers| == 1 && spec.initContainers == [] ==>
      var c := spec.containers[0];
      && requests.cpuMillis == (if c.requests.cpu.Some? && c.requests.cpu.value > 0 then c.requests.cpu.value else 0)
      && requests.memBytes
         == (if c.requests.memory.Some? && c.requests.memory.value > 0 then c.requests.memory.value else 0)
      && limits.cpuMillis == (if c.limits.cpu.Some? && c.limits.cpu.value > 0 then c.limits.cpu.value else 0)
      && limits.memBytes == (if c.limits.memory.Some? && c.limits.memory.value > 0 then c.limits.memory.value else 0)
  {
    var cs, inits := spec.containers, spec.initContainers;
    var reqCPU, reqMem, limCPU, limMem := 0, 0, 0, 0;
    for i := 0 to |cs|
      invariant reqCPU == Sum(cs[..i], REQ_CPU) && reqMem == Sum(cs[..i], REQ_MEM)
      invariant limCPU == Sum(cs[..i], LIM_CPU) && limMem == Sum(cs[..i], LIM_MEM)
    {
      assert cs[..i + 1][..i] == cs[..i];
      reqCPU := reqCPU + CpuMillis(cs[i].requests);
      reqMem := reqMem + MemBytes(cs[i].requests);
      limCPU := limCPU + CpuMillis(cs[i].limits);
      limMem := limMem + MemBytes(cs[i].limits);
    }
    var sideReqCPU, sideReqMem, sideLimCPU, sideLimMem := 0, 0, 0, 0;
    var initReqCPU, initReqMem, initLimCPU, initLimMem := 0, 0, 0, 0;
    for i := 0 to |inits|
      invariant sideReqCPU == SidecarSum(inits[..i], REQ_CPU) && sideReqMem == SidecarSum(inits[..i], REQ_MEM)
      invariant sideLimCPU == SidecarSum(inits[..i], LIM_CPU) && sideLimMem == SidecarSum(inits[..i], LIM_MEM)
      invariant initReqCPU == LargestPlain(inits[..i], REQ_CPU) && initReqMem == LargestPlain(inits[..i], REQ_MEM)
      invariant initLimCPU == LargestPlain(inits[..i], LIM_CPU) && initLimMem == LargestPlain(inits[..i], LIM_MEM)
    {
      var c := inits[i];
      assert inits[..i + 1][..i] == inits[..i];
      if c.restartable {
        sideReqCPU := sideReqCPU + CpuMillis(c.requests);
        sideReqMem := sideReqMem + MemBytes(c.requests);
        sideLimCPU := sideLimCPU + CpuMillis(c.limits);
        sideLimMem := sideLimMem + MemBytes(c.limits);
        continue;
      }
      initReqCPU := Max(initReqCPU, CpuMillis(c.requests));
      initReqMem := Max(initReqMem, MemBytes(c.requests));
      initLimCPU := Max(initLimCPU, CpuMillis(c.limits));
      initLimMem := Max(initLimMem, MemBytes(c.limits));
    }
    assert cs[..|cs|] == cs && inits[..|inits|] == inits;
    if |cs| == 1 && inits == [] {
      ghost var c := cs[0];
      assert cs == [c];
      OneContainer(c, REQ_CPU);
      OneContainer(c, REQ_MEM);
      OneContainer(c, LIM_CPU);
      OneContainer(c, LIM_MEM);
    }
    requests := Resources(Max(reqCPU + sideReqCPU, initReqCPU + sideReqCPU),
                          Max(reqMem + sideReqMem, initReqMem + sideReqMem));
    limits := Resources(Max(limCPU + sideLimCPU, initLimCPU + sideLimCPU),
                        Max(limMem + sideLimMem, initLimMem + sideLimMem));
  }

  // ---------- the scheduler's rule ----------

  ghost predicate NonNegative(cs: seq<Container>, f: Measure) {
    forall i :: 0 <= i < |cs| ==> f(cs[i]) >= 0
  }

  /** The most that is in use while a plain init container runs: itself and the sidecars
      listed before it. */
  function InitPeak(inits: seq<Container>, f: Measure): int {
    if inits == [] then 0 else
      var front, last := inits[..|inits| - 1], inits[|inits| - 1];
      if last.restartable then InitPeak(front, f)
      else Max(InitPeak(front, f), f(last) + SidecarSum(front, f))
  }

  /** KEP-753: the init phase in the listed order, against the containers and all sidecars. */
  function Scheduled(containers: seq<Container>, inits: seq<Container>, f: Measure): int {
    Max(InitPeak(inits, f), SidecarSum(inits, f) + Sum(containers, f))
  }

  lemma {:induction false} SidecarSumConcat(a: seq<Container>, b: seq<Container>, f: Measure)
    ensures SidecarSum(a + b, f) == SidecarSum(a, f) + SidecarSum(b, f)
    ensures LargestPlain(a + b, f) == Max(LargestPlain(a, f), LargestPlain(b, f))
  {
    if b == [] {
      assert a + b == a;
      LargestNonNegative(a, f);
    } else {
      SidecarSumConcat(a, b[..|b| - 1], f);
      assert (a + b)[..|a + b| - 1] == a + b[..|b| - 1];
    }
  }

  lemma {:induction false} LargestNonNegative(cs: seq<Container>, f: Measure)
    ensures LargestPlain(cs, f) >= 0
  {
    if cs != [] { LargestNonNegative(cs[..|cs| - 1], f); }
  }

  lemma {:induction false} SidecarSumNonNegative(cs: seq<Container>, f: Measure)
    requires NonNegative(cs, f)
    ensures SidecarSum(cs, f) >= 0
  {
    if cs != [] { SidecarSumNonNegative(cs[..|cs| - 1], f); }
  }

  lemma SidecarsWithout(b: seq<Container>, k: nat, f: Measure)
    requires k < |b|
    ensures var rest := Without(b, k);
      && SidecarSum(b, f) == SidecarSum(rest, f) + (if b[k].restartable then f(b[k]) else 0)
      && LargestPlain(b, f) == if b[k].restartable then LargestPlain(rest, f) else Max(LargestPlain(rest, f), f(b[k]))
  {
    var before, after := b[..k], b[k + 1..];
    WithoutOne(b, k);
    assert (before + [b[k]])[..k] == before;
    SidecarSumConcat(before + [b[k]], after, f);
    SidecarSumConcat(before, after, f);
    LargestNonNegative(after, f);
  }

  /** Any order of the same init containers has the same two accumulators. */
  lemma {:induction false} OrderDoesNotMatter(a: seq<Container>, b: seq<Container>, f: Measure)
    requires multiset(a) == multiset(b)
    ensures SidecarSum(a, f) == SidecarSum(b, f) && LargestPlain(a, f) == LargestPlain(b, f)
  {
    SameLength(a, b);
    if a != [] {
      var k := FindLast(a, b);
      SidecarsWithout(b, k, f);
      OrderDoesNotMatter(a[..|a| - 1], Without(b, k), f);
    }
  }

  lemma {:induction false} PeakBelow(inits: seq<Container>, f: Measure)
    requires NonNegative(inits, f)
    ensures InitPeak(inits, f) <= LargestPlain(inits, f) + SidecarSum(inits, f)
  {
    if inits != [] {
      PeakBelow(inits[..|inits| - 1], f);
      SidecarSumNonNegative(inits, f);
      assert f(inits[|inits| - 1]) >= 0;
    }
  }

  function Sidecars(cs: seq<Container>): seq<Container> {
    if cs == [] then [] else
      Sidecars(cs[..|cs| - 1]) + (if cs[|cs| - 1].restartable then [cs[|cs| - 1]] else [])
  }

  function Plain(cs: seq<Container>): seq<Container> {
    if cs == [] then [] else
      Plain(cs[..|cs| - 1]) + (if cs[|cs| - 1].restartable then [] else [cs[|cs| - 1]])
  }

  lemma {:induction false} SeparatedKinds(cs: seq<Container>)
    ensures forall i :: 0 <= i < |Sidecars(cs)| ==> Sidecars(cs)[i].restartable
    ensures forall i :: 0 <= i < |Plain(cs)| ==> !Plain(cs)[i].restartable
  {
    if cs != [] { SeparatedKinds(cs[..|cs| - 1]); }
  }

  lemma {:induction false} SeparatedCount(cs: seq<Container>, c: Container)
    ensures multiset(Sidecars(cs))[c] + multiset(Plain(cs))[c] == multiset(cs)[c]
  {
    if cs != [] {
      var front, last := cs[..|cs| - 1], cs[|cs| - 1];
      SeparatedCount(front, c);
      assert cs == front + [last];
      if last.restartable {
        assert Sidecars(cs) == Sidecars(front) + [last] && Plain(cs) == Plain(front);
      } else {
        assert Sidecars(cs) == Sidecars(front) && Plain(cs) == Plain(front) + [last];
      }
      hide Sidecars, Plain;
    }
  }

  lemma Separated(cs: seq<Container>)
    ensures multiset(Sidecars(cs) + Plain(cs)) == multiset(cs)
  {
    forall c ensures multiset(Sidecars(cs) + Plain(cs))[c] == multiset(cs)[c] {
      SeparatedCount(cs, c);
    }
  }

  lemma {:induction false} SidecarsFirst(side: seq<Container>, plain: seq<Container>, f: Measure)
    requires NonNegative(side, f) && NonNegative(plain, f)
    requires forall i :: 0 <= i < |side| ==> side[i].restartable
    requires forall i :: 0 <= i < |plain| ==> !plain[i].restartable
    ensures SidecarSum(side + plain, f) == SidecarSum(side, f)
    ensures InitPeak(side + plain, f)
         == if plain == [] then 0 else LargestPlain(plain, f) + SidecarSum(side, f)
    decreases |side| + |plain|
  {
    if plain == [] {
      assert side + plain == side;
      if side != [] {
        SidecarsFirst(side[..|side| - 1], [], f);
        assert side[..|side| - 1] + [] == side[..|side| - 1];
      }
    } else {
      var front := plain[..|plain| - 1];
      assert (side + plain)[..|side + plain| - 1] == side + front;
      SidecarsFirst(side, front, f);
      SidecarSumNonNegative(side, f);
      LargestNonNegative(front, f);
      assert f(plain[|plain| - 1]) >= 0;
    }
  }

  /** With the sidecars listed first, the program agrees with the scheduler. */
  lemma AgreesWithSidecarsFirst(spec: PodSpec, f: Measure)
    requires NonNegative(spec.containers, f) && NonNegative(spec.initContainers, f)
    ensures var first := Sidecars(spec.initContainers) + Plain(spec.initContainers);
      multiset(first) == multiset(spec.initContainers)
      && Scheduled(spec.containers, first, f) == Effective(spec, f)
  {
    var inits := spec.initContainers;
    var side, plain := Sidecars(inits), Plain(inits);
    Separated(inits);
    SeparatedKinds(inits);
    PartsNonNegative(inits, side, plain, f);
    OrderDoesNotMatter(inits, side + plain, f);
    hide *;
    SeparatedAgrees(spec, side, plain, f);
  }

  lemma SeparatedAgrees(spec: PodSpec, side: seq<Container>, plain: seq<Container>, f: Measure)
    requires NonNegative(spec.containers, f) && NonNegative(side, f) && NonNegative(plain, f)
    requires forall i :: 0 <= i < |side| ==> side[i].restartable
    requires forall i :: 0 <= i < |plain| ==> !plain[i].restartable
    requires SidecarSum(spec.initContainers, f) == SidecarSum(side + plain, f)
    requires LargestPlain(spec.initContainers, f) == LargestPlain(side + plain, f)
    ensures Scheduled(spec.containers, side + plain, f) == Effective(spec, f)
  {
    SidecarsFirst(side, plain, f);
    SidecarSumConcat(side, plain, f);
    OnlySidecars(side, f);
    LargestNonNegative(plain, f);
    if plain == [] { OnlySidecars(plain, f); }
    SumNonNegative(spec.containers, f);
    SidecarSumNonNegative(side, f);
    hide SidecarSum, LargestPlain, InitPeak, Sum;
  }

  lemma PartsNonNegative(cs: seq<Container>, a: seq<Container>, b: seq<Container>, f: Measure)
    requires NonNegative(cs, f) && multiset(a + b) == multiset(cs)
    ensures NonNegative(a, f) && NonNegative(b, f)
  {
    forall i | 0 <= i < |a + b| ensures f((a + b)[i]) >= 0 {
      assert (a + b)[i] in multiset(cs);
    }
    assert forall i :: 0 <= i < |a| ==> a[i] == (a + b)[i];
    assert forall i :: 0 <= i < |b| ==> b[i] == (a + b)[|a| + i];
  }

  lemma {:induction false} OnlySidecars(side: seq<Container>, f: Measure)
    requires forall i :: 0 <= i < |side| ==> side[i].restartable
    ensures LargestPlain(side, f) == 0
  {
    if side != [] { OnlySidecars(side[..|side| - 1], f); }
  }

  lemma {:induction false} SumNonNegative(cs: seq<Container>, f: Measure)
    requires NonNegative(cs, f)
    ensures Sum(cs, f) >= 0
  {
    if cs != [] { SumNonNegative(cs[..|cs| - 1], f); }
  }

  /** The effective value is the maximum, over all orders of the init containers, of what
      the scheduler would count. */
  lemma EffectiveIsWorstOrder(spec: PodSpec, f: Measure)
    requires NonNegative(spec.containers, f) && NonNegative(spec.initContainers, f)
    ensures forall order :: multiset(order) == multiset(spec.initContainers) ==>
              Scheduled(spec.containers, order, f) <= Effective(spec, f)
    ensures exists order :: multiset(order) == multiset(spec.initContainers)
              && Scheduled(spec.containers, order, f) == Effective(spec, f)
  {
    forall order | multiset(order) == multiset(spec.initContainers)
      ensures Scheduled(spec.containers, order, f) <= Effective(spec, f)
    {
      OrderDoesNotMatter(order, spec.initContainers, f);
      forall i | 0 <= i < |order| ensures f(order[i]) >= 0 {
        assert order[i] in multiset(spec.initContainers);
      }
      PeakBelow(order, f);
    }
    AgreesWithSidecarsFirst(spec, f);
  }

  lemma EffectiveIgnoresOrder(spec: PodSpec, order: seq<Container>, f: Measure)
    requires multiset(order) == multiset(spec.initContainers)
    ensures Effective(spec.(initContainers := order), f) == Effective(spec, f)
  {
    OrderDoesNotMatter(order, spec.initContainers, f);
  }

  /** No sidecar listed after some largest plain init container asks for anything. */
  ghost predicate LargestSeesAll(inits: seq<Container>, f: Measure) {
    exists i :: 0 <= i < |inits| && !inits[i].restartable
      && f(inits[i]) == LargestPlain(inits, f) && SidecarSum(inits[i..], f) == 0
  }

  /** The init phase peaks at the largest plain init container with all sidecars exactly if
      some largest one has every sidecar that asks for anything listed before it. */
  lemma {:induction false} PeakReaches(inits: seq<Container>, f: Measure)
    requires NonNegative(inits, f)
    requires Plain(inits) != []
    ensures InitPeak(inits, f) == LargestPlain(inits, f) + SidecarSum(inits, f) <==> LargestSeesAll(inits, f)
  {
    var n := |inits| - 1;
    var front, last := inits[..n], inits[n];
    assert f(last) >= 0;
    assert inits[n..] == [last] && [last][..0] == [];
    assert SidecarSum(inits[n..], f) == if last.restartable then f(last) else 0;
    PeakBelow(front, f);
    LargestNonNegative(front, f);
    SidecarSumNonNegative(front, f);
    forall i | 0 <= i <= n
      ensures SidecarSum(inits[i..], f) == SidecarSum(front[i..], f) + if last.restartable then f(last) else 0
      ensures SidecarSum(front[i..], f) >= 0
    {
      assert inits[i..][..n - i] == front[i..];
      assert NonNegative(front[i..], f);
      SidecarSumNonNegative(front[i..], f);
    }
    if Plain(front) != [] {
      PeakReaches(front, f);
      assert forall i :: 0 <= i < n ==> front[i] == inits[i];
    } else {
      NoPlain(front, f);
      assert forall i :: 0 <= i < n ==> inits[i].restartable by {
        assert forall i :: 0 <= i < n ==> front[i] == inits[i];
      }
    }
  }

  lemma {:induction false} NoPlain(cs: seq<Container>, f: Measure)
    requires Plain(cs) == []
    ensures forall i :: 0 <= i < |cs| ==> cs[i].restartable
    ensures InitPeak(cs, f) == 0 == LargestPlain(cs, f)
  {
    if cs != [] { NoPlain(cs[..|cs| - 1], f); }
  }

  /** Exactly when the program counts what the scheduler counts, for the order listed. */
  lemma AgreesWithScheduler(spec: PodSpec, f: Measure)
    requires NonNegative(spec.containers, f) && NonNegative(spec.initContainers, f)
    ensures Effective(spec, f) == Scheduled(spec.containers, spec.initContainers, f)
       <==> Sum(spec.containers, f) >= LargestPlain(spec.initContainers, f)
            || LargestSeesAll(spec.initContainers, f)
  {
    var inits := spec.initContainers;
    PeakBelow(inits, f);
    SumNonNegative(spec.containers, f);
    if Plain(inits) == [] { NoPlain(inits, f); } else { PeakReaches(inits, f); }
  }

  lemma OneMore(front: seq<Container>, last: Container, f: Measure)
    ensures Sum(front + [last], f) == Sum(front, f) + f(last)
    ensures SidecarSum(front + [last], f) == SidecarSum(front, f) + (if last.restartable then f(last) else 0)
    ensures LargestPlain(front + [last], f)
         == if last.restartable then LargestPlain(front, f) else Max(LargestPlain(front, f), f(last))
    ensures InitPeak(front + [last], f)
         == if last.restartable then InitPeak(front, f) else Max(InitPeak(front, f), f(last) + SidecarSum(front, f))
  {
    var cs := front + [last];
    assert cs[..|cs| - 1] == front && cs[|cs| - 1] == last;
  }

  lemma OneContainer(c: Container, f: Measure)
    ensures Sum([c], f) == f(c)
    ensures SidecarSum([c], f) == if c.restartable then f(c) else 0
    ensures LargestPlain([c], f) == InitPeak([c], f) == if c.restartable then 0 else Max(0, f(c))
  {
    assert [] + [c] == [c];
    OneMore([], c, f);
  }

  /** Two containers, a plain init container and a sidecar, in either order. */
  lemma SmallPod(a: Container, b: Container, plain: Container, side: Container, f: Measure)
    requires side.restartable && !plain.restartable
    ensures Effective(PodSpec([a, b], [plain, side]), f) == Effective(PodSpec([a, b], [side, plain]), f)
         == f(side) + (if f(a) + f(b) >= f(plain) || f(plain) < 0 then Max(f(a) + f(b), 0) else f(plain))
  {
    assert [a, b] == [a] + [b] && [plain, side] == [plain] + [side] && [side, plain] == [side] + [plain];
    OneContainer(a, f);
    OneContainer(plain, f);
    OneContainer(side, f);
    OneMore([a], b, f);
    OneMore([plain], side, f);
    OneMore([side], plain, f);
    hide Sum, SidecarSum, LargestPlain, InitPeak;
  }

  /** A pod the scheduler counts for less: its init container ends before its sidecar starts. */
  lemma SidecarAfterInitIsOvercounted()
    ensures exists spec: PodSpec ::
      Effective(spec, REQ_CPU) == 400 && Scheduled(spec.containers, spec.initContainers, REQ_CPU) == 300
  {
    var none := ResourceList(None, None);
    var app := Container(ResourceList(Some(100), None), none, false);
    var init := Container(ResourceList(Some(300), None), none, false);
    var side := Container(ResourceList(Some(100), None), none, true);
    var spec := PodSpec([app], [init, side]);
    assert REQ_CPU(app) == 100 && REQ_CPU(init) == 300 && REQ_CPU(side) == 100;
    OneContainer(app, REQ_CPU);
    OneContainer(init, REQ_CPU);
    assert [init, side] == [init] + [side];
    OneMore([init], side, REQ_CPU);
    hide Sum, SidecarSum, LargestPlain, InitPeak;
    assert Effective(spec, REQ_CPU) == 400;
    assert Scheduled(spec.containers, spec.initContainers, REQ_CPU) == 300;
  }
}
