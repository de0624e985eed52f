/** How one snapshot is put together from the listed nodes and pods and the two optional
    signals. */
module SnapshotAssembly {
  import opened Model
  import opened Permutations
  import opened Sorting
  import PodResources
  import FilterMap

  datatype PodPhase = Waiting | Running | Succeeded | Failed | Unknown

  datatype PodInfo = PodInfo(uid: string, name: string, namespace: string, nodeName: string,
                             phase: PodPhase, spec: PodResources.PodSpec)

  datatype NodeInfo = NodeInfo(name: string, ready: bool, roles: seq<string>, allocatable: Allocatable)

  /** The parts a snapshot is joined from, besides nodes and pods. A nil map is empty. */
  datatype Signals = Signals(podUsage: map<string, Resources>, nodeUsage: map<string, Resources>,
                             disks: map<string, Disk>)

  const NO_RESOURCES := Resources(0, 0)

  // ---------- text order ----------

  predicate TextLe(a: string, b: string) {
    a == [] || (b != [] && (a[0] < b[0] || (a[0] == b[0] && TextLe(a[1..], b[1..]))))
  }

  lemma {:induction false} TextTotal(a: string, b: string)
    ensures TextLe(a, b) || TextLe(b, a)
    ensures TextLe(a, b) && TextLe(b, a) ==> a == b
  {
    if a != [] && b != [] {
      TextTotal(a[1..], b[1..]);
      assert a == [a[0]] + a[1..] && b == [b[0]] + b[1..];
    }
  }

  lemma {:induction false} TextTransitive(a: string, b: string, c: string)
    requires TextLe(a, b) && TextLe(b, c)
    ensures TextLe(a, c)
  {
    if a != [] && a[0] == b[0] == c[0] { TextTransitive(a[1..], b[1..], c[1..]); }
  }

  function ByUid(): (Pod, Pod) -> bool { (p: Pod, q: Pod) => TextLe(p.uid, q.uid) }

  function ByName(): (Node, Node) -> bool { (m: Node, n: Node) => TextLe(m.name, n.name) }

  lemma OrdersAreTotal()
    ensures TotalPreorder(ByUid()) && TotalPreorder(ByName())
  {
    forall a, b ensures TextLe(a, b) || TextLe(b, a) { TextTotal(a, b); }
    forall a, b, c | TextLe(a, b) && TextLe(b, c) ensures TextLe(a, c) { TextTransitive(a, b, c); }
  }

  // ---------- what a snapshot holds ----------

  /** Scheduled and not over. */
  predicate Placed(p: PodInfo) { p.nodeName != "" && !p.phase.Succeeded? && !p.phase.Failed? }

  function UsageKey(p: PodInfo): string { p.namespace + "/" + p.name }

  function PodOf(p: PodInfo, usage: map<string, Resources>): Pod {
    var requests := Resources(PodResources.Effective(p.spec, PodResources.REQ_CPU),
                              PodResources.Effective(p.spec, PodResources.REQ_MEM));
    var limits := Resources(PodResources.Effective(p.spec, PodResources.LIM_CPU),
                            PodResources.Effective(p.spec, PodResources.LIM_MEM));
    if UsageKey(p) in usage then Pod(p.uid, p.name, p.namespace, requests, limits, usage[UsageKey(p)], true)
    else Pod(p.uid, p.name, p.namespace, requests, limits, NO_RESOURCES, false)
  }

  function OnNode(name: string, usage: map<string, Resources>): PodInfo -> Option<Pod> {
    (p: PodInfo) => if Placed(p) && p.nodeName == name then Some(PodOf(p, usage)) else None
  }

  function PodsOn(pods: seq<PodInfo>, name: string, usage: map<string, Resources>): seq<Pod> {
    FilterMap.Apply(pods, OnNode(name, usage))
  }

  function NodeOf(n: NodeInfo, pods: seq<PodInfo>, s: Signals): Node {
    var disk := if n.name in s.disks then s.disks[n.name] else Disk(n.allocatable.diskBytes, 0, 0, false);
    var sorted := Sort(PodsOn(pods, n.name, s.podUsage), ByUid());
    if n.name in s.nodeUsage
    then Node(n.name, n.ready, n.roles, n.allocatable, s.nodeUsage[n.name], true, disk, sorted)
    else Node(n.name, n.ready, n.roles, n.allocatable, NO_RESOURCES, false, disk, sorted)
  }

  function ToNode(pods: seq<PodInfo>, s: Signals): NodeInfo -> Option<Node> {
    (n: NodeInfo) => Some(NodeOf(n, pods, s))
  }

  function NodesOf(nodes: seq<NodeInfo>, pods: seq<PodInfo>, s: Signals): seq<Node> {
    Sort(FilterMap.Apply(nodes, ToNode(pods, s)), ByName())
  }

  // ---------- the program ----------

  function Lookup(m: map<string, seq<Pod>>, name: string): seq<Pod> { if name in m then m[name] else [] }

  lemma NothingOn(usage: map<string, Resources>)
    ensures forall name :: PodsOn([], name, usage) == []
  {}

  /** What the i-th pod adds to the pods on a node. */
  lemma PodsOnStep(pods: seq<PodInfo>, i: nat, name: string, usage: map<string, Resources>)
    requires i < |pods|
    ensures PodsOn(pods[..i + 1], name, usage) == PodsOn(pods[..i], name, usage)
         + if Placed(pods[i]) && pods[i].nodeName == name then [PodOf(pods[i], usage)] else []
  {
    assert pods[..i + 1][..i] == pods[..i];
  }

  /** Groups the placed pods by node. */
  method Group(pods: seq<PodInfo>, usage: map<string, Resources>) returns (podsByNode: map<string, seq<Pod>>)
    ensures forall name :: Lookup(podsByNode, name) == PodsOn(pods, name, usage)
    ensures forall name :: name in podsByNode <==> PodsOn(pods, name, usage) != []
    ensures forall name :: ListsPods(Lookup(podsByNode, name), name, pods, usage)
  {
    hide PodsOn, ListsPods;
    podsByNode := map[];
    NothingOn(usage);
    for i := 0 to |pods|
      invariant forall name :: Lookup(podsByNode, name) == PodsOn(pods[..i], name, usage)
      invariant forall name :: name in podsByNode ==> podsByNode[name] != []
    {
      var p := pods[i];
      forall name
        ensures PodsOn(pods[..i + 1], name, usage) == PodsOn(pods[..i], name, usage)
             + if Placed(p) && p.nodeName == name then [PodOf(p, usage)] else []
      {
        PodsOnStep(pods, i, name, usage);
      }
      if p.nodeName == "" || p.phase.Succeeded? || p.phase.Failed? {
        assert !Placed(p);
        continue;
      }
      var requests, limits := PodResources.EffectiveResources(p.spec);
      var mp := Pod(p.uid, p.name, p.namespace, requests, limits, NO_RESOURCES, false);
      var key := p.namespace + "/" + p.name;
      if key in usage {
        mp := mp.(usage := usage[key], hasUsage := true);
      }
      assert mp == PodOf(p, usage);
      ghost var before := podsByNode;
      podsByNode := podsByNode[p.nodeName := Lookup(podsByNode, p.nodeName) + [mp]];
      forall name ensures Lookup(podsByNode, name) == PodsOn(pods[..i + 1], name, usage) {
        assert Lookup(before, name) == PodsOn(pods[..i], name, usage);
      }
    }
    assert pods[..|pods|] == pods;
    forall name ensures ListsPods(Lookup(podsByNode, name), name, pods, usage) {
      PodsOnListed(pods, name, usage);
    }
  }

  method Assemble(nodes: seq<NodeInfo>, pods: seq<PodInfo>, s: Signals, capabilities: Capabilities)
    returns (snap: Snapshot)
    ensures snap == Snapshot(NodesOf(nodes, pods, s), capabilities)
    ensures Reports(snap.nodes, nodes, pods, s)
  {
    hide Reports, ListsPods;
    var podsByNode := Group(pods, s.podUsage);
    var out: seq<Node> := [];
    for i := 0 to |nodes|
      invariant out == FilterMap.Apply(nodes[..i], ToNode(pods, s))
    {
      var n := nodes[i];
      assert nodes[..i + 1][..i] == nodes[..i];
      var mn := Node(n.name, n.ready, n.roles, n.allocatable, NO_RESOURCES, false,
                     Disk(n.allocatable.diskBytes, 0, 0, false), Lookup(podsByNode, n.name));
      if n.name in s.nodeUsage {
        mn := mn.(usage := s.nodeUsage[n.name], hasUsage := true);
      }
      if n.name in s.disks {
        mn := mn.(disk := s.disks[n.name]);
      }
      mn := mn.(pods := Sort(mn.pods, ByUid()));
      out := out + [mn];
    }
    assert nodes[..|nodes|] == nodes;
    snap := Snapshot(Sort(out, ByName()), capabilities);
    ReportsInPlainTerms(nodes, pods, s);
  }

  lemma {:induction false} NothingOnExactly(pods: seq<PodInfo>, name: string, usage: map<string, Resources>)
    ensures PodsOn(pods, name, usage) == []
       <==> forall p :: p in pods && Placed(p) ==> p.nodeName != name
  {
    if pods != [] {
      var front, last := pods[..|pods| - 1], pods[|pods| - 1];
      NothingOnExactly(front, name, usage);
      assert pods == front + [last];
    }
  }

  /** A node is listed without pods exactly if no placed pod is bound to it. The program
      has then no entry for it in the grouping, and encodes its nil list as null. */
  lemma NoPodsExactly(n: NodeInfo, pods: seq<PodInfo>, s: Signals)
    ensures NodeOf(n, pods, s).pods == [] <==> forall p :: p in pods && Placed(p) ==> p.nodeName != n.name
  {
    OrdersAreTotal();
    SortSorts(PodsOn(pods, n.name, s.podUsage), ByUid());
    NothingOnExactly(pods, n.name, s.podUsage);
  }

  // ---------- the order of the lists does not matter ----------

  ghost predicate DistinctUids(pods: seq<PodInfo>) {
    forall p, q :: p in pods && q in pods && p.uid == q.uid ==> p == q
  }

  ghost predicate DistinctNames(nodes: seq<NodeInfo>) {
    forall m, n :: m in nodes && n in nodes && m.name == n.name ==> m == n
  }

  lemma UidsStayDistinct(pods: seq<PodInfo>, f: PodInfo -> Option<Pod>, x: Pod, y: Pod)
    requires DistinctUids(pods) && x in FilterMap.Apply(pods, f) && y in FilterMap.Apply(pods, f)
    requires forall p :: f(p).Some? ==> f(p).value.uid == p.uid
    requires x.uid == y.uid
    ensures x == y
  {
    var p := FilterMap.Member(pods, f, x);
    var q := FilterMap.Member(pods, f, y);
  }

  lemma PodListOrder(pods: seq<PodInfo>, pods': seq<PodInfo>, name: string, usage: map<string, Resources>)
    requires multiset(pods) == multiset(pods') && DistinctUids(pods)
    ensures Sort(PodsOn(pods, name, usage), ByUid()) == Sort(PodsOn(pods', name, usage), ByUid())
  {
    hide Sort, PodOf;
    var a, b := PodsOn(pods, name, usage), PodsOn(pods', name, usage);
    FilterMap.Permutes(pods, pods', OnNode(name, usage));
    OrdersAreTotal();
    forall x, y | x in a && y in a && ByUid()(x, y) && ByUid()(y, x) ensures x == y {
      TextTotal(x.uid, y.uid);
      KeepsUid(name, usage);
      UidsStayDistinct(pods, OnNode(name, usage), x, y);
    }
    SortForgetsOrder(a, b, ByUid());
  }

  lemma KeepsUid(name: string, usage: map<string, Resources>)
    ensures forall p :: OnNode(name, usage)(p).Some? ==> OnNode(name, usage)(p).value.uid == p.uid
  {}

  lemma SameConversion(nodes: seq<NodeInfo>, pods: seq<PodInfo>, pods': seq<PodInfo>, s: Signals)
    requires multiset(pods) == multiset(pods') && DistinctUids(pods)
    ensures FilterMap.Apply(nodes, ToNode(pods, s)) == FilterMap.Apply(nodes, ToNode(pods', s))
  {
    if nodes != [] {
      SameConversion(nodes[..|nodes| - 1], pods, pods', s);
      PodListOrder(pods, pods', nodes[|nodes| - 1].name, s.podUsage);
    }
  }

  /** Whatever order the listers return them in, the same nodes and pods make the same list. */
  lemma OrderIndependent(nodes: seq<NodeInfo>, nodes': seq<NodeInfo>, pods: seq<PodInfo>, pods': seq<PodInfo>,
                         s: Signals)
    requires multiset(nodes) == multiset(nodes') && DistinctNames(nodes)
    requires multiset(pods) == multiset(pods') && DistinctUids(pods)
    ensures NodesOf(nodes, pods, s) == NodesOf(nodes', pods', s)
  {
    hide Sort, NodeOf;
    SameConversion(nodes', pods, pods', s);
    var a, b := FilterMap.Apply(nodes, ToNode(pods, s)), FilterMap.Apply(nodes', ToNode(pods, s));
    FilterMap.Permutes(nodes, nodes', ToNode(pods, s));
    OrdersAreTotal();
    forall x, y | x in a && y in a && ByName()(x, y) && ByName()(y, x) ensures x == y {
      TextTotal(x.name, y.name);
      var m := FilterMap.Member(nodes, ToNode(pods, s), x);
      var n := FilterMap.Member(nodes, ToNode(pods, s), y);
      KeepsName(m, pods, s);
      KeepsName(n, pods, s);
    }
    SortForgetsOrder(a, b, ByName());
  }

  lemma KeepsName(n: NodeInfo, pods: seq<PodInfo>, s: Signals)
    ensures NodeOf(n, pods, s).name == n.name
  {}

  // ---------- no pod is lost or doubled ----------

  ghost function AllPods(nodes: seq<Node>): seq<Pod> {
    if nodes == [] then [] else AllPods(nodes[..|nodes| - 1]) + nodes[|nodes| - 1].pods
  }

  ghost function Names(nodes: seq<NodeInfo>): set<string> { set n | n in nodes :: n.name }

  /** The placed pods bound to one of the named nodes. */
  function OnAny(names: set<string>, usage: map<string, Resources>): PodInfo -> Option<Pod> {
    (p: PodInfo) => if Placed(p) && p.nodeName in names then Some(PodOf(p, usage)) else None
  }

  /** What the last pod adds to what is kept. */
  lemma LastOf(pods: seq<PodInfo>, f: PodInfo -> Option<Pod>)
    requires pods != []
    ensures multiset(FilterMap.Apply(pods, f))
         == multiset(FilterMap.Apply(pods[..|pods| - 1], f))
          + if f(pods[|pods| - 1]).Some? then multiset{f(pods[|pods| - 1]).value} else multiset{}
  {}

  lemma {:induction false} OneMoreName(pods: seq<PodInfo>, names: set<string>, name: string,
                                       usage: map<string, Resources>)
    requires name !in names
    ensures multiset(FilterMap.Apply(pods, OnAny(names + {name}, usage)))
         == multiset(FilterMap.Apply(pods, OnAny(names, usage))) + multiset(PodsOn(pods, name, usage))
  {
    if pods != [] {
      var front, p := pods[..|pods| - 1], pods[|pods| - 1];
      OneMoreName(front, names, name, usage);
      hide PodOf;
      LastOf(pods, OnAny(names + {name}, usage));
      LastOf(pods, OnAny(names, usage));
      LastOf(pods, OnNode(name, usage));
      hide FilterMap.Apply;
    }
  }

  lemma {:induction false} NoName(pods: seq<PodInfo>, usage: map<string, Resources>)
    ensures FilterMap.Apply(pods, OnAny({}, usage)) == []
  {
    if pods != [] { NoName(pods[..|pods| - 1], usage); }
  }

  /** No two listed nodes, by position, have the same name. */
  ghost predicate NoDuplicates(nodes: seq<NodeInfo>) {
    forall i, j :: 0 <= i < j < |nodes| ==> nodes[i].name != nodes[j].name
  }

  lemma NodePods(n: NodeInfo, pods: seq<PodInfo>, s: Signals)
    ensures multiset(NodeOf(n, pods, s).pods) == multiset(PodsOn(pods, n.name, s.podUsage))
  {
    hide Sort;
    OrdersAreTotal();
    SortSorts(PodsOn(pods, n.name, s.podUsage), ByUid());
  }

  lemma OneMoreNode(front: seq<NodeInfo>, last: NodeInfo, pods: seq<PodInfo>, s: Signals)
    ensures multiset(AllPods(FilterMap.Apply(front + [last], ToNode(pods, s))))
         == multiset(AllPods(FilterMap.Apply(front, ToNode(pods, s)))) + multiset(PodsOn(pods, last.name, s.podUsage))
    ensures Names(front + [last]) == Names(front) + {last.name}
  {
    hide NodeOf;
    assert (front + [last])[..|front|] == front;
    var before, node := FilterMap.Apply(front, ToNode(pods, s)), NodeOf(last, pods, s);
    assert FilterMap.Apply(front + [last], ToNode(pods, s)) == before + [node];
    AllPodsConcat(before, [node]);
    OneNode(node);
    NodePods(last, pods, s);
  }

  lemma {:induction false} Gathered(nodes: seq<NodeInfo>, pods: seq<PodInfo>, s: Signals)
    requires NoDuplicates(nodes)
    ensures multiset(AllPods(FilterMap.Apply(nodes, ToNode(pods, s))))
         == multiset(FilterMap.Apply(pods, OnAny(Names(nodes), s.podUsage)))
  {
    if nodes == [] {
      NoName(pods, s.podUsage);
      assert Names(nodes) == {};
    } else {
      var front, last := nodes[..|nodes| - 1], nodes[|nodes| - 1];
      assert last.name !in Names(front);
      assert nodes == front + [last];
      hide NodeOf, PodOf, FilterMap.Apply, AllPods, PodsOn;
      Gathered(front, pods, s);
      hide *;
      OneMoreNode(front, last, pods, s);
      OneMoreName(pods, Names(front), last.name, s.podUsage);
    }
  }

  lemma {:induction false} AllPodsConcat(a: seq<Node>, b: seq<Node>)
    ensures AllPods(a + b) == AllPods(a) + AllPods(b)
  {
    if b == [] {
      assert a + b == a;
    } else {
      var ab, front, last := a + b, b[..|b| - 1], b[|b| - 1];
      AllPodsConcat(a, front);
      assert ab[..|ab| - 1] == a + front && ab[|ab| - 1] == last;
      assert AllPods(ab) == AllPods(a + front) + last.pods;
    }
  }

  lemma OneNode(n: Node)
    ensures AllPods([n]) == n.pods
  {
    assert [n][..0] == [];
  }

  lemma AllPodsWithout(b: seq<Node>, k: nat)
    requires k < |b|
    ensures multiset(AllPods(b)) == multiset(AllPods(Without(b, k))) + multiset(b[k].pods)
  {
    hide AllPods;
    var before, after := b[..k], b[k + 1..];
    WithoutOne(b, k);
    AllPodsConcat(before + [b[k]], after);
    AllPodsConcat(before, [b[k]]);
    AllPodsConcat(before, after);
    OneNode(b[k]);
  }

  lemma {:induction false} AllPodsPermute(a: seq<Node>, b: seq<Node>)
    requires multiset(a) == multiset(b)
    ensures multiset(AllPods(a)) == multiset(AllPods(b))
  {
    hide AllPods;
    Permutations.SameLength(a, b);
    if a == [] {
      assert a == b;
    } else {
      var n := |a| - 1;
      var k := FindLast(a, b);
      AllPodsWithout(a, n);
      AllPodsWithout(b, k);
      assert Without(a, n) == a[..n];
      hide Without;
      AllPodsPermute(a[..n], Without(b, k));
    }
  }

  /** Pod conservation: over all nodes of a snapshot, each placed pod on a listed node
      appears once, and nothing else does. */
  lemma PodsConserved(nodes: seq<NodeInfo>, pods: seq<PodInfo>, s: Signals)
    requires NoDuplicates(nodes)
    ensures multiset(AllPods(NodesOf(nodes, pods, s)))
         == multiset(FilterMap.Apply(pods, OnAny(Names(nodes), s.podUsage)))
    ensures |AllPods(NodesOf(nodes, pods, s))| == |FilterMap.Apply(pods, OnAny(Names(nodes), s.podUsage))|
  {
    var out := FilterMap.Apply(nodes, ToNode(pods, s));
    OrdersAreTotal();
    SortSorts(out, ByName());
    AllPodsPermute(NodesOf(nodes, pods, s), out);
    Gathered(nodes, pods, s);
    assert |multiset(AllPods(NodesOf(nodes, pods, s)))| == |AllPods(NodesOf(nodes, pods, s))|;
  }

  /** The listed nodes, each converted, one for one. */
  function Converted(nodes: seq<NodeInfo>, pods: seq<PodInfo>, s: Signals): (r: seq<Node>)
    ensures |r| == |nodes|
  {
    seq(|nodes|, i requires 0 <= i < |nodes| => NodeOf(nodes[i], pods, s))
  }

  /** The nodes of a snapshot are the listed ones, one for one, in the order of their names,
      each with exactly the pods placed on it in the order of their UIDs. */
  lemma NodesAreListed(nodes: seq<NodeInfo>, pods: seq<PodInfo>, s: Signals)
    ensures Sorted(NodesOf(nodes, pods, s), ByName()) && |NodesOf(nodes, pods, s)| == |nodes|
    ensures multiset(NodesOf(nodes, pods, s)) == multiset(Converted(nodes, pods, s))
    ensures forall mn :: mn in NodesOf(nodes, pods, s) ==>
              && Sorted(mn.pods, ByUid())
              && multiset(mn.pods) == multiset(PodsOn(pods, mn.name, s.podUsage))
              && exists n :: n in nodes && mn == NodeOf(n, pods, s)
  {
    var out := FilterMap.Apply(nodes, ToNode(pods, s));
    OrdersAreTotal();
    SortSorts(out, ByName());
    EachListedNode(nodes, pods, s);
    forall mn | mn in NodesOf(nodes, pods, s)
      ensures Sorted(mn.pods, ByUid())
      ensures multiset(mn.pods) == multiset(PodsOn(pods, mn.name, s.podUsage))
      ensures exists n :: n in nodes && mn == NodeOf(n, pods, s)
    {
      assert mn in multiset(out);
      var n := FilterMap.Member(nodes, ToNode(pods, s), mn);
      SortSorts(PodsOn(pods, n.name, s.podUsage), ByUid());
    }
  }

  lemma {:induction false} EachListedNode(nodes: seq<NodeInfo>, pods: seq<PodInfo>, s: Signals)
    ensures FilterMap.Apply(nodes, ToNode(pods, s)) == Converted(nodes, pods, s)
  {
    if nodes != [] {
      EachListedNode(nodes[..|nodes| - 1], pods, s);
      hide NodeOf;
      assert Converted(nodes, pods, s)
          == Converted(nodes[..|nodes| - 1], pods, s) + [NodeOf(nodes[|nodes| - 1], pods, s)];
    }
  }

  // ---------- in plain terms ----------

  /** Ascending text order: a is a prefix of b, or smaller where they first differ. */
  ghost predicate Precedes(a: string, b: string) {
    a <= b || exists k :: 0 <= k < |a| && k < |b| && a[..k] == b[..k] && a[k] < b[k]
  }

  lemma {:induction false} TextLePrecedes(a: string, b: string)
    ensures TextLe(a, b) <==> Precedes(a, b)
  {
    if a != [] && b != [] {
      TextLePrecedes(a[1..], b[1..]);
      assert a == [a[0]] + a[1..] && b == [b[0]] + b[1..];
      if a[0] == b[0] {
        PrecedesTail(a, b);
      } else if a[0] < b[0] {
        assert a[..0] == b[..0];
      }
    }
  }

  lemma PrecedesTail(a: string, b: string)
    requires a != [] && b != [] && a[0] == b[0]
    ensures Precedes(a, b) <==> Precedes(a[1..], b[1..])
  {
    assert a == [a[0]] + a[1..] && b == [b[0]] + b[1..];
    if k :| 0 <= k < |a| && k < |b| && a[..k] == b[..k] && a[k] < b[k] {
      assert k > 0;
      assert a[..k][1..] == a[1..][..k - 1] && b[..k][1..] == b[1..][..k - 1];
      assert a[1..][k - 1] < b[1..][k - 1];
    }
    if k :| 0 <= k < |a[1..]| && k < |b[1..]| && a[1..][..k] == b[1..][..k] && a[1..][k] < b[1..][k] {
      assert a[..k + 1] == [a[0]] + a[1..][..k] && b[..k + 1] == [b[0]] + b[1..][..k];
      assert a[k + 1] < b[k + 1];
    }
  }

  /** Scheduled to the node, and neither succeeded nor failed. */
  ghost predicate Runs(p: PodInfo, name: string) {
    p.nodeName == name && name != "" && (p.phase.Waiting? || p.phase.Running? || p.phase.Unknown?)
  }

  ghost predicate DescribesPod(mp: Pod, p: PodInfo, usage: map<string, Resources>) {
    && mp.uid == p.uid && mp.name == p.name && mp.namespace == p.namespace
    && mp.requests.cpuMillis == PodResources.Effective(p.spec, PodResources.REQ_CPU)
    && mp.requests.memBytes == PodResources.Effective(p.spec, PodResources.REQ_MEM)
    && mp.limits.cpuMillis == PodResources.Effective(p.spec, PodResources.LIM_CPU)
    && mp.limits.memBytes == PodResources.Effective(p.spec, PodResources.LIM_MEM)
    && mp.hasUsage == (p.namespace + "/" + p.name in usage)
    && mp.usage == if mp.hasUsage then usage[p.namespace + "/" + p.name] else Resources(0, 0)
  }

  ghost predicate DescribesNode(mn: Node, n: NodeInfo, s: Signals) {
    && mn.name == n.name && mn.ready == n.ready && mn.roles == n.roles && mn.allocatable == n.allocatable
    && mn.hasUsage == (n.name in s.nodeUsage)
    && mn.usage == (if mn.hasUsage then s.nodeUsage[n.name] else Resources(0, 0))
    && if n.name in s.disks then mn.disk == s.disks[n.name]
       else mn.disk.capacityBytes == n.allocatable.diskBytes
            && mn.disk.usedBytes == mn.disk.availableBytes == 0 && !mn.disk.live
  }

  /** The pods listed for a node are those that run there, one for one. */
  ghost predicate ListsPods(listed: seq<Pod>, name: string, pods: seq<PodInfo>, usage: map<string, Resources>) {
    && (forall mp :: mp in listed ==> exists p :: p in pods && Runs(p, name) && DescribesPod(mp, p, usage))
    && (forall p :: p in pods && Runs(p, name) ==> exists mp :: mp in listed && DescribesPod(mp, p, usage))
    && |listed| == |set i: nat | i < |pods| && Runs(pods[i], name)|
  }

  /** A list of nodes as the page gets it. */
  ghost predicate Reports(out: seq<Node>, nodes: seq<NodeInfo>, pods: seq<PodInfo>, s: Signals) {
    && |out| == |nodes|
    && (forall i, j :: 0 <= i < j < |out| ==> Precedes(out[i].name, out[j].name))
    && (forall mn :: mn in out ==> UidsAscend(mn.pods))
    && (forall n :: n in nodes ==> exists mn :: mn in out && DescribesNode(mn, n, s))
    && (forall mn :: mn in out ==> exists n :: n in nodes && DescribesNode(mn, n, s))
    && (forall mn :: mn in out ==> ListsPods(mn.pods, mn.name, pods, s.podUsage))
  }

  ghost predicate UidsAscend(pods: seq<Pod>) {
    forall i, j :: 0 <= i < j < |pods| ==> Precedes(pods[i].uid, pods[j].uid)
  }

  lemma OnNodeMeans(p: PodInfo, name: string, usage: map<string, Resources>)
    ensures OnNode(name, usage)(p) == if Runs(p, name) then Some(PodOf(p, usage)) else None
    ensures DescribesPod(PodOf(p, usage), p, usage)
  {}

  ghost function Running(pods: seq<PodInfo>, name: string): set<nat> {
    set i: nat | i < |pods| && Runs(pods[i], name)
  }

  lemma RunningGrows(front: seq<PodInfo>, p: PodInfo, name: string)
    ensures |Running(front + [p], name)| == |Running(front, name)| + if Runs(p, name) then 1 else 0
  {
    hide Runs;
    var one: set<nat> := if Runs(p, name) then {|front|} else {};
    assert Running(front + [p], name) == Running(front, name) + one;
  }

  lemma {:induction false} RunningCount(pods: seq<PodInfo>, name: string, usage: map<string, Resources>)
    ensures |PodsOn(pods, name, usage)| == |Running(pods, name)|
  {
    if pods == [] {
      assert Running(pods, name) == {};
    } else {
      var front, last := pods[..|pods| - 1], pods[|pods| - 1];
      RunningCount(front, name, usage);
      OnNodeMeans(last, name, usage);
      RunningGrows(front, last, name);
      assert pods == front + [last];
      hide Runs, PodOf, Running;
    }
  }

  lemma PodsOnListed(pods: seq<PodInfo>, name: string, usage: map<string, Resources>)
    ensures ListsPods(PodsOn(pods, name, usage), name, pods, usage)
  {
    var listed := PodsOn(pods, name, usage);
    forall p ensures OnNode(name, usage)(p) == if Runs(p, name) then Some(PodOf(p, usage)) else None {
      OnNodeMeans(p, name, usage);
    }
    hide Runs, PodOf, DescribesPod;
    forall mp | mp in listed ensures exists p :: p in pods && Runs(p, name) && DescribesPod(mp, p, usage) {
      var p := FilterMap.Member(pods, OnNode(name, usage), mp);
      OnNodeMeans(p, name, usage);
    }
    forall p | p in pods && Runs(p, name) ensures exists mp :: mp in listed && DescribesPod(mp, p, usage) {
      OnNodeMeans(p, name, usage);
      FilterMap.Keeps(pods, OnNode(name, usage), p);
    }
    RunningCount(pods, name, usage);
    assert Running(pods, name) == set i: nat | i < |pods| && Runs(pods[i], name);
  }

  lemma ListedStill(a: seq<Pod>, b: seq<Pod>, name: string, pods: seq<PodInfo>, usage: map<string, Resources>)
    requires multiset(a) == multiset(b) && ListsPods(a, name, pods, usage)
    ensures ListsPods(b, name, pods, usage)
  {
    hide Runs, DescribesPod;
    SameLength(a, b);
    SameElements(a, b);
  }

  lemma NodeOfDescribes(n: NodeInfo, pods: seq<PodInfo>, s: Signals)
    ensures DescribesNode(NodeOf(n, pods, s), n, s)
  {}

  lemma NodeReported(mn: Node, nodes: seq<NodeInfo>, pods: seq<PodInfo>, s: Signals)
    requires mn in NodesOf(nodes, pods, s)
    ensures exists n :: n in nodes && DescribesNode(mn, n, s)
    ensures ListsPods(mn.pods, mn.name, pods, s.podUsage) && UidsAscend(mn.pods)
  {
    NodesAreListed(nodes, pods, s);
    hide NodesOf, NodeOf, PodsOn, DescribesNode, ListsPods, Precedes, TextLe;
    var n :| n in nodes && mn == NodeOf(n, pods, s);
    NodeOfDescribes(n, pods, s);
    PodsOnListed(pods, mn.name, s.podUsage);
    ListedStill(PodsOn(pods, mn.name, s.podUsage), mn.pods, mn.name, pods, s.podUsage);
    forall i, j | 0 <= i < j < |mn.pods| ensures Precedes(mn.pods[i].uid, mn.pods[j].uid) {
      assert ByUid()(mn.pods[i], mn.pods[j]);
      TextLePrecedes(mn.pods[i].uid, mn.pods[j].uid);
    }
  }

  lemma NoneMissing(n: NodeInfo, nodes: seq<NodeInfo>, pods: seq<PodInfo>, s: Signals)
    requires n in nodes
    ensures exists mn :: mn in NodesOf(nodes, pods, s) && DescribesNode(mn, n, s)
  {
    NodesAreListed(nodes, pods, s);
    hide NodesOf, NodeOf, PodsOn, DescribesNode, TextLe;
    SameElements(NodesOf(nodes, pods, s), Converted(nodes, pods, s));
    var i :| 0 <= i < |nodes| && nodes[i] == n;
    assert Converted(nodes, pods, s)[i] == NodeOf(n, pods, s);
    NodeOfDescribes(n, pods, s);
  }

  lemma NamesAscend(nodes: seq<NodeInfo>, pods: seq<PodInfo>, s: Signals)
    ensures var out := NodesOf(nodes, pods, s);
      |out| == |nodes| && forall i, j :: 0 <= i < j < |out| ==> Precedes(out[i].name, out[j].name)
  {
    var out := NodesOf(nodes, pods, s);
    NodesAreListed(nodes, pods, s);
    hide NodesOf, NodeOf, PodsOn, TextLe, Precedes;
    forall i, j | 0 <= i < j < |out| ensures Precedes(out[i].name, out[j].name) {
      assert ByName()(out[i], out[j]);
      TextLePrecedes(out[i].name, out[j].name);
    }
  }

  /** The list assembled, told without the functions that assemble it. */
  lemma ReportsInPlainTerms(nodes: seq<NodeInfo>, pods: seq<PodInfo>, s: Signals)
    ensures Reports(NodesOf(nodes, pods, s), nodes, pods, s)
  {
    hide NodesOf, DescribesNode, ListsPods, Precedes, UidsAscend;
    NamesAscend(nodes, pods, s);
    forall n | n in nodes ensures exists mn :: mn in NodesOf(nodes, pods, s) && DescribesNode(mn, n, s) {
      NoneMissing(n, nodes, pods, s);
    }
    forall mn | mn in NodesOf(nodes, pods, s)
      ensures exists n :: n in nodes && DescribesNode(mn, n, s)
      ensures ListsPods(mn.pods, mn.name, pods, s.podUsage) && UidsAscend(mn.pods)
    {
      NodeReported(mn, nodes, pods, s);
    }
  }

  // ---------- a missing signal never looks like data ----------

  ghost predicate ShowsNoUsage(nodes: seq<Node>) {
    forall n :: n in nodes ==> !n.hasUsage && forall p :: p in n.pods ==> !p.hasUsage
  }

  ghost predicate ShowsNoLiveDisk(nodes: seq<Node>) {
    forall n :: n in nodes ==> !n.disk.live
  }

  /** What a snapshot says is down, it shows no figures for; and it gives a reason exactly
      for what is down. */
  ghost predicate Honest(snap: Snapshot) {
    && (!snap.capabilities.metrics ==> ShowsNoUsage(snap.nodes))
    && (!snap.capabilities.disk ==> ShowsNoLiveDisk(snap.nodes))
    && (snap.capabilities.metricsReason.NoReason? <==> snap.capabilities.metrics)
    && (snap.capabilities.diskReason.NoReason? <==> snap.capabilities.disk)
  }

  lemma HonestMeans(snap: Snapshot)
    requires Honest(snap)
    ensures !snap.capabilities.metrics ==>
      forall n :: n in snap.nodes ==> !n.hasUsage && forall p :: p in n.pods ==> !p.hasUsage
    ensures !snap.capabilities.disk ==> forall n :: n in snap.nodes ==> !n.disk.live
    ensures snap.capabilities.metricsReason == NoReason <==> snap.capabilities.metrics
    ensures snap.capabilities.diskReason == NoReason <==> snap.capabilities.disk
  {}

  lemma EmptySignalsShowNothing(nodes: seq<NodeInfo>, pods: seq<PodInfo>, s: Signals)
    ensures s.podUsage == map[] && s.nodeUsage == map[] ==> ShowsNoUsage(NodesOf(nodes, pods, s))
    ensures s.disks == map[] ==> ShowsNoLiveDisk(NodesOf(nodes, pods, s))
  {
    NodesAreListed(nodes, pods, s);
    hide NodesOf, FilterMap.Apply;
    forall mn, p | s.podUsage == map[] && mn in NodesOf(nodes, pods, s) && p in mn.pods
      ensures !p.hasUsage
    {
      assert p in multiset(PodsOn(pods, mn.name, s.podUsage));
      var info := FilterMap.Member(pods, OnNode(mn.name, s.podUsage), p);
    }
  }

  /** A snapshot is honest when it is built from nothing for each signal that is down. */
  lemma BuiltHonest(nodes: seq<NodeInfo>, pods: seq<PodInfo>, s: Signals, c: Capabilities)
    requires !c.metrics ==> s.podUsage == map[] && s.nodeUsage == map[]
    requires !c.disk ==> s.disks == map[]
    requires (c.metricsReason.NoReason? <==> c.metrics) && (c.diskReason.NoReason? <==> c.disk)
    ensures Honest(Snapshot(NodesOf(nodes, pods, s), c))
  {
    EmptySignalsShowNothing(nodes, pods, s);
  }
}
