/** The collector: it polls the two optional signals with hysteresis and back-off,
    assembles a snapshot at every poll, and hands it to its subscribers. */
module Collector {
  import opened Model
  import opened SignalHistory
  import opened FanOut
  import opened SnapshotAssembly
  import PubSub

  datatype DiskMode = Auto | Kubelet | Proxy | Off
  datatype RouteName = KubeletRoute | ProxyRoute

  datatype Usage = Usage(pods: map<string, Resources>, nodes: map<string, Resources>)

  /** What one poll meets: the listers' answers, and for each signal the time it is
      considered, what it would answer, and the time that answer would be in. */
  datatype World = World(nodes: Option<seq<NodeInfo>>, pods: Option<seq<PodInfo>>,
                         metricsStart: int, metrics: Outcome<Usage>, metricsEnd: int,
                         diskStart: int, kubelet: Route, proxy: Route, diskEnd: int)

  function NamesOf(nodes: seq<NodeInfo>): (r: seq<string>)
    ensures |r| == |nodes| && forall i :: 0 <= i < |r| ==> r[i] == nodes[i].name
  {
    seq(|nodes|, i requires 0 <= i < |nodes| => nodes[i].name)
  }

  function DiskOutcome(disk: map<string, Disk>, err: Option<Error>): Outcome<map<string, Disk>> {
    match err
    case None => Ok(disk)
    case Some(Denied(_)) => Forbidden
    case Some(Broken(_)) => Transient
  }

  ghost function UsageServed(h: seq<Fetch<Usage>>): Usage {
    var served := Served(h, Metrics);
    if served.Some? then served.value else Usage(map[], map[])
  }

  ghost function DisksServed(h: seq<Fetch<map<string, Disk>>>): map<string, Disk> {
    var served := Served(h, NodeDisk);
    if served.Some? then served.value else map[]
  }

  lemma NothingServedWhenDown(h: seq<Fetch<Usage>>, d: seq<Fetch<map<string, Disk>>>)
    ensures ReasonFor(h, Metrics).NoReason? <==> Up(h, Metrics)
    ensures ReasonFor(d, NodeDisk).NoReason? <==> Up(d, NodeDisk)
    ensures !Up(h, Metrics) ==> UsageServed(h) == Usage(map[], map[])
    ensures !Up(d, NodeDisk) ==> DisksServed(d) == map[]
  {
    ReasonEmptyIffUp(h, Metrics);
    ReasonEmptyIffUp(d, NodeDisk);
  }

  /** What one more fetch leaves to serve. */
  lemma DisksAfter(h: seq<Fetch<map<string, Disk>>>, f: Fetch<map<string, Disk>>)
    ensures DisksServed(h + [f]) == match f.outcome
      case Ok(disk) => disk
      case Forbidden => map[]
      case _ => if Up(h + [f], NodeDisk) then DisksServed(h) else map[]
  {
    AfterFetch(h, f, NodeDisk);
  }

  lemma UsageAfter(h: seq<Fetch<Usage>>, f: Fetch<Usage>)
    ensures UsageServed(h + [f]) == match f.outcome
      case Ok(usage) => usage
      case Transient => if Up(h + [f], Metrics) then UsageServed(h) else Usage(map[], map[])
      case _ => Usage(map[], map[])
  {
    AfterFetch(h, f, Metrics);
  }

  /** Whether a disk fetch is due: a minute after the last one, ten after a denied one. */
  function DiskDue(lastDisk: Option<int>, reason: Reason, now: int): bool {
    lastDisk.None? || now - lastDisk.value >= if reason.ForbiddenReason? then FORBIDDEN_RETRY else DISK_INTERVAL
  }

  lemma DueExactly<P>(log: seq<Fetch<P>>, lastDisk: Option<int>, reason: Reason, now: int)
    requires lastDisk == (if log == [] then None else Some(log[|log| - 1].end))
    requires reason == ReasonFor(log, NodeDisk)
    ensures DiskDue(lastDisk, reason, now) <==>
      || log == []
      || var last := log[|log| - 1];
         now - last.end >= if last.outcome.Forbidden? then 600_000_000_000 else 60_000_000_000
  {
    ReasonEmptyIffUp(log, NodeDisk);
  }

  // ---------- which route is asked, and what comes of it ----------

  /** Whether the route answers for the fan-out as a whole; over no nodes it does. */
  ghost predicate Works(nodes: seq<string>, route: Route) { nodes == [] || AnyAnswered(nodes, route) }

  ghost function RouteOutcome(nodes: seq<string>, route: Route): Outcome<map<string, Disk>> {
    if Works(nodes, route) then Ok(Answers(nodes, route))
    else if AnyDenied(nodes, route) then Forbidden
    else Transient
  }

  /** One disk fetch as the mode and the settled route find it. */
  datatype Call = Call(nodes: seq<string>, kubelet: Route, proxy: Route)

  /** A fixed or settled route is the only one asked; otherwise the kubelets are, and the
      proxy only after they have failed. */
  ghost function Asked(mode: DiskMode, settled: Option<RouteName>, c: Call): seq<RouteName> {
    if mode.Kubelet? || settled == Some(KubeletRoute) then [KubeletRoute]
    else if mode.Proxy? || settled == Some(ProxyRoute) then [ProxyRoute]
    else if Works(c.nodes, c.kubelet) then [KubeletRoute]
    else [KubeletRoute, ProxyRoute]
  }

  /** Where both routes were asked and failed, the fetch was denied if either was. */
  ghost function FetchOutcome(mode: DiskMode, settled: Option<RouteName>, c: Call): Outcome<map<string, Disk>> {
    var asked := Asked(mode, settled, c);
    if asked == [KubeletRoute] then RouteOutcome(c.nodes, c.kubelet)
    else if asked == [ProxyRoute] || Works(c.nodes, c.proxy) then RouteOutcome(c.nodes, c.proxy)
    else if AnyDenied(c.nodes, c.kubelet) || AnyDenied(c.nodes, c.proxy) then Forbidden
    else Transient
  }

  /** Auto mode settles on the route that worked, and forgets it when it is denied. */
  ghost function Settles(mode: DiskMode, settled: Option<RouteName>, c: Call): Option<RouteName> {
    var asked, outcome := Asked(mode, settled, c), FetchOutcome(mode, settled, c);
    if !mode.Auto? || outcome.Forbidden? then None
    else if settled.Some? then settled
    else if outcome.Ok? then Some(asked[|asked| - 1])
    else None
  }

  /** The route settled after a run of fetches in auto mode. */
  ghost function RouteAfter(calls: seq<Call>): Option<RouteName> {
    if calls == [] then None else Settles(Auto, RouteAfter(calls[..|calls| - 1]), calls[|calls| - 1])
  }

  /** Call number i of a run probed for a route, and r worked; r is the proxy only if the
      kubelets had not. */
  ghost predicate SettledBy(calls: seq<Call>, i: nat, r: RouteName)
    requires i < |calls|
  {
    && RouteAfter(calls[..i]).None?
    && if r.KubeletRoute? then Works(calls[i].nodes, calls[i].kubelet)
       else !Works(calls[i].nodes, calls[i].kubelet) && Works(calls[i].nodes, calls[i].proxy)
  }

  ghost function OutcomeOn(c: Call, r: RouteName): Outcome<map<string, Disk>> {
    RouteOutcome(c.nodes, if r.KubeletRoute? then c.kubelet else c.proxy)
  }

  /** Since call number i of a run, r was denied in none. */
  ghost predicate NotDeniedSince(calls: seq<Call>, i: nat, r: RouteName) {
    forall j :: i < j < |calls| ==> !OutcomeOn(calls[j], r).Forbidden?
  }

  lemma SettlesMeans(settled: Option<RouteName>, c: Call, r: RouteName)
    ensures settled == Some(r) ==>
      Settles(Auto, settled, c) == if OutcomeOn(c, r).Forbidden? then None else Some(r)
    ensures settled.None? ==>
      (Settles(Auto, settled, c) == Some(r) <==>
        if r.KubeletRoute? then Works(c.nodes, c.kubelet) else !Works(c.nodes, c.kubelet) && Works(c.nodes, c.proxy))
  {
    hide Works, AnyDenied, Answers;
  }

  lemma {:induction false} SettledRouteHasACause(calls: seq<Call>, r: RouteName) returns (i: nat)
    requires RouteAfter(calls) == Some(r)
    ensures i < |calls| && SettledBy(calls, i, r) && NotDeniedSince(calls, i, r)
  {
    hide Settles, Works, RouteOutcome;
    var n := |calls| - 1;
    var front := calls[..n];
    SettlesMeans(RouteAfter(front), calls[n], r);
    if RouteAfter(front).None? {
      i := n;
    } else {
      SettlesMeans(RouteAfter(front), calls[n], RouteAfter(front).value);
      i := SettledRouteHasACause(front, r);
      assert calls[..i] == front[..i] && calls[i] == front[i];
      assert forall j :: i < j < n ==> calls[j] == front[j];
    }
  }

  lemma {:induction false} SettledRouteStays(calls: seq<Call>, i: nat, r: RouteName)
    requires i < |calls| && SettledBy(calls, i, r) && NotDeniedSince(calls, i, r)
    ensures RouteAfter(calls) == Some(r)
  {
    hide Settles, Works, RouteOutcome;
    var n := |calls| - 1;
    var front := calls[..n];
    if i < n {
      assert calls[..i] == front[..i] && calls[i] == front[i];
      assert forall j :: i < j < n ==> calls[j] == front[j];
      SettledRouteStays(front, i, r);
    }
    SettlesMeans(RouteAfter(front), calls[n], r);
  }

  /** A route is settled after a run exactly if some call settled on it and it has not been
      denied since: a settled route survives every other failure. */
  lemma RouteHistory(calls: seq<Call>, r: RouteName)
    ensures RouteAfter(calls) == Some(r)
       <==> exists i: nat :: i < |calls| && SettledBy(calls, i, r) && NotDeniedSince(calls, i, r)
  {
    if RouteAfter(calls) == Some(r) {
      var i := SettledRouteHasACause(calls, r);
    }
    if i: nat :| i < |calls| && SettledBy(calls, i, r) && NotDeniedSince(calls, i, r) {
      SettledRouteStays(calls, i, r);
    }
  }

  /** The route settled after a run of fetches; only auto mode ever settles on one. */
  ghost function RouteIn(mode: DiskMode, calls: seq<Call>): Option<RouteName> {
    if mode.Auto? then RouteAfter(calls) else None
  }

  /** The log tells what came of each call, with the route settled before it. */
  ghost predicate Told(mode: DiskMode, calls: seq<Call>, log: seq<Fetch<map<string, Disk>>>) {
    |calls| == |log| && forall i :: 0 <= i < |log| ==>
      log[i].outcome == FetchOutcome(mode, RouteIn(mode, calls[..i]), calls[i])
  }

  lemma ToldGrows(mode: DiskMode, calls: seq<Call>, log: seq<Fetch<map<string, Disk>>>, c: Call,
                  f: Fetch<map<string, Disk>>)
    requires Told(mode, calls, log) && f.outcome == FetchOutcome(mode, RouteIn(mode, calls), c)
    ensures Told(mode, calls + [c], log + [f])
    ensures RouteIn(mode, calls + [c]) == Settles(mode, RouteIn(mode, calls), c)
  {
    hide FetchOutcome, Settles;
    assert (calls + [c])[..|calls|] == calls;
    assert forall i :: 0 <= i < |calls| ==> (calls + [c])[..i] == calls[..i];
    hide RouteAfter;
    SettlesOnlyInAuto(mode, RouteIn(mode, calls), c);
  }

  lemma SettlesOnlyInAuto(mode: DiskMode, settled: Option<RouteName>, c: Call)
    ensures !mode.Auto? ==> Settles(mode, settled, c).None?
  {}

  /** With no nodes to ask, auto mode settles on the kubelets and reports no failure. */
  lemma NoNodesSettlesKubelet(c: Call)
    requires c.nodes == []
    ensures FetchOutcome(Auto, None, c) == Ok(map[]) && Settles(Auto, None, c) == Some(KubeletRoute)
  {
    assert Answers(c.nodes, c.kubelet) == map[];
  }

  class Collector {
    const metricsEnabled: bool
    const diskMode: DiskMode

    var diskRoute: Option<RouteName>

    var latest: Option<Snapshot>
    /** The channels subscribed, each with what it buffers. */
    var subs: map<nat, seq<Snapshot>>
    var nextSub: nat

    var diskByNode: map<string, Disk>
    var diskLive: bool
    var diskReason: Reason
    var diskFailures: nat
    var lastDisk: Option<int>

    var metricsUp: bool
    var metricsReason: Reason
    var metricsFailures: nat
    var metricsRetryAt: Option<int>
    var lastPodUsage: map<string, Resources>
    var lastNodeUsage: map<string, Resources>

    /** The whole past: fetches made, fan-outs run, snapshots published, time seen. */
    ghost var metricsLog: seq<Fetch<Usage>>
    ghost var diskLog: seq<Fetch<map<string, Disk>>>
    ghost var diskCalls: seq<Call>
    ghost var probes: seq<RouteName>
    ghost var published: seq<Snapshot>
    /** What publisher and clients did, in the order they did it. */
    ghost var events: seq<PubSub.Event>
    ghost var clock: int

    // ---------- the state is a function of the past ----------

    ghost predicate MetricsValid()
      reads `metricsUp, `metricsReason, `metricsFailures, `metricsRetryAt, `lastPodUsage, `lastNodeUsage, `metricsLog
    {
      && metricsUp == Up(metricsLog, Metrics)
      && metricsReason == ReasonFor(metricsLog, Metrics)
      && metricsFailures == |metricsLog| - LastDefinitive(metricsLog, Metrics)
      && metricsRetryAt == RetryAt(metricsLog)
      && Usage(lastPodUsage, lastNodeUsage) == UsageServed(metricsLog)
      && Paced(metricsLog)
      && (!metricsEnabled ==> metricsLog == [])
    }

    ghost predicate DiskValid()
      reads `diskByNode, `diskLive, `diskReason, `diskFailures, `lastDisk, `diskLog
    {
      && diskLive == Up(diskLog, NodeDisk)
      && diskReason == ReasonFor(diskLog, NodeDisk)
      && diskFailures == |diskLog| - LastDefinitive(diskLog, NodeDisk)
      && diskByNode == DisksServed(diskLog)
      && lastDisk == (if diskLog == [] then None else Some(diskLog[|diskLog| - 1].end))
      && Paced(diskLog) && Spaced(diskLog)
      && (diskMode.Off? ==> diskLog == [])
    }

    /** In auto mode the settled route is what the calls made so far settle, and a denial
        leaves none; in the other modes none ever is. */
    ghost predicate RouteValid()
      reads `diskRoute, `diskReason, `probes, `diskCalls, `diskLog
    {
      && Told(diskMode, diskCalls, diskLog)
      && diskRoute == RouteIn(diskMode, diskCalls)
      && (diskReason.ForbiddenReason? ==> diskRoute.None?)
      && (diskMode.Off? ==> probes == [])
      && (diskMode.Kubelet? ==> ProxyRoute !in probes)
      && (diskMode.Proxy? ==> KubeletRoute !in probes)
    }

    /** Every fetch on record is over. */
    ghost predicate ClockValid()
      reads `metricsLog, `diskLog, `clock
    {
      && (metricsLog != [] ==> metricsLog[|metricsLog| - 1].end <= clock)
      && (diskLog != [] ==> diskLog[|diskLog| - 1].end <= clock)
    }

    /** The channels are those of a run of publisher and clients; no number of a channel is
        ever used again. */
    ghost predicate PubValid()
      reads `published, `latest, `subs, `nextSub, `events
    {
      && (forall s :: s in published ==> Honest(s))
      && latest == (if published == [] then None else Some(published[|published| - 1]))
      && PubSub.Exec(events).Some? && PubSub.Shows(subs, published, PubSub.Exec(events).value)
      && (forall id :: id in PubSub.Exec(events).value.clients ==> id < nextSub)
    }

    ghost predicate Valid()
      reads this
    {
      MetricsValid() && DiskValid() && RouteValid() && ClockValid() && PubValid()
    }

    constructor (metricsEnabled: bool, diskMode: DiskMode)
      ensures Valid() && this.metricsEnabled == metricsEnabled && this.diskMode == diskMode
      ensures metricsLog == [] && diskLog == [] && diskCalls == [] && probes == [] && published == []
      ensures subs == map[] && events == []
      // Both signals start up, for no reason, with nothing to serve and nothing to wait for.
      ensures metricsUp && diskLive && metricsReason == diskReason == NoReason
      ensures lastPodUsage == lastNodeUsage == map[] && diskByNode == map[]
      ensures metricsRetryAt == lastDisk == None && diskRoute == None && latest == None
    {
      this.metricsEnabled, this.diskMode := metricsEnabled, diskMode;
      diskRoute, latest, subs, nextSub := None, None, map[], 0;
      diskByNode, diskLive, diskReason, diskFailures, lastDisk := map[], true, NoReason, 0, None;
      metricsUp, metricsReason, metricsFailures, metricsRetryAt := true, NoReason, 0, None;
      lastPodUsage, lastNodeUsage := map[], map[];
      metricsLog, diskLog, diskCalls, probes, published, events, clock := [], [], [], [], [], [], 0;
    }

    // ---------- live usage ----------

    /** Folds one answer into the state; the answer is the last of the log afterwards. */
    method NoteMetrics(answer: Outcome<Usage>, ghost start: int, now: int)
      returns (podUsage: map<string, Resources>, nodeUsage: map<string, Resources>, up: bool, reason: Reason)
      requires MetricsValid() && ClockValid() && metricsEnabled && clock <= start <= now
      requires metricsRetryAt.Some? ==> start >= metricsRetryAt.value
      modifies `metricsUp, `metricsReason, `metricsFailures, `metricsRetryAt, `lastPodUsage, `lastNodeUsage,
               `metricsLog, `clock
      ensures MetricsValid() && ClockValid()
      ensures metricsLog == old(metricsLog) + [Fetch(start, now, answer)] && clock == now
      ensures up == Up(metricsLog, Metrics) && reason == ReasonFor(metricsLog, Metrics)
      ensures Usage(podUsage, nodeUsage) == UsageServed(metricsLog)
      ensures (podUsage, nodeUsage, up, reason) == (lastPodUsage, lastNodeUsage, metricsUp, metricsReason)
      // Success, denial and absence settle the matter at once ...
      ensures answer.Ok? ==>
        up && reason == NoReason && Usage(podUsage, nodeUsage) == answer.payload && metricsFailures == 0
      ensures answer.Forbidden? ==> !up && reason == ForbiddenReason && metricsRetryAt == Some(now + 600_000_000_000)
      ensures !answer.Forbidden? ==> metricsRetryAt == old(metricsRetryAt)
      ensures answer.Absent? ==> !up && reason == AbsentReason
      ensures answer.Forbidden? || answer.Absent? ==> podUsage == nodeUsage == map[] && metricsFailures == 0
      // ... while the third failure in a row brings the signal down, and the first two change nothing.
      ensures answer.Transient? ==>
        && metricsFailures == old(metricsFailures) + 1 && up == (old(metricsUp) && metricsFailures < 3)
        && (up ==> reason == old(metricsReason)
                   && podUsage == old(lastPodUsage) && nodeUsage == old(lastNodeUsage))
        && (!up ==> reason == Unavailable && podUsage == nodeUsage == map[])
    {
      ghost var log, f := metricsLog, Fetch(start, now, answer);
      ReasonEmptyIffUp(log, Metrics);
      NothingServedWhenDown(log, diskLog);
      UsageAfter(log, f);
      hide Up, ReasonFor, Served, UsageServed, LastDefinitive, RetryAt, Paced;
      Appended(log, f, Metrics);
      AfterFetch(log, f, Metrics);
      DeniedParks(log);
      PacedGrows(log, f);
      match answer {
        case Ok(usage) =>
          metricsUp := true;
          metricsReason := NoReason;
          metricsFailures := 0;
          lastPodUsage, lastNodeUsage := usage.pods, usage.nodes;
        case Forbidden =>
          metricsUp := false;
          metricsReason := ForbiddenReason;
          metricsFailures := 0;
          metricsRetryAt := Some(now + FORBIDDEN_RETRY);
          lastPodUsage, lastNodeUsage := map[], map[];
        case Absent =>
          metricsUp := false;
          metricsReason := AbsentReason;
          metricsFailures := 0;
          lastPodUsage, lastNodeUsage := map[], map[];
        case Transient =>
          metricsFailures := metricsFailures + 1;
          if metricsUp && metricsFailures >= CAP_FAIL_THRESHOLD {
            metricsUp := false;
            lastPodUsage, lastNodeUsage := map[], map[];
          }
          if !metricsUp {
            metricsReason := Unavailable;
          }
      }
      metricsLog, clock := log + [f], now;
      return lastPodUsage, lastNodeUsage, metricsUp, metricsReason;
    }

    /** The usage to build a snapshot from. It is not asked for while disabled or parked. */
    method CurrentMetrics(start: int, answer: Outcome<Usage>, end: int)
      returns (podUsage: map<string, Resources>, nodeUsage: map<string, Resources>, up: bool, reason: Reason)
      requires MetricsValid() && ClockValid() && clock <= start <= end
      modifies `metricsUp, `metricsReason, `metricsFailures, `metricsRetryAt, `lastPodUsage, `lastNodeUsage,
               `metricsLog, `clock
      ensures MetricsValid() && ClockValid() && clock <= end
      ensures var asked := metricsEnabled && (old(metricsRetryAt).Some? ==> start >= old(metricsRetryAt).value);
        metricsLog == old(metricsLog) + if asked then [Fetch(start, end, answer)] else []
      // It is asked unless it was denied less than ten minutes ago.
      ensures |metricsLog| > |old(metricsLog)| <==>
        metricsEnabled && forall i :: 0 <= i < |old(metricsLog)| && old(metricsLog)[i].outcome.Forbidden? ==>
          start >= old(metricsLog)[i].end + 600_000_000_000
      ensures Usage(podUsage, nodeUsage) == UsageServed(metricsLog)
      ensures up == (metricsEnabled && Up(metricsLog, Metrics))
      ensures reason == if metricsEnabled then ReasonFor(metricsLog, Metrics) else Disabled
      ensures !metricsEnabled ==> podUsage == nodeUsage == map[]
    {
      RetryAtExactly(metricsLog, start);
      if !metricsEnabled { return map[], map[], false, Disabled; }
      if metricsRetryAt.Some? && start < metricsRetryAt.value {
        return lastPodUsage, lastNodeUsage, metricsUp, metricsReason;
      }
      podUsage, nodeUsage, up, reason := NoteMetrics(answer, start, end);
    }

    // ---------- node disk ----------

    /** Reads node disk over the configured route. Auto mode keeps to the route that last
        worked, and probes both, kubelet first, when there is none. */
    method FetchDisk(nodes: seq<string>, kubelet: Route, proxy: Route)
      returns (disk: map<string, Disk>, err: Option<Error>)
      requires !diskMode.Off? && (!diskMode.Auto? ==> diskRoute.None?)
      modifies `diskRoute, `probes
      ensures err.Some? ==> disk == map[]
      ensures var c := Call(nodes, kubelet, proxy);
        && probes == old(probes) + Asked(diskMode, old(diskRoute), c)
        && DiskOutcome(disk, err) == FetchOutcome(diskMode, old(diskRoute), c)
        && diskRoute == Settles(diskMode, old(diskRoute), c)
      // A fixed or settled route is the only one asked; a denial unsettles it.
      ensures diskMode.Kubelet? || old(diskRoute) == Some(KubeletRoute) ==>
        Right(nodes, kubelet, disk, err) && probes == old(probes) + [KubeletRoute]
      ensures diskMode.Proxy? || old(diskRoute) == Some(ProxyRoute) ==>
        Right(nodes, proxy, disk, err) && probes == old(probes) + [ProxyRoute]
      ensures old(diskRoute).Some? ==>
        diskRoute == if err.Some? && err.value.Denied? then None else old(diskRoute)
      ensures !diskMode.Auto? ==> diskRoute == None
      // Else both are tried, kubelets first; the one that works is settled on, and if
      // neither does, the error is a denial if either route denied some node.
      ensures diskMode.Auto? && old(diskRoute).None? ==>
        var kubeletWorks := nodes == [] || AnyAnswered(nodes, kubelet);
        var proxyWorks := nodes == [] || AnyAnswered(nodes, proxy);
        && probes == old(probes) + (if kubeletWorks then [KubeletRoute] else [KubeletRoute, ProxyRoute])
        && (err.Some? <==> !kubeletWorks && !proxyWorks)
        && (err.Some? ==> (err.value.Denied? <==> AnyDenied(nodes, kubelet) || AnyDenied(nodes, proxy)))
        && (err.None? ==> disk == Answers(nodes, if kubeletWorks then kubelet else proxy))
        && diskRoute == (if kubeletWorks then Some(KubeletRoute) else if proxyWorks then Some(ProxyRoute) else None)
    {
      hide Answers, AnyDenied, AnyAnswered;
      match diskMode {
        case Kubelet =>
          probes := probes + [KubeletRoute];
          disk, err := FanOut.Execute(nodes, kubelet);
          return;
        case Proxy =>
          probes := probes + [ProxyRoute];
          disk, err := FanOut.Execute(nodes, proxy);
          return;
        case _ =>
      }
      if diskRoute.Some? {
        var settled := diskRoute.value;
        assert settled.KubeletRoute? || settled.ProxyRoute?;
        probes := probes + [settled];
        var route := if settled.ProxyRoute? then proxy else kubelet;
        disk, err := FanOut.Execute(nodes, route);
        if err.Some? && err.value.Denied? {
          diskRoute := None;
        }
        return;
      }
      probes := probes + [KubeletRoute];
      disk, err := FanOut.Execute(nodes, kubelet);
      var kubeletErr := err;
      if kubeletErr.None? {
        diskRoute := Some(KubeletRoute);
        return;
      }
      probes := probes + [ProxyRoute];
      disk, err := FanOut.Execute(nodes, proxy);
      if err.None? {
        diskRoute := Some(ProxyRoute);
        return;
      }
      if err.value.Denied? { return; }
      if kubeletErr.value.Denied? {
        err := kubeletErr;
      }
    }

    /** Folds the result of one disk fetch into the state. */
    method NoteDisk(disk: map<string, Disk>, err: Option<Error>, ghost start: int, now: int)
      requires DiskValid() && ClockValid() && clock <= start <= now
      requires !diskMode.Off? && DiskDue(lastDisk, diskReason, start)
      requires err.Some? ==> disk == map[]
      modifies `diskByNode, `diskLive, `diskReason, `diskFailures, `lastDisk, `diskLog, `clock
      ensures DiskValid() && ClockValid()
      ensures diskReason.ForbiddenReason? <==> err.Some? && err.value.Denied?
      ensures diskLog == old(diskLog) + [Fetch(start, now, DiskOutcome(disk, err))] && clock == now
      ensures lastDisk == Some(now)
      ensures err.None? ==> diskLive && diskReason == NoReason && diskByNode == disk && diskFailures == 0
      ensures err.Some? && err.value.Denied? ==>
        !diskLive && diskReason == ForbiddenReason && diskByNode == map[] && diskFailures == 0
      ensures err.Some? && err.value.Broken? ==>
        && diskFailures == old(diskFailures) + 1 && diskLive == (old(diskLive) && diskFailures < 3)
        && (diskLive ==> diskReason == old(diskReason) && diskByNode == old(diskByNode))
        && (!diskLive ==> diskReason == Unavailable && diskByNode == map[])
    {
      ghost var log, f := diskLog, Fetch(start, now, DiskOutcome(disk, err));
      ReasonEmptyIffUp(log, NodeDisk);
      NothingServedWhenDown(metricsLog, log);
      DisksAfter(log, f);
      hide Up, ReasonFor, Served, DisksServed, LastDefinitive, RetryAt, Paced, Spaced;
      Appended(log, f, NodeDisk);
      AfterFetch(log, f, NodeDisk);
      PacedGrows(log, f);
      SpacedGrows(log, f);
      lastDisk := Some(now);
      match err {
        case None =>
          diskByNode := disk;
          diskLive := true;
          diskReason := NoReason;
          diskFailures := 0;
        case Some(Denied(_)) =>
          diskByNode := disk;
          diskLive := false;
          diskReason := ForbiddenReason;
          diskFailures := 0;
        case Some(Broken(_)) =>
          diskFailures := diskFailures + 1;
          if diskLive && diskFailures >= CAP_FAIL_THRESHOLD {
            diskLive := false;
            diskByNode := map[];
          }
          if !diskLive {
            diskReason := Unavailable;
          }
      }
      diskLog, clock := log + [f], now;
    }

    method RefreshDisk(nodes: seq<string>, ghost start: int, kubelet: Route, proxy: Route, end: int)
      requires DiskValid() && RouteValid() && ClockValid() && clock <= start <= end
      requires !diskMode.Off? && DiskDue(lastDisk, diskReason, start)
      modifies `diskRoute, `diskCalls, `probes, `diskByNode, `diskLive, `diskReason, `diskFailures, `lastDisk,
               `diskLog, `clock
      ensures DiskValid() && RouteValid() && ClockValid() && clock == end
      ensures var c := Call(nodes, kubelet, proxy);
        && diskLog == old(diskLog) + [Fetch(start, end, FetchOutcome(diskMode, old(diskRoute), c))]
        && diskCalls == old(diskCalls) + [c]
        && probes == old(probes) + Asked(diskMode, old(diskRoute), c)
        && diskRoute == Settles(diskMode, old(diskRoute), c)
    {
      hide DiskDue, DiskValid, ClockValid, Works, AnyDenied, Answers, RouteOutcome, FetchOutcome, Told, RouteAfter;
      ghost var c, log := Call(nodes, kubelet, proxy), diskLog;
      var disk, err := FetchDisk(nodes, kubelet, proxy);
      NoteDisk(disk, err, start, end);
      ToldGrows(diskMode, diskCalls, log, c, diskLog[|log|]);
      diskCalls := diskCalls + [c];
    }

    lemma DiskFigures()
      requires DiskValid()
      ensures diskLive == Up(diskLog, NodeDisk) && diskReason == ReasonFor(diskLog, NodeDisk)
      ensures diskByNode == DisksServed(diskLog)
      ensures diskLog == [] ==> diskByNode == map[]
      ensures diskMode.Off? ==> diskLog == []
    {}

    /** The disk figures to build a snapshot from, refreshed when they are due. */
    method CurrentDisk(nodes: seq<NodeInfo>, start: int, kubelet: Route, proxy: Route, end: int)
      returns (disks: map<string, Disk>, live: bool, reason: Reason)
      requires DiskValid() && RouteValid() && ClockValid() && clock <= start <= end
      modifies `diskRoute, `diskCalls, `probes, `diskByNode, `diskLive, `diskReason, `diskFailures, `lastDisk,
               `diskLog, `clock
      ensures DiskValid() && RouteValid() && ClockValid() && clock <= end
      ensures var c := Call(NamesOf(nodes), kubelet, proxy);
        if !diskMode.Off? && DiskDue(old(lastDisk), old(diskReason), start) then
          && diskLog == old(diskLog) + [Fetch(start, end, FetchOutcome(diskMode, old(diskRoute), c))]
          && diskCalls == old(diskCalls) + [c]
          && probes == old(probes) + Asked(diskMode, old(diskRoute), c)
          && diskRoute == Settles(diskMode, old(diskRoute), c)
        else
          && diskLog == old(diskLog) && diskCalls == old(diskCalls)
          && probes == old(probes) && diskRoute == old(diskRoute)
      // One is made at the start, then a minute after the last one ended, ten after a denial.
      ensures |diskLog| == |old(diskLog)| + (if
        && !diskMode.Off?
        && (|| old(diskLog) == []
            || var last := old(diskLog)[|old(diskLog)| - 1];
               start - last.end >= if last.outcome.Forbidden? then 600_000_000_000 else 60_000_000_000)
        then 1 else 0)
      ensures disks == DisksServed(diskLog)
      ensures live == (!diskMode.Off? && Up(diskLog, NodeDisk))
      ensures reason == if diskMode.Off? then Disabled else ReasonFor(diskLog, NodeDisk)
      ensures diskMode.Off? ==> disks == map[]
    {
      DueExactly(diskLog, lastDisk, diskReason, start);
      hide *;
      DiskFigures();
      if diskMode.Off? { return map[], false, Disabled; }
      if DiskDue(lastDisk, diskReason, start) {
        RefreshDisk(NamesOf(nodes), start, kubelet, proxy, end);
      }
      DiskFigures();
      return diskByNode, diskLive, diskReason;
    }

    // ---------- publishing ----------

    /** A new channel, with an empty buffer. */
    method Subscribe() returns (id: nat)
      requires PubValid()
      modifies `subs, `nextSub, `events
      ensures PubValid() && id !in PubSub.Exec(old(events)).value.clients
      ensures id == old(nextSub) < nextSub && subs == old(subs)[id := []]
      ensures events == old(events) + [PubSub.Subscribe(id)]
    {
      hide Honest, PubSub.Exec, PubSub.Shows;
      ghost var s := PubSub.Exec(events).value;
      PubSub.CallsAreEvents(s, subs, published, nextSub);
      PubSub.Extend(events, PubSub.Subscribe(nextSub), s, PubSub.Step(s, PubSub.Subscribe(nextSub)));
      id := nextSub;
      nextSub := nextSub + 1;
      subs := subs[id := []];
      events := events + [PubSub.Subscribe(id)];
    }

    /** Takes effect once: an unknown channel is ignored. */
    method Cancel(id: nat)
      requires PubValid()
      modifies `subs, `events
      ensures PubValid() && subs == old(subs) - {id}
      ensures events == old(events) + if id in old(subs) then [PubSub.Cancel(id)] else []
    {
      hide Honest, PubSub.Exec, PubSub.Shows;
      if id in subs {
        ghost var s := PubSub.Exec(events).value;
        PubSub.CallsAreEvents(s, subs, published, id);
        PubSub.Extend(events, PubSub.Cancel(id), s, PubSub.Step(s, PubSub.Cancel(id)));
        events := events + [PubSub.Cancel(id)];
      } else {
        assert subs - {id} == subs;
      }
      subs := subs - {id};
    }

    /** The latest snapshot; a stream reads it once, after subscribing. */
    method Latest(ghost reader: Option<nat>) returns (snap: Option<Snapshot>)
      requires PubValid()
      requires reader.Some? ==> PubSub.Enabled(PubSub.Exec(events).value, PubSub.ReadLatest(reader.value))
      modifies `events
      ensures PubValid() && snap == latest && (snap.Some? ==> Honest(snap.value))
      ensures events == old(events) + if reader.Some? then [PubSub.ReadLatest(reader.value)] else []
    {
      hide PubSub.Exec, PubSub.Shows;
      if reader.Some? {
        ghost var s, e := PubSub.Exec(events).value, PubSub.ReadLatest(reader.value);
        PubSub.CallsAreEvents(s, subs, published, reader.value);
        PubSub.Extend(events, e, s, PubSub.Step(s, e));
        events := events + [e];
      }
      return latest;
    }

    /** A stream takes the snapshot its channel holds: one that was published, and honest. */
    method Receive(id: nat) returns (snap: Snapshot)
      requires PubValid() && id in subs && subs[id] != []
      requires PubSub.Exec(events).value.clients[id].latest.Some?
      modifies `subs, `events
      ensures PubValid() && snap == old(subs)[id][0] && subs == old(subs)[id := old(subs)[id][1..]]
      ensures snap in published && Honest(snap)
      ensures events == old(events) + [PubSub.Receive(id)]
    {
      ghost var s, e := PubSub.Exec(events).value, PubSub.Receive(id);
      PubSub.HoldsWhatItBuffers(s, subs, published, id);
      hide Honest, PubSub.Exec, PubSub.Shows;
      PubSub.CallsAreEvents(s, subs, published, id);
      PubSub.Extend(events, e, s, PubSub.Step(s, e));
      snap := subs[id][0];
      subs := subs[id := subs[id][1..]];
      events := events + [e];
    }

    /** Makes the snapshot the latest and offers it to every subscriber: an empty channel
        takes it, a full one keeps the older snapshot it holds. */
    method Publish(snap: Snapshot)
      requires PubValid() && Honest(snap)
      modifies `latest, `subs, `published, `events
      ensures PubValid() && published == old(published) + [snap] && latest == Some(snap)
      ensures subs == PubSub.OfferAll(old(subs), snap)
      ensures PubSub.Publication(old(events), events, old(subs).Keys)
    {
      hide Honest, PubSub.Exec, PubSub.Shows, PubSub.OfferAll;
      latest := Some(snap);
      ghost var before := subs;
      ghost var order := Offer(snap);
      PubSub.PublishIsEvents(events, before, published, snap, order);
      published := published + [snap];
      events := events + [PubSub.Begin] + PubSub.Offers(order) + [PubSub.End];
    }

    /** Goes through the channels, in no particular order. */
    method Offer(snap: Snapshot) returns (ghost order: seq<nat>)
      modifies `subs
      ensures subs == PubSub.OfferAll(old(subs), snap)
      ensures PubSub.Distinct(order) && PubSub.IdsOf(order) == old(subs).Keys
    {
      hide PubSub.Distinct, PubSub.IdsOf, PubSub.OfferSome, PubSub.OfferAll;
      ghost var before := subs;
      var rest := subs.Keys;
      order := [];
      PubSub.NoIds();
      PubSub.OfferNoneOrAll(subs, snap);
      while rest != {}
        modifies `subs
        invariant rest == before.Keys - PubSub.IdsOf(order) && PubSub.IdsOf(order) <= before.Keys
        invariant PubSub.Distinct(order) && subs == PubSub.OfferSome(before, PubSub.IdsOf(order), snap)
        decreases |rest|
      {
        var id: nat :| id in rest;
        PubSub.OfferOne(before, PubSub.IdsOf(order), id, snap);
        if subs[id] == [] {
          subs := subs[id := [snap]];
        }
        rest := rest - {id};
        PubSub.OneMoreId(order, id);
        order := order + [id];
      }
      assert PubSub.IdsOf(order) == before.Keys;
    }

    // ---------- one poll ----------

    /** The snapshot tells what the state, after the fetches it was built from, serves. */
    ghost predicate Tells(snap: Snapshot, nodes: seq<NodeInfo>, pods: seq<PodInfo>)
      reads `metricsLog, `diskLog
    {
      && snap.capabilities == Capabilities(
           metricsEnabled && Up(metricsLog, Metrics),
           if metricsEnabled then ReasonFor(metricsLog, Metrics) else Disabled,
           !diskMode.Off? && Up(diskLog, NodeDisk),
           if diskMode.Off? then Disabled else ReasonFor(diskLog, NodeDisk))
      && snap.nodes == NodesOf(nodes, pods,
           Signals(UsageServed(metricsLog).pods, UsageServed(metricsLog).nodes, DisksServed(diskLog)))
      && Reports(snap.nodes, nodes, pods,
           Signals(UsageServed(metricsLog).pods, UsageServed(metricsLog).nodes, DisksServed(diskLog)))
    }

    /** The fetches one poll makes: live usage unless it is disabled or parked, node disk
        when it is due. */
    twostate predicate Fetched(w: World, nodes: seq<NodeInfo>)
      reads `metricsLog, `diskLog, `diskCalls, `probes, `diskRoute
    {
      var asked := metricsEnabled && (old(metricsRetryAt).Some? ==> w.metricsStart >= old(metricsRetryAt).value);
      var due := !diskMode.Off? && DiskDue(old(lastDisk), old(diskReason), w.diskStart);
      var c := Call(NamesOf(nodes), w.kubelet, w.proxy);
      && metricsLog == old(metricsLog) + (if asked then [Fetch(w.metricsStart, w.metricsEnd, w.metrics)] else [])
      && if due then
           && diskLog == old(diskLog) + [Fetch(w.diskStart, w.diskEnd, FetchOutcome(diskMode, old(diskRoute), c))]
           && diskCalls == old(diskCalls) + [c]
           && probes == old(probes) + Asked(diskMode, old(diskRoute), c)
           && diskRoute == Settles(diskMode, old(diskRoute), c)
         else
           && diskLog == old(diskLog) && diskCalls == old(diskCalls)
           && probes == old(probes) && diskRoute == old(diskRoute)
    }

    /** In plain numbers, from the logs alone: live usage is asked for unless it was denied
        less than ten minutes ago, node disk at the start, then a minute after the last
        fetch ended, and ten after a denied one. */
    twostate predicate FetchedWhenDue(w: World)
      reads `metricsLog, `diskLog
    {
      && (|metricsLog| > |old(metricsLog)| <==>
            metricsEnabled && forall i :: 0 <= i < |old(metricsLog)| && old(metricsLog)[i].outcome.Forbidden? ==>
              w.metricsStart >= old(metricsLog)[i].end + 600_000_000_000)
      && (|diskLog| > |old(diskLog)| <==>
            && !diskMode.Off?
            && (|| old(diskLog) == []
                || var last := old(diskLog)[|old(diskLog)| - 1];
                   w.diskStart - last.end >= if last.outcome.Forbidden? then 600_000_000_000 else 60_000_000_000))
    }

    method Build(w: World, nodes: seq<NodeInfo>, pods: seq<PodInfo>) returns (snap: Snapshot)
      requires MetricsValid() && DiskValid() && RouteValid() && ClockValid()
      requires clock <= w.metricsStart <= w.metricsEnd <= w.diskStart <= w.diskEnd
      modifies `metricsUp, `metricsReason, `metricsFailures, `metricsRetryAt, `lastPodUsage, `lastNodeUsage,
               `metricsLog, `clock, `diskRoute, `diskCalls, `probes, `diskByNode, `diskLive, `diskReason, `diskFailures,
               `lastDisk, `diskLog
      ensures MetricsValid() && DiskValid() && RouteValid() && ClockValid() && clock <= w.diskEnd
      ensures FetchedWhenDue(w)
      ensures Fetched(w, nodes) && Tells(snap, nodes, pods) && Honest(snap)
    {
      hide MetricsValid, DiskValid, RouteValid, Up, ReasonFor, UsageServed, DisksServed, NodesOf, Reports, Honest,
           DiskDue, FetchOutcome, Asked, Settles;
      var podUsage, nodeUsage, metricsOK, metricsReason' := CurrentMetrics(w.metricsStart, w.metrics, w.metricsEnd);
      var disks, live, diskReason' := CurrentDisk(nodes, w.diskStart, w.kubelet, w.proxy, w.diskEnd);
      var s := Signals(podUsage, nodeUsage, disks);
      var capabilities := Capabilities(metricsOK, metricsReason', live, diskReason');
      snap := Assemble(nodes, pods, s, capabilities);
      NothingServedWhenDown(metricsLog, diskLog);
      BuiltHonest(nodes, pods, s, capabilities);
    }

    /** Assembles and publishes one snapshot; if the listers fail it does nothing at all. */
    method PollOnce(w: World) returns (ok: bool)
      requires Valid() && clock <= w.metricsStart <= w.metricsEnd <= w.diskStart <= w.diskEnd
      modifies this
      ensures Valid() && clock <= w.diskEnd
      ensures ok <==> w.nodes.Some? && w.pods.Some?
      ensures !ok ==> unchanged(this)
      ensures ok ==> Fetched(w, w.nodes.value)
      ensures ok ==> FetchedWhenDue(w)
      ensures ok ==> PubSub.Publication(old(events), events, old(subs).Keys) && nextSub == old(nextSub)
      ensures ok ==> exists snap: Snapshot ::
        && Tells(snap, w.nodes.value, w.pods.value) && Honest(snap)
        && published == old(published) + [snap] && latest == Some(snap)
        && subs == PubSub.OfferAll(old(subs), snap)
        // What is down shows no figures, and only what is down is given a reason.
        && (!snap.capabilities.metrics ==>
              forall n :: n in snap.nodes ==> !n.hasUsage && forall p :: p in n.pods ==> !p.hasUsage)
        && (!snap.capabilities.disk ==> forall n :: n in snap.nodes ==> !n.disk.live)
        && (snap.capabilities.metricsReason == NoReason <==> snap.capabilities.metrics)
        && (snap.capabilities.diskReason == NoReason <==> snap.capabilities.disk)
    {
      hide MetricsValid, DiskValid, RouteValid, ClockValid, PubValid, Honest, Fetched, Tells, PubSub.OfferAll,
           PubSub.Publication;
      if w.nodes.None? { return false; }
      if w.pods.None? { return false; }
      var snap := Build(w, w.nodes.value, w.pods.value);
      Publish(snap);
      HonestMeans(snap);
      return true;
    }

    // ---------- over any run ----------

    /** Whatever calls have been made: any stretch of time holds at most one denied fetch of
        each signal for every ten minutes of it, and one more. */
    lemma DenialBudgets(from: int, window: nat)
      requires Valid()
      ensures |set i: nat | i < |metricsLog| && metricsLog[i].outcome.Forbidden?
                             && from <= metricsLog[i].end <= from + window| <= window / 600_000_000_000 + 1
      ensures |set i: nat | i < |diskLog| && diskLog[i].outcome.Forbidden?
                             && from <= diskLog[i].end <= from + window| <= window / 600_000_000_000 + 1
    {
      DeniedAtMost(metricsLog, from, window);
      DeniedAtMost(diskLog, from, window);
    }

    /** And the fetches keep their distance: ten minutes from a denial, and disk fetches a
        minute from every other. */
    lemma FetchesAreApart()
      requires Valid()
      ensures forall i, j :: 0 <= i < j < |metricsLog| ==>
        metricsLog[j].start - metricsLog[i].end >= if metricsLog[i].outcome.Forbidden? then 600_000_000_000 else 0
      ensures forall i, j :: 0 <= i < j < |diskLog| ==>
        diskLog[j].start - diskLog[i].end >= if diskLog[i].outcome.Forbidden? then 600_000_000_000 else 60_000_000_000
    {}

    /** Whatever calls have been made: in auto mode a route is settled exactly if some call
        settled on it, the proxy only after the kubelets had failed, and it has not been
        denied since. */
    lemma RouteOfRun(r: RouteName)
      requires Valid()
      ensures diskRoute == Some(r) <==>
        && diskMode.Auto?
        && exists i: nat :: i < |diskCalls| && SettledBy(diskCalls, i, r) && NotDeniedSince(diskCalls, i, r)
    {
      RouteHistory(diskCalls, r);
    }

    /** Whatever calls have been made, by the collector and by its clients in between: what a
        channel gave and holds are, in order, exactly the snapshots published since it was
        subscribed less those it turned away; and what it holds is honest. */
    lemma Delivered(id: nat)
      requires Valid() && id in subs
      ensures var s := PubSub.Exec(events).value;
        var c := s.clients[id];
        && s.count == |published|
        && PubSub.Increasing(c.received + c.buffer)
        && (forall n: nat :: c.since < n <= |published| ==>
              (n in c.received + c.buffer <==> !PubSub.Dropped(c, n)))
        && PubSub.Stands(published, c.buffer, subs[id])
      ensures |subs[id]| <= 1 && forall snap :: snap in subs[id] ==> snap in published && Honest(snap)
    {
      PubSub.Delivery(events, id);
      PubSub.HoldsWhatItBuffers(PubSub.Exec(events).value, subs, published, id);
    }

    /** A signal that is parked is down, for being forbidden, and serves nothing; a parked
        disk signal has no settled route. */
    lemma ParkedIsForbidden(now: int)
      requires Valid() && clock <= now
      ensures metricsRetryAt.Some? && now < metricsRetryAt.value ==>
        !metricsUp && metricsReason == ForbiddenReason && lastPodUsage == lastNodeUsage == map[]
      ensures lastDisk.Some? && DISK_INTERVAL <= now - lastDisk.value && !DiskDue(lastDisk, diskReason, now) ==>
        !diskLive && diskReason == ForbiddenReason && diskByNode == map[] && diskRoute.None?
    {
      if metricsRetryAt.Some? && now < metricsRetryAt.value {
        ParkedMeansForbidden(metricsLog, now, Metrics);
      }
      ReasonEmptyIffUp(diskLog, NodeDisk);
    }
  }
}
