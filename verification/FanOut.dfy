/** The bounded fan-out of one disk fetch, as interleaved steps of the loop that starts a
    goroutine per node and of those goroutines. They share an eight-slot semaphore, a wait
    group, a mutex and the fold of the answers. */
module FanOut {
  import opened Model

  const CONCURRENCY: nat := 8

  datatype Error = Denied(detail: string) | Broken(detail: string)
  datatype Answer = Answered(disk: Disk) | Failed(error: Error)

  /** How one route answers for each node, by name. */
  type Route = string -> Answer

  // ---------- what the fan-out should return ----------

  ghost predicate AnyAnswered(nodes: seq<string>, route: Route) {
    exists i :: 0 <= i < |nodes| && route(nodes[i]).Answered?
  }

  ghost predicate AnyDenied(nodes: seq<string>, route: Route) {
    exists i :: 0 <= i < |nodes| && route(nodes[i]).Failed? && route(nodes[i]).error.Denied?
  }

  ghost predicate AllAnswered(nodes: seq<string>, route: Route) {
    forall i :: 0 <= i < |nodes| ==> route(nodes[i]).Answered?
  }

  ghost predicate GivenBySome(nodes: seq<string>, route: Route, e: Error) {
    exists i :: 0 <= i < |nodes| && route(nodes[i]) == Failed(e)
  }

  ghost function Answers(nodes: seq<string>, route: Route): map<string, Disk> {
    map name | name in nodes && route(name).Answered? :: route(name).disk
  }

  /** The result is right: every answer is in the map and nothing else; there is no error
      if some node answered or none was asked, else an error some node gave, and a denied
      one if any was. */
  ghost predicate Right(nodes: seq<string>, route: Route, results: map<string, Disk>, err: Option<Error>) {
    && results == Answers(nodes, route)
    && (err.None? <==> nodes == [] || AnyAnswered(nodes, route))
    && (err.Some? ==> GivenBySome(nodes, route, err.value))
    && (err.Some? ==> (err.value.Denied? <==> AnyDenied(nodes, route)))
  }

  // ---------- the fold of the answers ----------

  datatype Fold = Fold(results: map<string, Disk>, anyOK: bool, lastErr: Option<Error>)

  /** The critical section of one goroutine. */
  function Record(f: Fold, name: string, answer: Answer): Fold {
    match answer
    case Failed(e) =>
      if f.lastErr.None? || e.Denied? then f.(lastErr := Some(e)) else f
    case Answered(d) => f.(results := f.results[name := d], anyOK := true)
  }

  function Verdict(f: Fold): Option<Error> { if f.anyOK then None else f.lastErr }

  function Sequential(nodes: seq<string>, route: Route): Fold {
    if nodes == [] then Fold(map[], false, None)
    else
      var last := nodes[|nodes| - 1];
      Record(Sequential(nodes[..|nodes| - 1], route), last, route(last))
  }

  // ---------- the goroutines ----------

  /** How far a node has come: the first three steps are the loop's, the others are its
      goroutine's. */
  datatype Phase = Pending | Added | Admitted | Spawned | Called | Locked | Recorded | Unlocked | Released | Done {
    function Rank(): nat {
      match this
      case Pending => 0 case Added => 1 case Admitted => 2 case Spawned => 3 case Called => 4
      case Locked => 5 case Recorded => 6 case Unlocked => 7 case Released => 8 case Done => 9
    }
  }

  function After(p: Phase): Phase {
    match p
    case Pending => Added case Added => Admitted case Admitted => Spawned case Spawned => Called
    case Called => Locked case Locked => Recorded case Recorded => Unlocked
    case Unlocked => Released case Released => Done case Done => Done
  }

  datatype State = State(next: nat, phases: seq<Phase>, slots: nat, waiting: nat, mutex: Option<nat>,
                         calls: seq<nat>, fold: Fold, returned: bool)

  datatype Actor = Loop | Worker(i: nat)

  function Init(nodes: seq<string>): State {
    State(0, seq(|nodes|, _ => Pending), 0, 0, None, seq(|nodes|, _ => 0), Fold(map[], false, None), false)
  }

  predicate Shape(s: State, nodes: seq<string>) {
    |s.phases| == |s.calls| == |nodes| && s.next <= |nodes|
  }

  predicate Enabled(s: State, nodes: seq<string>, a: Actor)
    requires Shape(s, nodes)
  {
    match a
    case Loop =>
      if s.next < |nodes| then
        match s.phases[s.next]
        case Pending => true
        case Added => s.slots < CONCURRENCY
        case Admitted => true
        case _ => false
      else !s.returned && s.waiting == 0
    case Worker(i) =>
      && i < s.next
      && (s.phases[i].Called? ==> s.mutex.None?)
      && (s.phases[i].Unlocked? ==> s.slots > 0)
      && (s.phases[i].Released? ==> s.waiting > 0)
      && !s.phases[i].Done?
  }

  function Step(s: State, nodes: seq<string>, route: Route, a: Actor): (s': State)
    requires Shape(s, nodes) && Enabled(s, nodes, a)
    ensures Shape(s', nodes)
  {
    match a
    case Loop =>
      if s.next == |nodes| then s.(returned := true) else
        (match s.phases[s.next]
         case Pending => s.(phases := s.phases[s.next := Added], waiting := s.waiting + 1)
         case Added => s.(phases := s.phases[s.next := Admitted], slots := s.slots + 1)
         case _ => s.(phases := s.phases[s.next := Spawned], next := s.next + 1))
    case Worker(i) =>
      var p := s.phases[i];
      var on := s.(phases := s.phases[i := After(p)]);
      if p.Spawned? then on.(calls := s.calls[i := s.calls[i] + 1])
      else if p.Called? then on.(mutex := Some(i))
      else if p.Locked? then on.(fold := Record(s.fold, nodes[i], route(nodes[i])))
      else if p.Recorded? then on.(mutex := None)
      else if p.Unlocked? then on.(slots := s.slots - 1)
      else if p.Released? then on.(waiting := s.waiting - 1)
      else on
  }

  // ---------- counting ----------

  /** How many nodes are between two phases. */
  ghost function Count(phases: seq<Phase>, lo: nat, hi: nat): nat {
    if phases == [] then 0
    else Count(phases[1..], lo, hi) + (if lo <= phases[0].Rank() <= hi then 1 else 0)
  }

  ghost function Progress(phases: seq<Phase>): nat {
    if phases == [] then 0 else phases[0].Rank() + Progress(phases[1..])
  }

  lemma {:induction false} CountUpdate(phases: seq<Phase>, i: nat, p: Phase, lo: nat, hi: nat)
    requires i < |phases|
    ensures Count(phases[i := p], lo, hi) + (if lo <= phases[i].Rank() <= hi then 1 else 0)
         == Count(phases, lo, hi) + (if lo <= p.Rank() <= hi then 1 else 0)
  {
    if i > 0 {
      CountUpdate(phases[1..], i - 1, p, lo, hi);
      assert phases[i := p][1..] == phases[1..][i - 1 := p];
    }
  }

  lemma {:induction false} ProgressUpdate(phases: seq<Phase>, i: nat, p: Phase)
    requires i < |phases|
    ensures Progress(phases[i := p]) + phases[i].Rank() == Progress(phases) + p.Rank()
  {
    if i > 0 {
      ProgressUpdate(phases[1..], i - 1, p);
      assert phases[i := p][1..] == phases[1..][i - 1 := p];
    }
  }

  lemma {:induction false} ProgressBound(phases: seq<Phase>)
    ensures Progress(phases) <= 9 * |phases|
  {
    if phases != [] { ProgressBound(phases[1..]); }
  }

  lemma {:induction false} CountZero(phases: seq<Phase>, lo: nat, hi: nat)
    ensures Count(phases, lo, hi) == 0
       <==> forall i :: 0 <= i < |phases| ==> !(lo <= phases[i].Rank() <= hi)
  {
    if phases != [] {
      CountZero(phases[1..], lo, hi);
      assert forall i :: 0 < i < |phases| ==> phases[i] == phases[1..][i - 1];
      assert forall i :: 0 <= i < |phases| - 1 ==> phases[1..][i] == phases[i + 1];
    }
  }

  // ---------- the invariant ----------

  ghost predicate Counted(s: State, i: int) requires 0 <= i < |s.phases| { s.phases[i].Rank() >= 6 }

  /** The fold holds exactly the answers recorded so far. */
  ghost predicate FoldInv(s: State, nodes: seq<string>, route: Route)
    requires Shape(s, nodes)
  {
    && (forall i :: 0 <= i < |nodes| && Counted(s, i) && route(nodes[i]).Answered? ==>
          nodes[i] in s.fold.results && s.fold.anyOK)
    && (forall name :: name in s.fold.results ==>
          name in nodes && route(name).Answered? && s.fold.results[name] == route(name).disk)
    && (s.fold.anyOK ==> AnyAnswered(nodes, route))
    && (forall i :: 0 <= i < |nodes| && Counted(s, i) && route(nodes[i]).Failed? ==>
          s.fold.lastErr.Some? && (route(nodes[i]).error.Denied? ==> s.fold.lastErr.value.Denied?))
    && (s.fold.lastErr.Some? ==> GivenBySome(nodes, route, s.fold.lastErr.value))
  }

  /** The loop has started the nodes before `next`, and is busy with that one. */
  ghost predicate LoopInv(s: State, nodes: seq<string>)
    requires Shape(s, nodes)
  {
    && (forall i :: 0 <= i < |nodes| ==> if i < s.next then s.phases[i].Rank() >= 3
                                         else if i == s.next then s.phases[i].Rank() <= 2
                                         else s.phases[i].Pending?)
    && (forall i :: 0 <= i < |nodes| ==> s.calls[i] == if s.phases[i].Rank() >= 4 then 1 else 0)
  }

  ghost predicate CountInv(s: State) {
    && s.slots == Count(s.phases, 2, 7) && s.slots <= CONCURRENCY
    && s.waiting == Count(s.phases, 1, 8)
  }

  ghost predicate MutexInv(s: State) {
    && (forall i :: 0 <= i < |s.phases| ==> (s.phases[i].Locked? || s.phases[i].Recorded? <==> s.mutex == Some(i)))
    && (s.mutex.Some? ==> s.mutex.value < |s.phases|)
  }

  ghost predicate Inv(s: State, nodes: seq<string>, route: Route) {
    && Shape(s, nodes) && LoopInv(s, nodes) && CountInv(s) && MutexInv(s) && FoldInv(s, nodes, route)
    && (s.returned ==> s.next == |nodes| && s.waiting == 0)
  }

  lemma {:induction false} InitInv(nodes: seq<string>, route: Route)
    ensures Inv(Init(nodes), nodes, route)
  {
    CountZero(Init(nodes).phases, 2, 7);
    CountZero(Init(nodes).phases, 1, 8);
  }

  /** The node an actor moves. */
  function Moved(s: State, a: Actor): nat { if a.Loop? then s.next else a.i }

  /** A step that is not the return moves one node one phase on. */
  lemma StepMoves(s: State, nodes: seq<string>, route: Route, a: Actor)
    requires Inv(s, nodes, route) && Enabled(s, nodes, a) && !(a.Loop? && s.next == |nodes|)
    ensures var m := Moved(s, a);
      && m < |nodes| && s.phases[m] != Done
      && Step(s, nodes, route, a).phases == s.phases[m := After(s.phases[m])]
      && After(s.phases[m]).Rank() == s.phases[m].Rank() + 1
  {}

  lemma RecordStep(s: State, nodes: seq<string>, route: Route, i: nat)
    requires Inv(s, nodes, route) && i < s.next && s.phases[i].Locked?
    ensures Enabled(s, nodes, Worker(i)) && FoldInv(Step(s, nodes, route, Worker(i)), nodes, route)
  {
    hide CountInv, MutexInv, LoopInv;
    var s' := Step(s, nodes, route, Worker(i));
    assert s'.fold == Record(s.fold, nodes[i], route(nodes[i]));
    assert forall j :: 0 <= j < |nodes| && j != i ==> (Counted(s', j) <==> Counted(s, j));
    if route(nodes[i]).Answered? {
      assert AnyAnswered(nodes, route);
    }
  }

  lemma FoldStep(s: State, nodes: seq<string>, route: Route, a: Actor)
    requires Inv(s, nodes, route) && Enabled(s, nodes, a)
    ensures FoldInv(Step(s, nodes, route, a), nodes, route)
  {
    if a.Worker? && s.phases[a.i].Locked? {
      RecordStep(s, nodes, route, a.i);
    } else {
      if !(a.Loop? && s.next == |nodes|) { StepMoves(s, nodes, route, a); }
      hide CountInv, MutexInv, LoopInv, Record;
      var s' := Step(s, nodes, route, a);
      assert s'.fold == s.fold;
      assert forall i :: 0 <= i < |nodes| ==> (Counted(s', i) <==> Counted(s, i));
    }
  }

  lemma CountStep(s: State, nodes: seq<string>, route: Route, a: Actor)
    requires Inv(s, nodes, route) && Enabled(s, nodes, a) && !(a.Loop? && s.next == |nodes|)
    ensures CountInv(Step(s, nodes, route, a)) && !s.returned
    ensures Progress(Step(s, nodes, route, a).phases) == Progress(s.phases) + 1
  {
    hide FoldInv, MutexInv;
    StepMoves(s, nodes, route, a);
    var m := Moved(s, a);
    CountUpdate(s.phases, m, After(s.phases[m]), 2, 7);
    CountUpdate(s.phases, m, After(s.phases[m]), 1, 8);
    ProgressUpdate(s.phases, m, After(s.phases[m]));
    CountZero(s.phases, 1, 8);
  }

  lemma MutexStep(s: State, nodes: seq<string>, route: Route, a: Actor)
    requires Inv(s, nodes, route) && Enabled(s, nodes, a)
    ensures MutexInv(Step(s, nodes, route, a))
  {
    hide FoldInv, CountInv;
    if !(a.Loop? && s.next == |nodes|) {
      StepMoves(s, nodes, route, a);
    }
  }

  lemma LoopStep(s: State, nodes: seq<string>, route: Route, a: Actor)
    requires Inv(s, nodes, route) && Enabled(s, nodes, a)
    ensures LoopInv(Step(s, nodes, route, a), nodes)
  {
    hide FoldInv, CountInv, MutexInv;
    if !(a.Loop? && s.next == |nodes|) {
      StepMoves(s, nodes, route, a);
    }
  }

  /** Every step of every actor keeps the invariant, and brings the end one step nearer. */
  lemma StepInv(s: State, nodes: seq<string>, route: Route, a: Actor)
    requires Inv(s, nodes, route) && Enabled(s, nodes, a)
    ensures Inv(Step(s, nodes, route, a), nodes, route)
    ensures var s' := Step(s, nodes, route, a);
      !s.returned && if s'.returned then s'.phases == s.phases else Progress(s'.phases) == Progress(s.phases) + 1
  {
    hide FoldInv, MutexInv, LoopInv;
    FoldStep(s, nodes, route, a);
    MutexStep(s, nodes, route, a);
    LoopStep(s, nodes, route, a);
    if !(a.Loop? && s.next == |nodes|) {
      CountStep(s, nodes, route, a);
    }
  }

  /** No deadlock: until the fan-out returns, somebody can move. */
  lemma NotStuck(s: State, nodes: seq<string>, route: Route) returns (a: Actor)
    requires Inv(s, nodes, route) && !s.returned
    ensures Enabled(s, nodes, a)
  {
    CountZero(s.phases, 2, 7);
    CountZero(s.phases, 1, 8);
    if i :| 0 <= i < s.next && !s.phases[i].Done? {
      a := if s.phases[i].Called? && s.mutex.Some? then Worker(s.mutex.value) else Worker(i);
    } else {
      a := Loop;
    }
  }

  // ---------- runs ----------

  ghost predicate Next(s: State, s': State, nodes: seq<string>, route: Route) {
    Shape(s, nodes) && exists a: Actor :: Enabled(s, nodes, a) && s' == Step(s, nodes, route, a)
  }

  ghost predicate Run(run: seq<State>, nodes: seq<string>, route: Route) {
    && run != [] && run[0] == Init(nodes)
    && forall i :: 0 <= i < |run| - 1 ==> Next(run[i], run[i + 1], nodes, route)
  }

  ghost predicate Stuck(s: State, nodes: seq<string>) {
    Shape(s, nodes) ==> forall a: Actor :: !Enabled(s, nodes, a)
  }

  lemma {:induction false} RunInv(run: seq<State>, nodes: seq<string>, route: Route, k: nat)
    requires Run(run, nodes, route) && k < |run|
    ensures Inv(run[k], nodes, route)
    ensures Progress(run[k].phases) + (if run[k].returned then 1 else 0) >= k
  {
    hide Inv, Step, Enabled, Init;
    if k == 0 {
      InitInv(nodes, route);
    } else {
      RunInv(run, nodes, route, k - 1);
      assert Next(run[k - 1], run[k], nodes, route);
      var a :| Enabled(run[k - 1], nodes, a) && run[k] == Step(run[k - 1], nodes, route, a);
      StepInv(run[k - 1], nodes, route, a);
    }
  }

  /** Between taking a slot of the semaphore and giving it back. */
  predicate HoldsSlot(p: Phase) {
    p.Admitted? || p.Spawned? || p.Called? || p.Locked? || p.Recorded? || p.Unlocked?
  }

  lemma {:induction false} CountLast(phases: seq<Phase>, p: Phase, lo: nat, hi: nat)
    ensures Count(phases + [p], lo, hi) == Count(phases, lo, hi) + if lo <= p.Rank() <= hi then 1 else 0
  {
    if phases == [] {
      assert [] + [p] == [p];
    } else {
      CountLast(phases[1..], p, lo, hi);
      assert (phases + [p])[1..] == phases[1..] + [p];
    }
  }

  lemma {:induction false} CountHolds(phases: seq<Phase>)
    ensures Count(phases, 2, 7) == |set i: nat | i < |phases| && HoldsSlot(phases[i])|
  {
    var holders := set i: nat | i < |phases| && HoldsSlot(phases[i]);
    if phases == [] {
      assert holders == {};
    } else {
      var n := |phases| - 1;
      CountHolds(phases[..n]);
      assert phases == phases[..n] + [phases[n]];
      CountLast(phases[..n], phases[n], 2, 7);
      HoldersGrow(phases[..n], phases[n]);
      hide Count;
    }
  }

  lemma HoldersGrow(phases: seq<Phase>, p: Phase)
    ensures |set i: nat | i < |phases + [p]| && HoldsSlot((phases + [p])[i])|
         == |set i: nat | i < |phases| && HoldsSlot(phases[i])| + if 2 <= p.Rank() <= 7 then 1 else 0
  {
    var before := set i: nat | i < |phases| && HoldsSlot(phases[i]);
    var one: set<nat> := if HoldsSlot(p) then {|phases|} else {};
    assert HoldsSlot(p) <==> 2 <= p.Rank() <= 7;
    hide HoldsSlot;
    assert (set i: nat | i < |phases + [p]| && HoldsSlot((phases + [p])[i])) == before + one;
  }

  /** Nor does it hold back: with less than eight in flight, the next node is let in. */
  lemma SlotsAreUsed(s: State, nodes: seq<string>, route: Route)
    requires Inv(s, nodes, route) && s.next < |nodes|
    requires |set i: nat | i < |s.phases| && HoldsSlot(s.phases[i])| < 8
    ensures Enabled(s, nodes, Loop)
  {
    CountHolds(s.phases);
  }

  /** Throughout every run: at most eight goroutines are between taking a slot and giving
      it back, no route is called twice for a node, and the run is bounded. */
  lemma RunIsBounded(run: seq<State>, nodes: seq<string>, route: Route, k: nat)
    requires Run(run, nodes, route) && k < |run|
    ensures |set i: nat | i < |run[k].phases| && HoldsSlot(run[k].phases[i])| <= 8
    ensures Shape(run[k], nodes) && forall i :: 0 <= i < |nodes| ==> run[k].calls[i] <= 1
    ensures |run| <= 9 * |nodes| + 2
  {
    RunInv(run, nodes, route, k);
    CountHolds(run[k].phases);
    RunInv(run, nodes, route, |run| - 1);
    ProgressBound(run[|run| - 1].phases);
  }

  /** A run that cannot go on has returned, with every route called once and the result
      a sequential loop over the nodes would give, but for which error of a kind it is. */
  lemma RunEndsRight(run: seq<State>, nodes: seq<string>, route: Route)
    requires Run(run, nodes, route)
    requires Stuck(run[|run| - 1], nodes)
    ensures var s := run[|run| - 1];
      && s.returned && |s.calls| == |nodes|
      && (forall i :: 0 <= i < |nodes| ==> s.calls[i] == 1)
      && Right(nodes, route, s.fold.results, Verdict(s.fold))
      && s.fold.results == Sequential(nodes, route).results
      && (Verdict(s.fold).None? <==> Verdict(Sequential(nodes, route)).None?)
      && (Verdict(s.fold).Some? ==>
            (Verdict(s.fold).value.Denied? <==> Verdict(Sequential(nodes, route)).value.Denied?))
  {
    var s := run[|run| - 1];
    RunInv(run, nodes, route, |run| - 1);
    if !s.returned {
      var a := NotStuck(s, nodes, route);
    }
    Returned(s, nodes, route);
    SequentialIsRight(nodes, route);
  }

  lemma Returned(s: State, nodes: seq<string>, route: Route)
    requires Inv(s, nodes, route) && s.returned
    ensures forall i :: 0 <= i < |nodes| ==> s.calls[i] == 1
    ensures Right(nodes, route, s.fold.results, Verdict(s.fold))
  {
    CountZero(s.phases, 1, 8);
    assert forall i :: 0 <= i < |nodes| ==> Counted(s, i);
    assert s.fold.results == Answers(nodes, route);
    if nodes != [] {
      assert Counted(s, 0) && (route(nodes[0]).Answered? || route(nodes[0]).Failed?);
    }
  }

  lemma OneMoreNode(front: seq<string>, last: string, route: Route)
    ensures Answers(front + [last], route)
         == if route(last).Answered? then Answers(front, route)[last := route(last).disk] else Answers(front, route)
    ensures AnyAnswered(front + [last], route) <==> AnyAnswered(front, route) || route(last).Answered?
    ensures AnyDenied(front + [last], route)
       <==> AnyDenied(front, route) || (route(last).Failed? && route(last).error.Denied?)
    ensures AllAnswered(front + [last], route) <==> AllAnswered(front, route) && route(last).Answered?
  {
    var nodes := front + [last];
    assert forall i :: 0 <= i < |front| ==> nodes[i] == front[i];
    assert nodes[|front|] == last;
  }

  lemma GivenStill(front: seq<string>, last: string, route: Route, e: Error)
    requires GivenBySome(front, route, e) || route(last) == Failed(e)
    ensures GivenBySome(front + [last], route, e)
  {
    var nodes := front + [last];
    if GivenBySome(front, route, e) {
      var i :| 0 <= i < |front| && route(front[i]) == Failed(e);
      assert route(nodes[i]) == Failed(e);
    } else {
      assert nodes[|front|] == last;
    }
  }

  /** What a fold knows of the nodes recorded in it. */
  ghost predicate Tallies(f: Fold, nodes: seq<string>, route: Route) {
    && f.results == Answers(nodes, route)
    && (f.anyOK <==> AnyAnswered(nodes, route))
    && (f.lastErr.None? <==> AllAnswered(nodes, route))
    && (f.lastErr.Some? ==> GivenBySome(nodes, route, f.lastErr.value))
    && (AnyDenied(nodes, route) <==> f.lastErr.Some? && f.lastErr.value.Denied?)
  }

  lemma OneMoreTallied(f: Fold, front: seq<string>, last: string, route: Route)
    requires Tallies(f, front, route)
    ensures Tallies(Record(f, last, route(last)), front + [last], route)
  {
    hide Answers, AnyAnswered, AnyDenied, AllAnswered, GivenBySome;
    OneMoreNode(front, last, route);
    match route(last)
    case Answered(_) =>
      if f.lastErr.Some? { GivenStill(front, last, route, f.lastErr.value); }
    case Failed(e) =>
      GivenStill(front, last, route, e);
      if f.lastErr.Some? { GivenStill(front, last, route, f.lastErr.value); }
  }

  lemma {:induction false} SequentialFacts(nodes: seq<string>, route: Route)
    ensures Tallies(Sequential(nodes, route), nodes, route)
  {
    if nodes != [] {
      var front, last := nodes[..|nodes| - 1], nodes[|nodes| - 1];
      SequentialFacts(front, route);
      hide Tallies, Record;
      OneMoreTallied(Sequential(front, route), front, last, route);
      assert nodes == front + [last];
    }
  }

  lemma SequentialIsRight(nodes: seq<string>, route: Route)
    ensures Right(nodes, route, Sequential(nodes, route).results, Verdict(Sequential(nodes, route)))
  {
    SequentialFacts(nodes, route);
    if nodes != [] {
      assert route(nodes[0]).Answered? || route(nodes[0]).Failed?;
    }
  }

  /** The fan-out itself: any scheduler may pick who moves next. */
  method Execute(nodes: seq<string>, route: Route) returns (results: map<string, Disk>, err: Option<Error>)
    ensures Right(nodes, route, results, err)
    ensures err.Some? ==> results == map[]
  {
    var s := Init(nodes);
    InitInv(nodes, route);
    while !s.returned
      invariant Inv(s, nodes, route)
      decreases 9 * |nodes| - Progress(s.phases), if s.returned then 0 else 1
    {
      ProgressBound(s.phases);
      ghost var able := NotStuck(s, nodes, route);
      assert able in {Loop} + set i: nat | i < |nodes| :: Worker(i);
      var a: Actor :| a in {Loop} + (set i: nat | i < |nodes| :: Worker(i)) && Enabled(s, nodes, a);
      StepInv(s, nodes, route, a);
      s := Step(s, nodes, route, a);
      ProgressBound(s.phases);
    }
    Returned(s, nodes, route);
    results, err := s.fold.results, Verdict(s.fold);
    ErrorMeansEmpty(nodes, route, results, err);
  }

  lemma ErrorMeansEmpty(nodes: seq<string>, route: Route, results: map<string, Disk>, err: Option<Error>)
    requires Right(nodes, route, results, err)
    ensures err.Some? ==> results == map[]
  {
    if err.Some? {
      assert forall name :: name in nodes ==> !route(name).Answered?;
    }
  }
}
