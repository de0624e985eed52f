/** One publisher and any number of stream clients, interleaved. Publishing holds the lock
    while it offers to one channel after another; subscribing, reading the latest snapshot
    and cancelling need the lock; receiving from a channel does not. A snapshot is named by
    its number in the order of publication, from 1. */
module PubSub {
  import opened Model

  /** A snapshot a full channel turned away, and the older one the channel held. */
  datatype Drop = Drop(n: nat, held: nat)

  /** A subscriber running the stream handler: it subscribes, reads the latest snapshot,
      then receives until it cancels. `latest` is what it read, 0 for none; `since`, `upto`
      and `dropped` record its past: how many snapshots there were when it subscribed, the
      last one offered to it, and those it was too slow for. */
  datatype Client = Client(live: bool, latest: Option<nat>, buffer: seq<nat>, received: seq<nat>,
                           since: nat, upto: nat, dropped: seq<Drop>)
  {
    /** Everything its channel took, in order. */
    function Taken(): seq<nat> { received + buffer }
  }

  datatype State = State(count: nat, publishing: bool, pending: set<nat>, clients: map<nat, Client>)

  datatype Event = Begin | Offer(id: nat) | End
                 | Subscribe(id: nat) | ReadLatest(id: nat) | Receive(id: nat) | Cancel(id: nat)
  {
    predicate ByPublisher() { Begin? || Offer? || End? }
  }

  const INIT := State(0, false, {}, map[])

  predicate Enabled(s: State, e: Event) {
    match e
    case Begin => !s.publishing
    case Offer(id) => s.publishing && id in s.pending && id in s.clients
    case End => s.publishing && s.pending == {}
    case Subscribe(id) => !s.publishing && id !in s.clients
    case ReadLatest(id) => !s.publishing && id in s.clients && s.clients[id].live && s.clients[id].latest.None?
    case Receive(id) =>
      id in s.clients && s.clients[id].live && s.clients[id].latest.Some? && s.clients[id].buffer != []
    case Cancel(id) => !s.publishing && id in s.clients && s.clients[id].live
  }

  /** The channel of capacity one: it takes the snapshot if it is empty and turns it away
      otherwise, without blocking. */
  function Offered(c: Client, n: nat): Client {
    if c.buffer == [] then c.(buffer := [n], upto := n)
    else c.(dropped := c.dropped + [Drop(n, c.buffer[0])], upto := n)
  }

  function Step(s: State, e: Event): State
    requires Enabled(s, e)
  {
    match e
    case Begin => s.(count := s.count + 1, publishing := true,
                     pending := set id | id in s.clients && s.clients[id].live)
    case Offer(id) => s.(pending := s.pending - {id}, clients := s.clients[id := Offered(s.clients[id], s.count)])
    case End => s.(publishing := false)
    case Subscribe(id) => s.(clients := s.clients[id := Client(true, None, [], [], s.count, s.count, [])])
    case ReadLatest(id) => s.(clients := s.clients[id := s.clients[id].(latest := Some(s.count))])
    case Receive(id) =>
      var c := s.clients[id];
      s.(clients := s.clients[id := c.(received := c.received + [c.buffer[0]], buffer := c.buffer[1..])])
    case Cancel(id) => s.(clients := s.clients[id := s.clients[id].(live := false)])
  }

  /** The state after a list of events, if each was enabled in its turn. */
  function Exec(events: seq<Event>): Option<State> {
    if events == [] then Some(INIT) else
      var before, e := Exec(events[..|events| - 1]), events[|events| - 1];
      if before.Some? && Enabled(before.value, e) then Some(Step(before.value, e)) else None
  }

  // ---------- the invariant ----------

  ghost predicate Increasing(s: seq<nat>) { forall i, j :: 0 <= i < j < |s| ==> s[i] < s[j] }

  ghost predicate Dropped(c: Client, n: nat) { exists i :: 0 <= i < |c.dropped| && c.dropped[i].n == n }

  /** What the channel took and what it turned away make up, without overlap, exactly the
      snapshots offered since it was subscribed. */
  ghost predicate Accounted(c: Client) {
    && Increasing(c.Taken()) && |c.buffer| <= 1 && c.since <= c.upto
    && (forall n: nat :: n in c.Taken() ==> c.since < n <= c.upto && !Dropped(c, n))
    && (forall n: nat :: c.since < n <= c.upto ==> n in c.Taken() || Dropped(c, n))
    && (forall i :: 0 <= i < |c.dropped| ==> c.since < c.dropped[i].n <= c.upto)
  }

  /** A snapshot turned away found in the channel the last one taken before it. */
  ghost predicate FullWhenDropped(c: Client) {
    forall i :: 0 <= i < |c.dropped| ==>
      var d := c.dropped[i];
      d.held < d.n && d.held in c.Taken() && forall n: nat :: d.held < n <= d.n ==> n !in c.Taken()
  }

  /** What is read at the start is no older than the subscription, and only the first
      snapshot from the channel may be no newer than it. */
  ghost predicate NewerThanLatest(c: Client) {
    && (c.latest.None? ==> c.received == [])
    && (c.latest.Some? ==> c.since <= c.latest.value)
    && (c.latest.Some? ==> forall i :: 1 <= i < |c.Taken()| ==> c.Taken()[i] > c.latest.value)
  }

  ghost predicate ClientInv(c: Client, count: nat, isPending: bool) {
    && Accounted(c) && FullWhenDropped(c) && NewerThanLatest(c)
    && c.upto <= count
    && (c.live ==> c.upto + (if isPending then 1 else 0) == count)
    && (isPending ==> c.live && (c.latest.Some? ==> c.latest.value < count))
    && (c.latest.Some? ==> c.latest.value <= count)
  }

  ghost predicate Inv(s: State) {
    && s.pending <= s.clients.Keys
    && (!s.publishing ==> s.pending == {})
    && forall id :: id in s.clients ==> ClientInv(s.clients[id], s.count, id in s.pending)
  }

  lemma TakeAccounted(c: Client, count: nat)
    requires Accounted(c) && c.buffer == [] && c.upto + 1 == count
    ensures Accounted(Offered(c, count))
  {
    var c' := Offered(c, count);
    assert c'.Taken() == c.Taken() + [count];
    assert forall i :: 0 <= i < |c.Taken()| ==> c.Taken()[i] in c.Taken();
    assert forall n: nat :: Dropped(c', n) <==> Dropped(c, n);
    assert Dropped(c, count) ==> count <= c.upto;
    hide Dropped;
    forall n: nat | c.since < n <= count ensures n in c'.Taken() || Dropped(c', n) {
      if n == count { assert c'.Taken()[|c.Taken()|] == n; }
    }
  }

  lemma TakeInv(c: Client, count: nat)
    requires ClientInv(c, count, true) && c.buffer == []
    ensures ClientInv(Offered(c, count), count, false)
  {
    var c' := Offered(c, count);
    assert c'.Taken() == c.Taken() + [count];
    TakeAccounted(c, count);
    assert forall i :: 0 <= i < |c.dropped| ==> c.dropped[i].n <= c.upto < count;
    hide Accounted, Dropped;
  }

  lemma TurnAway(c: Client, n: nat)
    requires c.buffer != []
    ensures Offered(c, n).Taken() == c.Taken()
    ensures forall m: nat :: Dropped(Offered(c, n), m) <==> Dropped(c, m) || m == n
  {
    var c' := Offered(c, n);
    assert c'.dropped[|c.dropped|].n == n;
    forall m: nat | Dropped(c, m) ensures Dropped(c', m) {
      var i :| 0 <= i < |c.dropped| && c.dropped[i].n == m;
      assert c'.dropped[i].n == m;
    }
  }

  lemma TurnAwayInv(c: Client, count: nat)
    requires ClientInv(c, count, true) && c.buffer != []
    ensures Accounted(Offered(c, count)) && FullWhenDropped(Offered(c, count))
  {
    var c', held := Offered(c, count), c.buffer[0];
    TurnAway(c, count);
    var last := |c.received|;
    assert c.Taken()[last] == held && |c.Taken()| == last + 1;
    assert forall i :: 0 <= i < |c.Taken()| ==> c.Taken()[i] <= held;
    assert held in c.Taken();
    forall i | 0 <= i < |c'.dropped|
      ensures c.since < c'.dropped[i].n <= count
      ensures c'.dropped[i].held < c'.dropped[i].n && c'.dropped[i].held in c.Taken()
      ensures forall n: nat :: c'.dropped[i].held < n <= c'.dropped[i].n ==> n !in c.Taken()
    {
      if i < |c.dropped| { assert c'.dropped[i] == c.dropped[i]; }
    }
  }

  lemma OfferInv(c: Client, count: nat)
    requires ClientInv(c, count, true)
    ensures ClientInv(Offered(c, count), count, false)
  {
    if c.buffer == [] {
      TakeInv(c, count);
    } else {
      TurnAwayInv(c, count);
      TurnAway(c, count);
    }
  }

  lemma ReceiveInv(c: Client, count: nat, isPending: bool)
    requires ClientInv(c, count, isPending) && c.buffer != [] && c.latest.Some?
    ensures ClientInv(c.(received := c.received + [c.buffer[0]], buffer := c.buffer[1..]), count, isPending)
  {
    var c' := c.(received := c.received + [c.buffer[0]], buffer := c.buffer[1..]);
    assert c'.Taken() == c.Taken();
    SameAccount(c, c');
    hide Accounted, FullWhenDropped;
  }

  lemma NewClientInv(count: nat)
    ensures ClientInv(Client(true, None, [], [], count, count, []), count, false)
  {}

  lemma ReadLatestInv(c: Client, count: nat)
    requires ClientInv(c, count, false) && c.live && c.latest.None?
    ensures ClientInv(c.(latest := Some(count)), count, false)
  {
    var c' := c.(latest := Some(count));
    SameAccount(c, c');
    assert forall i :: 0 <= i < |c.Taken()| ==> c.Taken()[i] in c.Taken();
    hide Accounted, FullWhenDropped;
  }

  lemma CancelInv(c: Client, count: nat)
    requires ClientInv(c, count, false)
    ensures ClientInv(c.(live := false), count, false)
  {
    SameAccount(c, c.(live := false));
    hide Accounted, FullWhenDropped;
  }

  /** The account of a channel depends on what it took and turned away alone. */
  lemma SameAccount(c: Client, c': Client)
    requires c'.Taken() == c.Taken() && |c'.buffer| <= |c.buffer| && c'.dropped == c.dropped
    requires c'.since == c.since && c'.upto == c.upto
    ensures Accounted(c) ==> Accounted(c')
    ensures FullWhenDropped(c) ==> FullWhenDropped(c')
  {
    assert forall n: nat :: Dropped(c', n) <==> Dropped(c, n);
    hide Dropped;
  }

  lemma StepInv(s: State, e: Event)
    requires Inv(s) && Enabled(s, e)
    ensures Inv(Step(s, e))
  {
    hide Accounted, FullWhenDropped, NewerThanLatest;
    match e
    case Offer(id) => OfferInv(s.clients[id], s.count);
    case Receive(id) => ReceiveInv(s.clients[id], s.count, id in s.pending);
    case Begin => BeginInv(s);
    case Subscribe(_) => NewClientInv(s.count);
    case ReadLatest(id) => ReadLatestInv(s.clients[id], s.count);
    case Cancel(id) => CancelInv(s.clients[id], s.count);
    case End =>
  }

  lemma BeginInv(s: State)
    requires Inv(s) && !s.publishing
    ensures Inv(Step(s, Begin))
  {}

  /** Every run of every interleaving keeps the invariant. */
  lemma {:induction false} ExecInv(events: seq<Event>)
    requires Exec(events).Some?
    ensures Inv(Exec(events).value)
  {
    if events != [] {
      ExecInv(events[..|events| - 1]);
      StepInv(Exec(events[..|events| - 1]).value, events[|events| - 1]);
    }
  }

  // ---------- what it means ----------

  /** Delivery: a client's channel gives it, in order and once each, the snapshots offered
      since it subscribed, less exactly those that found the channel full. */
  lemma Delivery(events: seq<Event>, id: nat)
    requires Exec(events).Some? && id in Exec(events).value.clients
    ensures var s, c := Exec(events).value, Exec(events).value.clients[id];
      && Increasing(c.received + c.buffer)
      && (forall n: nat :: c.since < n <= c.upto ==> (n in c.received + c.buffer <==> !Dropped(c, n)))
      && (forall n: nat :: n in c.received + c.buffer || Dropped(c, n) ==> c.since < n <= c.upto)
      && FullWhenDropped(c)
      && (c.live && !s.publishing ==> c.upto == s.count)
      && |c.buffer| <= 1
  {
    ExecInv(events);
  }

  /** What a stream shows: the snapshot read at the start, then those received. */
  function Stream(c: Client): seq<nat>
    requires c.latest.Some?
  {
    (if c.latest.value == 0 then [] else [c.latest.value]) + c.received
  }

  /** A stream moves forward at every event but perhaps the first from the channel. */
  lemma StreamMovesForward(events: seq<Event>, id: nat)
    requires Exec(events).Some? && id in Exec(events).value.clients
    requires Exec(events).value.clients[id].latest.Some?
    ensures var c := Exec(events).value.clients[id];
      var first := if c.latest.value == 0 then 0 else 1;
      && forall i, j :: 0 <= i < j < |Stream(c)| && j != first ==> Stream(c)[i] < Stream(c)[j]
  {
    ExecInv(events);
    var c := Exec(events).value.clients[id];
    assert forall i :: 0 <= i < |c.received| ==> c.Taken()[i] == c.received[i];
  }

  lemma FirstOfferIsTaken(c: Client)
    requires Accounted(c) && FullWhenDropped(c) && c.since < c.upto
    ensures c.since + 1 in c.Taken()
  {}

  lemma TakenMeansPublished(c: Client)
    requires Accounted(c) && c.Taken() != []
    ensures c.since < c.upto
  {
    assert c.Taken()[0] in c.Taken();
  }

  /** The first snapshot a channel takes is the first one published since. */
  lemma FirstTaken(c: Client)
    requires Accounted(c) && FullWhenDropped(c) && c.Taken() != []
    ensures c.Taken()[0] == c.since + 1
  {
    assert c.Taken()[0] in c.Taken();
    FirstOfferIsTaken(c);
    var k :| 0 <= k < |c.Taken()| && c.Taken()[k] == c.since + 1;
  }

  /** When a stream moves forward at every event: exactly if nothing was published between
      its subscribing and its reading the latest, or it has not received anything yet. Its
      first event from the channel repeats the latest if one snapshot was published in
      between, and steps back if more were. */
  lemma StreamMovesForwardExactly(events: seq<Event>, id: nat)
    requires Exec(events).Some? && id in Exec(events).value.clients
    requires Exec(events).value.clients[id].latest.Some?
    ensures var c := Exec(events).value.clients[id];
      && (Increasing(Stream(c)) <==> c.received == [] || c.latest.value == c.since)
      && (c.received != [] ==>
            && (c.received[0] == c.latest.value <==> c.latest.value == c.since + 1)
            && (c.received[0] < c.latest.value <==> c.latest.value >= c.since + 2))
  {
    StreamMovesForward(events, id);
    ExecInv(events);
    var c := Exec(events).value.clients[id];
    hide Exec;
    if c.received != [] {
      FirstTaken(c);
      assert c.received[0] == c.since + 1;
      if c.latest.value > 0 {
        assert Stream(c)[0] == c.latest.value && Stream(c)[1] == c.received[0];
      }
    }
  }

  /** What a stream has shown last, 0 for nothing. */
  function LastShown(c: Client): nat
    requires c.latest.Some?
  {
    if Stream(c) == [] then 0 else Stream(c)[|Stream(c)| - 1]
  }

  /** A drained client shows the latest snapshot exactly if its channel did not turn that
      away: else it stays behind until the next one. Its channel has given it something
      exactly if something was published since it subscribed. */
  lemma DrainedIsCurrentUnlessDropped(events: seq<Event>, id: nat)
    requires Exec(events).Some? && id in Exec(events).value.clients
    requires var s, c := Exec(events).value, Exec(events).value.clients[id];
      !s.publishing && c.live && c.buffer == []
    ensures var s, c := Exec(events).value, Exec(events).value.clients[id];
      && (c.received != [] <==> c.since < s.count)
      && (c.received != [] ==> c.latest.Some?)
      && (c.latest.Some? ==> (LastShown(c) == s.count <==> !Dropped(c, s.count)))
  {
    ExecInv(events);
    var count, c := Exec(events).value.count, Exec(events).value.clients[id];
    assert ClientInv(c, count, false);
    hide Exec;
    assert c.Taken() == c.received && c.upto == count;
    hide Accounted, FullWhenDropped, Dropped;
    if c.Taken() != [] { TakenMeansPublished(c); }
    if Dropped(c, count) { DroppedMeansPublished(c, count); }
    if c.since < count {
      FirstOfferIsTaken(c);
      LastOfferIsTakenUnlessDropped(c);
    }
  }

  lemma DroppedMeansPublished(c: Client, n: nat)
    requires Accounted(c) && Dropped(c, n)
    ensures c.since < n <= c.upto
  {}

  lemma LastOfferIsTakenUnlessDropped(c: Client)
    requires Accounted(c) && c.since < c.upto && c.Taken() != []
    ensures c.Taken()[|c.Taken()| - 1] == c.upto <==> !Dropped(c, c.upto)
  {
    hide Dropped;
    var last := |c.Taken()| - 1;
    assert c.Taken()[last] in c.Taken();
    if !Dropped(c, c.upto) {
      var k :| 0 <= k < |c.Taken()| && c.Taken()[k] == c.upto;
    }
  }

  /** The publisher never waits for a client: while it publishes it always has a step, each
      step of its own brings the end nearer, and no step of a client sets it back. */
  lemma PublisherNeverBlocks(events: seq<Event>)
    requires Exec(events).Some? && Exec(events).value.publishing
    ensures var s := Exec(events).value;
      && (s.pending == {} ==> Enabled(s, End))
      && (forall id :: id in s.pending ==> Enabled(s, Offer(id)) && |Step(s, Offer(id)).pending| == |s.pending| - 1)
      && (forall e: Event :: Enabled(s, e) && !e.ByPublisher() ==>
            Step(s, e).pending == s.pending && Step(s, e).publishing)
  {
    hide ClientInv;
    ExecInv(events);
    var s := Exec(events).value;
    hide Exec;
    forall e: Event | Enabled(s, e) && !e.ByPublisher()
      ensures Step(s, e).pending == s.pending && Step(s, e).publishing
    {
      match e
      case Receive(id) =>
      case _ =>
    }
  }

  /** A run of one client, while two snapshots are published between its subscribing and
      its reading the latest. */
  lemma LateReader() returns (events: seq<Event>)
    ensures Exec(events)
         == Some(State(2, false, {}, map[0 := Client(true, Some(2), [], [1], 0, 2, [Drop(2, 1)])]))
  {
    var c1 := Client(true, None, [], [], 0, 0, []);
    var c2 := Offered(c1, 1);
    var c3 := Offered(c2, 2);
    var c4 := c3.(latest := Some(2));
    var c5 := c4.(received := c4.received + [c4.buffer[0]], buffer := c4.buffer[1..]);
    Extend([], Subscribe(0), INIT, State(0, false, {}, map[0 := c1]));
    var e3 := PublishTo([] + [Subscribe(0)], 0, c1);
    var e6 := PublishTo(e3, 1, c2);
    Extend(e6, ReadLatest(0), State(2, false, {}, map[0 := c3]), State(2, false, {}, map[0 := c4]));
    var e7 := e6 + [ReadLatest(0)];
    Extend(e7, Receive(0), State(2, false, {}, map[0 := c4]), State(2, false, {}, map[0 := c5]));
    events := e7 + [Receive(0)];
    assert c5 == Client(true, Some(2), [], [1], 0, 2, [Drop(2, 1)]);
  }

  /** Its stream steps back. */
  lemma StreamMayStepBack()
    ensures exists events: seq<Event> ::
      Exec(events).Some? && 0 in Exec(events).value.clients
      && Exec(events).value.clients[0].latest.Some?
      && Stream(Exec(events).value.clients[0]) == [2, 1]
  {
    var events := LateReader();
    assert Stream(Exec(events).value.clients[0]) == [2, 1];
  }

  /** And its channel, drained while nothing is being published, has not given it the latest. */
  lemma DrainedMayBeBehind()
    ensures exists events: seq<Event> ::
      Exec(events).Some? && 0 in Exec(events).value.clients
      && (var s, c := Exec(events).value, Exec(events).value.clients[0];
          && !s.publishing && c.live && c.buffer == [] && c.since < s.count
          && s.count == 2 && c.received == [1] && Dropped(c, 2))
  {
    var events := LateReader();
    var c := Exec(events).value.clients[0];
    assert c.dropped[0].n == 2;
  }

  /** One publication to a single live client. */
  lemma PublishTo(events: seq<Event>, n: nat, c: Client) returns (events': seq<Event>)
    requires c.live && Exec(events) == Some(State(n, false, {}, map[0 := c]))
    ensures Exec(events') == Some(State(n + 1, false, {}, map[0 := Offered(c, n + 1)]))
  {
    var s0 := State(n, false, {}, map[0 := c]);
    var s1 := State(n + 1, true, {0}, map[0 := c]);
    var s2 := State(n + 1, true, {}, map[0 := Offered(c, n + 1)]);
    assert Step(s0, Begin).pending == {0};
    Extend(events, Begin, s0, s1);
    assert s1.pending - {0} == s2.pending;
    Extend(events + [Begin], Offer(0), s1, s2);
    Extend(events + [Begin] + [Offer(0)], End, s2, s2.(publishing := false));
    events' := events + [Begin] + [Offer(0)] + [End];
  }

  lemma Extend(events: seq<Event>, e: Event, s: State, s': State)
    requires Exec(events) == Some(s) && Enabled(s, e) && Step(s, e) == s'
    ensures Exec(events + [e]) == Some(s')
  {
    assert (events + [e])[..|events|] == events;
  }

  // ---------- the collector's channels ----------

  /** What one publication leaves in the channels: the empty ones take the snapshot. */
  function OfferAll<T(==)>(subs: map<nat, seq<T>>, snap: T): map<nat, seq<T>> {
    map id | id in subs :: if subs[id] == [] then [snap] else subs[id]
  }

  /** What offering to some of the clients leaves. */
  function OfferSome<T(==)>(subs: map<nat, seq<T>>, ids: set<nat>, snap: T): map<nat, seq<T>> {
    map id | id in subs :: if id in ids && subs[id] == [] then [snap] else subs[id]
  }

  lemma OfferNoneOrAll<T>(subs: map<nat, seq<T>>, snap: T)
    ensures OfferSome(subs, {}, snap) == subs && OfferSome(subs, subs.Keys, snap) == OfferAll(subs, snap)
  {}

  lemma OfferOne<T>(subs: map<nat, seq<T>>, ids: set<nat>, id: nat, snap: T)
    requires id in subs && id !in ids
    ensures var now := OfferSome(subs, ids, snap);
      id in now && OfferSome(subs, ids + {id}, snap) == if now[id] == [] then now[id := [snap]] else now
  {}

  /** A buffer of numbers stands for a buffer of snapshots. */
  ghost predicate Stands<T>(published: seq<T>, numbers: seq<nat>, buffer: seq<T>) {
    |numbers| == |buffer| && forall i :: 0 <= i < |numbers| ==>
      1 <= numbers[i] <= |published| && published[numbers[i] - 1] == buffer[i]
  }

  /** Between publications: the channels subscribed and what they buffer are those of the
      live clients. */
  ghost predicate Shows<T>(subs: map<nat, seq<T>>, published: seq<T>, s: State) {
    && |published| == s.count && !s.publishing
    && (forall id: nat :: id in subs <==> id in s.clients && s.clients[id].live)
    && (forall id: nat :: id in subs ==> Stands(published, s.clients[id].buffer, subs[id]))
  }

  function Offers(order: seq<nat>): seq<Event> {
    if order == [] then [] else Offers(order[..|order| - 1]) + [Offer(order[|order| - 1])]
  }

  ghost predicate Distinct(order: seq<nat>) { forall i, j :: 0 <= i < j < |order| ==> order[i] != order[j] }

  /** The state after offering to the given clients. */
  ghost function AfterOffers(s: State, ids: set<nat>): State {
    s.(pending := s.pending - ids,
       clients := map id | id in s.clients :: if id in ids then Offered(s.clients[id], s.count) else s.clients[id])
  }

  ghost function IdsOf(order: seq<nat>): set<nat> { set id | id in order }

  /** One publication to the given clients, in some order. */
  ghost predicate Publication(before: seq<Event>, after: seq<Event>, ids: set<nat>) {
    exists order: seq<nat> ::
      Distinct(order) && IdsOf(order) == ids && after == before + [Begin] + Offers(order) + [End]
  }

  lemma OfferNext(s: State, ids: set<nat>, id: nat)
    requires s.publishing && ids <= s.pending && id in s.pending && id in s.clients && id !in ids
    ensures Enabled(AfterOffers(s, ids), Offer(id))
    ensures Step(AfterOffers(s, ids), Offer(id)) == AfterOffers(s, ids + {id})
  {
    hide Offered;
    var before, after := AfterOffers(s, ids), AfterOffers(s, ids + {id});
    assert before.clients[id] == s.clients[id];
    assert Step(before, Offer(id)).clients == after.clients;
    assert Step(before, Offer(id)).pending == after.pending;
  }

  lemma {:induction false} OffersRun(events: seq<Event>, s: State, order: seq<nat>)
    requires Exec(events) == Some(s) && s.publishing && s.pending <= s.clients.Keys
    requires Distinct(order) && IdsOf(order) <= s.pending
    ensures Exec(events + Offers(order)) == Some(AfterOffers(s, IdsOf(order)))
  {
    if order == [] {
      assert events + Offers(order) == events;
      assert AfterOffers(s, IdsOf(order)) == s by {
        assert IdsOf(order) == {};
        assert AfterOffers(s, {}).clients == s.clients;
      }
    } else {
      var front, id := order[..|order| - 1], order[|order| - 1];
      assert IdsOf(order) == IdsOf(front) + {id} && id !in IdsOf(front) by { assert order == front + [id]; }
      OffersRun(events, s, front);
      OfferNext(s, IdsOf(front), id);
      assert events + Offers(order) == (events + Offers(front)) + [Offer(id)];
      hide Exec, Step, Enabled, AfterOffers;
      Extend(events + Offers(front), Offer(id), AfterOffers(s, IdsOf(front)), AfterOffers(s, IdsOf(order)));
    }
  }

  /** In whatever order the channels are gone through, one publication by the collector is
      the beginning, one offer to each live client, and the end. */
  lemma PublishIsEvents<T>(events: seq<Event>, subs: map<nat, seq<T>>, published: seq<T>, snap: T, order: seq<nat>)
    requires Exec(events).Some? && Shows(subs, published, Exec(events).value)
    requires Distinct(order) && IdsOf(order) == subs.Keys
    ensures var after := Exec(events + [Begin] + Offers(order) + [End]);
      && after.Some? && Shows(OfferAll(subs, snap), published + [snap], after.value)
      && after.value.clients.Keys == Exec(events).value.clients.Keys
  {
    var s := Exec(events).value;
    var begun, offered := Step(s, Begin), AfterOffers(Step(s, Begin), IdsOf(order));
    Extend(events, Begin, s, begun);
    assert begun.pending == subs.Keys;
    OffersRun(events + [Begin], begun, order);
    assert offered.pending == {};
    Extend(events + [Begin] + Offers(order), End, offered, offered.(publishing := false));
    OffersShow(subs, published, snap, s, offered.(publishing := false));
  }

  lemma OffersShow<T>(subs: map<nat, seq<T>>, published: seq<T>, snap: T, s: State, s': State)
    requires Shows(subs, published, s) && !s'.publishing && s'.count == s.count + 1
    requires s'.clients == map id | id in s.clients ::
               if id in subs.Keys then Offered(s.clients[id], s.count + 1) else s.clients[id]
    ensures Shows(OfferAll(subs, snap), published + [snap], s')
  {
    forall id: nat | id in subs
      ensures Stands(published + [snap], s'.clients[id].buffer, OfferAll(subs, snap)[id])
    {
      assert Stands(published, s.clients[id].buffer, subs[id]);
      assert |s.clients[id].buffer| == |subs[id]|;
    }
  }

  lemma NoIds()
    ensures Distinct([]) && IdsOf([]) == {}
  {}

  lemma OneMoreId(order: seq<nat>, id: nat)
    requires Distinct(order) && id !in IdsOf(order)
    ensures Distinct(order + [id]) && IdsOf(order + [id]) == IdsOf(order) + {id}
  {
    assert forall i :: 0 <= i < |order| ==> order[i] in IdsOf(order);
  }

  /** What a subscribed channel buffers was published. */
  lemma HoldsWhatItBuffers<T>(s: State, subs: map<nat, seq<T>>, published: seq<T>, id: nat)
    requires Shows(subs, published, s) && id in subs
    ensures id in s.clients && s.clients[id].live
    ensures |s.clients[id].buffer| == |subs[id]|
    ensures forall snap :: snap in subs[id] ==> snap in published
  {
    assert Stands(published, s.clients[id].buffer, subs[id]);
  }

  /** Subscribing, cancelling and receiving are one event each; and what a client reads as
      the latest is the snapshot its event names. */
  lemma CallsAreEvents<T>(s: State, subs: map<nat, seq<T>>, published: seq<T>, id: nat)
    requires Shows(subs, published, s)
    ensures id !in s.clients ==>
      Enabled(s, Subscribe(id)) && Shows(subs[id := []], published, Step(s, Subscribe(id)))
    ensures id in subs ==>
      Enabled(s, Cancel(id)) && Shows(subs - {id}, published, Step(s, Cancel(id)))
    ensures Enabled(s, Receive(id)) ==>
      && id in subs && subs[id] != []
      && published[s.clients[id].buffer[0] - 1] == subs[id][0]
      && Shows(subs[id := subs[id][1..]], published, Step(s, Receive(id)))
    ensures Enabled(s, ReadLatest(id)) ==> Shows(subs, published, Step(s, ReadLatest(id)))
  {
    if Enabled(s, Receive(id)) {
      assert Stands(published, s.clients[id].buffer, subs[id]);
      assert |s.clients[id].buffer| == |subs[id]|;
    }
  }
}
