/** What the two optional signals, live usage and node disk, should report, told from the
    whole list of fetches made so far; and how far apart those fetches must be. Time is an
    integer number of nanoseconds. */
module SignalHistory {
  import opened Model

  const SECOND: int := 1_000_000_000
  const DISK_INTERVAL: int := 60 * SECOND
  const FORBIDDEN_RETRY: int := 10 * 60 * SECOND
  const CAP_FAIL_THRESHOLD: nat := 3

  datatype Signal = Metrics | NodeDisk

  datatype Outcome<+P> = Ok(payload: P) | Forbidden | Absent | Transient

  /** One fetch: when it was decided on, when its answer was in, and what that was. */
  datatype Fetch<+P> = Fetch(start: int, end: int, outcome: Outcome<P>)

  /** An answer that settles the matter at once. The absence of an API settles it only for
      the metrics signal; a missing kubelet endpoint is a failure like any other. */
  predicate Definitive<P>(o: Outcome<P>, signal: Signal) {
    o.Ok? || o.Forbidden? || (o.Absent? && signal.Metrics?)
  }

  /** The number of the last definitive fetch, counted from 1; 0 if there was none. */
  ghost function LastDefinitive<P>(h: seq<Fetch<P>>, signal: Signal): (k: nat)
    ensures k <= |h|
  {
    if h == [] then 0
    else if Definitive(h[|h| - 1].outcome, signal) then |h|
    else LastDefinitive(h[..|h| - 1], signal)
  }

  lemma {:induction false} LastDefinitiveIsLast<P>(h: seq<Fetch<P>>, signal: Signal)
    ensures var k := LastDefinitive(h, signal);
      && (k > 0 ==> Definitive(h[k - 1].outcome, signal))
      && forall i :: k <= i < |h| ==> !Definitive(h[i].outcome, signal)
  {
    if h != [] { LastDefinitiveIsLast(h[..|h| - 1], signal); }
  }

  /** The signal is up unless the last definitive answer said otherwise, or three failures
      in a row have come after it. */
  ghost predicate Up<P>(h: seq<Fetch<P>>, signal: Signal) {
    var k := LastDefinitive(h, signal);
    (k == 0 || h[k - 1].outcome.Ok?) && |h| - k < CAP_FAIL_THRESHOLD
  }

  ghost function ReasonFor<P>(h: seq<Fetch<P>>, signal: Signal): Reason {
    var k := LastDefinitive(h, signal);
    if Up(h, signal) then NoReason
    else if k < |h| then Unavailable
    else if k > 0 && h[k - 1].outcome.Forbidden? then ForbiddenReason
    else AbsentReason
  }

  /** The last good answer, for as long as the signal is up. */
  ghost function Served<P>(h: seq<Fetch<P>>, signal: Signal): Option<P> {
    var k := LastDefinitive(h, signal);
    if Up(h, signal) && k > 0 then Some(h[k - 1].outcome.payload) else None
  }

  /** The whole of what is reported, from the last fetch that settled the matter: number k,
      counted from 1, or 0 if none did. */
  lemma ClosedForm<P>(h: seq<Fetch<P>>, signal: Signal) returns (k: nat)
    ensures k <= |h|
    ensures k > 0 ==>
      h[k - 1].outcome.Ok? || h[k - 1].outcome.Forbidden? || (h[k - 1].outcome.Absent? && signal.Metrics?)
    ensures forall i :: k <= i < |h| ==> h[i].outcome.Transient? || (h[i].outcome.Absent? && signal.NodeDisk?)
    ensures Up(h, signal) <==> (k == 0 || h[k - 1].outcome.Ok?) && |h| - k < 3
    ensures Up(h, signal) ==>
      ReasonFor(h, signal) == NoReason && Served(h, signal) == if k == 0 then None else Some(h[k - 1].outcome.payload)
    ensures !Up(h, signal) ==>
      && Served(h, signal) == None
      && ReasonFor(h, signal) == (if k < |h| then Unavailable
                                  else if h[k - 1].outcome.Forbidden? then ForbiddenReason else AbsentReason)
  {
    k := LastDefinitive(h, signal);
    LastDefinitiveIsLast(h, signal);
  }

  lemma Appended<P>(h: seq<Fetch<P>>, f: Fetch<P>, signal: Signal)
    ensures LastDefinitive(h + [f], signal)
         == if Definitive(f.outcome, signal) then |h| + 1 else LastDefinitive(h, signal)
    ensures RetryAt(h + [f]) == if f.outcome.Forbidden? then Some(f.end + FORBIDDEN_RETRY) else RetryAt(h)
  {
    hide LastDefinitive, RetryAt;
    AppendedOne(h, f, signal);
    AppendedRetry(h, f);
  }

  lemma AppendedOne<P>(h: seq<Fetch<P>>, f: Fetch<P>, signal: Signal)
    ensures LastDefinitive(h + [f], signal)
         == if Definitive(f.outcome, signal) then |h| + 1 else LastDefinitive(h, signal)
  {
    hide Definitive;
    assert (h + [f])[..|h|] == h;
  }

  lemma AppendedRetry<P>(h: seq<Fetch<P>>, f: Fetch<P>)
    ensures RetryAt(h + [f]) == if f.outcome.Forbidden? then Some(f.end + FORBIDDEN_RETRY) else RetryAt(h)
  {
    assert (h + [f])[..|h|] == h;
  }

  /** What one more fetch does to what is reported. */
  lemma AfterFetch<P>(h: seq<Fetch<P>>, f: Fetch<P>, signal: Signal)
    ensures f.outcome.Ok? ==>
      Up(h + [f], signal) && Served(h + [f], signal) == Some(f.outcome.payload)
    ensures Definitive(f.outcome, signal) && !f.outcome.Ok? ==>
      && !Up(h + [f], signal) && Served(h + [f], signal).None?
      && ReasonFor(h + [f], signal) == if f.outcome.Forbidden? then ForbiddenReason else AbsentReason
    ensures !Definitive(f.outcome, signal) ==>
      && Up(h + [f], signal) == (Up(h, signal) && |h| + 1 - LastDefinitive(h, signal) < CAP_FAIL_THRESHOLD)
      && Served(h + [f], signal) == (if Up(h + [f], signal) then Served(h, signal) else None)
      && (!Up(h + [f], signal) ==> ReasonFor(h + [f], signal) == Unavailable)
    ensures Up(h + [f], signal) ==> ReasonFor(h + [f], signal) == NoReason
  {
    hide LastDefinitive, RetryAt;
    Appended(h, f, signal);
  }

  lemma ReasonEmptyIffUp<P>(h: seq<Fetch<P>>, signal: Signal)
    ensures ReasonFor(h, signal).NoReason? <==> Up(h, signal)
    ensures !Up(h, signal) ==> Served(h, signal).None?
    ensures ReasonFor(h, signal).ForbiddenReason? <==> h != [] && h[|h| - 1].outcome.Forbidden?
  {
    LastDefinitiveIsLast(h, signal);
  }

  // ---------- pacing ----------

  /** Fetches follow one another, and none starts within ten minutes of a denial. */
  ghost predicate Paced<P>(h: seq<Fetch<P>>) {
    && (forall i :: 0 <= i < |h| ==> h[i].start <= h[i].end)
    && (forall i, j :: 0 <= i < j < |h| ==> h[i].end <= h[j].start)
    && (forall i, j :: 0 <= i < j < |h| && h[i].outcome.Forbidden? ==> h[j].start >= h[i].end + FORBIDDEN_RETRY)
  }

  lemma PacedFront<P>(front: seq<Fetch<P>>, last: Fetch<P>)
    requires Paced(front + [last])
    ensures Paced(front)
  {
    var h := front + [last];
    assert forall i :: 0 <= i < |front| ==> h[i] == front[i];
  }

  /** Disk fetches are a minute apart besides. */
  ghost predicate Spaced<P>(h: seq<Fetch<P>>) {
    forall i, j :: 0 <= i < j < |h| ==> h[j].start >= h[i].end + DISK_INTERVAL
  }

  lemma PacedGrows<P>(h: seq<Fetch<P>>, f: Fetch<P>)
    requires Paced(h) && f.start <= f.end
    requires h != [] ==> f.start >= h[|h| - 1].end
    requires h != [] && h[|h| - 1].outcome.Forbidden? ==> f.start >= h[|h| - 1].end + FORBIDDEN_RETRY
    ensures Paced(h + [f])
  {
    forall i | 0 <= i < |h| && h[i].outcome.Forbidden? ensures f.start >= h[i].end + FORBIDDEN_RETRY {
      if i < |h| - 1 { assert h[|h| - 1].start <= h[|h| - 1].end; }
    }
  }

  lemma SpacedGrows<P>(h: seq<Fetch<P>>, f: Fetch<P>)
    requires Paced(h) && Spaced(h)
    requires h != [] ==> f.start >= h[|h| - 1].end + DISK_INTERVAL
    ensures Spaced(h + [f])
  {
    forall i | 0 <= i < |h| ensures f.start >= h[i].end + DISK_INTERVAL {
      if i < |h| - 1 { assert h[i].end <= h[|h| - 1].start <= h[|h| - 1].end; }
    }
  }

  /** How many fetches were answered with a denial from one time to another. */
  ghost function Denials<P>(h: seq<Fetch<P>>, from: int, to: int): nat {
    if h == [] then 0 else
      var last := h[|h| - 1];
      Denials(h[..|h| - 1], from, to) + (if last.outcome.Forbidden? && from <= last.end <= to then 1 else 0)
  }

  /** Which ones they are, by number from 0. */
  ghost function DeniedIn<P>(h: seq<Fetch<P>>, from: int, to: int): set<nat> {
    set i: nat | i < |h| && h[i].outcome.Forbidden? && from <= h[i].end <= to
  }

  lemma {:induction false} DenialsAreCounted<P>(h: seq<Fetch<P>>, from: int, to: int)
    ensures Denials(h, from, to) == |DeniedIn(h, from, to)|
  {
    if h == [] {
      assert DeniedIn(h, from, to) == {};
    } else {
      var n := |h| - 1;
      var last := h[n];
      DenialsAreCounted(h[..n], from, to);
      var one: set<nat> := if last.outcome.Forbidden? && from <= last.end <= to then {n} else {};
      assert DeniedIn(h, from, to) == DeniedIn(h[..n], from, to) + one;
    }
  }

  lemma {:induction false} DenialsShrink<P>(h: seq<Fetch<P>>, from: int, to: int, to': int)
    requires to' <= to
    requires forall i :: 0 <= i < |h| && h[i].outcome.Forbidden? ==> h[i].end <= to' || h[i].end > to
    ensures Denials(h, from, to) == Denials(h, from, to')
  {
    if h != [] { DenialsShrink(h[..|h| - 1], from, to, to'); }
  }

  /** Before a denial there was none for ten minutes. */
  lemma QuietBefore<P>(front: seq<Fetch<P>>, last: Fetch<P>, from: int, to: int)
    requires Paced(front + [last]) && last.outcome.Forbidden? && last.end <= to
    ensures Denials(front, from, to) == Denials(front, from, to - FORBIDDEN_RETRY)
  {
    var h := front + [last];
    forall i | 0 <= i < |front| && front[i].outcome.Forbidden? ensures front[i].end <= last.end - FORBIDDEN_RETRY {
      assert h[i] == front[i] && h[|front|] == last;
    }
    DenialsShrink(front, from, to, to - FORBIDDEN_RETRY);
  }

  lemma OneDenialLess<P>(front: seq<Fetch<P>>, last: Fetch<P>, from: int, to: int)
    requires Paced(front + [last]) && last.outcome.Forbidden? && from <= last.end <= to
    ensures Denials(front + [last], from, to) == Denials(front, from, to - FORBIDDEN_RETRY) + 1
  {
    QuietBefore(front, last, from, to);
    hide Paced;
    assert (front + [last])[..|front|] == front;
  }

  lemma NotCounted<P>(front: seq<Fetch<P>>, last: Fetch<P>, from: int, to: int)
    requires !(last.outcome.Forbidden? && from <= last.end <= to)
    ensures Denials(front + [last], from, to) == Denials(front, from, to)
  {
    assert (front + [last])[..|front|] == front;
  }

  /** n times ten minutes. */
  ghost function Periods(n: nat): nat { if n == 0 then 0 else Periods(n - 1) + FORBIDDEN_RETRY }

  lemma {:induction false} PeriodsCover(window: nat)
    ensures window < Periods(window / FORBIDDEN_RETRY + 1)
  {
    if window >= FORBIDDEN_RETRY {
      PeriodsCover(window - FORBIDDEN_RETRY);
      assert (window - FORBIDDEN_RETRY) / FORBIDDEN_RETRY + 1 == window / FORBIDDEN_RETRY;
    }
  }

  /** A stretch shorter than n times ten minutes holds at most n denials. */
  lemma {:induction false} AtMost<P>(h: seq<Fetch<P>>, from: int, to: int, n: nat)
    requires Paced(h) && to < from + Periods(n)
    ensures Denials(h, from, to) <= n
    decreases |h|
  {
    hide Paced;
    if h != [] {
      var front, last := h[..|h| - 1], h[|h| - 1];
      assert h == front + [last];
      PacedFront(front, last);
      if last.outcome.Forbidden? && from <= last.end <= to {
        OneDenialLess(front, last, from, to);
        assert n > 0 && to - FORBIDDEN_RETRY < from + Periods(n - 1);
        hide Denials, Periods;
        AtMost(front, from, to - FORBIDDEN_RETRY, n - 1);
      } else {
        NotCounted(front, last, from, to);
        hide Denials, Periods;
        AtMost(front, from, to, n);
      }
    }
  }

  /** The denial budget: a window of length T holds at most T / 10 min + 1 denials. */
  lemma DenialBudget<P>(h: seq<Fetch<P>>, from: int, window: nat)
    requires Paced(h)
    ensures Denials(h, from, from + window) <= window / FORBIDDEN_RETRY + 1
  {
    PeriodsCover(window);
    AtMost(h, from, from + window, window / FORBIDDEN_RETRY + 1);
  }

  /** The same in plain numbers: a window of so many nanoseconds. */
  lemma DeniedAtMost<P>(h: seq<Fetch<P>>, from: int, window: nat)
    requires Paced(h)
    ensures |set i: nat | i < |h| && h[i].outcome.Forbidden? && from <= h[i].end <= from + window|
         <= window / 600_000_000_000 + 1
  {
    DenialBudget(h, from, window);
    DenialsAreCounted(h, from, from + window);
    assert DeniedIn(h, from, from + window)
        == set i: nat | i < |h| && h[i].outcome.Forbidden? && from <= h[i].end <= from + window;
  }

  // ---------- parking ----------

  /** When the last denial lets the signal be asked for again; it is never cleared. */
  ghost function RetryAt<P>(h: seq<Fetch<P>>): Option<int> {
    if h == [] then None
    else if h[|h| - 1].outcome.Forbidden? then Some(h[|h| - 1].end + FORBIDDEN_RETRY)
    else RetryAt(h[..|h| - 1])
  }

  lemma DeniedParks<P>(h: seq<Fetch<P>>)
    ensures h != [] && h[|h| - 1].outcome.Forbidden? ==> RetryAt(h) == Some(h[|h| - 1].end + FORBIDDEN_RETRY)
  {}

  lemma {:induction false} RetryAtOf<P>(h: seq<Fetch<P>>) returns (i: nat)
    requires RetryAt(h).Some?
    ensures i < |h| && h[i].outcome.Forbidden? && RetryAt(h) == Some(h[i].end + FORBIDDEN_RETRY)
  {
    if h[|h| - 1].outcome.Forbidden? { i := |h| - 1; } else { i := RetryAtOf(h[..|h| - 1]); }
  }

  /** The retry time has come exactly if every denial is ten minutes old. */
  lemma {:induction false} RetryAtExactly<P>(h: seq<Fetch<P>>, now: int)
    requires Paced(h)
    ensures (RetryAt(h).Some? ==> now >= RetryAt(h).value)
       <==> forall i :: 0 <= i < |h| && h[i].outcome.Forbidden? ==> now >= h[i].end + 600_000_000_000
  {
    if h != [] {
      var n := |h| - 1;
      assert h == h[..n] + [h[n]];
      PacedFront(h[..n], h[n]);
      if h[n].outcome.Forbidden? {
        assert forall i :: 0 <= i < n && h[i].outcome.Forbidden? ==> h[i].end <= h[n].start <= h[n].end;
      } else {
        RetryAtExactly(h[..n], now);
        assert forall i :: 0 <= i < n ==> h[i] == h[..n][i];
      }
    }
  }

  /** Though the retry time of an old denial stays around, a signal is parked by it only
      while that denial is the last word: parked means down and forbidden. */
  lemma ParkedMeansForbidden<P>(h: seq<Fetch<P>>, now: int, signal: Signal)
    requires Paced(h) && (h != [] ==> h[|h| - 1].end <= now)
    requires RetryAt(h).Some? && now < RetryAt(h).value
    ensures h != [] && h[|h| - 1].outcome.Forbidden?
    ensures !Up(h, signal) && ReasonFor(h, signal) == ForbiddenReason && Served(h, signal).None?
  {
    var i := RetryAtOf(h);
  }
}
