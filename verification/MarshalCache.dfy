/** The server's cache of the encoded snapshot, keyed by the identity of the snapshot. The
    encoder is any partial function. */
module MarshalCache {
  import opened Model

  /** The last snapshot called for that could be encoded. */
  ghost function LastGood<S, D>(encode: S -> Option<D>, calls: seq<S>): Option<S> {
    if calls == [] then None
    else if encode(calls[|calls| - 1]).Some? then Some(calls[|calls| - 1])
    else LastGood(encode, calls[..|calls| - 1])
  }

  /** How many calls were for another snapshot than the last one encoded before them. */
  ghost function Misses<S, D>(encode: S -> Option<D>, calls: seq<S>): nat {
    if calls == [] then 0 else
      var front, last := calls[..|calls| - 1], calls[|calls| - 1];
      Misses(encode, front) + (if LastGood(encode, front) == Some(last) then 0 else 1)
  }

  class MarshalCache<S(==), D> {
    const encode: S -> Option<D>

    var snap: Option<S>
    var data: Option<D>

    /** Every snapshot called for, and every one the encoder was run on. */
    ghost var calls: seq<S>
    ghost var encoded: seq<S>

    ghost predicate Valid()
      reads this
    {
      && snap == LastGood(encode, calls)
      && data == (if snap.Some? then encode(snap.value) else None)
      && (snap.Some? ==> data.Some?)
      && |encoded| == Misses(encode, calls)
    }

    constructor (encode: S -> Option<D>)
      ensures Valid() && this.encode == encode && calls == [] && encoded == []
    {
      this.encode := encode;
      snap, data, calls, encoded := None, None, [], [];
    }

    /** The encoding of s, as plain encoding would give it. */
    method Bytes(s: S) returns (r: Option<D>)
      requires Valid()
      modifies this
      ensures Valid() && r == encode(s) && calls == old(calls) + [s]
      ensures r.None? ==> snap == old(snap) && data == old(data)
      ensures r.Some? ==> snap == Some(s) && data == r
      ensures encoded == old(encoded) + if old(snap) == Some(s) then [] else [s]
    {
      assert (calls + [s])[..|calls|] == calls;
      calls := calls + [s];
      if snap == Some(s) && data.Some? { return data; }
      encoded := encoded + [s];
      r := encode(s);
      if r.None? { return; }
      snap, data := Some(s), r;
    }
  }

  // ---------- one encoding a snapshot ----------

  /** The calls that could be served. */
  ghost function Encodable<S, D>(encode: S -> Option<D>, calls: seq<S>): seq<S> {
    if calls == [] then [] else
      var last := calls[|calls| - 1];
      Encodable(encode, calls[..|calls| - 1]) + (if encode(last).Some? then [last] else [])
  }

  lemma {:induction false} EncodableFacts<S, D>(encode: S -> Option<D>, calls: seq<S>)
    ensures forall s :: s in Encodable(encode, calls) <==> s in calls && encode(s).Some?
    ensures LastGood(encode, calls)
         == var good := Encodable(encode, calls); if good == [] then None else Some(good[|good| - 1])
  {
    if calls != [] {
      var front, last := calls[..|calls| - 1], calls[|calls| - 1];
      EncodableFacts(encode, front);
      assert calls == front + [last];
    }
  }

  /** No snapshot that cannot be encoded is called for twice. */
  ghost predicate FailsOnce<S, D>(encode: S -> Option<D>, calls: seq<S>) {
    forall i, j :: 0 <= i < j < |calls| && calls[i] == calls[j] ==> encode(calls[i]).Some?
  }

  lemma FailsOnceGrows<S, D>(encode: S -> Option<D>, front: seq<S>, s: S)
    ensures FailsOnce(encode, front + [s])
       <==> FailsOnce(encode, front) && (encode(s).None? ==> s !in front)
  {
    var calls := front + [s];
    if FailsOnce(encode, calls) {
      assert forall i :: 0 <= i < |front| ==> calls[i] == front[i];
      if s in front {
        var i :| 0 <= i < |front| && front[i] == s;
        assert calls[i] == calls[|front|];
      }
    }
  }

  ghost function Distinct<S>(calls: seq<S>): set<S> { set s | s in calls }

  /** The calls for one snapshot come one after another, with no other between them. */
  ghost predicate Contiguous<S>(calls: seq<S>) {
    forall i, j, k :: 0 <= i < j < k < |calls| && calls[i] == calls[k] ==> calls[j] == calls[i]
  }

  lemma ContiguousGrows<S>(front: seq<S>, s: S)
    ensures Contiguous(front + [s])
       <==> Contiguous(front) && (s in front ==> front[|front| - 1] == s)
  {
    var calls := front + [s];
    var n := |front|;
    if Contiguous(calls) {
      assert forall i :: 0 <= i < n ==> calls[i] == front[i];
      if s in front {
        var i :| 0 <= i < n && front[i] == s;
        assert i < n - 1 ==> calls[n - 1] == s by { assert calls[i] == calls[n]; }
      }
    }
    if Contiguous(front) && (s in front ==> front[n - 1] == s) {
      forall i, j, k | 0 <= i < j < k <= n && calls[i] == calls[k] ensures calls[j] == calls[i] {
        if k == n { assert front[i] in front; }
      }
    }
  }

  lemma OneCallMore<S, D>(encode: S -> Option<D>, front: seq<S>, s: S)
    ensures Misses(encode, front + [s]) == Misses(encode, front) + if LastGood(encode, front) == Some(s) then 0 else 1
    ensures Encodable(encode, front + [s])
         == if encode(s).Some? then Encodable(encode, front) + [s] else Encodable(encode, front)
  {
    assert (front + [s])[..|front|] == front;
  }

  /** The encoder is run once for each snapshot, however many clients ask for it, exactly
      when those it can encode are never gone back to one after another and those it cannot
      are asked for once: a client that lags behind costs encodings again, and so does each
      repeated call for what cannot be encoded. */
  lemma {:induction false} OneEncodingEach<S, D>(encode: S -> Option<D>, calls: seq<S>)
    ensures Misses(encode, calls) >= |Distinct(calls)|
    ensures Misses(encode, calls) == |Distinct(calls)|
       <==> Contiguous(Encodable(encode, calls)) && FailsOnce(encode, calls)
  {
    if calls == [] {
      assert Distinct(calls) == {};
    } else {
      var front, last := calls[..|calls| - 1], calls[|calls| - 1];
      assert calls == front + [last];
      OneEncodingEach(encode, front);
      OneCallMore(encode, front, last);
      EncodableFacts(encode, front);
      ContiguousGrows(Encodable(encode, front), last);
      FailsOnceGrows(encode, front, last);
      DistinctGrows(front, last);
      hide *;
    }
  }

  lemma DistinctGrows<S>(front: seq<S>, s: S)
    ensures |Distinct(front + [s])| == |Distinct(front)| + if s in front then 0 else 1
  {
    assert Distinct(front + [s]) == Distinct(front) + {s};
  }

  /** Two snapshots, three calls, three encodings. */
  lemma LaggingClientCostsAnEncoding<S, D>(encode: S -> Option<D>, a: S, b: S)
    requires a != b && encode(a).Some? && encode(b).Some?
    ensures Misses(encode, [a, b, a]) == 3 && |Distinct([a, b, a])| == 2
  {
    assert [a, b, a][..2] == [a, b] && [a, b][..1] == [a] && [a][..0] == [];
    assert Misses(encode, [a]) == 1 && Misses(encode, [a, b]) == 2;
    assert Distinct([a, b, a]) == {a, b};
  }
}
