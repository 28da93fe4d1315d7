// Chunks of one transfer in any order: exactly when the payload is dispatched.
module AnyArrival {
  import opened Seg
  import opened Reassembly

  // ---- Chunks in order among others ----

  // The positions at pick out the chunks k, k + 1, ... n - 1 of the events.
  ghost predicate Picks(es: seq<Event>, at: seq<nat>, k: nat, n: nat) {
    && k <= n && |at| == n - k
    && (forall i :: 0 <= i < |at| ==> at[i] < |es| && es[at[i]].Arrive? && es[at[i]].c.idx == k + i)
    && (forall i, j :: 0 <= i < j < |at| ==> at[i] < at[j])
  }

  ghost predicate InOrderWithin(es: seq<Event>, k: nat, n: nat) {
    exists at: seq<nat> :: Picks(es, at, k, n)
  }

  // The same, found by taking each chunk as soon as it comes.
  predicate Greedy(es: seq<Event>, k: nat, n: nat) {
    k == n || (k < n && |es| > 0 && Greedy(es[1..], if es[0].Arrive? && es[0].c.idx == k then k + 1 else k, n))
  }

  function Later(at: seq<nat>): (r: seq<nat>)
    ensures |r| == |at|
  {
    seq(|at|, i requires 0 <= i < |at| => at[i] + 1)
  }

  function Earlier(at: seq<nat>): (r: seq<nat>)
    requires forall i :: 0 <= i < |at| ==> at[i] > 0
    ensures |r| == |at|
  {
    seq(|at|, i requires 0 <= i < |at| => at[i] - 1)
  }

  lemma {:induction false} GreedyPicks(es: seq<Event>, k: nat, n: nat) returns (at: seq<nat>)
    requires Greedy(es, k, n)
    ensures Picks(es, at, k, n)
    decreases |es|
  {
    if k == n {
      at := [];
    } else if es[0].Arrive? && es[0].c.idx == k {
      var rest := GreedyPicks(es[1..], k + 1, n);
      at := [0] + Later(rest);
      hide Greedy;
      LaterPicks(es, rest, k + 1, n);
      TakesFirst(es, Later(rest), k, n);
    } else {
      var rest := GreedyPicks(es[1..], k, n);
      at := Later(rest);
      hide Greedy;
      LaterPicks(es, rest, k, n);
    }
  }

  lemma LaterPicks(es: seq<Event>, at: seq<nat>, k: nat, n: nat)
    requires |es| > 0 && Picks(es[1..], at, k, n)
    ensures Picks(es, Later(at), k, n) && forall i :: 0 <= i < |at| ==> Later(at)[i] > 0
  {
    assert forall i :: 0 <= i < |at| ==> es[1..][at[i]] == es[at[i] + 1];
  }

  lemma TakesFirst(es: seq<Event>, at: seq<nat>, k: nat, n: nat)
    requires |es| > 0 && k < n && Picks(es, at, k + 1, n) && (forall i :: 0 <= i < |at| ==> at[i] > 0)
    requires es[0].Arrive? && es[0].c.idx == k
    ensures Picks(es, [0] + at, k, n)
  {
    var more := [0] + at;
    assert forall i :: 0 < i < |more| ==> more[i] == at[i - 1];
  }

  lemma {:induction false} PicksGreedy(es: seq<Event>, at: seq<nat>, k: nat, n: nat)
    requires Picks(es, at, k, n)
    ensures Greedy(es, k, n)
    decreases |es|
  {
    if k < n {
      assert at[0] < |es|;
      if es[0].Arrive? && es[0].c.idx == k {
        var more := at[1..];
        assert forall i :: 0 <= i < |more| ==> more[i] > 0;
        assert forall i :: 0 <= i < |more| ==> es[1..][more[i] - 1] == es[more[i]];
        PicksGreedy(es[1..], Earlier(more), k + 1, n);
      } else {
        assert at[0] != 0;
        assert forall i :: 0 <= i < |at| ==> at[i] > 0;
        assert forall i :: 0 <= i < |at| ==> es[1..][at[i] - 1] == es[at[i]];
        PicksGreedy(es[1..], Earlier(at), k, n);
      }
    }
  }

  lemma GreedyExactly(es: seq<Event>, n: nat)
    ensures Greedy(es, 0, n) <==> InOrderWithin(es, 0, n)
  {
    hide Greedy, Picks;
    if Greedy(es, 0, n) {
      var at := GreedyPicks(es, 0, n);
    }
    if InOrderWithin(es, 0, n) {
      var at: seq<nat> :| Picks(es, at, 0, n);
      PicksGreedy(es, at, 0, n);
    }
  }

  // ---- What the slot waits for ----

  // The slot is free, or holds the first chunks of this transfer.
  ghost predicate Waits(s: Slot, src: bv8, sid: bv8, ps: seq<seq<bv8>>) {
    s.active ==> s.src == src && s.sid == sid && 0 <= s.next < |ps| && s.buf == Join(ps[..s.next])
  }

  function Awaited(s: Slot): nat {
    if s.active then s.next else 0
  }

  ghost predicate OfTransfer(c: Chunk, src: bv8, sid: bv8, ps: seq<seq<bv8>>) {
    c.src == src && c.sid == sid && 0 <= c.idx < |ps| == c.total && c.payload == ps[c.idx]
  }

  // One chunk: it is taken exactly if it is the awaited one, and the last one taken dispatches the
  // payload and frees the slot.
  lemma OneChunk(s: Slot, c: Chunk, now: bv32, src: bv8, sid: bv8, ps: seq<seq<bv8>>)
    requires Waits(s, src, sid, ps) && OfTransfer(c, src, sid, ps) && 0 < |ps| <= 128 && |Join(ps)| <= 32640
    ensures var (t, ds) := Handle(s, Arrive(c, now));
            var k := Awaited(s);
            && Waits(t, src, sid, ps)
            && (c.idx != k ==> ds == [] && Awaited(t) == k)
            && (c.idx == k && k + 1 < |ps| ==> ds == [] && Awaited(t) == k + 1)
            && (c.idx == k && k + 1 == |ps| ==> ds == [Delivery(src, Join(ps))] && Awaited(t) == 0)
  {
    var k := Awaited(s);
    assert ps[..0] == [] && ps[..|ps|] == ps;
    JoinNone();
    JoinSnoc(ps, k);
    JoinPrefix(ps, k + 1);
    hide Join;
  }

  lemma {:induction false} DispatchedFrom(s: Slot, es: seq<Event>, src: bv8, sid: bv8, ps: seq<seq<bv8>>)
    requires Waits(s, src, sid, ps) && 0 < |ps| <= 128 && |Join(ps)| <= 32640
    requires forall i :: 0 <= i < |es| ==> es[i].Arrive? && OfTransfer(es[i].c, src, sid, ps)
    ensures HandleAll(s, es).1 != [] <==> Greedy(es, Awaited(s), |ps|)
    decreases |es|
  {
    hide Handle, Waits, OfTransfer, Join;
    AwaitsLess(s, src, sid, ps);
    if |es| > 0 {
      OneChunk(s, es[0].c, es[0].now, src, sid, ps);
      ChunkNumber(es[0].c, src, sid, ps);
      DispatchedFrom(Handle(s, es[0]).0, es[1..], src, sid, ps);
    }
  }

  lemma AwaitsLess(s: Slot, src: bv8, sid: bv8, ps: seq<seq<bv8>>)
    requires Waits(s, src, sid, ps) && 0 < |ps|
    ensures Awaited(s) < |ps|
  {
  }

  lemma ChunkNumber(c: Chunk, src: bv8, sid: bv8, ps: seq<seq<bv8>>)
    requires OfTransfer(c, src, sid, ps)
    ensures c.idx >= 0
  {
  }

  // Whatever chunks of an accepted transfer arrive in whatever order, lost or repeated: the payload
  // is dispatched if and only if all the chunks occur in order somewhere among the arrivals.
  lemma DispatchedExactly(s: Slot, es: seq<Event>, data: seq<bv8>, m: nat, src: bv8, sid: bv8)
    requires ChunkSize(m) && !s.active && 0 < |data| <= 32640
    requires forall i :: 0 <= i < |es| ==> es[i].Arrive? && es[i].c in ChunksOf(data, m, src, sid)
    ensures Delivery(src, data) in HandleAll(s, es).1 <==> InOrderWithin(es, 0, |Pieces(data, m)|)
  {
    hide Pieces, HandleAll, Greedy, InOrderWithin, Picks;
    var ps := Pieces(data, m);
    PiecesJoin(data, m);
    PiecesCount(data, m);
    NotEmpty(data, m);
    forall i | 0 <= i < |es| ensures OfTransfer(es[i].c, src, sid, ps) {
      ChunkOf(ChunksOf(data, m, src, sid), data, m, src, sid, es[i].c);
    }
    DispatchedFrom(s, es, src, sid, ps);
    GreedyExactly(es, |ps|);
    OnlyTheOriginal(s, es, data, m, src, sid);
    var ds := HandleAll(s, es).1;
    if ds != [] {
      assert ds[0] in ds;
    }
  }

  lemma NotEmpty(data: seq<bv8>, m: nat)
    requires m > 0 && |data| > 0
    ensures |Pieces(data, m)| > 0
  {
  }
}
