// The reassembly slot in time: slow transfers, given-up transfers and streams of unknown length.
module SlowStreams {
  import opened Seg
  import opened Reassembly

  // At most three seconds, in the 32-bit arithmetic of the tick counter.
  predicate Soon(now: bv32, last: bv32) {
    now - last <= 3000
  }

  // ---- The timeout ----

  // A tick frees the slot if and only if a transfer of known total is under way and more than
  // 3000 ms have passed since its last chunk; otherwise it changes nothing.
  lemma TickExactly(s: Slot, now: bv32)
    ensures Expire(s, now) == if s.active && !s.streaming && !Soon(now, s.lastMs) then s.(active := false) else s
  {
    SoonOrStale(now, s.lastMs);
    hide Soon, Stale;
  }

  lemma SoonOrStale(now: bv32, last: bv32)
    ensures Stale(now, last) <==> !Soon(now, last)
  {
  }

  // ---- A slow transfer ----

  // From the first chunk on, no tick comes later than three seconds after the chunk before it.
  predicate Prompt(es: seq<Event>, started: bool, last: bv32)
    decreases |es|
  {
    |es| == 0 ||
    match es[0]
    case Arrive(_, now) => Prompt(es[1..], true, now)
    case Tick(now) => (started ==> Soon(now, last)) && Prompt(es[1..], started, last)
  }

  function Arrivals(es: seq<Event>): seq<Event> {
    if |es| == 0 then [] else (if es[0].Arrive? then [es[0]] else []) + Arrivals(es[1..])
  }

  // All chunks belong to the one stream.
  ghost predicate OneStream(es: seq<Event>, src: bv8, sid: bv8) {
    forall i :: 0 <= i < |es| && es[i].Arrive? ==> es[i].c.src == src && es[i].c.sid == sid && es[i].c.idx < es[i].c.total
  }

  // The slot is free, or holds the stream and was last fed at the given tick.
  predicate HeldBy(s: Slot, src: bv8, sid: bv8, started: bool, last: bv32) {
    s.active ==> s.src == src && s.sid == sid && started && s.lastMs == last
  }

  lemma ChunkHolds(s: Slot, c: Chunk, now: bv32, started: bool, last: bv32)
    requires HeldBy(s, c.src, c.sid, started, last) && c.idx < c.total
    ensures HeldBy(Handle(s, Arrive(c, now)).0, c.src, c.sid, true, now)
  {
  }

  lemma TickHarmless(s: Slot, now: bv32, src: bv8, sid: bv8, started: bool, last: bv32)
    requires HeldBy(s, src, sid, started, last) && (started ==> Soon(now, last))
    ensures Handle(s, Tick(now)) == (s, [])
  {
    TickExactly(s, now);
    hide Soon, Stale, Expire;
  }

  // Ticks in time change nothing.
  lemma {:induction false} TicksDoNotMatter(s: Slot, es: seq<Event>, src: bv8, sid: bv8, started: bool, last: bv32)
    requires HeldBy(s, src, sid, started, last) && Prompt(es, started, last) && OneStream(es, src, sid)
    ensures HandleAll(s, es) == HandleAll(s, Arrivals(es))
    decreases |es|
  {
    hide Handle, HeldBy, Soon;
    if |es| > 0 {
      assert HandleAll(s, es) == (HandleAll(Handle(s, es[0]).0, es[1..]).0,
                                  Handle(s, es[0]).1 + HandleAll(Handle(s, es[0]).0, es[1..]).1);
      match es[0]
      case Arrive(c, now) =>
        ChunkHolds(s, c, now, started, last);
        TicksDoNotMatter(Handle(s, es[0]).0, es[1..], src, sid, true, now);
        HandleOne(s, es[0], Arrivals(es[1..]));
      case Tick(now) =>
        TickHarmless(s, now, src, sid, started, last);
        TicksDoNotMatter(s, es[1..], src, sid, started, last);
        assert Arrivals(es) == Arrivals(es[1..]) by {
          assert [] + Arrivals(es[1..]) == Arrivals(es[1..]);
        }
        assert [] + HandleAll(s, es[1..]).1 == HandleAll(s, es[1..]).1;
    }
  }

  lemma {:induction false} CopiesAre(c: Chunk, n: nat, now: bv32)
    ensures forall i :: 0 <= i < |Copies(c, n, now)| ==> Copies(c, n, now)[i] == Arrive(c, now)
    decreases n
  {
    if n > 0 {
      CopiesAre(c, n - 1, now);
    }
  }

  lemma {:induction false} StutterIsOneStream(cs: seq<Chunk>, counts: seq<nat>, i: nat, now: bv32, src: bv8, sid: bv8)
    requires i <= |cs| == |counts|
    requires forall k :: 0 <= k < |cs| ==> cs[k].src == src && cs[k].sid == sid && cs[k].idx < cs[k].total
    ensures OneStream(Stutter(cs, counts, i, now), src, sid)
    decreases |cs| - i
  {
    hide Copies;
    if i < |cs| {
      CopiesAre(cs[i], counts[i], now);
      StutterIsOneStream(cs, counts, i + 1, now, src, sid);
    }
  }

  lemma {:induction false} TicksAreNoChunks(es: seq<Event>, src: bv8, sid: bv8)
    ensures OneStream(Arrivals(es), src, sid) ==> OneStream(es, src, sid)
    decreases |es|
  {
    if |es| > 0 && OneStream(Arrivals(es), src, sid) {
      var rest := Arrivals(es[1..]);
      if es[0].Arrive? {
        assert Arrivals(es)[0] == es[0];
        assert forall i :: 0 <= i < |rest| ==> rest[i] == Arrivals(es)[i + 1];
      } else {
        assert Arrivals(es) == rest;
      }
      TicksAreNoChunks(es[1..], src, sid);
    }
  }

  lemma TransferIsOneStream(es: seq<Event>, data: seq<bv8>, m: nat, src: bv8, sid: bv8, counts: seq<nat>)
    requires m > 0 && |Pieces(data, m)| == |counts|
    requires SameChunks(Arrivals(es), Stutter(ChunksOf(data, m, src, sid), counts, 0, 0))
    ensures OneStream(es, src, sid)
  {
    hide Pieces, Stutter, Arrivals;
    var cs := ChunksOf(data, m, src, sid);
    StutterIsOneStream(cs, counts, 0, 0, src, sid);
    assert OneStream(Arrivals(es), src, sid);
    hide OneStream;
    TicksAreNoChunks(es, src, sid);
  }

  // A transfer in order, each chunk at least once, with any ticks in time among the chunks: it
  // is dispatched exactly once if it has at most 32640 bytes, and not at all otherwise.
  lemma SlowTransfer(s: Slot, data: seq<bv8>, m: nat, src: bv8, sid: bv8, counts: seq<nat>, es: seq<Event>)
    requires ChunkSize(m) && !s.active && 1 < |Pieces(data, m)| == |counts| <= 128
    requires forall k :: 0 <= k < |counts| ==> counts[k] > 0
    requires SameChunks(Arrivals(es), Stutter(ChunksOf(data, m, src, sid), counts, 0, 0))
    requires Prompt(es, false, 0)
    ensures var (t, ds) := HandleAll(s, es);
            && ds == (if |data| <= 32640 then [Delivery(src, data)] else [])
            && (|data| <= 32640 ==> (t.active <==> counts[|counts| - 1] > 1))
  {
    hide HandleAll, Pieces, Stutter, ChunksOf, SameChunks, Prompt, OneStream, Arrivals;
    TransferIsOneStream(es, data, m, src, sid, counts);
    TicksDoNotMatter(s, es, src, sid, false, 0);
    InOrderArrival(s, data, m, src, sid, counts, Arrivals(es));
  }

  // ---- Streams of unknown length ----

  // Chunks of one stream with total 0, in whatever order, and ticks.
  ghost predicate Live(es: seq<Event>, src: bv8, sid: bv8) {
    forall i :: 0 <= i < |es| && es[i].Arrive? ==> es[i].c.src == src && es[i].c.sid == sid && es[i].c.total == 0
  }

  function PayloadsOf(es: seq<Event>, src: bv8): seq<Delivery> {
    if |es| == 0 then [] else
    (if es[0].Arrive? then [Delivery(src, es[0].c.payload)] else []) + PayloadsOf(es[1..], src)
  }

  // Every chunk is dispatched at once, none is kept, and the stream never times out.
  lemma {:induction false} LiveStream(s: Slot, es: seq<Event>, src: bv8, sid: bv8)
    requires Live(es, src, sid) && (s.active ==> s.src == src && s.sid == sid && s.streaming && s.buf == [])
    ensures var (t, ds) := HandleAll(s, es);
            && ds == PayloadsOf(es, src)
            && (t.active ==> t.src == src && t.sid == sid && t.streaming && t.buf == [])
            && (s.active ==> t.active)
    decreases |es|
  {
    hide Stale;
    if |es| > 0 {
      LiveStream(Handle(s, es[0]).0, es[1..], src, sid);
    }
  }
}
