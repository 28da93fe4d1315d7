// Reassembly of chunks in the stream slot.
module Reassembly {
  import opened Seg

  // What reaches the application: the sender's address and the payload.
  datatype Delivery = Delivery(src: bv8, payload: seq<bv8>)

  datatype Event = Arrive(c: Chunk, now: bv32) | Tick(now: bv32)

  const IDLE := Slot(false, 0, 0, false, 0, [], 0)

  predicate Found(s: Slot, c: Chunk) {
    s.active && s.src == c.src && s.sid == c.sid
  }

  function Alloc(c: Chunk, now: bv32): Slot {
    Slot(true, c.src, c.sid, c.total == 0, 0, [], now)
  }

  function Accept(s: Slot, c: Chunk, now: bv32): (Slot, seq<Delivery>) {
    if c.total == 0 then
      if !Found(s, c) && s.active then (s, [])
      else (if Found(s, c) then s.(lastMs := now) else Alloc(c, now), [Delivery(c.src, c.payload)])
    else if c.idx >= c.total then (s, [])
    else if Found(s, c) then Collect(s.(lastMs := now), c)
    else if c.total > MAX_CHUNKS || s.active then (s, [])
    else Collect(Alloc(c, now), c)
  }

  // The slot belongs to the chunk's stream.
  function Collect(s: Slot, c: Chunk): (Slot, seq<Delivery>) {
    if c.idx != s.next then (s, [])
    else if |s.buf| + |c.payload| > BUF_SIZE then (s.(active := false), [])
    else
      var t := s.(buf := s.buf + c.payload, next := c.idx + 1);
      if t.next == c.total then (t.(active := false), [Delivery(c.src, t.buf)]) else (t, [])
  }

  predicate Stale(now: bv32, last: bv32) {
    now - last > TIMEOUT_MS
  }

  // A known-total transfer that has been silent for too long is dropped.
  function Expire(s: Slot, now: bv32): Slot {
    if s.active && !s.streaming && Stale(now, s.lastMs) then s.(active := false) else s
  }

  function Handle(s: Slot, e: Event): (Slot, seq<Delivery>) {
    match e
    case Arrive(c, now) => Accept(s, c, now)
    case Tick(now) => (Expire(s, now), [])
  }

  function HandleAll(s: Slot, es: seq<Event>): (Slot, seq<Delivery>)
    decreases |es|
  {
    if |es| == 0 then (s, []) else
    var (t, ds) := Handle(s, es[0]);
    var (u, more) := HandleAll(t, es[1..]);
    (u, ds + more)
  }

  // ---- The slot, updated in place ----

  class StreamSlot {
    var active: bool
    var src: bv8
    var sid: bv8
    var streaming: bool
    var next: nat
    var received: nat
    var lastMs: bv32
    const buf: array<bv8>
    var dispatched: seq<Delivery>

    ghost predicate Valid()
      reads this
    {
      buf.Length == BUF_SIZE && received <= BUF_SIZE
    }

    ghost function Abstract(): Slot
      requires Valid()
      reads this, buf
    {
      Slot(active, src, sid, streaming, next, buf[..received], lastMs)
    }

    constructor ()
      ensures Valid() && fresh(buf) && Abstract() == IDLE && dispatched == []
    {
      buf := new bv8[BUF_SIZE];
      active, src, sid, streaming, next, received, lastMs, dispatched := false, 0, 0, false, 0, 0, 0, [];
    }

    method Claim(c: Chunk, now: bv32)
      requires Valid()
      modifies this`active, this`src, this`sid, this`streaming, this`next, this`received, this`lastMs, buf
      ensures Valid() && Abstract() == Alloc(c, now)
    {
      var i := 0;
      while i < buf.Length
        invariant 0 <= i <= buf.Length
        modifies buf
      {
        buf[i] := 0;
        i := i + 1;
      }
      active, src, sid, streaming := true, c.src, c.sid, c.total == 0;
      next, received, lastMs := 0, 0, now;
      assert buf[..0] == [];
    }

    method Append(p: seq<bv8>)
      requires Valid() && received + |p| <= BUF_SIZE
      modifies this`received, buf
      ensures Valid() && Abstract() == old(Abstract()).(buf := old(Abstract()).buf + p)
    {
      var i := 0;
      while i < |p|
        invariant 0 <= i <= |p|
        invariant buf[..received] == old(buf[..received]) && buf[received..received + i] == p[..i]
        modifies buf
      {
        buf[received + i] := p[i];
        i := i + 1;
      }
      assert buf[..received + |p|] == buf[..received] + p;
      received := received + |p|;
    }

    method Gather(c: Chunk)
      requires Valid()
      modifies this, buf
      ensures Valid()
      ensures var (s, ds) := Collect(old(Abstract()), c); Abstract() == s && dispatched == old(dispatched) + ds
    {
      if c.idx != next {
        return;
      }
      if received + |c.payload| > BUF_SIZE {
        active := false;
        return;
      }
      Append(c.payload);
      next := c.idx + 1;
      if next == c.total {
        dispatched := dispatched + [Delivery(c.src, buf[..received])];
        active := false;
      }
    }

    method OnChunk(c: Chunk, now: bv32)
      requires Valid()
      modifies this, buf
      ensures Valid()
      ensures var (s, ds) := Accept(old(Abstract()), c, now); Abstract() == s && dispatched == old(dispatched) + ds
    {
      var found := active && src == c.src && sid == c.sid;
      if c.total == 0 {
        if !found {
          if active {
            return;
          }
          Claim(c, now);
        }
        lastMs := now;
        dispatched := dispatched + [Delivery(c.src, c.payload)];
        return;
      }
      if c.idx >= c.total {
        return;
      }
      if !found {
        if c.total > MAX_CHUNKS || active {
          return;
        }
        Claim(c, now);
      }
      lastMs := now;
      Gather(c);
    }

    method OnTick(now: bv32)
      requires Valid()
      modifies this`active
      ensures Valid() && Abstract() == Expire(old(Abstract()), now)
    {
      hide Stale;
      if active && !streaming && Stale(now, lastMs) {
        active := false;
      }
    }
  }

  // ---- Any arrival order ----

  // Every chunk that arrives is one of cs; silence may pass at any time.
  ghost predicate Only(es: seq<Event>, cs: seq<Chunk>) {
    forall i :: 0 <= i < |es| && es[i].Arrive? ==> es[i].c in cs
  }

  // The slot is free or holds the first chunks of the transfer.
  ghost predicate HoldsPrefix(s: Slot, cs: seq<Chunk>, ps: seq<seq<bv8>>) {
    s.active ==> 0 <= s.next < |ps| && s.buf == Join(ps[..s.next])
  }

  lemma ChunkOf(cs: seq<Chunk>, data: seq<bv8>, m: nat, src: bv8, sid: bv8, c: Chunk)
    requires m > 0 && cs == ChunksOf(data, m, src, sid) && c in cs
    ensures var ps := Pieces(data, m); c.idx < |ps| == c.total && c.payload == ps[c.idx] && c.src == src && c.sid == sid
  {
    hide Pieces;
  }

  lemma CollectHolds(s: Slot, c: Chunk, cs: seq<Chunk>, ps: seq<seq<bv8>>)
    requires HoldsPrefix(s, cs, ps) && s.active && c.idx < |ps| == c.total && c.payload == ps[c.idx]
    ensures var (t, ds) := Collect(s, c);
            HoldsPrefix(t, cs, ps) && (ds == [] || ds == [Delivery(c.src, Join(ps))])
  {
    hide Join;
    JoinSnoc(ps, c.idx);
    assert ps[..|ps|] == ps;
  }

  lemma ArrivalHolds(s: Slot, e: Event, data: seq<bv8>, m: nat, src: bv8, sid: bv8)
    requires m > 0
    requires var cs, ps := ChunksOf(data, m, src, sid), Pieces(data, m);
             HoldsPrefix(s, cs, ps) && (e.Arrive? ==> e.c in cs)
    ensures var (t, ds) := Handle(s, e);
            HoldsPrefix(t, ChunksOf(data, m, src, sid), Pieces(data, m)) && (ds == [] || ds == [Delivery(src, data)])
  {
    hide Pieces, Join, Collect, ChunksOf;
    var cs, ps := ChunksOf(data, m, src, sid), Pieces(data, m);
    if e.Arrive? {
      ChunkOf(cs, data, m, src, sid, e.c);
      PiecesJoin(data, m);
      assert ps[..0] == [];
      JoinNone();
      if Found(s, e.c) {
        CollectHolds(s.(lastMs := e.now), e.c, cs, ps);
      } else {
        CollectHolds(Alloc(e.c, e.now), e.c, cs, ps);
      }
    }
  }

  lemma JoinNone()
    ensures Join([]) == []
  {
  }

  // Whatever is lost, repeated or reordered, and whatever timeouts occur, nothing but the
  // whole original payload is ever dispatched, and the slot never holds anything but a prefix
  // of it.
  lemma {:induction false} OnlyTheOriginal(s: Slot, es: seq<Event>, data: seq<bv8>, m: nat, src: bv8, sid: bv8)
    requires m > 0
    requires HoldsPrefix(s, ChunksOf(data, m, src, sid), Pieces(data, m)) && Only(es, ChunksOf(data, m, src, sid))
    ensures var (t, ds) := HandleAll(s, es);
            HoldsPrefix(t, ChunksOf(data, m, src, sid), Pieces(data, m)) && forall d :: d in ds ==> d == Delivery(src, data)
    decreases |es|
  {
    hide Pieces, HoldsPrefix, ChunksOf, Handle;
    if |es| > 0 {
      ArrivalHolds(s, es[0], data, m, src, sid);
      OnlyTheOriginal(Handle(s, es[0]).0, es[1..], data, m, src, sid);
    }
  }

  // ---- In order ----

  // The chunks from the i-th on, in order, each chunk k arriving counts[k] times: what ARQ makes
  // of a transfer.
  function Stutter(cs: seq<Chunk>, counts: seq<nat>, i: nat, now: bv32): seq<Event>
    requires i <= |cs| == |counts|
    decreases |cs| - i
  {
    if i == |cs| then [] else Copies(cs[i], counts[i], now) + Stutter(cs, counts, i + 1, now)
  }

  function Copies(c: Chunk, n: nat, now: bv32): seq<Event> {
    if n == 0 then [] else [Arrive(c, now)] + Copies(c, n - 1, now)
  }

  lemma {:induction false} HandleAppend(s: Slot, a: seq<Event>, b: seq<Event>)
    ensures var (t, ds) := HandleAll(s, a);
            var (u, more) := HandleAll(t, b);
            HandleAll(s, a + b) == (u, ds + more)
    decreases |a|
  {
    hide Handle;
    if |a| == 0 {
      assert a + b == b;
      assert [] + HandleAll(s, b).1 == HandleAll(s, b).1;
    } else {
      assert (a + b)[1..] == a[1..] + b;
      var (t, ds) := Handle(s, a[0]);
      HandleAppend(t, a[1..], b);
      var (u, more) := HandleAll(t, a[1..]);
      assert ds + (more + HandleAll(u, b).1) == ds + more + HandleAll(u, b).1;
    }
  }

  lemma HandleOne(s: Slot, e: Event, es: seq<Event>)
    ensures var (t, ds) := Handle(s, e);
            var (u, more) := HandleAll(t, es);
            HandleAll(s, [e] + es) == (u, ds + more)
  {
    hide Handle;
    assert ([e] + es)[1..] == es;
  }

  // A copy of a chunk the slot is past, or not yet ready for, changes nothing.
  lemma {:induction false} Ignored(s: Slot, c: Chunk, n: nat, now: bv32)
    requires Found(s, c) && 0 <= c.idx < c.total && c.idx != s.next && s.lastMs == now
    ensures HandleAll(s, Copies(c, n, now)) == (s, [])
    decreases n
  {
    if n > 0 {
      IgnoredOnce(s, c, now);
      hide HandleAll, Handle;
      HandleOne(s, Arrive(c, now), Copies(c, n - 1, now));
      Ignored(s, c, n - 1, now);
      NothingTwice();
    } else {
      NoEvents(s);
    }
  }

  lemma IgnoredOnce(s: Slot, c: Chunk, now: bv32)
    requires Found(s, c) && 0 <= c.idx < c.total && c.idx != s.next && s.lastMs == now
    ensures Handle(s, Arrive(c, now)) == (s, [])
  {
    assert s.(lastMs := now) == s;
  }

  lemma NothingTwice()
    ensures var none: seq<Delivery> := []; none + none == none
  {
  }

  lemma NoEvents(s: Slot)
    ensures HandleAll(s, []) == (s, [])
  {
  }

  // The chunk the slot waits for, and repetitions of it.
  lemma MiddleChunk(s: Slot, c: Chunk, n: nat, now: bv32)
    requires n > 0 && Found(s, c) && s.lastMs == now && c.idx == s.next && c.idx + 1 < c.total
    requires |s.buf| + |c.payload| <= BUF_SIZE
    ensures HandleAll(s, Copies(c, n, now)) == (s.(buf := s.buf + c.payload, next := c.idx + 1), [])
  {
    hide HandleAll;
    assert s.(lastMs := now) == s;
    HandleOne(s, Arrive(c, now), Copies(c, n - 1, now));
    var t := s.(buf := s.buf + c.payload, next := c.idx + 1);
    assert Handle(s, Arrive(c, now)) == (t, []);
    Ignored(t, c, n - 1, now);
    NothingTwice();
  }

  // The slot is free, or claimed by the stream of c without holding anything.
  predicate Hollow(s: Slot, c: Chunk, now: bv32) {
    s.active ==> Found(s, c) && s.next == 0 && s.lastMs == now
  }

  // A chunk that is not the first of its transfer only claims a free slot, in vain.
  lemma LateCopies(s: Slot, c: Chunk, n: nat, now: bv32)
    requires Hollow(s, c, now) && 0 < c.idx < c.total <= MAX_CHUNKS
    ensures var (t, ds) := HandleAll(s, Copies(c, n, now));
            ds == [] && Hollow(t, c, now) && (t.active <==> s.active || n > 0)
  {
    hide HandleAll;
    if n == 0 {
      NoEvents(s);
    } else if s.active {
      Ignored(s, c, n, now);
    } else {
      HandleOne(s, Arrive(c, now), Copies(c, n - 1, now));
      Ignored(Alloc(c, now), c, n - 1, now);
    }
  }

  // The chunk that completes a transfer of several chunks. A repetition of it claims the slot
  // again.
  lemma LastChunk(s: Slot, c: Chunk, n: nat, now: bv32)
    requires n > 0 && Found(s, c) && s.lastMs == now && 0 < c.idx == s.next && c.idx + 1 == c.total <= MAX_CHUNKS
    requires |s.buf| + |c.payload| <= BUF_SIZE
    ensures var (t, ds) := HandleAll(s, Copies(c, n, now));
            ds == [Delivery(c.src, s.buf + c.payload)] && Hollow(t, c, now) && (t.active <==> n > 1)
  {
    hide HandleAll;
    HandleOne(s, Arrive(c, now), Copies(c, n - 1, now));
    LateCopies(Collect(s, c).0, c, n - 1, now);
  }

  // The chunk that does not fit the buffer ends the transfer.
  lemma BurstingChunk(s: Slot, c: Chunk, n: nat, now: bv32)
    requires n > 0 && Found(s, c) && s.lastMs == now && 0 < c.idx == s.next < c.total <= MAX_CHUNKS
    requires |s.buf| + |c.payload| > BUF_SIZE
    ensures var (t, ds) := HandleAll(s, Copies(c, n, now)); ds == [] && Hollow(t, c, now)
  {
    hide HandleAll;
    HandleOne(s, Arrive(c, now), Copies(c, n - 1, now));
    LateCopies(s.(active := false), c, n - 1, now);
  }

  // The same stream throughout, numbered from 0.
  ghost predicate Transfer(cs: seq<Chunk>, src: bv8, sid: bv8) {
    && |cs| <= MAX_CHUNKS
    && forall i :: 0 <= i < |cs| ==> cs[i].src == src && cs[i].sid == sid && cs[i].idx == i && cs[i].total == |cs|
  }

  lemma {:induction false} LateChunks(s: Slot, cs: seq<Chunk>, counts: seq<nat>, i: nat, src: bv8, sid: bv8, now: bv32)
    requires Transfer(cs, src, sid) && 0 < i <= |cs| == |counts|
    requires s.active ==> s.src == src && s.sid == sid && s.next == 0 && s.lastMs == now
    ensures HandleAll(s, Stutter(cs, counts, i, now)).1 == []
    decreases |cs| - i
  {
    hide HandleAll, Copies;
    if i == |cs| {
      NoEvents(s);
    } else {
      LateCopies(s, cs[i], counts[i], now);
      HandleAppend(s, Copies(cs[i], counts[i], now), Stutter(cs, counts, i + 1, now));
      LateChunks(HandleAll(s, Copies(cs[i], counts[i], now)).0, cs, counts, i + 1, src, sid, now);
    }
  }

  function Payloads(cs: seq<Chunk>): seq<seq<bv8>> {
    seq(|cs|, i requires 0 <= i < |cs| => cs[i].payload)
  }

  // From the i-th chunk on, the first i being in the slot.
  lemma {:induction false} RestArrives(s: Slot, cs: seq<Chunk>, counts: seq<nat>, i: nat, src: bv8, sid: bv8, now: bv32)
    requires Transfer(cs, src, sid) && 0 < i < |cs| == |counts| && forall k :: 0 <= k < |counts| ==> counts[k] > 0
    requires s.active && s.src == src && s.sid == sid && s.next == i && s.lastMs == now
    requires s.buf == Join(Payloads(cs)[..i]) && |s.buf| <= BUF_SIZE
    ensures var (t, ds) := HandleAll(s, Stutter(cs, counts, i, now));
            var data := Join(Payloads(cs));
            && ds == (if |data| <= BUF_SIZE then [Delivery(src, data)] else [])
            && (|data| <= BUF_SIZE ==> (t.active <==> counts[|cs| - 1] > 1))
    decreases |cs| - i
  {
    hide HandleAll, Copies, Join, Found, Hollow;
    var c, n, ps, rest := cs[i], counts[i], Payloads(cs), Stutter(cs, counts, i + 1, now);
    assert Found(s, c) by {
      IsFound(s, c);
    }
    JoinSnoc(ps, i);
    JoinPrefix(ps, i + 1);
    HandleAppend(s, Copies(c, n, now), rest);
    var u := HandleAll(s, Copies(c, n, now)).0;
    if |s.buf| + |c.payload| > BUF_SIZE {
      BurstingChunk(s, c, n, now);
      HollowIs(u, c, now);
      LateChunks(u, cs, counts, i + 1, src, sid, now);
    } else if i + 1 == |cs| {
      LastChunk(s, c, n, now);
      assert ps[..i + 1] == ps;
      NoEvents(u);
    } else {
      MiddleChunk(s, c, n, now);
      RestArrives(u, cs, counts, i + 1, src, sid, now);
    }
  }

  lemma IsFound(s: Slot, c: Chunk)
    ensures Found(s, c) <==> s.active && s.src == c.src && s.sid == c.sid
  {
  }

  lemma HollowIs(s: Slot, c: Chunk, now: bv32)
    requires Hollow(s, c, now)
    ensures s.active ==> s.src == c.src && s.sid == c.sid && s.next == 0 && s.lastMs == now
  {
  }

  lemma AllAtOneMoment(s: Slot, data: seq<bv8>, m: nat, src: bv8, sid: bv8, counts: seq<nat>, now: bv32)
    requires ChunkSize(m) && !s.active && 1 < |Pieces(data, m)| == |counts| <= MAX_CHUNKS
    requires forall k :: 0 <= k < |counts| ==> counts[k] > 0
    ensures var (t, ds) := HandleAll(s, Stutter(ChunksOf(data, m, src, sid), counts, 0, now));
            && ds == (if |data| <= BUF_SIZE then [Delivery(src, data)] else [])
            && (|data| <= BUF_SIZE ==> (t.active <==> counts[|counts| - 1] > 1))
  {
    hide HandleAll, Copies, Join, Pieces, Stutter;
    var cs, ps := ChunksOf(data, m, src, sid), Pieces(data, m);
    var c, n := cs[0], counts[0];
    PiecesJoin(data, m);
    assert Payloads(cs) == ps;
    assert ps[0] in ps;
    FirstChunk(s, c, n, now);
    JoinSnoc(ps, 0);
    JoinNone();
    assert ps[..0] == [];
    StutterStart(cs, counts, now);
    HandleAppend(s, Copies(c, n, now), Stutter(cs, counts, 1, now));
    var u := HandleAll(s, Copies(c, n, now)).0;
    RestArrives(u, cs, counts, 1, src, sid, now);
  }

  // ---- Arrival times ----

  predicate SameButTime(s: Slot, t: Slot) {
    && s.active == t.active && s.src == t.src && s.sid == t.sid && s.streaming == t.streaming
    && s.next == t.next && s.buf == t.buf
  }

  predicate SameChunks(es: seq<Event>, fs: seq<Event>) {
    |es| == |fs| && forall i :: 0 <= i < |es| ==> es[i].Arrive? && fs[i].Arrive? && es[i].c == fs[i].c
  }

  lemma {:induction false} TimesDoNotMatter(s: Slot, t: Slot, es: seq<Event>, fs: seq<Event>)
    requires SameButTime(s, t) && SameChunks(es, fs)
    ensures SameButTime(HandleAll(s, es).0, HandleAll(t, fs).0) && HandleAll(s, es).1 == HandleAll(t, fs).1
    decreases |es|
  {
    if |es| > 0 {
      OneChunkAnyTime(s, t, es[0], fs[0]);
      hide Handle, SameButTime;
      TimesDoNotMatter(Handle(s, es[0]).0, Handle(t, fs[0]).0, es[1..], fs[1..]);
    }
  }

  lemma OneChunkAnyTime(s: Slot, t: Slot, e: Event, f: Event)
    requires SameButTime(s, t) && e.Arrive? && f.Arrive? && e.c == f.c
    ensures SameButTime(Handle(s, e).0, Handle(t, f).0) && Handle(s, e).1 == Handle(t, f).1
  {
    CollectAnyTime(s.(lastMs := e.now), t.(lastMs := f.now), e.c);
    CollectAnyTime(Alloc(e.c, e.now), Alloc(f.c, f.now), e.c);
    hide Collect;
  }

  lemma CollectAnyTime(s: Slot, t: Slot, c: Chunk)
    requires SameButTime(s, t)
    ensures SameButTime(Collect(s, c).0, Collect(t, c).0) && Collect(s, c).1 == Collect(t, c).1
  {
  }

  // A transfer whose chunks arrive in order, each at least once, into a free slot: it is
  // dispatched exactly once if it fits the buffer, and not at all otherwise. Afterwards the
  // slot is free exactly if the last chunk came only once.
  lemma InOrderArrival(s: Slot, data: seq<bv8>, m: nat, src: bv8, sid: bv8, counts: seq<nat>, es: seq<Event>)
    requires ChunkSize(m) && !s.active && 1 < |Pieces(data, m)| == |counts| <= MAX_CHUNKS
    requires forall k :: 0 <= k < |counts| ==> counts[k] > 0
    requires SameChunks(es, Stutter(ChunksOf(data, m, src, sid), counts, 0, 0))
    ensures var (t, ds) := HandleAll(s, es);
            && ds == (if |data| <= BUF_SIZE then [Delivery(src, data)] else [])
            && (|data| <= BUF_SIZE ==> (t.active <==> counts[|counts| - 1] > 1))
  {
    hide HandleAll, Pieces, Stutter, ChunksOf;
    var fs := Stutter(ChunksOf(data, m, src, sid), counts, 0, 0);
    AllAtOneMoment(s, data, m, src, sid, counts, 0);
    TimesDoNotMatter(s, s, es, fs);
  }

  lemma StutterStart(cs: seq<Chunk>, counts: seq<nat>, now: bv32)
    requires 0 < |cs| == |counts|
    ensures Stutter(cs, counts, 0, now) == Copies(cs[0], counts[0], now) + Stutter(cs, counts, 1, now)
  {
    hide Copies;
  }

  lemma FirstChunk(s: Slot, c: Chunk, n: nat, now: bv32)
    requires n > 0 && !s.active && c.idx == 0 && 1 < c.total <= MAX_CHUNKS && |c.payload| <= BUF_SIZE
    ensures HandleAll(s, Copies(c, n, now)) == (Alloc(c, now).(buf := c.payload, next := 1), [])
  {
    hide HandleAll;
    HandleOne(s, Arrive(c, now), Copies(c, n - 1, now));
    assert [] + c.payload == c.payload;
    var t := Alloc(c, now).(buf := c.payload, next := 1);
    assert Handle(s, Arrive(c, now)) == (t, []);
    Ignored(t, c, n - 1, now);
    NothingTwice();
  }

  // A transfer of one chunk is dispatched as often as the chunk arrives.
  lemma {:induction false} SingleChunk(s: Slot, c: Chunk, n: nat, now: bv32)
    requires !s.active && c.idx == 0 && c.total == 1 && |c.payload| <= BUF_SIZE
    ensures var (t, ds) := HandleAll(s, Copies(c, n, now));
            !t.active && |ds| == n && forall d :: d in ds ==> d == Delivery(c.src, c.payload)
    decreases n
  {
    hide HandleAll;
    if n > 0 {
      HandleOne(s, Arrive(c, now), Copies(c, n - 1, now));
      assert [] + c.payload == c.payload;
      SingleChunk(Handle(s, Arrive(c, now)).0, c, n - 1, now);
    } else {
      NoEvents(s);
    }
  }

  // While the slot is claimed, chunks of every other stream are dropped, whatever they are.
  lemma {:induction false} OthersDropped(s: Slot, es: seq<Event>)
    requires s.active && forall i :: 0 <= i < |es| ==> es[i].Arrive? && !Found(s, es[i].c)
    ensures HandleAll(s, es) == (s, [])
    decreases |es|
  {
    if |es| > 0 {
      assert Handle(s, es[0]) == (s, []);
      OthersDropped(s, es[1..]);
      NothingTwice();
    }
  }

  // The buffer is large enough for every transfer the sender accepts exactly in the builds
  // with 8-bit lengths.
  lemma BufferFitsExactly(m: nat)
    requires ChunkSize(m)
    ensures (forall n: nat :: n < 0x1_0000_0000 && Accepted(n, m) ==> n <= BUF_SIZE) <==> m == 255
  {
    forall n: nat | n < 0x1_0000_0000 && Accepted(n, m) && m == 255 ensures n <= BUF_SIZE {
      AcceptedExactly(n, m);
    }
    if m == 5120 {
      AcceptedExactly(BUF_SIZE + 1, m);
    }
  }
}
