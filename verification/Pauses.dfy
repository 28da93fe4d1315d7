// The decoder as it is polled: bytes with pauses between them.
module Pauses {
  import opened Frame
  import opened Wrappers
  import opened Decoder
  import opened Codec
  import opened FrameFate
  import opened Link

  // What one poll finds: a byte or nothing, and the tick counter.
  datatype Event = Event(got: Option<bv8>, now: bv32)

  // The decoder after the polls, the tick of the last byte, and the answer to each poll.
  function PollAll(cfg: Config, own: bv8, s: State, lastRx: bv32, es: seq<Event>): (r: (State, bv32, seq<Ret>))
    ensures |r.2| == |es|
    decreases |es|
  {
    if |es| == 0 then (s, lastRx, []) else
    var (t, last, r) := Poll(cfg, own, s, lastRx, es[0].got, es[0].now);
    var (u, end, rs) := PollAll(cfg, own, t, last, es[1..]);
    (u, end, [r] + rs)
  }

  function BytesOf(es: seq<Event>): seq<bv8> {
    if |es| == 0 then [] else (if es[0].got.Some? then [es[0].got.value] else []) + BytesOf(es[1..])
  }

  // At most 300 ticks later; the tick counter may wrap around.
  predicate Soon(now: bv32, lastRx: bv32) {
    now - lastRx <= 300
  }

  // No poll finds nothing more than 300 ticks after the last byte.
  predicate Prompt(es: seq<Event>, lastRx: bv32) {
    |es| == 0 ||
    if es[0].got.Some? then Prompt(es[1..], es[0].now) else Soon(es[0].now, lastRx) && Prompt(es[1..], lastRx)
  }

  // Each poll that found nothing says so; the others have the answers of the decoder.
  function Interleaved(es: seq<Event>, rs: seq<Ret>): seq<Ret>
    requires |rs| == |BytesOf(es)|
  {
    if |es| == 0 then []
    else if es[0].got.Some? then [rs[0]] + Interleaved(es[1..], rs[1..])
    else [WaitData] + Interleaved(es[1..], rs)
  }

  // A poll that finds nothing gives up an unfinished frame exactly if more than 300 ticks have
  // passed since the last byte, and otherwise changes nothing.
  lemma EmptyPoll(cfg: Config, own: bv8, s: State, lastRx: bv32, now: bv32)
    ensures var (t, last, r) := Poll(cfg, own, s, lastRx, None, now);
            && (r == ErrTimeout <==> s.phase != Start1 && now - lastRx > 300)
            && (r == ErrTimeout ==> t == Reset(cfg, s) && last == now)
            && (r != ErrTimeout ==> r == WaitData && t == s && last == lastRx)
  {
    hide Reset;
  }

  lemma QuietPoll(cfg: Config, own: bv8, s: State, lastRx: bv32, got: Option<bv8>, now: bv32)
    requires got.None? && Soon(now, lastRx)
    ensures var r := Poll(cfg, own, s, lastRx, got, now); r.0 == s && r.1 == lastRx && r.2 == WaitData
  {
    hide Reset;
  }

  lemma BytePoll(cfg: Config, own: bv8, s: State, lastRx: bv32, b: bv8, now: bv32)
    ensures var (t, r) := Step(cfg, own, s, b);
            var q := Poll(cfg, own, s, lastRx, Some(b), now);
            q.0 == t && q.1 == now && q.2 == r
  {
    hide Step;
  }

  lemma PromptRest(es: seq<Event>, lastRx: bv32)
    requires |es| > 0 && es[0].got.None? && Prompt(es, lastRx)
    ensures Soon(es[0].now, lastRx) && Prompt(es[1..], lastRx)
  {
  }

  lemma PollAllCons(cfg: Config, own: bv8, s: State, lastRx: bv32, es: seq<Event>)
    requires |es| > 0
    ensures var r := Poll(cfg, own, s, lastRx, es[0].got, es[0].now);
            var all, rest := PollAll(cfg, own, s, lastRx, es), PollAll(cfg, own, r.0, r.1, es[1..]);
            all.0 == rest.0 && all.1 == rest.1 && all.2 == [r.2] + rest.2
  {
    hide Poll;
  }

  lemma RunCons(cfg: Config, own: bv8, s: State, b: bv8, bytes: seq<bv8>)
    ensures var (t, r) := Step(cfg, own, s, b);
            var (u, rs) := Run(cfg, own, t, bytes);
            Run(cfg, own, s, [b] + bytes) == (u, [r] + rs)
  {
    hide Step;
    assert ([b] + bytes)[1..] == bytes;
  }

  lemma InterleavedCons(es: seq<Event>, r: Ret, rs: seq<Ret>)
    requires |es| > 0 && es[0].got.Some? && |rs| == |BytesOf(es[1..])|
    ensures BytesOf(es) == [es[0].got.value] + BytesOf(es[1..])
    ensures Interleaved(es, [r] + rs) == [r] + Interleaved(es[1..], rs)
  {
    assert ([r] + rs)[1..] == rs;
  }

  lemma InterleavedNone(es: seq<Event>, rs: seq<Ret>)
    requires |es| > 0 && es[0].got.None? && |rs| == |BytesOf(es[1..])|
    ensures BytesOf(es) == BytesOf(es[1..]) && Interleaved(es, rs) == [WaitData] + Interleaved(es[1..], rs)
  {
  }

  // Prompt bytes are decoded as if there were no pauses, whatever they are.
  lemma {:induction false} PausesDoNotMatter(cfg: Config, own: bv8, s: State, lastRx: bv32, es: seq<Event>)
    requires Prompt(es, lastRx)
    ensures var (t, rs) := Run(cfg, own, s, BytesOf(es));
            var (u, _, qs) := PollAll(cfg, own, s, lastRx, es);
            u == t && qs == Interleaved(es, rs)
    decreases |es|, 1
  {
    hide Poll, Step;
    if |es| == 0 {
    } else {
      hide PollAll, Run, Interleaved, BytesOf, Prompt;
      if es[0].got.Some? {
        ByteFirst(cfg, own, s, lastRx, es);
      } else {
        NothingFirst(cfg, own, s, lastRx, es);
      }
    }
  }

  lemma {:induction false} NothingFirst(cfg: Config, own: bv8, s: State, lastRx: bv32, es: seq<Event>)
    requires |es| > 0 && es[0].got.None? && Prompt(es, lastRx)
    ensures var (t, rs) := Run(cfg, own, s, BytesOf(es));
            var (u, _, qs) := PollAll(cfg, own, s, lastRx, es);
            u == t && qs == Interleaved(es, rs)
    decreases |es|, 0
  {
    PromptRest(es, lastRx);
    hide *;
    QuietPoll(cfg, own, s, lastRx, es[0].got, es[0].now);
    PollAllCons(cfg, own, s, lastRx, es);
    PausesDoNotMatter(cfg, own, s, lastRx, es[1..]);
    InterleavedNone(es, Run(cfg, own, s, BytesOf(es[1..])).1);
  }

  lemma {:induction false} ByteFirst(cfg: Config, own: bv8, s: State, lastRx: bv32, es: seq<Event>)
    requires |es| > 0 && es[0].got.Some? && Prompt(es, lastRx)
    ensures var (t, rs) := Run(cfg, own, s, BytesOf(es));
            var (u, _, qs) := PollAll(cfg, own, s, lastRx, es);
            u == t && qs == Interleaved(es, rs)
    decreases |es|, 0
  {
    hide Poll, Step, Run, Interleaved, BytesOf;
    var b, now := es[0].got.value, es[0].now;
    var (t, r) := Step(cfg, own, s, b);
    BytePoll(cfg, own, s, lastRx, b, now);
    PollAllCons(cfg, own, s, lastRx, es);
    PausesDoNotMatter(cfg, own, t, now, es[1..]);
    RunCons(cfg, own, s, b, BytesOf(es[1..]));
    InterleavedCons(es, r, Run(cfg, own, t, BytesOf(es[1..])).1);
  }

  // A frame whose bytes come with pauses of at most 300 ticks is delivered.
  lemma FrameWithPauses(cfg: Config, own: bv8, s: State, lastRx: bv32, es: seq<Event>, f: Fields, p: seq<bv8>)
    requires s.phase == Start1 && Addressed(cfg, own, f) && |p| <= MaxPayload(cfg)
    requires Prompt(es, lastRx) && BytesOf(es) == Wire(cfg, f, p) && es[|es| - 1].got.Some?
    ensures var (t, _, rs) := PollAll(cfg, own, s, lastRx, es);
            && rs[|rs| - 1] == Valid && Received(t) == Meant(cfg, f, p)
            && forall i :: 0 <= i < |rs| - 1 ==> rs[i] == if es[i].got.Some? then InProg else WaitData
  {
    hide Run, Wire, Meant, Received, Addressed, PollAll, Prompt;
    RoundTrip(cfg, own, s, f, p);
    PausesDoNotMatter(cfg, own, s, lastRx, es);
    var rs := Run(cfg, own, s, Wire(cfg, f, p)).1;
    InOrder(es, rs);
  }

  // Where the answers of one frame end up.
  lemma {:induction false} InOrder(es: seq<Event>, rs: seq<Ret>)
    requires |es| > 0 && es[|es| - 1].got.Some? && |rs| == |BytesOf(es)|
    requires |rs| > 0 && rs[|rs| - 1] == Valid && forall i :: 0 <= i < |rs| - 1 ==> rs[i] == InProg
    ensures var qs := Interleaved(es, rs);
            && |qs| == |es| && qs[|qs| - 1] == Valid
            && forall i :: 0 <= i < |qs| - 1 ==> qs[i] == if es[i].got.Some? then InProg else WaitData
    decreases |es|
  {
    if |es| == 1 {
      assert BytesOf(es[1..]) == [];
    } else {
      LastByte(es[1..]);
      InOrder(es[1..], if es[0].got.Some? then rs[1..] else rs);
    }
  }

  lemma {:induction false} LastByte(es: seq<Event>)
    requires |es| > 0 && es[|es| - 1].got.Some?
    ensures |BytesOf(es)| > 0
  {
    if |es| > 1 {
      LastByte(es[1..]);
    }
  }
}
