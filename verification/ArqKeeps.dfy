// Every action keeps the rest of the invariant, and so does every run.
module ArqKeeps {
  import opened Wrappers
  import opened Arq
  import opened ArqLink
  import opened ArqOrder
  import Decoder

  // What b does with a frame that is data or a NACK.
  lemma ReceiveDoes(b: Endpoint, f: Flight)
    requires IsData(f) || f.p.id == NACK_ID
    ensures var b' := Receive(b, f.p);
            && b'.delivered == b.delivered + (if IsData(f) then [f.p] else [])
            && b'.out == b.out + (if IsData(f) then [Control(ACK_ID, Decoder.SeqNumber(f.p.seqByte))] else [])
  {
    hide Next, Decoder.SeqNumber;
    assert b.delivered + [] == b.delivered && b.out + [] == b.out;
  }

  lemma RecvReplies(l: Link)
    requires ChannelInv(l) && Enabled(l, RecvB)
    ensures var l', f := Perform(l, RecvB), l.ab[0];
            && l'.heard == l.heard + (if IsData(f) then [f] else [])
            && l'.b.delivered == l.b.delivered + (if IsData(f) then [f.p] else [])
            && l'.ba == l.ba + (if IsData(f) then [Flight(Control(ACK_ID, Decoder.SeqNumber(f.p.seqByte)), f.k)] else [])
            && Acks(l'.ba) == Acks(l.ba) + (if IsData(f) then 1 else 0)
  {
    hide Decoder.SeqNumber, Receive, Acks, DataOf;
    var l', f := Perform(l, RecvB), l.ab[0];
    assert f in l.ab;
    One(f);
    ReceiveDoes(l.b, f);
    var p := Control(ACK_ID, Decoder.SeqNumber(f.p.seqByte));
    if IsData(f) {
      FreshOne(l.b, l'.b, p, f.k);
      AcksAppend(l.ba, [Flight(p, f.k)]);
      One(Flight(p, f.k));
    } else {
      FreshNone(l.b, l'.b, f.k);
      assert l.ba + [] == l.ba && l.heard + [] == l.heard;
    }
  }

  // What a's turn does to its side of the link.
  lemma PollDoes(l: Link, got: bool, late: bool)
    requires ChannelInv(l) && SenderInv(l) && Enabled(l, PollA(got, late))
    ensures var l' := Perform(l, PollA(got, late));
            && l'.ba == (if got then l.ba[1..] else l.ba)
            && (l'.ab == l.ab || (l.w.Waiting? && l'.w.Waiting? && l'.ab == l.ab + [Flight(l.a.pend, |l.sends| - 1)]))
            && l'.a.pend == l.a.pend
            && (l'.w.Waiting? ==> l.w.Waiting? && !l'.a.ack && l'.w.retries <= MAX_RETRIES)
            && l'.oks == (if l.w.Waiting? && l'.w == Done(true) then l.oks + [|l.sends| - 1] else l.oks)
            && (l.w.Waiting? && l'.w == Done(true) ==> got && IsAck(l.ba[0]))
  {
    hide Turn, Acks, DataOf, Next, Decoder.SeqNumber;
    var l', n := Perform(l, PollA(got, late)), |l.sends| - 1;
    if got {
      assert l.ba[0] in l.ba;
    }
    if l.w.Waiting? {
      TurnDoes(l.a, l.w.retries, Poll(if got then Some(l.ba[0].p) else None, late));
      if l'.w.Waiting? && l'.w.retries > l.w.retries {
        FreshOne(l.a, l'.a, l.a.pend, n);
      } else {
        FreshNone(l.a, l'.a, n);
        assert l.ab + [] == l.ab;
      }
    }
  }

  lemma NackSent(l: Link, n: bv8)
    ensures Fresh(l.a, SendNack(l.a, n), -1) == [Flight(Control(NACK_ID, n), -1)]
    ensures Fresh(l.b, SendNack(l.b, n), -1) == [Flight(Control(NACK_ID, n), -1)]
  {
    hide Decoder.SeqNumber;
  }

  lemma StartDoes(l: Link, id: bv16, payload: seq<bv8>)
    requires Enabled(l, Start(id, payload))
    ensures var l' := Perform(l, Start(id, payload));
            && l'.ab == l.ab + [Flight(l'.a.pend, |l.sends|)] && l'.a.pend.id == id && !l'.a.ack
            && l'.sends == l.sends + [l'.a.pend]
  {
    hide Decoder.SeqNumber, Idle;
    var l' := Perform(l, Start(id, payload));
    FreshOne(l.a, l'.a, l'.a.pend, |l.sends|);
  }

  lemma ChannelKept(l: Link, act: Action)
    requires Inv(l) && Enabled(l, act)
    ensures ChannelInv(Perform(l, act))
  {
    hide OrderInv, AckInv, CleanInv, Acks, DataOf, Receive, Turn, Begin, Fresh, Idle, Decoder.SeqNumber;
    match act
    case Start(id, payload) =>
      StartDoes(l, id, payload);
    case PollA(got, late) =>
      PollDoes(l, got, late);
    case RecvB =>
      RecvReplies(l);
    case Lose(toB, i) =>
    case SpoilA(n) =>
      NackSent(l, n);
    case SpoilB(n) =>
      NackSent(l, n);
  }

  lemma SenderKept(l: Link, act: Action)
    requires Inv(l) && Enabled(l, act)
    ensures SenderInv(Perform(l, act))
  {
    hide OrderInv, AckInv, CleanInv, Acks, DataOf, Receive, Turn, Begin, Fresh, Idle, Decoder.SeqNumber;
    match act
    case Start(id, payload) =>
      StartDoes(l, id, payload);
    case PollA(got, late) =>
      PollDoes(l, got, late);
    case RecvB =>
    case Lose(toB, i) =>
    case SpoilA(n) =>
    case SpoilB(n) =>
  }

  lemma AcksOfFirst(s: seq<Flight>)
    requires |s| > 0
    ensures Acks(s) == Acks(s[1..]) + if IsAck(s[0]) then 1 else 0
  {
    hide Acks;
    SplitAcks(s, 0);
    WithoutFirst(s);
    One(s[0]);
  }

  lemma AcksKept(l: Link, act: Action)
    requires Inv(l) && Enabled(l, act)
    ensures AckInv(Perform(l, act))
  {
    hide OrderInv, CleanInv, Acks, DataOf, Receive, Turn, Begin, Fresh, Idle, Without, Decoder.SeqNumber, SendNack;
    match act
    case Start(id, payload) =>
    case PollA(got, late) =>
      PollDoes(l, got, late);
      if got {
        AcksOfFirst(l.ba);
      }
    case RecvB =>
      RecvReplies(l);
    case Lose(toB, i) =>
      if !toB {
        SplitAcks(l.ba, i);
      }
    case SpoilA(n) =>
      AcksOfFirst(l.ba);
    case SpoilB(n) =>
      SpoilBKeepsAcks(l, n);
  }

  lemma SpoilBKeepsAcks(l: Link, n: bv8)
    requires AckInv(l) && Enabled(l, SpoilB(n))
    ensures AckInv(Perform(l, SpoilB(n)))
  {
    hide Acks, Fresh, Decoder.SeqNumber, SendNack;
    var f := Flight(Control(NACK_ID, n), -1);
    NackSent(l, n);
    AcksAppend(l.ba, [f]);
    One(f);
  }

  lemma StartKeepsClean(l: Link, id: bv16, payload: seq<bv8>)
    requires Inv(l) && Enabled(l, Start(id, payload))
    ensures CleanInv(Perform(l, Start(id, payload)))
  {
    hide OrderInv, Acks, DataOf, Copies, Begin, Fresh, Decoder.SeqNumber;
    var l', n := Perform(l, Start(id, payload)), |l.sends|;
    var f := Flight(l'.a.pend, n);
    StartDoes(l, id, payload);
    DataOfAppend(l.ab, [f]);
    One(f);
  }

  lemma PollKeepsClean(l: Link, got: bool, late: bool)
    requires Inv(l) && Enabled(l, PollA(got, late))
    ensures CleanInv(Perform(l, PollA(got, late)))
  {
    hide OrderInv, Acks, DataOf, Copies, Turn, Receive, Fresh, Next;
    var l', n := Perform(l, PollA(got, late)), |l.sends| - 1;
    PollDoes(l, got, late);
    if got {
      AcksOfFirst(l.ba);
    }
    if l'.ab != l.ab {
      DataOfAppend(l.ab, [Flight(l.a.pend, n)]);
      One(Flight(l.a.pend, n));
    }
  }

  lemma RecvKeepsClean(l: Link)
    requires Inv(l) && Enabled(l, RecvB)
    ensures CleanInv(Perform(l, RecvB))
  {
    hide OrderInv, Acks, DataOf, Copies, Receive, Fresh, Decoder.SeqNumber;
    var l', f := Perform(l, RecvB), l.ab[0];
    RecvReplies(l);
    assert l.ab == [f] + l.ab[1..];
    DataOfAppend([f], l.ab[1..]);
    One(f);
    assert l.heard + [] == l.heard;
    forall k ensures Copies(l'.heard, k) >= Copies(l.heard, k) && (IsData(f) && f.k == k ==> Copies(l'.heard, k) > 0) {
      if IsData(f) {
        CopiesAppend(l.heard, [f], k);
      }
    }
  }

  lemma LoseKeepsClean(l: Link, toB: bool, i: nat)
    requires Inv(l) && Enabled(l, Lose(toB, i))
    ensures CleanInv(Perform(l, Lose(toB, i)))
  {
    hide OrderInv, Acks, DataOf, Copies, Without;
    if toB {
      SplitData(l.ab, i);
    } else {
      SplitAcks(l.ba, i);
    }
  }

  lemma SpoilAKeepsClean(l: Link, n: bv8)
    requires Inv(l) && Enabled(l, SpoilA(n))
    ensures CleanInv(Perform(l, SpoilA(n)))
  {
    hide OrderInv, Acks, DataOf, Copies, Fresh, Decoder.SeqNumber;
    var f := Flight(Control(NACK_ID, n), -1);
    NackSent(l, n);
    AcksOfFirst(l.ba);
    DataOfAppend(l.ab, [f]);
    One(f);
  }

  lemma SpoilBKeepsClean(l: Link, n: bv8)
    requires Inv(l) && Enabled(l, SpoilB(n))
    ensures CleanInv(Perform(l, SpoilB(n)))
  {
    hide OrderInv, Acks, DataOf, Copies, Fresh, Decoder.SeqNumber;
    var f := Flight(Control(NACK_ID, n), -1);
    NackSent(l, n);
    AcksAppend(l.ba, [f]);
    One(f);
    SplitData(l.ab, 0);
    WithoutFirst(l.ab);
  }

  lemma CleanKept(l: Link, act: Action)
    requires Inv(l) && Enabled(l, act)
    ensures CleanInv(Perform(l, act))
  {
    hide Inv, Enabled, Perform, CleanInv;
    match act
    case Start(id, payload) => StartKeepsClean(l, id, payload);
    case PollA(got, late) => PollKeepsClean(l, got, late);
    case RecvB => RecvKeepsClean(l);
    case Lose(toB, i) => LoseKeepsClean(l, toB, i);
    case SpoilA(n) => SpoilAKeepsClean(l, n);
    case SpoilB(n) => SpoilBKeepsClean(l, n);
  }

  lemma ActionKeeps(l: Link, act: Action)
    requires Inv(l) && Enabled(l, act)
    ensures Inv(Perform(l, act))
  {
    OrderKept(l, act);
    ChannelKept(l, act);
    SenderKept(l, act);
    AcksKept(l, act);
    CleanKept(l, act);
    hide *;
    AllParts(Perform(l, act));
  }

  lemma AllParts(l: Link)
    requires OrderInv(l) && ChannelInv(l) && SenderInv(l) && AckInv(l) && CleanInv(l)
    ensures Inv(l)
  {
  }

  lemma {:induction false} RunKeeps(l: Link, acts: seq<Action>)
    requires Inv(l)
    ensures Inv(Exec(l, acts))
    decreases |acts|
  {
    hide Inv, Enabled, Perform;
    if |acts| > 0 {
      if Enabled(l, acts[0]) {
        ActionKeeps(l, acts[0]);
        RunKeeps(Perform(l, acts[0]), acts[1..]);
      } else {
        RunKeeps(l, acts[1..]);
      }
    }
  }

  lemma QuietHolds()
    ensures Inv(QUIET)
  {
  }
}
