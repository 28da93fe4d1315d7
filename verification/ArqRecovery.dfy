// When a send that is still waiting can succeed.
module ArqRecovery {
  import opened Wrappers
  import opened Arq
  import opened ArqLink
  import opened ArqOrder
  import opened ArqKeeps
  import opened ArqNumbers
  import opened ArqRuns
  import Decoder

  lemma {:induction false} ExecAppend(l: Link, a: seq<Action>, b: seq<Action>)
    ensures Exec(l, a + b) == Exec(Exec(l, a), b)
    decreases |a|
  {
    hide Enabled, Perform;
    if |a| == 0 {
      assert a + b == b;
    } else {
      assert (a + b)[1..] == a[1..] + b;
      ExecAppend(if Enabled(l, a[0]) then Perform(l, a[0]) else l, a[1..], b);
    }
  }

  lemma ExecFirst(l: Link, act: Action, rest: seq<Action>)
    requires Enabled(l, act)
    ensures Exec(l, [act] + rest) == Exec(Perform(l, act), rest)
  {
    hide Enabled, Perform;
    assert ([act] + rest)[1..] == rest;
  }

  // Everything under way can be lost.
  lemma {:induction false} AllLost(l: Link) returns (acts: seq<Action>)
    ensures Exec(l, acts) == l.(ab := [], ba := [])
    decreases |l.ab| + |l.ba|
  {
    if |l.ab| == 0 && |l.ba| == 0 {
      acts := [];
    } else {
      var act := Lose(|l.ab| > 0, 0);
      var rest := AllLost(Perform(l, act));
      acts := [act] + rest;
      ExecFirst(l, act, rest);
    }
  }

  // ---- One more attempt ----

  // The timeout passes, the frame is sent once more and arrives, and its ACK comes back.
  const ATTEMPT: seq<Action> := [PollA(false, true)] + ([RecvB] + ([PollA(true, false)] + []))

  lemma Timeout(l: Link)
    requires Inv(l) && l.w.Waiting? && l.w.retries < 3 && l.ab == [] && l.ba == []
    ensures var m := Perform(l, PollA(false, true));
            && m.w == Waiting(l.w.retries + 1) && m.ab == [Flight(l.sends[|l.sends| - 1], |l.sends| - 1)] && m.ba == []
            && m.sends == l.sends && m.heard == l.heard && m.b == l.b && m.oks == l.oks && !m.a.ack && !m.a.nack
  {
    hide OrderInv, ChannelInv, AckInv, CleanInv, Fresh, Decoder.SeqNumber, Next;
    var m := Perform(l, PollA(false, true));
    FreshOne(l.a, m.a, l.a.pend, |l.sends| - 1);
  }

  lemma Arrival(l: Link, f: Flight)
    requires ChannelInv(l) && l.ab == [f] && l.ba == [] && IsData(f)
    ensures var m := Perform(l, RecvB);
            && m.heard == l.heard + [f] && m.b.delivered == l.b.delivered + [f.p]
            && m.w == l.w && m.a == l.a && m.sends == l.sends && m.oks == l.oks
            && |m.ba| == 1 && m.ba[0].p.id == ACK_ID && |m.ba[0].p.payload| == 1
  {
    hide Receive, DataOf, Acks, Fresh, Decoder.SeqNumber;
    RecvReplies(l);
  }

  lemma Answer(l: Link)
    requires l.w.Waiting? && |l.ba| == 1 && l.ba[0].p.id == ACK_ID && |l.ba[0].p.payload| == 1 && |l.sends| > 0
    ensures var m := Perform(l, PollA(true, false));
            m.w == Done(true) && m.oks == l.oks + [|l.sends| - 1] && m.heard == l.heard && m.b == l.b
  {
    hide Fresh, Next, Decoder.SeqNumber;
  }

  // As long as an attempt is left, the send still delivers its frame and returns OK in some run,
  // even if everything that is under way is lost first.
  lemma Recovers(l: Link) returns (acts: seq<Action>)
    requires Inv(l) && l.w.Waiting? && l.w.retries < 3
    ensures var m, n := Exec(l, acts), |l.sends| - 1;
            && n >= 0 && m.w == Done(true) && m.oks == l.oks + [n]
            && m.heard == l.heard + [Flight(l.sends[n], n)] && m.b.delivered == l.b.delivered + [l.sends[n]]
  {
    hide Inv, Exec, Perform, DataOf, Acks, Copies;
    var lost := AllLost(l);
    RunKeeps(l, lost);
    var m0 := Exec(l, lost);
    Timeout(m0);
    SenderWaits(m0);
    var m1 := Perform(m0, PollA(false, true));
    ActionKeeps(m0, PollA(false, true));
    InvParts(m1);
    Arrival(m1, m1.ab[0]);
    var m2 := Perform(m1, RecvB);
    Answer(m2);
    acts := lost + ATTEMPT;
    ExecAppend(l, lost, ATTEMPT);
    ExecFirst(m0, PollA(false, true), [RecvB] + ([PollA(true, false)] + []));
    ExecFirst(m1, RecvB, [PollA(true, false)] + []);
    ExecFirst(m2, PollA(true, false), []);
    ExecNone(Perform(m2, PollA(true, false)));
  }

  lemma ExecNone(l: Link)
    ensures Exec(l, []) == l
  {
  }

  lemma SenderWaits(l: Link)
    requires Inv(l) && l.w.Waiting?
    ensures |l.sends| > 0 && !IsControl(l.sends[|l.sends| - 1].id)
  {
    hide OrderInv, ChannelInv, AckInv, CleanInv;
  }

  lemma InvParts(l: Link)
    requires Inv(l)
    ensures ChannelInv(l)
  {
    hide OrderInv, ChannelInv, AckInv, CleanInv, SenderInv;
  }

  // ---- No attempt left ----

  // Send n has not succeeded and cannot any more.
  ghost predicate Hopeless(l: Link, n: nat) {
    && n < |l.sends| && n !in l.oks
    && (l.w.Waiting? && n == |l.sends| - 1 ==> l.w.retries == 3 && Idle(l))
  }

  lemma StaysHopeless(l: Link, act: Action, n: nat)
    requires Inv(l) && Enabled(l, act) && Hopeless(l, n)
    ensures Hopeless(Perform(l, act), n)
  {
    hide OrderInv, AckInv, CleanInv, Begin, Turn, Receive, Read, Fresh, DataOf, Acks, Copies, Decoder.SeqNumber, Perform;
    match act
    case Start(id, payload) =>
      StartFresh(l, id, payload);
    case PollA(got, late) =>
      PollHopeless(l, got, late, n);
    case RecvB =>
      RecvHopeless(l, n);
    case Lose(toB, i) =>
      LoseHopeless(l, toB, i, n);
    case SpoilA(k) =>
      SpoilHopeless(l, act, n);
    case SpoilB(k) =>
      SpoilHopeless(l, act, n);
  }

  lemma StartFresh(l: Link, id: bv16, payload: seq<bv8>)
    requires Enabled(l, Start(id, payload))
    ensures var m := Perform(l, Start(id, payload)); |m.sends| == |l.sends| + 1 && m.oks == l.oks && m.w.Waiting?
  {
    hide Begin, Fresh, Idle;
  }

  lemma PollHopeless(l: Link, got: bool, late: bool, n: nat)
    requires Inv(l) && Enabled(l, PollA(got, late)) && Hopeless(l, n)
    ensures Hopeless(Perform(l, PollA(got, late)), n)
  {
    hide OrderInv, AckInv, CleanInv, Fresh, DataOf, Acks, Copies, Decoder.SeqNumber, Perform;
    var m := Perform(l, PollA(got, late));
    PollDoes(l, got, late);
    PollSends(l, got, late);
    if got {
      AcksOfFirst(l.ba);
    }
  }

  lemma PollSends(l: Link, got: bool, late: bool)
    requires SenderInv(l) && ChannelInv(l) && Enabled(l, PollA(got, late))
    ensures var m := Perform(l, PollA(got, late));
            && m.sends == l.sends && (l.w.Done? ==> m.w == l.w)
            && (l.w.Waiting? && l.w.retries == 3 && m.w.Waiting? ==> m.w == l.w && m.ab == l.ab)
  {
    hide Acks, DataOf, Receive, Next, Decoder.SeqNumber, Turn, Fresh;
    var m := Perform(l, PollA(got, late));
    if got {
      assert l.ba[0] in l.ba;
    }
    if l.w.Waiting? {
      TurnDoes(l.a, l.w.retries, Poll(if got then Some(l.ba[0].p) else None, late));
      if l.w.retries == 3 && m.w.Waiting? {
        FreshNone(l.a, m.a, |l.sends| - 1);
        assert l.ab + [] == l.ab;
      }
    }
  }

  lemma RecvHopeless(l: Link, n: nat)
    requires Inv(l) && Enabled(l, RecvB) && Hopeless(l, n)
    ensures Hopeless(Perform(l, RecvB), n)
  {
    hide OrderInv, AckInv, CleanInv, SenderInv, DataOf, Acks, Copies, Receive, Fresh;
    RecvReplies(l);
    SplitData(l.ab, 0);
    One(l.ab[0]);
    WithoutFirst(l.ab);
  }

  lemma LoseHopeless(l: Link, toB: bool, i: nat, n: nat)
    requires Enabled(l, Lose(toB, i)) && Hopeless(l, n)
    ensures Hopeless(Perform(l, Lose(toB, i)), n)
  {
    hide DataOf, Acks;
    if toB {
      SplitData(l.ab, i);
    } else {
      SplitAcks(l.ba, i);
    }
  }

  lemma SpoilHopeless(l: Link, act: Action, n: nat)
    requires Enabled(l, act) && (act.SpoilA? || act.SpoilB?) && Hopeless(l, n)
    ensures Hopeless(Perform(l, act), n)
  {
    hide DataOf, Acks, Fresh;
    NackSent(l, act.n);
    var f := Flight(Control(NACK_ID, act.n), -1);
    One(f);
    if act.SpoilA? {
      AcksOfFirst(l.ba);
      DataOfAppend(l.ab, [f]);
    } else {
      SplitData(l.ab, 0);
      One(l.ab[0]);
      WithoutFirst(l.ab);
      AcksAppend(l.ba, [f]);
    }
  }

  lemma {:induction false} RunHopeless(l: Link, acts: seq<Action>, n: nat)
    requires Inv(l) && Hopeless(l, n)
    ensures n !in Exec(l, acts).oks
    decreases |acts|
  {
    hide Inv, Enabled, Perform, Idle;
    if |acts| > 0 {
      if Enabled(l, acts[0]) {
        StaysHopeless(l, acts[0], n);
        ActionKeeps(l, acts[0]);
        RunHopeless(Perform(l, acts[0]), acts[1..], n);
      } else {
        RunHopeless(l, acts[1..], n);
      }
    }
  }

  // ---- Exactly ----

  // Everything before a data frame is lost; its ACK then ends the wait.
  lemma {:induction false} DataAnswered(m: Link, j: nat) returns (acts: seq<Action>)
    requires Inv(m) && m.w.Waiting? && j < |m.ab| && IsData(m.ab[j])
    ensures |m.sends| - 1 in Exec(m, acts).oks
    decreases j
  {
    hide Inv, Acks, DataOf, Copies, Perform;
    var first := if j == 0 then RecvB else Lose(true, 0);
    ActionKeeps(m, first);
    var m' := Perform(m, first);
    OneGone(m, j);
    var rest := [];
    if j == 0 {
      rest := StaleAck(m', |m'.ba| - 1);
    } else {
      rest := DataAnswered(m', j - 1);
    }
    acts := [first] + rest;
    ExecFirst(m, first, rest);
  }

  lemma OneGone(m: Link, j: nat)
    requires Inv(m) && j < |m.ab| && IsData(m.ab[j])
    ensures var m' := Perform(m, if j == 0 then RecvB else Lose(true, 0));
            && m'.w == m.w && m'.sends == m.sends
            && (j > 0 ==> m'.ab == m.ab[1..])
            && (j == 0 ==> |m'.ba| > 0 && IsAck(m'.ba[|m'.ba| - 1]))
  {
    hide OrderInv, SenderInv, AckInv, CleanInv, Acks, DataOf, Copies, Receive, Fresh, Decoder.SeqNumber;
    if j == 0 {
      RecvReplies(m);
    } else {
      WithoutFirst(m.ab);
    }
  }

  // A waiting send can still return OK if and only if an attempt is left or a data frame or an
  // ACK is under way.
  lemma CanSucceedExactly(l: Link)
    requires Inv(l) && NumberInv(l) && l.w.Waiting?
    ensures (exists acts: seq<Action> :: |l.sends| - 1 in Exec(l, acts).oks) <==> l.w.retries < 3 || !Idle(l)
  {
    hide Inv, Exec, Acks, DataOf, NumberOf;
    SenderWaits(l);
    AtMostThree(l);
    if l.w.retries < 3 {
      var acts := Recovers(l);
    } else if !Idle(l) {
      if Acks(l.ba) > 0 {
        var j := FindAck(l.ba);
        var acts := StaleAck(l, j);
      } else {
        var j := FindData(l.ab);
        var acts := DataAnswered(l, j);
      }
    } else {
      forall acts: seq<Action> ensures |l.sends| - 1 !in Exec(l, acts).oks {
        RunHopeless(l, acts, |l.sends| - 1);
      }
    }
  }

  lemma AtMostThree(l: Link)
    requires Inv(l) && l.w.Waiting?
    ensures l.w.retries <= 3
  {
    hide OrderInv, ChannelInv, AckInv, CleanInv;
  }
}
