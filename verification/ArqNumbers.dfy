// Sequence numbers on the link: the sends are numbered in order, modulo 128, and every ACK carries
// the number of the send it answers.
module ArqNumbers {
  import opened Wrappers
  import opened Arq
  import opened ArqLink
  import opened ArqKeeps

  // The number of the k-th send.
  function NumberOf(k: nat): bv8 {
    if k == 0 then 0 else (NumberOf(k - 1) + 1) & 0x7F
  }

  lemma {:induction false} NumbersWrap(k: nat)
    ensures NumberOf(k) as int == k % 128
  {
    if k > 0 {
      NumbersWrap(k - 1);
      hide NumberOf;
      NextNumber(k - 1);
      Successor(NumberOf(k - 1));
    }
  }

  lemma Successor(b: bv8)
    requires b < 128
    ensures (((b + 1) & 0x7F) as int) == if b as int == 127 then 0 else b as int + 1
  {
    if b != 127 {
      assert (b + 1) & 0x7F == b + 1;
    }
  }

  lemma {:induction false} SevenBits(k: nat)
    ensures NumberOf(k) & 0x7F == NumberOf(k)
  {
    if k > 0 {
      Masked(NumberOf(k - 1) + 1);
    }
  }

  lemma Masked(b: bv8)
    ensures b & 0x7F & 0x7F == b & 0x7F
  {
  }

  // How many sends have been completed.
  function Completed(l: Link): int {
    if l.w.Waiting? then |l.sends| - 1 else |l.sends|
  }

  ghost predicate NumberInv(l: Link) {
    && Completed(l) >= 0 && l.a.seqTx == NumberOf(Completed(l))
    && (forall i :: 0 <= i < |l.sends| ==> l.sends[i].seqByte == NumberOf(i))
    && (forall f :: f in l.ba && IsAck(f) ==> AckNames(l, f))
    && (forall k :: k in l.oks ==> k < Completed(l))
  }

  // The ACK answers send number k and says so.
  predicate AckNames(l: Link, f: Flight) {
    0 <= f.k < |l.sends| && f.p == Packet(0xFFFE, 0, [NumberOf(f.k)])
  }

  // ---- One action at a time ----

  lemma StartKeepsNumbers(l: Link, id: bv16, payload: seq<bv8>)
    requires Inv(l) && NumberInv(l) && Enabled(l, Start(id, payload))
    ensures NumberInv(Perform(l, Start(id, payload)))
  {
    hide Inv, Acks, DataOf, Idle, Fresh, NumberOf;
    SevenBits(|l.sends|);
    var l' := Perform(l, Start(id, payload));
    assert forall f :: AckNames(l, f) ==> AckNames(l', f);
  }

  lemma PollTurns(l: Link, got: bool, late: bool)
    requires ChannelInv(l) && Enabled(l, PollA(got, late))
    ensures var l' := Perform(l, PollA(got, late));
            && l'.sends == l.sends && (l.w.Done? ==> l'.w == l.w)
            && l'.a.seqTx == if l.w.Waiting? && l'.w.Done? then (l.a.seqTx + 1) & 0x7F else l.a.seqTx
  {
    hide Acks, DataOf, Fresh, Turn, Receive;
    if got {
      assert l.ba[0] in l.ba;
    }
    var poll := Poll(if got then Some(l.ba[0].p) else None, late);
    if l.w.Waiting? {
      TurnMovesOn(l.a, l.w.retries, poll);
    } else if got {
      ControlKeepsNumber(l.a, l.ba[0].p);
    }
  }

  lemma ControlKeepsNumber(a: Endpoint, p: Packet)
    requires p.id == ACK_ID || p.id == NACK_ID
    ensures Receive(a, p).seqTx == a.seqTx
  {
  }

  lemma PollKeepsNumbers(l: Link, got: bool, late: bool)
    requires Inv(l) && NumberInv(l) && Enabled(l, PollA(got, late))
    ensures NumberInv(Perform(l, PollA(got, late)))
  {
    hide Perform, OrderInv, AckInv, CleanInv, ChannelInv, NumberOf;
    var l' := Perform(l, PollA(got, late));
    PollTurns(l, got, late);
    PollDoes(l, got, late);
    NextNumber(Completed(l));
    assert forall f :: AckNames(l, f) ==> AckNames(l', f);
  }

  lemma NextNumber(k: nat)
    ensures NumberOf(k + 1) == (NumberOf(k) + 1) & 0x7F
  {
  }

  lemma RecvKeepsNumbers(l: Link)
    requires Inv(l) && NumberInv(l) && Enabled(l, RecvB)
    ensures NumberInv(Perform(l, RecvB))
  {
    hide AckInv, CleanInv, SenderInv, Acks, DataOf, Copies, Receive, Fresh, NumberOf;
    var l', f := Perform(l, RecvB), l.ab[0];
    RecvReplies(l);
    if IsData(f) {
      SplitData(l.ab, 0);
      One(f);
      assert f in DataOf(l.ab);
      assert f in Line(l);
      SevenBits(f.k);
    }
    assert forall g :: AckNames(l, g) ==> AckNames(l', g);
  }

  lemma OthersKeepNumbers(l: Link, act: Action)
    requires Inv(l) && NumberInv(l) && Enabled(l, act) && (act.Lose? || act.SpoilA? || act.SpoilB?)
    ensures NumberInv(Perform(l, act))
  {
    hide Inv, Acks, DataOf, NumberOf;
    var l' := Perform(l, act);
    match act
    case Lose(toB, i) =>
    case SpoilA(n) =>
    case SpoilB(n) => NackSent(l, n);
    assert forall g :: AckNames(l, g) ==> AckNames(l', g);
  }

  lemma ActionNumbers(l: Link, act: Action)
    requires Inv(l) && NumberInv(l) && Enabled(l, act)
    ensures NumberInv(Perform(l, act))
  {
    hide Inv, NumberInv, Enabled, Perform;
    match act
    case Start(id, payload) => StartKeepsNumbers(l, id, payload);
    case PollA(got, late) => PollKeepsNumbers(l, got, late);
    case RecvB => RecvKeepsNumbers(l);
    case _ => OthersKeepNumbers(l, act);
  }

  // ---- Every run ----

  lemma {:induction false} RunKeepsNumbers(l: Link, acts: seq<Action>)
    requires Inv(l) && NumberInv(l)
    ensures Inv(Exec(l, acts)) && NumberInv(Exec(l, acts))
    decreases |acts|
  {
    hide Inv, NumberInv, Enabled, Perform;
    if |acts| > 0 {
      if Enabled(l, acts[0]) {
        ActionKeeps(l, acts[0]);
        ActionNumbers(l, acts[0]);
        RunKeepsNumbers(Perform(l, acts[0]), acts[1..]);
      } else {
        RunKeepsNumbers(l, acts[1..]);
      }
    }
  }

  // In every run the k-th send carries number k modulo 128, whatever became of the sends before
  // it, and every ACK under way carries the number of a send that was delivered.
  lemma SendsAreNumbered(acts: seq<Action>)
    ensures var l := Exec(QUIET, acts);
            && (forall k :: 0 <= k < |l.sends| ==> l.sends[k].seqByte as int == k % 128)
            && (forall f :: f in l.ba && IsAck(f) ==>
                  && 0 <= f.k < |l.sends|
                  && |f.p.payload| == 1 && f.p.payload[0] as int == f.k % 128 && f.p.id == 0xFFFE)
  {
    hide Inv, Exec, NumberOf;
    QuietNumbers();
    RunKeepsNumbers(QUIET, acts);
    var l := Exec(QUIET, acts);
    forall k: nat | k < |l.sends| ensures l.sends[k].seqByte as int == k % 128 {
      NumbersWrap(k);
    }
    forall f | f in l.ba && IsAck(f)
      ensures 0 <= f.k < |l.sends| && |f.p.payload| == 1 && f.p.payload[0] as int == f.k % 128 && f.p.id == 0xFFFE
    {
      assert AckNames(l, f);
      NumbersWrap(f.k);
    }
  }

  lemma QuietNumbers()
    ensures Inv(QUIET) && NumberInv(QUIET)
  {
    QuietHolds();
  }
}
