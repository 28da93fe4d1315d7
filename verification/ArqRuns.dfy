// What holds of every run, and what OK means to the sender.
module ArqRuns {
  import opened Arq
  import opened ArqLink
  import opened ArqKeeps
  import Decoder

  // ---- Every run ----

  // Each packet in order, as many times as its count says.
  function Repeated(sends: seq<Packet>, counts: seq<nat>): seq<Packet>
    requires |sends| == |counts|
  {
    if |sends| == 0 then []
    else Repeated(sends[..|sends| - 1], counts[..|sends| - 1]) + Repeat(sends[|sends| - 1], counts[|sends| - 1])
  }

  function Packets(t: seq<Flight>): seq<Packet> {
    seq(|t|, i requires 0 <= i < |t| => t[i].p)
  }

  function CountsOf(t: seq<Flight>, n: nat): (c: seq<nat>)
    ensures |c| == n
  {
    seq(n, k => Copies(t, k))
  }

  // A sorted line of copies is each packet repeated.
  lemma {:induction false} SortedIsRepeated(t: seq<Flight>, sends: seq<Packet>)
    requires Sorted(t) && Matches(t, sends)
    ensures Packets(t) == Repeated(sends, CountsOf(t, |sends|))
    decreases |sends|
  {
    hide Copies, Repeat;
    var n := |sends|;
    if n == 0 {
      CopiesNeedSends(t, sends);
      assert Packets(t) == [];
    } else {
      var m := LastRun(t, n - 1);
      var head, tail := t[..m], t[m..];
      SortedIsRepeated(head, sends[..n - 1]);
      assert t == head + tail;
      CountsSplit(head, tail, n);
      assert forall i :: 0 <= i < |tail| ==> tail[i] == t[m + i];
      assert Packets(tail) == Repeat(sends[n - 1], |tail|);
      assert Packets(t) == Packets(head) + Packets(tail);
    }
  }

  // The last send's copies are the tail, those of the others are in the head.
  lemma CountsSplit(head: seq<Flight>, tail: seq<Flight>, n: nat)
    requires n > 0 && (forall i :: 0 <= i < |head| ==> head[i].k < n - 1) && forall i :: 0 <= i < |tail| ==> tail[i].k == n - 1
    ensures CountsOf(head + tail, n)[..n - 1] == CountsOf(head, n - 1) && CountsOf(head + tail, n)[n - 1] == |tail|
  {
    hide Copies;
    forall k: nat | k < n - 1 ensures Copies(head + tail, k) == Copies(head, k) {
      CopiesAppend(head, tail, k);
      NoCopies(tail, k);
    }
    CopiesAppend(head, tail, n - 1);
    NoCopies(head, n - 1);
    AllCopies(tail, n - 1);
  }

  lemma CopiesNeedSends(t: seq<Flight>, sends: seq<Packet>)
    requires Matches(t, sends)
    ensures |t| > 0 ==> |sends| > 0
  {
    if |t| > 0 {
      assert 0 <= t[0].k < |sends|;
    }
  }

  // Where the copies of the last send begin.
  lemma {:induction false} LastRun(t: seq<Flight>, k: int) returns (m: nat)
    requires Sorted(t) && forall i :: 0 <= i < |t| ==> t[i].k <= k
    ensures m <= |t|
    ensures forall i :: 0 <= i < m ==> t[i].k < k
    ensures forall i :: m <= i < |t| ==> t[i].k == k
  {
    m := |t|;
    while m > 0 && t[m - 1].k == k
      invariant m <= |t|
      invariant forall i :: m <= i < |t| ==> t[i].k == k
    {
      m := m - 1;
    }
  }

  lemma {:induction false} AllCopies(t: seq<Flight>, k: int)
    requires forall i :: 0 <= i < |t| ==> t[i].k == k
    ensures Copies(t, k) == |t|
  {
    if |t| > 0 {
      AllCopies(t[..|t| - 1], k);
    }
  }

  // In every run b's deliveries are a's payloads in order, each repeated between 0 and
  // MAX_RETRIES + 1 times, and there are at least as many as sends that returned OK.
  lemma Deliveries(acts: seq<Action>)
    ensures var l := Exec(QUIET, acts);
            && (exists counts: seq<nat> :: |counts| == |l.sends| && (forall c :: c in counts ==> c <= MAX_RETRIES + 1)
                                           && l.b.delivered == Repeated(l.sends, counts))
            && |l.oks| <= |l.b.delivered|
  {
    hide Exec, Repeated, Acks;
    QuietHolds();
    RunKeeps(QUIET, acts);
    var l := Exec(QUIET, acts);
    var counts := CountsOf(l.heard, |l.sends|);
    HeardSorted(l);
    SortedIsRepeated(l.heard, l.sends);
    assert l.b.delivered == Packets(l.heard);
  }

  lemma HeardSorted(l: Link)
    requires OrderInv(l) && SenderInv(l)
    ensures Sorted(l.heard) && Matches(l.heard, l.sends)
    ensures forall c :: c in CountsOf(l.heard, |l.sends|) ==> c <= MAX_RETRIES + 1
  {
    hide DataOf, Copies;
    var t := Line(l);
    assert forall i :: 0 <= i < |l.heard| ==> l.heard[i] == t[i];
    forall k: nat | k < |l.sends| ensures Copies(l.heard, k) <= MAX_RETRIES + 1 {
      CopiesAppend(l.heard, DataOf(l.ab), k);
      assert Copies(t, k) <= Limit(l, k);
    }
  }

  // ---- What OK means ----

  // A send that began with nothing under way and returned OK was delivered.
  lemma CleanOkMeansDelivered(acts: seq<Action>, k: nat)
    requires k in Exec(QUIET, acts).oks
    ensures var l := Exec(QUIET, acts);
            k < |l.sends| == |l.clean| && (l.clean[k] ==> exists i :: 0 <= i < |l.heard| && l.heard[i].k == k)
  {
    hide Exec, Acks, DataOf;
    QuietHolds();
    RunKeeps(QUIET, acts);
    var l := Exec(QUIET, acts);
    if l.clean[k] {
      FindCopy(l.heard, k);
    }
  }

  lemma {:induction false} FindCopy(t: seq<Flight>, k: int)
    requires Copies(t, k) > 0
    ensures exists i :: 0 <= i < |t| && t[i].k == k
  {
    if t[|t| - 1].k != k {
      FindCopy(t[..|t| - 1], k);
      var i :| 0 <= i < |t| - 1 && t[..|t| - 1][i].k == k;
      assert t[i].k == k;
    }
  }

  // The header file promises that OK means "delivered". For the next send of an idle sender
  // that is so, whatever happens afterwards, exactly when no ACK is on its way to the sender
  // and no earlier data frame on its way to the receiver.
  ghost predicate OkIsTrusted(l: Link, id: bv16, payload: seq<bv8>)
    requires Enabled(l, Start(id, payload))
  {
    var n := |l.sends|;
    forall acts :: var m := Exec(Perform(l, Start(id, payload)), acts); n in m.oks ==> Copies(m.heard, n) > 0
  }

  lemma OkTrustedExactly(l: Link, id: bv16, payload: seq<bv8>)
    requires Inv(l) && Enabled(l, Start(id, payload))
    ensures OkIsTrusted(l, id, payload) <==> Idle(l)
  {
    hide Exec, Perform, Inv, Idle;
    if Idle(l) {
      ActionKeeps(l, Start(id, payload));
      var m := Perform(l, Start(id, payload));
      StartClean(l, id, payload);
      forall acts ensures |l.sends| in Exec(m, acts).oks ==> Copies(Exec(m, acts).heard, |l.sends|) > 0 {
        RunKeeps(m, acts);
        HistoryGrows(m, acts);
        OksDelivered(Exec(m, acts), |l.sends|);
      }
    } else {
      var acts := Deception(l, id, payload);
    }
  }

  lemma StartClean(l: Link, id: bv16, payload: seq<bv8>)
    requires Inv(l) && Enabled(l, Start(id, payload))
    ensures var m := Perform(l, Start(id, payload));
            |m.clean| == |l.sends| + 1 && m.clean[|l.sends|] == Idle(l)
            && m.w == Waiting(0) && m.ba == l.ba && l.ab <= m.ab && m.heard == l.heard && |m.sends| == |l.sends| + 1
  {
    hide Idle, Begin, Fresh, OrderInv, ChannelInv, AckInv, CleanInv;
  }

  lemma OksDelivered(l: Link, k: nat)
    requires Inv(l)
    ensures k in l.oks && k < |l.clean| && l.clean[k] ==> Copies(l.heard, k) > 0
  {
    hide OrderInv, ChannelInv, SenderInv, AckInv, Copies;
  }

  lemma {:induction false} HistoryGrows(l: Link, acts: seq<Action>)
    ensures l.clean <= Exec(l, acts).clean
    decreases |acts|
  {
    hide Begin, Turn, Receive, SendNack, Fresh, Idle, Read, Without, DataOf;
    if |acts| > 0 {
      HistoryGrows(if Enabled(l, acts[0]) then Perform(l, acts[0]) else l, acts[1..]);
    }
  }

  // A run in which the send returns OK although its frame is still on its way.
  lemma Deception(l: Link, id: bv16, payload: seq<bv8>) returns (acts: seq<Action>)
    requires Inv(l) && Enabled(l, Start(id, payload)) && !Idle(l)
    ensures var m := Exec(Perform(l, Start(id, payload)), acts); |l.sends| in m.oks && Copies(m.heard, |l.sends|) == 0
  {
    hide Exec, Perform, Inv, Acks, DataOf, Copies;
    var n, m := |l.sends|, Perform(l, Start(id, payload));
    ActionKeeps(l, Start(id, payload));
    StartClean(l, id, payload);
    NotHeardYet(l);
    if Acks(l.ba) > 0 {
      var j := FindAck(l.ba);
      acts := StaleAck(m, j);
    } else {
      var j := FindData(l.ab);
      OldData(l, j);
      acts := StaleData(m, j);
    }
  }

  lemma NotHeardYet(l: Link)
    requires Inv(l)
    ensures Copies(l.heard, |l.sends|) == 0
  {
    hide ChannelInv, SenderInv, AckInv, CleanInv, Copies, DataOf;
    forall f | f in l.heard ensures f.k != |l.sends| {
      assert f in Line(l);
    }
    NoCopies(l.heard, |l.sends|);
  }

  lemma OldData(l: Link, j: nat)
    requires Inv(l) && j < |l.ab| && IsData(l.ab[j])
    ensures l.ab[j].k < |l.sends|
  {
    hide ChannelInv, SenderInv, AckInv, CleanInv, DataOf;
    SplitData(l.ab, j);
    One(l.ab[j]);
    assert l.ab[j] in DataOf(l.ab);
    assert l.ab[j] in Line(l);
  }

  lemma {:induction false} FindAck(s: seq<Flight>) returns (j: nat)
    requires Acks(s) > 0
    ensures j < |s| && IsAck(s[j])
  {
    if IsAck(s[|s| - 1]) {
      j := |s| - 1;
    } else {
      j := FindAck(s[..|s| - 1]);
    }
  }

  lemma {:induction false} FindData(s: seq<Flight>) returns (j: nat)
    requires |DataOf(s)| > 0
    ensures j < |s| && IsData(s[j])
  {
    if IsData(s[|s| - 1]) {
      j := |s| - 1;
    } else {
      j := FindData(s[..|s| - 1]);
    }
  }

  // Everything before the ACK is lost; the ACK then ends the wait.
  lemma {:induction false} StaleAck(m: Link, j: nat) returns (acts: seq<Action>)
    requires Inv(m) && m.w.Waiting? && j < |m.ba| && IsAck(m.ba[j])
    ensures Exec(m, acts).heard == m.heard && |m.sends| - 1 in Exec(m, acts).oks
    decreases j
  {
    hide Inv, Acks, DataOf, Copies;
    if j == 0 {
      acts := [PollA(true, false)];
      AckEndsWait(m);
      assert Exec(m, acts) == Exec(Perform(m, PollA(true, false)), []) by {
        assert acts[1..] == [];
      }
    } else {
      var first := Lose(false, 0);
      ActionKeeps(m, first);
      var rest := StaleAck(Perform(m, first), j - 1);
      acts := [first] + rest;
      assert acts[1..] == rest;
    }
  }

  lemma AckEndsWait(m: Link)
    requires Inv(m) && m.w.Waiting? && |m.ba| > 0 && IsAck(m.ba[0])
    ensures var m' := Perform(m, PollA(true, false)); m'.heard == m.heard && |m.sends| - 1 in m'.oks
  {
    hide OrderInv, CleanInv, Acks, DataOf, Fresh, Next;
    assert m.ba[0] in m.ba;
  }

  // Everything before an old data frame is lost; b then acknowledges it, and that ACK is taken
  // for an answer to the new frame.
  lemma {:induction false} StaleData(m: Link, j: nat) returns (acts: seq<Action>)
    requires Inv(m) && m.w.Waiting? && j < |m.ab| && IsData(m.ab[j]) && m.ab[j].k < |m.sends| - 1
    requires Copies(m.heard, |m.sends| - 1) == 0
    ensures Copies(Exec(m, acts).heard, |m.sends| - 1) == 0 && |m.sends| - 1 in Exec(m, acts).oks
    decreases j
  {
    hide Inv, Acks, DataOf, Copies;
    var first := if j == 0 then RecvB else Lose(true, 0);
    ActionKeeps(m, first);
    var m', rest := Perform(m, first), [];
    if j == 0 {
      OldDataAcked(m);
      rest := StaleAck(m', |m'.ba| - 1);
    } else {
      rest := StaleData(m', j - 1);
    }
    acts := [first] + rest;
    assert acts[1..] == rest;
  }

  lemma OldDataAcked(m: Link)
    requires Inv(m) && |m.ab| > 0 && IsData(m.ab[0]) && m.ab[0].k < |m.sends| - 1
    requires Copies(m.heard, |m.sends| - 1) == 0
    ensures var m' := Perform(m, RecvB);
            |m'.ba| > 0 && IsAck(m'.ba[|m'.ba| - 1]) && Copies(m'.heard, |m.sends| - 1) == 0
  {
    hide OrderInv, CleanInv, SenderInv, AckInv, Acks, DataOf, Copies, Fresh, Receive, Decoder.SeqNumber;
    RecvReplies(m);
    CopiesAppend(m.heard, [m.ab[0]], |m.sends| - 1);
    One(m.ab[0]);
  }
}
