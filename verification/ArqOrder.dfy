// Every action keeps the order of the data frames.
module ArqOrder {
  import opened Wrappers
  import opened Arq
  import opened ArqLink
  import Decoder

  lemma FreshOne(before: Endpoint, after: Endpoint, p: Packet, k: int)
    requires after.out == before.out + [p]
    ensures Fresh(before, after, k) == [Flight(p, k)]
  {
  }

  lemma FreshNone(before: Endpoint, after: Endpoint, k: int)
    requires after.out == before.out
    ensures Fresh(before, after, k) == []
  {
  }

  // One more transmission at the end of the line.
  lemma Grow(l: Link, l': Link, f: Flight)
    requires OrderInv(l) && Line(l') == Line(l) + [f] && l.sends <= l'.sends
    requires 0 <= f.k == |l'.sends| - 1 && f.p == l'.sends[f.k]
    requires forall k :: Copies(Line(l), k) + (if k == f.k then 1 else 0) <= Limit(l', k)
    ensures OrderInv(l')
  {
    hide Line, Limit, Copies;
    One(f);
    assert l.heard + [] == l.heard;
    forall k ensures Copies(Line(l'), k) <= Limit(l', k) {
      CopiesAppend(Line(l), [f], k);
    }
  }

  // One transmission less.
  lemma Shrink(l: Link, l': Link, x: seq<Flight>, f: Flight, z: seq<Flight>)
    requires OrderInv(l) && Line(l) == x + [f] + z && Line(l') == x + z && l'.sends == l.sends && l'.w == l.w
    ensures OrderInv(l')
  {
    hide Line, Copies;
    var t := x + [f] + z;
    assert forall i :: 0 <= i < |x| ==> (x + z)[i] == t[i];
    assert forall i :: |x| <= i < |x + z| ==> (x + z)[i] == t[i + 1];
    forall k ensures Copies(Line(l'), k) <= Limit(l', k) {
      CopiesAppend(x + [f], z, k);
      CopiesAppend(x, [f], k);
      CopiesAppend(x, z, k);
    }
  }

  // Nothing that the order depends on has changed, except that attempts may have been used up.
  lemma SameLine(l: Link, l': Link)
    requires OrderInv(l) && Line(l') == Line(l) && l'.sends == l.sends
    requires forall k :: Limit(l, k) <= Limit(l', k)
    ensures OrderInv(l')
  {
    hide Line, Copies, Limit;
  }

  lemma StartKeepsOrder(l: Link, id: bv16, payload: seq<bv8>)
    requires Inv(l) && Enabled(l, Start(id, payload))
    ensures OrderInv(Perform(l, Start(id, payload)))
  {
    hide DataOf, Copies, Acks, Decoder.SeqNumber, ChannelInv, AckInv, CleanInv;
    var l', n := Perform(l, Start(id, payload)), |l.sends|;
    var f := Flight(l'.a.pend, n);
    FreshOne(l.a, l'.a, l'.a.pend, n);
    DataOfAppend(l.ab, [f]);
    One(f);
    assert Line(l') == Line(l) + [f];
    forall k ensures Copies(Line(l), k) + (if k == n then 1 else 0) <= Limit(l', k) {
      assert Copies(Line(l), k) <= Limit(l, k);
      if k == n {
        NoCopies(Line(l), n);
      }
    }
    Grow(l, l', f);
  }

  // What one turn of the busy loop does when only ACKs and NACKs come back.
  lemma TurnDoes(a: Endpoint, retries: nat, poll: Poll)
    requires !a.ack && retries <= MAX_RETRIES
    requires poll.got.Some? ==> poll.got.value.id == ACK_ID || poll.got.value.id == NACK_ID
    ensures var (b, w) := Turn(a, retries, poll);
            && b.pend == a.pend && b.delivered == a.delivered
            && (w.Waiting? ==> !b.ack && retries <= w.retries <= MAX_RETRIES)
            && b.out == (if w.Waiting? && w.retries > retries then a.out + [a.pend] else a.out)
            && (w == Done(true) ==> poll.got.Some? && poll.got.value.id == ACK_ID)
  {
    hide Next;
  }

  lemma PollKeepsOrder(l: Link, got: bool, late: bool)
    requires Inv(l) && Enabled(l, PollA(got, late))
    ensures OrderInv(Perform(l, PollA(got, late)))
  {
    hide DataOf, Copies, Acks, Turn, Receive, AckInv, CleanInv;
    var l', n := Perform(l, PollA(got, late)), |l.sends| - 1;
    var poll := Poll(if got then Some(l.ba[0].p) else None, late);
    if l.w.Done? {
      SameLine(l, l');
    } else {
      TurnDoes(l.a, l.w.retries, poll);
      if l'.w.Waiting? && l'.w.retries > l.w.retries {
        var f := Flight(l.a.pend, n);
        FreshOne(l.a, l'.a, l.a.pend, n);
        DataOfAppend(l.ab, [f]);
        One(f);
        assert Line(l') == Line(l) + [f];
        Grow(l, l', f);
      } else {
        FreshNone(l.a, l'.a, n);
        assert l.ab + [] == l.ab;
        SameLine(l, l');
      }
    }
  }

  lemma RecvKeepsOrder(l: Link)
    requires Inv(l) && Enabled(l, RecvB)
    ensures OrderInv(Perform(l, RecvB))
  {
    hide DataOf, Copies, Acks, Receive, AckInv, CleanInv, ChannelInv, SenderInv;
    var l', f := Perform(l, RecvB), l.ab[0];
    assert l.ab == [f] + l.ab[1..];
    DataOfAppend([f], l.ab[1..]);
    SameLine(l, l');
  }

  lemma LoseKeepsOrder(l: Link, toB: bool, i: nat)
    requires Inv(l) && Enabled(l, Lose(toB, i))
    ensures OrderInv(Perform(l, Lose(toB, i)))
  {
    hide DataOf, Copies, Acks, AckInv, CleanInv, ChannelInv, SenderInv;
    var l' := Perform(l, Lose(toB, i));
    if toB {
      LessToB(l, l', i);
    } else {
      SameLine(l, l');
    }
  }

  lemma LessToB(l: Link, l': Link, i: nat)
    requires OrderInv(l) && i < |l.ab|
    requires DataOf(l'.ab) == DataOf(Without(l.ab, i)) && l'.heard == l.heard && l'.sends == l.sends && l'.w == l.w
    ensures OrderInv(l')
  {
    hide DataOf, Copies, Without, OrderInv;
    var f := l.ab[i];
    SplitData(l.ab, i);
    One(f);
    var x, z := l.heard + DataOf(l.ab[..i]), DataOf(l.ab[i + 1..]);
    assert Line(l') == x + z;
    if IsData(f) {
      assert Line(l) == x + [f] + z;
      Shrink(l, l', x, f, z);
    } else {
      assert Line(l) == x + [] + z;
      assert x + [] == x;
      SameLineOf(l, l');
    }
  }

  lemma SameLineOf(l: Link, l': Link)
    requires OrderInv(l) && Line(l') == Line(l) && l'.sends == l.sends && l'.w == l.w
    ensures OrderInv(l')
  {
    hide Line;
    SameLine(l, l');
  }

  lemma SpoilAKeepsOrder(l: Link, n: bv8)
    requires Inv(l) && Enabled(l, SpoilA(n))
    ensures OrderInv(Perform(l, SpoilA(n)))
  {
    hide DataOf, Copies, Acks, AckInv, CleanInv, ChannelInv, SenderInv, Decoder.SeqNumber;
    var l', p := Perform(l, SpoilA(n)), Control(NACK_ID, n);
    FreshOne(l.a, l'.a, p, -1);
    DataOfAppend(l.ab, [Flight(p, -1)]);
    One(Flight(p, -1));
    SameLineOf(l, l');
  }

  lemma SpoilBKeepsOrder(l: Link, n: bv8)
    requires Inv(l) && Enabled(l, SpoilB(n))
    ensures OrderInv(Perform(l, SpoilB(n)))
  {
    hide DataOf, Copies, Acks, AckInv, CleanInv, ChannelInv, SenderInv, Decoder.SeqNumber, OrderInv;
    WithoutFirst(l.ab);
    LessToB(l, Perform(l, SpoilB(n)), 0);
  }

  lemma OrderKept(l: Link, act: Action)
    requires Inv(l) && Enabled(l, act)
    ensures OrderInv(Perform(l, act))
  {
    hide Inv, Enabled, Perform, OrderInv;
    match act
    case Start(id, payload) => StartKeepsOrder(l, id, payload);
    case PollA(got, late) => PollKeepsOrder(l, got, late);
    case RecvB => RecvKeepsOrder(l);
    case Lose(toB, i) => LoseKeepsOrder(l, toB, i);
    case SpoilA(n) => SpoilAKeepsOrder(l, n);
    case SpoilB(n) => SpoilBKeepsOrder(l, n);
  }
}
