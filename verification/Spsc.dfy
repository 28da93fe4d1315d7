// The ring buffer shared by two threads: every atomic access is a step of its own, and the
// steps of the producer and the consumer interleave in any order.
module Spsc {
  import opened Octets
  import opened RingBuffer

  // Where the producer is inside Put: idle, with the next head computed, with the tail read
  // and the buffer found not full, with the slot written.
  datatype Producer = PIdle | PNext(el: byte, next: nat) | PFree(el: byte, next: nat) | PWritten(el: byte, next: nat)

  // Where the consumer is inside Get: idle, with the tail read, with the head read and the
  // buffer found not empty, with the slot read.
  datatype Consumer = CIdle | CTail(tail: nat) | CSome(tail: nat) | CRead(tail: nat, el: byte)

  // puts: the elements of the Puts that returned true; gets: what the Gets returned.
  datatype State = State(buf: seq<byte>, head: nat, tail: nat, p: Producer, c: Consumer,
                         puts: seq<byte>, gets: seq<byte>)

  datatype Move = StepProducer(el: byte) | StepConsumer

  // One atomic access of the producer; el is the argument if a new Put begins.
  function Produce(s: State, el: byte): State
    requires s.head < |s.buf|
  {
    match s.p
    case PIdle => s.(p := PNext(el, Succ(s.head, |s.buf|)))
    case PNext(v, next) => if next != s.tail then s.(p := PFree(v, next)) else s.(p := PIdle)
    case PFree(v, next) => s.(buf := s.buf[s.head := v], p := PWritten(v, next))
    case PWritten(v, next) => s.(head := next, p := PIdle, puts := s.puts + [v])
  }

  function Consume(s: State): State
    requires s.c.CSome? ==> s.c.tail < |s.buf|
    requires s.c.CRead? ==> s.c.tail < |s.buf|
  {
    match s.c
    case CIdle => s.(c := CTail(s.tail))
    case CTail(t) => if s.head != t then s.(c := CSome(t)) else s.(c := CIdle)
    case CSome(t) => s.(c := CRead(t, s.buf[t]))
    case CRead(t, v) => s.(tail := Succ(t, |s.buf|), c := CIdle, gets := s.gets + [v])
  }

  function Initial(buf: seq<byte>): State {
    State(buf, 0, 0, PIdle, CIdle, [], [])
  }

  // ---- Invariant ----

  function InUse(s: State): nat
    requires s.head < |s.buf| && s.tail < |s.buf|
  {
    Occupancy(s.head, s.tail, |s.buf|)
  }

  // The live slots hold exactly the elements put and not yet got. A producer that has found
  // room still has it, and a consumer that has found an element still has that one.
  ghost predicate Inv(s: State) {
    && s.head < |s.buf| && s.tail < |s.buf|
    && s.puts == s.gets + Live(s.buf, s.tail, InUse(s))
    && (!s.p.PIdle? ==> s.p.next == Succ(s.head, |s.buf|))
    && (s.p.PFree? || s.p.PWritten? ==> InUse(s) + 1 < |s.buf|)
    && (s.p.PWritten? ==> s.buf[s.head] == s.p.el)
    && (!s.c.CIdle? ==> s.c.tail == s.tail)
    && (s.c.CSome? || s.c.CRead? ==> InUse(s) > 0)
    && (s.c.CRead? ==> s.c.el == s.buf[s.tail])
  }

  lemma ProduceKeeps(s: State, el: byte)
    requires Inv(s)
    ensures Inv(Produce(s, el))
  {
    hide Live;
    FullExactly(s.head, s.tail, |s.buf|);
    match s.p
    case PIdle =>
    case PNext(v, next) =>
    case PFree(v, next) =>
      LiveSnoc(s.buf, s.head, s.tail, v);
      SlotFree(s.head, s.tail, |s.buf|);
    case PWritten(v, next) =>
      LiveSnoc(s.buf, s.head, s.tail, v);
      assert s.buf[s.head := v] == s.buf;
      assert s.gets + (Live(s.buf, s.tail, InUse(s)) + [v]) == s.puts + [v];
  }

  // The slot the producer writes is not one of the live ones.
  lemma SlotFree(head: nat, tail: nat, size: nat)
    requires head < size && tail < size
    ensures forall k :: 0 <= k < Occupancy(head, tail, size) ==> Slot(tail, k, size) != head
    ensures Occupancy(head, tail, size) > 0 ==> head != tail
  {
  }

  lemma ConsumeKeeps(s: State)
    requires Inv(s)
    ensures Inv(Consume(s))
  {
    hide Live;
    FullExactly(s.head, s.tail, |s.buf|);
    if s.c.CRead? {
      LiveTail(s.buf, s.head, s.tail);
      var live := Live(s.buf, s.tail, InUse(s));
      assert live == [live[0]] + live[1..];
      assert s.gets + live == s.gets + [s.c.el] + live[1..];
    }
  }

  function Run(s: State, moves: seq<Move>): State
    requires Inv(s)
    decreases |moves|
  {
    if |moves| == 0 then s else
    match moves[0]
    case StepProducer(el) => ProduceKeeps(s, el); Run(Produce(s, el), moves[1..])
    case StepConsumer => ConsumeKeeps(s); Run(Consume(s), moves[1..])
  }

  lemma {:induction false} RunKeeps(s: State, moves: seq<Move>)
    requires Inv(s)
    ensures Inv(Run(s, moves))
    decreases |moves|
  {
    hide Produce, Consume, Live;
    if |moves| > 0 {
      match moves[0]
      case StepProducer(el) =>
        ProduceKeeps(s, el);
        RunKeeps(Produce(s, el), moves[1..]);
      case StepConsumer =>
        ConsumeKeeps(s);
        RunKeeps(Consume(s), moves[1..]);
    }
  }

  // ---- Every interleaving ----

  // What has been got is always a prefix of what has been put, the difference is what the
  // slots hold, and free and used slots always add up.
  lemma Fifo(buf: seq<byte>, moves: seq<Move>)
    requires |buf| > 0
    ensures Inv(Initial(buf))
    ensures var s := Run(Initial(buf), moves);
            && s.gets <= s.puts && s.head < |s.buf| && s.tail < |s.buf|
            && |s.puts| - |s.gets| == InUse(s) <= |s.buf| - 1
            && s.puts[|s.gets|..] == Live(s.buf, s.tail, InUse(s))
  {
    hide Run, Live;
    StartsEmpty(buf);
    RunKeeps(Initial(buf), moves);
  }

  lemma StartsEmpty(buf: seq<byte>)
    requires |buf| > 0
    ensures Inv(Initial(buf))
  {
  }

  // A write to a slot never changes an element that is still to be got.
  lemma WriteIsHarmless(s: State, el: byte)
    requires Inv(s) && s.p.PFree?
    ensures var t := Produce(s, el);
            t.tail == s.tail && InUse(t) == InUse(s) && Live(t.buf, t.tail, InUse(t)) == Live(s.buf, s.tail, InUse(s))
  {
    hide Live;
    LiveSnoc(s.buf, s.head, s.tail, s.p.el);
  }

  // A Put may be refused only when the buffer was full at the moment the tail was read, and a
  // Get only when it was empty at the moment the head was read.
  lemma RefusalsAreJustified(s: State, el: byte)
    requires Inv(s)
    ensures s.p.PNext? && Produce(s, el).p.PIdle? ==> InUse(s) == |s.buf| - 1
    ensures s.c.CTail? && Consume(s).c.CIdle? ==> InUse(s) == 0
  {
    hide Live;
    FullExactly(s.head, s.tail, |s.buf|);
  }
}
