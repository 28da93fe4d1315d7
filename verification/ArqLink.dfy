// ARQ between two endpoints over lossy channels that keep order and do not duplicate:
// a sends, b receives. b's frames in the other direction are its ACKs and NACKs.
module ArqLink {
  import opened Wrappers
  import opened Arq

  // A frame on its way, with the number of the send it belongs to.
  datatype Flight = Flight(p: Packet, k: int)

  // History: the packets of all sends so far, whether nothing was under way when each began,
  // the sends that returned OK, and the deliveries.
  datatype Link = Link(a: Endpoint, w: Progress, b: Endpoint, ab: seq<Flight>, ba: seq<Flight>,
                       sends: seq<Packet>, clean: seq<bool>, oks: seq<nat>, heard: seq<Flight>)

  // Start: the application sends. PollA: one turn of a's busy loop, or of its main loop.
  // RecvB: b reads a frame. Lose: a frame vanishes. SpoilA, SpoilB: a frame arrives with a
  // failing CRC at a or b, which answers with a NACK for the number it read.
  datatype Action =
    | Start(id: bv16, payload: seq<bv8>)
    | PollA(got: bool, late: bool)
    | RecvB
    | Lose(toB: bool, i: nat)
    | SpoilA(n: bv8)
    | SpoilB(n: bv8)

  predicate IsAck(f: Flight) {
    f.p.id == ACK_ID
  }

  predicate IsData(f: Flight) {
    !IsControl(f.p.id)
  }

  function DataOf(s: seq<Flight>): seq<Flight> {
    if |s| == 0 then [] else DataOf(s[..|s| - 1]) + if IsData(s[|s| - 1]) then [s[|s| - 1]] else []
  }

  function Acks(s: seq<Flight>): nat {
    if |s| == 0 then 0 else Acks(s[..|s| - 1]) + if IsAck(s[|s| - 1]) then 1 else 0
  }

  function Copies(s: seq<Flight>, k: int): nat {
    if |s| == 0 then 0 else Copies(s[..|s| - 1], k) + if s[|s| - 1].k == k then 1 else 0
  }

  function Without(s: seq<Flight>, i: nat): seq<Flight>
    requires i < |s|
  {
    s[..i] + s[i + 1..]
  }

  // What an endpoint has just transmitted.
  function Fresh(before: Endpoint, after: Endpoint, k: int): seq<Flight> {
    if |before.out| <= |after.out|
    then seq(|after.out| - |before.out|, i requires 0 <= i < |after.out| - |before.out| => Flight(after.out[|before.out| + i], k))
    else []
  }

  const INITIAL := Endpoint(0, 0, false, false, Packet(0, 0, []), [], [])
  const QUIET := Link(INITIAL, Done(false), INITIAL, [], [], [], [], [], [])

  predicate Enabled(l: Link, act: Action) {
    match act
    case Start(id, payload) => l.w.Done? && !IsControl(id)
    case PollA(got, late) => got ==> |l.ba| > 0
    case RecvB => |l.ab| > 0
    case Lose(toB, i) => i < if toB then |l.ab| else |l.ba|
    case SpoilA(_) => |l.ba| > 0
    case SpoilB(_) => |l.ab| > 0
  }

  function SendNack(e: Endpoint, n: bv8): Endpoint {
    e.(out := e.out + [Control(NACK_ID, n)])
  }

  function Perform(l: Link, act: Action): Link
    requires Enabled(l, act)
  {
    match act
    case Start(id, payload) =>
      var a := Begin(l.a, id, payload);
      l.(a := a, w := Waiting(0), ab := l.ab + Fresh(l.a, a, |l.sends|),
         sends := l.sends + [a.pend], clean := l.clean + [Idle(l)])
    case PollA(got, late) =>
      var poll := Poll(if got then Some(l.ba[0].p) else None, late);
      var ba := if got then l.ba[1..] else l.ba;
      if l.w.Done? then l.(a := Read(l.a, poll.got), ba := ba) else
      var (a, w) := Turn(l.a, l.w.retries, poll);
      l.(a := a, w := w, ba := ba, ab := l.ab + Fresh(l.a, a, |l.sends| - 1),
         oks := if w == Done(true) && |l.sends| > 0 then l.oks + [|l.sends| - 1] else l.oks)
    case RecvB =>
      var b := Receive(l.b, l.ab[0].p);
      l.(b := b, ab := l.ab[1..], ba := l.ba + Fresh(l.b, b, l.ab[0].k), heard := l.heard + DataOf([l.ab[0]]))
    case Lose(toB, i) =>
      if toB then l.(ab := Without(l.ab, i)) else l.(ba := Without(l.ba, i))
    case SpoilA(n) =>
      var a := SendNack(l.a, n);
      l.(a := a, ba := l.ba[1..], ab := l.ab + Fresh(l.a, a, -1))
    case SpoilB(n) =>
      var b := SendNack(l.b, n);
      l.(b := b, ab := l.ab[1..], ba := l.ba + Fresh(l.b, b, -1))
  }

  // No data frame is on its way to b and no ACK on its way to a.
  predicate Idle(l: Link) {
    |DataOf(l.ab)| == 0 && Acks(l.ba) == 0
  }

  // Any sequence of actions; those that are not enabled do nothing.
  function Exec(l: Link, acts: seq<Action>): Link
    decreases |acts|
  {
    if |acts| == 0 then l else Exec(if Enabled(l, acts[0]) then Perform(l, acts[0]) else l, acts[1..])
  }

  // ---- Counting ----

  lemma {:induction false} DataOfAppend(s: seq<Flight>, t: seq<Flight>)
    ensures DataOf(s + t) == DataOf(s) + DataOf(t)
    decreases |t|
  {
    hide IsData;
    if |t| == 0 {
      assert s + t == s;
    } else {
      assert (s + t)[..|s + t| - 1] == s + t[..|t| - 1];
      DataOfAppend(s, t[..|t| - 1]);
    }
  }

  lemma {:induction false} AcksAppend(s: seq<Flight>, t: seq<Flight>)
    ensures Acks(s + t) == Acks(s) + Acks(t)
    decreases |t|
  {
    hide IsAck;
    if |t| == 0 {
      assert s + t == s;
    } else {
      assert (s + t)[..|s + t| - 1] == s + t[..|t| - 1];
      AcksAppend(s, t[..|t| - 1]);
    }
  }

  lemma {:induction false} CopiesAppend(s: seq<Flight>, t: seq<Flight>, k: int)
    ensures Copies(s + t, k) == Copies(s, k) + Copies(t, k)
    decreases |t|
  {
    if |t| == 0 {
      assert s + t == s;
    } else {
      assert (s + t)[..|s + t| - 1] == s + t[..|t| - 1];
      CopiesAppend(s, t[..|t| - 1], k);
    }
  }

  lemma One(f: Flight)
    ensures DataOf([f]) == if IsData(f) then [f] else []
    ensures Acks([f]) == if IsAck(f) then 1 else 0
    ensures forall k :: Copies([f], k) == if f.k == k then 1 else 0
  {
    assert [f][..0] == [];
  }

  lemma SplitData(s: seq<Flight>, i: nat)
    requires i < |s|
    ensures DataOf(s) == DataOf(s[..i]) + DataOf([s[i]]) + DataOf(s[i + 1..])
    ensures DataOf(Without(s, i)) == DataOf(s[..i]) + DataOf(s[i + 1..])
  {
    hide DataOf;
    var a, b, c := s[..i], [s[i]], s[i + 1..];
    Pieces(s, i);
    DataOfAppend(a + b, c);
    DataOfAppend(a, b);
    DataOfAppend(a, c);
  }

  lemma Pieces(s: seq<Flight>, i: nat)
    requires i < |s|
    ensures s == s[..i] + [s[i]] + s[i + 1..]
  {
  }

  lemma SplitAcks(s: seq<Flight>, i: nat)
    requires i < |s|
    ensures Acks(s) == Acks(Without(s, i)) + Acks([s[i]])
  {
    hide Acks;
    Pieces(s, i);
    AcksAppend(s[..i] + [s[i]], s[i + 1..]);
    AcksAppend(s[..i], [s[i]]);
    AcksAppend(s[..i], s[i + 1..]);
  }

  lemma WithoutFirst(s: seq<Flight>)
    requires |s| > 0
    ensures Without(s, 0) == s[1..]
  {
  }

  lemma {:induction false} NoCopies(t: seq<Flight>, k: int)
    requires forall f :: f in t ==> f.k != k
    ensures Copies(t, k) == 0
  {
    if |t| > 0 {
      assert t[|t| - 1] in t;
      NoCopies(t[..|t| - 1], k);
    }
  }

  lemma {:induction false} DataOfIsData(s: seq<Flight>)
    ensures forall f :: f in DataOf(s) ==> f in s && IsData(f)
  {
    if |s| > 0 {
      DataOfIsData(s[..|s| - 1]);
    }
  }

  // ---- Invariant ----

  // Everything delivered and then everything still to be delivered, in order.
  function Line(l: Link): seq<Flight> {
    l.heard + DataOf(l.ab)
  }

  predicate Sorted(t: seq<Flight>) {
    forall i, j :: 0 <= i <= j < |t| ==> t[i].k <= t[j].k
  }

  predicate Matches(t: seq<Flight>, sends: seq<Packet>) {
    forall i :: 0 <= i < |t| ==> 0 <= t[i].k < |sends| && t[i].p == sends[t[i].k]
  }

  // How often send k has been transmitted at most.
  function Limit(l: Link, k: int): nat {
    if k == |l.sends| - 1 && l.w.Waiting? then l.w.retries + 1 else MAX_RETRIES + 1
  }

  ghost predicate Few(l: Link) {
    forall k :: Copies(Line(l), k) <= Limit(l, k)
  }

  ghost predicate OrderInv(l: Link) {
    Sorted(Line(l)) && Matches(Line(l), l.sends) && Few(l)
  }

  ghost predicate ChannelInv(l: Link) {
    && (forall f :: f in l.ba ==> (f.p.id == ACK_ID || f.p.id == NACK_ID) && |f.p.payload| == 1)
    && (forall f :: f in l.ab ==> IsData(f) || f.p.id == NACK_ID)
    && |l.heard| == |l.b.delivered|
    && (forall i :: 0 <= i < |l.heard| ==> l.heard[i].p == l.b.delivered[i])
  }

  ghost predicate SenderInv(l: Link) {
    && |l.clean| == |l.sends|
    && (l.w.Waiting? ==> |l.sends| > 0 && l.w.retries <= MAX_RETRIES && l.a.pend == l.sends[|l.sends| - 1] && !l.a.ack)
    && (forall i :: 0 <= i < |l.sends| ==> !IsControl(l.sends[i].id))
  }

  ghost predicate AckInv(l: Link) {
    |l.oks| + Acks(l.ba) <= |l.heard|
  }

  // While a send that began with nothing under way is waiting, only its own copies are.
  ghost predicate CleanInv(l: Link) {
    && |l.clean| == |l.sends|
    && (l.w.Waiting? && |l.sends| > 0 && l.clean[|l.sends| - 1] ==>
          && (forall f :: f in DataOf(l.ab) ==> f.k == |l.sends| - 1)
          && (Acks(l.ba) > 0 ==> Copies(l.heard, |l.sends| - 1) > 0))
    && (forall k :: k in l.oks ==> k < |l.sends| && (l.clean[k] ==> Copies(l.heard, k) > 0))
  }

  ghost predicate Inv(l: Link) {
    OrderInv(l) && ChannelInv(l) && SenderInv(l) && AckInv(l) && CleanInv(l)
  }
}
